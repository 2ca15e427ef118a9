# CNChess motion core in Dafny

A model of the parts of the CNChess robot that turn a chess move into magnet motion. The robot moves pieces
with an electromagnet on an XY gantry under the board. The model covers:

- **Obstacle grid and A\*.** A mesh of nodes at half-square resolution. An occupied square's centre node
  is made an obstacle by emptying its outgoing neighbour list, so a search can enter it but never leave
  it. A\* searches over this mesh; its edge costs are a parameter.
- **Move planner.** A move becomes a removal leg followed by a main leg. The removal leg is planned only
  for a capture and carries the captured piece from the destination to the park position at the board's
  edge. Each waypoint gets an electromagnet state. The waypoints then become displacements in
  millimetres, measured from wherever the gantry was left.
- **Board models.** The 8×8 character board of the MVC user interface, its controller's click-to-move
  rule, and the pygame front end's own board, image keys and mouse-to-square mapping.
- **Firmware parser.** The Arduino firmware's parsing of the `MOVE a b` lines the planner sends over the
  serial port, using the 16-bit `String` semantics of an AVR board.

Modules and files:

- `PathGrid` (`path_grid.dfy`): the `Grid` class, its node mesh and A\*.
- `MotionControl` (`motion_control.dfy`): the `Control` class.
- `Board` (`board.dfy`): the shared board values.
- `ChessBoardModel` (`chess_model.dfy`): the `ChessModel` class.
- `ChessBoardController` (`chess_controller.dfy`): the `ChessController` class.
- `PygameUI` (`ui.dfy`): the `ChessUI` class.
- `Firmware` (`firmware.dfy`): the line parser and the `Sketch` globals.
- `Wrappers` (`wrappers.dfy`): `Option`.

## Modelling choices

### Grid and A\* (`path_grid.dfy`)

- **Doubled coordinates.** The source's half-square coordinates (x, y) are modelled as the integer point
  (2x, 2y):
  - the centre of square (file f, rank r) is (2f+2, 2r+2);
  - the node at `nodes[i][j]` sits at (j+1, i+1);
  - the park position (8.5, 4.5) is (17, 9).
- **Nodes are identified by position.** `Node.__eq__` and `__hash__` compare positions, so neighbour lists
  and parent links hold positions.
- **Search fields.** A node's mutable search fields (g, h, f cost and parent) are the `scratch` map of the
  `Grid` class. `Grid.a_star` resets them before every search.
- **Costs.** A cost is `Infinite` (for `float('inf')`) or a finite real. An edge costs `dist(p, q)`, a
  function passed in.
- **Open set.** The node expanded next is the first open node with the least f cost, as Python's `min`
  chooses.
- **Relaxation.** A neighbour already in the open set is relaxed only on a strictly smaller g cost: the
  source skips it on `>=`.

### Move planner (`motion_control.dfy`)

- **Board occupancy.** `update_board_state` reads occupancy from a FEN string through python-chess. The
  model takes a 64-entry occupancy sequence instead, indexed by python-chess square number (8·rank + file).
- **Magnet states.** `get_path` turns the magnet off only at index `len(removal) - 1` when that is not
  index 0. Without a capture, that index is -1, so the magnet is never switched off: `MagnetOnMeaning`
  states this as written.

### Board models (`board.dfy`, `chess_model.dfy`, `chess_controller.dfy`, `ui.dfy`)

- **Boards.** Python's lists of lists are sequences of sequences of strings, held in class fields that the
  methods reassign.
- **Letter case.** `str.lower()` and `isupper()` are modelled only as far as they matter to
  `piece_key_from_char`. The one non-ASCII character that lowers to a piece letter is the Kelvin sign
  U+212A.

### Firmware parser (`firmware.dfy`)

- **16-bit `String` semantics.** An `int` index passed to a `String` method becomes a 16-bit
  `unsigned int`, so -1 is 65535. `substring` swaps reversed bounds and clamps the right bound to the
  length. `indexOf` returns -1 when the character is absent.
- **`toInt`.** `toInt` is `atol`: leading white space, an optional sign, then the leading digits, and 0
  when there are none.

## Model

| member | source | states |
|---|---|---|
| PathGrid.Grid.constructor | python/Control.py:64-69 | a (2w+1)×(2h+1) mesh whose node [i][j] sits at half-square point (j+1, i+1), with unlinked nodes and the park position (8.5, 4.5) |
| PathGrid.Grid.GetNode | python/Control.py:71-74 | None exactly for points outside the mesh's half-square range; otherwise the index of the node at that point |
| PathGrid.Grid.GetNeighbors | python/Control.py:76-89 | the in-mesh points of the eight half-step directions, in the source's direction order |
| PathGrid.Grid.NeighborsExactly | python/Control.py:76-89 | q is listed as a neighbour of p if and only if q is in the mesh and half a step from p (never p itself) |
| PathGrid.Grid.NeighborCount | python/Control.py:76-89 | the number of neighbours is the product of the in-mesh spans along each axis less one (8 inside, 5 on an edge, 3 at a corner) |
| PathGrid.Grid.InteriorHasNeighbors | python/Control.py:76-89 | a node not on the mesh's left edge has a non-empty full neighbour list, so "no neighbours" means "obstacle" for every square centre |
| PathGrid.Grid.InitializeLinks | python/Control.py:94-98 | every node gets its full neighbour list |
| PathGrid.Grid.AddObstacle | python/Control.py:100-103 | the node at p loses its outgoing links, no other node changes, and p is an obstacle exactly when it is in the mesh |
| PathGrid.Grid.RemoveObstacle | python/Control.py:105-108 | the node at p regains its full neighbour list and no other node changes |
| PathGrid.Grid.IsObstacle | python/Control.py:190-194 | true exactly for an in-mesh node with an empty outgoing list; false off the mesh |
| PathGrid.Grid.UpdateObstacles | python/Control.py:167-176 | after visiting all 64 squares, each occupied square's centre is an obstacle, each free square's centre is fully linked, and gap nodes are untouched |
| PathGrid.Grid.VisitNext | python/Control.py:169-172 | visiting (file i, rank j) in file-major order adds exactly that square's centre, whose python-chess index is 8·j + i |
| PathGrid.Grid.ResetScratch | python/Control.py:120-126 | every node's search fields become inf, 0, inf and no parent |
| PathGrid.Grid.SelectMin | python/Control.py:136 | an index of a least-f-cost open node, with every earlier node's f cost strictly larger (Python's min keeps the first minimum) |
| PathGrid.Grid.StartSearching | python/Control.py:128-133 | after the reset, the start node with g = 0 and no parent as the only open node satisfies the search invariant |
| PathGrid.Grid.CloseKeeps | python/Control.py:146-147 | moving the expanded node from the open list to the closed set keeps the search invariant |
| PathGrid.Grid.RelaxKeeps | python/Control.py:149-163 | giving a non-closed neighbour the expanded node as parent, with g = parent's g + edge cost, keeps the search invariant |
| PathGrid.LessIsStrictOrder | python/Control.py:136 | Python's `<` on costs (min's key order, and the negation of the `>=` at line 157) is irreflexive, asymmetric, transitive and total, with inf above every finite cost |
| PathGrid.PlusFacts | python/Control.py:153 | adding an edge cost (also at line 163) keeps inf at inf and finite costs finite, preserves the order of costs, and adds up like real addition |
| PathGrid.Grid.CloseKeepsCovered | python/Control.py:146-147 | closing the expanded node leaves every link of the other closed nodes open or closed |
| PathGrid.Grid.Relax | python/Control.py:150-163 | one neighbour pass keeps the search invariant; afterwards the open nodes are the old ones plus the neighbour when it is not closed |
| PathGrid.Grid.Expand | python/Control.py:149-163 | relaxing the neighbours of the expanded node (skipping closed ones and open ones whose cost would not drop) keeps the search invariant; the open list only grows, only by links of the expanded node, and afterwards every link of it is open or closed |
| PathGrid.Grid.ExpandCovers | python/Control.py:146-163 | after an expansion, every link of every closed node is open or closed |
| PathGrid.Grid.CloseAndExpand | python/Control.py:146-163 | one round past the goal test closes the selected node and keeps both the search invariant and the coverage of closed nodes' links |
| PathGrid.Grid.PathStaysIn | python/Control.py:135-165 | a linked path that starts in a closed set whose links are all closed never leaves it |
| PathGrid.Grid.ExhaustedUnreachable | python/Control.py:135-165 | when the open set runs out with the goal never closed, no linked path leads from the start to the goal |
| PathGrid.Grid.WalkStep | python/Control.py:140-143 | prepending the next node and stepping to its parent keeps the walked suffix a linked path to the goal that follows the parent links, with the goal's g cost split at the next node, and the walk moves to a node closed earlier |
| PathGrid.Grid.Reconstruct | python/Control.py:138-144 | following parent links back from the goal yields a linked path from the start to the goal whose edge costs add up to the goal's g cost, each node's parent is its predecessor, and the start has no parent |
| PathGrid.Grid.AStar | python/Control.py:113-165 | [] when an endpoint is off the mesh; otherwise a non-empty result exactly when some linked path joins start to end, and then a linked path from start to end whose edge costs sum to the end's g cost and along which each node's parent is its predecessor; [start] when start == end |
| PathGrid.Grid.Search | python/Control.py:120-165 | between two mesh points: a non-empty result exactly when some linked path joins them, and then a linked path from start to end, following the parent links, whose edge costs sum to the end's g cost; [start] when start == end |
| PathGrid.Grid.PathLeavesNoObstacle | python/Control.py:100-103 | a path along neighbour links passes through no obstacle, except perhaps at its last node |
| MotionControl.SquareCentre | python/Control.py:220-227 | the node of square s is a square centre and s can be read back from it |
| MotionControl.SquareCentreInjective | python/Control.py:220-227 | two squares share a centre node if and only if they are the same square |
| MotionControl.ParkIsNoSquareCentre | python/Control.py:65 | the park position is not the centre of any square |
| MotionControl.MagnetOn | python/Control.py:243-251 | the magnet is off exactly at index len(removal) - 1 when that index is at least 1 |
| MotionControl.MagnetCommands | python/Control.py:240-251 | one command per waypoint, in order, with the magnet off exactly at index len(removal) - 1 when that index is at least 1 |
| MotionControl.MagnetOnMeaning | python/Control.py:240-251 | without a removal leg the magnet is never switched off; with a removal leg it is off only at the park waypoint |
| MotionControl.DeltaMM | python/Control.py:266-267 | the displacement is (end - start) × SQUARE_SIZE_MM in squares: zero for equal points, 50.8 mm for one square |
| MotionControl.DeltaBetweenSquares | python/Control.py:266-267 | between two square centres the displacement is the difference of files and of ranks times SQUARE_SIZE_MM |
| MotionControl.Telescope | python/Control.py:260-273 | consecutive displacements add up to the displacement from the first waypoint to the last |
| MotionControl.Control.constructor | python/Control.py:208-212 | a fully linked 17×17 mesh for the 8×8 board, with the gantry at (0, 0) |
| MotionControl.Control.UpdateBoardState | python/Control.py:216-217 | square s's centre is an obstacle if and only if s is occupied, and gap nodes keep their links |
| MotionControl.Control.GetPath | python/Control.py:219-252 | start is cleared; on a capture the destination is cleared and a removal leg from it to the park position comes first, non-empty exactly when the park position is reachable; the main leg is non-empty exactly when the destination is reachable; commands follow removal ++ main with MagnetOn states |
| MotionControl.Control.PlanRemoval | python/Control.py:231-235 | when the destination is an obstacle it alone is re-linked, and the removal leg runs from it to the park position, non-empty exactly when the park position is reachable; otherwise no leg and no change |
| MotionControl.Control.CalculateTrajectory | python/Control.py:260-273 | one displacement per waypoint from the previous one (the first from the old position), the gantry ends at the last waypoint, and the displacements sum to the move from the old position to the new |
| Board.DefaultBoard | python/ui/chess_model.py:32-43 | an 8×8 board |
| Board.DefaultLayout | python/UI.py:60-71 | Black's pieces on rows 0-1, empty rows 2-5, White's rows 6-7 the upper-case mirror of Black's, kings on column 4 |
| Board.WithCell | python/ui/chess_model.py:55-59 | only the on-board target cell changes; an off-board write changes nothing |
| Board.Moved | python/ui/chess_model.py:84-85 | the source cell becomes "_", the destination gets the source's content, every other cell is kept |
| Board.MoveBack | python/ui/chess_model.py:84-85 | a move to an empty square followed by the move back restores the board |
| Board.FirstIndex | python/ui/chess_model.py:109 | the position of the first occurrence of x, which list.remove deletes |
| Board.RemoveFirst | python/ui/chess_model.py:109 | list.remove of a present x: the list with its first occurrence of x cut out, everything else kept in order (an absent x, where Python raises ValueError, returns the list unchanged; the caller's `in` test at line 108 never lets it through) |
| Board.RemoveFirstNoDup | python/ui/chess_model.py:101-109 | on a duplicate-free observer list, removal keeps it duplicate-free and removes x entirely |
| ChessBoardModel.ChessModel.constructor | python/ui/chess_model.py:26-30 | the default board, no selection, no observers |
| ChessBoardModel.ChessModel.GetPieceAt | python/ui/chess_model.py:49-53 | None exactly off the board, otherwise the cell's content |
| ChessBoardModel.ChessModel.SetPieceAt | python/ui/chess_model.py:55-59 | the board becomes WithCell of the old board; selection and observers are kept |
| ChessBoardModel.ChessModel.SelectPiece | python/ui/chess_model.py:61-68 | true exactly for an on-board cell holding a piece, which becomes the selection; otherwise the selection is kept |
| ChessBoardModel.ChessModel.MovePiece | python/ui/chess_model.py:74-88 | true exactly when both squares are on the board and the source holds a piece; then the board is Moved and the selection cleared, otherwise nothing changes |
| ChessBoardModel.ChessModel.ResetBoard | python/ui/chess_model.py:90-94 | the default board and no selection; observers kept |
| ChessBoardModel.ChessModel.DeselectPiece | python/ui/chess_model.py:96-99 | only the selection is cleared |
| ChessBoardModel.ChessModel.AttachObserver | python/ui/chess_model.py:101-104 | appends an observer not yet attached; attaching twice changes nothing |
| ChessBoardModel.ChessModel.DetachObserver | python/ui/chess_model.py:106-109 | the observer is removed and every other observer kept; detaching an unknown one changes nothing |
| ChessBoardController.ChessController.constructor | python/ui/chess_controller.py:9-12 | the controller drives the given model |
| ChessBoardController.ChessController.HandleSquareClick | python/ui/chess_controller.py:18-36 | with no selection, selects a piece; a click on the selected square deselects; a click elsewhere moves the piece on the selected square when the target is on the board, and otherwise changes nothing |
| ChessBoardController.ChessController.ResetBoard | python/ui/chess_controller.py:38-40 | the model's reset_board |
| PygameUI.LowerPieceLetter | python/UI.py:120-122 | a character lowers to a piece letter exactly when it is one of the twelve ASCII piece letters or the Kelvin sign; characters that are not upper case are kept |
| PygameUI.PieceName | python/UI.py:118 | a name exactly for the six lower-case letters k, q, r, b, n, p |
| PygameUI.PieceKeyFromChar | python/UI.py:117-124 | a key exactly for a one-character string whose lower case is a piece letter: "white-" for upper case, "black-" otherwise, then the piece name |
| PygameUI.NameLetter | python/UI.py:118 | the inverse of the names table |
| PygameUI.KeyChar | python/UI.py:117-124 | the board letter of an image key, always one of the twelve ASCII piece letters |
| PygameUI.PieceKeyRoundTrip | python/UI.py:117-124 | each of the twelve ASCII piece letters has a key, and the key gives the letter back |
| PygameUI.KeyCharInverse | python/UI.py:117-124 | each key the inverse table knows is the key of its letter |
| PygameUI.KelvinIsWhiteKing | python/UI.py:120-122 | the Kelvin sign is upper case and lowers to "k", so it is drawn as the white king |
| PygameUI.DivBand | python/UI.py:136-138 | floor division by the square size names the pixel band, and the quotient is in 0..7 exactly for pixels inside the board |
| PygameUI.ChessUI.constructor | python/UI.py:75-91 | square = width // 8, the default board, no selection |
| PygameUI.ChessUI.CoordFromMouse | python/UI.py:134-140 | None exactly for pixels outside the 8·square board; otherwise the on-board (row, col) whose pixel rectangle holds the point |
| PygameUI.ChessUI.HandleClick | python/UI.py:142-155 | off the board nothing changes; with no selection a piece is selected; with one the selected content is moved to the clicked square (erasing it on a click on itself) and the selection cleared |
| PygameUI.ChessUI.Reset | python/UI.py:165-166 | the default board; the selection is kept |
| Firmware.ParseCommand | Embedded/src/main.cpp:33-39 | MOVE exactly for "MOVE", HOME exactly for "HOME", STOP for every other word |
| Firmware.ToUnsigned | Embedded/src/main.cpp:48-52 | a 16-bit int as the unsigned int a String method takes: nonnegative values are kept, a negative one wraps to value + 65536 (-1 is 65535) |
| Firmware.IndexOf | Embedded/src/main.cpp:47-48 | -1 exactly when ch does not occur from fromIndex on; otherwise the first index of ch at or after fromIndex |
| Firmware.Substring | Embedded/src/main.cpp:50-51 | the slice between the bounds, swapped when reversed, clamped to the length, empty when both bounds are at or past the end |
| Firmware.SubstringFrom | Embedded/src/main.cpp:52 | the rest of the string from left on, empty past the end |
| Firmware.ToInt | Embedded/src/main.cpp:51-52 | 0 when, after white space, there is neither a sign nor a digit |
| Firmware.ToIntOfDecimal | Embedded/src/main.cpp:51-52 | toInt reads back every integer written in decimal |
| Firmware.ReadStringUntil | Embedded/src/main.cpp:44 | the text before the first terminator and the rest after it; everything when there is no terminator |
| Firmware.IntToDecimal | python/Control.py:302 | str(int): a non-empty text without white space that starts with '-' exactly for a negative number |
| Firmware.Frame | python/Control.py:302 | the line "MOVE a b" ends in its only newline |
| Firmware.SplitLine | Embedded/src/main.cpp:47-52 | no piece is longer than the line |
| Firmware.SplitLineCases | Embedded/src/main.cpp:47-52 | the cut for each shape of line: no space, one space (the second target text is the whole line) and two or more spaces |
| Firmware.ParseLine | Embedded/src/main.cpp:47-59 | the word is the text before the first space (the whole line without one) and the command is parseCommand of it; the targets are toInt of the texts between the first two spaces and after the second, or, with one space, of the text after it and of the whole line, or, with none, both of the whole line |
| Firmware.SplitLineNoSpace | Embedded/src/main.cpp:47-52 | a line without spaces: the word and both target texts are the whole line |
| Firmware.SplitLineOneSpace | Embedded/src/main.cpp:47-52 | a line with one space: the word before it, the first target after it, the second target the whole line |
| Firmware.SplitLineTwoSpaces | Embedded/src/main.cpp:47-52 | first two spaces at i < j: the word before i, the targets between i and j and after j |
| Firmware.FrameRoundTrip | Embedded/src/main.cpp:44-59 | a MOVE line framed as send_command frames it, read up to its newline, parses to MOVE with the same two targets (32-bit targets) |
| Firmware.Sketch.constructor | Embedded/src/main.cpp:8-13 | both targets and positions[] start at 0 |
| Firmware.Sketch.Apply | Embedded/src/main.cpp:51-95 | both targets and positions[] take the line's values whatever the command; MOVE moves to them, HOME homes, STOP halts |
| Firmware.Sketch.HandleLine | Embedded/src/main.cpp:44-95 | the targets and positions[] are those of ParseLine; the motors move if and only if the word is "MOVE" |

## Left out

- Serial I/O is not modelled: Control.send_command's write, validate_send_command's acknowledgment wait and timeout, goHome, and Serial.available.
- make_move and go_to_position are not modelled: they only chain get_path and calculate_trajectory with the serial commands.
- convert_to_step is not modelled: its kinematic transform works on floating point (π, √2, the step angle), and Dafny has no floats.
- MotionControl.DeltaMM: floats become exact reals, so the rounding of the products by 50.8 is not modelled. The same holds for MotionControl.Telescope's sums, for the PathGrid Cost type, and for the cost sums at python/Control.py:153 and 163.
- Grid.heuristic becomes the `dist` parameter, because it relies on floating-point `sqrt`. Nothing about shortest paths is claimed.
- update_board_state's FEN parsing by python-chess (`chess.Board`) is not modelled: the model takes the 64 occupancy flags directly.
- PathGrid.Grid.GetNode: models only lattice points. The source truncates off-lattice float coordinates with int(), and its callers never pass such points.
- The pygame and Qt drawing (scan_assets, images, fonts, draw_*, run, the view and set_view) is not modelled, and neither are the print helpers nor the progress message get_path prints when it plans a removal leg (python/Control.py:233).
- notify_observers is not modelled: its callbacks run observer code outside the model.
- get_board and get_selected_piece are plain field reads.
- MotionControl.Control.CalculateTrajectory: returns the extended waypoint list instead of inserting into the caller's list in place, so the aliasing of that list is not modelled.
- Firmware.ParseLine: requires lines shorter than 32768 characters, where every index fits the AVR's 16-bit int.
- Firmware.Sketch.HandleLine: has the same 32768-character bound.
- Firmware.ToInt: unbounded. atol's overflow on values outside 32 bits is undefined behaviour, so FrameRoundTrip is stated for 32-bit targets only.
- Firmware.IndexOf: models characters, not the NUL bytes at which the C string functions stop.
- The firmware's motor control (MultiStepper moves, the homing loops over the limit switches, "HOMED") becomes the returned Action. setup() and the periodic steppers.run() are hardware.
- Serial.readStringUntil's timeout is the no-terminator case of ReadStringUntil.
- The second firmware (embarque/src/main.cpp) is not part of this model.
- PygameUI.ChessUI.constructor: requires width >= 8. With a narrower window, square is 0 and coord_from_mouse raises ZeroDivisionError.
- PygameUI.LowerPieceLetter: models case mapping only up to membership among the piece letters. Full Unicode lower() and isupper() are not modelled.
- A missing image in the UI's image dictionary (the KeyError at start-up) is not modelled.
- The controller's handling of a move onto a square off the board follows the code: move_piece fails and the selection is kept.
