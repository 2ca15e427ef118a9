/**
  The board logic of the pygame front end, python/UI.py: naming piece images, mapping mouse pixels to
  squares, and its own click-to-move rule on its own board.
*/
module PygameUI {
  import opened Wrappers
  import opened Board

  /** U+212A KELVIN SIGN, the one non-ASCII character whose lower case is one of the piece letters. */
  const KelvinSign: char := '\U{212A}'

  /**
    Python's lower() as far as membership among the piece letters is concerned: ASCII capitals and
    the Kelvin sign are lowered; every other character either lowers to a non-piece letter or is one.
  */
  function LowerPieceLetter(c: char): (lower: char)
    ensures lower in "kqrbnp" <==> c in "KQRBNPkqrbnp" || c == KelvinSign
    ensures !IsUpperPieceLetter(c) ==> lower == c
  {
    if 'A' <= c <= 'Z' then (c as int + 32) as char
    else if c == KelvinSign then 'k'
    else c
  }

  /** isupper() of a one-character string that names a piece. */
  predicate IsUpperPieceLetter(c: char) {
    'A' <= c <= 'Z' || c == KelvinSign
  }

  /** The `names` table of piece_key_from_char. */
  function PieceName(c: char): (name: Option<string>)
    ensures name.Some? <==> c in "kqrbnp"
  {
    match c
    case 'k' => Some("king")
    case 'q' => Some("queen")
    case 'r' => Some("rook")
    case 'b' => Some("bishop")
    case 'n' => Some("knight")
    case 'p' => Some("pawn")
    case _ => None
  }

  /**
    piece_key_from_char: "white-<name>" for an upper-case piece letter, "black-<name>" for a
    lower-case one, None for anything else (any string that is not a single piece letter).
  */
  function PieceKeyFromChar(ch: string): (key: Option<string>)
    ensures key.Some? <==> |ch| == 1 && LowerPieceLetter(ch[0]) in "kqrbnp"
    ensures key.Some? ==> key.value == (if IsUpperPieceLetter(ch[0]) then "white-" else "black-")
                                       + PieceName(LowerPieceLetter(ch[0])).value
  {
    // str.lower() never shortens a string, so only one-character strings can lower to a key of `names`.
    if |ch| != 1 then None
    else
      var lower := LowerPieceLetter(ch[0]);
      match PieceName(lower)
      case None => None
      case Some(name) => Some((if IsUpperPieceLetter(ch[0]) then "white-" else "black-") + name)
  }

  /** The letter a piece name abbreviates (the inverse of `names`). */
  function NameLetter(name: string): (c: Option<char>)
    ensures c.Some? ==> PieceName(c.value) == Some(name)
  {
    if name == "king" then Some('k') else if name == "queen" then Some('q')
    else if name == "rook" then Some('r') else if name == "bishop" then Some('b')
    else if name == "knight" then Some('n') else if name == "pawn" then Some('p')
    else None
  }

  /** The board character an image key stands for: the inverse of piece_key_from_char on ASCII letters. */
  function KeyChar(key: string): (c: Option<char>)
    ensures c.Some? ==> c.value in "KQRBNPkqrbnp"
  {
    if |key| > 6 && key[..6] == "white-" then
      match NameLetter(key[6..])
      case None => None
      case Some(l) => Some((l as int - 32) as char)
    else if |key| > 6 && key[..6] == "black-" then NameLetter(key[6..])
    else None
  }

  /** Every ASCII piece letter has a key, and the key gives the letter back. */
  lemma PieceKeyRoundTrip(c: char)
    requires c in "KQRBNPkqrbnp"
    ensures PieceKeyFromChar([c]).Some? && KeyChar(PieceKeyFromChar([c]).value) == Some(c)
  {
    var key := PieceKeyFromChar([c]).value;
    var name := PieceName(LowerPieceLetter(c)).value;
    assert key[6..] == name;
  }

  /** Every key the inverse table knows is the key of its letter, so distinct ASCII letters get distinct keys. */
  lemma KeyCharInverse(key: string)
    requires KeyChar(key).Some?
    ensures PieceKeyFromChar([KeyChar(key).value]) == Some(key)
  {
    var name := key[6..];
    assert key == key[..6] + name;
  }

  /** The Kelvin sign lowers to 'k' and is upper case, so it names the white king as well. */
  lemma KelvinIsWhiteKing()
    ensures PieceKeyFromChar([KelvinSign]) == Some("white-king")
  {
    assert LowerPieceLetter(KelvinSign) == 'k';
    assert "white-" + "king" == "white-king";
  }

  /** Multiplying by a positive q keeps order. */
  lemma MulMonotone(a: int, b: int, q: int)
    requires a <= b && q > 0
    ensures a * q <= b * q
  {
    assert b * q - a * q == (b - a) * q;
  }

  /** Floor division by a positive q: v // q names the band of width q holding v. */
  lemma DivBand(v: int, q: int)
    requires q > 0
    ensures (v / q) * q <= v < (v / q + 1) * q
    ensures 0 <= v / q < 8 <==> 0 <= v < 8 * q
  {
    var d, m := v / q, v % q;
    assert v == d * q + m && 0 <= m < q;
    assert (d + 1) * q == d * q + q;
    if d < 0 {
      MulMonotone(d + 1, 0, q);
    } else if d >= 8 {
      MulMonotone(8, d, q);
    } else {
      MulMonotone(d, 7, q);
      MulMonotone(0, d, q);
      assert 7 * q + q == 8 * q;
    }
  }

  class ChessUI {
    /** w and h: the window size in pixels. */
    const w: int
    const h: int
    /** square = w // 8, the side of a square in pixels. */
    const square: int
    var board: Cells
    /** The selected (row, col), if any. */
    var selected: Option<(int, int)>

    ghost predicate Valid()
      reads this
    {
      square > 0 && IsGrid(board) && (selected.Some? ==> OnBoard(selected.value.0, selected.value.1))
    }

    /** ChessUI(width, height) without the pygame window, fonts and images. */
    constructor (width: int, height: int)
      requires width >= 8
      ensures Valid()
      ensures w == width && h == height && square == width / 8
      ensures board == DefaultBoard() && selected == None
    {
      w, h := width, height;
      square := width / 8;
      board := DefaultBoard();
      selected := None;
    }

    /**
      coord_from_mouse: the (row, col) of the square whose pixel rectangle holds (x, y) when that is
      one of the 64 squares, None otherwise. (row, col) = (y // square, x // square), floor division.
    */
    function CoordFromMouse(x: int, y: int): (cell: Option<(int, int)>)
      requires square > 0
      ensures cell.None? <==> !(0 <= x < 8 * square && 0 <= y < 8 * square)
      ensures cell.Some? ==> OnBoard(cell.value.0, cell.value.1)
      ensures cell.Some? ==> var (r, c) := cell.value;
        r * square <= y < (r + 1) * square && c * square <= x < (c + 1) * square
    {
      // Dafny's / on a positive divisor is floor division, as Python's // is.
      var c := x / square;
      var r := y / square;
      DivBand(x, square);
      DivBand(y, square);
      if 0 <= r < 8 && 0 <= c < 8 then Some((r, c)) else None
    }

    /**
      handle_click: a click outside the board does nothing. With no selection, a click on a piece
      selects it. With a selection, the click moves the selected square's content to the clicked
      square, whatever either holds (a click on the selected square itself erases it), and clears the
      selection.
    */
    method HandleClick(x: int, y: int)
      requires Valid()
      modifies this
      ensures Valid()
      ensures CoordFromMouse(x, y).None? ==> board == old(board) && selected == old(selected)
      ensures CoordFromMouse(x, y).Some? && old(selected).None? ==>
        var (r, c) := CoordFromMouse(x, y).value;
        board == old(board) && selected == if IsPiece(old(board)[r][c]) then Some((r, c)) else None
      ensures CoordFromMouse(x, y).Some? && old(selected).Some? ==>
        var (r, c) := CoordFromMouse(x, y).value;
        board == Moved(old(board), old(selected).value.0, old(selected).value.1, r, c) && selected == None
    {
      var cell := CoordFromMouse(x, y);
      if cell.None? {
        return;
      }
      var (r, c) := cell.value;
      if selected.None? {
        if board[r][c] != "_" && board[r][c] != "" {
          selected := Some((r, c));
        }
      } else {
        var (sr, sc) := selected.value;
        board := board[r := board[r][c := board[sr][sc]]];
        board := board[sr := board[sr][sc := "_"]];
        selected := None;
      }
    }

    /** reset: the starting position; the selection is kept. */
    method Reset()
      requires Valid()
      modifies this
      ensures Valid()
      ensures board == DefaultBoard() && selected == old(selected)
    {
      board := DefaultBoard();
    }
  }
}
