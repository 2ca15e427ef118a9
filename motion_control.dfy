/**
  The move planner of python/Control.py (class Control): turning a chess move into a list of waypoints
  with an electromagnet state, and a waypoint list into gantry displacements in millimetres.

  Positions are the doubled lattice points of PathGrid; a displacement of one doubled unit is half a square.
*/
module MotionControl {
  import opened Wrappers
  import opened PathGrid

  /** SQUARE_SIZE_MM. */
  const SquareSizeMM: real := 50.8

  /** A waypoint and whether the electromagnet is on while it is reached (the source's Command). */
  datatype Command = Command(position: Position, magnetState: bool)

  /** A displacement in millimetres (the source reuses Position for it). */
  datatype Delta = Delta(dx: real, dy: real)

  /** A python-chess square index: file s % 8, rank s / 8. */
  type Square = s: int | 0 <= s < 64

  /**
    The node for square s: Position(file + 1, rank + 1) in board units, doubled. It is a square centre
    and the square index can be read back from it.
  */
  function SquareCentre(s: Square): (p: Position)
    ensures IsSquareCentre(p) && SquareAt(p) == s
  {
    Position(2 * (s % 8) + 2, 2 * (s / 8) + 2)
  }

  /** Different squares have different centres. */
  lemma SquareCentreInjective(s: Square, t: Square)
    ensures SquareCentre(s) == SquareCentre(t) <==> s == t
  {
  }

  /** No square centre is the park position, which lies on the edge of the mesh. */
  lemma ParkIsNoSquareCentre(s: Square)
    ensures SquareCentre(s) != ParkPosition
  {
  }

  /** (end - start) * SQUARE_SIZE_MM in board units; a doubled unit is half a square. */
  function DeltaMM(a: Position, b: Position): (d: Delta)
    ensures a == b ==> d == Delta(0.0, 0.0)
    ensures b.x == a.x + 2 ==> d.dx == SquareSizeMM
    ensures b.y == a.y + 2 ==> d.dy == SquareSizeMM
  {
    Delta((b.x - a.x) as real * SquareSizeMM / 2.0, (b.y - a.y) as real * SquareSizeMM / 2.0)
  }

  /**
    Between two square centres the displacement is the difference of files and of ranks, one
    SQUARE_SIZE_MM per square.
  */
  lemma DeltaBetweenSquares(s: Square, t: Square)
    ensures DeltaMM(SquareCentre(s), SquareCentre(t))
         == Delta((t % 8 - s % 8) as real * SquareSizeMM, (t / 8 - s / 8) as real * SquareSizeMM)
  {
    var a, b := SquareCentre(s), SquareCentre(t);
    assert (b.x - a.x) as real == 2.0 * (t % 8 - s % 8) as real;
    assert (b.y - a.y) as real == 2.0 * (t / 8 - s / 8) as real;
  }

  /** The vector sum of displacements. */
  function Total(ds: seq<Delta>): Delta {
    if ds == [] then Delta(0.0, 0.0)
    else
      var rest := Total(ds[1..]);
      Delta(ds[0].dx + rest.dx, ds[0].dy + rest.dy)
  }

  /** The positions of a command list. */
  function Positions(cs: seq<Command>): (ps: seq<Position>)
    ensures |ps| == |cs| && forall i :: 0 <= i < |cs| ==> ps[i] == cs[i].position
  {
    if cs == [] then [] else [cs[0].position] + Positions(cs[1..])
  }

  /**
    Consecutive displacements add up to the displacement from the first waypoint to the last, so
    following a trajectory brings the gantry from where it was to the last waypoint.
  */
  lemma {:induction false} Telescope(ps: seq<Position>, ds: seq<Delta>)
    requires |ps| == |ds| + 1
    requires forall i :: 0 <= i < |ds| ==> ds[i] == DeltaMM(ps[i], ps[i + 1])
    ensures Total(ds) == DeltaMM(ps[0], ps[|ps| - 1])
  {
    if ds != [] {
      Telescope(ps[1..], ds[1..]);
    }
  }

  /**
    The magnet state get_path gives waypoint i of removal ++ main: on, except at the last waypoint of
    the removal leg (the park position) when that is not the very first waypoint.
  */
  function MagnetOn(i: nat, removalLength: nat): (on: bool)
    ensures !on <==> 1 <= i && i + 1 == removalLength
  {
    i == 0 || i != removalLength - 1
  }

  /** The command loop of get_path: every waypoint of fullPath in order, with its magnet state. */
  method MagnetCommands(fullPath: seq<Position>, removalLength: nat) returns (commands: seq<Command>)
    ensures |commands| == |fullPath|
    ensures forall i :: 0 <= i < |fullPath| ==> commands[i].position == fullPath[i]
    ensures forall i :: 0 <= i < |fullPath| ==> (!commands[i].magnetState <==> 1 <= i == removalLength - 1)
  {
    commands := [];
    for i := 0 to |fullPath|
      invariant |commands| == i
      invariant forall l :: 0 <= l < i ==> commands[l].position == fullPath[l]
      invariant forall l :: 0 <= l < i ==> (!commands[l].magnetState <==> 1 <= l == removalLength - 1)
    {
      var pos := fullPath[i];
      if i == 0 {
        commands := commands + [Command(pos, true)];
      } else if i == removalLength - 1 {
        commands := commands + [Command(pos, false)];
      } else {
        commands := commands + [Command(pos, true)];
      }
    }
  }

  /** Without a removal leg every magnet state is on; with one it is off exactly at the park waypoint. */
  lemma MagnetOnMeaning(i: nat, removalLength: nat)
    ensures removalLength == 0 ==> MagnetOn(i, removalLength)
    ensures removalLength >= 2 ==> (!MagnetOn(i, removalLength) <==> i == removalLength - 1)
  {
  }

  class Control {
    /** The 8×8 board's 17×17 node mesh. */
    const grid: Grid
    /** current_position: where the gantry is, in doubled board units. */
    var currentPosition: Position

    ghost predicate Valid()
      reads this, grid, grid.nodes
    {
      grid.width == 17 && grid.height == 17 && grid.obstacleRemovePosition == ParkPosition && grid.Valid()
    }

    /** Control(): a fully linked 8×8 grid, the gantry at home (0, 0). */
    constructor ()
      ensures Valid() && grid.FullyLinked() && fresh(grid) && fresh(grid.nodes)
      ensures grid.obstacleRemovePosition == ParkPosition
      ensures currentPosition == Position(0, 0)
    {
      grid := new Grid(8, 8);
      new;
      grid.InitializeLinks();
      currentPosition := Position(0, 0);
    }

    /**
      update_board_state with the board given as occupancy: the centre of square s becomes an obstacle
      exactly when occupied[s], and every gap node keeps its neighbour list.
    */
    method UpdateBoardState(occupied: seq<bool>)
      requires Valid() && |occupied| == 64
      modifies grid.nodes
      ensures Valid()
      ensures forall s: Square :: grid.IsObstacle(SquareCentre(s)) <==> occupied[s]
      ensures forall i, j :: 0 <= i < 17 && 0 <= j < 17 && !IsSquareCentre(Position(j + 1, i + 1)) ==>
        grid.nodes[i, j] == old(grid.nodes[i, j])
    {
      grid.UpdateObstacles(occupied);
      forall s: Square
        ensures grid.IsObstacle(SquareCentre(s)) <==> occupied[s]
      {
        var p := SquareCentre(s);
        grid.InteriorHasNeighbors(p);
        assert IsSquareCentre(p) && VisitOrder(p) < 64 && SquareAt(p) == s;
        assert grid.nodes[p.y - 1, p.x - 1].neighbors == if occupied[s] then [] else grid.Neighbors(p);
      }
    }

    /**
      get_path for the move from square `from` to square `to`. The start node is cleared; when the
      destination node is then an obstacle (a capture) it is cleared too and a removal leg from the
      destination to the park position is planned first. The result is removal ++ main with the
      magnet states of MagnetOn. `removal` and `main` are the two legs a_star returned.
    */
    method GetPath(from: Square, to: Square, dist: (Position, Position) -> real)
      returns (commands: seq<Command>, removal: seq<Position>, main: seq<Position>)
      requires Valid()
      modifies grid, grid.nodes
      ensures Valid()
      ensures var s, e := SquareCentre(from), SquareCentre(to);
        var capture := e != s && old(grid.IsObstacle(e));
        && (forall i, j :: 0 <= i < 17 && 0 <= j < 17 ==>
              grid.nodes[i, j] == if Position(j + 1, i + 1) == s || (capture && Position(j + 1, i + 1) == e)
                                  then old(grid.nodes[i, j]).(neighbors := grid.Neighbors(Position(j + 1, i + 1)))
                                  else old(grid.nodes[i, j]))
        && !grid.IsObstacle(s)
        && (!capture ==> removal == [])
        && (removal != [] ==> |removal| >= 2 && removal[0] == e && removal[|removal| - 1] == ParkPosition)
        && (removal != [] ==> grid.IsPath(removal))
        && (main != [] ==> main[0] == s && main[|main| - 1] == e && grid.IsPath(main))
        && (capture ==> (removal != [] <==> grid.Reaches(e, ParkPosition)))
        && (main != [] <==> grid.Reaches(s, e))
        && (s == e ==> main == [s])
      ensures |commands| == |removal| + |main|
      ensures forall i :: 0 <= i < |commands| ==> commands[i].position == (removal + main)[i]
      ensures forall i :: 0 <= i < |commands| ==> (commands[i].magnetState <==> MagnetOn(i, |removal|))
    {
      var startPos, endPos := SquareCentre(from), SquareCentre(to);
      grid.RemoveObstacle(startPos);
      grid.InteriorHasNeighbors(startPos);
      removal := PlanRemoval(to, dist);
      main := grid.AStar(startPos, endPos, dist);
      commands := MagnetCommands(removal + main, |removal|);
    }

    /**
      The capture branch of get_path: when the destination node is an obstacle it is cleared and a
      removal leg from it to the park position is planned; otherwise there is no removal leg.
    */
    method PlanRemoval(to: Square, dist: (Position, Position) -> real) returns (removal: seq<Position>)
      requires Valid()
      modifies grid, grid.nodes
      ensures Valid()
      ensures var e := SquareCentre(to);
        var capture := old(grid.IsObstacle(e));
        && (forall i, j :: 0 <= i < 17 && 0 <= j < 17 ==>
              grid.nodes[i, j] == if capture && Position(j + 1, i + 1) == e
                                  then old(grid.nodes[i, j]).(neighbors := grid.Neighbors(e))
                                  else old(grid.nodes[i, j]))
        && (!capture ==> removal == [])
        && (removal != [] ==> |removal| >= 2 && removal[0] == e && removal[|removal| - 1] == ParkPosition)
        && (removal != [] ==> grid.IsPath(removal))
        && (capture ==> (removal != [] <==> grid.Reaches(e, ParkPosition)))
    {
      var endPos := SquareCentre(to);
      removal := [];
      if grid.IsObstacle(endPos) {
        grid.RemoveObstacle(endPos);
        removal := grid.AStar(endPos, grid.obstacleRemovePosition, dist);
        ParkIsNoSquareCentre(to);
        assert removal != [] ==> removal[0] != removal[|removal| - 1];
      }
    }

    /**
      calculate_trajectory: the caller's list with (current_position, magnet off) put in front is
      `extended`; one displacement per original waypoint, from each waypoint of `extended` to the next;
      the gantry ends at the last waypoint (where it was, for an empty list), and the displacements add
      up to the move from the old position to the new one.
    */
    method CalculateTrajectory(path: seq<Command>) returns (trajectory: seq<Delta>, extended: seq<Command>)
      modifies this
      ensures extended == [Command(old(currentPosition), false)] + path
      ensures |trajectory| == |path|
      ensures forall i :: 0 <= i < |path| ==>
        trajectory[i] == DeltaMM(extended[i].position, extended[i + 1].position)
      ensures currentPosition == extended[|extended| - 1].position
      ensures Total(trajectory) == DeltaMM(old(currentPosition), currentPosition)
    {
      // The source inserts into the caller's own list; here the extended list is returned instead.
      extended := [Command(currentPosition, false)] + path;
      trajectory := [];
      for i := 1 to |extended|
        invariant |trajectory| == i - 1
        invariant forall l :: 0 <= l < i - 1 ==>
          trajectory[l] == DeltaMM(extended[l].position, extended[l + 1].position)
        invariant currentPosition == extended[i - 1].position
      {
        var start, end := extended[i - 1], extended[i];
        var pos := DeltaMM(start.position, end.position);
        trajectory := trajectory + [pos];
        currentPosition := end.position;
      }
      Telescope(Positions(extended), trajectory);
    }
  }
}
