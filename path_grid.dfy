/**
  The obstacle grid and A* path finder of the motion planner (python/Control.py: Position, Node, Grid).

  Coordinates are DOUBLED: a Python Position (x, y) in board-square units is Position(2x, 2y) here, so the
  half-square lattice becomes the integer lattice. Square centres have even coordinates, the gaps between
  squares odd ones, and the park position (8.5, 4.5) is Position(17, 9).

  Nodes are kept in an arena indexed by (row, col): a node is identified by its position (the source's
  Node.__eq__ and __hash__ compare positions), so neighbour lists and parent links hold positions.
*/
module PathGrid {
  import opened Wrappers

  /** A lattice point in doubled board units; equality is by value, as Position.__eq__ is. */
  datatype Position = Position(x: int, y: int)

  /** Where a captured piece is parked: (8.5, 4.5) in board units. */
  const ParkPosition: Position := Position(17, 9)

  /** The node at p is the centre of a board square (file p.x/2 - 1, rank p.y/2 - 1). */
  predicate IsSquareCentre(p: Position) {
    p.x % 2 == 0 && p.y % 2 == 0 && 2 <= p.x <= 16 && 2 <= p.y <= 16
  }

  /** The order in which update_obstacles visits the square whose centre is p: file-major. */
  function VisitOrder(p: Position): int {
    8 * (p.x / 2 - 1) + (p.y / 2 - 1)
  }

  /** The python-chess square index (8·rank + file) of the square whose centre is p. */
  function SquareAt(p: Position): int {
    8 * (p.y / 2 - 1) + (p.x / 2 - 1)
  }

  /** An A* cost: a float that is either float('inf') or finite. */
  datatype Cost = Infinite | Finite(value: real)

  /** Python's `<` on costs (inf is above every finite cost). */
  predicate Less(a: Cost, b: Cost) {
    match a
    case Infinite => false
    case Finite(u) => b.Infinite? || u < b.value
  }

  /** Python's `+` of a cost and a finite float (inf + d == inf). */
  function Plus(a: Cost, d: real): Cost {
    match a
    case Infinite => Infinite
    case Finite(u) => Finite(u + d)
  }

  /** Python's `<` on costs is a strict total order with inf above every finite cost. */
  lemma LessIsStrictOrder(a: Cost, b: Cost, c: Cost)
    ensures !Less(a, a)
    ensures Less(a, b) ==> !Less(b, a)
    ensures Less(a, b) && Less(b, c) ==> Less(a, c)
    ensures !Less(a, b) && !Less(b, a) ==> a == b
    ensures !Less(Infinite, a) && (a.Finite? ==> Less(a, Infinite))
  {
  }

  /** Adding an edge cost keeps inf at inf, keeps the order of costs and adds up like real addition. */
  lemma PlusFacts(a: Cost, b: Cost, d: real, e: real)
    ensures Plus(a, d).Infinite? <==> a.Infinite?
    ensures Less(a, b) <==> Less(Plus(a, d), Plus(b, d))
    ensures Plus(Plus(a, d), e) == Plus(a, d + e)
    ensures a.Finite? && d > 0.0 ==> Less(a, Plus(a, d))
  {
  }

  /** Each node of path after the first has its predecessor as parent in sc. */
  ghost predicate FollowsParents(sc: map<Position, Scratch>, path: seq<Position>) {
    |path| <= 1 || (path[1] in sc && sc[path[1]].parent == Some(path[0]) && FollowsParents(sc, path[1..]))
  }

  /** The per-search fields of a Node: gCost, hCost, fCost and the parent back-link. */
  datatype Scratch = Scratch(gCost: Cost, hCost: real, fCost: Cost, parent: Option<Position>)

  /** What every node's search fields are reset to before a search. */
  const Cleared: Scratch := Scratch(Infinite, 0.0, Infinite, None)

  /** A node: its fixed position and its outgoing neighbour list (empty for an obstacle). */
  datatype Node = Node(position: Position, neighbors: seq<Position>)

  /** A (row, col) index into the node mesh. */
  datatype Index = Index(row: nat, col: nat)

  /** The eight half-step directions, in the order get_neighbors tries them. */
  const Directions: seq<(int, int)> :=
    [(-1, 0), (1, 0), (0, -1), (0, 1), (-1, -1), (-1, 1), (1, -1), (1, 1)]

  /** q is one of the eight lattice points around p (and not p itself). */
  predicate HalfStep(p: Position, q: Position) {
    -1 <= q.x - p.x <= 1 && -1 <= q.y - p.y <= 1 && q != p
  }

  /** The number of lattice coordinates among c-1, c, c+1 that lie in 1..n. */
  function Span(c: int, n: int): nat {
    (if c > 1 then 1 else 0) + 1 + (if c < n then 1 else 0)
  }

  /** No position occurs twice. */
  predicate Distinct(s: seq<Position>) {
    forall k, l :: 0 <= k < l < |s| ==> s[k] != s[l]
  }

  /** The sum of the edge costs along a path. */
  function PathCost(path: seq<Position>, dist: (Position, Position) -> real): real {
    if |path| <= 1 then 0.0 else dist(path[0], path[1]) + PathCost(path[1..], dist)
  }

  /** Removing the element at index k of a duplicate-free list removes exactly that value. */
  lemma RemoveAt(s: seq<Position>, k: nat)
    requires Distinct(s) && k < |s|
    ensures Distinct(s[..k] + s[k + 1..])
    ensures forall q :: q in s[..k] + s[k + 1..] <==> q in s && q != s[k]
  {
    var t := s[..k] + s[k + 1..];
    assert forall i :: 0 <= i < |t| ==> t[i] == if i < k then s[i] else s[i + 1];
    forall q
      ensures q in t <==> q in s && q != s[k]
    {
      if q in s && q != s[k] {
        var i :| 0 <= i < |s| && s[i] == q;
        assert t[if i < k then i else i - 1] == q;
      }
    }
  }

  /** Appending a new element keeps a sequence free of duplicates. */
  lemma AppendDistinct(s: seq<Position>, x: Position)
    requires Distinct(s) && x !in s
    ensures Distinct(s + [x])
  {
  }

  class Grid {
    /** Number of node columns, 2·(board width) + 1. */
    const width: nat
    /** Number of node rows, 2·(board height) + 1. */
    const height: nat
    /** obstacle_remove_position. */
    const obstacleRemovePosition: Position
    /** The node mesh: nodes[i, j] sits at Position(j + 1, i + 1). */
    const nodes: array2<Node>
    /** The search fields of every node, keyed by the node's position. */
    var scratch: map<Position, Scratch>

    /** The arrays have the mesh's dimensions. */
    predicate Shaped() {
      nodes.Length0 == height && nodes.Length1 == width
    }

    /** A node's neighbour list is either cleared (an obstacle) or the full neighbour list. */
    predicate Linked(n: Node) {
      n.neighbors == [] || n.neighbors == Neighbors(n.position)
    }

    /** The grid invariant: positions are fixed by index and every neighbour list is empty or full. */
    ghost predicate Valid()
      reads nodes
    {
      && Shaped()
      && forall i, j :: 0 <= i < height && 0 <= j < width ==>
           nodes[i, j].position == Position(j + 1, i + 1) && Linked(nodes[i, j])
    }

    /** p is a lattice point of the mesh. */
    predicate InBounds(p: Position) {
      1 <= p.x <= width && 1 <= p.y <= height
    }

    /** Every node's neighbour list is the full one, as after initialize_links. */
    ghost predicate FullyLinked()
      reads nodes
      requires Valid()
    {
      forall i, j :: 0 <= i < height && 0 <= j < width ==>
        nodes[i, j].neighbors == Neighbors(Position(j + 1, i + 1))
    }

    constructor (boardWidth: nat, boardHeight: nat)
      ensures width == 2 * boardWidth + 1 && height == 2 * boardHeight + 1
      ensures obstacleRemovePosition == ParkPosition
      ensures Valid() && fresh(nodes)
      ensures forall i, j :: 0 <= i < height && 0 <= j < width ==> nodes[i, j].neighbors == []
    {
      var w, h := 2 * boardWidth + 1, 2 * boardHeight + 1;
      width, height := w, h;
      obstacleRemovePosition := ParkPosition;
      nodes := new Node[h, w]((i: int, j: int) => Node(Position(j + 1, i + 1), []));
      scratch := map x: int, y: int | 1 <= x <= w && 1 <= y <= h :: Position(x, y) := Scratch(Finite(0.0), 0.0, Finite(0.0), None);
    }

    /** get_node: the mesh index of p, or None when p is outside the mesh. */
    function GetNode(p: Position): (r: Option<Index>)
      ensures r.None? <==> p.x < 1 || p.x > width || p.y < 1 || p.y > height
      ensures r.Some? ==> r.value.row < height && r.value.col < width
      ensures r.Some? ==> Position(r.value.col + 1, r.value.row + 1) == p
    {
      if p.x < 1 || p.x > width || p.y < 1 || p.y > height then None
      else Some(Index(p.y - 1, p.x - 1))
    }

    /** The in-bounds neighbours of p among the first k directions, in direction order. */
    function NeighborsUpTo(p: Position, k: nat): seq<Position>
      requires k <= |Directions|
    {
      if k == 0 then []
      else
        var q := Toward(p, k - 1);
        NeighborsUpTo(p, k - 1) + (if InBounds(q) then [q] else [])
    }

    /** What get_neighbors returns for the node at p. */
    function Neighbors(p: Position): seq<Position> {
      NeighborsUpTo(p, |Directions|)
    }

    /** The node at p has been made an obstacle (its outgoing list is empty). */
    function IsObstacle(p: Position): (b: bool)
      reads nodes
      requires Valid()
      ensures b <==> InBounds(p) && nodes[p.y - 1, p.x - 1].neighbors == []
    {
      match GetNode(p)
      case None => false
      case Some(ix) => |nodes[ix.row, ix.col].neighbors| == 0
    }

    /** The outgoing neighbour list of the node at p. */
    function Links(p: Position): seq<Position>
      reads nodes
      requires Shaped() && InBounds(p)
    {
      nodes[p.y - 1, p.x - 1].neighbors
    }

    /** Consecutive positions are linked in the earlier node's neighbour list. */
    ghost predicate IsPath(path: seq<Position>)
      reads nodes
      requires Shaped()
    {
      && (forall k :: 0 <= k < |path| ==> InBounds(path[k]))
      && (forall k :: 0 <= k < |path| - 1 ==> path[k + 1] in Links(path[k]))
    }

    /** Some path along neighbour links leads from `from` to `to`. */
    ghost predicate Reaches(from: Position, to: Position)
      reads nodes
      requires Shaped()
    {
      exists path :: IsPath(path) && path != [] && path[0] == from && path[|path| - 1] == to
    }

    /** Every link of a closed node (other than `except`) is open or closed. */
    ghost predicate Covered(open: seq<Position>, closed: set<Position>, except: Option<Position>)
      reads nodes
      requires Shaped()
    {
      forall c, q :: c in closed && InBounds(c) && Some(c) != except && q in Links(c) ==> q in open || q in closed
    }

    /** Every lattice point of the mesh. */
    ghost function AllPositions(): set<Position> {
      set x: int, y: int | 1 <= x <= width && 1 <= y <= height :: Position(x, y)
    }

    lemma InAllPositions(p: Position)
      requires InBounds(p)
      ensures p in AllPositions()
    {
      assert p == Position(p.x, p.y);
    }

    /** The position of direction k from p. */
    function Toward(p: Position, k: nat): Position
      requires k < |Directions|
    {
      Position(p.x + Directions[k].0, p.y + Directions[k].1)
    }

    /** The index of the direction leading from p to q, or 8 when q is not a half step away. */
    function DirectionIndex(p: Position, q: Position): (k: nat)
      ensures k <= |Directions|
      ensures k < |Directions| <==> HalfStep(p, q)
      ensures k < |Directions| ==> Toward(p, k) == q
    {
      var d := (q.x - p.x, q.y - p.y);
      if d == (-1, 0) then 0 else if d == (1, 0) then 1
      else if d == (0, -1) then 2 else if d == (0, 1) then 3
      else if d == (-1, -1) then 4 else if d == (-1, 1) then 5
      else if d == (1, -1) then 6 else if d == (1, 1) then 7
      else 8
    }

    /** The first k directions contribute exactly the in-bounds points whose direction index is below k. */
    lemma {:induction false} NeighborsUpToMembers(p: Position, q: Position, k: nat)
      requires k <= |Directions|
      ensures q in NeighborsUpTo(p, k) <==> InBounds(q) && DirectionIndex(p, q) < k
    {
      if k > 0 {
        NeighborsUpToMembers(p, q, k - 1);
        var t := Toward(p, k - 1);
        assert NeighborsUpTo(p, k) == NeighborsUpTo(p, k - 1) + (if InBounds(t) then [t] else []);
        if q == t {
          assert Directions[DirectionIndex(p, q)] == Directions[k - 1];
        }
      }
    }

    /** get_neighbors returns exactly the in-bounds half-step neighbours, so never p itself. */
    lemma NeighborsExactly(p: Position, q: Position)
      ensures q in Neighbors(p) <==> InBounds(q) && HalfStep(p, q)
    {
      NeighborsUpToMembers(p, q, |Directions|);
    }

    /** Every entry of a neighbour list lies in the mesh, half a square away. */
    lemma NeighborsInBounds(p: Position)
      ensures forall q :: q in Neighbors(p) ==> InBounds(q) && HalfStep(p, q)
    {
      forall q | q in Neighbors(p) {
        NeighborsExactly(p, q);
      }
    }

    /** A node away from the mesh border has a non-empty neighbour list (the one to its left, at least). */
    lemma InteriorHasNeighbors(p: Position)
      requires 2 <= p.x <= width && 1 <= p.y <= height
      ensures Neighbors(p) != []
    {
      NeighborsExactly(p, Position(p.x - 1, p.y));
    }

    /** 1 when direction k from p stays in the mesh. */
    function Counted(p: Position, k: nat): nat
      requires k < |Directions|
    {
      if InBounds(Toward(p, k)) then 1 else 0
    }

    /**
      The neighbour count is the product of the in-mesh spans along each axis, less the node itself:
      in a mesh at least two nodes wide and high an interior node has 8, an edge node 5, a corner node 3.
    */
    lemma NeighborCount(p: Position)
      requires InBounds(p)
      ensures |Neighbors(p)| == Span(p.x, width) * Span(p.y, height) - 1
    {
      assert |NeighborsUpTo(p, 1)| == Counted(p, 0);
      assert |NeighborsUpTo(p, 2)| == |NeighborsUpTo(p, 1)| + Counted(p, 1);
      assert |NeighborsUpTo(p, 3)| == |NeighborsUpTo(p, 2)| + Counted(p, 2);
      assert |NeighborsUpTo(p, 4)| == |NeighborsUpTo(p, 3)| + Counted(p, 3);
      assert |NeighborsUpTo(p, 5)| == |NeighborsUpTo(p, 4)| + Counted(p, 4);
      assert |NeighborsUpTo(p, 6)| == |NeighborsUpTo(p, 5)| + Counted(p, 5);
      assert |NeighborsUpTo(p, 7)| == |NeighborsUpTo(p, 6)| + Counted(p, 6);
      assert |NeighborsUpTo(p, 8)| == |NeighborsUpTo(p, 7)| + Counted(p, 7);
      var a, b := Span(p.x, width), Span(p.y, height);
      assert a == 1 || a == 2 || a == 3;
      assert b == 1 || b == 2 || b == 3;
    }

    /** get_neighbors. */
    method GetNeighbors(node: Node) returns (neighbors: seq<Position>)
      ensures neighbors == Neighbors(node.position)
    {
      neighbors := [];
      for k := 0 to |Directions|
        invariant neighbors == NeighborsUpTo(node.position, k)
      {
        var d := Directions[k];
        var q := Position(node.position.x + d.0, node.position.y + d.1);
        var neighborNode := GetNode(q);
        if neighborNode.Some? {
          neighbors := neighbors + [q];
        }
      }
    }

    /** initialize_links: every node gets its full neighbour list. */
    method InitializeLinks()
      requires Valid()
      modifies nodes
      ensures Valid() && FullyLinked()
    {
      for i := 0 to height
        invariant Valid()
        invariant forall r, c :: 0 <= r < i && 0 <= c < width ==>
          nodes[r, c].neighbors == Neighbors(Position(c + 1, r + 1))
      {
        for j := 0 to width
          invariant Valid()
          invariant forall r, c :: 0 <= r < i && 0 <= c < width ==>
            nodes[r, c].neighbors == Neighbors(Position(c + 1, r + 1))
          invariant forall c :: 0 <= c < j ==> nodes[i, c].neighbors == Neighbors(Position(c + 1, i + 1))
        {
          var node := nodes[i, j];
          var neighbors := GetNeighbors(node);
          nodes[i, j] := node.(neighbors := neighbors);
        }
      }
    }

    /** add_obstacle: empties the outgoing list of the node at p and nothing else. */
    method AddObstacle(p: Position)
      requires Valid()
      modifies nodes
      ensures Valid()
      ensures forall i, j :: 0 <= i < height && 0 <= j < width ==>
        nodes[i, j] == if Position(j + 1, i + 1) == p then old(nodes[i, j]).(neighbors := []) else old(nodes[i, j])
      ensures IsObstacle(p) <==> InBounds(p)
    {
      var node := GetNode(p);
      if node.Some? {
        var ix := node.value;
        nodes[ix.row, ix.col] := nodes[ix.row, ix.col].(neighbors := []);
      }
    }

    /** remove_obstacle: restores the full outgoing list of the node at p and nothing else. */
    method RemoveObstacle(p: Position)
      requires Valid()
      modifies nodes
      ensures Valid()
      ensures forall i, j :: 0 <= i < height && 0 <= j < width ==>
        nodes[i, j] == if Position(j + 1, i + 1) == p then old(nodes[i, j]).(neighbors := Neighbors(p)) else old(nodes[i, j])
    {
      var node := GetNode(p);
      if node.Some? {
        var ix := node.value;
        var neighbors := GetNeighbors(nodes[ix.row, ix.col]);
        nodes[ix.row, ix.col] := nodes[ix.row, ix.col].(neighbors := neighbors);
      }
    }
  
    /** Visiting square (file i, rank j) adds exactly its centre to the visited squares. */
    lemma VisitNext(p: Position, i: int, j: int)
      requires 0 <= i < 8 && 0 <= j < 8
      ensures (IsSquareCentre(p) && VisitOrder(p) < 8 * i + j + 1) <==>
              (IsSquareCentre(p) && VisitOrder(p) < 8 * i + j) || p == Position(2 * i + 2, 2 * j + 2)
      ensures p == Position(2 * i + 2, 2 * j + 2) ==>
              IsSquareCentre(p) && VisitOrder(p) == 8 * i + j && SquareAt(p) == 8 * j + i
    {
      if IsSquareCentre(p) {
        var f, r := p.x / 2 - 1, p.y / 2 - 1;
        assert p.x == 2 * f + 2 && p.y == 2 * r + 2;
        assert 0 <= f < 8 && 0 <= r < 8;
      }
    }

    /** The node n once update_obstacles has visited the first `visited` squares. */
    ghost function Synced(n: Node, occupied: seq<bool>, visited: int): Node
      requires |occupied| == 64
    {
      if IsSquareCentre(n.position) && VisitOrder(n.position) < visited then
        n.(neighbors := if occupied[SquareAt(n.position)] then [] else Neighbors(n.position))
      else n
    }

    /**
      update_obstacles: occupied[s] tells whether square s (file s % 8, rank s / 8) holds a piece.
      The centre node of every occupied square becomes an obstacle, that of every empty square gets
      its full neighbour list, and the gap nodes are untouched.
    */
    method UpdateObstacles(occupied: seq<bool>)
      requires Valid() && |occupied| == 64
      modifies nodes
      ensures Valid()
      ensures forall i, j :: 0 <= i < height && 0 <= j < width ==>
        nodes[i, j] == Synced(old(nodes[i, j]), occupied, 64)
    {
      for i := 0 to 8
        invariant Valid()
        invariant forall r, c :: 0 <= r < height && 0 <= c < width ==>
          nodes[r, c] == Synced(old(nodes[r, c]), occupied, 8 * i)
      {
        for j := 0 to 8
          invariant Valid()
          invariant forall r, c :: 0 <= r < height && 0 <= c < width ==>
            nodes[r, c] == Synced(old(nodes[r, c]), occupied, 8 * i + j)
        {
          var position := Position(2 * i + 2, 2 * j + 2);
          VisitNext(position, i, j);
          if occupied[8 * j + i] {
            AddObstacle(position);
          } else {
            RemoveObstacle(position);
          }
          forall r, c | 0 <= r < height && 0 <= c < width
            ensures nodes[r, c] == Synced(old(nodes[r, c]), occupied, 8 * i + j + 1)
          {
            VisitNext(Position(c + 1, r + 1), i, j);
          }
        }
      }
    }


    /** The search-field reset at the start of a_star: every node gets cost inf and no parent. */
    method ResetScratch()
      modifies this
      ensures forall p :: InBounds(p) ==> p in scratch && scratch[p] == Cleared
    {
      for i := 0 to height
        invariant forall p: Position :: 1 <= p.y <= i && 1 <= p.x <= width ==> p in scratch && scratch[p] == Cleared
      {
        for j := 0 to width
          invariant forall p: Position :: 1 <= p.y <= i && 1 <= p.x <= width ==> p in scratch && scratch[p] == Cleared
          invariant forall p: Position :: p.y == i + 1 && 1 <= p.x <= j ==> p in scratch && scratch[p] == Cleared
        {
          scratch := scratch[Position(j + 1, i + 1) := Cleared];
        }
      }
    }

    /** min(open_set, key=fCost): the index of the FIRST open node with the least f cost. */
    method SelectMin(open: seq<Position>) returns (k: nat)
      requires open != [] && forall i :: 0 <= i < |open| ==> open[i] in scratch
      ensures k < |open|
      ensures forall i :: 0 <= i < |open| ==> !Less(scratch[open[i]].fCost, scratch[open[k]].fCost)
      ensures forall i :: 0 <= i < k ==> Less(scratch[open[k]].fCost, scratch[open[i]].fCost)
    {
      k := 0;
      for i := 1 to |open|
        invariant k < i
        invariant forall l :: 0 <= l < i ==> !Less(scratch[open[l]].fCost, scratch[open[k]].fCost)
        invariant forall l :: 0 <= l < k ==> Less(scratch[open[k]].fCost, scratch[open[l]].fCost)
      {
        if Less(scratch[open[i]].fCost, scratch[open[k]].fCost) {
          k := i;
        }
      }
    }

    /**
      The A* search invariant over the search fields sc. `closedAt` is ghost bookkeeping: the order in
      which nodes were closed. Every node with a parent is open or closed, its parent is closed and lists
      it as a neighbour, a closed node's parent was closed before it, and its g cost is its parent's plus
      the edge. The start node is the only open or closed node without a parent.
    */
    ghost predicate Searching(sc: map<Position, Scratch>, start: Position, open: seq<Position>,
                              closed: set<Position>, closedAt: map<Position, nat>,
                              dist: (Position, Position) -> real)
      reads nodes
      requires Shaped()
    {
      && Frontier(sc, start, open, closed, closedAt)
      && (forall q {:trigger ParentLink(sc, q, start, open, closed, closedAt, dist)} ::
            InBounds(q) && sc[q].parent.Some? ==> ParentLink(sc, q, start, open, closed, closedAt, dist))
    }

    /** The part of Searching about the open list, the closed set and which nodes have parents. */
    ghost predicate Frontier(sc: map<Position, Scratch>, start: Position, open: seq<Position>,
                             closed: set<Position>, closedAt: map<Position, nat>)
    {
      && (forall q :: InBounds(q) ==> q in sc)
      && InBounds(start)
      && (forall k :: 0 <= k < |open| ==> InBounds(open[k]) && open[k] !in closed)
      && Distinct(open)
      && (forall q :: q in closed ==> InBounds(q))
      && closedAt.Keys == closed
      && (forall q :: q in closed ==> closedAt[q] < |closed|)
      && (start in open || start in closed)
      && sc[start].parent == None
      && sc[start].gCost == Finite(0.0)
      && (forall q :: InBounds(q) && q != start && (q in open || q in closed) ==> sc[q].parent.Some?)
    }

    /** The facts Searching keeps about a node q that has a parent. */
    ghost predicate ParentLink(sc: map<Position, Scratch>, q: Position, start: Position, open: seq<Position>,
                               closed: set<Position>, closedAt: map<Position, nat>,
                               dist: (Position, Position) -> real)
      reads nodes
      requires Shaped() && q in sc && sc[q].parent.Some?
      requires forall p :: p in closed ==> InBounds(p) && p in sc
      requires closedAt.Keys == closed
      requires InBounds(q)
    {
      var p := sc[q].parent.value;
      && q != start && (q in open || q in closed)
      && p in closed
      && q in Links(p)
      && (q in closed ==> closedAt[p] < closedAt[q])
      && sc[q].gCost == Plus(sc[p].gCost, dist(p, q))
    }
  
    /** Along a path every node but the last has a non-empty neighbour list: obstacles are only ever entered. */
    lemma {:induction false} PathLeavesNoObstacle(path: seq<Position>)
      requires Valid() && IsPath(path)
      ensures forall k :: 0 <= k < |path| - 1 ==> !IsObstacle(path[k])
    {
      forall k | 0 <= k < |path| - 1
        ensures !IsObstacle(path[k])
      {
        assert path[k + 1] in Links(path[k]);
      }
    }

    /** The state a_star starts its loop in: only the start node is open, with g cost 0. */
    lemma StartSearching(sc: map<Position, Scratch>, start: Position, goal: Position,
                         dist: (Position, Position) -> real)
      requires Shaped() && InBounds(start)
      requires forall p :: InBounds(p) ==> p in sc && sc[p] == Cleared
      ensures Searching(sc[start := Scratch(Finite(0.0), 0.0, Finite(dist(start, goal)), None)],
                        start, [start], {}, map[], dist)
    {
    }

    /** Taking the node at index k off the open list and closing it keeps the invariant. */
    lemma CloseKeeps(sc: map<Position, Scratch>, start: Position, open: seq<Position>,
                     closed: set<Position>, closedAt: map<Position, nat>,
                     dist: (Position, Position) -> real, k: nat)
      requires Shaped() && Searching(sc, start, open, closed, closedAt, dist) && k < |open|
      ensures Searching(sc, start, open[..k] + open[k + 1..], closed + {open[k]},
                        closedAt[open[k] := |closed|], dist)
    {
      RemoveAt(open, k);
      CloseKeepsFrontier(sc, start, open, closed, closedAt, k);
      forall q | InBounds(q) && sc[q].parent.Some?
        ensures ParentLink(sc, q, start, open[..k] + open[k + 1..], closed + {open[k]},
                           closedAt[open[k] := |closed|], dist)
      {
        CloseKeepsLink(sc, start, open, closed, closedAt, dist, k, q);
      }
    }

    /** Closing open[k] keeps the Frontier part of the invariant. */
    lemma CloseKeepsFrontier(sc: map<Position, Scratch>, start: Position, open: seq<Position>,
                             closed: set<Position>, closedAt: map<Position, nat>, k: nat)
      requires Frontier(sc, start, open, closed, closedAt) && k < |open|
      requires Distinct(open[..k] + open[k + 1..])
      requires forall q :: q in open[..k] + open[k + 1..] <==> q in open && q != open[k]
      ensures Frontier(sc, start, open[..k] + open[k + 1..], closed + {open[k]}, closedAt[open[k] := |closed|])
    {
      var current := open[k];
      var open', closed', closedAt' := open[..k] + open[k + 1..], closed + {current}, closedAt[current := |closed|];
      assert forall j :: 0 <= j < |open'| ==> open'[j] in open && open'[j] != current;
      assert forall q :: q in closed' ==> closedAt'[q] < |closed'|;
    }

    /** The parent link of one node survives closing open[k]. */
    lemma CloseKeepsLink(sc: map<Position, Scratch>, start: Position, open: seq<Position>,
                         closed: set<Position>, closedAt: map<Position, nat>,
                         dist: (Position, Position) -> real, k: nat, q: Position)
      requires Shaped() && Searching(sc, start, open, closed, closedAt, dist) && k < |open|
      requires InBounds(q) && sc[q].parent.Some?
      requires forall q :: q in open[..k] + open[k + 1..] <==> q in open && q != open[k]
      ensures ParentLink(sc, q, start, open[..k] + open[k + 1..], closed + {open[k]},
                         closedAt[open[k] := |closed|], dist)
    {
      assert ParentLink(sc, q, start, open, closed, closedAt, dist);
    }

    /** Closing open[k] leaves only its own links possibly uncovered. */
    lemma CloseKeepsCovered(open: seq<Position>, closed: set<Position>, k: nat)
      requires Shaped() && k < |open| && Covered(open, closed, None)
      requires forall q :: q in open[..k] + open[k + 1..] <==> q in open && q != open[k]
      ensures Covered(open[..k] + open[k + 1..], closed + {open[k]}, Some(open[k]))
    {
    }

    /** Once the links of the node just closed are open or closed, and open has only grown, all links are covered. */
    lemma ExpandCovers(open0: seq<Position>, open: seq<Position>, closed: set<Position>, current: Position)
      requires Shaped() && InBounds(current) && Covered(open0, closed, Some(current))
      requires forall q :: q in open0 ==> q in open
      requires forall q :: q in Links(current) ==> q in open || q in closed
      ensures Covered(open, closed, None)
    {
    }

    /** A path that starts in a closed set closed under links stays in it. */
    lemma {:induction false} PathStaysIn(path: seq<Position>, closed: set<Position>, k: nat)
      requires Shaped() && Covered([], closed, None) && IsPath(path)
      requires k < |path| && path[0] in closed
      ensures path[k] in closed
    {
      if k > 0 {
        PathStaysIn(path, closed, k - 1);
        assert path[k] in Links(path[k - 1]);
      }
    }

    /** When the open list runs out, no node outside the closed set is reachable from the start. */
    lemma {:induction false} ExhaustedUnreachable(closed: set<Position>, start: Position, goal: Position)
      requires Shaped() && Covered([], closed, None)
      requires start in closed && goal !in closed
      ensures !Reaches(start, goal)
    {
      forall path | IsPath(path) && path != [] && path[0] == start
        ensures path[|path| - 1] != goal
      {
        PathStaysIn(path, closed, |path| - 1);
      }
    }

    /** Giving an unclosed neighbour of the node just closed a new parent and g cost keeps the invariant. */
    lemma RelaxKeeps(sc: map<Position, Scratch>, start: Position, open: seq<Position>,
                     closed: set<Position>, closedAt: map<Position, nat>,
                     dist: (Position, Position) -> real, current: Position, neighbor: Position, h: real)
      requires Shaped() && Searching(sc, start, open, closed, closedAt, dist)
      requires current in closed && start in closed
      requires InBounds(neighbor) && neighbor in Links(current) && neighbor !in closed
      ensures var g := Plus(sc[current].gCost, dist(current, neighbor));
        Searching(sc[neighbor := Scratch(g, h, Plus(g, h), Some(current))], start,
                  if neighbor in open then open else open + [neighbor], closed, closedAt, dist)
    {
      var g := Plus(sc[current].gCost, dist(current, neighbor));
      var sc' := sc[neighbor := Scratch(g, h, Plus(g, h), Some(current))];
      var open' := if neighbor in open then open else open + [neighbor];
      if neighbor !in open {
        AppendDistinct(open, neighbor);
      }
      assert forall q :: q in open' <==> q in open || q == neighbor;
      assert forall j :: 0 <= j < |open'| ==> open'[j] in open || open'[j] == neighbor;
      assert sc'[start] == sc[start];
      forall q | InBounds(q) && sc'[q].parent.Some?
        ensures ParentLink(sc', q, start, open', closed, closedAt, dist)
      {
        if q != neighbor {
          assert ParentLink(sc, q, start, open, closed, closedAt, dist);
          var p := sc[q].parent.value;
          assert sc'[q] == sc[q] && sc'[p] == sc[p];
        }
      }
      assert Searching(sc', start, open', closed, closedAt, dist);
    }

    /** One pass of the inner loop of a_star: relax `neighbor` unless it is closed or no cheaper way to it is found. */
    method Relax(start: Position, goal: Position, current: Position, neighbor: Position, dist: (Position, Position) -> real,
                 open0: seq<Position>, closed: set<Position>, ghost closedAt: map<Position, nat>)
      returns (open: seq<Position>)
      requires Valid() && Searching(scratch, start, open0, closed, closedAt, dist)
      requires current in closed && start in closed && InBounds(neighbor) && neighbor in Links(current)
      modifies this
      ensures Searching(scratch, start, open, closed, closedAt, dist)
      ensures forall q :: q in open <==> q in open0 || (q == neighbor && neighbor !in closed)
    {
      open := open0;
      if neighbor !in closed {
        var tentativeCost := Plus(scratch[current].gCost, dist(current, neighbor));
        var h := dist(neighbor, goal);
        if neighbor !in open || Less(tentativeCost, scratch[neighbor].gCost) {
          RelaxKeeps(scratch, start, open, closed, closedAt, dist, current, neighbor, h);
          if neighbor !in open {
            open := open + [neighbor];
          }
          scratch := scratch[neighbor := Scratch(tentativeCost, h, Plus(tentativeCost, h), Some(current))];
        }
      }
    }

    /** The inner loop of a_star: relax every neighbour of the node just closed. */
    method Expand(start: Position, goal: Position, current: Position, dist: (Position, Position) -> real,
                  open0: seq<Position>, closed: set<Position>, ghost closedAt: map<Position, nat>)
      returns (open: seq<Position>)
      requires Valid() && Searching(scratch, start, open0, closed, closedAt, dist)
      requires current in closed && start in closed
      modifies this
      ensures Searching(scratch, start, open, closed, closedAt, dist)
      ensures forall q :: q in open0 ==> q in open
      ensures forall q :: q in open ==> q in open0 || q in Links(current)
      ensures forall q :: q in Links(current) ==> q in open || q in closed
    {
      open := open0;
      var neighbors := nodes[current.y - 1, current.x - 1].neighbors;
      NeighborsInBounds(current);
      for n := 0 to |neighbors|
        invariant Searching(scratch, start, open, closed, closedAt, dist)
        invariant forall q :: q in open0 ==> q in open
        invariant forall q :: q in open ==> q in open0 || q in neighbors[..n]
        invariant forall q :: q in neighbors[..n] ==> q in open || q in closed
      {
        open := Relax(start, goal, current, neighbors[n], dist, open, closed, closedAt);
        assert neighbors[..n + 1] == neighbors[..n] + [neighbors[n]];
      }
      assert neighbors[..|neighbors|] == neighbors;
    }

    /** One round of a_star past the goal test: move open[k] from the open list to the closed set and expand it. */
    method CloseAndExpand(start: Position, goal: Position, dist: (Position, Position) -> real,
                          open0: seq<Position>, closed0: set<Position>, ghost closedAt0: map<Position, nat>, k: nat)
      returns (open: seq<Position>, closed: set<Position>, ghost closedAt: map<Position, nat>)
      requires Valid() && Searching(scratch, start, open0, closed0, closedAt0, dist) && Covered(open0, closed0, None)
      requires k < |open0| && (closed0 == {} ==> open0 == [start]) && (closed0 != {} ==> start in closed0)
      modifies this
      ensures Searching(scratch, start, open, closed, closedAt, dist) && Covered(open, closed, None)
      ensures closed == closed0 + {open0[k]}
    {
      var current := open0[k];
      CloseKeeps(scratch, start, open0, closed0, closedAt0, dist, k);
      RemoveAt(open0, k);
      CloseKeepsCovered(open0, closed0, k);
      open := open0[..k] + open0[k + 1..];
      closedAt := closedAt0[current := |closed0|];
      closed := closed0 + {current};
      var removed := open;
      open := Expand(start, goal, current, dist, open, closed, closedAt);
      ExpandCovers(removed, open, closed, current);
    }

    /**
      The state of path reconstruction part way: `path` is the walked suffix and `node` the next node
      to prepend (None once the start has been prepended). The suffix is a linked path to the goal that
      follows the parent links, and the goal's g cost is node's plus the cost of the rest of the way.
    */
    ghost predicate Walk(sc: map<Position, Scratch>, start: Position, goal: Position, open: seq<Position>,
                         closed: set<Position>, closedAt: map<Position, nat>, dist: (Position, Position) -> real,
                         path: seq<Position>, node: Option<Position>)
      reads nodes
      requires Shaped() && Searching(sc, start, open, closed, closedAt, dist) && InBounds(goal)
    {
      && (node.Some? ==> InBounds(node.value) && (node.value in open || node.value in closed))
      && (path == [] <==> node == Some(goal))
      && (path != [] ==> path[|path| - 1] == goal)
      && IsPath(path)
      && (node.Some? && path != [] ==> path[0] in Links(node.value))
      && (node.Some? ==> sc[goal].gCost == Plus(sc[node.value].gCost, PathCost([node.value] + path, dist)))
      && (node.None? ==> path[0] == start && sc[goal].gCost == Finite(PathCost(path, dist)))
      && (sc[goal].parent.None? ==> path == [] || (path == [goal] && node.None?))
      && FollowsParents(sc, path)
      && (path != [] ==> sc[path[0]].parent == node)
    }

    /** How far the walk back is from the start: the closing order of the next node. */
    ghost function WalkRank(node: Option<Position>, closed: set<Position>, closedAt: map<Position, nat>): nat
      requires closedAt.Keys == closed
    {
      if node.None? then 0 else if node.value in closed then closedAt[node.value] + 1 else |closed| + 1
    }

    /** Prepending the next node and stepping to its parent keeps the walk and brings it nearer the start. */
    lemma WalkStep(sc: map<Position, Scratch>, start: Position, goal: Position, open: seq<Position>,
                   closed: set<Position>, closedAt: map<Position, nat>, dist: (Position, Position) -> real,
                   path: seq<Position>, node: Option<Position>)
      requires Shaped() && Searching(sc, start, open, closed, closedAt, dist) && InBounds(goal)
      requires goal in open && Walk(sc, start, goal, open, closed, closedAt, dist, path, node) && node.Some?
      ensures Walk(sc, start, goal, open, closed, closedAt, dist, [node.value] + path, sc[node.value].parent)
      ensures WalkRank(sc[node.value].parent, closed, closedAt) < WalkRank(node, closed, closedAt)
    {
      var q := node.value;
      if sc[q].parent.Some? {
        assert ParentLink(sc, q, start, open, closed, closedAt, dist);
      }
      assert ([q] + path)[1..] == path;
    }

    /** Path reconstruction: follow parent links back from the goal to the start. */
    method Reconstruct(start: Position, goal: Position, dist: (Position, Position) -> real,
                       open: seq<Position>, closed: set<Position>, ghost closedAt: map<Position, nat>)
      returns (path: seq<Position>)
      requires Valid() && Searching(scratch, start, open, closed, closedAt, dist)
      requires goal in open
      ensures path != [] && path[0] == start && path[|path| - 1] == goal && IsPath(path)
      ensures scratch[goal].gCost == Finite(PathCost(path, dist))
      ensures scratch[goal].parent.None? ==> path == [goal]
      ensures FollowsParents(scratch, path) && scratch[path[0]].parent == None
    {
      // The source appends while walking back and then reverses (path[::-1]); prepending builds the same list.
      path := [];
      var node: Option<Position> := Some(goal);
      while node.Some?
        invariant Walk(scratch, start, goal, open, closed, closedAt, dist, path, node)
        decreases WalkRank(node, closed, closedAt)
      {
        WalkStep(scratch, start, goal, open, closed, closedAt, dist, path, node);
        var q := node.value;
        path := [q] + path;
        node := scratch[q].parent;
      }
    }

    /**
      a_star: [] when either endpoint is outside the mesh; otherwise the result of the search proper.
    */
    method AStar(startPos: Position, endPos: Position, dist: (Position, Position) -> real)
      returns (path: seq<Position>)
      requires Valid()
      modifies this
      ensures GetNode(startPos).None? || GetNode(endPos).None? ==> path == []
      ensures path != [] ==> path[0] == startPos && path[|path| - 1] == endPos && IsPath(path)
      ensures path != [] ==> endPos in scratch && scratch[endPos].gCost == Finite(PathCost(path, dist))
      ensures GetNode(startPos).Some? && startPos == endPos ==> path == [startPos]
      ensures GetNode(startPos).Some? && GetNode(endPos).Some? ==> (path != [] <==> Reaches(startPos, endPos))
      ensures path != [] ==> FollowsParents(scratch, path) && startPos in scratch && scratch[startPos].parent == None
    {
      var startNode := GetNode(startPos);
      var endNode := GetNode(endPos);
      if startNode.None? || endNode.None? {
        return [];
      }
      path := Search(startPos, endPos, dist);
    }

    /**
      The search proper of a_star between two mesh points: a path of linked nodes from startPos to
      endPos, whose edge costs add up to the goal's final g cost and which follows the parent links, or
      [] exactly when the open set runs out, in which case no linked path joins the two.
    */
    method Search(startPos: Position, endPos: Position, dist: (Position, Position) -> real)
      returns (path: seq<Position>)
      requires Valid() && InBounds(startPos) && InBounds(endPos)
      modifies this
      ensures path != [] ==> path[0] == startPos && path[|path| - 1] == endPos && IsPath(path)
      ensures forall q :: InBounds(q) ==> q in scratch
      ensures path != [] ==> scratch[endPos].gCost == Finite(PathCost(path, dist))
      ensures startPos == endPos ==> path == [startPos]
      ensures path != [] <==> Reaches(startPos, endPos)
      ensures path != [] ==> FollowsParents(scratch, path) && scratch[startPos].parent == None
    {
      ResetScratch();
      StartSearching(scratch, startPos, endPos, dist);
      scratch := scratch[startPos := Scratch(Finite(0.0), 0.0, Finite(dist(startPos, endPos)), None)];
      var open := [startPos];
      var closed: set<Position> := {};
      ghost var closedAt: map<Position, nat> := map[];
      while open != []
        invariant Searching(scratch, startPos, open, closed, closedAt, dist)
        invariant startPos == endPos ==> open == [startPos]
        invariant closed == {} ==> open == [startPos]
        invariant closed != {} ==> startPos in closed
        invariant closed <= AllPositions()
        invariant Covered(open, closed, None)
        invariant endPos !in closed
        decreases AllPositions() - closed
      {
        var k := SelectMin(open);
        var current := open[k];
        if current == endPos {
          path := Reconstruct(startPos, endPos, dist, open, closed, closedAt);
          assert IsPath(path) && path != [] && path[0] == startPos && path[|path| - 1] == endPos;
          return;
        }
        InAllPositions(current);
        open, closed, closedAt := CloseAndExpand(startPos, endPos, dist, open, closed, closedAt, k);
      }
      ExhaustedUnreachable(closed, startPos, endPos);
      path := [];
    }
  }
}
