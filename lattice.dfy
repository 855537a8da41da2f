/** The maze as the game receives it, and the expanded lattice derived from it.

    A maze of `rows` x `cols` cells, each with four wall flags, is drawn on a
    (2*rows+1) x (2*cols+1) lattice of blocks: cell (cx, cy) sits on the
    odd/odd node (2*cx+1, 2*cy+1), the nodes between two cells are connectors,
    and the even/even nodes are the corner posts. */
module Lattice {

  /** Classification of one lattice block. */
  datatype BlockState = WALL | EMPTY | PATH | START | EXIT

  /** A coordinate pair: a maze cell (column x, row y) or a lattice block. */
  datatype Pos = Pos(x: int, y: int)

  /** The wall flags of one maze cell; true means a wall stands on that side. */
  datatype Walls = Walls(n: bool, s: bool, e: bool, w: bool)

  datatype Dir = N | S | E | W

  function Flag(c: Walls, d: Dir): bool {
    match d
    case N => c.n
    case S => c.s
    case E => c.e
    case W => c.w
  }

  /** The lattice neighbour of `p` on side `d` (north is towards smaller y). */
  function Beside(p: Pos, d: Dir): Pos {
    match d
    case N => Pos(p.x, p.y - 1)
    case S => Pos(p.x, p.y + 1)
    case E => Pos(p.x + 1, p.y)
    case W => Pos(p.x - 1, p.y)
  }

  /** The maze: its wall grid indexed grid[row][column], its start and exit
      cells, and the solver's cell path (read only by the path overlay). */
  datatype Maze = Maze(rows: nat, cols: nat, grid: seq<seq<Walls>>, start: Pos, exit: Pos, path: seq<Pos>)

  predicate InCells(m: Maze, c: Pos) {
    0 <= c.x < m.cols && 0 <= c.y < m.rows
  }

  /** What the game relies on from the maze generator: a rows x cols grid and
      two distinct cells inside it. */
  predicate WellFormed(m: Maze) {
    |m.grid| == m.rows &&
    (forall r :: 0 <= r < |m.grid| ==> |m.grid[r]| == m.cols) &&
    InCells(m, m.start) && InCells(m, m.exit) && m.start != m.exit
  }

  function WallsAt(m: Maze, c: Pos): Walls
    requires WellFormed(m) && InCells(m, c)
  {
    m.grid[c.y][c.x]
  }

  /** The generator's symmetry promise: two neighbouring cells agree on the
      wall between them. */
  ghost predicate Consistent(m: Maze)
    requires WellFormed(m)
  {
    (forall c :: InCells(m, c) && InCells(m, Beside(c, E)) ==> WallsAt(m, c).e == WallsAt(m, Beside(c, E)).w) &&
    (forall c :: InCells(m, c) && InCells(m, Beside(c, S)) ==> WallsAt(m, c).s == WallsAt(m, Beside(c, S)).n)
  }

  function Abs(n: int): nat {
    if n < 0 then -n else n
  }

  /** Python's int(d / 2): halve and truncate toward zero. */
  function Half(d: int): (r: int)
    ensures d >= 0 ==> 0 <= d - 2 * r <= 1
    ensures d < 0 ==> -1 <= d - 2 * r <= 0
  {
    if d < 0 then -((-d) / 2) else d / 2
  }

  /** cell_next_to: the two points are one unit step apart. */
  function CellNextTo(x0: int, y0: int, x1: int, y1: int): (r: bool)
    ensures r <==> Abs(x0 - x1) + Abs(y0 - y1) == 1
  {
    var diffX := Abs(x0 - x1);
    var diffY := Abs(y0 - y1);
    if diffX + diffY >= 2 || diffX + diffY == 0 then false else true
  }

  predicate Adjacent(p: Pos, q: Pos) {
    CellNextTo(p.x, p.y, q.x, q.y)
  }

  /** Being next to each other means being one of the four side neighbours. */
  lemma NextToIsNeighbour(p: Pos, q: Pos)
    ensures Adjacent(p, q) <==> exists d :: q == Beside(p, d)
    ensures Adjacent(p, q) == Adjacent(q, p)
    ensures !Adjacent(p, p)
  {
    if Adjacent(p, q) {
      if q.x == p.x + 1 { assert q == Beside(p, E); }
      else if q.x == p.x - 1 { assert q == Beside(p, W); }
      else if q.y == p.y + 1 { assert q == Beside(p, S); }
      else { assert q == Beside(p, N); }
    }
  }

  function Width(m: Maze): nat {
    2 * m.cols + 1
  }

  function Height(m: Maze): nat {
    2 * m.rows + 1
  }

  predicate InLattice(m: Maze, p: Pos) {
    0 <= p.x < Width(m) && 0 <= p.y < Height(m)
  }

  /** The lattice block of a maze cell. */
  function Node(c: Pos): Pos {
    Pos(2 * c.x + 1, 2 * c.y + 1)
  }

  /** Distinct cells have distinct blocks. */
  lemma NodeInjective(c: Pos, d: Pos)
    requires c != d
    ensures Node(c) != Node(d)
  {
  }

  /** Cell blocks sit at odd coordinates on both axes. */
  lemma NodeParity(c: Pos)
    ensures Odd(Node(c).x) && Odd(Node(c).y)
  {
  }

  function StartNode(m: Maze): Pos {
    Node(m.start)
  }

  function ExitNode(m: Maze): Pos {
    Node(m.exit)
  }

  predicate Odd(n: int) {
    n % 2 == 1
  }

  /** An odd/odd block of the lattice, which is where the cells sit. */
  predicate IsCellNode(m: Maze, q: Pos) {
    InLattice(m, q) && Odd(q.x) && Odd(q.y)
  }

  /** The maze cell of a cell block: int((x - 1) / 2), int((y - 1) / 2). */
  function CellOf(q: Pos): Pos {
    Pos((q.x - 1) / 2, (q.y - 1) / 2)
  }

  /** Cell block `c` clears block `q` when the lattice is built: `q` is the
      cell itself, or the block on a side of `c` whose wall flag is false. */
  predicate OpenedBy(m: Maze, c: Pos, q: Pos)
    requires WellFormed(m)
  {
    IsCellNode(m, c) &&
    var w := WallsAt(m, CellOf(c));
    q == c ||
    (!w.n && q == Beside(c, N)) || (!w.s && q == Beside(c, S)) ||
    (!w.w && q == Beside(c, W)) || (!w.e && q == Beside(c, E))
  }

  /** Some cell clears `q`: only `q` itself and its four side neighbours can. */
  predicate Opened(m: Maze, q: Pos)
    requires WellFormed(m)
  {
    OpenedBy(m, q, q) ||
    OpenedBy(m, Beside(q, S), q) || OpenedBy(m, Beside(q, N), q) ||
    OpenedBy(m, Beside(q, E), q) || OpenedBy(m, Beside(q, W), q)
  }

  /** The classification a freshly built (or reset) lattice gives block `q`:
      exit and start override everything, in that order of priority, then
      cleared blocks are EMPTY and all others WALL. */
  function BaseState(m: Maze, q: Pos): BlockState
    requires WellFormed(m)
  {
    if q == ExitNode(m) then EXIT
    else if q == StartNode(m) then START
    else if Opened(m, q) then EMPTY
    else WALL
  }

  type Grid = seq<seq<BlockState>>

  predicate InGrid(g: Grid, p: Pos) {
    0 <= p.y < |g| && 0 <= p.x < |g[p.y]|
  }

  function At(g: Grid, p: Pos): BlockState
    requires InGrid(g, p)
  {
    g[p.y][p.x]
  }

  /** The grid has the lattice's dimensions, indexed grid[y][x]. */
  predicate Shaped(m: Maze, g: Grid) {
    |g| == Height(m) && forall y :: 0 <= y < |g| ==> |g[y]| == Width(m)
  }

  /** The base classification of the whole lattice. */
  function BaseGrid(m: Maze): (g: Grid)
    requires WellFormed(m)
    ensures Shaped(m, g)
    ensures forall q :: InLattice(m, q) ==> At(g, q) == BaseState(m, q)
  {
    seq(Height(m), y => seq(Width(m), x => BaseState(m, Pos(x, y))))
  }

  /** Every cell's block is open: EMPTY, or START/EXIT for the two end cells. */
  lemma CellNodeOpen(m: Maze, c: Pos)
    requires WellFormed(m) && InCells(m, c)
    ensures InLattice(m, Node(c)) && BaseState(m, Node(c)) != WALL
    ensures BaseState(m, Node(c)) == (if c == m.exit then EXIT else if c == m.start then START else EMPTY)
  {
    assert IsCellNode(m, Node(c));
    assert CellOf(Node(c)) == c;
    assert OpenedBy(m, Node(c), Node(c));
  }

  /** The even/even corner posts stay WALL. */
  lemma CornerIsWall(m: Maze, q: Pos)
    requires WellFormed(m) && InLattice(m, q) && q.x % 2 == 0 && q.y % 2 == 0
    ensures BaseState(m, q) == WALL
  {
  }

  lemma NodeIsCellNode(m: Maze, c: Pos)
    requires InCells(m, c)
    ensures IsCellNode(m, Node(c)) && CellOf(Node(c)) == c
  {
  }

  /** A cell block clears its side neighbour exactly when that wall is absent. */
  lemma OpensSide(m: Maze, o: Pos, d: Dir)
    requires WellFormed(m) && InCells(m, o)
    ensures OpenedBy(m, Node(o), Beside(Node(o), d)) == !Flag(WallsAt(m, o), d)
  {
    NodeIsCellNode(m, o);
    var q := Beside(Node(o), d);
    match d
    case N => assert q != Node(o) && q != Beside(Node(o), S) && q != Beside(Node(o), E) && q != Beside(Node(o), W);
    case S => assert q != Node(o) && q != Beside(Node(o), N) && q != Beside(Node(o), E) && q != Beside(Node(o), W);
    case E => assert q != Node(o) && q != Beside(Node(o), N) && q != Beside(Node(o), S) && q != Beside(Node(o), W);
    case W => assert q != Node(o) && q != Beside(Node(o), N) && q != Beside(Node(o), S) && q != Beside(Node(o), E);
  }

  /** The blocks a connector can be cleared by, other than the cell `c` it
      belongs to: only the cell on its far side `d`. */
  lemma ConnectorCandidates(m: Maze, c: Pos, d: Dir)
    requires WellFormed(m) && InCells(m, c)
    ensures InLattice(m, Beside(Node(c), d))
    ensures Opened(m, Beside(Node(c), d)) <==>
      !Flag(WallsAt(m, c), d) || OpenedBy(m, Beside(Beside(Node(c), d), d), Beside(Node(c), d))
    ensures BaseState(m, Beside(Node(c), d)) == if Opened(m, Beside(Node(c), d)) then EMPTY else WALL
  {
    var q := Beside(Node(c), d);
    NodeIsCellNode(m, c);
    OpensSide(m, c, d);
    NodeIsCellNode(m, m.start);
    NodeIsCellNode(m, m.exit);
    assert !IsCellNode(m, q);
    match d
    case N =>
      assert Beside(q, S) == Node(c);
      assert !IsCellNode(m, Beside(q, E)) && !IsCellNode(m, Beside(q, W));
    case S =>
      assert Beside(q, N) == Node(c);
      assert !IsCellNode(m, Beside(q, E)) && !IsCellNode(m, Beside(q, W));
    case E =>
      assert Beside(q, W) == Node(c);
      assert !IsCellNode(m, Beside(q, N)) && !IsCellNode(m, Beside(q, S));
    case W =>
      assert Beside(q, E) == Node(c);
      assert !IsCellNode(m, Beside(q, N)) && !IsCellNode(m, Beside(q, S));
  }

  function Opposite(d: Dir): Dir {
    match d
    case N => S
    case S => N
    case E => W
    case W => E
  }

  /** Consistent walls: a cell's wall on side `d` is its neighbour's wall on
      the opposite side. */
  lemma SharedWall(m: Maze, c: Pos, d: Dir)
    requires WellFormed(m) && Consistent(m) && InCells(m, c) && InCells(m, Beside(c, d))
    ensures Flag(WallsAt(m, Beside(c, d)), Opposite(d)) == Flag(WallsAt(m, c), d)
  {
    var o := Beside(c, d);
    match d
    case N => assert WallsAt(m, o).s == WallsAt(m, c).n;
    case S =>
    case E =>
    case W => assert WallsAt(m, o).e == WallsAt(m, c).w;
  }

  /** The cell beyond a connector clears it only through the wall they share. */
  lemma FarSide(m: Maze, c: Pos, d: Dir)
    requires WellFormed(m) && Consistent(m) && InCells(m, c)
    ensures OpenedBy(m, Beside(Beside(Node(c), d), d), Beside(Node(c), d)) ==> !Flag(WallsAt(m, c), d)
  {
    var q := Beside(Node(c), d);
    var o := Beside(c, d);
    if InCells(m, o) {
      NodeIsCellNode(m, o);
      OpensSide(m, o, Opposite(d));
      assert Beside(q, d) == Node(o) && q == Beside(Node(o), Opposite(d));
      SharedWall(m, c, d);
    } else {
      assert !IsCellNode(m, Beside(q, d));
    }
  }

  /** Given consistent walls, the connector beside a cell on side `d` is EMPTY
      exactly when that cell has no wall on side `d`. */
  lemma ConnectorMatchesWall(m: Maze, c: Pos, d: Dir)
    requires WellFormed(m) && Consistent(m) && InCells(m, c)
    ensures InLattice(m, Beside(Node(c), d))
    ensures BaseState(m, Beside(Node(c), d)) == (if Flag(WallsAt(m, c), d) then WALL else EMPTY)
  {
    ConnectorCandidates(m, c, d);
    FarSide(m, c, d);
  }

  /** The start and exit blocks sit at (2x+1, 2y+1) of their cells, and no
      other block carries START or EXIT; nothing in the base is PATH. */
  lemma EndsPlaced(m: Maze, q: Pos)
    requires WellFormed(m)
    ensures InLattice(m, StartNode(m)) && InLattice(m, ExitNode(m)) && StartNode(m) != ExitNode(m)
    ensures BaseState(m, StartNode(m)) == START && BaseState(m, ExitNode(m)) == EXIT
    ensures BaseState(m, q) == START <==> q == StartNode(m)
    ensures BaseState(m, q) == EXIT <==> q == ExitNode(m)
    ensures BaseState(m, q) != PATH
  {
  }
}
