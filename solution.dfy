/** The solution overlay: draw_path turns the maze's cell path into a trace
    over the lattice, claiming every cell block on the way and the connector
    block between each pair of consecutive cells. */
module Solution {
  import opened Lattice
  import opened Tracer

  /** The whole route the overlay follows: the start cell, the maze's path
      (which holds neither end), the exit cell. */
  function Route(m: Maze, cells: seq<Pos>): (r: seq<Pos>)
    ensures |r| == |cells| + 2 && r[0] == m.start && r[|r| - 1] == m.exit
    ensures forall i :: 0 <= i < |cells| ==> r[i + 1] == cells[i]
  {
    [m.start] + cells + [m.exit]
  }

  /** Every cell of the path lies inside the maze. */
  predicate OnGrid(m: Maze, cells: seq<Pos>) {
    forall i :: 0 <= i < |cells| ==> InCells(m, cells[i])
  }

  /** Cells `a` and `b` are side neighbours and the wall between them is open
      on at least one side. */
  ghost predicate Passage(m: Maze, a: Pos, b: Pos)
    requires WellFormed(m)
  {
    InCells(m, a) && InCells(m, b) &&
    exists d :: b == Beside(a, d) && (!Flag(WallsAt(m, a), d) || !Flag(WallsAt(m, b), Opposite(d)))
  }

  /** Step `i` of route `r` goes through a passage. */
  ghost predicate StepOpen(m: Maze, r: seq<Pos>, i: nat)
    requires WellFormed(m) && i < |r| - 1
  {
    Passage(m, r[i], r[i + 1])
  }

  /** What draw_path relies on from the maze's solver: the route visits each
      cell at most once and steps only through open walls. */
  ghost predicate ValidRoute(m: Maze, cells: seq<Pos>)
    requires WellFormed(m)
  {
    var r := Route(m, cells);
    Distinct(r) && forall i :: 0 <= i < |r| - 1 ==> StepOpen(m, r, i)
  }

  /** The connector block draw_path picks between the previous block and the
      current one: cur + int((prev - cur) / 2) on each axis. */
  function Joint(prev: Pos, cur: Pos): (r: Pos)
  {
    Pos(cur.x + Half(prev.x - cur.x), cur.y + Half(prev.y - cur.y))
  }

  /** The lattice blocks of a sequence of cells. */
  function Nodes(r: seq<Pos>): (ns: seq<Pos>)
    ensures |ns| == |r| && forall i :: 0 <= i < |r| ==> ns[i] == Node(r[i])
  {
    seq(|r|, i requires 0 <= i < |r| => Node(r[i]))
  }

  /** The blocks draw_path's loop appends while walking the cell blocks `ns`
      (the first one excluded): the connector into each next block, then that
      block, and only the connector into the last one. */
  function DrawFrom(ns: seq<Pos>): (s: seq<Pos>)
    requires |ns| >= 2
    ensures |s| == 2 * |ns| - 3
    decreases |ns|
  {
    if |ns| == 2 then [Joint(ns[0], ns[1])]
    else [Joint(ns[0], ns[1]), ns[1]] + DrawFrom(ns[1..])
  }

  /** The trace draw_path builds, from the start block to the exit block. */
  function DrawnPath(m: Maze, cells: seq<Pos>): (s: seq<Pos>)
    ensures |s| == 2 * |cells| + 1
  {
    DrawFrom(Nodes(Route(m, cells)))
  }

  /** One turn of draw_path's loop: the connector into the next block, then
      that block, then the rest. */
  lemma DrawFromStep(ns: seq<Pos>, i: nat)
    requires i + 3 <= |ns|
    ensures DrawFrom(ns[i..]) == [Joint(ns[i], ns[i + 1]), ns[i + 1]] + DrawFrom(ns[i + 1..])
  {
    assert ns[i..][1..] == ns[i + 1..];
  }

  /** What DrawFrom places at each index: connectors at even ones, blocks at
      odd ones. */
  lemma {:induction false} DrawFromAt(ns: seq<Pos>, i: nat)
    requires |ns| >= 2
    ensures i < |ns| - 1 ==> DrawFrom(ns)[2 * i] == Joint(ns[i], ns[i + 1])
    ensures i < |ns| - 2 ==> DrawFrom(ns)[2 * i + 1] == ns[i + 1]
    decreases |ns|
  {
    if |ns| > 2 && i > 0 {
      DrawFromAt(ns[1..], i - 1);
      assert DrawFrom(ns)[2..] == DrawFrom(ns[1..]);
    }
  }

  /** The state draw_path leaves: the base classification with the drawn
      trace painted PATH. */
  ghost function DrawnTrace(m: Maze, cells: seq<Pos>): Trace
    requires WellFormed(m)
  {
    var s := DrawnPath(m, cells);
    Trace(Marked(BaseGrid(m), s, PATH), s)
  }

  /** The connector picked between two lattice blocks lies between them, so
      on the lattice too. */
  lemma JointInLattice(m: Maze, prev: Pos, cur: Pos)
    requires InLattice(m, prev) && InLattice(m, cur)
    ensures InLattice(m, Joint(prev, cur))
  {
  }

  /** The blocks DrawFrom walks through lie on the lattice when the cell
      blocks it walks do. */
  lemma {:induction false} DrawFromOnLattice(m: Maze, ns: seq<Pos>)
    requires |ns| >= 2 && forall i :: 0 <= i < |ns| ==> InLattice(m, ns[i])
    ensures forall q :: q in DrawFrom(ns) ==> InLattice(m, q)
    decreases |ns|
  {
    JointInLattice(m, ns[0], ns[1]);
    if |ns| > 2 {
      DrawFromOnLattice(m, ns[1..]);
    }
  }

  /** Every block draw_path claims lies on the lattice, whatever the walls
      say, as long as the path's cells lie inside the maze. */
  lemma DrawnOnLattice(m: Maze, cells: seq<Pos>)
    requires WellFormed(m) && OnGrid(m, cells)
    ensures forall q :: q in DrawnPath(m, cells) ==> InLattice(m, q)
  {
    var r := Route(m, cells);
    var ns := Nodes(r);
    forall i | 0 <= i < |ns|
      ensures InLattice(m, ns[i])
    {
      if 0 < i < |ns| - 1 {
        assert r[i] == cells[i - 1];
      }
      assert InCells(m, r[i]);
    }
    DrawFromOnLattice(m, ns);
  }

  /** The connector between neighbouring cells sits one step from each cell
      block, at the coordinate sums plus one. */
  lemma JointBetween(a: Pos, b: Pos, d: Dir)
    requires b == Beside(a, d)
    ensures Joint(Node(a), Node(b)) == Beside(Node(a), d) == Pos(a.x + b.x + 1, a.y + b.y + 1)
    ensures Beside(Joint(Node(a), Node(b)), d) == Node(b)
    ensures Adjacent(Node(a), Joint(Node(a), Node(b))) && Adjacent(Joint(Node(a), Node(b)), Node(b))
  {
  }

  /** The connector of a passage is an EMPTY lattice block that is not a cell
      block. */
  lemma JointOpen(m: Maze, a: Pos, b: Pos)
    requires WellFormed(m) && Passage(m, a, b)
    ensures InLattice(m, Joint(Node(a), Node(b))) && BaseState(m, Joint(Node(a), Node(b))) == EMPTY
    ensures !(Odd(Joint(Node(a), Node(b)).x) && Odd(Joint(Node(a), Node(b)).y))
    ensures Adjacent(Node(a), Joint(Node(a), Node(b))) && Adjacent(Joint(Node(a), Node(b)), Node(b))
  {
    var d :| b == Beside(a, d) && (!Flag(WallsAt(m, a), d) || !Flag(WallsAt(m, b), Opposite(d)));
    JointBetween(a, b, d);
    SideOpen(m, a, d);
    SideParity(a, d);
  }

  /** The block beside a cell block is never itself at odd/odd coordinates. */
  lemma SideParity(a: Pos, d: Dir)
    ensures !(Odd(Beside(Node(a), d).x) && Odd(Beside(Node(a), d).y))
  {
    match d
    case N => assert Beside(Node(a), d).y == 2 * a.y;
    case S => assert Beside(Node(a), d).y == 2 * (a.y + 1);
    case E => assert Beside(Node(a), d).x == 2 * (a.x + 1);
    case W => assert Beside(Node(a), d).x == 2 * a.x;
  }

  /** The block between a cell and its neighbour on side `d` is EMPTY in the
      base when either of the two cells has no wall on that side. */
  lemma SideOpen(m: Maze, a: Pos, d: Dir)
    requires WellFormed(m) && InCells(m, a) && InCells(m, Beside(a, d))
    requires !Flag(WallsAt(m, a), d) || !Flag(WallsAt(m, Beside(a, d)), Opposite(d))
    ensures InLattice(m, Beside(Node(a), d)) && BaseState(m, Beside(Node(a), d)) == EMPTY
  {
    var b := Beside(a, d);
    var q := Beside(Node(a), d);
    ConnectorCandidates(m, a, d);
    OpensSide(m, b, Opposite(d));
    assert Beside(Node(b), Opposite(d)) == q && Beside(q, d) == Node(b);
  }

  /** A connector determines the passage it belongs to. */
  lemma JointsDiffer(m: Maze, a: Pos, b: Pos, c: Pos, e: Pos)
    requires WellFormed(m) && Passage(m, a, b) && Passage(m, c, e)
    requires Joint(Node(a), Node(b)) == Joint(Node(c), Node(e))
    ensures (a == c && b == e) || (a == e && b == c)
  {
    var d1 :| b == Beside(a, d1) && (!Flag(WallsAt(m, a), d1) || !Flag(WallsAt(m, b), Opposite(d1)));
    var d2 :| e == Beside(c, d2) && (!Flag(WallsAt(m, c), d2) || !Flag(WallsAt(m, e), Opposite(d2)));
    JointBetween(a, b, d1);
    JointBetween(c, e, d2);
    SumsDetermine(a, b, c, e, d1, d2);
  }

  /** Two neighbouring pairs with the same coordinate sums are the same pair. */
  lemma SumsDetermine(a: Pos, b: Pos, c: Pos, e: Pos, d1: Dir, d2: Dir)
    requires b == Beside(a, d1) && e == Beside(c, d2)
    requires a.x + b.x == c.x + e.x && a.y + b.y == c.y + e.y
    ensures (a == c && b == e) || (a == e && b == c)
  {
    match d1
    case N =>
    case S =>
    case E =>
    case W =>
  }

  /** The drawn block at even index 2i is the connector of route step i. */
  lemma DrawnJoint(m: Maze, cells: seq<Pos>, i: nat)
    requires WellFormed(m) && ValidRoute(m, cells) && i <= |cells|
    ensures DrawnPath(m, cells)[2 * i] == Joint(Node(Route(m, cells)[i]), Node(Route(m, cells)[i + 1]))
    ensures Passage(m, Route(m, cells)[i], Route(m, cells)[i + 1])
  {
    DrawFromAt(Nodes(Route(m, cells)), i);
    assert StepOpen(m, Route(m, cells), i);
  }

  /** The drawn block at odd index 2i+1 is the block of the route's cell i+1. */
  lemma DrawnCell(m: Maze, cells: seq<Pos>, i: nat)
    requires i < |cells|
    ensures DrawnPath(m, cells)[2 * i + 1] == Node(Route(m, cells)[i + 1])
  {
    DrawFromAt(Nodes(Route(m, cells)), i);
  }

  /** Each drawn block is a lattice block that is EMPTY in the base: the
      connectors of passages, and the blocks of cells other than the ends. */
  lemma DrawnClaims(m: Maze, cells: seq<Pos>)
    requires WellFormed(m) && ValidRoute(m, cells)
    ensures ClaimsEmpty(m, DrawnPath(m, cells))
  {
    var s := DrawnPath(m, cells);
    forall k | 0 <= k < |s|
      ensures InLattice(m, s[k]) && BaseState(m, s[k]) == EMPTY
    {
      DrawnClaimAt(m, cells, k / 2);
    }
  }

  /** The two drawn blocks of route step `h`: its connector, and (unless the
      step enters the exit cell) the block of the cell it enters. */
  lemma DrawnClaimAt(m: Maze, cells: seq<Pos>, h: nat)
    requires WellFormed(m) && ValidRoute(m, cells) && h <= |cells|
    ensures InLattice(m, DrawnPath(m, cells)[2 * h]) && BaseState(m, DrawnPath(m, cells)[2 * h]) == EMPTY
    ensures h < |cells| ==>
      InLattice(m, DrawnPath(m, cells)[2 * h + 1]) && BaseState(m, DrawnPath(m, cells)[2 * h + 1]) == EMPTY
  {
    var r := Route(m, cells);
    DrawnJoint(m, cells, h);
    JointOpen(m, r[h], r[h + 1]);
    if h < |cells| {
      DrawnCell(m, cells, h);
      assert r[h + 1] != r[0] && r[h + 1] != r[|r| - 1];
      CellNodeOpen(m, r[h + 1]);
    }
  }

  /** Passages out of two different cells, neither leading back into the
      first, have different connectors. */
  lemma DistinctJoints(m: Maze, a: Pos, b: Pos, c: Pos, e: Pos)
    requires WellFormed(m) && Passage(m, a, b) && Passage(m, c, e)
    requires a != c && a != e
    ensures Joint(Node(a), Node(b)) != Joint(Node(c), Node(e))
  {
    if Joint(Node(a), Node(b)) == Joint(Node(c), Node(e)) {
      JointsDiffer(m, a, b, c, e);
    }
  }

  /** Two connectors at different steps differ. */
  lemma JointsApart(m: Maze, cells: seq<Pos>, a: nat, b: nat)
    requires WellFormed(m) && ValidRoute(m, cells) && a < b <= |cells|
    ensures DrawnPath(m, cells)[2 * a] != DrawnPath(m, cells)[2 * b]
  {
    var r := Route(m, cells);
    DrawnJoint(m, cells, a);
    DrawnJoint(m, cells, b);
    assert r[a] != r[b] && r[a] != r[b + 1];
    DistinctJoints(m, r[a], r[a + 1], r[b], r[b + 1]);
  }

  /** The drawn connector at step `a` has an even coordinate. */
  lemma DrawnJointParity(m: Maze, cells: seq<Pos>, a: nat)
    requires WellFormed(m) && ValidRoute(m, cells) && a <= |cells|
    ensures !(Odd(DrawnPath(m, cells)[2 * a].x) && Odd(DrawnPath(m, cells)[2 * a].y))
  {
    var r := Route(m, cells);
    DrawnJoint(m, cells, a);
    JointOpen(m, r[a], r[a + 1]);
  }

  /** A connector is never a cell block. */
  lemma JointNotCell(m: Maze, cells: seq<Pos>, a: nat, b: nat)
    requires WellFormed(m) && ValidRoute(m, cells) && a <= |cells| && b < |cells|
    ensures DrawnPath(m, cells)[2 * a] != DrawnPath(m, cells)[2 * b + 1]
  {
    DrawnJointParity(m, cells, a);
    DrawnCell(m, cells, b);
    NodeParity(Route(m, cells)[b + 1]);
  }

  /** Two cell blocks at different steps differ. */
  lemma CellsApart(m: Maze, cells: seq<Pos>, a: nat, b: nat)
    requires WellFormed(m) && ValidRoute(m, cells) && a < b < |cells|
    ensures DrawnPath(m, cells)[2 * a + 1] != DrawnPath(m, cells)[2 * b + 1]
  {
    var r := Route(m, cells);
    DrawnCell(m, cells, a);
    DrawnCell(m, cells, b);
    assert r[a + 1] != r[b + 1];
    NodeInjective(r[a + 1], r[b + 1]);
  }

  /** Two drawn blocks at different indices differ. */
  lemma DrawnDiffer(m: Maze, cells: seq<Pos>, i: nat, j: nat)
    requires WellFormed(m) && ValidRoute(m, cells) && i < j < 2 * |cells| + 1
    ensures DrawnPath(m, cells)[i] != DrawnPath(m, cells)[j]
  {
    var a, b := i / 2, j / 2;
    if i == 2 * a && j == 2 * b {
      JointsApart(m, cells, a, b);
    } else if i == 2 * a {
      JointNotCell(m, cells, a, b);
    } else if j == 2 * b {
      JointNotCell(m, cells, b, a);
    } else {
      CellsApart(m, cells, a, b);
    }
  }

  /** No block is drawn twice. */
  lemma DrawnDistinct(m: Maze, cells: seq<Pos>)
    requires WellFormed(m) && ValidRoute(m, cells)
    ensures Distinct(DrawnPath(m, cells))
  {
    var s := DrawnPath(m, cells);
    forall i, j | 0 <= i < j < |s|
      ensures s[i] != s[j]
    {
      DrawnDiffer(m, cells, i, j);
    }
  }

  /** The connector before a cell block leads into it. */
  lemma IntoCell(m: Maze, cells: seq<Pos>, h: nat)
    requires WellFormed(m) && ValidRoute(m, cells) && h < |cells|
    ensures Adjacent(DrawnPath(m, cells)[2 * h], DrawnPath(m, cells)[2 * h + 1])
  {
    var r := Route(m, cells);
    DrawnJoint(m, cells, h);
    DrawnCell(m, cells, h);
    JointOpen(m, r[h], r[h + 1]);
  }

  /** The connector after a cell block leads out of it. */
  lemma OutOfCell(m: Maze, cells: seq<Pos>, h: nat)
    requires WellFormed(m) && ValidRoute(m, cells) && h < |cells|
    ensures Adjacent(DrawnPath(m, cells)[2 * h + 1], DrawnPath(m, cells)[2 * h + 2])
  {
    var r := Route(m, cells);
    DrawnCell(m, cells, h);
    DrawnJoint(m, cells, h + 1);
    JointOpen(m, r[h + 1], r[h + 2]);
  }

  /** Consecutive drawn blocks are one step apart. */
  lemma DrawnStep(m: Maze, cells: seq<Pos>, k: nat)
    requires WellFormed(m) && ValidRoute(m, cells) && 0 < k < 2 * |cells| + 1
    ensures Adjacent(DrawnPath(m, cells)[k - 1], DrawnPath(m, cells)[k])
  {
    var h := (k - 1) / 2;
    if k == 2 * h + 1 {
      IntoCell(m, cells, h);
    } else {
      OutOfCell(m, cells, h);
    }
  }

  /** The drawn blocks form a walk of unit steps out of the start block that
      ends next to the exit block. */
  lemma DrawnWalk(m: Maze, cells: seq<Pos>)
    requires WellFormed(m) && ValidRoute(m, cells)
    ensures IsWalk(StartNode(m), DrawnPath(m, cells))
    ensures Adjacent(DrawnPath(m, cells)[2 * |cells|], ExitNode(m))
  {
    var r := Route(m, cells);
    var s := DrawnPath(m, cells);
    DrawnJoint(m, cells, 0);
    JointOpen(m, r[0], r[1]);
    forall k | 0 < k < |s|
      ensures Adjacent(s[k - 1], s[k])
    {
      DrawnStep(m, cells, k);
    }
    DrawnJoint(m, cells, |cells|);
    JointOpen(m, r[|cells|], r[|cells| + 1]);
  }

  /** draw_path establishes the tracer's invariant with 2n+1 blocks for a
      path of n cells, the last of them next to the exit. */
  lemma DrawnTraced(m: Maze, cells: seq<Pos>)
    requires WellFormed(m) && ValidRoute(m, cells)
    ensures Traced(m, DrawnTrace(m, cells))
    ensures |DrawnTrace(m, cells).path| == 2 * |cells| + 1
    ensures Adjacent(DrawnTrace(m, cells).path[2 * |cells|], ExitNode(m))
  {
    DrawnClaims(m, cells);
    DrawnDistinct(m, cells);
    DrawnWalk(m, cells);
  }
}
