/** The game frame: the lattice of blocks and the player's trace, updated in
    place by the canvas set-up and by the mouse handlers.  Every method states
    exactly the grid and trace it leaves, block by block or as the matching
    function of module Tracer (or Solution).  The mouse handlers keep the
    tracer's invariant (Valid) and ResetCanvasBlocks establishes it; InitCanvas
    establishes it only when the trace was empty, and DrawPath only when the
    maze's path is a valid route.  The step methods (Clear, OpenSide, OpenCell,
    Classify, PlaceEnds, Claim, ClaimColumn, ClaimRow, ClearAll, DrawRoute)
    state only their effect on the blocks and the trace. */
module Frame {
  import opened Lattice
  import opened Tracer
  import opened Solution

  /** What a mouse handler did with an event. */
  datatype Click =
    | NoCanvas     // the canvas is not built yet: the handler returns at once
    | OutOfBounds  // the pointer lies off the lattice: the block lookup fails
    | Ignored      // the move is not allowed: nothing changes
    | Applied      // the trace and the blocks were updated

  /** The classification scan visits blocks row by row, left to right; `c`
      comes before position (x, y) of that scan. */
  predicate Done(c: Pos, y: int, x: int) {
    c.y < y || (c.y == y && c.x < x)
  }

  /** Block `q` has been cleared by a cell block the scan has already passed. */
  ghost predicate OpenedBefore(m: Maze, q: Pos, y: int, x: int)
    requires WellFormed(m)
  {
    (Done(q, y, x) && OpenedBy(m, q, q)) ||
    (Done(Beside(q, S), y, x) && OpenedBy(m, Beside(q, S), q)) ||
    (Done(Beside(q, N), y, x) && OpenedBy(m, Beside(q, N), q)) ||
    (Done(Beside(q, E), y, x) && OpenedBy(m, Beside(q, E), q)) ||
    (Done(Beside(q, W), y, x) && OpenedBy(m, Beside(q, W), q))
  }

  /** Passing one more block adds exactly what that block clears. */
  lemma OpenedStep(m: Maze, q: Pos, y: int, x: int)
    requires WellFormed(m)
    ensures OpenedBefore(m, q, y, x + 1) <==> OpenedBefore(m, q, y, x) || OpenedBy(m, Pos(x, y), q)
  {
    var c := Pos(x, y);
    if OpenedBy(m, c, q) {
      assert c == q || c == Beside(q, S) || c == Beside(q, N) || c == Beside(q, E) || c == Beside(q, W);
    }
  }

  /** The end of one row of the scan is the start of the next. */
  lemma OpenedRow(m: Maze, q: Pos, y: int)
    requires WellFormed(m)
    ensures OpenedBefore(m, q, y, Width(m)) <==> OpenedBefore(m, q, y + 1, 0)
  {
  }

  /** Before the scan nothing is cleared; after it, what Opened says. */
  lemma OpenedEnds(m: Maze, q: Pos)
    requires WellFormed(m)
    ensures !OpenedBefore(m, q, 0, 0)
    ensures OpenedBefore(m, q, Height(m), 0) <==> Opened(m, q)
  {
  }

  /** A prefix one element longer holds that element besides the shorter
      prefix's. */
  lemma PrefixStep(s: seq<Pos>, k: nat)
    requires k < |s|
    ensures s[..k + 1] == s[..k] + [s[k]]
    ensures forall q :: q in s[..k + 1] <==> q in s[..k] || q == s[k]
  {
    assert s[..k + 1] == s[..k] + [s[k]];
  }

  /** A grid with the accepted drag's blocks painted over the old one is the
      state Extend describes, and it keeps the invariant. */
  lemma ExtendByRun(m: Maze, t: Trace, p: Pos, g: Grid)
    requires WellFormed(m) && Traced(m, t) && ExtendAccepts(m, t, p) && Shaped(m, g)
    requires forall q :: InLattice(m, q) ==>
      At(g, q) == if q in Segment(Tail(m, t.path), p) then PATH else At(t.blocks, q)
    ensures Extend(m, t, p) == Trace(g, t.path + Segment(Tail(m, t.path), p))
    ensures Traced(m, Trace(g, t.path + Segment(Tail(m, t.path), p)))
  {
    TailOccupied(m, t);
    GridsEqual(g, Marked(t.blocks, Segment(Tail(m, t.path), p), PATH));
    ExtendKeepsTraced(m, t, p);
  }

  /** Where a right click truncates: the clicked block is on the trace, and
      every block after its first occurrence lies on the lattice. */
  lemma TruncateTargets(m: Maze, t: Trace, p: Pos)
    requires WellFormed(m) && Traced(m, t) && TruncateAccepts(m, t, p)
    ensures p in t.path
    ensures forall q :: q in t.path[IndexOf(t.path, p) + 1..] ==> InLattice(m, q)
  {
    PathIsPainted(m, t, p);
    var rest := t.path[IndexOf(t.path, p) + 1..];
    forall q | q in rest
      ensures InLattice(m, q)
    {
      var j :| 0 <= j < |rest| && rest[j] == q;
      assert q == t.path[IndexOf(t.path, p) + 1 + j];
    }
  }

  /** A grid with the blocks after `p` cleared is the state Truncate
      describes, and it keeps the invariant. */
  lemma TruncateByClear(m: Maze, t: Trace, p: Pos, g: Grid)
    requires WellFormed(m) && Traced(m, t) && TruncateAccepts(m, t, p) && Shaped(m, g)
    requires p in t.path
    requires forall q :: InLattice(m, q) ==>
      At(g, q) == if q in t.path[IndexOf(t.path, p) + 1..] then EMPTY else At(t.blocks, q)
    ensures Truncate(m, t, p) == Trace(g, t.path[..IndexOf(t.path, p) + 1])
    ensures Traced(m, Trace(g, t.path[..IndexOf(t.path, p) + 1]))
  {
    GridsEqual(g, Marked(t.blocks, t.path[IndexOf(t.path, p) + 1..], EMPTY));
    TruncateKeepsTraced(m, t, p);
  }

  /** One turn of draw_path's loop: the connector into `ns[i + 1]` and that
      block come next in the drawn sequence. */
  lemma DrawnSoFar(ns: seq<Pos>, i: nat, done: seq<Pos>)
    requires i + 3 <= |ns| && done + DrawFrom(ns[i..]) == DrawFrom(ns)
    ensures done + [Joint(ns[i], ns[i + 1]), ns[i + 1]] + DrawFrom(ns[i + 1..]) == DrawFrom(ns)
    ensures Joint(ns[i], ns[i + 1]) in DrawFrom(ns) && ns[i + 1] in DrawFrom(ns)
  {
    var step := [Joint(ns[i], ns[i + 1]), ns[i + 1]];
    var rest := DrawFrom(ns[i + 1..]);
    DrawFromStep(ns, i);
    SeqRegroup(done, step, rest, DrawFrom(ns));
  }

  /** Regrouping a three-part concatenation keeps the middle part's elements
      in the whole. */
  lemma SeqRegroup(a: seq<Pos>, b: seq<Pos>, c: seq<Pos>, s: seq<Pos>)
    requires a + (b + c) == s
    ensures a + b + c == s && forall x :: x in b ==> x in s
  {
    assert a + b + c == a + (b + c);
    forall x | x in b
      ensures x in s
    {
      var j :| 0 <= j < |b| && b[j] == x;
      assert s[|a| + j] == x;
    }
  }

  /** The base grid with the drawn route painted over it is the state
      DrawnTrace describes; it satisfies the invariant when the route is a
      valid one. */
  lemma DrawnByRoute(m: Maze, cells: seq<Pos>, g: Grid)
    requires WellFormed(m) && Shaped(m, g)
    requires forall q :: InLattice(m, q) ==>
      At(g, q) == if q in DrawnPath(m, cells) then PATH else BaseState(m, q)
    ensures DrawnTrace(m, cells) == Trace(g, DrawnPath(m, cells))
    ensures ValidRoute(m, cells) ==> Traced(m, Trace(g, DrawnPath(m, cells)))
  {
    GridsEqual(g, Marked(BaseGrid(m), DrawnPath(m, cells), PATH));
    if ValidRoute(m, cells) {
      DrawnTraced(m, cells);
    }
  }

  /** Every block of the grid is WALL. */
  predicate AllWall(g: Grid) {
    forall y, x :: 0 <= y < |g| && 0 <= x < |g[y]| ==> g[y][x] == WALL
  }

  class MazeFrame {
    /** The maze on display; maze.path is the solver's route between the end
        cells, used by DrawPath. */
    const maze: Maze
    /** Whether init_canvas has run (self.canvas is not None). */
    var hasCanvas: bool
    /** canvas_blocks, indexed blocks[y][x]. */
    var blocks: Grid
    /** block_path: the player's trace. */
    var blockPath: seq<Pos>

    ghost predicate Valid()
      reads this
    {
      WellFormed(maze) &&
      if hasCanvas then Traced(maze, State()) else blockPath == []
    }

    function State(): Trace
      reads this
    {
      Trace(blocks, blockPath)
    }

    /** A frame showing maze `m`, before its canvas is built. */
    constructor (m: Maze)
      requires WellFormed(m)
      ensures Valid() && maze == m && !hasCanvas && blockPath == []
    {
      maze := m;
      hasCanvas := false;
      blocks := [];
      blockPath := [];
    }

    /** Grid `g` is `g0` with exactly the blocks of `s` turned EMPTY. */
    ghost predicate ClearedFrom(g: Grid, g0: Grid, s: set<Pos>)
      requires WellFormed(maze) && Shaped(maze, g) && Shaped(maze, g0)
    {
      forall q :: InLattice(maze, q) ==> At(g, q) == if q in s then EMPTY else At(g0, q)
    }

    /** One block set to EMPTY (block.state = BlockState.EMPTY). */
    method Clear(q: Pos, ghost g0: Grid, ghost s: set<Pos>)
      modifies this`blocks
      requires WellFormed(maze) && Shaped(maze, blocks) && Shaped(maze, g0) && InLattice(maze, q)
      requires ClearedFrom(blocks, g0, s)
      ensures Shaped(maze, blocks) && ClearedFrom(blocks, g0, s + {q})
    {
      blocks := Set(blocks, q, EMPTY);
    }

    /** One side of a cell block: cleared when its wall flag is false. */
    method OpenSide(c: Pos, d: Dir, wall: bool, ghost g0: Grid, ghost s: set<Pos>) returns (ghost s': set<Pos>)
      modifies this`blocks
      requires WellFormed(maze) && Shaped(maze, blocks) && Shaped(maze, g0) && IsCellNode(maze, c)
      requires ClearedFrom(blocks, g0, s)
      ensures Shaped(maze, blocks) && ClearedFrom(blocks, g0, s')
      ensures s' == if wall then s else s + {Beside(c, d)}
    {
      s' := s;
      if !wall {
        Clear(Beside(c, d), g0, s);
        s' := s + {Beside(c, d)};
      }
    }

    /** The clearing pass of init_canvas and reset_canvas_blocks for one cell
        block: the block itself, then each side whose wall flag is false. */
    method OpenCell(x: int, y: int)
      modifies this`blocks
      requires WellFormed(maze) && Shaped(maze, blocks) && IsCellNode(maze, Pos(x, y))
      ensures Shaped(maze, blocks)
      ensures forall q :: InLattice(maze, q) ==>
        At(blocks, q) == if OpenedBy(maze, Pos(x, y), q) then EMPTY else old(At(blocks, q))
    {
      var c := Pos(x, y);
      ghost var g0 := blocks;
      Clear(c, g0, {});
      // the cell is (int((x - 1) / 2), int((y - 1) / 2)); both are non-negative
      var w := WallsAt(maze, CellOf(c));
      ghost var s := OpenSide(c, N, w.n, g0, {c});
      s := OpenSide(c, S, w.s, g0, s);
      s := OpenSide(c, W, w.w, g0, s);
      s := OpenSide(c, E, w.e, g0, s);
      assert forall q :: q in s <==> OpenedBy(maze, c, q);
    }

    /** The clearing scan over an all-WALL lattice: afterwards exactly the
        blocks some cell clears are EMPTY. */
    method Classify()
      modifies this`blocks
      requires WellFormed(maze) && Shaped(maze, blocks) && AllWall(blocks)
      ensures Shaped(maze, blocks)
      ensures forall q :: InLattice(maze, q) ==> At(blocks, q) == if Opened(maze, q) then EMPTY else WALL
    {
      forall q | InLattice(maze, q)
        ensures !OpenedBefore(maze, q, 0, 0)
      {
        OpenedEnds(maze, q);
      }
      for y := 0 to |blocks|
        invariant Shaped(maze, blocks)
        invariant forall q :: InLattice(maze, q) ==>
          At(blocks, q) == if OpenedBefore(maze, q, y, 0) then EMPTY else WALL
      {
        for x := 0 to |blocks[0]|
          invariant Shaped(maze, blocks)
          invariant forall q :: InLattice(maze, q) ==>
            At(blocks, q) == if OpenedBefore(maze, q, y, x) then EMPTY else WALL
        {
          if x % 2 == 1 && y % 2 == 1 {
            OpenCell(x, y);
          }
          forall q | InLattice(maze, q)
            ensures OpenedBefore(maze, q, y, x + 1) <==> OpenedBefore(maze, q, y, x) || OpenedBy(maze, Pos(x, y), q)
          {
            OpenedStep(maze, q, y, x);
          }
        }
        forall q | InLattice(maze, q)
          ensures OpenedBefore(maze, q, y, Width(maze)) <==> OpenedBefore(maze, q, y + 1, 0)
        {
          OpenedRow(maze, q, y);
        }
      }
      forall q | InLattice(maze, q)
        ensures OpenedBefore(maze, q, Height(maze), 0) <==> Opened(maze, q)
      {
        OpenedEnds(maze, q);
      }
    }

    /** The last step of both set-ups: the start block, then the exit block.
        The lattice then holds the base classification. */
    method PlaceEnds()
      modifies this`blocks
      requires WellFormed(maze) && Shaped(maze, blocks)
      requires forall q :: InLattice(maze, q) ==> At(blocks, q) == if Opened(maze, q) then EMPTY else WALL
      ensures blocks == BaseGrid(maze)
    {
      EndsPlaced(maze, StartNode(maze));
      blocks := Set(blocks, StartNode(maze), START);
      blocks := Set(blocks, ExitNode(maze), EXIT);
      GridsEqual(blocks, BaseGrid(maze));
    }

    /** init_canvas: build an all-WALL lattice of (2*rows+1) x (2*cols+1)
        blocks, clear the open blocks, place the ends.  block_path is left
        as it is, so the frame is back in its invariant only when the trace
        was empty (as it is on a fresh frame). */
    method InitCanvas()
      modifies this
      requires Valid()
      ensures hasCanvas && blocks == BaseGrid(maze) && blockPath == old(blockPath)
      ensures blockPath == [] ==> Valid() && State() == Fresh(maze)
    {
      hasCanvas := true;
      blocks := [];
      for y := 0 to Height(maze)
        invariant hasCanvas && blockPath == old(blockPath) && |blocks| == y && AllWall(blocks)
        invariant forall r :: 0 <= r < y ==> |blocks[r]| == Width(maze)
      {
        blocks := blocks + [[]];
        for x := 0 to Width(maze)
          invariant hasCanvas && blockPath == old(blockPath) && |blocks| == y + 1 && |blocks[y]| == x && AllWall(blocks)
          invariant forall r :: 0 <= r < y ==> |blocks[r]| == Width(maze)
        {
          blocks := blocks[y := blocks[y] + [WALL]];
        }
      }
      Classify();
      PlaceEnds();
    }

    /** reset_canvas_blocks: empty the trace, turn every block back to WALL,
        then classify as init_canvas does. */
    method ResetCanvasBlocks()
      modifies this`blocks, this`blockPath
      requires WellFormed(maze) && hasCanvas && Shaped(maze, blocks)
      ensures Valid() && State() == Fresh(maze)
    {
      blockPath := [];
      for y := 0 to Height(maze)
        invariant blockPath == [] && Shaped(maze, blocks)
        invariant forall q :: InLattice(maze, q) && Done(q, y, 0) ==> At(blocks, q) == WALL
      {
        for x := 0 to Width(maze)
          invariant blockPath == [] && Shaped(maze, blocks)
          invariant forall q :: InLattice(maze, q) && Done(q, y, x) ==> At(blocks, q) == WALL
        {
          blocks := Set(blocks, Pos(x, y), WALL);
        }
      }
      assert AllWall(blocks) by {
        forall r, c | 0 <= r < |blocks| && 0 <= c < |blocks[r]|
          ensures blocks[r][c] == WALL
        {
          assert At(blocks, Pos(c, r)) == WALL;
        }
      }
      Classify();
      PlaceEnds();
    }
  
    /** What a handler reports, given whether the canvas exists, the block
        under the pointer and whether the move is allowed there. */
    static function Outcome(canvas: bool, m: Maze, p: Pos, accepted: bool): (r: Click)
      ensures r == NoCanvas <==> !canvas
      ensures r == OutOfBounds <==> canvas && !InLattice(m, p)
      ensures r == Applied <==> canvas && InLattice(m, p) && accepted
    {
      if !canvas then NoCanvas
      else if !InLattice(m, p) then OutOfBounds
      else if accepted then Applied
      else Ignored
    }

    /** One claimed block: appended to block_path and painted PATH. */
    method Claim(q: Pos)
      modifies this`blocks, this`blockPath
      requires Shaped(maze, blocks) && InLattice(maze, q)
      ensures blockPath == old(blockPath) + [q] && Shaped(maze, blocks)
      ensures forall q' :: InLattice(maze, q') ==> At(blocks, q') == if q' == q then PATH else old(At(blocks, q'))
    {
      blockPath := blockPath + [q];
      blocks := Set(blocks, q, PATH);
    }

    /** The column half of the claiming loops of left_click_event
        (main.py:273-289): walk from `last` to `p` along their column. */
    method ClaimColumn(last: Pos, p: Pos)
      modifies this`blocks, this`blockPath
      requires last.x == p.x && last != p && Shaped(maze, blocks)
      requires forall q :: q in Segment(last, p) ==> InLattice(maze, q)
      ensures blockPath == old(blockPath) + Segment(last, p) && Shaped(maze, blocks)
      ensures forall q :: InLattice(maze, q) ==>
        At(blocks, q) == if q in Segment(last, p) then PATH else old(At(blocks, q))
    {
      ghost var seg := Segment(last, p);
      ghost var k := 0;
      assert seg[..0] == [];
      var x := last.x;
      var diff := 1;
      var y := last.y + 1;
      if last.y > p.y {
        diff := -1;
        y := last.y - 1;
      }
      while y != p.y
        invariant 0 <= k < |seg| && seg[k] == Pos(x, y) && diff == (if last.y < p.y then 1 else -1)
        invariant blockPath == old(blockPath) + seg[..k] && Shaped(maze, blocks)
        invariant forall q :: InLattice(maze, q) ==>
          At(blocks, q) == if q in seg[..k] then PATH else old(At(blocks, q))
        decreases |seg| - k
      {
        assert seg[k] in seg && k < |seg| - 1;
        Claim(Pos(x, y));
        PrefixStep(seg, k);
        y := y + diff;
        k := k + 1;
      }
      assert k == |seg| - 1;
      assert p in seg;
      Claim(p);
      assert seg[..k + 1] == seg;
    }

    /** The row half of the claiming loops of left_click_event
        (main.py:290-306): walk from `last` to `p` along their row. */
    method ClaimRow(last: Pos, p: Pos)
      modifies this`blocks, this`blockPath
      requires last.y == p.y && last != p && Shaped(maze, blocks)
      requires forall q :: q in Segment(last, p) ==> InLattice(maze, q)
      ensures blockPath == old(blockPath) + Segment(last, p) && Shaped(maze, blocks)
      ensures forall q :: InLattice(maze, q) ==>
        At(blocks, q) == if q in Segment(last, p) then PATH else old(At(blocks, q))
    {
      ghost var seg := Segment(last, p);
      ghost var k := 0;
      assert seg[..0] == [];
      var y := last.y;
      var diff := 1;
      var x := last.x + 1;
      if last.x > p.x {
        diff := -1;
        x := last.x - 1;
      }
      while x != p.x
        invariant 0 <= k < |seg| && seg[k] == Pos(x, y) && diff == (if last.x < p.x then 1 else -1)
        invariant blockPath == old(blockPath) + seg[..k] && Shaped(maze, blocks)
        invariant forall q :: InLattice(maze, q) ==>
          At(blocks, q) == if q in seg[..k] then PATH else old(At(blocks, q))
        decreases |seg| - k
      {
        assert seg[k] in seg && k < |seg| - 1;
        Claim(Pos(x, y));
        PrefixStep(seg, k);
        x := x + diff;
        k := k + 1;
      }
      assert k == |seg| - 1;
      assert p in seg;
      Claim(p);
      assert seg[..k + 1] == seg;
    }

    /** The accepted branch of left_click_event: claim the drag from the
        trace's last block `last` to `p`, along their column or their row. */
    method Append(last: Pos, p: Pos, ghost t: Trace)
      modifies this`blocks, this`blockPath
      requires Valid() && hasCanvas && t == State()
      requires ExtendAccepts(maze, t, p) && last == Tail(maze, t.path)
      ensures Valid() && State() == Extend(maze, t, p)
    {
      SegmentClaimable(maze, t, p);
      if last.x == p.x {
        ClaimColumn(last, p);
      } else {
        ClaimRow(last, p);
      }
      ExtendByRun(maze, t, p, blocks);
    }

    /** left_click_event on block `p` (a click or a drag with the left
        button): when `p` is EMPTY and straight from the trace's last block,
        claim every block from there to `p`; `atExit` reports that `p` is
        next to the exit block. */
    method LeftClick(p: Pos) returns (r: Click, atExit: bool)
      modifies this`blocks, this`blockPath
      requires Valid()
      ensures Valid()
      ensures old(hasCanvas) && InLattice(maze, p) ==> State() == Extend(maze, old(State()), p)
      ensures !old(hasCanvas) || !InLattice(maze, p) ==> State() == old(State())
      ensures r == Outcome(hasCanvas, maze, p, hasCanvas && InLattice(maze, p) && ExtendAccepts(maze, old(State()), p))
      ensures atExit <==> r == Applied && Adjacent(p, ExitNode(maze))
    {
      if !hasCanvas {
        return NoCanvas, false;
      }
      if !(0 <= p.y < |blocks| && 0 <= p.x < |blocks[p.y]|) {
        return OutOfBounds, false;
      }
      ghost var t := State();
      if blocks[p.y][p.x] != EMPTY {
        return Ignored, false;
      }
      var last := if |blockPath| == 0 then StartNode(maze) else blockPath[|blockPath| - 1];
      TailOccupied(maze, t);
      var straight := IsStraightTo(blocks, last, p);
      if !straight {
        return Ignored, false;
      }
      assert ExtendAccepts(maze, t, p);
      Append(last, p, t);
      atExit := CellNextTo(p.x, p.y, ExitNode(maze).x, ExitNode(maze).y);
      r := Applied;
    }
  
    /** right_click_motion_event on block `p`: when `p` is PATH and the
        trace's last block, pop it and clear it. */
    method RightClickMotion(p: Pos) returns (r: Click)
      modifies this`blocks, this`blockPath
      requires Valid()
      ensures Valid()
      ensures old(hasCanvas) && InLattice(maze, p) ==> State() == Retract(maze, old(State()), p)
      ensures !old(hasCanvas) || !InLattice(maze, p) ==> State() == old(State())
      ensures r == Outcome(hasCanvas, maze, p, hasCanvas && InLattice(maze, p) && RetractAccepts(maze, old(State()), p))
    {
      if !hasCanvas {
        return NoCanvas;
      }
      if !(0 <= p.y < |blocks| && 0 <= p.x < |blocks[p.y]|) {
        return OutOfBounds;
      }
      ghost var t := State();
      // a PATH block under the pointer that is not the trace's last is left alone
      if blocks[p.y][p.x] == PATH && |blockPath| > 0 && blockPath[|blockPath| - 1] == p {
        blockPath := blockPath[..|blockPath| - 1];
        blocks := Set(blocks, p, EMPTY);
        r := Applied;
      } else {
        r := Ignored;
      }
      RetractKeepsTraced(maze, t, p);
    }

    /** The clearing loop of right_click_event: every listed block back to
        EMPTY. */
    method ClearAll(rest: seq<Pos>)
      modifies this`blocks
      requires Shaped(maze, blocks) && forall q :: q in rest ==> InLattice(maze, q)
      ensures Shaped(maze, blocks)
      ensures forall q :: InLattice(maze, q) ==> At(blocks, q) == if q in rest then EMPTY else old(At(blocks, q))
    {
      for i := 0 to |rest|
        invariant Shaped(maze, blocks)
        invariant forall q :: InLattice(maze, q) ==>
          At(blocks, q) == if q in rest[..i] then EMPTY else old(At(blocks, q))
      {
        assert rest[i] in rest;
        blocks := Set(blocks, rest[i], EMPTY);
        assert rest[..i + 1] == rest[..i] + [rest[i]];
      }
      assert rest[..|rest|] == rest;
    }

    /** right_click_event on block `p`: when `p` is PATH, keep the trace up to
        and including `p` and clear every block after it. */
    method RightClick(p: Pos) returns (r: Click)
      modifies this`blocks, this`blockPath
      requires Valid()
      ensures Valid()
      ensures old(hasCanvas) && InLattice(maze, p) ==> State() == Truncate(maze, old(State()), p)
      ensures !old(hasCanvas) || !InLattice(maze, p) ==> State() == old(State())
      ensures r == Outcome(hasCanvas, maze, p, hasCanvas && InLattice(maze, p) && TruncateAccepts(maze, old(State()), p))
    {
      if !hasCanvas {
        return NoCanvas;
      }
      if !(0 <= p.y < |blocks| && 0 <= p.x < |blocks[p.y]|) {
        return OutOfBounds;
      }
      ghost var t := State();
      if blocks[p.y][p.x] == PATH && |blockPath| > 0 {
        TruncateTargets(maze, t, p);
        var index := IndexOf(blockPath, p);
        var rest := blockPath[index + 1..];
        blockPath := blockPath[..index + 1];
        ClearAll(rest);
        TruncateByClear(maze, t, p, blocks);
        r := Applied;
      } else {
        r := Ignored;
      }
    }

    /** The loop of draw_path over the cell blocks `ns` (start block first,
        exit block last): the connector into each next block and that block
        are painted PATH and appended, and finally the connector into the
        exit block. */
    method DrawRoute(ns: seq<Pos>)
      modifies this`blocks, this`blockPath
      requires |ns| >= 2 && Shaped(maze, blocks)
      requires forall q :: q in DrawFrom(ns) ==> InLattice(maze, q)
      ensures blockPath == old(blockPath) + DrawFrom(ns) && Shaped(maze, blocks)
      ensures forall q :: InLattice(maze, q) ==>
        At(blocks, q) == if q in DrawFrom(ns) then PATH else old(At(blocks, q))
    {
      ghost var done: seq<Pos> := [];
      var prevBlock := ns[0];
      for i := 0 to |ns| - 2
        invariant Shaped(maze, blocks) && prevBlock == ns[i]
        invariant done + DrawFrom(ns[i..]) == DrawFrom(ns) && blockPath == old(blockPath) + done
        invariant forall q :: InLattice(maze, q) ==>
          At(blocks, q) == if q in done then PATH else old(At(blocks, q))
      {
        DrawnSoFar(ns, i, done);
        var block := ns[i + 1];
        var block2 := Joint(prevBlock, block);
        Claim(block2);
        Claim(block);
        done := done + [block2, block];
        prevBlock := block;
      }
      var block2 := Joint(prevBlock, ns[|ns| - 1]);
      assert ns[|ns| - 2..] == [ns[|ns| - 2], ns[|ns| - 1]];
      assert block2 in DrawFrom(ns);
      Claim(block2);
      done := done + [block2];
    }

    /** draw_path: reset the lattice, then claim the solver's route from the
        start block to the exit block, cell block and connector alike. */
    method DrawPath()
      modifies this`blocks, this`blockPath
      requires WellFormed(maze) && hasCanvas && Shaped(maze, blocks) && OnGrid(maze, maze.path)
      ensures hasCanvas && State() == DrawnTrace(maze, maze.path)
      ensures ValidRoute(maze, maze.path) ==> Valid()
    {
      blockPath := [];
      ResetCanvasBlocks();
      DrawnOnLattice(maze, maze.path);
      DrawRoute(Nodes(Route(maze, maze.path)));
      DrawnByRoute(maze, maze.path, blocks);
    }
  }
}
