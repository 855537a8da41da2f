/** The path tracer as a state machine over values.

    The tracer owns the lattice classification and the player's trace (the
    ordered list of lattice blocks claimed so far, the start block being its
    implicit origin).  Each mouse action of the game is a function from one
    `Trace` to the next; the `MazeFrame` class in module Frame performs the
    same steps in place and is proved to agree with these functions. */
module Tracer {
  import opened Lattice

  datatype Trace = Trace(blocks: Grid, path: seq<Pos>)

  /** One block's state overwritten (block.state = s). */
  function Set(g: Grid, p: Pos, s: BlockState): (r: Grid)
    requires InGrid(g, p)
    ensures |r| == |g| && forall y :: 0 <= y < |g| ==> |r[y]| == |g[y]|
    ensures forall q :: InGrid(g, q) ==> At(r, q) == if q == p then s else At(g, q)
  {
    g[p.y := g[p.y][p.x := s]]
  }

  /** Every block listed in `ps` overwritten with `s`. */
  function Marked(g: Grid, ps: seq<Pos>, s: BlockState): (r: Grid)
    ensures |r| == |g| && forall y :: 0 <= y < |g| ==> |r[y]| == |g[y]|
    ensures forall q :: InGrid(g, q) ==> At(r, q) == if q in ps then s else At(g, q)
  {
    seq(|g|, y requires 0 <= y < |g| =>
      seq(|g[y]|, x requires 0 <= x < |g[y]| => if Pos(x, y) in ps then s else g[y][x]))
  }

  /** Two grids of the same shape that agree on every block are equal. */
  lemma GridsEqual(g: Grid, h: Grid)
    requires |g| == |h| && forall y :: 0 <= y < |g| ==> |g[y]| == |h[y]|
    requires forall q :: InGrid(g, q) ==> At(g, q) == At(h, q)
    ensures g == h
  {
    forall y | 0 <= y < |g|
      ensures g[y] == h[y]
    {
      forall x | 0 <= x < |g[y]|
        ensures g[y][x] == h[y][x]
      {
        assert At(g, Pos(x, y)) == At(h, Pos(x, y));
      }
    }
  }

  predicate Rectangular(g: Grid) {
    forall y :: 0 <= y < |g| ==> |g[y]| == |g[0]|
  }

  predicate Distinct(s: seq<Pos>) {
    forall i, j :: 0 <= i < j < |s| ==> s[i] != s[j]
  }

  /** `s` is a walk of unit steps that starts next to `from`. */
  predicate IsWalk(from: Pos, s: seq<Pos>) {
    (|s| > 0 ==> Adjacent(from, s[0])) &&
    forall i :: 0 < i < |s| ==> Adjacent(s[i - 1], s[i])
  }

  /** The grid is the base classification with exactly the trace's blocks
      painted PATH. */
  ghost predicate Painted(m: Maze, t: Trace)
    requires WellFormed(m) && Shaped(m, t.blocks)
  {
    forall q :: InLattice(m, q) ==> At(t.blocks, q) == if q in t.path then PATH else BaseState(m, q)
  }

  /** Every block of the trace is a lattice block that is EMPTY in the base. */
  ghost predicate ClaimsEmpty(m: Maze, path: seq<Pos>)
    requires WellFormed(m)
  {
    forall i :: 0 <= i < |path| ==> InLattice(m, path[i]) && BaseState(m, path[i]) == EMPTY
  }

  /** The tracer's invariant: the grid is the base classification with the
      trace painted on it; the trace claims only blocks that are EMPTY in the
      base, never claims one twice, and is a walk of unit steps out of the
      start block. */
  ghost predicate Traced(m: Maze, t: Trace)
    requires WellFormed(m)
  {
    Shaped(m, t.blocks) && Painted(m, t) && ClaimsEmpty(m, t.path) &&
    Distinct(t.path) && IsWalk(StartNode(m), t.path)
  }

  /** Under the invariant, the blocks in state PATH are exactly the blocks of
      the trace, so looking up a PATH block in the trace never fails. */
  lemma PathIsPainted(m: Maze, t: Trace, q: Pos)
    requires WellFormed(m) && Traced(m, t) && InLattice(m, q)
    ensures At(t.blocks, q) == PATH <==> q in t.path
  {
    EndsPlaced(m, q);
  }

  /** The block a drag continues from: the start block, or the trace's last. */
  function Tail(m: Maze, path: seq<Pos>): Pos {
    if path == [] then StartNode(m) else path[|path| - 1]
  }

  lemma TailOccupied(m: Maze, t: Trace)
    requires WellFormed(m) && Traced(m, t)
    ensures InLattice(m, Tail(m, t.path))
    ensures At(t.blocks, Tail(m, t.path)) == (if t.path == [] then START else PATH)
  {
    EndsPlaced(m, StartNode(m));
  }

  /** `q` lies strictly inside the axis-aligned run from `a` to `b`. */
  predicate StrictlyBetween(a: Pos, q: Pos, b: Pos) {
    (q.x == a.x == b.x && (a.y < q.y < b.y || b.y < q.y < a.y)) ||
    (q.y == a.y == b.y && (a.x < q.x < b.x || b.x < q.x < a.x))
  }

  /** is_straight_to: `a` and `b` share a column or a row and every block
      strictly between them is EMPTY. */
  ghost predicate StraightRun(g: Grid, a: Pos, b: Pos) {
    (a.x == b.x || a.y == b.y) &&
    forall q :: StrictlyBetween(a, q, b) ==> InGrid(g, q) && At(g, q) == EMPTY
  }

  /** is_straight_to, with its two scanning loops (one per axis). */
  method IsStraightTo(g: Grid, a: Pos, b: Pos) returns (r: bool)
    requires Rectangular(g) && InGrid(g, a) && InGrid(g, b) && a != b
    ensures r == StraightRun(g, a, b)
  {
    if a.x == b.x {
      var x := a.x;
      var diff := 1;
      var y := a.y + 1;
      if a.y > b.y {
        diff := -1;
        y := a.y - 1;
      }
      while y != b.y
        invariant diff == (if a.y < b.y then 1 else -1)
        invariant if a.y < b.y then a.y < y <= b.y else b.y <= y < a.y
        invariant forall q :: StrictlyBetween(a, q, b) && (if a.y < b.y then q.y < y else q.y > y) ==>
                    InGrid(g, q) && At(g, q) == EMPTY
        decreases Abs(b.y - y)
      {
        if g[y][x] != EMPTY {
          assert StrictlyBetween(a, Pos(x, y), b) && At(g, Pos(x, y)) != EMPTY;
          return false;
        }
        y := y + diff;
      }
    } else if a.y == b.y {
      var y := a.y;
      var diff := 1;
      var x := a.x + 1;
      if a.x > b.x {
        diff := -1;
        x := a.x - 1;
      }
      while x != b.x
        invariant diff == (if a.x < b.x then 1 else -1)
        invariant if a.x < b.x then a.x < x <= b.x else b.x <= x < a.x
        invariant forall q :: StrictlyBetween(a, q, b) && (if a.x < b.x then q.x < x else q.x > x) ==>
                    InGrid(g, q) && At(g, q) == EMPTY
        decreases Abs(b.x - x)
      {
        if g[y][x] != EMPTY {
          assert StrictlyBetween(a, Pos(x, y), b) && At(g, Pos(x, y)) != EMPTY;
          return false;
        }
        x := x + diff;
      }
    } else {
      return false;
    }
    return true;
  }

  /** Neighbouring blocks are always straight to each other: nothing lies
      between them.  Blocks in neither a common row nor a common column never
      are. */
  lemma StraightRunBasics(g: Grid, a: Pos, b: Pos)
    ensures Adjacent(a, b) ==> StraightRun(g, a, b)
    ensures a.x != b.x && a.y != b.y ==> !StraightRun(g, a, b)
  {
  }

  /** The blocks a straight drag from `a` to `b` claims, in traversal order:
      every block after `a`, up to and including `b`. */
  function Segment(a: Pos, b: Pos): (s: seq<Pos>)
    requires (a.x == b.x || a.y == b.y) && a != b
    ensures |s| == Abs(a.x - b.x) + Abs(a.y - b.y) && s[|s| - 1] == b
    ensures forall i :: 0 <= i < |s| - 1 ==> StrictlyBetween(a, s[i], b)
    ensures IsWalk(a, s) && Distinct(s)
  {
    if a.x == b.x then
      seq(Abs(a.y - b.y), i => Pos(a.x, if a.y < b.y then a.y + i + 1 else a.y - i - 1))
    else
      seq(Abs(a.x - b.x), i => Pos(if a.x < b.x then a.x + i + 1 else a.x - i - 1, a.y))
  }

  /** When a left click extends the trace (main.py:263-269): the target is an
      EMPTY block in the lattice and straight from the tail. */
  ghost predicate ExtendAccepts(m: Maze, t: Trace, p: Pos)
    requires Shaped(m, t.blocks)
  {
    InLattice(m, p) && At(t.blocks, p) == EMPTY && StraightRun(t.blocks, Tail(m, t.path), p)
  }

  /** left_click_event: claim every block of the straight drag from the tail to
      `p`, or change nothing. */
  ghost function Extend(m: Maze, t: Trace, p: Pos): (r: Trace)
    requires WellFormed(m) && Traced(m, t)
    ensures Shaped(m, r.blocks)
    ensures !ExtendAccepts(m, t, p) ==> r == t
    ensures ExtendAccepts(m, t, p) ==>
      var n := |t.path|;
      var a := Tail(m, t.path);
      |r.path| == n + Abs(a.x - p.x) + Abs(a.y - p.y) &&
      r.path[..n] == t.path && r.path[|r.path| - 1] == p &&
      IsWalk(a, r.path[n..]) &&
      forall q :: InLattice(m, q) ==> At(r.blocks, q) == if q in r.path[n..] then PATH else At(t.blocks, q)
  {
    if ExtendAccepts(m, t, p) then
      TailOccupied(m, t);
      var seg := Segment(Tail(m, t.path), p);
      AppendClaimed(m, t, seg);
      Trace(Marked(t.blocks, seg, PATH), t.path + seg)
    else
      t
  }

  /** Appending blocks to the trace and painting them PATH keeps the earlier
      trace as a prefix and changes no other block. */
  lemma AppendClaimed(m: Maze, t: Trace, seg: seq<Pos>)
    requires Shaped(m, t.blocks)
    ensures var r := Trace(Marked(t.blocks, seg, PATH), t.path + seg);
      Shaped(m, r.blocks) && r.path[..|t.path|] == t.path && r.path[|t.path|..] == seg &&
      forall q :: InLattice(m, q) ==> At(r.blocks, q) == if q in seg then PATH else At(t.blocks, q)
  {
    var r := Trace(Marked(t.blocks, seg, PATH), t.path + seg);
    assert r.path[..|t.path|] == t.path && r.path[|t.path|..] == seg;
  }

  lemma DistinctAppend(s1: seq<Pos>, s2: seq<Pos>)
    requires Distinct(s1) && Distinct(s2)
    requires forall i :: 0 <= i < |s2| ==> s2[i] !in s1
    ensures Distinct(s1 + s2)
  {
    var s := s1 + s2;
    forall i, j | 0 <= i < j < |s|
      ensures s[i] != s[j]
    {
      if j >= |s1| && i < |s1| {
        assert s[j] == s2[j - |s1|];
      }
    }
  }

  lemma WalkAppend(from: Pos, s1: seq<Pos>, s2: seq<Pos>)
    requires IsWalk(from, s1)
    requires IsWalk(if s1 == [] then from else s1[|s1| - 1], s2)
    ensures IsWalk(from, s1 + s2)
  {
    var s := s1 + s2;
    forall i | 0 < i < |s|
      ensures Adjacent(s[i - 1], s[i])
    {
      if i > |s1| {
        assert s[i - 1] == s2[i - 1 - |s1|] && s[i] == s2[i - |s1|];
      } else if i == |s1| {
        assert s[i - 1] == s1[|s1| - 1] && s[i] == s2[0];
      }
    }
  }

  /** The blocks of an accepted drag are EMPTY before it, hence unclaimed and
      EMPTY in the base. */
  lemma SegmentClaimable(m: Maze, t: Trace, p: Pos)
    requires WellFormed(m) && Traced(m, t) && ExtendAccepts(m, t, p)
    ensures Tail(m, t.path) != p
    ensures forall q :: q in Segment(Tail(m, t.path), p) ==>
      InLattice(m, q) && At(t.blocks, q) == EMPTY && q !in t.path && BaseState(m, q) == EMPTY
  {
    TailOccupied(m, t);
    var a := Tail(m, t.path);
    var seg := Segment(a, p);
    forall q | q in seg
      ensures InLattice(m, q) && At(t.blocks, q) == EMPTY
    {
      var i :| 0 <= i < |seg| && seg[i] == q;
      if i < |seg| - 1 {
        assert StrictlyBetween(a, seg[i], p);
      }
    }
  }

  /** After an accepted drag the grid is still the base classification with
      exactly the trace painted. */
  lemma ExtendPainted(m: Maze, t: Trace, p: Pos)
    requires WellFormed(m) && Traced(m, t) && ExtendAccepts(m, t, p)
    ensures Painted(m, Extend(m, t, p))
  {
    var r := Extend(m, t, p);
    var n := |t.path|;
    assert r.path == r.path[..n] + r.path[n..];
    forall q | InLattice(m, q)
      ensures At(r.blocks, q) == if q in r.path then PATH else BaseState(m, q)
    {
      assert q in r.path <==> q in t.path || q in r.path[n..];
    }
  }

  /** After an accepted drag the trace still claims only base-EMPTY blocks,
      each once. */
  lemma ExtendClaims(m: Maze, t: Trace, p: Pos)
    requires WellFormed(m) && Traced(m, t) && ExtendAccepts(m, t, p)
    ensures ClaimsEmpty(m, Extend(m, t, p).path) && Distinct(Extend(m, t, p).path)
  {
    SegmentClaimable(m, t, p);
    var seg := Segment(Tail(m, t.path), p);
    var r := Extend(m, t, p);
    assert r.path == t.path + seg;
    forall i | 0 <= i < |r.path|
      ensures InLattice(m, r.path[i]) && BaseState(m, r.path[i]) == EMPTY
    {
      if i >= |t.path| {
        assert r.path[i] == seg[i - |t.path|];
      }
    }
    forall i | 0 <= i < |seg|
      ensures seg[i] !in t.path
    {
      assert seg[i] in seg;
    }
    DistinctAppend(t.path, seg);
  }

  /** Extending keeps the invariant. */
  lemma ExtendKeepsTraced(m: Maze, t: Trace, p: Pos)
    requires WellFormed(m) && Traced(m, t)
    ensures Traced(m, Extend(m, t, p))
  {
    if ExtendAccepts(m, t, p) {
      var r := Extend(m, t, p);
      var n := |t.path|;
      ExtendPainted(m, t, p);
      ExtendClaims(m, t, p);
      assert r.path == t.path + r.path[n..];
      WalkAppend(StartNode(m), t.path, r.path[n..]);
    }
  }

  /** When dragging with the right button retracts (main.py:331-339): the
      block under the pointer is PATH and is the trace's last block. */
  predicate RetractAccepts(m: Maze, t: Trace, p: Pos)
    requires Shaped(m, t.blocks)
  {
    InLattice(m, p) && At(t.blocks, p) == PATH && |t.path| > 0 && t.path[|t.path| - 1] == p
  }

  /** right_click_motion_event: pop the last block of the trace and clear it. */
  function Retract(m: Maze, t: Trace, p: Pos): (r: Trace)
    requires Shaped(m, t.blocks)
    ensures Shaped(m, r.blocks)
    ensures !RetractAccepts(m, t, p) ==> r == t
    ensures RetractAccepts(m, t, p) ==>
      |r.path| == |t.path| - 1 && t.path == r.path + [p] &&
      forall q :: InLattice(m, q) ==> At(r.blocks, q) == if q == p then EMPTY else At(t.blocks, q)
  {
    if RetractAccepts(m, t, p) then
      Trace(Set(t.blocks, p, EMPTY), t.path[..|t.path| - 1])
    else
      t
  }

  /** Retracting keeps the invariant. */
  lemma RetractKeepsTraced(m: Maze, t: Trace, p: Pos)
    requires WellFormed(m) && Traced(m, t)
    ensures Traced(m, Retract(m, t, p))
  {
    if RetractAccepts(m, t, p) {
      var r := Retract(m, t, p);
      var n := |t.path|;
      assert t.path == r.path + [p];
      forall i | 0 <= i < |r.path|
        ensures r.path[i] != p
      {
        assert r.path[i] == t.path[i] && p == t.path[n - 1];
      }
      forall q | InLattice(m, q)
        ensures At(r.blocks, q) == if q in r.path then PATH else BaseState(m, q)
      {
        if q != p {
          assert q in t.path <==> q in r.path;
        } else {
          assert BaseState(m, t.path[n - 1]) == EMPTY;
        }
      }
      assert IsWalk(StartNode(m), r.path) by {
        forall i | 0 < i < |r.path|
          ensures Adjacent(r.path[i - 1], r.path[i])
        {
          assert r.path[i - 1] == t.path[i - 1] && r.path[i] == t.path[i];
        }
      }
    }
  }

  /** list.index: the position of the first occurrence of `x` in `s`. */
  function IndexOf(s: seq<Pos>, x: Pos): (i: nat)
    requires x in s
    ensures i < |s| && s[i] == x && x !in s[..i]
  {
    if s[0] == x then 0 else 1 + IndexOf(s[1..], x)
  }

  /** When a right click truncates (main.py:351-353): the clicked block is PATH. */
  predicate TruncateAccepts(m: Maze, t: Trace, p: Pos)
    requires Shaped(m, t.blocks)
  {
    InLattice(m, p) && At(t.blocks, p) == PATH && |t.path| > 0
  }

  /** right_click_event: keep the trace up to and including the clicked block
      and clear every block after it. */
  function Truncate(m: Maze, t: Trace, p: Pos): (r: Trace)
    requires WellFormed(m) && Traced(m, t)
    ensures Shaped(m, r.blocks)
    ensures !TruncateAccepts(m, t, p) ==> r == t
    ensures TruncateAccepts(m, t, p) ==>
      var k := |r.path|;
      0 < k <= |t.path| && r.path == t.path[..k] && r.path[k - 1] == p &&
      forall q :: InLattice(m, q) ==> At(r.blocks, q) == if q in t.path[k..] then EMPTY else At(t.blocks, q)
  {
    if TruncateAccepts(m, t, p) then
      PathIsPainted(m, t, p);
      var i := IndexOf(t.path, p);
      Trace(Marked(t.blocks, t.path[i + 1..], EMPTY), t.path[..i + 1])
    else
      t
  }

  /** The suffix of a duplicate-free sequence is duplicate-free and shares no
      element with the prefix. */
  lemma DistinctParts(s: seq<Pos>, k: nat)
    requires Distinct(s) && k <= |s|
    ensures Distinct(s[k..])
    ensures forall q :: q in s[k..] ==> q !in s[..k]
  {
    var rest := s[k..];
    forall i, j | 0 <= i < j < |rest|
      ensures rest[i] != rest[j]
    {
      assert rest[i] == s[k + i] && rest[j] == s[k + j];
    }
    forall q | q in rest
      ensures q !in s[..k]
    {
      var j :| 0 <= j < |rest| && rest[j] == q;
      forall i | 0 <= i < k
        ensures s[..k][i] != q
      {
        assert s[k + j] == q;
      }
    }
  }

  /** A block in the suffix of a trace is base-EMPTY and not in the prefix. */
  lemma ClaimedSuffix(m: Maze, s: seq<Pos>, k: nat, q: Pos)
    requires WellFormed(m) && ClaimsEmpty(m, s) && Distinct(s) && k <= |s| && q in s[k..]
    ensures q !in s[..k] && BaseState(m, q) == EMPTY
  {
    DistinctParts(s, k);
    var j :| 0 <= j < |s| - k && s[k..][j] == q;
    assert s[k + j] == q;
  }

  /** One block after a truncation: PATH exactly when it stays on the trace,
      its base state otherwise. */
  lemma TruncatePaintedAt(m: Maze, t: Trace, p: Pos, q: Pos)
    requires WellFormed(m) && Traced(m, t) && TruncateAccepts(m, t, p) && InLattice(m, q)
    ensures At(Truncate(m, t, p).blocks, q) == if q in Truncate(m, t, p).path then PATH else BaseState(m, q)
  {
    var r := Truncate(m, t, p);
    var k := |r.path|;
    var rest := t.path[k..];
    if q in rest {
      ClaimedSuffix(m, t.path, k, q);
      assert q !in r.path;
    } else {
      assert t.path == r.path + rest;
      assert q in t.path <==> q in r.path;
    }
  }

  /** After a truncation the grid is still the base classification with
      exactly the trace painted. */
  lemma TruncatePainted(m: Maze, t: Trace, p: Pos)
    requires WellFormed(m) && Traced(m, t) && TruncateAccepts(m, t, p)
    ensures Painted(m, Truncate(m, t, p))
  {
    var r := Truncate(m, t, p);
    forall q | InLattice(m, q)
      ensures At(r.blocks, q) == if q in r.path then PATH else BaseState(m, q)
    {
      TruncatePaintedAt(m, t, p, q);
    }
  }

  /** Truncating keeps the invariant. */
  lemma TruncateKeepsTraced(m: Maze, t: Trace, p: Pos)
    requires WellFormed(m) && Traced(m, t)
    ensures Traced(m, Truncate(m, t, p))
  {
    if TruncateAccepts(m, t, p) {
      var r := Truncate(m, t, p);
      TruncatePainted(m, t, p);
      assert ClaimsEmpty(m, r.path) && Distinct(r.path) by {
        forall i | 0 <= i < |r.path|
          ensures r.path[i] == t.path[i]
        {
        }
      }
      assert IsWalk(StartNode(m), r.path) by {
        forall i | 0 < i < |r.path|
          ensures Adjacent(r.path[i - 1], r.path[i])
        {
          assert r.path[i - 1] == t.path[i - 1] && r.path[i] == t.path[i];
        }
      }
    }
  }

  /** The state reset_canvas_blocks leaves: the base classification and an
      empty trace. */
  function Fresh(m: Maze): (t: Trace)
    requires WellFormed(m)
    ensures Traced(m, t) && t.path == []
  {
    Trace(BaseGrid(m), [])
  }

  /** Retracting the last block `k` times (right-button drag back along the
      trace). */
  function Unwind(m: Maze, t: Trace, k: nat): (r: Trace)
    requires Shaped(m, t.blocks)
    ensures Shaped(m, r.blocks)
    decreases k
  {
    if k == 0 || t.path == [] then t
    else Unwind(m, Retract(m, t, t.path[|t.path| - 1]), k - 1)
  }

  /** Retracting as many times as blocks were claimed on top of `t` gives `t`
      back, provided those blocks were EMPTY in `t`. */
  lemma {:induction false} UnwindClaimed(m: Maze, t: Trace, s: seq<Pos>)
    requires Shaped(m, t.blocks) && Distinct(s)
    requires forall i :: 0 <= i < |s| ==> InLattice(m, s[i]) && At(t.blocks, s[i]) == EMPTY
    ensures Unwind(m, Trace(Marked(t.blocks, s, PATH), t.path + s), |s|) == t
    decreases |s|
  {
    var g := t.blocks;
    if s == [] {
      GridsEqual(Marked(g, s, PATH), g);
      assert t.path + s == t.path;
    } else {
      var s' := s[..|s| - 1];
      var x := s[|s| - 1];
      var u := Trace(Marked(g, s, PATH), t.path + s);
      assert u.path[|u.path| - 1] == x;
      assert RetractAccepts(m, u, x);
      var v := Retract(m, u, x);
      assert u.path[..|u.path| - 1] == t.path + s';
      forall q | InGrid(v.blocks, q)
        ensures At(v.blocks, q) == At(Marked(g, s', PATH), q)
      {
        if q != x {
          assert q in s <==> q in s';
        } else {
          forall i | 0 <= i < |s'|
            ensures s'[i] != x
          {
            assert s'[i] == s[i];
          }
        }
      }
      GridsEqual(v.blocks, Marked(g, s', PATH));
      assert forall i :: 0 <= i < |s'| ==> s'[i] == s[i];
      UnwindClaimed(m, t, s');
    }
  }

  /** UnwindClaimed for a trace given by its parts: `u` is `t` with the
      blocks `s` claimed on top, and `k` counts them. */
  lemma UnwindClaimedBy(m: Maze, t: Trace, s: seq<Pos>, u: Trace, k: nat)
    requires Shaped(m, t.blocks) && Distinct(s)
    requires forall i :: 0 <= i < |s| ==> InLattice(m, s[i]) && At(t.blocks, s[i]) == EMPTY
    requires u.blocks == Marked(t.blocks, s, PATH) && u.path == t.path + s && k == |s|
    ensures Unwind(m, u, k) == t
  {
    UnwindClaimed(m, t, s);
    assert u == Trace(Marked(t.blocks, s, PATH), t.path + s);
  }

  /** Append/retract inverse law: after a successful drag that claimed n
      blocks, n single-block retractions restore the grid and the trace. */
  lemma RetractUndoesExtend(m: Maze, t: Trace, p: Pos)
    requires WellFormed(m) && Traced(m, t) && ExtendAccepts(m, t, p)
    ensures Unwind(m, Extend(m, t, p), |Extend(m, t, p).path| - |t.path|) == t
  {
    SegmentClaimable(m, t, p);
    var seg := Segment(Tail(m, t.path), p);
    assert forall i :: 0 <= i < |seg| ==> seg[i] in seg;
    UnwindClaimed(m, t, seg);
    assert Extend(m, t, p) == Trace(Marked(t.blocks, seg, PATH), t.path + seg);
  }

  /** Unwinding a + b steps is unwinding a steps, then b more. */
  lemma {:induction false} UnwindAdd(m: Maze, t: Trace, a: nat, b: nat)
    requires Shaped(m, t.blocks)
    ensures Unwind(m, t, a + b) == Unwind(m, Unwind(m, t, a), b)
    decreases a
  {
    if a != 0 && t.path != [] {
      UnwindAdd(m, Retract(m, t, t.path[|t.path| - 1]), a - 1, b);
    }
  }

  /** Of two states that keep the invariant, the one whose trace extends the
      other's is the other with the extra blocks claimed on top. */
  lemma ExtensionSplit(m: Maze, t: Trace, r: Trace) returns (rest: seq<Pos>)
    requires WellFormed(m) && Traced(m, t) && Traced(m, r)
    requires |t.path| <= |r.path| && r.path[..|t.path|] == t.path
    ensures Distinct(rest) && r.path == t.path + rest
    ensures forall i :: 0 <= i < |rest| ==> InLattice(m, rest[i]) && At(t.blocks, rest[i]) == EMPTY
    ensures r.blocks == Marked(t.blocks, rest, PATH)
  {
    rest := r.path[|t.path|..];
    assert r.path == t.path + rest;
    DistinctParts(r.path, |t.path|);
    forall i | 0 <= i < |rest|
      ensures InLattice(m, rest[i]) && At(t.blocks, rest[i]) == EMPTY
    {
      assert rest[i] == r.path[|t.path| + i];
      assert rest[i] in rest;
    }
    var g := Marked(t.blocks, rest, PATH);
    forall q | InGrid(r.blocks, q)
      ensures At(r.blocks, q) == At(g, q)
    {
      assert q in r.path <==> q in t.path || q in rest;
    }
    GridsEqual(r.blocks, g);
  }

  /** Right-button drag steps undo any growth of the trace that keeps the
      invariant: as many steps as blocks were added give the earlier state. */
  lemma RetractUndoesExtension(m: Maze, t: Trace, r: Trace)
    requires WellFormed(m) && Traced(m, t) && Traced(m, r)
    requires |t.path| <= |r.path| && r.path[..|t.path|] == t.path
    ensures Unwind(m, r, |r.path| - |t.path|) == t
  {
    var rest := ExtensionSplit(m, t, r);
    UnwindClaimedBy(m, t, rest, r, |r.path| - |t.path|);
  }

  /** A series of left clicks and drags, each on the state the previous one
      left (a rejected one changes nothing): the invariant holds throughout
      and the trace only grows, so RetractUndoesExtension applies to the
      state the whole series leaves. */
  ghost function ExtendAll(m: Maze, t: Trace, ps: seq<Pos>): (r: Trace)
    requires WellFormed(m) && Traced(m, t)
    ensures Traced(m, r) && |t.path| <= |r.path| && r.path[..|t.path|] == t.path
    decreases |ps|
  {
    if ps == [] then t
    else
      ExtendKeepsTraced(m, t, ps[0]);
      ExtendAll(m, Extend(m, t, ps[0]), ps[1..])
  }

  /** Repainting the blocks a truncation cleared gives back the grid it
      started from. */
  lemma TruncateRepaint(m: Maze, t: Trace, p: Pos)
    requires WellFormed(m) && Traced(m, t) && TruncateAccepts(m, t, p)
    ensures Marked(Truncate(m, t, p).blocks, t.path[|Truncate(m, t, p).path|..], PATH) == t.blocks
  {
    var r := Truncate(m, t, p);
    var rest := t.path[|r.path|..];
    var g := Marked(r.blocks, rest, PATH);
    forall q | InGrid(t.blocks, q)
      ensures At(g, q) == At(t.blocks, q)
    {
      if q in rest {
        PathIsPainted(m, t, q);
        assert q in t.path;
      }
    }
    GridsEqual(g, t.blocks);
  }

  /** The blocks a truncation drops are lattice blocks left EMPTY. */
  lemma TruncateCleared(m: Maze, t: Trace, p: Pos)
    requires WellFormed(m) && Traced(m, t) && TruncateAccepts(m, t, p)
    ensures var rest := t.path[|Truncate(m, t, p).path|..];
      forall i :: 0 <= i < |rest| ==> InLattice(m, rest[i]) && At(Truncate(m, t, p).blocks, rest[i]) == EMPTY
  {
    var r := Truncate(m, t, p);
    var rest := t.path[|r.path|..];
    forall i | 0 <= i < |rest|
      ensures InLattice(m, rest[i]) && At(r.blocks, rest[i]) == EMPTY
    {
      assert rest[i] == t.path[|r.path| + i];
      assert rest[i] in rest;
    }
  }

  /** A truncated trace is the result with the dropped blocks claimed on top. */
  lemma TruncateSplit(m: Maze, t: Trace, p: Pos) returns (r: Trace, rest: seq<Pos>)
    requires WellFormed(m) && Traced(m, t) && TruncateAccepts(m, t, p)
    ensures r == Truncate(m, t, p) && Shaped(m, r.blocks) && Distinct(rest)
    ensures forall i :: 0 <= i < |rest| ==> InLattice(m, rest[i]) && At(r.blocks, rest[i]) == EMPTY
    ensures t.blocks == Marked(r.blocks, rest, PATH) && t.path == r.path + rest
  {
    r := Truncate(m, t, p);
    rest := t.path[|r.path|..];
    DistinctParts(t.path, |r.path|);
    TruncateCleared(m, t, p);
    TruncateRepaint(m, t, p);
    assert r.path + rest == t.path;
  }

  /** Truncating at a block is the same as retracting, one block at a time,
      everything after it. */
  lemma TruncateIsUnwind(m: Maze, t: Trace, p: Pos)
    requires WellFormed(m) && Traced(m, t) && TruncateAccepts(m, t, p)
    ensures Unwind(m, t, |t.path| - |Truncate(m, t, p).path|) == Truncate(m, t, p)
  {
    var r, rest := TruncateSplit(m, t, p);
    UnwindClaimedBy(m, r, rest, t, |t.path| - |r.path|);
  }
}
