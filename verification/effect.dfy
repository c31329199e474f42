/** The exact effect of the pass, stated against the function it starts from.

    The reference definitions below compute, from the input `f0` alone,
    where every inserted block lands: the blocks are visited in index order,
    and inside an eligible block the branching predecessors are split in
    slot order, each split appending one block. The lemmas show that the
    inner loop (`SplitPreds`), one outer iteration (`Visit`) and the whole
    scan produce exactly that layout.
 */
module CriticalEffect {
  import opened Cfg
  import opened Critical

  /** Number of slots `k` in `[i, j)` of `ps` whose block branches in `f`. */
  function CountBranching(f: Func, ps: seq<nat>, i: nat, j: nat): nat
    requires i <= j <= |ps|
    decreases j - i
  {
    if i == j then 0
    else (if Branches(f, ps[i]) then 1 else 0) + CountBranching(f, ps, i + 1, j)
  }

  /** Number of blocks the pass inserts on behalf of block `b`. */
  function Splits(f: Func, b: nat): nat
    requires b < |f.blocks|
  {
    if Eligible(f, b) then CountBranching(f, f.blocks[b].preds, 0, |f.blocks[b].preds|) else 0
  }

  /** Index of the first block inserted on behalf of block `k`: the blocks
      inserted for blocks `0 .. k-1` come first, after the original ones. */
  function Base(f: Func, k: nat): (r: nat)
    requires k <= |f.blocks|
    ensures r >= |f.blocks|
  {
    if k == 0 then |f.blocks| else Base(f, k - 1) + Splits(f, k - 1)
  }

  /** What slot `j` of `b.preds` holds after the pass: the inserted block
      when the slot carries a critical edge into an eligible block, the
      original predecessor otherwise. */
  function NewPred(f: Func, b: nat, j: nat): nat
    requires b < |f.blocks| && j < |f.blocks[b].preds|
  {
    var ps := f.blocks[b].preds;
    if Eligible(f, b) && Branches(f, ps[j]) then Base(f, b) + CountBranching(f, ps, 0, j) else ps[j]
  }

  /** The shape of every block the pass inserts: plain, no values, a single
      predecessor that branches in `f0` and a single successor that is
      eligible in `f0`, the two ends of an edge of `f0`. */
  ghost predicate Inserted(f0: Func, blk: Block)
  {
    blk.kind == Plain && blk.values == [] && |blk.preds| == 1 && |blk.succs| == 1 &&
    Branches(f0, blk.preds[0]) && blk.succs[0] < |f0.blocks| && Eligible(f0, blk.succs[0]) &&
    blk.preds[0] in f0.blocks[blk.succs[0]].preds
  }

  /** Successor slot `k` of block `x` in `f` survives in `g`, either
      unchanged or redirected to a block appended after `f`'s blocks that
      leads from `x` straight to the slot's old target, an original block
      (index below `n0`). */
  ghost predicate RoutedSlot(f: Func, g: Func, n0: nat, x: nat, k: nat)
    requires x < |f.blocks| <= |g.blocks| && k < |f.blocks[x].succs|
  {
    k < |g.blocks[x].succs| &&
    (g.blocks[x].succs[k] == f.blocks[x].succs[k] ||
     (f.blocks[x].succs[k] < n0 && |f.blocks| <= g.blocks[x].succs[k] < |g.blocks| &&
      g.blocks[g.blocks[x].succs[k]] == Block(Plain, [x], [f.blocks[x].succs[k]], [])))
  }

  /** Every successor slot of `f` survives in `g` in the sense of `RoutedSlot`. */
  ghost predicate Routed(f: Func, g: Func, n0: nat)
  {
    |f.blocks| <= |g.blocks| &&
    forall x: nat, k: nat :: x < |f.blocks| && k < |f.blocks[x].succs| ==> RoutedSlot(f, g, n0, x, k)
  }

  /** Kinds and values of the original blocks are the same in `f` and `f0`. */
  ghost predicate SameNodes(f0: Func, f: Func)
  {
    |f0.blocks| <= |f.blocks| &&
    forall x :: 0 <= x < |f0.blocks| ==>
      f.blocks[x].kind == f0.blocks[x].kind && f.blocks[x].values == f0.blocks[x].values
  }

  /** One split redirects exactly one successor slot, through the new
      block, and leaves every other slot alone. */
  lemma SplitEdgeRouted(f: Func, b: nat, i: nat, n0: nat)
    requires WellFormed(f) && b < n0 <= |f.blocks| && i < |f.blocks[b].preds|
    ensures Routed(f, SplitEdge(f, b, i), n0)
  {
    var g := SplitEdge(f, b, i);
    var c := f.blocks[b].preds[i];
    forall x: nat, k: nat | x < |f.blocks| && k < |f.blocks[x].succs|
      ensures RoutedSlot(f, g, n0, x, k)
    {
      if x == c {
        assert g.blocks[x].succs == ReplaceFirst(f.blocks[x].succs, b, |f.blocks|);
      }
    }
  }

  /** Routing composes, provided the blocks appended by the first step are
      left alone by the second. */
  lemma RoutedTrans(f: Func, g: Func, h: Func, n0: nat)
    requires n0 <= |f.blocks|
    requires Routed(f, g, n0) && Routed(g, h, n0)
    requires forall d :: |f.blocks| <= d < |g.blocks| ==> h.blocks[d] == g.blocks[d]
    ensures Routed(f, h, n0)
  {
    forall x: nat, k: nat | x < |f.blocks| && k < |f.blocks[x].succs|
      ensures RoutedSlot(f, h, n0, x, k)
    {
      assert RoutedSlot(f, g, n0, x, k);
      assert RoutedSlot(g, h, n0, x, k);
    }
  }

  /** Counting branching slots only looks at whether the blocks named in
      the range branch. */
  lemma {:induction false} CountBranchingFrame(f: Func, g: Func, ps: seq<nat>, qs: seq<nat>, i: nat, j: nat)
    requires i <= j <= |ps| && j <= |qs|
    requires forall k :: i <= k < j ==> Branches(f, ps[k]) == Branches(g, qs[k])
    ensures CountBranching(f, ps, i, j) == CountBranching(g, qs, i, j)
    decreases j - i
  {
    if i < j {
      CountBranchingFrame(f, g, ps, qs, i + 1, j);
    }
  }

  /** One split slot is enough to make the function grow. */
  lemma {:induction false} CountBranchingPositive(f: Func, ps: seq<nat>, i: nat, j: nat, m: nat)
    requires i <= m < j <= |ps| && Branches(f, ps[m])
    ensures CountBranching(f, ps, i, j) >= 1
    decreases j - i
  {
    if i < m {
      CountBranchingPositive(f, ps, i + 1, j, m);
    }
  }

  /** `Base` only grows along the scan. */
  lemma {:induction false} BaseMonotone(f: Func, k: nat, m: nat)
    requires k <= m <= |f.blocks|
    ensures Base(f, k) <= Base(f, m)
    decreases m - k
  {
    if k < m {
      BaseMonotone(f, k, m - 1);
    }
  }

  /** Counting branching slots over adjacent ranges adds up. */
  lemma {:induction false} CountBranchingSplit(f: Func, ps: seq<nat>, i: nat, m: nat, j: nat)
    requires i <= m <= j <= |ps|
    ensures CountBranching(f, ps, i, j) == CountBranching(f, ps, i, m) + CountBranching(f, ps, m, j)
    decreases m - i
  {
    if i < m {
      CountBranchingSplit(f, ps, i + 1, m, j);
    }
  }

  /** A split leaves the later slots of `b.preds` alone, and so does not
      change how many of them branch. */
  lemma SplitEdgeCount(f: Func, b: nat, i: nat, j: nat)
    requires WellFormed(f) && b < |f.blocks| && i < j <= |f.blocks[b].preds|
    ensures var g := SplitEdge(f, b, i);
      CountBranching(g, g.blocks[b].preds, i + 1, j) == CountBranching(f, f.blocks[b].preds, i + 1, j)
  {
    var ps := f.blocks[b].preds;
    var g := SplitEdge(f, b, i);
    forall k | i + 1 <= k < j
      ensures Branches(f, ps[k]) == Branches(g, g.blocks[b].preds[k])
    {
      assert ps[k] < |f.blocks|;
    }
    CountBranchingFrame(f, g, ps, g.blocks[b].preds, i + 1, j);
  }

  /** After splitting branching slot `i`, the block for a later branching
      slot `j` lands at the same index whether the count starts before or
      after the split. */
  lemma SplitEdgeRank(f: Func, b: nat, i: nat, j: nat)
    requires WellFormed(f) && b < |f.blocks| && i < j <= |f.blocks[b].preds|
    requires Branches(f, f.blocks[b].preds[i])
    ensures var g := SplitEdge(f, b, i);
      |g.blocks| + CountBranching(g, g.blocks[b].preds, i + 1, j)
        == |f.blocks| + CountBranching(f, f.blocks[b].preds, i, j)
  {
    SplitEdgeCount(f, b, i, j);
  }

  /* The inner-loop lemmas below are each proved by induction on the slot
     index `i`, with one lemma per kind of iteration: `...SkipStep` when the
     predecessor in slot `i` is plain, `...SplitStep` when its edge is
     split. */

  /** Inner loop, size: one block is appended per branching predecessor in
      the slots from `i` on. */
  lemma {:induction false} SplitPredsSize(f: Func, b: nat, i: nat)
    requires WellFormed(f) && b < |f.blocks| && i <= |f.blocks[b].preds|
    ensures var ps := f.blocks[b].preds;
      |SplitPreds(f, b, i).blocks| == |f.blocks| + CountBranching(f, ps, i, |ps|)
    decreases |f.blocks[b].preds| - i, 1
  {
    var ps := f.blocks[b].preds;
    if i < |ps| {
      assert ps[i] < |f.blocks|;
      if Branches(f, ps[i]) {
        SizeSplitStep(f, b, i);
      } else {
        SizeSkipStep(f, b, i);
      }
    }
  }

  lemma {:induction false} SizeSkipStep(f: Func, b: nat, i: nat)
    requires WellFormed(f) && b < |f.blocks| && i < |f.blocks[b].preds|
    requires !Branches(f, f.blocks[b].preds[i])
    ensures var ps := f.blocks[b].preds;
      |SplitPreds(f, b, i).blocks| == |f.blocks| + CountBranching(f, ps, i, |ps|)
    decreases |f.blocks[b].preds| - i, 0
  {
    SplitPredsSize(f, b, i + 1);
    SplitPredsSkip(f, b, i);
  }

  lemma {:induction false} SizeSplitStep(f: Func, b: nat, i: nat)
    requires WellFormed(f) && b < |f.blocks| && i < |f.blocks[b].preds|
    requires Branches(f, f.blocks[b].preds[i])
    ensures var ps := f.blocks[b].preds;
      |SplitPreds(f, b, i).blocks| == |f.blocks| + CountBranching(f, ps, i, |ps|)
    decreases |f.blocks[b].preds| - i, 0
  {
    SplitPredsSize(SplitEdge(f, b, i), b, i + 1);
    SplitPredsStep(f, b, i);
    SplitEdgeCount(f, b, i, |f.blocks[b].preds|);
  }

  /** After the inner loop from slot `i`, slot `j` of `b.preds` is kept
      when it comes before `i` or its predecessor is plain; a later slot
      holding a branching predecessor names the block appended for it,
      which comes after one block per branching slot in `[i, j)`. */
  ghost predicate SlotAfter(f: Func, b: nat, i: nat, j: nat)
    requires WellFormed(f) && b < |f.blocks| && i <= |f.blocks[b].preds| && j < |f.blocks[b].preds|
  {
    var r, ps := SplitPreds(f, b, i), f.blocks[b].preds;
    j < |r.blocks[b].preds| &&
    r.blocks[b].preds[j]
      == if j < i || !Branches(f, ps[j]) then ps[j] else |f.blocks| + CountBranching(f, ps, i, j)
  }

  /** Inner loop, one slot `j` of `b.preds`, as `SlotAfter` describes it. */
  lemma {:induction false} SplitPredsSlot(f: Func, b: nat, i: nat, j: nat)
    requires WellFormed(f) && b < |f.blocks| && i <= |f.blocks[b].preds| && j < |f.blocks[b].preds|
    ensures SlotAfter(f, b, i, j)
    decreases |f.blocks[b].preds| - i, 1
  {
    var ps := f.blocks[b].preds;
    if i < |ps| {
      assert ps[i] < |f.blocks|;
      if Branches(f, ps[i]) {
        SlotSplitStep(f, b, i, j);
      } else {
        SlotSkipStep(f, b, i, j);
      }
    }
  }

  lemma {:induction false} SlotSkipStep(f: Func, b: nat, i: nat, j: nat)
    requires WellFormed(f) && b < |f.blocks| && i < |f.blocks[b].preds| && j < |f.blocks[b].preds|
    requires !Branches(f, f.blocks[b].preds[i])
    ensures SlotAfter(f, b, i, j)
    decreases |f.blocks[b].preds| - i, 0
  {
    if i < j {
      assert CountBranching(f, f.blocks[b].preds, i, j) == CountBranching(f, f.blocks[b].preds, i + 1, j);
    }
    SplitPredsSlot(f, b, i + 1, j);
    SplitPredsSkip(f, b, i);
  }

  lemma {:induction false} SlotSplitStep(f: Func, b: nat, i: nat, j: nat)
    requires WellFormed(f) && b < |f.blocks| && i < |f.blocks[b].preds| && j < |f.blocks[b].preds|
    requires Branches(f, f.blocks[b].preds[i])
    ensures SlotAfter(f, b, i, j)
    decreases |f.blocks[b].preds| - i, 0
  {
    SplitPredsSlot(SplitEdge(f, b, i), b, i + 1, j);
    assert f.blocks[b].preds[j] < |f.blocks|;
    SplitPredsStep(f, b, i);
    if j > i {
      SplitEdgeCount(f, b, i, j);
    }
  }

  /** After the inner loop from slot `i`, the existing block `x` has the
      same kind, values and number of successors, and, unless it is `b`,
      the same predecessor list. */
  ghost predicate KeptAfter(f: Func, b: nat, i: nat, x: nat)
    requires WellFormed(f) && b < |f.blocks| && i <= |f.blocks[b].preds| && x < |f.blocks|
  {
    var r := SplitPreds(f, b, i);
    x < |r.blocks| &&
    (x != b ==> r.blocks[x].preds == f.blocks[x].preds) &&
    r.blocks[x].kind == f.blocks[x].kind && r.blocks[x].values == f.blocks[x].values &&
    |r.blocks[x].succs| == |f.blocks[x].succs|
  }

  /** Inner loop, one existing block `x`, as `KeptAfter` describes it. */
  lemma {:induction false} SplitPredsFrameAt(f: Func, b: nat, i: nat, x: nat)
    requires WellFormed(f) && b < |f.blocks| && i <= |f.blocks[b].preds| && x < |f.blocks|
    ensures KeptAfter(f, b, i, x)
    decreases |f.blocks[b].preds| - i, 1
  {
    var ps := f.blocks[b].preds;
    if i < |ps| {
      assert ps[i] < |f.blocks|;
      if Branches(f, ps[i]) {
        FrameSplitStep(f, b, i, x);
      } else {
        FrameSkipStep(f, b, i, x);
      }
    }
  }

  lemma {:induction false} FrameSkipStep(f: Func, b: nat, i: nat, x: nat)
    requires WellFormed(f) && b < |f.blocks| && i < |f.blocks[b].preds| && x < |f.blocks|
    requires !Branches(f, f.blocks[b].preds[i])
    ensures KeptAfter(f, b, i, x)
    decreases |f.blocks[b].preds| - i, 0
  {
    SplitPredsFrameAt(f, b, i + 1, x);
    SplitPredsSkip(f, b, i);
  }

  lemma {:induction false} FrameSplitStep(f: Func, b: nat, i: nat, x: nat)
    requires WellFormed(f) && b < |f.blocks| && i < |f.blocks[b].preds| && x < |f.blocks|
    requires Branches(f, f.blocks[b].preds[i])
    ensures KeptAfter(f, b, i, x)
    decreases |f.blocks[b].preds| - i, 0
  {
    SplitPredsFrameAt(SplitEdge(f, b, i), b, i + 1, x);
    SplitPredsStep(f, b, i);
  }

  /** Inner loop, the existing blocks: their predecessor lists (except
      `b`'s), kinds, value lists and successor counts are unchanged. */
  lemma SplitPredsFrame(f: Func, b: nat, i: nat)
    requires WellFormed(f) && b < |f.blocks| && i <= |f.blocks[b].preds|
    ensures var r := SplitPreds(f, b, i);
      forall x :: 0 <= x < |f.blocks| ==>
        (x != b ==> r.blocks[x].preds == f.blocks[x].preds) &&
        r.blocks[x].kind == f.blocks[x].kind && r.blocks[x].values == f.blocks[x].values &&
        |r.blocks[x].succs| == |f.blocks[x].succs|
  {
    forall x | 0 <= x < |f.blocks|
      ensures var r := SplitPreds(f, b, i);
        (x != b ==> r.blocks[x].preds == f.blocks[x].preds) &&
        r.blocks[x].kind == f.blocks[x].kind && r.blocks[x].values == f.blocks[x].values &&
        |r.blocks[x].succs| == |f.blocks[x].succs|
    {
      SplitPredsFrameAt(f, b, i, x);
    }
  }

  /** A split leaves every block other than `b` and the predecessor `c`
      as it was. */
  lemma SplitEdgeKeeps(f: Func, b: nat, i: nat, d: nat)
    requires WellFormed(f) && b < |f.blocks| && i < |f.blocks[b].preds|
    requires d < |f.blocks| && d != b && d != f.blocks[b].preds[i]
    ensures d < |SplitEdge(f, b, i).blocks| && SplitEdge(f, b, i).blocks[d] == f.blocks[d]
  {
    var g := SplitEdge(f, b, i);
    assert g.blocks[d].preds == f.blocks[d].preds && g.blocks[d].succs == f.blocks[d].succs;
  }

  /** Inner loop, one block `d` that is neither `b` nor a predecessor in
      the slots still to visit: it is untouched. */
  lemma {:induction false} SplitPredsKeeps(f: Func, b: nat, i: nat, d: nat)
    requires WellFormed(f) && b < |f.blocks| && i <= |f.blocks[b].preds| && d < |f.blocks| && d != b
    requires forall k :: i <= k < |f.blocks[b].preds| ==> f.blocks[b].preds[k] != d
    ensures var r := SplitPreds(f, b, i); d < |r.blocks| && r.blocks[d] == f.blocks[d]
    decreases |f.blocks[b].preds| - i, 1
  {
    var ps := f.blocks[b].preds;
    if i < |ps| {
      assert ps[i] < |f.blocks|;
      if Branches(f, ps[i]) {
        KeepsSplitStep(f, b, i, d);
      } else {
        KeepsSkipStep(f, b, i, d);
      }
    }
  }

  lemma {:induction false} KeepsSkipStep(f: Func, b: nat, i: nat, d: nat)
    requires WellFormed(f) && b < |f.blocks| && i < |f.blocks[b].preds| && d < |f.blocks| && d != b
    requires forall k :: i <= k < |f.blocks[b].preds| ==> f.blocks[b].preds[k] != d
    requires !Branches(f, f.blocks[b].preds[i])
    ensures var r := SplitPreds(f, b, i); d < |r.blocks| && r.blocks[d] == f.blocks[d]
    decreases |f.blocks[b].preds| - i, 0
  {
    SplitPredsKeeps(f, b, i + 1, d);
    SplitPredsSkip(f, b, i);
  }

  lemma {:induction false} KeepsSplitStep(f: Func, b: nat, i: nat, d: nat)
    requires WellFormed(f) && b < |f.blocks| && i < |f.blocks[b].preds| && d < |f.blocks| && d != b
    requires forall k :: i <= k < |f.blocks[b].preds| ==> f.blocks[b].preds[k] != d
    requires Branches(f, f.blocks[b].preds[i])
    ensures var r := SplitPreds(f, b, i); d < |r.blocks| && r.blocks[d] == f.blocks[d]
    decreases |f.blocks[b].preds| - i, 0
  {
    SplitEdgeKeeps(f, b, i, d);
    SplitPredsKeeps(SplitEdge(f, b, i), b, i + 1, d);
    SplitPredsStep(f, b, i);
  }

  /** Block `d`, appended by the inner loop from slot `i`, is plain, holds
      no values, and leads to `b` from a branching block below `m` that is
      one of `b`'s predecessors. */
  ghost predicate AppendedFor(f: Func, b: nat, i: nat, m: nat, d: nat)
    requires WellFormed(f) && b < |f.blocks| && i <= |f.blocks[b].preds|
    requires |f.blocks| <= d < |SplitPreds(f, b, i).blocks|
  {
    var blk := SplitPreds(f, b, i).blocks[d];
    blk.kind == Plain && blk.values == [] && |blk.preds| == 1 &&
    blk.preds[0] < m && Branches(f, blk.preds[0]) && blk.succs == [b] &&
    blk.preds[0] in f.blocks[b].preds
  }

  /** Inner loop, one block `d` the loop appends, when the remaining
      predecessors are all below `m`: it is as `AppendedFor` describes. */
  lemma {:induction false} SplitPredsNewShape(f: Func, b: nat, i: nat, m: nat, d: nat)
    requires WellFormed(f) && b < |f.blocks| && i <= |f.blocks[b].preds| && m <= |f.blocks|
    requires forall k :: i <= k < |f.blocks[b].preds| ==> f.blocks[b].preds[k] < m
    requires |f.blocks| <= d < |SplitPreds(f, b, i).blocks|
    ensures AppendedFor(f, b, i, m, d)
    decreases |f.blocks[b].preds| - i, 1
  {
    var ps := f.blocks[b].preds;
    if i < |ps| {
      assert ps[i] < |f.blocks|;
      if Branches(f, ps[i]) {
        ShapeSplitStep(f, b, i, m, d);
      } else {
        ShapeSkipStep(f, b, i, m, d);
      }
    }
  }

  lemma {:induction false} ShapeSkipStep(f: Func, b: nat, i: nat, m: nat, d: nat)
    requires WellFormed(f) && b < |f.blocks| && i < |f.blocks[b].preds| && m <= |f.blocks|
    requires forall k :: i <= k < |f.blocks[b].preds| ==> f.blocks[b].preds[k] < m
    requires |f.blocks| <= d < |SplitPreds(f, b, i).blocks|
    requires !Branches(f, f.blocks[b].preds[i])
    ensures AppendedFor(f, b, i, m, d)
    decreases |f.blocks[b].preds| - i, 0
  {
    SplitPredsSkip(f, b, i);
    SplitPredsNewShape(f, b, i + 1, m, d);
  }

  lemma {:induction false} ShapeSplitStep(f: Func, b: nat, i: nat, m: nat, d: nat)
    requires WellFormed(f) && b < |f.blocks| && i < |f.blocks[b].preds| && m <= |f.blocks|
    requires forall k :: i <= k < |f.blocks[b].preds| ==> f.blocks[b].preds[k] < m
    requires |f.blocks| <= d < |SplitPreds(f, b, i).blocks|
    requires Branches(f, f.blocks[b].preds[i])
    ensures AppendedFor(f, b, i, m, d)
    decreases |f.blocks[b].preds| - i, 0
  {
    if d == |f.blocks| {
      ShapeFirstBlock(f, b, i, m);
    } else {
      var g := SplitEdge(f, b, i);
      SplitPredsStep(f, b, i);
      SplitPredsNewShape(g, b, i + 1, m, d);
      SplitEdgePredsIn(f, b, i, SplitPreds(g, b, i + 1).blocks[d].preds[0]);
    }
  }

  /** A split only adds the new block to `b.preds`: every original block
      listed there afterwards was listed before. */
  lemma SplitEdgePredsIn(f: Func, b: nat, i: nat, p: nat)
    requires WellFormed(f) && b < |f.blocks| && i < |f.blocks[b].preds|
    requires p < |f.blocks| && p in SplitEdge(f, b, i).blocks[b].preds
    ensures p in f.blocks[b].preds
  {
    var qs := SplitEdge(f, b, i).blocks[b].preds;
    var k :| 0 <= k < |qs| && qs[k] == p;
    assert p == f.blocks[b].preds[k];
  }

  /** The first block appended by the inner loop from a split slot `i` is
      as `AppendedFor` describes. */
  lemma ShapeFirstBlock(f: Func, b: nat, i: nat, m: nat)
    requires WellFormed(f) && b < |f.blocks| && i < |f.blocks[b].preds| && m <= |f.blocks|
    requires forall k :: i <= k < |f.blocks[b].preds| ==> f.blocks[b].preds[k] < m
    requires Branches(f, f.blocks[b].preds[i])
    ensures |f.blocks| < |SplitPreds(f, b, i).blocks| && AppendedFor(f, b, i, m, |f.blocks|)
  {
    SplitPredsFirstPlacement(f, b, i);
    assert f.blocks[b].preds[i] < m;
  }

  /** Inner loop, the first block it appends: when slot `i` holds a
      branching predecessor, the block at `|f.blocks|` leads from it to
      `b`. */
  lemma SplitPredsFirstPlacement(f: Func, b: nat, i: nat)
    requires WellFormed(f) && b < |f.blocks| && i < |f.blocks[b].preds|
    requires Branches(f, f.blocks[b].preds[i])
    ensures var r, ps := SplitPreds(f, b, i), f.blocks[b].preds;
      |f.blocks| < |r.blocks| && r.blocks[|f.blocks|] == Block(Plain, [ps[i]], [b], [])
  {
    var ps := f.blocks[b].preds;
    var g := SplitEdge(f, b, i);
    SplitPredsStep(f, b, i);
    assert forall k :: i + 1 <= k < |ps| ==> g.blocks[b].preds[k] == ps[k] < |f.blocks|;
    SplitPredsKeeps(g, b, i + 1, |f.blocks|);
  }

  /** After the inner loop from slot `i`, the block appended for the
      branching slot `j` sits at `|f.blocks|` plus the number of branching
      slots in `[i, j)` and leads from `ps[j]` to `b`. */
  ghost predicate PlacedAt(f: Func, b: nat, i: nat, j: nat)
    requires WellFormed(f) && b < |f.blocks| && i <= j < |f.blocks[b].preds|
  {
    var r, ps := SplitPreds(f, b, i), f.blocks[b].preds;
    |f.blocks| + CountBranching(f, ps, i, j) < |r.blocks| &&
    r.blocks[|f.blocks| + CountBranching(f, ps, i, j)] == Block(Plain, [ps[j]], [b], [])
  }

  /** Inner loop, appended blocks: every branching slot `j` from `i` on
      gets its block where `PlacedAt` says. */
  lemma {:induction false} SplitPredsPlacement(f: Func, b: nat, i: nat, j: nat)
    requires WellFormed(f) && b < |f.blocks| && i <= j < |f.blocks[b].preds|
    requires Branches(f, f.blocks[b].preds[j])
    ensures PlacedAt(f, b, i, j)
    decreases |f.blocks[b].preds| - i, 1
  {
    var ps := f.blocks[b].preds;
    assert ps[i] < |f.blocks|;
    if j == i {
      SplitPredsFirstPlacement(f, b, i);
    } else if Branches(f, ps[i]) {
      PlacementSplitStep(f, b, i, j);
    } else {
      PlacementSkipStep(f, b, i, j);
    }
  }

  lemma {:induction false} PlacementSkipStep(f: Func, b: nat, i: nat, j: nat)
    requires WellFormed(f) && b < |f.blocks| && i < j < |f.blocks[b].preds|
    requires Branches(f, f.blocks[b].preds[j]) && !Branches(f, f.blocks[b].preds[i])
    ensures PlacedAt(f, b, i, j)
    decreases |f.blocks[b].preds| - i, 0
  {
    assert CountBranching(f, f.blocks[b].preds, i, j) == CountBranching(f, f.blocks[b].preds, i + 1, j);
    SplitPredsPlacement(f, b, i + 1, j);
    SplitPredsSkip(f, b, i);
  }

  lemma {:induction false} PlacementSplitStep(f: Func, b: nat, i: nat, j: nat)
    requires WellFormed(f) && b < |f.blocks| && i < j < |f.blocks[b].preds|
    requires Branches(f, f.blocks[b].preds[j]) && Branches(f, f.blocks[b].preds[i])
    ensures PlacedAt(f, b, i, j)
    decreases |f.blocks[b].preds| - i, 0
  {
    var ps := f.blocks[b].preds;
    var g := SplitEdge(f, b, i);
    assert g.blocks[b].preds[j] == ps[j] < |f.blocks|;
    SplitPredsPlacement(g, b, i + 1, j);
    PlacedAfterSplit(f, b, i, j);
  }

  /** Where the block for slot `j` lands is the same whether the inner loop
      is read from the split slot `i` or from the next slot. */
  lemma PlacedAfterSplit(f: Func, b: nat, i: nat, j: nat)
    requires WellFormed(f) && b < |f.blocks| && i < j < |f.blocks[b].preds|
    requires Branches(f, f.blocks[b].preds[i])
    requires PlacedAt(SplitEdge(f, b, i), b, i + 1, j)
    ensures PlacedAt(f, b, i, j)
  {
    SplitEdgeRank(f, b, i, j);
    SplitPredsStep(f, b, i);
  }

  /** Inner loop from the first slot, appended blocks: the ones appended
      earlier (from `n0` on) are untouched, and every block the loop
      appends is plain, holds no values, and leads to `b` from a branching
      block below `n0`. */
  lemma SplitPredsFrozen(f: Func, b: nat, n0: nat)
    requires WellFormed(f) && b < n0 <= |f.blocks| && RefsBelow(f.blocks[b].preds, n0)
    ensures var r := SplitPreds(f, b, 0);
      forall d :: n0 <= d < |f.blocks| ==> r.blocks[d] == f.blocks[d]
    ensures forall d :: |f.blocks| <= d < |SplitPreds(f, b, 0).blocks| ==> AppendedFor(f, b, 0, n0, d)
  {
    var r := SplitPreds(f, b, 0);
    forall d | n0 <= d < |f.blocks|
      ensures r.blocks[d] == f.blocks[d]
    {
      SplitPredsKeeps(f, b, 0, d);
    }
    forall d | |f.blocks| <= d < |r.blocks|
      ensures AppendedFor(f, b, 0, n0, d)
    {
      SplitPredsNewShape(f, b, 0, n0, d);
    }
  }

  /** Inner loop, successor lists: every successor slot is kept or routed
      through one of the appended blocks. */
  lemma {:induction false} SplitPredsRouted(f: Func, b: nat, i: nat, n0: nat)
    requires WellFormed(f) && b < n0 <= |f.blocks| && i <= |f.blocks[b].preds|
    ensures Routed(f, SplitPreds(f, b, i), n0)
    decreases |f.blocks[b].preds| - i, 1
  {
    var ps := f.blocks[b].preds;
    if i == |ps| {
      assert SplitPreds(f, b, i) == f;
    } else {
      assert ps[i] < |f.blocks|;
      if Branches(f, ps[i]) {
        RoutedSplitStep(f, b, i, n0);
      } else {
        RoutedSkipStep(f, b, i, n0);
      }
    }
  }

  lemma {:induction false} RoutedSkipStep(f: Func, b: nat, i: nat, n0: nat)
    requires WellFormed(f) && b < n0 <= |f.blocks| && i < |f.blocks[b].preds|
    requires !Branches(f, f.blocks[b].preds[i])
    ensures Routed(f, SplitPreds(f, b, i), n0)
    decreases |f.blocks[b].preds| - i, 0
  {
    SplitPredsRouted(f, b, i + 1, n0);
    SplitPredsSkip(f, b, i);
  }

  lemma {:induction false} RoutedSplitStep(f: Func, b: nat, i: nat, n0: nat)
    requires WellFormed(f) && b < n0 <= |f.blocks| && i < |f.blocks[b].preds|
    requires Branches(f, f.blocks[b].preds[i])
    ensures Routed(f, SplitPreds(f, b, i), n0)
    decreases |f.blocks[b].preds| - i, 0
  {
    var g := SplitEdge(f, b, i);
    var r := SplitPreds(f, b, i);
    SplitPredsFirstPlacement(f, b, i);
    assert r.blocks[|f.blocks|] == g.blocks[|f.blocks|];
    SplitPredsStep(f, b, i);
    SplitPredsRouted(g, b, i + 1, n0);
    SplitEdgeRouted(f, b, i, n0);
    RoutedTrans(f, g, r, n0);
  }

  /** Block `x` has been visited: every slot of its predecessor list holds
      `NewPred`, and the block appended for a split slot leads from the
      slot's original predecessor to `x`. */
  ghost predicate PredsDone(f0: Func, f: Func, x: nat)
    requires x < |f0.blocks| <= |f.blocks|
  {
    |f.blocks[x].preds| == |f0.blocks[x].preds| &&
    forall j :: 0 <= j < |f0.blocks[x].preds| ==>
      f.blocks[x].preds[j] == NewPred(f0, x, j) &&
      (Eligible(f0, x) && Branches(f0, f0.blocks[x].preds[j]) ==>
        NewPred(f0, x, j) < |f.blocks| &&
        f.blocks[NewPred(f0, x, j)] == Block(Plain, [f0.blocks[x].preds[j]], [x], []))
  }

  /** The state in which the outer loop reaches block `k`: blocks before
      `k` are done, the others still have their original predecessor lists,
      the appended blocks are exactly the ones for blocks before `k`, and
      every original successor slot is kept or routed. */
  ghost predicate Stage(f0: Func, f: Func, k: nat)
  {
    WellFormed(f0) && k <= |f0.blocks| && WellFormed(f) && SameNodes(f0, f) &&
    |f.blocks| == Base(f0, k) &&
    (forall x :: 0 <= x < |f0.blocks| ==> |f.blocks[x].succs| == |f0.blocks[x].succs|) &&
    (forall x :: k <= x < |f0.blocks| ==> f.blocks[x].preds == f0.blocks[x].preds) &&
    (forall x :: 0 <= x < k ==> PredsDone(f0, f, x)) &&
    (forall d :: |f0.blocks| <= d < |f.blocks| ==> Inserted(f0, f.blocks[d])) &&
    Routed(f0, f, |f0.blocks|)
  }

  /** Nothing has happened before the first iteration. */
  lemma StageInit(f0: Func)
    requires WellFormed(f0)
    ensures Stage(f0, f0, 0)
  {
    forall x: nat, k: nat | x < |f0.blocks| && k < |f0.blocks[x].succs|
      ensures RoutedSlot(f0, f0, |f0.blocks|, x, k)
    {
    }
  }

  /** A done block stays done when a later block is visited. */
  lemma PredsDoneKept(f0: Func, f: Func, g: Func, x: nat)
    requires x < |f0.blocks| <= |f.blocks| <= |g.blocks|
    requires PredsDone(f0, f, x)
    requires g.blocks[x].preds == f.blocks[x].preds
    requires forall d :: |f0.blocks| <= d < |f.blocks| ==> g.blocks[d] == f.blocks[d]
    ensures PredsDone(f0, g, x)
  {
    var ps := f0.blocks[x].preds;
    forall j | 0 <= j < |ps| && Eligible(f0, x) && Branches(f0, ps[j])
      ensures g.blocks[NewPred(f0, x, j)] == f.blocks[NewPred(f0, x, j)]
    {
      assert NewPred(f0, x, j) >= Base(f0, x) >= |f0.blocks|;
    }
  }

  /** One iteration of the outer loop, on a block that is skipped. */
  lemma StageSkip(f0: Func, f: Func, k: nat)
    requires Stage(f0, f, k) && k < |f0.blocks| && !Eligible(f0, k)
    ensures Stage(f0, Visit(f, k), k + 1)
  {
    assert f.blocks[k].preds == f0.blocks[k].preds;
    assert Visit(f, k) == f;
    assert PredsDone(f0, f, k);
  }

  /** When the outer loop reaches block `k`, the block still has its
      original predecessors, and every block they name branches in `f`
      exactly when it branches in `f0`. */
  lemma StageBranches(f0: Func, f: Func, k: nat, j: nat)
    requires Stage(f0, f, k) && k < |f0.blocks| && j <= |f0.blocks[k].preds|
    ensures f.blocks[k].preds == f0.blocks[k].preds
    ensures RefsBelow(f0.blocks[k].preds, |f0.blocks|)
    ensures forall m :: 0 <= m < |f0.blocks[k].preds| ==>
      Branches(f, f0.blocks[k].preds[m]) == Branches(f0, f0.blocks[k].preds[m])
    ensures CountBranching(f, f0.blocks[k].preds, 0, j) == CountBranching(f0, f0.blocks[k].preds, 0, j)
  {
    var ps := f0.blocks[k].preds;
    assert RefsBelow(ps, |f0.blocks|);
    forall m | 0 <= m < |ps|
      ensures Branches(f, ps[m]) == Branches(f0, ps[m])
    {
      assert ps[m] < |f0.blocks|;
    }
    CountBranchingFrame(f, f0, ps, ps, 0, j);
  }

  /** Visiting an eligible block `k`: sizes, kinds, values and the other
      blocks' predecessor lists. */
  lemma StageSplitFrame(f0: Func, f: Func, k: nat)
    requires Stage(f0, f, k) && k < |f0.blocks| && Eligible(f0, k)
    ensures var g := Visit(f, k);
      |g.blocks| == Base(f0, k + 1) && SameNodes(f0, g) &&
      (forall x :: 0 <= x < |f0.blocks| ==> |g.blocks[x].succs| == |f0.blocks[x].succs|) &&
      (forall x :: k + 1 <= x < |f0.blocks| ==> g.blocks[x].preds == f0.blocks[x].preds)
  {
    var ps := f0.blocks[k].preds;
    StageBranches(f0, f, k, |ps|);
    assert Visit(f, k) == SplitPreds(f, k, 0);
    SplitPredsSize(f, k, 0);
    SplitPredsFrame(f, k, 0);
  }

  /** Visiting an eligible block `k`: blocks before `k` stay done. */
  lemma StageSplitEarlier(f0: Func, f: Func, k: nat)
    requires Stage(f0, f, k) && k < |f0.blocks| && Eligible(f0, k)
    ensures |f0.blocks| <= |Visit(f, k).blocks|
    ensures forall x :: 0 <= x < k ==> PredsDone(f0, Visit(f, k), x)
  {
    StageBranches(f0, f, k, 0);
    var g := Visit(f, k);
    assert g == SplitPreds(f, k, 0);
    SplitPredsFrame(f, k, 0);
    SplitPredsFrozen(f, k, |f0.blocks|);
    forall x | 0 <= x < k
      ensures PredsDone(f0, g, x)
    {
      PredsDoneKept(f0, f, g, x);
    }
  }

  /** Visiting an eligible block `k`: block `k` is done. */
  lemma StageSplitCurrent(f0: Func, f: Func, k: nat)
    requires Stage(f0, f, k) && k < |f0.blocks| && Eligible(f0, k)
    ensures |f0.blocks| <= |Visit(f, k).blocks|
    ensures PredsDone(f0, Visit(f, k), k)
  {
    var ps := f0.blocks[k].preds;
    StageBranches(f0, f, k, 0);
    var g := Visit(f, k);
    assert g == SplitPreds(f, k, 0);
    forall j | 0 <= j < |ps|
      ensures g.blocks[k].preds[j] == NewPred(f0, k, j)
      ensures Branches(f0, ps[j]) ==>
        NewPred(f0, k, j) < |g.blocks| && g.blocks[NewPred(f0, k, j)] == Block(Plain, [ps[j]], [k], [])
    {
      StageBranches(f0, f, k, j);
      SplitPredsSlot(f, k, 0, j);
      if Branches(f0, ps[j]) {
        SplitPredsPlacement(f, k, 0, j);
      }
    }
  }

  /** Visiting an eligible block `k`: appended blocks and successor slots. */
  lemma StageSplitEdges(f0: Func, f: Func, k: nat)
    requires Stage(f0, f, k) && k < |f0.blocks| && Eligible(f0, k)
    ensures forall d :: |f0.blocks| <= d < |Visit(f, k).blocks| ==> Inserted(f0, Visit(f, k).blocks[d])
    ensures Routed(f0, Visit(f, k), |f0.blocks|)
  {
    var n0 := |f0.blocks|;
    StageBranches(f0, f, k, 0);
    var g := Visit(f, k);
    assert g == SplitPreds(f, k, 0);
    SplitPredsFrozen(f, k, n0);
    SplitPredsRouted(f, k, 0, n0);
    RoutedTrans(f0, f, g, n0);
    forall d | n0 <= d < |g.blocks|
      ensures Inserted(f0, g.blocks[d])
    {
      if d < |f.blocks| {
        assert g.blocks[d] == f.blocks[d];
      } else {
        SplitPredsNewShape(f, k, 0, n0, d);
        var p := g.blocks[d].preds[0];
        assert p < n0 && Branches(f, p);
        assert f.blocks[p].kind == f0.blocks[p].kind;
      }
    }
  }

  /** One iteration of the outer loop, on a block whose incoming critical
      edges are split. */
  lemma StageSplit(f0: Func, f: Func, k: nat)
    requires Stage(f0, f, k) && k < |f0.blocks| && Eligible(f0, k)
    ensures Stage(f0, Visit(f, k), k + 1)
  {
    StageSplitFrame(f0, f, k);
    StageSplitEarlier(f0, f, k);
    StageSplitCurrent(f0, f, k);
    StageSplitEdges(f0, f, k);
  }

  /** One iteration of the outer loop keeps the loop invariant. */
  lemma StageStep(f0: Func, f: Func, k: nat)
    requires Stage(f0, f, k) && k < |f0.blocks|
    ensures Stage(f0, Visit(f, k), k + 1)
  {
    if Eligible(f0, k) {
      StageSplit(f0, f, k);
    } else {
      StageSkip(f0, f, k);
    }
  }

  /** The outer loop from block `k` on ends in the final stage. */
  lemma {:induction false} ScanStage(f0: Func, f: Func, k: nat)
    requires Stage(f0, f, k)
    ensures Stage(f0, Scan(f, |f0.blocks|, k), |f0.blocks|)
    decreases |f0.blocks| - k
  {
    if k < |f0.blocks| {
      StageStep(f0, f, k);
      ScanStep(f, |f0.blocks|, k);
      ScanStage(f0, Visit(f, k), k + 1);
    }
  }

  /** The whole pass ends in the final stage. */
  lemma CriticalPassStage(f0: Func)
    requires WellFormed(f0)
    ensures Stage(f0, CriticalPass(f0), |f0.blocks|)
  {
    StageInit(f0);
    ScanStage(f0, f0, 0);
  }
}
