/** What the pass guarantees, stated about `CriticalPass(f0)` in terms of
    the input `f0`.

    Every lemma here starts from `CriticalPassStage`, the exact layout of
    the result, and reads one property off it: which blocks are left
    alone, which predecessor slots change and into what, the shape of the
    inserted blocks, the routing of successor slots, the absence of
    critical edges into phi blocks afterwards, and idempotence.
 */
module CriticalProperties {
  import opened Cfg
  import opened Critical
  import opened CriticalEffect

  /** No block with more than one predecessor and a non-memory phi has a
      predecessor whose kind is not `BlockPlain`. */
  ghost predicate NoCriticalIntoPhi(f: Func)
  {
    forall b, j :: 0 <= b < |f.blocks| && Eligible(f, b) && 0 <= j < |f.blocks[b].preds| ==>
      !Branches(f, f.blocks[b].preds[j])
  }

  /** A block with at most one predecessor, or without a non-memory phi,
      keeps its predecessor list, and no block is inserted in front of it. */
  lemma SkippedBlockUntouched(f0: Func, b: nat)
    requires WellFormed(f0) && b < |f0.blocks|
    requires |f0.blocks[b].preds| <= 1 || !HasNonMemPhi(f0.blocks[b].values)
    ensures CriticalPass(f0).blocks[b].preds == f0.blocks[b].preds
    ensures forall d :: |f0.blocks| <= d < |CriticalPass(f0).blocks| ==>
      CriticalPass(f0).blocks[d].succs != [b]
  {
    var r := CriticalPass(f0);
    CriticalPassStage(f0);
    assert PredsDone(f0, r, b);
    assert r.blocks[b].preds == f0.blocks[b].preds;
    forall d | |f0.blocks| <= d < |r.blocks|
      ensures r.blocks[d].succs != [b]
    {
      assert Inserted(f0, r.blocks[d]);
    }
  }

  /** An edge out of a plain block is never rewritten: the slot still holds
      the plain predecessor, and the plain block's successor list is the
      same as before the pass. */
  lemma PlainEdgeKept(f0: Func, b: nat, j: nat)
    requires WellFormed(f0) && b < |f0.blocks| && j < |f0.blocks[b].preds|
    requires f0.blocks[f0.blocks[b].preds[j]].kind == Plain
    ensures |CriticalPass(f0).blocks[b].preds| == |f0.blocks[b].preds|
    ensures CriticalPass(f0).blocks[b].preds[j] == f0.blocks[b].preds[j]
    ensures CriticalPass(f0).blocks[f0.blocks[b].preds[j]].succs
         == f0.blocks[f0.blocks[b].preds[j]].succs
  {
    var r := CriticalPass(f0);
    var c := f0.blocks[b].preds[j];
    CriticalPassStage(f0);
    assert PredsDone(f0, r, b);
    forall k | 0 <= k < |f0.blocks[c].succs|
      ensures r.blocks[c].succs[k] == f0.blocks[c].succs[k]
    {
      assert RoutedSlot(f0, r, |f0.blocks|, c, k);
    }
  }

  /** The predecessor slots the pass rewrites are exactly the edges from a
      branching block into a block with several predecessors and a
      non-memory phi; the list keeps its length, and a rewritten slot names
      an inserted block that leads from the old predecessor to `b`. */
  lemma PredSlotRewritten(f0: Func, b: nat, j: nat)
    requires WellFormed(f0) && b < |f0.blocks| && j < |f0.blocks[b].preds|
    ensures |CriticalPass(f0).blocks[b].preds| == |f0.blocks[b].preds|
    ensures CriticalPass(f0).blocks[b].preds[j] != f0.blocks[b].preds[j]
        <==> Eligible(f0, b) && Branches(f0, f0.blocks[b].preds[j])
    ensures CriticalPass(f0).blocks[b].preds[j] != f0.blocks[b].preds[j] ==>
      var d := CriticalPass(f0).blocks[b].preds[j];
      |f0.blocks| <= d < |CriticalPass(f0).blocks| &&
      CriticalPass(f0).blocks[d] == Block(Plain, [f0.blocks[b].preds[j]], [b], [])
  {
    var r := CriticalPass(f0);
    CriticalPassStage(f0);
    assert PredsDone(f0, r, b);
    assert f0.blocks[b].preds[j] < |f0.blocks|;
    if Eligible(f0, b) && Branches(f0, f0.blocks[b].preds[j]) {
      assert NewPred(f0, b, j) >= Base(f0, b);
    }
  }

  /** Every block the pass appends is plain, holds no values, and sits on
      one edge of the input: its single predecessor is an original block
      that branches, its single successor an original block with several
      predecessors and a non-memory phi, and the first was a predecessor
      of the second. */
  lemma InsertedBlockShape(f0: Func, d: nat)
    requires WellFormed(f0) && |f0.blocks| <= d < |CriticalPass(f0).blocks|
    ensures var blk := CriticalPass(f0).blocks[d];
      blk.kind == Plain && blk.values == [] && |blk.preds| == 1 && |blk.succs| == 1 &&
      blk.preds[0] < |f0.blocks| && f0.blocks[blk.preds[0]].kind != Plain &&
      blk.succs[0] < |f0.blocks| && Eligible(f0, blk.succs[0]) &&
      blk.preds[0] in f0.blocks[blk.succs[0]].preds
  {
    CriticalPassStage(f0);
    assert Inserted(f0, CriticalPass(f0).blocks[d]);
  }

  /** The original blocks keep their index, kind and values; the pass only
      appends, one block per rewritten slot, so the function grows by the
      number of critical edges into phi blocks. */
  lemma OriginalBlocksKept(f0: Func)
    requires WellFormed(f0)
    ensures |CriticalPass(f0).blocks| == Base(f0, |f0.blocks|)
    ensures forall x :: 0 <= x < |f0.blocks| ==>
      CriticalPass(f0).blocks[x].kind == f0.blocks[x].kind &&
      CriticalPass(f0).blocks[x].values == f0.blocks[x].values &&
      |CriticalPass(f0).blocks[x].preds| == |f0.blocks[x].preds| &&
      |CriticalPass(f0).blocks[x].succs| == |f0.blocks[x].succs|
  {
    var r := CriticalPass(f0);
    CriticalPassStage(f0);
    forall x | 0 <= x < |f0.blocks|
      ensures |r.blocks[x].preds| == |f0.blocks[x].preds|
    {
      assert PredsDone(f0, r, x);
    }
  }

  /** Every successor slot of an original block either keeps its target or
      now names an inserted block that leads from this block straight to
      the old target: the pass reroutes edges, it never drops or invents
      one. */
  lemma SuccSlotRouted(f0: Func, x: nat, k: nat)
    requires WellFormed(f0) && x < |f0.blocks| && k < |f0.blocks[x].succs|
    ensures k < |CriticalPass(f0).blocks[x].succs|
    ensures var t := CriticalPass(f0).blocks[x].succs[k];
      t == f0.blocks[x].succs[k] ||
      (|f0.blocks| <= t < |CriticalPass(f0).blocks| &&
       CriticalPass(f0).blocks[t] == Block(Plain, [x], [f0.blocks[x].succs[k]], []))
  {
    CriticalPassStage(f0);
    assert RoutedSlot(f0, CriticalPass(f0), |f0.blocks|, x, k);
  }

  /** After the pass, no critical edge enters a block that has more than
      one predecessor and a non-memory phi. */
  lemma CriticalPassPostcondition(f0: Func)
    requires WellFormed(f0)
    ensures NoCriticalIntoPhi(CriticalPass(f0))
  {
    var r := CriticalPass(f0);
    var n0 := |f0.blocks|;
    CriticalPassStage(f0);
    forall b, j | 0 <= b < |r.blocks| && Eligible(r, b) && 0 <= j < |r.blocks[b].preds|
      ensures !Branches(r, r.blocks[b].preds[j])
    {
      assert b >= n0 ==> Inserted(f0, r.blocks[b]);
      if b < n0 {
        assert PredsDone(f0, r, b);
        assert Eligible(f0, b);
        var c := f0.blocks[b].preds[j];
        assert c < n0;
        if !Branches(f0, c) {
          assert r.blocks[b].preds[j] == c;
        }
      }
    }
  }

  /** The inner loop changes nothing when no remaining slot branches. */
  lemma {:induction false} SplitPredsNoop(f: Func, b: nat, i: nat)
    requires WellFormed(f) && b < |f.blocks| && i <= |f.blocks[b].preds|
    requires forall j :: i <= j < |f.blocks[b].preds| ==> !Branches(f, f.blocks[b].preds[j])
    ensures SplitPreds(f, b, i) == f
    decreases |f.blocks[b].preds| - i
  {
    if i < |f.blocks[b].preds| {
      assert f.blocks[b].preds[i] < |f.blocks|;
      SplitPredsNoop(f, b, i + 1);
    }
  }

  /** The outer loop changes nothing on a function without critical edges
      into phi blocks. */
  lemma {:induction false} ScanNoop(f: Func, k: nat)
    requires WellFormed(f) && k <= |f.blocks| && NoCriticalIntoPhi(f)
    ensures Scan(f, |f.blocks|, k) == f
    decreases |f.blocks| - k
  {
    if k < |f.blocks| {
      if Eligible(f, k) {
        SplitPredsNoop(f, k, 0);
      }
      ScanNoop(f, k + 1);
    }
  }

  /** The pass leaves a function unchanged exactly when it has no critical
      edge into a block with several predecessors and a non-memory phi. */
  lemma CriticalPassIdentityIff(f: Func)
    requires WellFormed(f)
    ensures CriticalPass(f) == f <==> NoCriticalIntoPhi(f)
  {
    if NoCriticalIntoPhi(f) {
      ScanNoop(f, 0);
    } else {
      var b, j :| 0 <= b < |f.blocks| && Eligible(f, b) && 0 <= j < |f.blocks[b].preds| &&
        Branches(f, f.blocks[b].preds[j]);
      var ps := f.blocks[b].preds;
      CountBranchingPositive(f, ps, 0, |ps|, j);
      BaseMonotone(f, b + 1, |f.blocks|);
      OriginalBlocksKept(f);
      assert |CriticalPass(f).blocks| > |f.blocks|;
    }
  }

  /** Running the pass on its own output creates no block and changes
      nothing. */
  lemma CriticalPassIdempotent(f0: Func)
    requires WellFormed(f0)
    ensures CriticalPass(CriticalPass(f0)) == CriticalPass(f0)
  {
    CriticalPassPostcondition(f0);
    CriticalPassIdentityIff(CriticalPass(f0));
  }

  /** Two different rewritten slots name two different inserted blocks:
      the pass inserts one block per critical edge. */
  lemma InsertedBlocksDistinct(f0: Func, b: nat, j: nat, b2: nat, j2: nat)
    requires WellFormed(f0) && b < |f0.blocks| && b2 < |f0.blocks|
    requires j < |f0.blocks[b].preds| && j2 < |f0.blocks[b2].preds| && (b, j) != (b2, j2)
    requires Eligible(f0, b) && Branches(f0, f0.blocks[b].preds[j])
    requires Eligible(f0, b2) && Branches(f0, f0.blocks[b2].preds[j2])
    ensures j < |CriticalPass(f0).blocks[b].preds| && j2 < |CriticalPass(f0).blocks[b2].preds|
    ensures CriticalPass(f0).blocks[b].preds[j] != CriticalPass(f0).blocks[b2].preds[j2]
  {
    var r := CriticalPass(f0);
    PredSlotRewritten(f0, b, j);
    PredSlotRewritten(f0, b2, j2);
    if b == b2 {
      var ps := f0.blocks[b].preds;
      CriticalPassStage(f0);
      assert PredsDone(f0, r, b);
      var lo, hi := if j < j2 then j else j2, if j < j2 then j2 else j;
      CountBranchingSplit(f0, ps, 0, lo, hi);
      CountBranchingPositive(f0, ps, lo, hi, lo);
    }
  }
}
