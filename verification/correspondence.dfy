/** Pred/succ correspondence under the pass.

    Register allocation reads a phi's i-th argument as the value flowing in
    along the edge in slot i of the block's predecessor list, so each edge
    must be recorded once on each side. The pass keeps this: each split
    takes one occurrence of `c` out of `b.preds` and one occurrence of `b`
    out of `c.succs`, and records the two halves `c -> d` and `d -> b` on
    both sides. Parallel edges are covered because the counts are
    per pair of blocks.
 */
module CriticalCorrespondence {
  import opened Cfg
  import opened Critical

  /** A fresh index occurs in no well-formed list. */
  lemma CountFresh(s: seq<nat>, n: nat)
    requires RefsBelow(s, n)
    ensures Count(s, n) == 0
  {
    assert n !in s;
  }

  /** Counts in a list after one slot is overwritten. */
  lemma CountUpdate(s: seq<nat>, i: nat, v: nat, x: nat)
    requires i < |s|
    ensures Count(s[i := v], x)
         == Count(s, x) - (if s[i] == x then 1 else 0) + (if v == x then 1 else 0)
  {
    assert s == s[..i] + [s[i]] + s[i + 1..];
    assert s[i := v] == s[..i] + [v] + s[i + 1..];
  }

  /** After one split, the predecessor counts of an original block `y`:
      only `b` changes, trading one occurrence of `c` for the new block. */
  lemma SplitEdgePredCount(f: Func, b: nat, i: nat, y: nat, x: nat)
    requires WellFormed(f) && b < |f.blocks| && i < |f.blocks[b].preds| && y < |f.blocks|
    ensures var g, c, n := SplitEdge(f, b, i), f.blocks[b].preds[i], |f.blocks|;
      Count(g.blocks[y].preds, x)
        == Count(f.blocks[y].preds, x) - (if y == b && x == c then 1 else 0)
           + (if y == b && x == n then 1 else 0)
  {
    if y == b {
      CountUpdate(f.blocks[b].preds, i, |f.blocks|, x);
    }
  }

  /** After one split, the successor counts of an original block `x`:
      only `c` changes, trading one occurrence of `b` for the new block,
      provided `b` is among `c`'s successors. */
  lemma SplitEdgeSuccCount(f: Func, b: nat, i: nat, x: nat, y: nat)
    requires WellFormed(f) && b < |f.blocks| && i < |f.blocks[b].preds| && x < |f.blocks|
    requires b in f.blocks[f.blocks[b].preds[i]].succs
    ensures var g, c, n := SplitEdge(f, b, i), f.blocks[b].preds[i], |f.blocks|;
      Count(g.blocks[x].succs, y)
        == Count(f.blocks[x].succs, y) - (if x == c && y == b then 1 else 0)
           + (if x == c && y == n then 1 else 0)
  {
    var c := f.blocks[b].preds[i];
    if x == c {
      ReplaceFirstCounts(f.blocks[c].succs, b, |f.blocks|);
    }
  }

  /** Under correspondence, the predecessor `c` in slot `i` of `b.preds`
      lists `b` among its successors. */
  lemma PredListsSucc(f: Func, b: nat, i: nat)
    requires WellFormed(f) && Corresponds(f) && b < |f.blocks| && i < |f.blocks[b].preds|
    ensures b in f.blocks[f.blocks[b].preds[i]].succs
  {
    var c := f.blocks[b].preds[i];
    assert c < |f.blocks|;
    assert Count(f.blocks[b].preds, c) >= 1;
  }

  /** After one split, the pairs that involve the new block `d` correspond:
      `d` is recorded once in `c.succs` and once in `b.preds`. */
  lemma SplitEdgePairNew(f: Func, b: nat, i: nat, y: nat, x: nat)
    requires WellFormed(f) && Corresponds(f) && b < |f.blocks| && i < |f.blocks[b].preds|
    requires y <= |f.blocks| && x <= |f.blocks| && (y == |f.blocks| || x == |f.blocks|)
    ensures var g := SplitEdge(f, b, i);
      Count(g.blocks[y].preds, x) == Count(g.blocks[x].succs, y)
  {
    var n := |f.blocks|;
    PredListsSucc(f, b, i);
    if y == n && x < n {
      SplitEdgeSuccCount(f, b, i, x, y);
      CountFresh(f.blocks[x].succs, n);
    } else if x == n && y < n {
      SplitEdgePredCount(f, b, i, y, x);
      CountFresh(f.blocks[y].preds, n);
    }
  }

  /** After one split, the pairs of original blocks correspond: only the
      pair (`b`, `c`) changes, losing one edge on each side. */
  lemma SplitEdgePairOld(f: Func, b: nat, i: nat, y: nat, x: nat)
    requires WellFormed(f) && Corresponds(f) && b < |f.blocks| && i < |f.blocks[b].preds|
    requires y < |f.blocks| && x < |f.blocks|
    ensures var g := SplitEdge(f, b, i);
      Count(g.blocks[y].preds, x) == Count(g.blocks[x].succs, y)
  {
    PredListsSucc(f, b, i);
    SplitEdgePredCount(f, b, i, y, x);
    SplitEdgeSuccCount(f, b, i, x, y);
    assert Count(f.blocks[y].preds, x) == Count(f.blocks[x].succs, y);
  }

  /** One split keeps correspondence. */
  lemma SplitEdgeCorresponds(f: Func, b: nat, i: nat)
    requires WellFormed(f) && Corresponds(f) && b < |f.blocks| && i < |f.blocks[b].preds|
    ensures Corresponds(SplitEdge(f, b, i))
  {
    var g := SplitEdge(f, b, i);
    forall y, x | 0 <= y < |g.blocks| && 0 <= x < |g.blocks|
      ensures Count(g.blocks[y].preds, x) == Count(g.blocks[x].succs, y)
    {
      if y < |f.blocks| && x < |f.blocks| {
        SplitEdgePairOld(f, b, i, y, x);
      } else {
        SplitEdgePairNew(f, b, i, y, x);
      }
    }
  }

  /** The inner loop keeps correspondence. */
  lemma {:induction false} SplitPredsCorresponds(f: Func, b: nat, i: nat)
    requires WellFormed(f) && Corresponds(f) && b < |f.blocks| && i <= |f.blocks[b].preds|
    ensures Corresponds(SplitPreds(f, b, i))
    decreases |f.blocks[b].preds| - i, 1
  {
    if i < |f.blocks[b].preds| {
      assert f.blocks[b].preds[i] < |f.blocks|;
      if Branches(f, f.blocks[b].preds[i]) {
        SplitSlotCorresponds(f, b, i);
      } else {
        SkipSlotCorresponds(f, b, i);
      }
    }
  }

  /** The inner loop keeps correspondence when slot `i` is kept. */
  lemma {:induction false} SkipSlotCorresponds(f: Func, b: nat, i: nat)
    requires WellFormed(f) && Corresponds(f) && b < |f.blocks| && i < |f.blocks[b].preds|
    requires !Branches(f, f.blocks[b].preds[i])
    ensures Corresponds(SplitPreds(f, b, i))
    decreases |f.blocks[b].preds| - i, 0
  {
    SplitPredsSkip(f, b, i);
    SplitPredsCorresponds(f, b, i + 1);
  }

  /** The inner loop keeps correspondence when slot `i` is split. */
  lemma {:induction false} SplitSlotCorresponds(f: Func, b: nat, i: nat)
    requires WellFormed(f) && Corresponds(f) && b < |f.blocks| && i < |f.blocks[b].preds|
    requires Branches(f, f.blocks[b].preds[i])
    ensures Corresponds(SplitPreds(f, b, i))
    decreases |f.blocks[b].preds| - i, 0
  {
    var g := SplitEdge(f, b, i);
    SplitEdgeCorresponds(f, b, i);
    SplitPredsStep(f, b, i);
    SplitPredsCorresponds(g, b, i + 1);
  }

  /** The outer loop keeps correspondence. */
  lemma {:induction false} ScanCorresponds(f: Func, n: nat, k: nat)
    requires WellFormed(f) && Corresponds(f) && k <= n <= |f.blocks|
    ensures Corresponds(Scan(f, n, k))
    decreases n - k
  {
    if k < n {
      VisitCases(f, k);
      if Eligible(f, k) {
        SplitPredsCorresponds(f, k, 0);
      }
      ScanStep(f, n, k);
      ScanCorresponds(Visit(f, k), n, k + 1);
    }
  }

  /** If every edge is recorded once on each side before the pass, the same
      holds afterwards, for the original and the inserted blocks alike. */
  lemma CriticalPassCorresponds(f0: Func)
    requires WellFormed(f0) && Corresponds(f0)
    ensures Corresponds(CriticalPass(f0))
  {
    ScanCorresponds(f0, |f0.blocks|, 0);
  }

  /** Without correspondence the split is one-sided: when `b` is missing
      from `c.succs`, slot `i` of `b.preds` still moves to the new block
      `d`, whose only predecessor is `c`, but `c.succs` is left as it was
      and never mentions `d`. */
  lemma SplitEdgeMissingSucc(f: Func, b: nat, i: nat)
    requires WellFormed(f) && b < |f.blocks| && i < |f.blocks[b].preds|
    requires b !in f.blocks[f.blocks[b].preds[i]].succs
    ensures var g, c, d := SplitEdge(f, b, i), f.blocks[b].preds[i], |f.blocks|;
      g.blocks[c].succs == f.blocks[c].succs &&
      g.blocks[b].preds[i] == d && g.blocks[d].preds == [c] &&
      Count(g.blocks[d].preds, c) == 1 && Count(g.blocks[c].succs, d) == 0
  {
    var c := f.blocks[b].preds[i];
    assert c < |f.blocks|;
    ReplaceFirstAbsent(f.blocks[c].succs, b, |f.blocks|);
    CountFresh(f.blocks[c].succs, |f.blocks|);
  }
}
