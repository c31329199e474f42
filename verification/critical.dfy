/** The critical-edge splitting pass, as a state transformer on the arena.

    The Go pass is two nested loops that mutate the function in place. Here
    each loop is a recursive function that threads the function through its
    iterations:
      - `Critical` runs `Scan` over the blocks present at entry;
      - `Visit` is one iteration of the outer loop (one block `b`);
      - `SplitPreds` is the inner loop over the predecessor slots of `b`;
      - `SplitEdge` splits one edge `c -> b` at slot `i`;
      - `ReplaceFirst` is the find-and-replace over `c.succs`.
 */
module Critical {
  import opened Cfg

  /** A value that forces its block's incoming edges to be split: a phi
      whose type is not the memory type. */
  predicate IsNonMemPhi(v: Value)
  {
    v.isPhi && !v.isMem
  }

  /** The `hasphi` scan: walks the values in order and stops at the first
      non-memory phi. */
  function HasNonMemPhi(vs: seq<Value>): (r: bool)
    ensures r <==> exists k :: 0 <= k < |vs| && IsNonMemPhi(vs[k])
  {
    if |vs| == 0 then false
    else if IsNonMemPhi(vs[0]) then true
    else HasNonMemPhi(vs[1..])
  }

  /** Block `b` gets its incoming edges from branching blocks split: it has
      more than one predecessor and a non-memory phi. */
  predicate Eligible(f: Func, b: nat)
    requires b < |f.blocks|
  {
    |f.blocks[b].preds| > 1 && HasNonMemPhi(f.blocks[b].values)
  }

  /** `x` names a block whose kind is not `BlockPlain`: an edge out of it
      is critical when it enters an eligible block. */
  predicate Branches(f: Func, x: nat)
  {
    x < |f.blocks| && f.blocks[x].kind != Plain
  }

  /** Position of the first occurrence of `x` in `s` at or after `j`, or
      `|s|` when there is none: a scan that stops at the first match. */
  function IndexFrom(s: seq<nat>, x: nat, j: nat): (k: nat)
    requires j <= |s|
    ensures j <= k <= |s|
    ensures k < |s| ==> s[k] == x
    decreases |s| - j
  {
    if j == |s| then j
    else if s[j] == x then j
    else IndexFrom(s, x, j + 1)
  }

  /** The scan skips no match: every entry it passes over differs from
      `x`. */
  lemma {:induction false} IndexFromFirst(s: seq<nat>, x: nat, j: nat)
    requires j <= |s|
    ensures forall m :: j <= m < IndexFrom(s, x, j) ==> s[m] != x
    decreases |s| - j
  {
    if j < |s| && s[j] != x {
      IndexFromFirst(s, x, j + 1);
    }
  }

  /** A scan from the front finds the first occurrence, and reports `|s|`
      exactly when `x` does not occur. */
  lemma IndexOfFirst(s: seq<nat>, x: nat)
    ensures forall m :: 0 <= m < IndexFrom(s, x, 0) ==> s[m] != x
    ensures IndexFrom(s, x, 0) < |s| <==> x in s
  {
    IndexFromFirst(s, x, 0);
  }

  /** Replaces the first occurrence of `x` in `s` by `y`, scanning from the
      front and stopping at the first match; leaves `s` alone when `x` does
      not occur. */
  function ReplaceFirst(s: seq<nat>, x: nat, y: nat): (r: seq<nat>)
    ensures |r| == |s|
  {
    var k := IndexFrom(s, x, 0);
    if k < |s| then s[k := y] else s
  }

  /** Exactly the first occurrence is replaced: when `k` is the first
      position holding `x`, the result is `s` with slot `k` set to `y`. */
  lemma ReplaceFirstAt(s: seq<nat>, x: nat, y: nat, k: nat)
    requires k < |s| && s[k] == x
    requires forall m :: 0 <= m < k ==> s[m] != x
    ensures ReplaceFirst(s, x, y) == s[k := y]
  {
    IndexFromFirst(s, x, 0);
  }

  /** When `x` does not occur, nothing is replaced. */
  lemma ReplaceFirstAbsent(s: seq<nat>, x: nat, y: nat)
    requires x !in s
    ensures ReplaceFirst(s, x, y) == s
  {
    IndexOfFirst(s, x);
  }

  /** Replacing the first `x` by `y` takes one occurrence of `x` away and
      adds one occurrence of `y`: the edge count that pred/succ
      correspondence is about moves from `x` to `y`. */
  lemma ReplaceFirstCounts(s: seq<nat>, x: nat, y: nat)
    requires x in s
    ensures multiset(ReplaceFirst(s, x, y)) == multiset(s) - multiset{x} + multiset{y}
  {
    var k := IndexFrom(s, x, 0);
    IndexOfFirst(s, x);
    assert s == s[..k] + [x] + s[k + 1..];
    assert s[k := y] == s[..k] + [y] + s[k + 1..];
  }

  /** Splits the edge held in slot `i` of `b.preds`: a new plain block `d`
      is appended with `d.preds == [c]` and `d.succs == [b]`, slot `i` of
      `b.preds` is repointed to `d`, and the first `b` in `c.succs` becomes
      `d`. */
  function SplitEdge(f: Func, b: nat, i: nat): (g: Func)
    requires WellFormed(f) && b < |f.blocks| && i < |f.blocks[b].preds|
    ensures WellFormed(g)
    ensures |g.blocks| == |f.blocks| + 1
    ensures g.blocks[|f.blocks|] == Block(Plain, [f.blocks[b].preds[i]], [b], [])
    ensures g.blocks[b].preds == f.blocks[b].preds[i := |f.blocks|]
    ensures forall x :: 0 <= x < |f.blocks| && x != b ==> g.blocks[x].preds == f.blocks[x].preds
    ensures g.blocks[f.blocks[b].preds[i]].succs
         == ReplaceFirst(f.blocks[f.blocks[b].preds[i]].succs, b, |f.blocks|)
    ensures forall x :: 0 <= x < |f.blocks| && x != f.blocks[b].preds[i] ==>
      g.blocks[x].succs == f.blocks[x].succs
    ensures forall x :: 0 <= x < |f.blocks| ==>
      g.blocks[x].kind == f.blocks[x].kind && g.blocks[x].values == f.blocks[x].values
  {
    var c := f.blocks[b].preds[i];
    var (f1, d) := NewBlock(f, Plain);
    var f2 := Func(f1.blocks[d := f1.blocks[d].(preds := f1.blocks[d].preds + [c],
                                                succs := f1.blocks[d].succs + [b])]);
    var f3 := Func(f2.blocks[b := f2.blocks[b].(preds := f2.blocks[b].preds[i := d])]);
    Func(f3.blocks[c := f3.blocks[c].(succs := ReplaceFirst(f3.blocks[c].succs, b, d))])
  }

  /** One iteration of the inner loop: the edge in slot `i` of `b.preds`
      is split when its predecessor is not a plain block, and left alone
      otherwise. */
  function SplitSlot(f: Func, b: nat, i: nat): (g: Func)
    requires WellFormed(f) && b < |f.blocks| && i < |f.blocks[b].preds|
    ensures WellFormed(g)
    ensures |g.blocks| == |f.blocks| + (if Branches(f, f.blocks[b].preds[i]) then 1 else 0)
    ensures g.blocks[b].preds
         == f.blocks[b].preds[i := if Branches(f, f.blocks[b].preds[i]) then |f.blocks|
                                  else f.blocks[b].preds[i]]
    ensures forall x {:trigger g.blocks[x]} :: 0 <= x < |f.blocks| ==> g.blocks[x].kind == f.blocks[x].kind
  {
    var c := f.blocks[b].preds[i];
    if f.blocks[c].kind == Plain then f else SplitEdge(f, b, i)
  }

  /** The inner loop from slot `i` on: every slot whose predecessor is not
      plain is split, plain predecessors are skipped. */
  function SplitPreds(f: Func, b: nat, i: nat): (r: Func)
    requires WellFormed(f) && b < |f.blocks| && i <= |f.blocks[b].preds|
    ensures WellFormed(r) && |r.blocks| >= |f.blocks|
    ensures |r.blocks[b].preds| == |f.blocks[b].preds|
    decreases |f.blocks[b].preds| - i
  {
    if i == |f.blocks[b].preds| then f
    else SplitPreds(SplitSlot(f, b, i), b, i + 1)
  }

  /** The inner loop passes over a slot whose predecessor does not
      branch. */
  lemma SplitPredsSkip(f: Func, b: nat, i: nat)
    requires WellFormed(f) && b < |f.blocks| && i < |f.blocks[b].preds|
    requires !Branches(f, f.blocks[b].preds[i])
    ensures SplitPreds(f, b, i) == SplitPreds(f, b, i + 1)
  {
    assert f.blocks[b].preds[i] < |f.blocks|;
  }

  /** The inner loop splits the edge in a slot whose predecessor
      branches, then goes on from the next slot. */
  lemma SplitPredsStep(f: Func, b: nat, i: nat)
    requires WellFormed(f) && b < |f.blocks| && i < |f.blocks[b].preds|
    requires Branches(f, f.blocks[b].preds[i])
    ensures SplitPreds(f, b, i) == SplitPreds(SplitEdge(f, b, i), b, i + 1)
  {
  }

  /** One iteration of the outer loop: blocks with at most one predecessor,
      and blocks without a non-memory phi, are skipped. */
  function Visit(f: Func, b: nat): (r: Func)
    requires WellFormed(f) && b < |f.blocks|
    ensures WellFormed(r) && |r.blocks| >= |f.blocks|
  {
    if |f.blocks[b].preds| <= 1 then f
    else if !HasNonMemPhi(f.blocks[b].values) then f
    else SplitPreds(f, b, 0)
  }

  /** The outer loop from block `k` up to (excluding) block `n`, where `n`
      is the number of blocks at entry: blocks appended meanwhile are not
      visited. */
  function Scan(f: Func, n: nat, k: nat): (r: Func)
    requires WellFormed(f) && k <= n <= |f.blocks|
    ensures WellFormed(r) && |r.blocks| >= |f.blocks|
    decreases n - k
  {
    if k == n then f else Scan(Visit(f, k), n, k + 1)
  }

  /** The outer loop visits block `k` and goes on from the next block. */
  lemma ScanStep(f: Func, n: nat, k: nat)
    requires WellFormed(f) && k < n <= |f.blocks|
    ensures Scan(f, n, k) == Scan(Visit(f, k), n, k + 1)
  {
  }

  /** Visiting an eligible block runs the inner loop over all its slots;
      visiting any other block changes nothing. */
  lemma VisitCases(f: Func, b: nat)
    requires WellFormed(f) && b < |f.blocks|
    ensures Eligible(f, b) ==> Visit(f, b) == SplitPreds(f, b, 0)
    ensures !Eligible(f, b) ==> Visit(f, b) == f
  {
  }

  /** The pass: split every critical edge that enters a block holding a
      non-memory phi. */
  function CriticalPass(f: Func): (r: Func)
    requires WellFormed(f)
    ensures WellFormed(r) && |r.blocks| >= |f.blocks|
  {
    Scan(f, |f.blocks|, 0)
  }
}
