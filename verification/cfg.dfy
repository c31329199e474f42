/** The control-flow graph of one SSA function, as an arena of blocks.

    A `*Block` pointer of the compiler becomes a `nat` index into
    `Func.blocks`; appending a block gives it the next free index, so the
    indices of existing blocks never change.
 */
module Cfg {

  /** Block kinds. The pass only asks whether a kind is `BlockPlain`; every
      other kind (if, call, exit, ...) is an opaque tag. */
  datatype Kind = Plain | Other(tag: nat)

  /** A value, reduced to the two facts the pass inspects: whether its op is
      the phi op, and whether its type is the memory pseudo-type. */
  datatype Value = Value(isPhi: bool, isMem: bool)

  /** A basic block: kind, predecessor list, successor list and values. */
  datatype Block = Block(kind: Kind, preds: seq<nat>, succs: seq<nat>, values: seq<Value>)

  /** A function owns its blocks, in creation order. */
  datatype Func = Func(blocks: seq<Block>)

  /** Every entry of `s` names one of the first `n` blocks. */
  predicate RefsBelow(s: seq<nat>, n: nat)
  {
    forall k :: 0 <= k < |s| ==> s[k] < n
  }

  /** Every predecessor and successor names a block of the function: the
      arena counterpart of a graph without dangling block pointers. */
  predicate WellFormed(f: Func)
  {
    forall x :: 0 <= x < |f.blocks| ==>
      RefsBelow(f.blocks[x].preds, |f.blocks|) && RefsBelow(f.blocks[x].succs, |f.blocks|)
  }

  /** Number of occurrences of `x` in `s`. */
  function Count(s: seq<nat>, x: nat): nat
  {
    multiset(s)[x]
  }

  /** Pred/succ correspondence: for every pair of blocks, `c` occurs in
      `b.preds` exactly as often as `b` occurs in `c.succs`. Parallel edges
      are counted once per edge. */
  ghost predicate Corresponds(f: Func)
  {
    forall b, c :: 0 <= b < |f.blocks| && 0 <= c < |f.blocks| ==>
      Count(f.blocks[b].preds, c) == Count(f.blocks[c].succs, b)
  }

  /** The part of `Func.NewBlock` the pass relies on: a fresh block of the
      given kind, with no edges and no values, appended after every existing
      block; the pair holds the new function and the new block's index. */
  function NewBlock(f: Func, kind: Kind): (r: (Func, nat))
    ensures r.1 == |f.blocks| && |r.0.blocks| == |f.blocks| + 1
    ensures forall x :: 0 <= x < |f.blocks| ==> r.0.blocks[x] == f.blocks[x]
    ensures r.0.blocks[r.1] == Block(kind, [], [], [])
    ensures WellFormed(f) ==> WellFormed(r.0)
  {
    (Func(f.blocks + [Block(kind, [], [], [])]), |f.blocks|)
  }
}
