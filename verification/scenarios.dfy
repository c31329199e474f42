/** Worked examples: small graphs run through the pass. */
module CriticalScenarios {
  import opened Cfg
  import opened Critical
  import opened CriticalProperties

  /** Block 0 branches to 1 and 2; block 1 merges 0 and the plain block 3
      and holds a non-memory phi. */
  function BranchIntoPhi(): Func
  {
    Func([
      Block(Other(1), [], [1, 2], []),
      Block(Other(2), [0, 3], [], [Value(true, false)]),
      Block(Other(2), [0], [], []),
      Block(Plain, [], [1], [])
    ])
  }

  /** The expected result: block 4 sits on the edge 0 -> 1. */
  function BranchIntoPhiResult(): Func
  {
    Func([
      Block(Other(1), [], [4, 2], []),
      Block(Other(2), [4, 3], [], [Value(true, false)]),
      Block(Other(2), [0], [], []),
      Block(Plain, [], [1], []),
      Block(Plain, [0], [1], [])
    ])
  }

  /** Every edge of the example names one of its four blocks. */
  lemma BranchIntoPhiWellFormed()
    ensures WellFormed(BranchIntoPhi())
  {
    var f0 := BranchIntoPhi();
    assert RefsBelow(f0.blocks[0].succs, 4) && RefsBelow(f0.blocks[1].preds, 4);
  }

  /** Splitting slot 0 of block 1 inserts block 4 on the edge 0 -> 1. */
  lemma BranchIntoPhiEdge()
    ensures WellFormed(BranchIntoPhi())
    ensures SplitEdge(BranchIntoPhi(), 1, 0) == BranchIntoPhiResult()
  {
    BranchIntoPhiWellFormed();
    var f0, f1 := BranchIntoPhi(), BranchIntoPhiResult();
    assert ReplaceFirst([1, 2], 1, 4) == [4, 2] by {
      assert IndexFrom([1, 2], 1, 0) == 0;
    }
    var g := SplitEdge(f0, 1, 0);
    assert g.blocks[0] == f1.blocks[0];
    assert g.blocks[1] == f1.blocks[1];
    assert g.blocks[2] == f1.blocks[2];
    assert g.blocks[3] == f1.blocks[3];
    assert g.blocks == f1.blocks;
  }

  /** Visiting block 1: its first edge comes from a branching block and is
      split; its second comes from the plain block 3 and is kept. */
  lemma BranchIntoPhiVisit()
    ensures WellFormed(BranchIntoPhi())
    ensures Visit(BranchIntoPhi(), 1) == BranchIntoPhiResult()
  {
    var f0, f1 := BranchIntoPhi(), BranchIntoPhiResult();
    BranchIntoPhiEdge();
    assert HasNonMemPhi(f0.blocks[1].values);
    SplitPredsStep(f0, 1, 0);
    SplitPredsSkip(f1, 1, 1);
    assert SplitPreds(f1, 1, 2) == f1;
  }

  /** One block is inserted on the edge 0 -> 1; the edge 3 -> 1 from the
      plain block is left alone, and so is block 2 with one predecessor. */
  lemma BranchIntoPhiSplit()
    ensures WellFormed(BranchIntoPhi())
    ensures CriticalPass(BranchIntoPhi()) == BranchIntoPhiResult()
  {
    var f0, f1 := BranchIntoPhi(), BranchIntoPhiResult();
    BranchIntoPhiVisit();
    assert Visit(f0, 0) == f0;
    assert Scan(f0, 4, 0) == Scan(f1, 4, 2);
    assert Visit(f1, 2) == f1 && Visit(f1, 3) == f1;
    assert Scan(f1, 4, 2) == f1;
  }

  /** The same graph with a memory-typed phi in block 1. */
  function BranchIntoMemPhi(): Func
  {
    Func([
      Block(Other(1), [], [1, 2], []),
      Block(Other(2), [0, 3], [], [Value(true, true)]),
      Block(Other(2), [0], [], []),
      Block(Plain, [], [1], [])
    ])
  }

  /** A memory phi does not call for a split: nothing changes. */
  lemma MemPhiNoSplit()
    ensures WellFormed(BranchIntoMemPhi())
    ensures CriticalPass(BranchIntoMemPhi()) == BranchIntoMemPhi()
  {
    var f := BranchIntoMemPhi();
    assert !HasNonMemPhi(f.blocks[1].values);
    assert NoCriticalIntoPhi(f);
    CriticalPassIdentityIff(f);
  }
}
