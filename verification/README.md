# Critical-edge splitting, modelled in Dafny

This project models `critical`, the SSA pass of the Go compiler that splits
critical edges before register allocation. A critical edge goes from a block
with more than one out-edge to a block with more than one in-edge. The pass
visits every block `b` present when it starts. A block with at most one
predecessor is skipped. So is a block with no phi, or with only phis of the
memory type. For the other blocks, every predecessor `c` whose kind is not
`BlockPlain` gets split:

- a new plain block `d` is appended with `d.Preds = [c]` and `d.Succs = [b]`;
- slot `i` of `b.Preds` is overwritten with `d`;
- the first `b` in `c.Succs` becomes `d`.

## How the model is built

- `Cfg` is the graph, held as an arena. `Func` holds `blocks: seq<Block>`. A
  block reference (`*Block` in Go) is a `nat` index into that sequence. A
  `Block` has a `kind` (`Plain` or an opaque `Other(tag)`), `preds`, `succs`
  and `values`. A `Value` keeps only two flags: `isPhi` (its op is the phi
  op) and `isMem` (its type is the memory type).
- `NewBlock` appends a fresh block and returns its index, `|blocks|`, so
  existing blocks never move.
- `WellFormed(f)` says every edge names an existing block. It is a graph
  invariant the rest of the compiler keeps and the pass does not check; the
  model takes it as a precondition.
- `Critical` writes the pass as pure functions that thread the function
  through the loops: `CriticalPass` → `Scan` (the outer `range f.Blocks`,
  bounded by the block count at entry) → `Visit` (one outer iteration) →
  `SplitPreds` (the inner `range b.Preds`) → `SplitSlot` (one inner
  iteration, which skips plain predecessors) → `SplitEdge` (one split) →
  `ReplaceFirst` (the loop over `c.Succs` that stops at the first match,
  found by `IndexFrom`).
- `CriticalEffect` computes, from the input alone, the exact predecessor
  lists and the positions and contents of the appended blocks; the
  successor lists of the original blocks are shown to be kept or routed
  slot by slot (each slot keeps its target or names an appended block that
  leads to it), with no closed form for the whole list. The reference
  definitions are:
  - `Base(f0, b)` is the index of the first block inserted for `b`;
  - `CountBranching` gives the rank of a slot among the split slots;
  - `NewPred(f0, b, j)` is what slot `j` of `b.preds` holds afterwards.

  The loop invariant `Stage` is then proved across both loops.
- `CriticalProperties`, `CriticalCorrespondence` and `CriticalReach` read the
  promised properties off that layout.
- `CriticalScenarios` holds two worked examples.

Where the description of the pass and the code differ, the model follows the
code. The postcondition is often phrased as "every predecessor has exactly
one successor". The code only tests `c.Kind == BlockPlain`, so the model
states it in terms of the kind (`NoCriticalIntoPhi`).

## Model

| member | source | states |
|---|---|---|
| Cfg.NewBlock | src/cmd/internal/ssa/critical.go:36 | a fresh block of the requested kind with no edges and no values is appended at index `|blocks|`; every existing block keeps its index and contents, and well-formedness is kept |
| Critical.IsNonMemPhi | src/cmd/internal/ssa/critical.go:19 | a value forces a split when its op is the phi op and its type is not the memory type |
| Critical.HasNonMemPhi | src/cmd/internal/ssa/critical.go:17-23 | true exactly when some value of the block is a phi whose type is not the memory type |
| Critical.Eligible | src/cmd/internal/ssa/critical.go:12-27 | a block has its incoming edges examined when it has more than one predecessor and a non-memory phi |
| Critical.Branches | src/cmd/internal/ssa/critical.go:31 | an edge out of a block is split when that block exists and its kind is not `BlockPlain` |
| Critical.IndexFrom | src/cmd/internal/ssa/critical.go:43-47 | the scan of `c.Succs` from position `j` stops inside the list only on an entry equal to the target, and otherwise runs to the end |
| Critical.IndexFromFirst | src/cmd/internal/ssa/critical.go:43-47 | the scan passes over no match: every entry before the stopping point differs from the target |
| Critical.IndexOfFirst | src/cmd/internal/ssa/critical.go:43-47 | from the front, the scan stops at the first occurrence, and runs to the end exactly when the target does not occur |
| Critical.ReplaceFirst | src/cmd/internal/ssa/critical.go:43-48 | the list keeps its length |
| Critical.ReplaceFirstAt | src/cmd/internal/ssa/critical.go:43-48 | when `k` is the first position holding `x`, the result is the list with exactly slot `k` set to `y` |
| Critical.ReplaceFirstAbsent | src/cmd/internal/ssa/critical.go:43-48 | if `b` does not occur in `c.Succs`, the list is left unchanged |
| Critical.ReplaceFirstCounts | src/cmd/internal/ssa/critical.go:43-48 | one occurrence of `x` is traded for one of `y`, and no other count changes |
| Critical.SplitEdge | src/cmd/internal/ssa/critical.go:36-48 | one block `Plain, [c], [b], no values` is appended at index `|blocks|`; `b.preds` changes only in slot `i`, to the new block; `c.succs` has its first `b` replaced; every other list, kind and value is unchanged |
| Critical.SplitSlot | src/cmd/internal/ssa/critical.go:30-41 | one inner iteration appends a block and repoints slot `i` to it exactly when the predecessor is not plain, and otherwise leaves the slot alone; kinds are unchanged |
| Critical.SplitPreds | src/cmd/internal/ssa/critical.go:30-49 | the inner loop keeps the graph well-formed, only appends blocks, and keeps the length of `b.preds` |
| Critical.SplitPredsSkip | src/cmd/internal/ssa/critical.go:30-33 | a slot whose predecessor is plain is passed over with no effect on the function |
| Critical.SplitPredsStep | src/cmd/internal/ssa/critical.go:34-49 | a slot whose predecessor is not plain is split before the loop goes on to the next slot |
| Critical.Visit | src/cmd/internal/ssa/critical.go:12-49 | one outer iteration keeps the graph well-formed and only appends blocks |
| Critical.Scan | src/cmd/internal/ssa/critical.go:11 | the outer loop over the blocks present at entry keeps the graph well-formed and only appends blocks |
| Critical.CriticalPass | src/cmd/internal/ssa/critical.go:10-51 | the pass keeps the graph well-formed and never removes a block |
| CriticalEffect.SplitEdgeRouted | src/cmd/internal/ssa/critical.go:38-48 | after one split, each successor slot is either unchanged or now names the new block, which leads from the slot's owner to the slot's old target |
| CriticalEffect.RoutedTrans | src/cmd/internal/ssa/critical.go:30-49 | rerouting composes across successive splits, because a split never touches blocks appended earlier |
| CriticalEffect.CountBranchingFrame | src/cmd/internal/ssa/critical.go:30-33 | the number of slots to split in a range depends only on whether the blocks those slots name branch |
| CriticalEffect.CountBranchingPositive | src/cmd/internal/ssa/critical.go:30-36 | one branching slot in a range makes that range insert at least one block |
| CriticalEffect.BaseMonotone | src/cmd/internal/ssa/critical.go:11 | the index of the next inserted block never decreases along the scan |
| CriticalEffect.CountBranchingSplit | src/cmd/internal/ssa/critical.go:30-36 | the number of split slots in adjacent ranges adds up |
| CriticalEffect.SplitEdgeCount | src/cmd/internal/ssa/critical.go:36-48 | a split leaves the later slots of `b.Preds`, and whether their blocks branch, as they were |
| CriticalEffect.SplitPredsSize | src/cmd/internal/ssa/critical.go:30-40 | the inner loop from slot `i` appends exactly one block per later slot whose predecessor branches |
| CriticalEffect.SplitPredsSlot | src/cmd/internal/ssa/critical.go:30-41 | a slot before `i` is kept; a later slot with a branching predecessor now names the block appended for it (`|f|` plus its rank); every other slot keeps its predecessor |
| CriticalEffect.SplitPredsFrameAt | src/cmd/internal/ssa/critical.go:30-48 | the inner loop keeps an existing block's kind, values and successor count, and its pred list unless it is `b` |
| CriticalEffect.SplitPredsFrame | src/cmd/internal/ssa/critical.go:30-48 | the inner loop leaves the pred lists of other blocks, every kind and value list, and every successor count unchanged |
| CriticalEffect.SplitEdgeKeeps | src/cmd/internal/ssa/critical.go:36-48 | a split leaves every block other than `b` and `c` exactly as it was |
| CriticalEffect.SplitPredsKeeps | src/cmd/internal/ssa/critical.go:30-48 | a block that is neither `b` nor a predecessor in a slot still to visit comes out of the inner loop untouched |
| CriticalEffect.SplitPredsNewShape | src/cmd/internal/ssa/critical.go:30-40 | every block the inner loop appends is plain, holds no values, has one branching predecessor taken from `b.Preds`, and has `[b]` as its successors |
| CriticalEffect.SplitPredsFirstPlacement | src/cmd/internal/ssa/critical.go:35-40 | when slot `i` is split, the first appended block is `Plain, [ps[i]], [b], no values` |
| CriticalEffect.SplitPredsPlacement | src/cmd/internal/ssa/critical.go:36-40 | the block for branching slot `j` sits at `|f|` plus the number of branching slots before `j`, and is `Plain, [ps[j]], [b], no values` |
| CriticalEffect.SplitPredsFrozen | src/cmd/internal/ssa/critical.go:36-48 | blocks appended earlier are untouched; each block the inner loop appends is plain, holds no values, has one branching predecessor taken from `b.Preds` and has `[b]` as its successors |
| CriticalEffect.SplitPredsRouted | src/cmd/internal/ssa/critical.go:42-48 | after the inner loop, every successor slot is kept or routed through one of its new blocks |
| CriticalEffect.StageInit | src/cmd/internal/ssa/critical.go:11 | before the first iteration the loop invariant holds with nothing done |
| CriticalEffect.PredsDoneKept | src/cmd/internal/ssa/critical.go:11-49 | a block already visited keeps its final pred list and its inserted blocks while later blocks are visited |
| CriticalEffect.StageSkip | src/cmd/internal/ssa/critical.go:12-27 | visiting a block with at most one predecessor, or without a non-memory phi, changes nothing and keeps the invariant |
| CriticalEffect.StageBranches | src/cmd/internal/ssa/critical.go:29-33 | when the outer loop reaches block `k`, its pred list is the original one, and each of those preds is plain exactly when it was plain in the input |
| CriticalEffect.StageSplitFrame | src/cmd/internal/ssa/critical.go:29-49 | visiting an eligible block grows the function to `Base(f0, k+1)` and keeps kinds, values, successor counts and the pred lists of later blocks |
| CriticalEffect.StageSplitEarlier | src/cmd/internal/ssa/critical.go:29-49 | visiting an eligible block keeps every earlier block done |
| CriticalEffect.StageSplitCurrent | src/cmd/internal/ssa/critical.go:29-49 | after visiting eligible block `k`, each slot of `k.preds` holds `NewPred`, and each split slot's block leads from the old predecessor to `k` |
| CriticalEffect.StageSplitEdges | src/cmd/internal/ssa/critical.go:36-48 | after visiting an eligible block, every appended block has the inserted shape and every original successor slot is kept or routed |
| CriticalEffect.StageSplit | src/cmd/internal/ssa/critical.go:29-49 | visiting an eligible block keeps the loop invariant |
| CriticalEffect.StageStep | src/cmd/internal/ssa/critical.go:11-49 | one iteration of the outer loop, skipped or not, keeps the loop invariant |
| CriticalEffect.ScanStage | src/cmd/internal/ssa/critical.go:11 | the outer loop, run to the entry block count, reaches the final stage |
| CriticalEffect.CriticalPassStage | src/cmd/internal/ssa/critical.go:10-51 | the result of the pass has exactly the layout computed from the input |
| CriticalProperties.SkippedBlockUntouched | src/cmd/internal/ssa/critical.go:12-27 | a block with at most one predecessor, or without a non-memory phi, keeps its pred list, and no block is inserted in front of it |
| CriticalProperties.PlainEdgeKept | src/cmd/internal/ssa/critical.go:30-33 | a slot whose predecessor is plain still holds it afterwards, and that plain block's successor list is unchanged |
| CriticalProperties.PredSlotRewritten | src/cmd/internal/ssa/critical.go:29-41 | a pred slot changes exactly when it carries an edge from a branching block into a block with several preds and a non-memory phi; the list keeps its length; a changed slot names an appended block `Plain, [c], [b], no values` |
| CriticalProperties.InsertedBlockShape | src/cmd/internal/ssa/critical.go:35-40 | every appended block is plain and holds no values; its one predecessor is an original branching block; its one successor is an original eligible block; that predecessor was a predecessor of that successor in the input, so the block sits on an input edge |
| CriticalProperties.OriginalBlocksKept | src/cmd/internal/ssa/critical.go:11 | original blocks keep index, kind, values and list lengths; the function grows to `Base(f0, n)`, one block per split slot |
| CriticalProperties.SuccSlotRouted | src/cmd/internal/ssa/critical.go:42-48 | each successor slot of an original block keeps its target, or names an appended block leading from that block to the old target |
| CriticalProperties.CriticalPassPostcondition | src/cmd/internal/ssa/critical.go:7-9 | afterwards no block with more than one predecessor and a non-memory phi has a predecessor whose kind is not `BlockPlain` |
| CriticalProperties.SplitPredsNoop | src/cmd/internal/ssa/critical.go:30-33 | the inner loop changes nothing when every remaining predecessor is plain |
| CriticalProperties.ScanNoop | src/cmd/internal/ssa/critical.go:11-33 | the outer loop changes nothing on a function without critical edges into phi blocks |
| CriticalProperties.CriticalPassIdentityIff | src/cmd/internal/ssa/critical.go:12-36 | the pass returns its input unchanged exactly when there is no critical edge into a block with several preds and a non-memory phi |
| CriticalProperties.CriticalPassIdempotent | src/cmd/internal/ssa/critical.go:7-9 | a second run on the result creates no block and changes nothing |
| CriticalProperties.InsertedBlocksDistinct | src/cmd/internal/ssa/critical.go:36-41 | two different rewritten slots name two different appended blocks: one block per critical edge |
| CriticalCorrespondence.CountFresh | src/cmd/internal/ssa/critical.go:36 | the index of a freshly appended block occurs in no existing edge list |
| CriticalCorrespondence.CountUpdate | src/cmd/internal/ssa/critical.go:41 | overwriting one pred slot moves one count from the old entry to the new one |
| CriticalCorrespondence.SplitEdgePredCount | src/cmd/internal/ssa/critical.go:41 | after a split, only `b.Preds` changes among the original blocks, trading one occurrence of `c` for one of `d` |
| CriticalCorrespondence.SplitEdgeSuccCount | src/cmd/internal/ssa/critical.go:43-48 | after a split, when `b` is among `c.Succs`, only `c.Succs` changes among the original blocks, trading one occurrence of `b` for one of `d` |
| CriticalCorrespondence.PredListsSucc | src/cmd/internal/ssa/critical.go:30 | under correspondence, every block in `b.Preds` lists `b` among its successors, so the search over `c.Succs` finds it |
| CriticalCorrespondence.SplitEdgePairNew | src/cmd/internal/ssa/critical.go:39-48 | after a split, the new block is recorded once in `c.succs` against its pred `c`, and once in `b.preds` against its succ `b` |
| CriticalCorrespondence.SplitEdgePairOld | src/cmd/internal/ssa/critical.go:41-48 | after a split, pairs of original blocks still correspond; `(b, c)` loses one edge on each side |
| CriticalCorrespondence.SplitEdgeCorresponds | src/cmd/internal/ssa/critical.go:36-48 | one split keeps pred/succ correspondence |
| CriticalCorrespondence.SplitPredsCorresponds | src/cmd/internal/ssa/critical.go:30-49 | the inner loop keeps pred/succ correspondence, parallel edges included |
| CriticalCorrespondence.ScanCorresponds | src/cmd/internal/ssa/critical.go:11-49 | the outer loop keeps pred/succ correspondence |
| CriticalCorrespondence.CriticalPassCorresponds | src/cmd/internal/ssa/critical.go:38-48 | if `c` occurs in `b.Preds` as often as `b` in `c.Succs` for every pair before the pass, the same holds afterwards for all blocks, new ones included |
| CriticalCorrespondence.SplitEdgeMissingSucc | src/cmd/internal/ssa/critical.go:41-48 | if `b` is missing from `c.Succs`, the split still repoints `b.Preds[i]` to `d`, but leaves `c.Succs` unchanged: a one-sided edge `c -> d` |
| CriticalReach.EdgeLifted | src/cmd/internal/ssa/critical.go:38-48 | every edge of the input survives as itself or as a two-hop route through an appended block |
| CriticalReach.LiftPath | src/cmd/internal/ssa/critical.go:38-48 | a walk of the input between original blocks becomes a walk of the result with the same ends |
| CriticalReach.EdgeProjected | src/cmd/internal/ssa/critical.go:38-48 | an edge out of an original block in the result is either an input edge, or enters an appended block whose only successor was an input successor |
| CriticalReach.ProjectPath | src/cmd/internal/ssa/critical.go:38-48 | a walk of the result between original blocks becomes a walk of the input with the same ends |
| CriticalReach.ReachabilityPreserved | src/cmd/internal/ssa/critical.go:10-51 | between original blocks, reachability before and after the pass is the same, in both directions |
| CriticalScenarios.BranchIntoPhiEdge | src/cmd/internal/ssa/critical.go:36-48 | on the example graph, splitting the edge 0 -> 1 appends block 4 `Plain, [0], [1]` and repoints both ends |
| CriticalScenarios.BranchIntoPhiVisit | src/cmd/internal/ssa/critical.go:29-49 | on the example graph, visiting block 1 splits the edge from branching block 0 and keeps the edge from plain block 3 |
| CriticalScenarios.BranchIntoPhiSplit | src/cmd/internal/ssa/critical.go:10-51 | a branch into a merge block with a phi gets one block on that edge; the edge from the plain block and the one-pred block stay as they were |
| CriticalScenarios.MemPhiNoSplit | src/cmd/internal/ssa/critical.go:17-27 | the same graph with only a memory phi is left unchanged |

## Left out

- `Func.NewBlock` internals (ID allocation, the block's other fields): that code is not part of this model. It is modelled as "append a fresh block of the given kind and return its index".
- What `Op`, `Type` and `TypeMem` are: each value is reduced to the two tests the pass makes, `v.Op == OpPhi` and `v.Type != TypeMem`. Phi arguments are not modelled. Keeping them aligned with `b.Preds` is stated as "slot positions are preserved".
- Block kinds other than `BlockPlain` are opaque tags. Only "is it plain" matters to the pass.
- Pointer identity of blocks becomes index equality in the arena. The model requires `WellFormed` (no edge names a missing block). In Go nothing enforces this: a `nil` entry in `b.Preds` makes the read of `c.Kind` panic, and an entry naming a block outside `f.Blocks` is still read and has its `Succs` rewritten. Neither case is modelled; the nil-pointer panic is left out.
- Successor lists as a whole: for the original blocks, the model proves each slot is kept or routed through an appended block (`CriticalProperties.SuccSlotRouted`), and each single split replaces exactly the first match (`Critical.ReplaceFirstAt`), but it gives no closed form saying which parallel slot receives which appended block after the whole pass.
- Behaviour when pred/succ correspondence is already broken: only `SplitEdgeMissingSucc` describes it. The correspondence lemmas take correspondence as a precondition.
- Parallel edges: the model keeps the code's "replace the first match" behaviour. Correspondence is counted per pair of blocks, so each split consumes the next remaining occurrence.
- Register allocation, SSA construction and the rest of the compiler: they only produce or consume the graph.
- Concurrency: the pass is single-threaded and owns its `Func` exclusively.
- Critical.ReplaceFirst: its own contract states only that the length is kept; which slot changes is stated by `Critical.ReplaceFirstAt`, `Critical.ReplaceFirstAbsent` and `Critical.ReplaceFirstCounts`.
- Critical.CriticalPass, Critical.Scan, Critical.Visit, Critical.SplitPreds: their own contracts state only well-formedness and growth. Dafny modules cannot depend on each other in a cycle, so the full effect is proved in separate lemmas (`CriticalEffect.CriticalPassStage` and the `CriticalProperties` lemmas).
