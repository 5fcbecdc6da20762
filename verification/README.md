# GSIM in Dafny

GSIM compiles FIRRTL circuits to a C++ simulator. This project models the parts of it whose
correctness is not visible from any one function, and proves what they are for:

- **Dense parallel executor** (`Dense*.dfy`). MTasks form a graph whose edges lead to larger
  ids; each is owned by one worker, which walks its table in id order. The generator reduces
  the graph, groups cross-worker edges into parity tokens, places the tokens in 64-slot lines
  and derives local prerequisites. At run time a stalled worker may run entries of a bounded
  window out of order. The protocol is a transition system in which every token load, token
  store, task body and head update is one step; `DenseRuntime` is the same protocol as a class
  over the token array, the heads and the done bits. Any interleaving of any run of pooled and
  serial cycles ends with the variables of the serial simulation; no MTask starts before all
  its ancestors in the unreduced graph have ended, none runs twice, and every schedule in which
  each worker keeps retrying its head ends. The counter fallback (`DenseCounter*.dfy`) keeps
  the order of dependent tasks if and only if an even number of serial cycles precedes every
  pooled one, or no task has a predecessor.
- **Event-driven step** (`ActiveMask`, `Event*.dfy`). Supernodes run when their
  active bit is set, from a copy of the flag word; changed nodes set the bits of their readers
  through packed masks. Every run of input changes and steps leaves the values that evaluating
  every supernode in order would leave; a step evaluates exactly the supernodes that are always
  active, flagged, or activated earlier in the step, and leaves exactly the flags that are due.
- **Lowering of `when`** (`WhenTree`, `WhenLowering`). Running a node's assignment trees gives
  the conditional last connect of the module body.
- **Array writes** (`ArrayWrites`). Flat row-major indices, sub-array splitting and the write
  list give last-write-wins contents.
- **Statement trees** (`Stmt*.dfy`, `Reorder`). Merging all members of a supernode into one
  statement tree keeps the meaning of running them one after another; member reordering yields
  the least topological order by rank.
- **Expression passes** (`BitMath`, `Narrow`, `BitSlices`, `Common*.dfy`). Narrowing keeps the
  used bits; bit slices are cut and joined without changing a bit. Merging common expressions,
  from the hash keys to the replaced trees, keeps all remaining values; it finds exactly the
  nodes that have one value in every evaluation, whatever outputs and next values of registers
  hold, and merges those in groups worth merging.
- **Emission and parsing** (`Reset*.dfy`, `EmitFiles`, `EmitParallel`, `ParseTasks`,
  `ParseQueue`). Reset chunks, captured parallel emission and the parse queue refine their
  sequential counterparts under every schedule.

Four promises turn out to hold only under a condition:

- The dependency counters of the fallback are never re-phased, although a comment
  (src/cppEmitterDenseExec.cpp:938) says that even/odd alternation needs no reset. Serial and
  pooled cycles mix when the worker pool is started lazily and `startMtWorkerPool` is called
  after some steps. Over every such history `DenseCounterRuns.CounterResidue` gives the exact
  value of each counter modulo 2^32, and `DenseCounterOrder.OrderKeptIff` the exact condition:
  every task is entered after all its predecessors have signalled, in every pooled cycle, if and
  only if an even number of serial cycles precedes each pooled cycle or no task has a
  predecessor. In the first pooled cycle after an odd number of serial ones a worker's first
  task may run before its predecessors (`DenseCounterRuns.OddSerialReleasesEarly`); later a
  task may spin for ever (`DenseCounterRuns.OutOfReachSpins`). That the number of serial cycles
  is even in the end is not enough (`DenseCounterRuns.EvenCountIsNotEnough`).
- Narrowing an unsigned `cvt` to w bits asks its operand for w - 1 bits. That is enough exactly
  when w exceeds the operand's width, the operand is a node or literal, or bit w - 1 of the
  operand is zero: `Narrow.CvtExact`, `Narrow.CvtOfNotCondition`.
- A node that is not up for merging takes part in expression matching when two mergeable nodes
  hash to its id. Representatives have the values of their nodes if and only if no last match
  of the loop involves a node with a value of its own (`CommonMatch.AgreeIff`). Inputs and
  register sources match nothing once alias analysis has run, so only arrays disturb
  (`CommonMatch.OnlyArraysDisturb`): their left sides are never compared.
  `CommonExamples.CollisionIsWrong` is such a graph. An output or the next value of a register
  that matches has the right value, but its node may be removed (`CommonReplace.RemovedIff`,
  `CommonExamples.OutputIsRemoved`).
- Splitting a reset body tests the conditions of the open blocks again in the next function; a
  comment (src/cppEmitterReset.cpp:110-115) says that this yields the same guard context. It
  does not when a register is its own reset, is assigned ahead of a split, and a statement of
  the block comes after it: `ResetRight.ResetRightIff` is the exact condition over all reset
  bodies and chunk sizes, `ResetRight.OwnResetIsWrong` the failing family.

`dafny verify dfyconfig.toml` checks the whole project.

## Model

| member | source | states |
|---|---|---|
| `DenseDag.ReduceTransitive` | src/cppEmitterDenseSchedule.cpp:919-981 | keeps exactly the edges without an alternative path through the effective graph, hands back a graph with a non-forward edge or at most one task unchanged, and counts what it removed |
| `DenseDag.BuildEffective` | src/cppEmitterDenseSchedule.cpp:924-940 | the graph plus an edge from each task to the next one of its worker |
| `DenseDag.ReductionKeepsReach` | scripts/check-mt-dense-lookahead.py:95-108 | for every forward graph the reduction preserves reachability of every pair, in both directions |
| `DenseDag.KeptEdgeIsNeeded` | scripts/check-mt-dense-lookahead.py:103-107 | no graph without a kept edge still orders its two ends |
| `DenseLayout.BuildTables` | src/cppEmitterDenseExec.cpp:143-150 | every task stands at its recorded position in its owner's table, and tables ascend by id |
| `DenseLayout.TableOrder` | src/cppEmitterDenseSchedule.cpp:634-651 | on one worker, id order and table order agree |
| `DenseLayout.CollectSources` | src/cppEmitterDenseSchedule.cpp:653-677 | per (destination, producer owner) exactly the sources of that owner, ascending |
| `DenseLayout.BuildGroups` | src/cppEmitterDenseSchedule.cpp:688-722 | one group per (destination, producer owner) in key order, covering every cross-worker edge |
| `DenseLayout.FillBank` | src/cppEmitterDenseSchedule.cpp:738-772 | the groups of one worker pair get consecutive slots from the start of the bank, the next bank begins at the next free line, and no other group is touched |
| `DenseLayout.AssignSlots` | scripts/check-mt-dense-lookahead.py:166-180 | a group's slot is 64 times the lines of the earlier banks plus its place in its own bank, so slots are distinct and no 64-slot line serves two (producer, consumer) worker pairs; the count is 64 times all lines, at least 64 |
| `DenseLayout.BuildLinks` | src/cppEmitterDenseSchedule.cpp:808-809 | a task waits for exactly the slots of the groups it is the destination of and stores exactly those of the groups it publishes |
| `DenseLayout.BuildDirect` | src/cppEmitterDenseExec.cpp:154-170 | local prerequisites are exactly the positions of same-worker predecessors |
| `DenseLayout.AddSiblings` | src/cppEmitterDenseExec.cpp:171-187 | a publisher also waits locally for exactly the other sources of its groups |
| `DensePlan.BuildTokens` | src/cppEmitterDenseSchedule.cpp:624-841 | tables, groups, slots and links together are well formed |
| `DensePlan.BuildLookahead` | src/cppEmitterDenseExec.cpp:125-210 | tokens exist exactly for the cross-worker edges without another path, one per destination and producing worker; a task waits on its own worker exactly for the sources of its edges without another path and, when it is the last source of a token, for the other ones; so every pair the task graph orders is ordered |
| `DensePlan.BuildStrict` | src/cppEmitterDenseSchedule.cpp:915-918 | with table order enforced, tokens exist exactly for the cross-worker edges that neither the other ones nor the worker chains carry, and every pair the task graph orders is ordered |
| `DensePlan.CoversReach` | src/cppEmitterDenseExec.cpp:125-141 | covering every edge of the task graph covers every path of it |
| `DenseTask.Commute` | src/cppEmitterDenseExec.cpp:1136-1138 | tasks that do not touch each other's variables commute |
| `DenseTask.SerialEquivalence` | src/cppEmitterDenseExec.cpp:1136-1138 | any order of all tasks whose inversions are independent ends like tasks 0..n-1 in order |
| `DenseProtocol.InvStep` | src/cppEmitterDenseExec.cpp:804-881 | every enabled step of every worker keeps the invariant on tokens, heads, done bits, log and variables |
| `DenseProtocol.ReadyMeansPredsLogged` | src/cppEmitterDenseExec.cpp:838-848 | a worker inside a body has seen every enforced predecessor end |
| `DenseCycle.InitInv` | src/cppEmitterDenseExec.cpp:551-580 | a cycle that starts with all live tokens opposite to its target starts in the invariant |
| `DenseCycle.InvRun` | src/cppEmitterDenseExec.cpp:804-881 | every reachable state satisfies the invariant |
| `DenseCycle.StartsAfterAncestors` | src/cppEmitterDenseExec.cpp:125-210 | in every reachable state a starting MTask has not run in this cycle and all its ancestors in the unreduced graph have ended in it |
| `DenseCycle.BusyBodiesDoNotConflict` | src/cppEmitterDenseExec.cpp:804-881 | bodies that are running at the same time never touch each other's variables |
| `DenseCycle.PooledEqualsSerial` | src/cppEmitterDenseExec.cpp:552-580 | under any interleaving a finished pooled cycle has the variables of tasks 0..n-1 run in order, ran each task once and left all live tokens at the target |
| `DenseCycle.DoneTokens` | src/cppEmitterDenseExec.cpp:573-575 | at the end of a pooled cycle every live token holds the target |
| `DenseCycle.LeastTaskIsRunnable` | src/cppEmitterDenseExec.cpp:807-881 | while no worker is inside a body or a publication, the smallest MTask that has not run is its owner's head and all its tokens are at target |
| `DenseCycle.CanFinish` | src/cppEmitterDenseExec.cpp:807-881 | from every reachable state the cycle can be completed: nothing deadlocks |
| `DenseCycle.ProductiveStepsAreBounded` | src/cppEmitterDenseExec.cpp:807-881 | however workers interleave, bodies, completions and token stores are conserved: each happens once per task and published token |
| `DenseCycle.FairRoundProgresses` | src/cppEmitterDenseExec.cpp:807-881 | a stretch of any run in which every worker tries its head at least once ends the cycle or does some of the remaining work |
| `DenseCycle.FairRunsEnd` | src/cppEmitterDenseExec.cpp:807-881 | every run in which every worker keeps retrying its head is over within as many rounds as there is work in the cycle, whatever else is interleaved |
| `DenseRuntime.SomebodyRuns` | src/cppEmitterDenseExec.cpp:866-870 | while a cycle is not over some worker's head is not blocked |
| `DenseRuntime.Runtime.AllAtTarget` | src/cppEmitterDenseExec.cpp:810-813 | the conjunction of the loads of an entry |
| `DenseRuntime.Runtime.PublishAll` | src/cppEmitterDenseExec.cpp:820-822 | all store slots of the entry are put to the target, within the protocol |
| `DenseRuntime.Runtime.AdvanceHead` | src/cppEmitterDenseExec.cpp:823-827 | the head passes the entry that ran and all done entries behind it, whose bits are cleared; nothing else changes |
| `DenseRuntime.Runtime.RunEntry` | src/cppEmitterDenseExec.cpp:852-858 | body, stores and head or done-bit update of one entry; the log gains exactly that task |
| `DenseRuntime.Runtime.TryEntry` | src/cppEmitterDenseExec.cpp:838-848 | an entry runs if and only if its tokens are at target; otherwise nothing changes |
| `DenseRuntime.Runtime.WorkerTurn` | src/cppEmitterDenseExec.cpp:808-864 | runs the first entry among the head and the window that has not run, whose local prerequisites have, and whose tokens are at target; when there is none, nothing changes and the head is blocked |
| `DenseRuntime.Runtime.PooledCycle` | src/cppEmitterDenseExec.cpp:552-580 | the cycle terminates with the serial variables, every task run once and all live tokens flipped |
| `DenseRuntime.Runtime.SerialCycle` | src/cppEmitterDenseExec.cpp:1136-1138 | tasks 0..n-1 in order |
| `DenseRuntime.Runtime.Rephase` | src/cppEmitterDenseExec.cpp:955-960 | all live tokens are put opposite to the target of the coming cycle |
| `DenseRuntime.Runtime.StepDense` | src/cppEmitterDenseExec.cpp:939-1141 | pooled or serial, a step ends with the serial variables, counts the cycle and leaves the tokens in phase for either kind of successor |
| `DenseRuns.CycleKeepsPhase` | src/cppEmitterDenseExec.cpp:939-962 | any cycle under any interleaving delivers the serial result and keeps the token phase |
| `DenseRuns.AnyRunEqualsSerial` | src/cppEmitterDenseExec.cpp:939-1141 | any mix of pooled and serial cycles under any interleavings has the variables of the serial simulation |
| `DenseCounter.BuildDepCounts` | src/cppEmitterDenseExec.cpp:588-590 | the dependency count of a task is its number of predecessors |
| `DenseCounter.CInvStep` | src/cppEmitterDenseExec.cpp:582-716 | every step keeps each counter equal to the number of predecessors that have signalled, counted up or down by parity |
| `DenseCounter.CDoneCounters` | src/cppEmitterDenseExec.cpp:705-716 | at the end of a cycle every counter is where the next cycle of the other parity needs it |
| `DenseCounter.CounterCycleEqualsSerial` | src/cppEmitterDenseExec.cpp:582-716 | a counter cycle that starts ready ends with the serial variables and ready for the other parity, under any interleaving |
| `DenseCounter.ReducedListsCover` | src/cppEmitterDenseSchedule.cpp:919-981 | the reduced successor lists with the worker chains still order the whole task graph |
| `DenseCounter.CLeastTaskMayEnter` | src/cppEmitterDenseExec.cpp:588-590 | in a cycle that started ready the smallest task that has not run is its worker's next one and its counter lets it enter |
| `DenseCounter.CSomebodySteps` | src/cppEmitterDenseExec.cpp:582-716 | while such a cycle is not over some worker can make a step |
| `DenseCounter.CRunsEnd` | src/cppEmitterDenseExec.cpp:582-716 | every run of such steps is finite and, when none is left, the cycle is over |
| `DenseCounterRuns.CycleMoves` | src/cppEmitterDenseExec.cpp:705-716 | whatever its counters held, a finished pooled cycle moved each by its dependency count, up or down by parity, modulo 2^32 |
| `DenseCounterRuns.CounterResidue` | src/cppEmitterDenseExec.cpp:582-716 | after any history of serial and pooled cycles each counter is its dependency count times the even minus the odd pooled cycles, modulo 2^32 |
| `DenseCounterRuns.CounterReadyIff` | src/cppEmitterDenseExec.cpp:938-943 | the exact condition on that residue for the counters to be ready for the next cycle |
| `DenseCounterRuns.CounterRunsRightIff` | src/cppEmitterDenseExec.cpp:938-949 | every pooled cycle finds ready counters and the history has the serial variables if and only if an even number of serial cycles precedes each pooled cycle or no task has a predecessor |
| `DenseCounterOrder.OrderedIffReady` | src/cppEmitterDenseExec.cpp:582-716 | in any finished pooled cycle, whatever its counters held, every task is entered after all its predecessors have signalled if and only if the counters were ready |
| `DenseCounterOrder.OrderKeptIff` | src/cppEmitterDenseExec.cpp:938-949 | that holds for every pooled cycle of a history if and only if an even number of serial cycles precedes each of them or no task has a predecessor, and then the variables are the serial ones |
| `DenseCounterRuns.AllPooledStaysReady` | src/cppEmitterDenseExec.cpp:938-943 | in any history of finished pooled cycles under any interleavings the counters are ready in every cycle and the variables are the serial ones |
| `DenseCounterRuns.EntersAtOnceIff` | src/cppEmitterDenseExec.cpp:588-590 | at the start of a pooled cycle after any history, the exact residue at which a worker's first task enters without waiting |
| `DenseCounterRuns.OddSerialReleasesEarly` | src/cppEmitterDenseExec.cpp:588-590 | a pooled cycle that is the first to follow an odd number of serial cycles lets a worker's first task enter although no predecessor has run |
| `DenseCounterRuns.OutOfReachSpins` | src/cppEmitterDenseExec.cpp:588-590 | a counter that starts too far from what the task needs never lets it enter, however the cycle runs |
| `DenseCounterRuns.EarlyReleaseExample` | src/cppEmitterDenseExec.cpp:588-590 | two workers, one edge and one serial cycle suffice |
| `DenseCounterRuns.EvenCountIsNotEnough` | src/cppEmitterDenseExec.cpp:1130-1141 | after serial, pooled, serial the number of serial cycles is even and the counters are ready for neither parity |
| `ActiveMask.Gather` | src/cppEmitterUtil.cpp:944-952 | the entries of one eight-word group are removed and united, each shifted to its place |
| `ActiveMask.AddId` | src/cppEmitterUtil.cpp:932-955 | one id is added to what the map sets and nothing else; entries stay inside their group, one per group |
| `ActiveMask.Pack` | src/cppEmitterUtil.cpp:917-958 | the map sets exactly the ids that are neither always active nor later ids of the current word; the local mask holds exactly the latter |
| `EventCircuit.UpdateActivate` | src/Node.cpp:242-261 | exactly the other supernodes that use the node, its own when a use does not come after it, and the one that copies it into a register |
| `EventCircuit.SettledIsNoop` | src/cppEmitterEmitCore.cpp:606-610 | evaluating a settled supernode changes nothing |
| `EventCircuit.NoopIsSettled` | src/cppEmitterEmitCore.cpp:606-610 | a supernode whose evaluation changes nothing is settled |
| `EventCircuit.OtherStaysSettled` | src/Node.cpp:242-261 | a member that is not activated by a change stays settled |
| `EventCircuit.OwnIsSettled` | src/Node.cpp:249-254 | a member that ran is settled unless it activated its own supernode |
| `EventSim.MemberKeeps` | src/cppEmitterEmitCore.cpp:378-464 | storing a member's value and raising its flags keeps every unflagged supernode settled |
| `EventSim.InputKeeps` | src/cppEmitterEmitCore.cpp:87-107 | the same for a changed input |
| `EventSim.BuildNext` | src/cppEmitter.cpp:834-839 | the activation ids of every member |
| `EventSim.Simulator.constructor` | src/cppEmitter.cpp:2271-2273 | all flags set is a consistent start |
| `EventSim.Simulator.OrMask` | src/cppEmitterUtil.cpp:960-966 | one store of up to eight words sets exactly the bits of its mask, within the flag array |
| `EventSim.Simulator.Activate` | src/cppEmitterEmitCore.cpp:422-439 | exactly the given ids that are not always active are set: later ids of the current word in its copy, the others in the flags; none stops being pending |
| `EventSim.Simulator.EvalMember` | src/cppEmitterEmitCore.cpp:584-599 | stores the member's value, activates exactly its ids if and only if the value changed or it is an array, and keeps unflagged supernodes settled |
| `EventSim.Simulator.RunSuper` | src/cppEmitterEmitCore.cpp:606-680 | evaluates all members; exactly the ids that its changed and array members activate are set, and unflagged supernodes stay settled |
| `EventSim.Simulator.ScanWhole` | src/cppEmitter.cpp:79-86 | a word without always-active supernodes is copied and cleared: exactly the supernodes called so far run, and a flag of the word is set afterwards if and only if its supernode was activated after its turn |
| `EventSim.Simulator.ScanKept` | src/cppEmitter.cpp:75-90 | a word with an always-active supernode keeps its flags: exactly the supernodes called so far run |
| `EventSim.Simulator.Step` | src/cppEmitter.cpp:60-108 | the step leaves the values of evaluating every supernode in order, evaluates exactly the supernodes that are always active, flagged at the start or activated earlier in the step, and leaves exactly the flags that are due |
| `EventFlags.QuietStepRests` | src/cppEmitter.cpp:60-108 | without arrays and always-active supernodes, a step in which no node changes leaves no flag, and a step that finds no flag evaluates nothing |
| `EventFlags.RanIsUnique` | src/cppEmitter.cpp:60-108 | values and flags at the start determine which supernodes are evaluated |
| `EventSim.Simulator.SetInput` | src/cppEmitterEmitCore.cpp:87-107 | a changed input sets exactly the flags of the supernodes that use it and are not always active, and keeps all unflagged supernodes settled |
| `EventSim.Simulator.Run` | src/cppEmitter.cpp:60-108 | over every run of input changes and steps the values equal full evaluation |
| `WhenTree.PutMeaning` | src/AST2Graph.cpp:1098-1113 | replacing the subtree at the end of the trace matters only to evaluations that take the trace |
| `WhenTree.ChainMeaning` | src/AST2Graph.cpp:1079-1097 | evaluations that leave the trace see the old value on a new chain |
| `WhenTree.FillMeaning` | src/splitArray.cpp:130-148 | filling empty branches with a tree is running that tree first |
| `WhenTree.FullAssigns` | src/AST2Graph.cpp:126-146 | a tree without empty branches assigns in every evaluation |
| `WhenTree.DeepestIsLargest` | src/AST2Graph.cpp:1021-1037 | the tree follows the trace to a depth if and only if that is at most the depth found |
| `WhenLowering.GetDeepestWhen` | src/AST2Graph.cpp:1021-1037 | the largest depth to which the tree follows the trace |
| `WhenLowering.GrowWhenTrace` | src/AST2Graph.cpp:1056-1115 | the value tree follows the whole trace, and off the trace nothing changed; what followed already is kept, one `when` is added for each further level, and the old tree is saved if and only if another `when` stood in the way |
| `WhenLowering.WhenConnect` | src/AST2Graph.cpp:1125-1150 | on the trace the node takes the new value, off it nothing changes, and at most one tree is added |
| `WhenLowering.SaveTree` | src/AST2Graph.cpp:1402-1417 | filling, pushing or clearing keeps the meaning of the trees; a full value tree stands alone afterwards, one with a single empty branch adds no tree, and any other adds one |
| `WhenLowering.Lowering.VisitWhenStmt` | src/AST2Graph.cpp:1281-1331 | a nested statement acts as its last connects in evaluations that take the trace and not otherwise; the trace is restored |
| `WhenLowering.Lowering.SaveWhenTree` | src/AST2Graph.cpp:1402-1417 | all nodes keep their meaning, and those of the statement are saved |
| `WhenLowering.Lowering.VisitStmt` | src/AST2Graph.cpp:1437-1455 | an outermost connect or `when` has its last-connect effect |
| `WhenLowering.Lowering.LowerBody` | src/AST2Graph.cpp:1585-1588 | for every body, node and evaluation of the node's scope, the tree list computes the last connect |
| `ArrayWrites.EncodeDecode` | src/Node.cpp:316-321 | flattening undoes decoding for every position below the leading indices |
| `ArrayWrites.GetIdx` | src/ENode.cpp:309-327 | the flat range of constant indices, or none |
| `ArrayWrites.DecodeLoop` | src/Node.cpp:316-321 | the indices of a flat position |
| `ArrayWrites.ElementWrite` | src/splitArray.cpp:20-49 | a split write reaches exactly its own position and stores what the whole write would |
| `ArrayWrites.SplitTree` | src/Node.cpp:303-326 | a constant sub-array write with several elements becomes one write per element, each reaching exactly its own position, in order; any other write stays whole; together they store what the write stores |
| `ArrayWrites.DropCovered` | src/Node.cpp:348-362 | an earlier write to the same range is of no use before an unconditional one |
| `ArrayWrites.AddArrayVal` | src/Node.cpp:328-366 | the list behaves as if the new write came last; an only write is split first, an unconditional constant write replaces one earlier write to each of its elements, and any other write is appended |
| `ArrayWrites.ReplaceOne` | src/Node.cpp:348-362 | the first earlier write to the same range is gone, all others stay, and the new one comes last |
| `ArrayWrites.ConnectAll` | src/Node.cpp:328-366 | after any sequence of connects each position holds what the last write to it left |
| `StmtTree.MaxPath` | src/StmtTree.cpp:43-56 | the later of two paths |
| `StmtMerge.LaterBounds` | src/StmtTree.cpp:43-56 | the later path is before neither of the two |
| `StmtMerge.MergePathBounds` | src/StmtTree.cpp:262-266 | the folded limit is before none of its predecessors, although the fold stops early |
| `StmtMerge.BoundedLater` | src/StmtTree.cpp:185-188 | a limit from another branch or a longer path still bounds |
| `StmtMergeSteps.EraseBounded` | src/StmtTree.cpp:168-180 | recorded paths stay valid when statements are erased |
| `StmtMergeSteps.MergeKeepsBounds` | src/StmtTree.cpp:107-214 | a merge keeps the recorded path of every other node valid |
| `StmtMergeSteps.MergePathGrows` | src/StmtTree.cpp:107-214 | a node's own path moves forward and bounds all its statements |
| `StmtMergeMeaning.EraseMeaning` | src/StmtTree.cpp:168-180 | erasing earlier assignments to a scalar changes that scalar only |
| `StmtMergeMeaning.MergeMeaning` | src/StmtTree.cpp:107-214 | the merged tree has the effect of running the new tree after the statements that were there |
| `StmtMergeMeaning.MergeSourced` | src/StmtTree.cpp:107-214 | every statement stays within the reads of a member, and no branch writes what its condition reads |
| `StmtMembers.MergeReadsFirst` | src/StmtTree.cpp:107-214 | no reader of a scalar comes after its statements |
| `StmtMembers.PrevPathBounds` | src/StmtTree.cpp:246-268 | the limit bounds the statements of all dependencies |
| `StmtMembers.PrevOrderPath` | src/StmtTree.cpp:246-268 | the limit folded over the dependencies in rank order |
| `StmtMembers.GenerateStmtTree` | src/StmtTree.cpp:366-393 | for every start, executing the statement tree equals running the members' trees one after another; when members do not depend on each other, no condition is tested twice in one sequence |
| `StmtSharing.MergeReuses` | src/StmtTree.cpp:107-160 | a tree joins the first branch on its condition at or after the limit, and no other statement changes |
| `StmtSharing.MergeShares` | src/StmtTree.cpp:107-160 | merging without a limit keeps every condition tested once in each sequence |
| `Reorder.ReorderMember` | src/StmtTree.cpp:295-332 | the result is complete exactly when the dependencies are acyclic, and then it is the rank-lexicographically least topological order |
| `Reorder.GreedyCompleteIff` | src/StmtTree.cpp:330-331 | taking the least ready member places all members if and only if a topological order exists |
| `Reorder.GreedyIsLeast` | src/StmtTree.cpp:313-329 | that order is at most any other topological order |
| `Reorder.GreedyOnOrdered` | src/StmtTree.cpp:304-309 | members already in order keep their places |
| `Reorder.GreedyIsUnique` | src/StmtTree.cpp:304-309 | the order depends on nothing but ranks and dependencies |
| `Reorder.LowerBound` | src/StmtTree.cpp:325-326 | the first place whose rank is not smaller |
| `Reorder.Release` | src/StmtTree.cpp:317-328 | counts and frontier after the successors of a placed member were visited |
| `Narrow.UnaryEnough` | src/ENode.cpp:34-60 | for every unary operator the bits asked of the operand determine the bits asked of the result |
| `Narrow.BinaryEnough` | src/ENode.cpp:17-33 | the same for every binary operator |
| `Narrow.NarrowKeeps` | src/ENode.cpp:10-98 | a narrowed expression is congruent modulo 2^w to the original, and equal when w covers its width |
| `Narrow.NarrowIsTight` | src/ENode.cpp:10-98 | every operator ends with the smaller of its width and the bits asked of it |
| `Narrow.FullWidthIsExact` | src/ENode.cpp:10-98 | asking for the full width changes no value |
| `Narrow.CvtExact` | src/ENode.cpp:34-36 | an unsigned cvt is narrowed correctly if and only if its operand is a node or literal, w exceeds the operand's width, or bit w - 1 of the operand is zero |
| `Narrow.CvtOfNotCondition` | src/ENode.cpp:34-36 | for the complement of an input of any width, correct in every evaluation if and only if w exceeds that width |
| `BitSlices.GetBits` | include/splitNode.h:69-87 | denotes exactly the chosen bits of the element |
| `BitSlices.Join` | include/splitNode.h:88-99 | denotes both rows of bits |
| `BitSlices.CutBits` | include/splitNode.h:151-196 | denotes exactly bits hi..lo of the zero-extended concatenation |
| `BitSlices.NodeComponent.GetBitsOf` | include/splitNode.h:197-202 | bits hi..lo of both element lists, with width hi - lo + 1 |
| `BitSlices.NodeComponent.Merge` | include/splitNode.h:126-141 | the other component's bits below this one's |
| `BitSlices.NodeComponent.MergeNeighbor` | include/splitNode.h:261-280 | no bit changes, and no two neighbours can be joined any more |
| `CommonExpr.CheckTreeEq` | src/commonExpr.cpp:43-77 | the stack comparison decides structural equality up to representatives |
| `CommonMatch.TreeEqMeans` | src/commonExpr.cpp:43-60 | equal trees have equal values in every evaluation where nodes agree with their representatives |
| `CommonMatch.AtMostOne` | src/commonExpr.cpp:136-141 | a node matches at most one representative that is no source, while last matches are right |
| `CommonMatch.AgreeIff` | src/commonExpr.cpp:126-148 | nodes have the values of their representatives in every evaluation if and only if no last match of the loop involves a node with a value of its own |
| `CommonMatch.MatchesAgreeIff` | src/commonExpr.cpp:136-141 | all matches join nodes of one value if and only if no node with a value of its own compares equal to another node of a shared slot, in either direction |
| `CommonMatch.ForeignIsDifferent` | src/commonExpr.cpp:136-141 | some evaluation tells a node with a value of its own from any other node |
| `CommonMatch.SourcesStayOut` | src/commonExpr.cpp:115-141 | when ids differ, sources have no tree or just refer to their next value, and no mergeable node is a bare reference, sources match nothing and every match involves a mergeable node |
| `CommonMatch.OnlyArraysDisturb` | src/commonExpr.cpp:115-141 | in such graphs all matches are right if and only if all last matches are, if and only if no array takes part in one |
| `CommonKeys.KeyHashTree` | src/commonExpr.cpp:16-35 | the stack loop folds the tree from its root, last argument first, modulo 2^64; a node counts with its key, or with its id when the key is zero |
| `CommonKeys.AssignKeys` | src/commonExpr.cpp:107-124 | every mergeable node gets the hash of its trees, in which the nodes it reads count with their final keys; the others keep their ids |
| `CommonKeys.HashedKeysFollow` | src/commonExpr.cpp:16-41 | mergeable nodes whose trees compare equal have equal keys, if no key is zero |
| `CommonExact.RepsAreExact` | src/commonExpr.cpp:126-148 | where every computed node is mergeable, last matches are right and keys follow the trees, two nodes get one representative if and only if they have one value in every evaluation |
| `CommonExact.SameValueIff` | src/commonExpr.cpp:43-85 | two nodes have one value in every evaluation if and only if comparing all computed nodes, outputs included and without keys, gives them one representative |
| `CommonFound.HashingIsExact` | src/commonExpr.cpp:107-148 | the loop over hash slots gives the representatives that comparing all mergeable nodes would give if and only if every last match joins two mergeable nodes and equal ones share a key |
| `CommonFound.FoundIff` | src/commonExpr.cpp:126-148 | then two nodes get one representative if and only if they have one value in every evaluation, whatever outputs and next values of registers hold |
| `CommonFound.MissedIff` | src/commonExpr.cpp:115-148 | the nodes of one value that the loop tells apart: those that comparing outputs too would join and comparing mergeable nodes alone does not |
| `CommonFound.NothingMissed` | src/commonExpr.cpp:115-148 | if no mergeable node reads an output or the next value of a register, there are none |
| `CommonMerge.MatchNodes` | src/commonExpr.cpp:126-148 | every node gets the last earlier node of its slot that it compares equal to, the groups hold every match, and the exact conditions for both to be right |
| `CommonMerge.DecideMerge` | src/commonExpr.cpp:152-170 | a node is replaced if and only if it matched into a group of five, a wide one, or one with a node read several times; its target is such a group's first node |
| `CommonReplace.SurvivorsKeepValues` | src/commonExpr.cpp:173-181 | after replacement every remaining node has its old value, and its right sides, left sides and reset tree compute what they did |
| `CommonReplace.OldValuesFit` | src/commonExpr.cpp:173-181 | the old values solve the new graph |
| `CommonReplace.NoDeadReference` | src/commonExpr.cpp:87-101 | no tree refers to a removed node any more |
| `CommonReplace.AliasAgreesIff` | src/commonExpr.cpp:152-170 | every replaced node has the value of its target if and only if comparing all computed nodes without keys finds each of these pairs; none of them then has a value of its own |
| `CommonReplace.RemovedIff` | src/commonExpr.cpp:152-170 | a node that is not up for merging is removed if and only if two mergeable nodes hash to its id and it compares equal to the first node of a group worth merging |
| `CommonReplace.MergeCommon` | src/commonExpr.cpp:126-182 | no target is removed and nothing that remains refers to a removed node; if replaced nodes have their targets' values, the old values fit the new trees and any values that fit are the old ones; so it is when no node with a value of its own takes part in a match |
| `CommonPass.CommonExprPass` | src/commonExpr.cpp:104-182 | the whole pass: where only mergeable nodes match and no key is zero, a node is merged into another if and only if that is the first node of its value and the class of that value is worth merging; where replaced nodes have their targets' values, what remains computes what it did |
| `CommonPass.NothingIsMissed` | src/commonExpr.cpp:104-182 | if besides no mergeable node reads an output or the next value of a register, mergeable nodes of one value are merged into the first of them if and only if their class is worth merging |
| `CommonExamples.CollisionIsWrong` | src/commonExpr.cpp:107-170 | keys included, an array whose id is the key of two complements of an input is given their representative and merged, wrongly |
| `CommonExamples.OutputIsRemoved` | src/commonExpr.cpp:107-170 | with an output instead the values are right, and the output is removed |
| `CommonExamples.HarmlessIsClean` | src/commonExpr.cpp:130-141 | an input whose id is a shared key does no harm, since it has no tree |
| `CommonExamples.EqualThroughOutput` | src/commonExpr.cpp:115-141 | two conjunctions that are equal only through an output keep different keys and are not merged |
| `ResetChunks.ChainAppend` | src/cppEmitterReset.cpp:124-131 | a function at the end of the chain runs after all the others |
| `ResetChunks.SplitMeans` | src/cppEmitterReset.cpp:120-137 | closing the open blocks, calling on and reopening them keeps the execution state if and only if testing the open conditions again gives the blocks that are being executed |
| `ResetChunks.GenResetDef` | src/cppEmitterReset.cpp:116-163 | every function is balanced and holds at most n statements; from every start from which all splits find their conditions as they were, the chain of chunks does what the single body does |
| `ResetPartition.ChunksPartition` | src/cppEmitterReset.cpp:116-163 | any well-nested stream is cut into runs, one function each: a function begins if and only if a statement or marker finds n lines or more since the last one began; each holds the conditions that were open, exactly its run, and the closing braces |
| `ResetPartition.CutsAreUnique` | src/cppEmitterReset.cpp:120-122 | the stream determines where functions begin |
| `ResetChunks.GuardsStayReopen` | src/cppEmitterReset.cpp:110-115 | if no statement changes a condition and no split lies inside an else arm, that is every start |
| `ResetChunks.ElseFreeIff` | src/cppEmitterReset.cpp:118-136 | all splits keep the execution state, for all conditions that no statement changes, if and only if no split lies inside an else arm |
| `ResetChunks.SplitInElseIsWrong` | src/cppEmitterReset.cpp:120-136 | for streams with else: a split before a statement inside an else arm makes the chain run it under the opposite condition |
| `ResetBody.BodyIs` | src/StmtTree.cpp:394-402 | merging two-child reset trees yields branches without else over assignments, for all members |
| `ResetBody.ResetStreamIsFlat` | src/instsGenerator.cpp:1695-1763 | the stream of every reset supernode, markers included, consists of single blocks and has no else |
| `ResetMeaning.ResetStreamMeans` | src/instsGenerator.cpp:1677-1763 | for all values and conditions, the stream tests each condition of the members once, in the order in which they bring them, and when it holds runs all its resets in the order of the members |
| `ResetMeaning.EveryRegisterIsReset` | src/StmtTree.cpp:394-402 | when no register is its own reset and reset values do not read the body's registers, every register takes its reset value if and only if its own condition holds, and nothing else changes |
| `ResetRight.StreamDistinct` | src/StmtTree.cpp:394-402 | no register is assigned twice in it |
| `ResetExact.TimelyIsRight` | src/cppEmitterReset.cpp:116-163 | in any such stream whose conditions read one variable, if that variable is not assigned in a block ahead of a split that has another statement behind it, the chain does what the body does, from every start |
| `ResetExact.LateIsWrong` | src/cppEmitterReset.cpp:116-163 | otherwise some register is left without its reset value |
| `ResetRight.ResetRightIff` | src/cppEmitterReset.cpp:110-163 | for every reset supernode and chunk size the chain is right, for all values and conditions on the reset node, if and only if there is no such late split |
| `ResetRight.OthersResetIsRight` | src/cppEmitterReset.cpp:110-163 | it is right whenever no register of the supernode is its own reset |
| `ResetRight.OwnResetIsWrong` | src/cppEmitterReset.cpp:25-34 | for every chunk size n of two or more, n registers of one condition of which the first is its own reset go wrong |
| `EmitFiles.FilesPartition` | src/cppEmitter.cpp:667-719 | any stream of calls is cut into runs, one file each: a call begins a file if and only if it may and the bytes counted since the file's first call exceed the limit; each file is its opening, exactly its calls and the closing, and indentation does not count |
| `EmitFiles.CutsAreUnique` | src/cppEmitter.cpp:707-710 | the stream determines where files begin |
| `EmitFiles.Emitter.EmitStream` | src/cppEmitter.cpp:689-719 | a fresh emitter that is given any stream of calls directly writes exactly these files |
| `EmitFiles.Emitter.Replay` | src/cppEmitter.cpp:728-732 | a captured call writes what the call would have written |
| `EmitFiles.Emitter.FlushEmitBufs` | src/cppEmitter.cpp:725-736 | replaying the buffers gives the files of the sequential stream |
| `EmitParallel.InvStep` | src/cppEmitter.cpp:766-777 | every step of every worker keeps each buffer a prefix of its own unit |
| `EmitParallel.AllRendered` | src/cppEmitter.cpp:766-778 | under every schedule each buffer ends with its whole unit |
| `EmitParallel.EmitUnits` | src/cppEmitter.cpp:747-780 | capture on any schedule and ordered replay give the sequential files and rotation points |
| `ParseTasks.FindNextModuleMarker` | src/firParser.cpp:43-62 | the first newline followed by a module header |
| `ParseTasks.CutSource` | src/firParser.cpp:99-136 | tasks lie side by side, numbered in order, each ending at the newline before every fifth header (task i at header 5(i + 1), the last one at the end), each with line number 1 plus the newlines before it |
| `ParseTasks.TaskReadsPiece` | src/firParser.cpp:76-80 | a parser that starts at a task reads exactly its piece of the source |
| `ParseTasks.TasksPartition` | src/firParser.cpp:117-136 | the pieces joined by their newlines are the source |
| `ParseQueue.InvStep` | src/firParser.cpp:64-92 | every step of every thread keeps each task queued or taken exactly once and one exit flag per live thread |
| `ParseQueue.ExitOnlyAfterAllTasks` | src/firParser.cpp:140-146 | an exit flag is taken only when every task has been taken |
| `ParseQueue.NoDeadlock` | src/firParser.cpp:65-72 | a live thread never waits on a queue that stays empty |
| `ParseQueue.RunsAreBounded` | src/firParser.cpp:64-92 | a run has at most two steps for each queue entry |
| `ParseQueue.ParseCompletes` | src/firParser.cpp:153-169 | when all threads returned the queue is empty, each task was parsed once, and the merged lists are in source order |

## Left out

- C++ memory order: each acquire load, release store and MTask body is one step, and a body runs as a whole; `DenseCycle.BusyBodiesDoNotConflict` is what makes the last point harmless.
- DenseRuntime.Runtime: tokens are booleans and the done bitmap a set of positions; head arithmetic does not wrap at 32 bits, and whether the pool may be used is a parameter of each step.
- DenseRuntime.Runtime.PooledCycle: runs the workers in rounds; other interleavings are covered by the transition system, not by the class.
- DenseProtocol.InvStep: the spin on a blocked head is a repeated failed attempt, and a spinning worker is allowed to look at its window again.
- DenseCounterRuns.CounterRunsRightIff: histories consist of finished cycles; a cycle in which a task spins for ever is the subject of `DenseCounterRuns.OutOfReachSpins`.
- EventSim.Simulator.Step: members are evaluated as wholes; asynchronous reset (which activates everything), memory ports, external modules and the reset pass before the scan are not modelled.
- EventSim.Simulator.Activate: flag words and masks are sets of bit positions, not machine words; the activation buffers of the multi-threaded sparse runtime are not modelled.
- WhenLowering.Lowering.LowerBody: `is invalid` connects, memory ports and instances inside a `when` are excluded, and right sides do not depend on the node being lowered; trees are values, so sharing of subtrees is not modelled.
- WhenLowering.Lowering.LowerBody: declarations appear as the scope of each node, and the claim is made for evaluations inside that scope.
- ArrayWrites.AddArrayVal: right sides do not read the array, and conditions of a `when` write are evaluated before the writes.
- StmtMembers.GenerateStmtTree: statement trees are values and the explicit stack is recursion; conditions and right sides are known by equality of structure; a member reads its own node only as an array on the right side or as a register updated in place, which then has one tree and follows its readers; members that read each other's nodes must be ordered by a dependency; the copy to a register's next value on asynchronous reset is not modelled.
- Narrow.NarrowKeeps: asks, of each evaluation, that every unsigned cvt of the tree meets the exact condition of `Narrow.CvtExact`; a lost bit that an operator above it drops again is not followed. Expressions are values, memory reads, array indices and statement operators are left out, and each operator's result is taken at its width.
- BitSlices.NodeComponent: elements are unsigned values; sharing of element objects between components and the reference sets are not modelled.
- CommonMerge.MatchNodes: all nodes are taken to be valid and assigned by their trees in every cycle, and operators mean any functions: values that coincide only through the meaning of an operator count as different. Sources and arrays count as free values.
- CommonKeys.HashedKeysFollow: asks that no hash is zero modulo 2^64; a node whose hash is zero counts with its id where it is read, so equal readers of equal nodes may get different keys. That loses merges and makes none wrong.
- ResetChunks.GenResetDef: takes well-nested streams; the guard and activation text around the body is not modelled.
- ResetRight.ResetRightIff: each member has one reset tree and a node of its own, all conditions read the one reset node of the supernode, and an assignment is one statement or no text; whether a reset value reads another register of the body does not matter.
- EmitParallel.EmitUnits: the text of a call is given already formatted, and units ignore the returned rotation flag.
- ParseTasks.CutSource: the lexer and grammar are not modelled; ParseQueue treats parsing a task as a function of its number.
- Benchmark, profile, trace and duty code, coarse-region and pure-batch runtimes, constant folding, alias analysis, dead-node removal, clock optimisation, file and environment handling: they measure, or would add only easy members.
