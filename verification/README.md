# HCC in Dafny

HCC compiles HistoryC, a C-like language whose variables remember their previous values. This project models
four parts of the compiler and its runtime, proves what they promise, and puts two of them together.

* **Register allocation** (`regalloc.c`, `mir_cfg.c`, `cfg.c`): control flow graphs, two liveness loops, the
  interference graph, pruning and colouring, and the rewriting of names to hard registers. The main results are
  that both loops compute the path sets (the second one exactly when a stated condition holds), that a colouring
  found is proper and least, that a node pushed by the degree rule is always coloured, that graph and costs
  determine the stack and with it the colours, and that a rewritten function names only the registers there are
  and runs in lockstep with the original.
* **History storage** (`rtlib/history.c`, `rtlib/harray.c`, `history.c`): cyclic and flat scalars, snapshot rings,
  change lists and index-wise rings, all measured against one list of past values; the code for assignments, IFs
  and atomic blocks, which does what the statements mean; and the sizes `symtable.c` reserves for all of them.
* **Code generation and lowering** (`astparse.c`, `mir.c`): expressions, assignments, IF/WHILE/DO/FOR and RETURN
  become a list with backpatched jumps, and passes then edit that list. A source program and its lowered code end
  together, with the same value or the same variables, and every edit keeps every run.
* **The whole way of a program** (`compiler.c`): what the passes hand over always has a graph, END in reach of every
  node and the instruction forms the allocator needs. When every register got a colour, the machine code of a
  function that cannot avoid reading something, such as one that ends with the return of a variable, returns what
  the function returns, falls off its end when the function does, and runs on when the function does
  (`Compiler.Compile`). For the other functions that holds when the liveness pass over their code is complete.
* **Frame layout** (`scope.c`, `regalloc.c`, `sparcgen.c`): variables that can be visible together, spill slots and
  outgoing arguments never overlap and stay inside the aligned frame.

Code that works by changing things in place is a class or a method with loops (allocator tables, liveness lists,
interference graph, instruction list, generator, passes, storage classes, scope tree), proved against functions
and predicates on values; what the parts promise is then proved about those.

## Modelling decisions

* Pointers to structures are indices or node identities. An instruction list is a sequence of nodes with
  identities; jumps name identities, so insertion does not disturb them, and the blank node behind the tail has an
  identity too.
* `Mir.Run` is the meaning of MIR. Memory, the frame address, arguments, the results of calls and of division are
  parameters (`Mir.Context`); 32-bit wrap-around is explicit (`Mir.Wrap`). The dereference flag of a callee and of
  a RECEIVE destination means nothing, because `mir_var` sets it from the type and the lowering clears it.
* `HEAP_STORE` writes its address register before it reads the value stored, as the emitted code does.
* `nregs` is at least 1. With 0 the pruning loop divides by zero and `min_colour` writes past its buffer.
* `qsort` is modelled by a sorted permutation; the comparator it is given never returns a negative value
  (regalloc.c:528-530). Spill costs are a parameter. "No spillable node" ends a pass as `Aborted`, and a
  program without any register operand, for which no graph is built, as `Failed`.
* Fields the source leaves uninitialised in operands it allocates (`indirect` of a computed expression) are read
  as 0. `in_links` of the blank node is 0 when the node is allocated.
* A list that reaches the passes starts with a LABEL and ends with END, as `parse_func` emits it.
* Lists, tables and offsets use unbounded integers except where registers wrap.

## What does not hold, and exactly when it does

* The MIR liveness loop does not count uses as a change, so it can stop after one pass. Its lists are right if and
  only if the first pass reports a change or no use comes after an edge
  (`DfsLiveness.Walker.CalculateLiveness`). The order in which a function's nodes and edges stand decides that
  (`MirCfg.GraphOf`, `Allocation.PassComplete`); a use that no way through the function avoids is enough
  (`FirstPass.UnavoidableUseReports`). After a silent first pass the lists hold the uses alone, and when no node
  reads two names the allocator puts every name in the same register (`OneRegister`). So the compiler, with any
  number of registers, turns `x = 5; y = 7; if(1) { return x; }` into code that returns 7 (`ReturnGap.Miscompile`),
  and the allocator turns `x = 5; y = 7; while(1) f(x);` into code that calls f(7) (`LivenessGap.AllocateCode`).
* The O(d) array store replays its change list newest first over a block that may hold anything at the start
  (`__hist_daw_init__` writes no block) and takes the index 999 for an empty entry. It agrees with the O(n) store
  throughout a run if and only if, at every store, the oldest and the newest entry for each index in the window
  carry the same value, and the block overwritten held, at the start, the array's present value at every element
  not stored so far and at element 999 (`ArrayHistoryAgreement.ChangeListRunAgrees`). With oldest-first replay the
  first half is not needed, the second still is (`OrderedRunAgrees`). `ReplayOrderMatters`, `StartMatters` and
  `Element999IsLost` are runs that differ.
* Index-wise rings use the number of elements as their stride. With more than one element they are disjoint if and
  only if depth <= size and inside their storage if and only if depth >= size (`IndexHistory.RingsFit`).
  With depth <= size a store leaves all other elements' histories alone (`IndexVar.Store`); with a greater depth
  some stores to one element always change another's (`Overrun`).
* AND tests its left operand twice, and assigning a relation, an OR or an AND redirects only the last MOVE.
  `Source.Eval` and `Source.AfterAssign` describe what the emitted code does, and `AndIsExact` and
  `LogicalAssignIsExact` say exactly when that is the source's meaning. The end-to-end theorems exclude both.
* A nested atomic block clears the list of modified variables, although the compiler's warning says nesting has no
  effect: exactly the assignments before it that are not repeated lose their history entry
  (`Atomic.NestedBlockForgets`). An IF inside a block lists its variables even when it is not taken, and their
  stale copies become entries (`SkippedIfPushesCopies`). `BlockDoesItsJob` says exactly when a variable gets the
  one entry, its last value, that the block is for.
* Cyclic storage needs its pointer set up. For a local variable that happens only when the option for simple storage
  was not given at all, although that option still leaves larger depths to cyclic storage
  (`ScalarHistory.CyclicPointerSet`).
* Variables and spill slots are word-aligned exactly when the bytes of the scopes below them are whole words
  (`Frame.PlaceAligned`). Records of whole words are enough; an odd character array is not
  (`WholeWordsAligned`, `OddRecordMisaligns`).
* An argument beyond the sixth is stored in a word of its own, but the counter of the receiving code stops at the
  first of them: a parameter is read from where its argument was put exactly when it is one of the first seven
  (`Frame.HandOver`).
* History storage fits for word-sized scalars and one-dimensional arrays, but not for arrays of characters, for most
  arrays of several dimensions (the elements are added up instead of multiplied), or for global arrays of more than
  one element (`Sizes`).

## Model

Rows cite the lines modelled; paths are relative to the repository.

| member | source | states |
|---|---|---|
| `Liveness.LivenessEquations` | cfg.c:489-522 | liveness by paths solves in = use + (out - def), out = union of in over the successors |
| `Liveness.ClosedContainsPath` | cfg.c:489-522 | the path sets are the least solution: any lists closed under the equations contain them |
| `Liveness.SoundAndClosedIsExact` | cfg.c:489-522 | lists that are closed and hold only live names are exactly the path sets |
| `Liveness.LiveSets.AddIn` | cfg.c:447-461 | appends a name to an in list unless it is there, reports whether it did, and keeps the lists sound and duplicate-free |
| `Liveness.LiveSets.AddOut` | cfg.c:466-481 | the same for an out list |
| `SourceLiveness.OutToIn` | cfg.c:500-507 | every out that is not defined here ends up in the in list; reports a change only when something was missing |
| `SourceLiveness.InToOut` | cfg.c:509-514 | a predecessor's out list takes in this node's in list |
| `SourceLiveness.CalculateLiveness` | cfg.c:489-522 | the source-level loop ends with v in in(n) exactly when a path from n reaches a use of v before a definition, and out(n) likewise over the successors |
| `MirCfg.AddEdgeTo` | mir_cfg.c:297-317 | an edge is appended at both ends; fails only for a target that is not a node |
| `MirCfg.AddNodeEdges` | mir_cfg.c:408-430 | the next node, the jump target, both or none by its opcode, each appended in that order at both ends |
| `MirCfg.BuildFunc` | mir_cfg.c:364-432 | a graph is built exactly when the function starts with a LABEL and all jumps stay inside; successor and predecessor lists mirror each other, and predecessors stand in the order of the nodes |
| `MirCfg.StepFollowsEdge` | mir_cfg.c:408-430 | every step a run takes inside the function follows an edge of the graph |
| `MirCfg.UsesOf` | mir_cfg.c:470-541 | the use list has exactly the names the instruction reads, each once, in the order its operands are looked at |
| `MirCfg.BuildDefUse` | mir_cfg.c:460-541 | use and definition of every node |
| `MirCfg.GraphOfIsValid` | mir_cfg.c:364-432 | a list that ends with END and jumps only inside itself has a well-formed graph |
| `MirCfg.BuildGraph` | mir_cfg.c:364-541 | the finished graph is the one graph of its function, with every list in the order it is filled, or the function cannot have one |
| `DfsLiveness.Walker.UpdateIn` | mir_cfg.c:604-611 | uses and undefined outs join the in list; only the outs count as a change |
| `DfsLiveness.Walker.UpdateOut` | mir_cfg.c:613-617 | the in lists of all successors join the out list |
| `DfsLiveness.Walker.LivenessAtNode` | mir_cfg.c:596-624 | visits, in depth-first order, the unvisited nodes that lead to the node, and reports changes as the pass's account of them says |
| `DfsLiveness.Walker.Pass` | mir_cfg.c:560-575 | one pass visits exactly the nodes that can reach the exit |
| `DfsLiveness.Walker.CalculateLiveness` | mir_cfg.c:549-594 | ends; in and out never exceed the least solution, and equal it on the nodes that reach the exit if and only if the first pass reports a change or no use comes after an edge; after a silent first pass the outs are empty and the ins are the uses |
| `DfsLiveness.SilentFirstPass` | mir_cfg.c:604-605 | what a silent first pass leaves is exact if and only if no use comes after an edge |
| `DfsLiveness.VisitsOnce` | mir_cfg.c:596-602 | a walk visits no node twice |
| `FirstPass.UnavoidableUseReports` | mir_cfg.c:560-624 | a use that no path from some node to the exit avoids makes the first pass report a change, in whatever order predecessors are visited |
| `FirstPass.LateUseIsSilent` | mir_cfg.c:560-624 | a pass is silent when its only use is behind a test that the walk from the exit goes to first |
| `OneRegister.SilentNeverHasCore` | regalloc.c:74-167 | when all passes are silent and no node reads two names, every number of registers is enough |
| `OneRegister.SameColour` | regalloc.c:419-466 | and every name gets the first register |
| `LivenessGap.PassStopsEarly` | mir_cfg.c:549-624 | on a concrete loop the first pass reports nothing although a use comes after an edge |
| `LivenessGap.CodeNeverHasCore` | regalloc.c:74-167 | nothing interferes in that loop, so it is allocated with any number of registers |
| `LivenessGap.GapBreaksMeaning` | regalloc.c:604-634 | every allocation of the loop satisfies the other hypotheses of the preservation theorem, and calls with the wrong argument |
| `LivenessGap.AllocateCode` | regalloc.c:74-167 | the allocator returns such an allocation for every number of registers |
| `ReturnGap.PassStopsEarly` | mir_cfg.c:549-624 | so it does on the code of a terminating program of the fragment, because END's predecessors stand in node order |
| `ReturnGap.EveryAllocationIsWrong` | regalloc.c:74-167 | every allocation of that code returns 7 where the program returns 5 from every store |
| `ReturnGap.Miscompile` | compiler.c:413-429 | the compiler compiles the program for every number of registers, and the machine code does not implement it |
| `Interference.InterferenceGraph.AddSymReg` | regalloc.c:956-973 | a new name gets the next number, a known one keeps its own |
| `Interference.NumbersStay` | regalloc.c:1063-1073 | names are numbered as they first occur: what comes later in the program changes no number |
| `Interference.InterferenceGraph.AddLink` | regalloc.c:979-1014 | links two different known names in both directions; fails when one is unknown |
| `Interference.InterferenceGraph.LinkNode` | regalloc.c:1084-1105 | links the pairs one node makes interfere, and no others |
| `Interference.InterferenceGraph.Build` | regalloc.c:1052-1108 | the symbolic registers are the names that occur, in the order of their first occurrence, and two are linked exactly when some node makes them interfere |
| `Interference.InterferenceGraph.Matrix` | regalloc.c:1052-1108 | the finished links form a symmetric, irreflexive matrix |
| `PruneAssign.QSort` | regalloc.c:475-523 | sorting returns an ascending permutation |
| `PruneAssign.AdjLists.constructor` | regalloc.c:172-213 | every row holds the node's edges and their number; nothing is stacked or coloured |
| `PruneAssign.AdjLists.AdjustNeighbours` | regalloc.c:391-414 | moves the edges of a pushed node to the removed rows and lowers its neighbours' counts |
| `PruneAssign.AdjLists.FindCandidate` | regalloc.c:270-283 | the first node with the lowest quotient of cost and remaining neighbours, in plain numbers: its cost covers its neighbours q < 100 times and not q + 1 times, every other node with a cost covers its own q times and an earlier one q + 1 times; none exactly when every such node covers its neighbours 100 times |
| `Colouring.CandidateOrNone` | regalloc.c:270-290 | costs and remaining neighbours admit one candidate at most, and none when the search finds none |
| `PruneAssign.AdjLists.Sweep` | regalloc.c:248-264 | pushes, from node 0 upward, each node whose remaining degree is below nregs by then; a sweep that pushes nothing leaves none |
| `PruneAssign.AdjLists.Prune` | regalloc.c:236-308 | builds exactly the stack of sweeps as long as they push something and of one candidate after a sweep that does not, until every node is on it or there is no candidate; rows and counts stay true |
| `PruneAssign.AdjLists.CollectColours` | regalloc.c:478-496 | the colours of the coloured neighbours, each once |
| `PruneAssign.AdjLists.MinColour` | regalloc.c:475-523 | the least colour no coloured neighbour has, and 0 exactly when all nregs are used |
| `PruneAssign.FirstGap` | regalloc.c:498-521 | the scan of the sorted colours stops at the least unused one |
| `PruneAssign.AdjLists.Reattach` | regalloc.c:427-448 | gives the popped node's edges back to the adjacent rows |
| `PruneAssign.AdjLists.Pop` | regalloc.c:427-448 | the popped node is the top of the stack, and rows and counts describe the new stack |
| `PruneAssign.AdjLists.AssignRegs` | regalloc.c:419-466 | every node gets the least colour its neighbours above it in the stack leave free or is marked for spilling; success is reported exactly when none is marked |
| `PruneAssign.AdjLists.Allocate` | regalloc.c:132-134 | after a full pass the rows are the original graph again; a reported success is a proper colouring with 1..nregs; only candidates spill; a graph without a core of minimum degree nregs never spills |
| `Colouring.GreedyIsProper` | regalloc.c:419-466 | no two linked registers share a colour |
| `Colouring.GreedyInRange` | regalloc.c:475-523 | every colour is at most nregs |
| `Colouring.GreedyGivesColouring` | regalloc.c:419-466 | when nothing is marked for spilling the colours form a colouring with 1..nregs |
| `Colouring.LowDegreeIsColoured` | regalloc.c:248-264 | a node pushed by the degree rule is always coloured, by counting the neighbours it had when pushed |
| `Colouring.OnlyCandidatesSpill` | regalloc.c:266-306 | only spill candidates can stay uncoloured; without candidates nothing does |
| `Colouring.NoCoreNoCandidates` | regalloc.c:248-264 | a graph without a core is pruned by the degree rule alone, whatever the order |
| `Colouring.GreedyIsUnique` | regalloc.c:425-460 | the stack determines the colours |
| `Rewrite.SymReg` | regalloc.c:1114-1133 | the number of a name's symbolic register |
| `Rewrite.Listing.ToSymLir` | mir.c:969-1037 | every register operand is replaced by its symbolic register, operands that name globals are not |
| `Rewrite.Listing.ModifyCode` | regalloc.c:604-634 | every coloured symbolic register is replaced by its hard register; RegistersOf says which one that is |
| `Rewrite.RegistersOf` | regalloc.c:611-630 | an instruction is left with reads and definitions of the first nregs hard registers only, and the name with colour c is read and defined in register c - 1 |
| `Rewrite.EffectAgrees` | regalloc.c:604-634 | an instruction and its rewritten form have agreeing effects on memory, calls and all live registers |
| `Rewrite.HeapStoreAgrees` | regalloc.c:604-634 | also for a store whose address register is written first |
| `Rewrite.RewrittenTarget` | regalloc.c:604-634 | rewriting moves no jump target |
| `Rewrite.SameJump` | regalloc.c:604-634 | a test or jump goes to the same node on both sides |
| `Rewrite.StepAgrees` | regalloc.c:604-634 | one step keeps lockstep and follows an edge |
| `Rewrite.RunAgrees` | regalloc.c:604-634 | for every number of steps the rewritten function is at the same node with the same memory and calls, or has ended the same way, and each live register equals its hard register |
| `Allocation.AllocateProgram` | regalloc.c:74-167 | a successful pass analyses, colours and rewrites the whole program consistently, with the colours greedy from the stack and proper; a function without a graph, or no register operand, fails it; otherwise it fails exactly with pruning stuck, needs a spill exactly when the greedy colouring leaves a name without a colour, and always succeeds when no part of the interference graph has minimum degree nregs |
| `Allocation.ColoursDetermined` | regalloc.c:74-167 | liveness and costs determine the numbering, the graph, the stack and the colours |
| `Allocation.NeededTogetherApart` | regalloc.c:1076-1105 | two names live before the same node, live behind it, or defined by it and live behind it, have different colours |
| `Allocation.HardRegistersOnly` | regalloc.c:604-634 | every name the rewritten program reads or defines is one of its nregs hard registers, colour c being register c - 1 |
| `Allocation.FewNamesNoCore` | regalloc.c:248-264 | a program with at most nregs names has no such core |
| `Allocation.LiveNamesOccur` | regalloc.c:1084-1105 | every name a liveness list makes interfere has a symbolic register, so linking cannot fail |
| `Allocation.AllocationPreservesMeaning` | regalloc.c:74-167 | after a successful allocation, a function for whose list the liveness pass is complete and END stays reachable runs in lockstep with its rewritten form |
| `Allocation.StartExists` | regalloc.c:604-634 | whatever the hard registers hold at the start, a symbolic start agrees with it |
| `ScalarHistory.CyclicPointerSet` | history.c:506-512 | a cyclic variable's pointer is set up iff it is global or the option for simple storage was not given; history.c:444-445 chooses cyclic storage all the same |
| `ScalarHistory.StorageByDepth` | history.c:609-610 | with the option for depth d flat storage is used exactly below depth d, without it never |
| `History.PushesAt` | README.md:93-118 | entry k is the value assigned k assignments ago, or an initial entry moved up |
| `ScalarHistory.CyclicVar.PStore` | rtlib/history.c:23-32 | the current value becomes the newest past value and the oldest is dropped |
| `ScalarHistory.CyclicVar.Store` | history.c:633-680 | an assignment pushes onto the list of values |
| `ScalarHistory.CyclicVar.PLoad` | rtlib/history.c:37-50 | a load returns the value of that many assignments ago |
| `ScalarHistory.CyclicVar.LoadScalar` | history.c:805-848 | the generated shortcuts for histories 0 and 1 agree with the general load |
| `ScalarHistory.FlatVar.Store` | rtlib/history.c:55-68 | the shifting store pushes onto the list of values and touches nothing behind it |
| `ScalarHistory.FlatVar.FpLoad` | rtlib/history.c:73-75 | a load returns the value of that many assignments ago |
| `ScalarHistory.StoreBoth` | rtlib/history.c:23-75 | after any assignments cyclic and flat storage have the same contents, the list of past values |
| `ArrayHistory.ArrayVar.constructor` | rtlib/harray.c:80-91 | both pointers at their bases and an empty change list |
| `ArrayHistory.ArrayVar.Retreat` | rtlib/harray.c:100-104 | the pointer moves to the oldest block and stays block-aligned inside the ring |
| `ArrayHistory.ArrayVar.NawStore` | rtlib/harray.c:96-113 | the whole array becomes the newest snapshot, then one element changes |
| `ArrayHistory.ArrayVar.ApplyChange` | rtlib/harray.c:131-140 | one change-list entry is applied unless it is empty, and the pointer moves on around the list |
| `ArrayHistory.ArrayVar.Replay` | rtlib/harray.c:130-141 | the change list is replayed newest first and its pointer comes back |
| `ArrayHistory.ArrayVar.Record` | rtlib/harray.c:144-150 | the newest entry overwrites the oldest |
| `ArrayHistory.ArrayVar.DawStore` | rtlib/harray.c:118-154 | the oldest snapshot, brought up to date from the change list, becomes the newest; then entry and element are written |
| `ArrayHistory.ArrayVar.AwLoad` | rtlib/harray.c:160-174 | the block returned for history k is snapshot k, inside the ring |
| `ArrayHistoryAgreement.SnapshotRunIsHistory` | rtlib/harray.c:96-113 | after any stores to any elements the block for history k is the array as it was k stores ago, or a block from the start that has moved up |
| `ArrayHistoryAgreement.ReplaysAgree` | rtlib/harray.c:130-141 | newest-first and oldest-first replay agree if and only if the oldest and the newest entry of every index carry the same value |
| `ArrayHistoryAgreement.NoConflictSuffices` | rtlib/harray.c:130-141 | it is enough that no index is stored twice with different values inside the window |
| `ArrayHistoryAgreement.OldestFirstRebuilds` | rtlib/harray.c:130-141 | replayed oldest first, the change list rebuilds the current array from the oldest snapshot |
| `ArrayHistoryAgreement.NextStoreAgrees` | rtlib/harray.c:118-154 | one more store of a run keeps the O(n) store's history iff the block overwritten held the right values at the start and, newest first, the ends agree |
| `ArrayHistoryAgreement.OrderedRunAgrees` | rtlib/harray.c:118-154 | with oldest-first replay a run from any blocks agrees with the snapshot store at every step iff each block overwritten held, at the start, the present value of every element not stored so far and of element 999 |
| `ArrayHistoryAgreement.OrderedStoreAgrees` | rtlib/harray.c:118-154 | with oldest-first replay one store from a chained state agrees with the O(n) store and leaves a chained state |
| `ArrayHistoryAgreement.ChangeListStoreAgrees` | rtlib/harray.c:118-154 | one O(d) store agrees with the O(n) store if and only if the ends of every index agree |
| `ArrayHistoryAgreement.ChangeListRunAgrees` | rtlib/harray.c:118-154 | a whole O(d) run from any blocks and with any stores agrees with the O(n) run at every step if and only if the ends agree at every step and the start held what OrderedRunAgrees asks for |
| `ArrayHistoryAgreement.EqualStartSuffices` | rtlib/harray.c:80-91 | blocks that start equal to the array hold it, as long as element 999 is not stored |
| `ArrayHistoryAgreement.StartMatters` | rtlib/harray.c:80-91 | from a block that starts with something else a single store leaves the wrong history, in either replay order |
| `ArrayHistoryAgreement.Element999IsLost` | rtlib/harray.c:131-133 | a store to element 999 is missing from the next store's history, in either replay order |
| `ArrayHistoryAgreement.ReplayOrderMatters` | rtlib/harray.c:130-150 | with depth 2 and stores 1, 2, 3 to one element the O(d) store leaves 1 as history 1, the O(n) store 2 |
| `IndexHistory.RingsFit` | rtlib/harray.c:32-52 | rings of stride size are disjoint iff depth <= size, inside depth * size words iff depth >= size, and both iff depth = size |
| `IndexHistory.Overrun` | rtlib/harray.c:32-52 | with depth > size > 1, from any state, enough stores to one element change another's history |
| `IndexHistory.IndexVar.constructor` | rtlib/harray.c:21-27 | pointer i starts at word i |
| `IndexHistory.IndexVar.Move` | rtlib/harray.c:43-47 | the pointer of an index moves to its oldest slot, entering its ring on the first store |
| `IndexHistory.IndexVar.Store` | rtlib/harray.c:32-52 | pushes onto the ring of one index; with depth <= size every other element keeps its history, and no word outside the ring changes |
| `Sizes.HistoryArrayShape` | typechk.c:1185-1253 | dimensions, depth and element type read off an index-wise or array-wise signature |
| `Sizes.ScalarStorage` | symtable.c:598-643 | a scalar of any type reserves exactly the 4 * (depth + 1) bytes flat storage uses, locally and globally |
| `Sizes.ArrayStorage` | symtable.c:563-618 | a one-dimensional array reserves exactly depth blocks of its elements, 4 bytes each or 1 for characters, which the runtime's words fit iff elements are words |
| `Sizes.MultiDimensionalStorage` | symtable.c:604-609 | with several dimensions the blocks fit iff the depth is 1 or the product of the dimensions is at most their sum |
| `Sizes.TwoDimensionalStorage` | symtable.c:563-618 | an array of a by b words gets its elements once and a + b more for every further history, where the stores use a times b |
| `Sizes.GlobalArrayStorage` | sparcgen.c:453-463 | a global array's blocks fit iff it has at most one element |
| `Sizes.StructStorage` | symtable.c:549-643 | a structure takes the bytes of its members with their histories, and as many again for every entry of its own history |
| `Sizes.StructAlone` | symtable.c:623-643 | a pointer to a structure takes a word whatever the structure, and a function nothing |
| `Atomic.Generator.EnterAtomic` | history.c:50-64 | clears the list of modified variables, also an outer block's |
| `Atomic.Generator.MarkAtomicModified` | history.c:112-126 | inside a block a variable is listed once, behind those listed before; outside nothing is |
| `Atomic.Generator.HistoryStore` | history.c:597-628 | inside a block the copy variable is assigned, outside an entry is made |
| `Atomic.Generator.ExitAtomic` | history.c:69-100 | stores the copy of every listed variable, in order |
| `Atomic.Generator.ParseStatement` | astparse.c:711-767 | appends exactly the statement's code: an atomic block is entered, its statements generated and left, and an IF guards its block; HistoryStatements says what that code does |
| `Atomic.AtomicBlock` | history.c:50-126 | a block with IFs and nested blocks gives every variable listed at its end exactly one entry, the last value assigned or, when every assignment was skipped, its stale copy, leaves the other histories alone, and every read inside sees the histories from before |
| `Atomic.BlockDoesItsJob` | history.c:50-126 | a variable gets one entry with its last value if assigned and none otherwise, exactly when it is listed iff it was assigned, or the entry would not show |
| `Atomic.FlatBlock` | history.c:69-100 | a block of assignments alone does that for every variable |
| `Atomic.SkippedIfPushesCopies` | history.c:112-126 | an IF that is not taken still gives its variables an entry, the stale copy |
| `Atomic.NestedBlockForgets` | history.c:59-63 | with a nested block exactly the variables assigned in it or after it get an entry |
| `HistoryStatements.AssignmentMakesEntry` | history.c:597-680 | outside a block an assignment puts its value in front of one history and drops the oldest entry; no other history and no copy changes |
| `HistoryStatements.StatementMeans` | history.c:597-680 | the code of a statement outside a block does what the statement means, told without the code: one entry for an assignment, the body or nothing for an IF, one entry from its copy for every variable a block lists |
| `HistoryStatements.StatementsMean` | astparse.c:942-966 | so does the code of any assignments, IFs and blocks one after the other |
| `HistoryStatements.PastIsRead` | README.md:93-118 | after any assignments a read of depth k gives the value assigned k assignments ago, or an entry from before |
| `HistoryStatements.CountsDown` | README.md:93-118 | n assignments of the variable's value less one leave the numbers passed, the last one first |
| `MirList.List.AddToTail` | mir.c:146-171 | the blank node takes the instruction, a new blank one follows, and in_links stays the number of jumps |
| `MirList.List.Insert` | mir.c:222-241 | a fresh node behind one that is not the tail; in_links stays true |
| `MirList.List.SetJump` | mir.c:326-329 | the jump is set and its target's in_links grows by one |
| `MirList.List.MoveLabel` | mir.c:334-351 | every jump to one node goes to another instead, and in_links of both stay the number of jumps |
| `MirList.List.LabelNodes` | mir.c:401-415 | exactly the nodes some jump targets get a label, all different |
| `MirList.List.Emit` | mir.c:190-249 | appends an instruction, or turns a comparison at the tail into the IF |
| `MirList.JumpsToInsert` | mir.c:222-241 | an inserted node changes no other node's jump count |
| `CodeGen.Generator.EmitCompareIf` | mir.c:199-212 | a comparison and the IF on it become one IF with the comparison as constant |
| `CodeGen.Generator.EmitRel` | astparse.c:352-489 | a relation is 0, a skip on the opposite comparison, 1 |
| `CodeGen.Generator.EmitLogical` | astparse.c:296-350 | OR and AND are a result, two tests that keep it and the other result |
| `CodeGen.Generator.ParseExpression` | astparse.c:174-489 | appends exactly the expression's code and returns the operand that holds its value |
| `CodeGen.Generator.ParseAssign` | astparse.c:797-848 | a value is moved; otherwise the last instruction is redirected to the variable |
| `CodeGen.Generator.ParseIf` | astparse.c:756-767 | the test skips the block |
| `CodeGen.Generator.ParseWhile` | astparse.c:721-737 | test, block and jump back, both patched |
| `CodeGen.Generator.ParseDo` | astparse.c:739-754 | block, test and jump back, both patched |
| `CodeGen.Generator.ParseFor` | astparse.c:769-789 | first statement, test, block, step and jump back |
| `CodeGen.Generator.ParseReturn` | astparse.c:791-795 | the expression's code and a RETURN of its operand |
| `CodeGen.Generator.ParseBlock` | astparse.c:942-966 | the statements' code in order |
| `CodeGen.ParseFunc` | astparse.c:866-936 | a label, BEGIN, one RECEIVE for each parameter, the body and END |
| `Mir.Wrap` | mir.c:822-834 | the number from -2147483648 to 2147483647 that differs from x by a multiple of 4294967296, so x itself in that range |
| `Mir.CompareMeans` | mir.h:56-61 | an IF with a comparison code compares as the opcode of that name says; the codes are numbered on from 31 |
| `Mir.FrameKeepsWords` | sparcgen.c:264-298 | a load from the frame gets what a store put at that offset, and otherwise what was there |
| `Mir.FrameKeepsParameters` | sparcgen.c:307-330 | a parameter pushed to the frame is loaded from there |
| `Mir.PointersKeepWords` | sparcgen.c:246-283 | a load through a register gets what a store through it put there |
| `Mir.GlobalsKeepWords` | sparcgen.c:250-306 | a load of a global gets what a store to it put there, whatever register holds its address |
| `Mir.AddressesLead` | sparcgen.c:143-270 | a load through the address of a variable is a load of the variable |
| `Source.CalculateMeans` | astparse.c:174-300 | arithmetic of the program is that of the integers when the result fits a word and modulo 2^32 otherwise |
| `Source.RelationsMean` | astparse.c:352-489 | exactly one of less, equal and greater holds, and the other relations are their opposites |
| `Source.WhileAddsUp` | astparse.c:721-737 | a WHILE that adds n to s and counts n down adds 1 + 2 + ... + n when that fits a word |
| `Source.AndIsExact` | astparse.c:324-350 | the emitted AND is right iff its left operand is 0 or its right one is not |
| `Source.LogicalAssignIsExact` | astparse.c:839-847 | an assigned relation is right iff it holds or the variable is 0; an assigned OR iff it is false or the variable is 1; an assigned AND iff both operands hold, or the left one does not and the variable is 0 |
| `Source.LastReturnReads` | astparse.c:791-795 | a body that ends with a RETURN of anything but a constant surely reads something |
| `Source.ExecIsSource` | astparse.c:701-861 | in the fragment the emitted code's reading of a program is the source's |
| `CodeGenCorrect.TailRuns` | astparse.c:174-489 | the nodes behind the operands put the operation's value in the destination and change no other name |
| `CodeGenCorrect.ExprRuns` | astparse.c:174-489 | running an expression's code puts its value in the result operand and changes only registers allocated in it |
| `CodeGenCorrect.AssignRuns` | astparse.c:797-848 | running an assignment's code changes the store as the assignment does |
| `CodeGenCorrect.ForIsLoop` | astparse.c:769-789 | a FOR is its first statement and a loop over the body with the step behind it |
| `CodeGenCorrect.ReturnRuns` | astparse.c:791-795 | running a RETURN's code comes to the RETURN of the expression's value |
| `CodeGenCorrect.StmtRuns` | astparse.c:701-861 | a statement's code arrives behind itself with the statement's store, comes to the RETURN the statement leaves with, or keeps running as long as the statement does |
| `CodeGenCorrect.FuncRuns` | astparse.c:866-936 | for every program, fragment or not, the function's run ends with the store or the value of the compiled reading, or runs on |
| `CodeGenCorrect.CompiledEndsTheSame` | astparse.c:866-936 | whenever a program of the fragment ends, its function reaches END with the same variables or returns the same value, memory and calls untouched |
| `CodeGenCorrect.CompiledEndsWhenSourceEnds` | astparse.c:866-936 | the function ends with an outcome if and only if the program ends that way |
| `Simulation.RunMatched` | mir.c:768-845 | if every step of a list is some steps of the edited one, so is every run |
| `Simulation.EndsTheSame` | mir.c:768-845 | the list ends with an outcome iff the edited list does |
| `Simulation.SimulatesThen` | mir.c:768-845 | two edits one after the other |
| `Simulation.LaidOutThen` | mir.c:334-351 | nodes, entries and jump targets through two edits |
| `Simulation.KeepsFlowThen` | mir.c:768-845 | what edits put around a node only goes on to the next, also through two edits |
| `Lowering.PrefixedLaidOut` | mir.c:334-351 | after an insertion with a moved label every jump to the node enters at the inserted instruction and all others are unchanged |
| `Lowering.SuffixedLaidOut` | mir.c:685-693 | after an insertion behind a node no jump moves |
| `Lowering.ReplaceSimulates` | mir.c:809-845 | replacing an instruction by one with the same effect keeps every run |
| `Lowering.PrefixSimulates` | mir.c:538-562 | putting a source in a fresh register first keeps every run, including those that jump there |
| `Lowering.SuffixSimulates` | mir.c:681-694 | storing a result from a fresh register keeps every run |
| `Passes.Lowerer.PutBefore` | mir.c:541-556 | the insertion, the moved label and the changed operand, as one edit that keeps every run |
| `Passes.Lowerer.StoreAfter` | mir.c:681-694 | the store behind an instruction, as one edit that keeps every run |
| `Passes.Lowerer.FoldConstants` | mir.c:809-845 | keeps every run; every addition or multiplication of two constants becomes a MOVE of a word that is the integer sum or product whenever that fits 32 bits and equals it modulo 2^32 otherwise; nothing else changes |
| `Passes.Lowerer.RhsConstants` | mir.c:768-800 | keeps every run; no subtraction from a constant is left, nor an addition with a constant only on its left |
| `Passes.Lowerer.Munge` | mir.c:526-590 | keeps every run; a MOVE through a pointer takes its value from a register, and parameters are received directly |
| `Passes.Lowerer.MungePointers` | mir.c:595-699 | keeps every run; no operand outside loads and stores is dereferenced |
| `Passes.Lowerer.MungeCall` | mir.c:617-633 | every dereferenced argument is loaded before the call |
| `Passes.Lowerer.MungeMove` | mir.c:651-669 | a dereferenced source is loaded, a dereferenced destination makes the MOVE a store |
| `Passes.Lowerer.MungeOther` | mir.c:671-694 | both sources are loaded and the result is stored where dereferenced |
| `Passes.Lowerer.Lower` | compiler.c:413-418 | the four modelled passes in the compiler's order keep every run, leave the forms each of them promises, turn what the generator emits into what the allocator expects, and leave alone what has those forms already |
| `Pipeline.FuncClean` | astparse.c:866-936 | generated instructions have the forms the passes expect, and no jump leaves the function |
| `Pipeline.CompileAll` | compiler.c:413-418 | generates all functions of a program, temporaries numbered on, and then lowers them |
| `Pipeline.CompiledAndLoweredEndsTheSame` | astparse.c:866-936 | when the program ends, the lowered function ends with the same variables or value, memory and calls untouched |
| `Pipeline.LoweredEndsWhenSourceEnds` | astparse.c:866-936 | the lowered function ends with an outcome if and only if the program ends that way |
| `ControlFlow.JumpsStayInside` | mir.c:334-351 | edits that move labels keep every jump inside the function |
| `ControlFlow.EndStaysInReach` | mir.c:768-845 | edits keep END in reach of every node |
| `GeneratedFlow.StmtRegion` | astparse.c:701-861 | every node of a statement's code leads behind it, out of endless loops too |
| `GeneratedFlow.FuncReachesEnd` | astparse.c:866-936 | END is in reach of every node of a generated function |
| `ControlFlow.SureReadIsReported` | mir_cfg.c:549-624 | a list with a read that no edge jumps over has a complete liveness pass |
| `ControlFlow.SureReadKept` | mir.c:768-845 | edits keep such a read |
| `SureReads.StmtReads` | astparse.c:701-861 | the code of a statement that surely reads something has one node no way through it avoids where something is read |
| `SureReads.FuncReads` | astparse.c:866-936 | so has the code of a function whose body surely reads something |
| `Compiler.CompiledIsReady` | compiler.c:413-429 | what the passes hand to the allocator has a graph, END in reach of every node, and only instructions the rewriting is made for |
| `Compiler.SureReadIsComplete` | compiler.c:413-429 | the code of a function whose body surely reads something has a complete liveness pass |
| `Compiler.BuiltMeansProgram` | compiler.c:413-429 | from agreeing starts the allocated code has exactly the outcomes of the function |
| `Compiler.MachineRunsProgram` | compiler.c:413-429 | whatever the registers hold at the start, the allocated code does what the function does from some store |
| `Compiler.NothingLiveAtStart` | compiler.c:413-429 | when nothing is live at the start it does so for every store |
| `Compiler.Compile` | compiler.c:413-429 | generates, lowers and allocates all functions of a program over one interference graph; they always have graphs, the machine code names only the nregs registers, and the machine code of every function of the fragment that surely reads something, or whose code has a complete liveness pass, does what the function does |
| `Frame.VisibleVariablesApart` | scope.c:347-365 | variables of a scope and of the scopes around it occupy disjoint bytes |
| `Frame.VariableInside` | scope.c:161-179 | every variable lies inside the size reserved for the scope around it |
| `Frame.ScopeNode.AddEntry` | symtable.c:485-509 | a record joins the scope's table and its size |
| `Frame.ScopeNode.AddScope` | scope.c:88-111 | a scope is nested behind the ones already nested |
| `Frame.ScopeNode.MaxScopeSize` | scope.c:161-179 | a scope's own size and that of the largest scope inside it |
| `Frame.ScopeNode.PlaceRecords` | scope.c:347-362 | a scope's records lie one behind the other above everything nested in it |
| `Frame.ScopeNode.SetScopeOffset` | scope.c:347-365 | every record of the scope and of the scopes inside it has its offset |
| `Frame.ScopeNode.SetScopeOffsets` | scope.c:335-345 | every function's scope is placed |
| `Frame.SpillSlots.AssignStackLocation` | regalloc.c:887-902 | a new slot right above the last one |
| `Frame.SpillSlots.TempStackLocation` | regalloc.c:908-924 | a temporary keeps its slot; its word is above the scope, a word or more from every other temporary's, and inside what the scope grows to |
| `Frame.SpillSlots.SlotsAreWords` | regalloc.c:887-948 | every slot is a word of its own inside the grown scope |
| `Frame.TempsMoveNothing` | regalloc.c:931-948 | growing a function's scope by its spill slots moves no variable |
| `Frame.Align` | sparcgen.c:51-56 | the next multiple of 8 |
| `Frame.MaxCallArgs` | sparcgen.c:513-525 | the most stack words any call of the function needs |
| `Frame.FrameIsSound` | sparcgen.c:107-346 | variables visible together, spill slots and outgoing stack arguments never overlap, a slot or argument being 4 bytes, and lie inside the aligned frame above its 23 reserved words |
| `Frame.FrameHoldsAll` | sparcgen.c:106-112 | the frame is the next multiple of 8 that holds the header of 112 bytes, the scopes with their slots and the stack arguments |
| `Frame.PlacesInOrder` | sparcgen.c:65-67 | stack arguments begin 92 bytes up and follow each other, locals begin one word above them in scope order, and the slots one after the other above those |
| `Frame.MaxSizeIsDeepest` | scope.c:161-179 | a scope's size is the most bytes any run of scopes nested in each other needs |
| `Frame.RecordsFollow` | scope.c:347-362 | a scope's records follow each other without a gap from the top of what is nested in it |
| `Frame.PassArguments` | sparcgen.c:333-359 | a call puts the first six arguments in registers and each further one in the next stack word |
| `Frame.ReceiveArguments` | sparcgen.c:307-330 | the first six parameters come from registers and all others from the first stack word |
| `Frame.HandOver` | sparcgen.c:307-359 | a parameter is read from where its argument was put exactly when it is one of the first seven |
| `Frame.PlaceAligned` | sparcgen.c:51-67 | outgoing arguments are word-aligned, a variable or spill slot iff the bytes of the scopes below it are whole words |
| `Frame.WholeWordsAligned` | regalloc.c:908-924 | with records and scopes of whole words every place is aligned |
| `Frame.OddRecordMisaligns` | scope.c:347-362 | a one-byte record moves the word after it and the spill slots off the words |
| `Frame.LocalsBelowFramePointer` | sparcgen.c:61-67 | a local has the same place counted down from the frame pointer, with all its bytes below it and above the register save area |

## Left out

* Spill code and a second allocation pass (regalloc.c:641-849, mir_cfg.c:68-82): as written they do not preserve
  meaning. One pass is modelled, with spilling as an outcome.
* `compute_spill_costs` (regalloc.c:314-385): the costs are a parameter; no result depends on how they are computed.
* `global_load_store` (regalloc.c:541-598): it runs before the lists it reads are filled.
* `mir_munge_globals` and `mir_spill_may_aliases`, and dereferenced call destinations.
* `mir_args_to_regs` (mir.c:742-763): it inserts before a call without moving labels.
* `__hist_iw_load__` (rtlib/harray.c:57-75): its caller passes two arguments in the other order and it never
  dereferences the slot. Index-wise reads appear only through what the store keeps.
* `oldest_history` (rtlib/history.c:80-86) and the `.pl0` files: unused variants with another ring size.
* Inlining (inline.c): an early return becomes a MOVE that falls through, so calls are not preserved in general.
* In generated expressions: unary minus, division, calls, casts, strings, structs, pointers and history reads; in
  statements: calls. Division is never emitted by the SPARC back end and is a parameter of `Mir.Context`.
* Assembly text, debugging output, the lexer and parser, type checking, option handling, and memory management.
* Previous-node pointers: a list's order is a sequence, so their consistency is not a statement of the model.
- Pipeline.CompiledAndLoweredEndsTheSame: covers programs without AND and with arithmetic, constant or variable right-hand sides; for the others CodeGenCorrect.FuncRuns describes what the emitted code computes.
- Compiler.Compile: says what functions mean one by one, because the fragment has no calls; ReturnGap shows why a complete liveness pass is needed.
- Allocation.AllocationPreservesMeaning: speaks of nodes from which END can be reached; other nodes get no liveness lists in the source either.
- MirCfg.UsesOf: operands that name functions outside calls are not told apart; the source skips them.
- Passes.Lowerer.Munge: leaves out the ADD and SUB case for pointer and array operands, which depends on declared types.
- Passes.Lowerer.Lower: leaves out mir_munge_globals, which comes first, and mir_spill_may_aliases, which comes before constant folding; both touch only globals and variables whose address is taken.
- Passes.Lowerer.MungePointers: leaves out the ADDR case, which depends on offsets of variables; operands of loads and stores that were there before are left as they are, as in the source.
- IndexHistory.IndexVar.Store: asks for storage that holds every ring; the reserved words do so exactly when depth >= size.
