# Proofs about the compiler's analyses and algorithms

This project models parts of a Solidity-like compiler and proves what they are for. Its centre is the control flow
analysis: a builder turns the statements of a function into a graph, a pruner removes paths through calls that never
return, and an analyzer looks for unassigned variables and unreachable code. Around it stand the recursion checks on
struct types, and standalone algorithms that promise a refinement, a round trip or a bound. All paths below lie under
`compiler/`.

## How the model reads

**Control flow.** Node pointers are indices into the container that owns the nodes. `ControlFlowSemantics` says what a
nondeterministic execution of the syntax tree can do: `Executions(s)` relates traces (declarations, assignments,
accesses and calls, in order) to outcomes (ends, breaks, continues, returns, reverts). Conditions are not interpreted;
an absent loop condition is a condition without effect, because the builder splits the flow there all the same. A
for-each loop is a for loop with an empty loop expression, `?:`, `&&` and `||` are branches, and a user-defined operator
is an internal call. The builder appears twice: as the class `Builder`, whose fields and methods are the program's own,
and as the function `Visit` on its state, which the class is proved to compute. The main theorem is about both:
`CreateFunctionFlow` makes a flow whose paths from entry to exit, and from entry to revert, have exactly the traces of
calls that return and that revert. `ControlFlowPeel` proves one direction (a run through the graph is an execution),
`ControlFlowWalk` the other, both by following the syntax tree and, for loops, the rounds.

`ControlFlowLocality` and `ControlFlowPipeline` show that the flows which the builder produces meet what the two later
passes rely on: arcs are recorded at both ends, a function's flow stays within the nodes made for it, functions built
one after the other share no node, and a flow calls only what its source calls. So for functions built from an empty
container the conditions of the pruner hold, and its result can be said without graphs: `BuildAndPrune` marks the least
set of functions closed under "some execution returns and calls only functions of the set". Afterwards the traces that
reach an exit are exactly those of such executions, and the conditions of the analyzer still hold. So
`BuildPruneAndAnalyze`, which runs all passes, finds a variable unassigned at an exit if and only if some execution that
returns, and calls only functions that return, leaves it declared and unassigned. `ControlFlowAssignments` draws the
consequences a user sees: a parameter is never found, and a return parameter that nothing assigns is.

The pruner's result is the least set of functions closed under "some path from entry to exit calls only functions of
the set"; pruning then makes graph reachability of the exit coincide with membership. The unassigned-variable analysis
computes the meet over all paths. Both worklists take an arbitrary element where the program takes the smallest one, so
the results hold for every order.

**Recursion.** The cycle detector is a class with the program's three-state search. Its visitor is fixed to the form its
documentation asks for: run on every successor, stop at the first hit, with an optional depth limit. The struct check
carries one invariant through the nested visits: flags already set are exact although some structs are unfinished.
`StructValues` says what the two graphs of structs are about, by typing finite values: a struct that contains itself has
no value, and a recursive one has none in which no collection is empty.

**Bytes, bits and numbers.** In SHA-256 `word_t` has 64 bits, and the wide sums are related to 32-bit arithmetic by bit
vectors. Shifts and masks on the length digits, in the UTF-8 checks and in the scanner are written as division,
remainder and sums. The tables of SHA-256 are proved to be the roots of prime numbers that FIPS 180-4 takes them from,
and the digest of "abc" to be the published one. Integers that wrap in the program wrap here: the length counter modulo
2^64 and the chunk tree's level loop. Rationals are pairs in lowest terms with a positive denominator.

**Outside functions.** Keccak-256, the type rules (`binaryOperatorResult`, `unaryOperatorResult`), contract derivation
and a solver's reading of uninterpreted symbols are parameters of the model; the results hold for each choice.

## Where the code and its documentation differ

- `libsolidity/analysis/ControlFlowGraph.h:116-119` calls the exit node empty; the builder records a `Return` occurrence
  on it for each return parameter (`ControlFlowBuilder.cpp:432-440`). The model follows the builder: those occurrences
  are the last events of a returning execution.
- `libsolidity/analysis/ControlFlowAnalyzer.cpp:107-109` ignores accesses and returns, so the set of uninitialized
  accesses stays empty and warning 6321 is never raised. What is proved is the set of unassigned variables.
- `libsolidity/analysis/ControlFlowRevertPruner.cpp:146` discards the result of `ranges::remove`, so a vector of entries
  keeps its length. `RemovedOnlyFromFront` gives the exact condition under which the node is gone; `LastEntryStays` is
  the usual case in which it is not.
- `libsolidity/analysis/ControlFlowAnalyzer.cpp:195-197` extends a range without looking at the source it belongs to.
  When a range that is not empty starts no later than a range of an earlier source ends, it is lost.
  `ReportsAreExactUnlessBridged` shows that the report is wrong exactly then.
- `libsolidity/analysis/ConstantEvaluator.cpp:120-121` answers `0 ** -1` with 0 (`NegativePowerOfZero`). An accepted
  result is the power if and only if the base is not 0 or the exponent is not negative (`ExpIsExactAndBounded`).
- `libsolidity/analysis/ConstantEvaluator.cpp:41-60` asks whether a power fits into 4096 bits, but multiplies the bit
  length of the base by the exponent, so `2 ** 2049` is refused although it fits (`FittingPowerRefused`).
  `ExpAcceptedExactly` says which powers are accepted, `BitLengthDecides` for which the answer is right.
- `libsolidity/analysis/ConstantEvaluator.cpp:285-291` limits the depth of constants, but constants that have been
  evaluated cost no depth. With `c0 = c1`, ..., `c31 = c32` and `c32 = 1`, the sum `c2 + c0` is accepted and `c0 + c2` is
  not (`OperandOrderMatters`). `SameOutcome` shows that memory makes no other difference: wherever evaluation without
  memory does not run out of depth, value and error are the same.
- `libsolutil/SwarmHash.cpp:86-88` multiplies in 64 bits; for inputs above 2^61 bytes the product becomes 0 and the loop
  never ends. `LoopEndsExactlyUpToLimit` is the exact condition.

## Model

| member | source | states |
|---|---|---|
| ControlFlowBuilderClass.CreateFunctionFlow | compiler/libsolidity/analysis/ControlFlowBuilder.cpp:35-50 | the built flow is correct: for every trace, some path from entry to exit has it iff a call can return with it, some path from entry to revert has it iff a call can revert with it; nodes of earlier functions keep their arcs, occurrences and calls |
| ControlFlowCorrectness.BuildingPreservesReturns | compiler/libsolidity/analysis/ControlFlowBuilder.cpp:427-472 | the traces of entry-to-exit paths are exactly those of returning executions, for every nesting of statements, in every graph that extends the built one |
| ControlFlowCorrectness.BuildingPreservesReverts | compiler/libsolidity/analysis/ControlFlowBuilder.cpp:299-363 | the traces of entry-to-revert paths are exactly those of reverting executions |
| ControlFlowCorrectness.LaterFunctionsHold | compiler/libsolidity/analysis/ControlFlowGraph.cpp:44-53 | building another function keeps a finished function finished, so the two theorems survive in the complete graph |
| ControlFlowAssignments.DeclarationsComeFirst | compiler/libsolidity/analysis/ControlFlowBuilder.cpp:482-506 | every execution of a declaration declares the variable first and assigns it next iff it has a value or is assigned from outside; type and value come after |
| ControlFlowAssignments.ExecutionsAll | compiler/libsolidity/analysis/ControlFlowBuilder.cpp:564-567 | a property that is kept when traces are joined, and that each step of a syntax tree has, holds of all its executions |
| ControlFlowAssignments.AssignedIsNotFound | compiler/libsolidity/analysis/ControlFlowAnalyzer.cpp:63-126 | a variable whose every declaration has a value or is assigned from outside, as that of a parameter, is never found unassigned |
| ControlFlowAssignments.UnassignedReturnIsFound | compiler/libsolidity/analysis/ControlFlowAnalyzer.cpp:63-126 | a return parameter that nothing assigns is found unassigned, if the function has an execution that returns and calls only functions of the set |
| ControlFlowBuilder.RecordedIsExecuted | compiler/libsolidity/analysis/ControlFlowBuilder.cpp:482-538 | the occurrences that the builder records for declarations, assignments and return parameters are, in order, the events which the executions list |
| ControlFlowBuilder.FunctionKeepsNodes | compiler/libsolidity/analysis/ControlFlowBuilder.cpp:35-50 | building a function changes no arc, occurrence or call of any node that existed before |
| ControlFlowRuns.RunsArePaths | compiler/libsolidity/analysis/ControlFlowGraph.h:88-106 | stepping event by event through nodes and arcs produces exactly the traces of node paths |
| ControlFlowPeel.Peel | compiler/libsolidity/analysis/ControlFlowBuilder.cpp:564-567 | soundness of every visit: any run through a visited piece of graph starts with an execution of that piece and continues where its outcome says (end, break target, continue target, return node, revert node) |
| ControlFlowWalk.Walk | compiler/libsolidity/analysis/ControlFlowBuilder.cpp:564-567 | completeness of every visit: each execution of the piece, with its outcome, has a run through the graph to the place that outcome leads to |
| ControlFlowPeel.PeelIf | compiler/libsolidity/analysis/ControlFlowBuilder.cpp:138-157 | a run through a branch is the condition followed by one of the sides |
| ControlFlowWalk.WalkIf | compiler/libsolidity/analysis/ControlFlowBuilder.cpp:138-157 | each execution of a branch, with or without else, has a run to where the sides are merged |
| ControlFlowPeel.PeelWhile | compiler/libsolidity/analysis/ControlFlowBuilder.cpp:248-268 | a run through a while loop is finitely many rounds of condition and body, with break and continue where the rounds say |
| ControlFlowWalk.WalkWhile | compiler/libsolidity/analysis/ControlFlowBuilder.cpp:248-268 | each execution of a while loop, whatever its number of rounds, has a run |
| ControlFlowPeel.PeelDoWhile | compiler/libsolidity/analysis/ControlFlowBuilder.cpp:230-246 | a run through a do-while loop enters the body first, and `continue` leads to the condition |
| ControlFlowWalk.WalkDoWhile | compiler/libsolidity/analysis/ControlFlowBuilder.cpp:230-246 | each execution of a do-while loop has a run |
| ControlFlowPeel.PeelFor | compiler/libsolidity/analysis/ControlFlowBuilder.cpp:159-191 | a run through a for loop initializes once, and every round but a broken one ends with the loop expression |
| ControlFlowWalk.WalkFor | compiler/libsolidity/analysis/ControlFlowBuilder.cpp:159-191 | each execution of a for loop has a run |
| ControlFlowPeel.PeelReturn | compiler/libsolidity/analysis/ControlFlowBuilder.cpp:453-472 | a run through `return` evaluates the expression, assigns all return parameters and continues at the return node only |
| ControlFlowPeel.PeelRequireCall | compiler/libsolidity/analysis/ControlFlowBuilder.cpp:349-363 | a run through `require` or `assert` evaluates the call and either reverts or goes on |
| ControlFlowPeel.PeelInternalCall | compiler/libsolidity/analysis/ControlFlowBuilder.cpp:364-378 | a run through an internal call evaluates callee and arguments and then records the call, as its last event before what follows |
| ControlFlowPeel.PeelVariableDeclarationStatement | compiler/libsolidity/analysis/ControlFlowBuilder.cpp:508-538 | declarations come before the initial value, and the assignments after it |
| ControlFlowBehaviours.LoopUnrolls | compiler/libsolidity/analysis/ControlFlowBuilder.cpp:248-268 | one more round of a loop is again an execution of the loop |
| ControlFlowGraph.NodeContainer.NewNode | compiler/libsolidity/analysis/ControlFlowGraph.cpp:60-64 | a new node is empty and last; no other node changes |
| ControlFlowBuilderClass.Builder.Connect | compiler/libsolidity/analysis/ControlFlowBuilder.cpp:579-585 | both ends learn of the arc and nothing else changes |
| ControlFlowBuilderClass.Builder.SplitFlow | compiler/libsolidity/analysis/ControlFlowBuilder.h:97-122 | makes the given number of nodes, connects the current node to each in order, and leaves no current node |
| ControlFlowBuilderClass.Builder.MergeFlow | compiler/libsolidity/analysis/ControlFlowBuilder.h:124-137 | connects every given node but the destination itself to the destination, which is a new node when none is given, and continues there |
| ControlFlowBuilderClass.Builder.NewLabel | compiler/libsolidity/analysis/ControlFlowBuilder.cpp:587-590 | one new unconnected node; the builder stays where it is |
| ControlFlowBuilderClass.Builder.CreateLabelHere | compiler/libsolidity/analysis/ControlFlowBuilder.cpp:592-598 | a new node after the current one becomes current |
| ControlFlowBuilderClass.Builder.PlaceAndConnectLabel | compiler/libsolidity/analysis/ControlFlowBuilder.cpp:600-604 | connects the current node to the label and continues there |
| ControlFlowBuilderClass.Builder.CreateFlow | compiler/libsolidity/analysis/ControlFlowBuilder.cpp:569-577 | the visit starts at the given entry and the end is returned; the current node is restored |
| ControlFlowBuilderClass.Builder.AppendControlFlow | compiler/libsolidity/analysis/ControlFlowBuilder.cpp:564-567 | for every syntax tree the class computes the state that the specification `Visit` gives |
| ControlFlowBuilderClass.Builder.VisitInScope | compiler/libsolidity/analysis/ControlFlowBuilder.cpp:606-620 | the body sees the new jump targets, and the old ones are back afterwards |
| ControlFlowBuilderClass.Builder.VisitIfNode | compiler/libsolidity/analysis/ControlFlowBuilder.cpp:138-157 | computes the specified branch, without a new merge node when there is no else |
| ControlFlowBuilderClass.Builder.VisitForNode | compiler/libsolidity/analysis/ControlFlowBuilder.cpp:159-191 | computes the specified for loop |
| ControlFlowBuilderClass.Builder.VisitWhileNode | compiler/libsolidity/analysis/ControlFlowBuilder.cpp:248-268 | computes the specified while loop |
| ControlFlowBuilderClass.Builder.VisitDoWhileNode | compiler/libsolidity/analysis/ControlFlowBuilder.cpp:230-246 | computes the specified do-while loop |
| ControlFlowBuilderClass.Builder.VisitReturnNode | compiler/libsolidity/analysis/ControlFlowBuilder.cpp:453-472 | computes the specified return, with assignments only when there is an expression |
| ControlFlowBuilderClass.Builder.VisitRevertCallNode | compiler/libsolidity/analysis/ControlFlowBuilder.cpp:340-348 | computes the specified reverting call |
| ControlFlowBuilderClass.Builder.VisitRequireNode | compiler/libsolidity/analysis/ControlFlowBuilder.cpp:349-363 | computes the specified require, the revert arc before the arc to the next node |
| ControlFlowBuilderClass.Builder.VisitInternalCallNode | compiler/libsolidity/analysis/ControlFlowBuilder.cpp:364-378 | computes the specified call |
| ControlFlowBuilderClass.Builder.VisitDeclaration | compiler/libsolidity/analysis/ControlFlowBuilder.cpp:482-506 | computes the specified declaration: the assignment follows at once when there is a value or the variable is assigned from outside |
| ControlFlowBuilderClass.Builder.VisitDeclarationStatement | compiler/libsolidity/analysis/ControlFlowBuilder.cpp:508-538 | computes the specified declaration statement |
| ControlFlowBuilderClass.Builder.VisitFunctionDefinition | compiler/libsolidity/analysis/ControlFlowBuilder.cpp:427-451 | computes the specified function and leaves no current node |
| ControlFlowLocality.ConnectIsLocal | compiler/libsolidity/analysis/ControlFlowBuilder.cpp:579-585 | an arc between nodes of one stretch keeps exits and entries mirrored and within the stretch |
| ControlFlowLocality.VisitIsLocal | compiler/libsolidity/analysis/ControlFlowBuilder.cpp:564-567 | no visit makes an arc that leaves the nodes of its function, or one recorded at one end only |
| ControlFlowLocality.BuildingIsLocal | compiler/libsolidity/analysis/ControlFlowBuilder.cpp:35-50 | the whole flow of a function stays within the nodes made for it |
| ControlFlowPipeline.FunctionIsBuilt | compiler/libsolidity/analysis/ControlFlowBuilder.cpp:35-50 | a built function, also after later ones, has its own stretch of nodes and a revert node without exits |
| ControlFlowPipeline.BuiltFlowsAreDisjoint | compiler/libsolidity/analysis/ControlFlowGraph.cpp:33-53 | flows with separate stretches of nodes satisfy the disjointness that pruning relies on |
| ControlFlowPipeline.ConstructFlows | compiler/libsolidity/analysis/ControlFlowGraph.cpp:33-53 | building all functions into an empty container gives the specified graph and flows |
| ControlFlowPipeline.PartsAreApart | compiler/libsolidity/analysis/ControlFlowGraph.cpp:33-53 | of two functions built in sequence one was finished before the other was begun |
| ControlFlowPipeline.ProgramIsDisjoint | compiler/libsolidity/analysis/ControlFlowGraph.cpp:33-53 | the flows of functions built from nothing share no nodes |
| ControlFlowPipeline.ProgramIsValid | compiler/libsolidity/analysis/ControlFlowGraph.cpp:33-53 | all arcs and ends of such flows lie in the graph |
| ControlFlowPipeline.FlowsAreInRange | compiler/libsolidity/analysis/ControlFlowGraph.cpp:33-53 | each such flow is what the analyzer relies on, its entries included, before pruning |
| ControlFlowPipeline.OwnedCalls | compiler/libsolidity/analysis/ControlFlowBuilder.cpp:364-378 | a node that belongs to a flow calls only functions that the source of its function calls |
| ControlFlowPipeline.ProgramCallsHaveFlows | compiler/libsolidity/analysis/ControlFlowGraph.cpp:33-53 | if every implemented function called in the source is built, every call in a flow has a flow |
| ControlFlowPipeline.GraphReturnsAsSource | compiler/libsolidity/analysis/ControlFlowRevertPruner.cpp:79-107 | a path from entry to exit that calls only functions of a set exists iff an execution returns that calls only those |
| ControlFlowPipeline.CalleeRuns | compiler/libsolidity/analysis/ControlFlowRevertPruner.cpp:84-86 | the item whose state decides about a call is that of the called function, in the contract in which it runs |
| ControlFlowPipeline.FoundAsSource | compiler/libsolidity/analysis/ControlFlowRevertPruner.cpp:58-125 | the marked functions are the least set closed under "some execution returns and calls only functions of the set"; a function is marked iff it has such an execution |
| ControlFlowPipeline.BuildAndPrune | compiler/libsolidity/analysis/ControlFlowRevertPruner.cpp:49-56 | building from nothing and pruning marks that set; then a flow's exit can be reached iff such an execution exists, its traces are exactly those of such executions, reachable calls of unmarked functions lead to revert alone, and the flow is what the analyzer relies on |
| ControlFlowPipeline.PathsAfterPruning | compiler/libsolidity/analysis/ControlFlowRevertPruner.cpp:127-159 | the paths to the exit of a pruned flow are the paths of the built one on which every call can return |
| ControlFlowPipeline.TracesAfterPruning | compiler/libsolidity/analysis/ControlFlowRevertPruner.cpp:127-159 | the traces that reach the exit of a pruned flow are exactly those of executions that return and call only functions of the set |
| ControlFlowPipeline.CallsAfterPruning | compiler/libsolidity/analysis/ControlFlowRevertPruner.cpp:138-150 | a reachable call of an implemented function outside the set has the revert node as its only exit |
| ControlFlowPipeline.PruningKeepsRange | compiler/libsolidity/analysis/ControlFlowRevertPruner.cpp:145-150 | pruning keeps the arcs of the graph, entries included, within it |
| ControlFlowPipeline.PrunedFlowIsExact | compiler/libsolidity/analysis/ControlFlowRevertPruner.cpp:127-159 | all of this for each flow of a program whose states have been found |
| ControlFlowPipeline.OccurrencesOnPath | compiler/libsolidity/analysis/ControlFlowAnalyzer.cpp:95-115 | the variable occurrences of a path's trace are those met before its last node, then those of that node |
| ControlFlowPipeline.MeetAtExit | compiler/libsolidity/analysis/ControlFlowAnalyzer.cpp:63-126 | at an exit, which only reads, the meet over all paths is about the traces of paths |
| ControlFlowPipeline.UnassignedAsSource | compiler/libsolidity/analysis/ControlFlowAnalyzer.cpp:63-126 | a variable is in the exit's entry set iff some execution that returns, and calls only functions of the set, leaves it declared and unassigned |
| ControlFlowPipeline.AnalyzeFlow | compiler/libsolidity/analysis/ControlFlowAnalyzer.cpp:41-60 | the analysis of one pruned flow finds exactly these variables, and the unreachable locations; what has been warned about afterwards is what was before and the merged ranges of this flow, each once |
| ControlFlowPipeline.BuildPruneAndAnalyze | compiler/libsolidity/interface/CompilerStack.cpp:580-593 | building, pruning and analyzing all functions finds the least set of returning functions, and for each function exactly these variables; a range is warned about iff it is a merged range of unreachable code of some pruned flow, and then once; the pruned graph has exactly the traces of the source and every arc is recorded at both ends |
| ControlFlowRevertPruner.ControlFlowRevertPruner.Run | compiler/libsolidity/analysis/ControlFlowRevertPruner.cpp:49-56 | for node-disjoint flows the whole pass finds the exact states and prunes every flow exactly; contents of nodes stay, and no arc leaves the graph if none did |
| ControlFlowRevertPruner.FindScopeContract | compiler/libsolidity/analysis/ControlFlowRevertPruner.cpp:31-47 | a free function has no scope; otherwise the scope is the calling contract if that derives from the declaring one, and else the declaring one |
| ControlFlowRevertPruner.ScopeIsUnique | compiler/libsolidity/analysis/ControlFlowRevertPruner.cpp:31-47 | for all contracts this relation gives one scope |
| ControlFlowRevertPruner.ControlFlowRevertPruner.FindRevertStates | compiler/libsolidity/analysis/ControlFlowRevertPruner.cpp:58-125 | ends for every order of the pending set; the functions with a non-reverting path are the least closed set; a function is left unknown only if it reaches a call of another unknown function, and those marked as reverting reach none |
| ControlFlowRevertPruner.ControlFlowRevertPruner.Search | compiler/libsolidity/analysis/ControlFlowRevertPruner.cpp:79-107 | one search visits exactly the nodes reachable through calls known to return, and registers the function with exactly the unknown functions it calls there |
| ControlFlowRevertPruner.Resolve | compiler/libsolidity/analysis/ControlFlowRevertPruner.cpp:109-123 | when a state becomes known and the waiting searches are restarted, every other function is still settled, pending or registered where it waits |
| ControlFlowRevertPruner.KeepWaiting | compiler/libsolidity/analysis/ControlFlowRevertPruner.cpp:109-116 | a search that ended at unknown calls may be dropped from the pending set, because it is registered |
| ControlFlowRevertPruner.WorklistDone | compiler/libsolidity/analysis/ControlFlowRevertPruner.cpp:66-125 | with nothing pending, the marked set is closed and least |
| ControlFlowRevertPruner.UnknownOnlyByRecursion | compiler/libsolidity/analysis/ControlFlowRevertPruner.cpp:140-144 | from every unknown function a cycle of unknown functions is reachable in the call graph |
| ControlFlowRevertPruner.ControlFlowRevertPruner.ModifyFunctionFlows | compiler/libsolidity/analysis/ControlFlowRevertPruner.cpp:127-159 | for every flow: exit reachable iff marked as returning; each reachable node calling any other function has the revert node as its only exit |
| ControlFlowRevertPruner.ControlFlowRevertPruner.PruneFlow | compiler/libsolidity/analysis/ControlFlowRevertPruner.cpp:131-157 | cuts exactly the nodes that the search reaches and that call functions not known to return; all other exits of the flow, and all other flows, stay |
| ControlFlowRevertPruner.ControlFlowRevertPruner.CutAfter | compiler/libsolidity/analysis/ControlFlowRevertPruner.cpp:145-150 | the node keeps one exit, the revert node; the entries of each former exit lose the node as often as the removal does it, the revert node gains it, and nothing else changes |
| ControlFlowRevertPruner.PruningIsExact | compiler/libsolidity/analysis/ControlFlowRevertPruner.cpp:127-159 | a pruned flow has an exit reachable from its entry iff its function is marked as returning, and no reachable call of a non-returning function goes on |
| ControlFlowRevertPruner.PrunedReaches | compiler/libsolidity/analysis/ControlFlowRevertPruner.cpp:145-150 | after pruning only nodes that were reachable through returning calls, and the revert node, can be reached |
| ControlFlowRevertPruner.RemovedOnlyFromFront | compiler/libsolidity/analysis/ControlFlowRevertPruner.cpp:145-146 | the discarded removal keeps the length; the node is gone iff it does not occur in the last places, as many as it has occurrences |
| ControlFlowRevertPruner.RemovalMeans | compiler/libsolidity/analysis/ControlFlowRevertPruner.cpp:145-146 | in front stand all other entries, as often as before; behind them what was in the last places |
| ControlFlowRevertPruner.OthersStay | compiler/libsolidity/analysis/ControlFlowRevertPruner.cpp:145-146 | however often the node is removed, other entries stay and none is added |
| ControlFlowRevertPruner.CuttingKeepsLinks | compiler/libsolidity/analysis/ControlFlowRevertPruner.cpp:145-150 | if every arc of the graph is recorded where it ends, that is so after the cut |
| ControlFlowRevertPruner.LastEntryStays | compiler/libsolidity/analysis/ControlFlowRevertPruner.cpp:145-146 | a node that is the last entry is still there afterwards |
| ControlFlowAnalyzer.CheckUninitializedAccess | compiler/libsolidity/analysis/ControlFlowAnalyzer.cpp:63-126 | ends on every finite graph, loops included; infos exist exactly for reachable nodes, and a variable is in an entry set iff some path declares it and does not assign it after its last declaration; the set of uninitialized accesses is empty |
| ControlFlowAnalyzer.Traverse | compiler/libsolidity/analysis/ControlFlowAnalyzer.cpp:95-124 | one step keeps the entry sets justified by paths and the nodes outside the worklist stable, and something is learnt unless the worklist only shrinks |
| ControlFlowAnalyzer.WalkThrough | compiler/libsolidity/analysis/ControlFlowAnalyzer.cpp:99-115 | a variable is unassigned afterwards iff its last declaration in the node is not followed by an assignment, or it was unassigned before and is not assigned |
| ControlFlowAnalyzer.TransferMeaning | compiler/libsolidity/analysis/ControlFlowAnalyzer.cpp:100-114 | the same for the specification function, by cases on the last occurrence |
| ControlFlowAnalyzer.StableIsComplete | compiler/libsolidity/analysis/ControlFlowAnalyzer.cpp:90-124 | once stable, entry sets account for every path of every length |
| ControlFlowAnalyzer.Analyzer.CheckUnreachable | compiler/libsolidity/analysis/ControlFlowAnalyzer.cpp:170-202 | collects exactly the valid locations of nodes on a path backwards from one of the three ends but on no path forwards from entry, and warns of each merged range not warned about before |
| ControlFlowAnalyzer.CollectUnreachable | compiler/libsolidity/analysis/ControlFlowAnalyzer.cpp:172-190 | the collected locations are sorted without repetition and are exactly those of unreachable nodes |
| ControlFlowAnalyzer.ReportsAreExact | compiler/libsolidity/analysis/ControlFlowAnalyzer.cpp:192-198 | where no source is bridged the merged ranges are separated by gaps and cover exactly the unreachable code, for all ranges that are not reversed |
| ControlFlowAnalyzer.ReportsAreExactUnlessBridged | compiler/libsolidity/analysis/ControlFlowAnalyzer.cpp:192-198 | the report covers exactly the unreachable code iff no range that is not empty starts at or before the end of a range of a source sorted before its own |
| ControlFlowAnalyzer.OneSourceIsNotBridged | compiler/libsolidity/analysis/ControlFlowAnalyzer.cpp:192-198 | locations of one source always meet that condition |
| ControlFlowAnalyzer.TwoSourcesCanBeBridged | compiler/libsolidity/analysis/ControlFlowAnalyzer.cpp:195-197 | two ranges of different sources for which it fails: the second disappears |
| ControlFlowAnalyzer.Analyzer.Warn | compiler/libsolidity/analysis/ControlFlowAnalyzer.cpp:199-200 | the new warnings are the ranges not warned about before, in order, and all ranges are remembered |
| ControlFlowAnalyzer.NotWarnedForMeaning | compiler/libsolidity/analysis/ControlFlowAnalyzer.cpp:199-200 | a range is among the new warnings iff it is new, and then once |
| ControlFlowAnalyzer.WarningsMean | compiler/libsolidity/analysis/ControlFlowAnalyzer.cpp:199-200 | over all functions each range is warned about once |
| ControlFlowAnalyzer.ReportedIsMerged | compiler/libsolidity/analysis/ControlFlowAnalyzer.cpp:192-198 | the ranges reported for a flow depend on the graph alone |
| SourceLocations.MergeRanges | compiler/libsolidity/analysis/ControlFlowAnalyzer.cpp:192-198 | the loop computes the specified merging |
| SourceLocations.MergeExact | compiler/libsolidity/analysis/ControlFlowAnalyzer.cpp:195-197 | merging ordered ranges without a bridge keeps the covered offsets and leaves gaps |
| SourceLocations.MergeLoses | compiler/libsolidity/analysis/ControlFlowAnalyzer.cpp:195-197 | merging with a bridge loses an offset of the later source |
| SourceLocations.LessTotal | compiler/liblangutil/SourceLocation.h:47-53 | of two different locations exactly one is smaller |
| SourceLocations.LessTransitive | compiler/liblangutil/SourceLocation.h:47-53 | the order is transitive, also across missing source names |
| SourceLocations.SortedIsUnique | compiler/libsolidity/analysis/ControlFlowAnalyzer.cpp:180-190 | a set of locations has one sorted list |
| Algorithms.BreadthFirstSearch.Run | compiler/libsolutil/Algorithms.h:102-118 | ends, and visits exactly the vertices reachable from the initial ones |
| Algorithms.ExploredAll | compiler/libsolutil/Algorithms.h:105-116 | when the queue is empty the visited set is reachability |
| Algorithms.CycleDetector.Run | compiler/libsolutil/Algorithms.h:51-70 | from a fresh start the result is a hit iff a cycle is reachable, and the hit is then a direct successor from which a cycle is reachable; inside the search it is a hit iff a cycle is reachable from the vertex; a depth abort needs a walk of that length |
| Algorithms.CycleDetector.Visit | compiler/libsolutil/Algorithms.h:61-65 | the early exit is set by the visitor iff a cycle is reachable |
| Algorithms.CycleStep | compiler/libsolutil/Algorithms.h:51-70 | a cycle is reachable from a vertex iff it is from one of its successors |
| Algorithms.MeetingCloses | compiler/libsolutil/Algorithms.h:57-58 | meeting a vertex in progress closes a cycle through it |
| DeclarationTypeChecker.Checker.Check | compiler/libsolidity/analysis/DeclarationTypeChecker.cpp:56-119 | for every order of visits, without a fatal error all visited structs have a flag, each flag is true iff a cycle is reachable among member types with function types cut out, and none contains itself directly; a fatal error is raised only for a real cycle or an exhausted depth |
| DeclarationTypeChecker.Checker.VisitStruct | compiler/libsolidity/analysis/DeclarationTypeChecker.cpp:56-91 | keeps that while structs are in progress; the "recursive struct seen" mark is set iff it was set before or a cycle is reachable from the visited struct |
| DeclarationTypeChecker.Checker.VisitMembers | compiler/libsolidity/analysis/DeclarationTypeChecker.cpp:77-84 | after the members, "has a recursive child" holds iff a mentioned struct is flagged |
| DeclarationTypeChecker.Checker.CheckDirectRecursion | compiler/libsolidity/analysis/DeclarationTypeChecker.cpp:93-116 | passes only structs from which no containment cycle is reachable through the types known so far |
| DeclarationTypeChecker.Checker.VisitTypeName | compiler/libsolidity/analysis/DeclarationTypeChecker.cpp:145-157 | visits exactly the structs the name mentions, and restores the checker |
| DeclarationTypeChecker.StateFlag | compiler/libsolidity/analysis/DeclarationTypeChecker.cpp:65-70 | meeting a struct in progress proves a cycle through it, so its flag may be set at once |
| DeclarationTypeChecker.StatePop | compiler/libsolidity/analysis/DeclarationTypeChecker.cpp:86-91 | when a struct is finished its flag is exact, although others are unfinished |
| DeclarationTypeChecker.NoCycleExtends | compiler/libsolidity/analysis/DeclarationTypeChecker.cpp:93-116 | checking each struct when it finishes rules out every cycle of direct containment among finished ones |
| DeclarationTypeChecker.NothingRejected | compiler/libsolidity/analysis/DeclarationTypeChecker.cpp:93-116 | in a completed check no flagged struct reaches a containment cycle |
| StructValues.HasValueUnlessCyclic | compiler/libsolidity/analysis/DeclarationTypeChecker.cpp:56-119 | over finite values in which arrays of fixed size have elements and other collections may be empty: a struct has a value iff no cycle of containment can be reached from it, and one without empty collections iff no cycle of mentions can |
| StructValues.HeldHasNoCycle | compiler/libsolidity/analysis/DeclarationTypeChecker.cpp:93-116 | no cycle can be reached from a struct that a value holds |
| StructValues.CheckStructs | compiler/libsolidity/analysis/DeclarationTypeChecker.cpp:56-119 | the check over any list of structs: accepted ones have values, and are flagged iff none of their values has all collections filled; one rejected for containing itself has none |
| Picosha2.Hash256 | compiler/libsolutil/picosha2.h:287-296 | any division of a message under 2^61 bytes into pieces gives the digest of the whole message |
| Picosha2.Hash256OneByOne.Process | compiler/libsolutil/picosha2.h:193-203 | the hasher represents the message so far followed by the data: state, rest in the buffer and length counter |
| Picosha2.Hash256OneByOne.Finish | compiler/libsolutil/picosha2.h:205-222 | the state is the fold of the block function over the message padded as in section 5.1.1 of FIPS 180-4 |
| Picosha2.Hash256OneByOne.PadBlock | compiler/libsolutil/picosha2.h:206-218 | the last bytes, the mark and the zeros, in one or two blocks |
| Picosha2.PaddingFits | compiler/libsolutil/picosha2.h:205-222 | the two layouts that finishing writes are both the standard padding |
| Picosha2.Hash256Block | compiler/libsolutil/picosha2.h:91-140 | with 64-bit words and masks the block function computes section 6.2.2 of FIPS 180-4 |
| Picosha2.MessageSchedule | compiler/libsolutil/picosha2.h:95-106 | the 64 words are the message schedule of the block |
| Picosha2.RoundAgrees | compiler/libsolutil/picosha2.h:117-128 | the unmasked wide sums give the 32-bit round |
| Picosha2.SigmasAgree | compiler/libsolutil/picosha2.h:78-89 | the four sigma functions on wide words give those on 32-bit words |
| Picosha2.RotrAgrees | compiler/libsolutil/picosha2.h:73-76 | the masked wide rotation is the 32-bit rotation |
| Picosha2.ChoicesAgree | compiler/libsolutil/picosha2.h:67-71 | `ch` and `maj` keep the upper half clear, despite the complement |
| Picosha2.AddToDataLength | compiler/libsolutil/picosha2.h:235-247 | the four digits stay digits and their value grows by the length, modulo 2^64, although the carry loop may stop early |
| Picosha2.WriteDataBitLength | compiler/libsolutil/picosha2.h:248-268 | writes eight times the length, big-endian in 8 bytes |
| Picosha2.ShiftDigits | compiler/libsolutil/picosha2.h:249-261 | the shifted digits have eight times the value |
| Picosha2.GetHashBytes | compiler/libsolutil/picosha2.h:224-232 | the big-endian bytes of the state, cut to the space there is |
| Sha256.FoldAppend | compiler/libsolutil/picosha2.h:193-203 | hashing whole blocks one part after the other is hashing them together |
| Sha256Constants.ConstantsAreCubeRoots | compiler/libsolutil/picosha2.h:50-61 | entry i of the table is the first 32 bits of the fractional part of the cube root of the prime number that has i prime numbers below it |
| Sha256Constants.InitialIsSquareRoots | compiler/libsolutil/picosha2.h:63-65 | the same of the square roots and the initial hash value |
| Sha256Constants.DigestOfAbc | compiler/libsolutil/picosha2.h:287-296 | the digest of "abc" is that of the example of FIPS 180-2, appendix B.1 |
| Sha256Constants.BigEndianReadBack | compiler/libsolutil/picosha2.h:248-268 | a length that fits into the bytes is read back from them |
| Sha256Constants.TrialDivisionDecides | compiler/libsolutil/picosha2.h:50-61 | below 324 a number is prime iff it is 2, 3, 5, 7, 11, 13, 17 or divided by none of them |
| StringDistance.StringDistance | compiler/libsolutil/StringUtils.cpp:53-91 | the three rolling rows give the full distance, the least cost of all alignments |
| StringDistance.DistanceIsLeastCost | compiler/libsolutil/StringUtils.cpp:61-87 | some alignment by deletion, insertion, substitution and swap of neighbours has the cost, and none a smaller one |
| StringDistance.DistanceIsLowerBound | compiler/libsolutil/StringUtils.cpp:69-86 | no alignment of two prefixes is cheaper |
| StringDistance.DistanceIsAttained | compiler/libsolutil/StringUtils.cpp:69-86 | an alignment of that cost exists, for all prefixes |
| StringDistance.ZeroMeansEqual | compiler/libsolutil/StringUtils.cpp:76-78 | the distance is 0 iff the strings are equal |
| StringDistance.RowKept | compiler/libsolutil/StringUtils.cpp:71-87 | writing a cell does not touch the two earlier rows that are still read |
| StringDistance.Cell | compiler/libsolutil/StringUtils.cpp:66-86 | with the earlier rows in the table the cell is the distance of the prefixes |
| StringLiterals.PrintedStringReadBack | compiler/libsolutil/CommonData.cpp:199-224 | scanning any printed byte string, whatever stands before and after it, succeeds, yields the string and stops after the closing quote |
| StringLiterals.PrintAndScan | compiler/libsolutil/CommonData.cpp:199-224 | printing into a text, moving the stream there and scanning gives the string back and stops after the closing quote |
| StringLiterals.EscapedReadBack | compiler/liblangutil/Scanner.cpp:831-856 | the same from any position inside the literal |
| StringLiterals.CharacterReadBack | compiler/liblangutil/Scanner.cpp:764-806 | each printed byte, escaped or not, is read back as itself |
| StringLiterals.HexValueMeans | compiler/liblangutil/Common.h:48-57 | a character has a value iff it is the digit of that value in lower or upper case |
| StringLiterals.HexEscapesMean | compiler/liblangutil/Scanner.cpp:158-191 | two digits after x, of either case, are the byte, and four after u the code point, most significant digit first |
| StringLiterals.MissingHexDigitEscape | compiler/liblangutil/Scanner.cpp:158-191 | if one of the digits is missing the escape is illegal |
| StringLiterals.CharacterEscapesMean | compiler/liblangutil/Scanner.cpp:764-806 | the other escapes, each by the character it is written with and the one it stands for |
| StringLiterals.PrintedIsPrintable | compiler/libsolutil/CommonData.cpp:199-224 | printed strings consist of printable ASCII characters, whatever the bytes |
| StringLiterals.PlainIsPrintedAsItIs | compiler/libsolutil/CommonData.cpp:199-224 | a byte is printed as itself iff it is printable and neither quote nor backslash |
| StringLiterals.EscapeAndQuoteString | compiler/libsolutil/CommonData.cpp:199-224 | the loop prints the quoted escapes |
| StringLiterals.Scanner.ScanString | compiler/liblangutil/Scanner.cpp:825-870 | literal, position and error are those of the specified scan, for every input and not only printed ones |
| StringLiterals.Scanner.ScanEscape | compiler/liblangutil/Scanner.cpp:764-806 | appends the decoded bytes and stops after the escape, or fails without appending |
| StringLiterals.Scanner.ScanHexDigits | compiler/liblangutil/Scanner.cpp:158-191 | the value of the digits; without enough of them the position is restored |
| StringLiterals.Scanner.TryScanEndOfLine | compiler/liblangutil/Scanner.cpp:330-346 | takes a line feed, a carriage return or both, and nothing else |
| StringLiterals.Scanner.Advance | compiler/liblangutil/Scanner.h:206 | the current character follows the stream; false at the end |
| StringLiterals.CharStream.AdvanceAndGet | compiler/liblangutil/CharStream.cpp:57-65 | never moves once at the end; 0 stands for no character |
| StringLiterals.CharStream.SetPosition | compiler/liblangutil/CharStream.cpp:74-79 | moves to the location and returns the character there |
| Utf8.ValidateUTF8 | compiler/libsolutil/UTF8.cpp:79-133 | true iff the bytes are a concatenation of sequences of Table 3-7 in section 3.9 of the Unicode Standard, iff they encode some sequence of scalar values |
| Utf8.ChecksMatchTable | compiler/libsolutil/UTF8.cpp:33-77 | the byte checks of one sequence accept exactly the rows of the table |
| Utf8.TableIsEncodings | compiler/libsolutil/UTF8.cpp:32-77 | the rows of the table are exactly the encodings of scalar values |
| Utf8.WellFormedMeaning | compiler/libsolutil/UTF8.cpp:84-126 | reading sequence by sequence accepts exactly the concatenations |
| Utf8.UnicodeEscapesAreValid | compiler/liblangutil/Scanner.cpp:193-209 | the bytes added for a code point up to 0xFFFF are valid iff it is no surrogate, and then decode to it |
| ConstantArithmetic.ExpIsExactAndBounded | compiler/libsolidity/analysis/ConstantEvaluator.cpp:110-156 | every accepted result has numerator and denominator below 2^4096, and is the mathematical power iff the base is not 0 or the exponent is not negative |
| ConstantArithmetic.ExpAcceptedExactly | compiler/libsolidity/analysis/ConstantEvaluator.cpp:110-156 | a whole exponent is accepted iff numerator and denominator each need at most 4096 bits by the bit length of the base times the exponent; the 32-bit limit on the exponent never decides |
| ConstantArithmetic.BitLengthDecides | compiler/libsolidity/analysis/ConstantEvaluator.cpp:41-60 | with m the top bit of the base: exp * (m + 1) <= 4096 is accepted and fits, exp * m >= 4096 is refused and does not fit |
| ConstantArithmetic.FittingPowerRefused | compiler/libsolidity/analysis/ConstantEvaluator.cpp:41-60 | 2 to the power 2049 is below 2^4096 and refused |
| ConstantArithmetic.NegativePowerOfZero | compiler/libsolidity/analysis/ConstantEvaluator.cpp:119-121 | a zero base with a negative exponent gives 0 |
| ConstantArithmetic.ExpRefusedOnlyIfLarge | compiler/libsolidity/analysis/ConstantEvaluator.cpp:127-135 | a power is refused only if its numerator or denominator reaches 2^2048 |
| ConstantArithmetic.FitsIsBelowLimit | compiler/libsolidity/analysis/ConstantEvaluator.cpp:41-60 | a power that passes the check is below 2^4096 |
| ConstantArithmetic.NotFittingIsLarge | compiler/libsolidity/analysis/ConstantEvaluator.cpp:41-60 | a power that does not pass is at least 2^2048 |
| ConstantArithmetic.FitsBase2Exactly | compiler/libsolutil/Numeric.cpp:25-40 | at base 2 the check is exact: it holds iff the product is below 2^4096 |
| ConstantArithmetic.ShlIsExactAndBounded | compiler/libsolidity/analysis/ConstantEvaluator.cpp:157-175 | a left shift by a 32-bit amount is accepted iff its result is below 2^4096 in magnitude, and is then exact |
| ConstantArithmetic.SarIsFloor | compiler/libsolidity/analysis/ConstantEvaluator.cpp:176-209 | a right shift is floor division by the power of two for all signs, including the shortcut for large amounts |
| ConstantArithmetic.SarUndoesShl | compiler/libsolidity/analysis/ConstantEvaluator.cpp:157-209 | shifting back gives the number shifted |
| ConstantArithmetic.ModIsTruncatedRemainder | compiler/libsolidity/analysis/ConstantEvaluator.cpp:99-109 | on fractions and integers alike the remainder truncates toward zero |
| ConstantArithmetic.BitwiseMeaning | compiler/libsolidity/analysis/ConstantEvaluator.cpp:75-90 | every bit of the result is the operation on that bit, in infinite two's complement |
| ConstantArithmetic.SumsAndProductsAreExact | compiler/libsolidity/analysis/ConstantEvaluator.cpp:91-93 | sum, difference and product are the fractions over the product of the denominators |
| ConstantArithmetic.QuotientsAreExact | compiler/libsolidity/analysis/ConstantEvaluator.cpp:94-109 | division and remainder exist iff the divisor is not 0; the quotient is the fraction multiplied crosswise |
| ConstantArithmetic.BitOperatorsAreBitwise | compiler/libsolidity/analysis/ConstantEvaluator.cpp:75-90 | the operators exist iff both operands are whole, and then each bit of the result is or, exclusive or, and of their bits |
| ConstantArithmetic.NegationIsExact | compiler/libsolidity/analysis/ConstantEvaluator.cpp:225-226 | a number and its negation add up to 0 |
| ConstantArithmetic.ComplementInvertsBits | compiler/libsolidity/analysis/ConstantEvaluator.cpp:220-224 | the complement exists iff the operand is whole, and inverts every bit |
| ConstantEvaluator.Evaluator.Evaluate | compiler/libsolidity/analysis/ConstantEvaluator.cpp:273-304 | ends even on cyclic constants, in the state of the specified evaluation with memory; the value, from the cache or not, is the value without memory and lies in the range of its type; unless evaluation without memory runs out of depth, value and error are the same as there |
| ConstantEvaluator.EvaluateExpression | compiler/libsolidity/analysis/ConstantEvaluator.cpp:264-270 | the same with a fresh evaluator |
| ConstantEvaluator.Evaluator.EvaluateVariable | compiler/libsolidity/analysis/ConstantEvaluator.cpp:277-295 | the same for constants, whose definition is followed at most 32 deep |
| ConstantEvaluator.Evaluator.Accept | compiler/libsolidity/analysis/ConstantEvaluator.cpp:296-301 | the specified visit: operands first, remembered or not, then the expression |
| ConstantEvaluator.RememberIsRight | compiler/libsolidity/analysis/ConstantEvaluator.cpp:273-304 | evaluation with memory keeps all remembered values right, and fails only as evaluation without memory does, or where that runs out of depth |
| ConstantEvaluator.VariableIsRight | compiler/libsolidity/analysis/ConstantEvaluator.cpp:277-295 | the same for constants |
| ConstantEvaluator.EndUnaryIsRight | compiler/libsolidity/analysis/ConstantEvaluator.cpp:306-330 | what is stored for a unary operation is its value; if nothing is stored it has none; errors are its own |
| ConstantEvaluator.EndBinaryIsRight | compiler/libsolidity/analysis/ConstantEvaluator.cpp:332-376 | what is stored for a binary operation is its value; if nothing is stored it has none; errors are its own |
| ConstantEvaluator.EndIdentifierIsRight | compiler/libsolidity/analysis/ConstantEvaluator.cpp:384-389 | an identifier has the value of the constant it names |
| ConstantEvaluator.EndTupleIsRight | compiler/libsolidity/analysis/ConstantEvaluator.cpp:391-395 | only a tuple of one component that is no inline array has a value |
| ConstantEvaluator.SameOutcome | compiler/libsolidity/analysis/ConstantEvaluator.cpp:273-304 | unless evaluation without memory runs out of depth, evaluation with any right memory has the same value or the same error |
| ConstantEvaluator.OperandOrderMatters | compiler/libsolidity/analysis/ConstantEvaluator.cpp:285-293 | a chain of 33 constants for which the sum of the third and the first is accepted and the sum of the first and the third is rejected |
| ConstantEvaluator.FailureStays | compiler/libsolidity/analysis/ConstantEvaluator.cpp:285-293 | an error other than the lack of depth is the same at every greater depth |
| ConstantEvaluator.Evaluator.EndVisitUnary | compiler/libsolidity/analysis/ConstantEvaluator.cpp:306-330 | computes the specified end of a visit to a unary operation |
| ConstantEvaluator.Evaluator.EndVisitBinary | compiler/libsolidity/analysis/ConstantEvaluator.cpp:332-376 | computes the specified end of a visit to a binary operation |
| ConstantEvaluator.Evaluator.EndVisitIdentifier | compiler/libsolidity/analysis/ConstantEvaluator.cpp:384-389 | computes the specified end of a visit to an identifier |
| ConstantEvaluator.Evaluator.EndVisitTuple | compiler/libsolidity/analysis/ConstantEvaluator.cpp:391-395 | computes the specified end of a visit to a tuple |
| ConstantEvaluator.MoreFuel | compiler/libsolidity/analysis/ConstantEvaluator.cpp:285-293 | once evaluation succeeds within a depth, a greater depth changes nothing |
| ConstantEvaluator.MeaningIsUnique | compiler/libsolidity/analysis/ConstantEvaluator.cpp:273-304 | an expression has at most one value, and at a given depth either that or the lack of depth, so the cache cannot depend on the order of evaluation |
| ConstantEvaluator.ConversionsInRange | compiler/libsolidity/analysis/ConstantEvaluator.cpp:234-247 | a converted value is of its type: an integer in range for integer types |
| ConstantEvaluator.WholeNumberConverts | compiler/libsolidity/analysis/ConstantEvaluator.cpp:234-247 | a whole number converts to an integer type iff it is in the range of its bits, and then to itself |
| ConstantEvaluator.FractionConverts | compiler/libsolidity/analysis/ConstantEvaluator.cpp:234-247 | a fraction converts to a rational type unchanged, and to an integer type iff it lies between its bounds, truncated toward zero |
| ConstantEvaluator.OperationMeans | compiler/libsolidity/analysis/ConstantEvaluator.cpp:332-376 | a rational operation means the operation on the values of its operands, in their order |
| ConstantEvaluator.UnaryOperationMeans | compiler/libsolidity/analysis/ConstantEvaluator.cpp:306-330 | the same for unary operations |
| ConstantEvaluator.IntegerOperationMeans | compiler/libsolidity/analysis/ConstantEvaluator.cpp:332-376 | an operation of an integer type means its result if that is in range, and is an arithmetic error otherwise |
| ConstantEvaluator.DifferenceMeans | compiler/libsolidity/analysis/ConstantEvaluator.cpp:332-376 | the value of a - b is that of a minus that of b |
| ConstantEvaluator.IntegerConstantMeans | compiler/libsolidity/analysis/ConstantEvaluator.cpp:277-295 | a constant of an integer type has the value of its expression if that is in range, and none if it is another whole number |
| Rationals.MakeRationalIs | compiler/libsolidity/ast/Types.h:63-71 | the fraction made has the given value for every sign of the denominator, and is no larger |
| Rationals.WholeHasDenominatorOne | compiler/libsolidity/analysis/ConstantEvaluator.cpp:70-72 | a rational equal to an integer has denominator 1, so `fractional` means not whole |
| SmtLowering.SignedDivisionMeaning | compiler/libsmtutil/Helpers.h:26-35 | under Euclidean div the expression is truncated division for every nonzero divisor |
| SmtLowering.SignedModuloMeaning | compiler/libsmtutil/Helpers.h:37-56 | under Euclidean mod the expression is the remainder with the sign of the dividend |
| SmtLowering.QuotRemTruncate | compiler/libsmtutil/Helpers.h:26-56 | quotient and remainder together satisfy l = q*r + m, with m smaller than r and of the sign of l |
| SmtLowering.TruncatedDivisionIsUnique | compiler/libsmtutil/Helpers.h:26-56 | these conditions determine them |
| SmtLowering.OperatorsMean | compiler/libsmtutil/SolverInterface.h:403-452 | the expression operators used by the helpers denote their operations |
| SmtLowering.TextPreservesMeaning | compiler/libsmtutil/SMTLib2Interface.cpp:140-213 | the tokens of the text, read back, evaluate to what the expression means, for every well-formed expression and width whose conversions get numbers or vectors of the size their sort says |
| SmtLowering.WellSortedTextPreservesMeaning | compiler/libsmtutil/SMTLib2Interface.cpp:140-213 | the same for every well-sorted expression in every model that respects sorts; its value is of its sort |
| SmtLowering.ArraysCanBeRead | compiler/libsmtutil/SolverInterface.h:213-227 | in one model that respects sorts every read of an array, of whatever range, has a value of that range |
| SmtLowering.ValuesHaveSorts | compiler/libsmtutil/SolverInterface.h:403-452 | well-sorted expressions have values of their sorts, so conversions get what they expect |
| SmtLowering.LoweringPreservesMeaning | compiler/libsmtutil/SMTLib2Interface.cpp:140-213 | the same for the tree, over all nestings of conversions and operators |
| SmtLowering.Int2BvTreeMeans | compiler/libsmtutil/SMTLib2Interface.cpp:146-156 | the expansion is the number modulo 2^k, for negative numbers too |
| SmtLowering.SignedBv2IntTreeMeans | compiler/libsmtutil/SMTLib2Interface.cpp:157-178 | the expansion is the two's complement value |
| SmtLowering.TwosComplementMeans | compiler/libsmtutil/SMTLib2Interface.cpp:157-178 | that value is the one number of the signed range which is congruent to the bits |
| SmtLowering.ComponentOfTuple | compiler/libsmtutil/SMTLib2Interface.cpp:189-204 | in a model whose accessors project, getting component i of a constructed tuple means its i-th argument |
| SmtLowering.AccessorsCanProject | compiler/libsmtutil/SMTLib2Interface.cpp:232-248 | for every tuple of values, with different names, such a model gives it a value |
| SmtLowering.ConstArrayMeans | compiler/libsmtutil/SMTLib2Interface.cpp:179-188 | an array of one value is that value under `as const` with a text of its sort |
| SmtLowering.SortReadBack | compiler/libsmtutil/SMTLib2Interface.cpp:215-253 | the text of a sort is read back as that sort, up to signs and the members of tuples |
| SmtLowering.TextIsTree | compiler/libsmtutil/SMTLib2Interface.cpp:140-213 | string concatenation writes the tokens of the tree, in each special case |
| SmtLowering.TreeReadBack | compiler/libsmtutil/SMTLib2Interface.cpp:140-213 | the tokens of a tree determine it, whatever follows |
| SwarmHash.ChunkHash | compiler/libsolutil/SwarmHash.cpp:77-101 | ends for every input up to 2^61 bytes, with the hash of its chunk tree |
| SwarmHash.HashPieces | compiler/libsolutil/SwarmHash.cpp:92-96 | the references of the children, in order |
| SwarmHash.TreeIsChunkTree | compiler/libsolutil/SwarmHash.cpp:80-97 | the tree holds exactly the data, in order; each inner node has at least one child and at most 128, each leaf at most 4096 bytes |
| SwarmHash.ChunkTreeIsUnique | compiler/libsolutil/SwarmHash.cpp:80-97 | a tree is the one that is hashed iff it holds the data in order, has 1 to 128 children that are full but for the last, takes the least level at every inner node, and has a leaf for each piece up to 4096 bytes unless one of exactly 4096 is forced |
| SwarmHash.TreeHasLevels | compiler/libsolutil/SwarmHash.cpp:80-97 | in the newer variant a piece of exactly 4096 bytes is an inner node iff it is below a node whose children represent more than 4096 bytes |
| SwarmHash.LeastSpanIsUnique | compiler/libsolutil/SwarmHash.cpp:86-88 | there is one least level for each size |
| SwarmHash.SizeBytes | compiler/libsolutil/SwarmHash.cpp:31-37 | byte i of the eight counts 256^i: together they are the size, below 2^64 |
| SwarmHash.ContentFits | compiler/libsolutil/SwarmHash.cpp:99 | resizing to 4096 bytes only pads, never cuts |
| SwarmHash.PiecesMakeData | compiler/libsolutil/SwarmHash.cpp:92-96 | the pieces are a partition of the data |
| SwarmHash.PiecesAreSmall | compiler/libsolutil/SwarmHash.cpp:92-96 | all pieces but the last have the full size, none is empty |
| SwarmHash.FewPieces | compiler/libsolutil/SwarmHash.cpp:86-96 | there are at most 128 pieces |
| SwarmHash.MaxRepresentedSize | compiler/libsolutil/SwarmHash.cpp:86-88 | the loop finds the smallest level of 4096 * 128^n of which 128 suffice, without wrapping |
| SwarmHash.LoopEndsExactlyUpToLimit | compiler/libsolutil/SwarmHash.cpp:86-88 | in 64-bit arithmetic the loop ends iff there are at most 2^61 bytes |
| SwarmHash.BmtIsMerkleRoot | compiler/libsolutil/SwarmHash.cpp:65-75 | halving computes the Merkle root of the 64-byte segments of 64 * 2^n bytes |
| SwarmHash.SwarmHashIntermediate | compiler/libsolutil/SwarmHash.cpp:44-63 | the old hash is that of the tree without forced levels |
| SwarmHash.InnerNodes | compiler/libsolutil/SwarmHash.cpp:55-59 | the references of the children of an inner node, in order |
| SwarmHash.Bzzr0Hash | compiler/libsolutil/SwarmHash.cpp:106-109 | the old hash of the whole input |
| SwarmHash.Bzzr1Hash | compiler/libsolutil/SwarmHash.cpp:112-117 | zero for the empty input, else the hash of the chunk tree |

## Left out

- Modifiers, placeholders, `try` and `repeat` loops in the control flow graph: modifiers share one placeholder entry and
  exit, `repeat` builds nothing (`ControlFlowBuilder.cpp:270-273`), and both only over-approximate or skip executions.
- The builder's source locations of nodes (`visitNode`) and of occurrences: the analyzer takes node locations as they are.
- Inline assembly: the transaction return node is made and searched from, but nothing leads to it.
- The order of variable occurrences for printing, error texts, error counts and all other warnings of the analyzer.
- ControlFlowRevertPruner.PruningIsExact: speaks of exits only. Entries still record every exit after pruning, but
  besides them some arcs that were cut, because the removed entries are not erased.
- Flows of other origin than the builder: that flows share no nodes is a condition of pruning.
- The entry points that choose which functions to build: a list of functions with their calls resolved stands for them.
- The second search of the unreachable-code pass collects its locations after the search and not during it.
- ControlFlowAnalyzer.ReportsAreExactUnlessBridged: ranges that end before they start, which source locations do not.
- ControlFlowPipeline.BuildPruneAndAnalyze: the order of the warnings, which follows the order of the functions.
- CycleDetector with visitors that do not run on all successors.
- In the declaration type checker: enums, arrays' length errors, mappings' and user-defined value types' own errors, and
  data locations. Each type name is visited once.
- Algorithms.CycleDetector.Run: after an abort for depth nothing is said about the detector's fields, as the program
  throws.
- In SHA-256: input iterators that are read through a buffer, and printing digests as hexadecimal text. A message in
  one process call is shorter than 2^64 - 2^16 bytes, so that the first digit does not overflow.
- In the scanner: every token but string literals, the bidirectional markup check of unicode string literals, hex
  strings, and the position that `validateUTF8` reports for invalid input.
- ConstantArithmetic.ExpRefusedOnlyIfLarge: promises 2^2048 and not 2^4096, because the code refuses some powers that
  fit; `ExpAcceptedExactly` and `BitLengthDecides` say what the code decides.
- ConstantArithmetic.NotFittingIsLarge: for the same reason half of the bits.
- ConstantEvaluator.Evaluator.Evaluate: after a fatal error nothing is said about the evaluator's fields, as the program
  throws.
- Fixed point types, and the type rules themselves, in constant evaluation.
- In SMT-LIB: sort declarations and quoting of symbols. Bit vector arithmetic, logical connectives and uninterpreted
  functions have an arbitrary meaning, and so has division by zero.
- SmtLowering.TextIsTree: the text is a list of tokens, so spacing and the decimal text of numerals are not modelled.
- SmtLowering.TextPreservesMeaning: the same holds for what a solver reads.
- SmtLowering.LoweringPreservesMeaning: needs that conversions get arguments of the expected kind, which
  `ValuesHaveSorts` derives from sorts.
- SwarmHash.ChunkHash: inputs above 2^61 bytes, for which the program does not end.
- Keccak's permutation, the command line, file access, solver calls, and the tables of EVM versions and tokens.
