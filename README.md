# Deadlock detection engine — a verified Dafny model

The system analyses a snapshot of a multi-process, multi-resource system. The snapshot
has P processes and R resource types, with an `available` vector and the `allocation`
and `max_need` matrices. The system answers five kinds of question:

* **Detection.** The Banker's safety algorithm computes Need = max_need − allocation.
  Starting from Work = available, it repeatedly sweeps the processes in index order and
  finishes every process whose Need row fits in Work, releasing that process's
  allocation back into Work. It stops after a sweep that finishes nobody. The processes
  that finished, in the order they finished, form the safe sequence; the rest are
  deadlocked.
* **Step-by-step detection.** The same algorithm, advanced one selection at a time from
  a client-held snapshot (work, finish, safe sequence).
* **Resolution by termination.** If the state is deadlocked, a victim is chosen. It is
  either the caller's choice, which must be a deadlocked process, or the first deadlocked
  process holding the fewest units. The victim's allocation is returned to `available`,
  its allocation and max_need rows are zeroed, and detection runs again.
* **Request simulation** (C worker). A request for `amount` units of resource `rj` by
  process `pi` is checked against the input range, against `available` (compared as
  unsigned 32-bit values) and against the remaining Need. It is then granted
  tentatively, the resulting state is checked for safety, and the grant is undone.
* **Resource Allocation Graph.** Nodes 0..P−1 are processes and nodes P..P+R−1 are
  resources. There is an assignment edge R_j → P_i when P_i holds units of R_j, and a
  request edge P_i → R_j when P_i still needs some. The C code also keeps an adjacency
  matrix and runs a depth-first search with a recursion stack to look for a cycle.

The repository implements the engine twice: in C (`src/deadlock_detector.c`,
`src/api_worker.c`, `src/rag.c`) and in TypeScript (`api/src/detector.ts`,
`api/src/rag.ts`). The model keeps that shape:

* Value modules state the behaviour once, as functions:
  * `BankerState`: the state, Need, and the Covers comparison;
  * `Safety` and `SafetyClosure`: batch detection and its meaning;
  * `StepSafety`: the step variant;
  * `Resolution`: victim choice and termination;
  * `Avoidance`: request simulation;
  * `RagGraph`: edge list, adjacency matrix and cycles.
* Each implementation is modelled in its own form and proved equal to those functions:
  * `TsDetector`, `TsValidation` and `TsRag`: TypeScript loops over immutable
    arrays, as methods over sequences;
  * `CDetector.SystemState` and `CRag.Rag`: C structs updated in place, as classes
    over fixed-size arrays of the C capacity (`MAX_PROCESSES` = 10,
    `MAX_RESOURCES` = 10, and a buffer of 2·10·10 edges);
  * `CApiWorker`: the worker's commands, with their JSON outcomes returned as values.
* `Samples` evaluates the two built-in scenarios.

## Model

| member | source | states |
|---|---|---|
| BankerState.NeedMatrix | api/src/detector.ts:38-45 | Need is a P×R matrix; each row has R entries (NeedRow). |
| Safety.Visit | src/deadlock_detector.c:81-93 | Visiting a process keeps the scan well-formed. A found flag is never cleared. The number of unfinished processes never grows, and it drops when a process is finished. |
| Safety.Pass | src/deadlock_detector.c:81-94 | One sweep keeps the scan well-formed. It never unfinishes a process, and it strictly shrinks the unfinished set when it finds one. |
| Safety.Converge | src/deadlock_detector.c:79-95 | Repeating sweeps until one finds nothing yields a well-formed scan. |
| Safety.PassCount | src/deadlock_detector.c:79-95 | The do-while runs at least once and at most (unfinished + 1) times. |
| Safety.PassBound | src/deadlock_detector.c:79-95 | From the initial state, detection performs at most P + 1 sweeps. |
| Safety.PassIdle | src/deadlock_detector.c:81-94 | A sweep that finds nothing leaves the scan unchanged. No unfinished process from the sweep's start onwards fits Work. |
| Safety.ConvergeIgnoresFound | src/deadlock_detector.c:79-80 | The found flag is reset at the start of each sweep, so its incoming value does not matter. |
| Safety.Initial | src/deadlock_detector.c:63-76 | The starting scan (Work = available, all finish flags false, empty sequence) is well-formed: R Work entries and P flags. |
| Safety.ConvergeReached | src/deadlock_detector.c:79-95 | The final scan is reachable by legal finishes. No unfinished process fits the final Work. |
| Safety.Detect | api/src/detector.ts:35-77 | The batch check (`detectDeadlock`, and `detect_deadlock` at src/deadlock_detector.c:54-108): converge from Work = available, report the unfinished processes as deadlocked and the finishing order as the safe sequence. Its partner lemmas DetectPartition, DetectSound, DetectMaximal and SafetyClosure.SafeIffCompleteOrder state what the result means. |
| Safety.DetectReached | api/src/detector.ts:51-64 | Detect's result is a reachable, stuck scan. |
| Safety.DetectPartition | api/src/detector.ts:66-76 | The safe sequence and the deadlocked list partition 0..P−1. The sequence has no repeats, and the deadlocked list is ascending. isDeadlocked holds iff the list is non-empty. |
| Safety.DetectSound | api/src/detector.ts:51-64 | Every process in the safe sequence fit the Work available when it ran. The final Work is available plus the released allocations. |
| Safety.DetectMaximal | api/src/detector.ts:51-69 | A deadlocked process's Need does not fit the final Work. |
| Safety.UnfinishedMembers | src/deadlock_detector.c:100-105 | The deadlocked list is ascending, lies below P, and contains exactly the unfinished processes. |
| Safety.UnfinishedMark | src/deadlock_detector.c:89 | Marking one process finished shrinks the unfinished list by exactly one. |
| SafetyClosure.SafeIffCompleteOrder | api/src/detector.ts:35-77 | The state is reported safe iff some ordering of all P processes lets each one run to completion in turn (the Banker's definition of a safe state). |
| SafetyClosure.SafeSequenceComplete | api/src/detector.ts:71-76 | When not deadlocked, the reported safe sequence is itself such a complete order. |
| SafetyClosure.CompleteOrderFinishesAll | api/src/detector.ts:51-69 | If any complete safe order exists, detection finds no deadlock. |
| SafetyClosure.FinishedUnique | src/deadlock_detector.c:79-95 | Any two stuck, reachable scans finish the same set of processes. The greedy index order therefore never misses a completable process. |
| SafetyClosure.WorkNonnegative | src/deadlock_detector.c:86-88 | Releasing the allocations of any sequence of processes keeps every Work entry non-negative. |
| SafetyClosure.ZeroNeedNeverDeadlocked | api/src/detector.ts:24-29 | A process with an all-zero Need row is never reported deadlocked. |
| StepSafety.Start | api/src/detector.ts:248-256 | The start used when no snapshot is given is resumable: R Work entries and P finish flags. |
| StepSafety.FirstReady | api/src/detector.ts:259-260 | Selection picks the lowest-indexed unfinished process whose Need fits Work. None is returned exactly when no such process exists. |
| StepSafety.Step | api/src/detector.ts:235-310 | One step returns a resumable snapshot. |
| StepSafety.RunSteps | api/src/detector.ts:235-310 | Repeating steps, as a client does, until one stops ends in Done or Deadlock, never Found. |
| StepSafety.StepReached | api/src/detector.ts:259-309 | A step from a reachable snapshot reaches another one. When it does not select, no unfinished process fits Work. |
| StepSafety.RunStepsReached | api/src/detector.ts:235-310 | Running steps to the end yields a reachable, stuck snapshot that a further step leaves unchanged. |
| StepSafety.StepBatchAgree | api/src/detector.ts:235-310 | Stepping from scratch to the end finishes the same processes as batch detection. It returns the same deadlocked list and the same verdict. |
| Resolution.FirstMinimum | api/src/detector.ts:125-135 | The chosen victim is one of the candidates and is a valid process index. |
| Resolution.FirstMinimumIsFirstMinimum | src/deadlock_detector.c:122-139 | The victim holds no more units than any candidate, and strictly fewer than every candidate listed before it. Ties therefore go to the first. |
| Resolution.FirstMinimumUnique | api/src/detector.ts:126-135 | Exactly one candidate meets that description. |
| Resolution.Terminate | api/src/detector.ts:138-153 | Termination as `resolveDeadlock` and `apply_victim` (src/api_worker.c:132-138) do it; the result keeps the state's shape and dimensions. TerminateEffect, TerminateFreesVictim and TerminateShrinksDeadlock state its effect. |
| Resolution.TerminateEffect | api/src/detector.ts:139-153 | Terminating v adds v's allocation to available, zeroes v's allocation and max_need rows, and leaves every other row unchanged. The result is still a valid state. |
| Resolution.TerminateFreesVictim | api/src/detector.ts:138-155 | After termination, the victim is never reported deadlocked. |
| Resolution.TerminateShrinksDeadlock | src/api_worker.c:190-191 | Every process deadlocked after termination was deadlocked before and is not the victim. |
| Resolution.SafeOrderTerminate | api/src/detector.ts:139-155 | A safe order of the old state remains safe after termination. |
| Resolution.TerminatedOrderSafe | api/src/detector.ts:138-155 | After terminating a deadlocked victim, the old safe sequence followed by the victim is a safe order of the new state, and the new state is valid. |
| Resolution.ReleaseHeld | src/deadlock_detector.c:149-157 | The console's release loop, which zeroes max_need only where the victim holds units; the result keeps the state's shape and dimensions. ReleaseHeldValid and ReleaseHeldIsTerminate state how it relates to Terminate. |
| Resolution.ReleaseHeldValid | src/deadlock_detector.c:149-157 | The console's release loop keeps the state valid. |
| Resolution.ReleaseHeldIsTerminate | src/deadlock_detector.c:149-157 | The console's release equals termination iff the victim's max_need is already zero wherever its allocation is zero. |
| Resolution.Resolve | api/src/detector.ts:103-161 | The outcome of `resolveDeadlock` (and of `cmd_resolve`): the NotDeadlocked refusal, the InvalidVictim refusal, or the round on the requested or first-minimum victim. ResolveOutcomes states both refusals as iffs and what a success guarantees. |
| Resolution.ResolveOutcomes | api/src/detector.ts:103-161 | Resolution fails with NotDeadlocked exactly when detection finds no deadlock. It fails with InvalidVictim exactly when the state is deadlocked and a requested victim is not in the deadlocked list. Otherwise it terminates a deadlocked victim and re-runs detection. |
| Resolution.ResolveChosen | api/src/detector.ts:123-160 | When resolution picks v, the response carries Terminate(s, v), its detection, and v. |
| Resolution.Round | api/src/detector.ts:138-160 | The round on a settled victim names that victim, returns a valid-shaped new state, and carries the detection run on that new state. |
| Avoidance.ToUnsigned32 | src/api_worker.c:206 | A 32-bit int is reinterpreted as unsigned: values in range are unchanged, and negative values gain 2^32. |
| Avoidance.Tentative | src/api_worker.c:216-217 | The tentatively granted state keeps its shape, and the units of resource rj moved from Available to process pi's allocation are conserved. |
| Avoidance.TentativeValid | src/api_worker.c:216-217 | A tentative grant that passed the three checks leaves a valid state. |
| Avoidance.Simulate | src/api_worker.c:200-229 | The decision of `cmd_simulate`: is_safe always equals granted, and a request is granted exactly when the outcome is KeepsSafe. SimulateGrantsExactlySafeRequests and SimulateRefusalReasons characterise each outcome. |
| Avoidance.SimulateGrantsExactlySafeRequests | src/api_worker.c:200-229 | is_safe always equals granted. A request is granted iff it is in range, positive, within available and within Need, and the tentative state has an order in which all processes complete. |
| Avoidance.SimulateRefusalReasons | src/api_worker.c:201-228 | The invalid-request refusal happens iff an index is out of range or the amount is not positive. The over-available refusal implies the amount exceeds available. The over-need refusal implies it fits available but exceeds Need. The unsafe refusal implies the request passed all three checks and the tentative state is deadlocked. |
| TsDetector.CanSatisfy | api/src/detector.ts:24-29 | Returns true iff every Need entry is at most the matching Work entry. |
| TsDetector.ComputeNeed | api/src/detector.ts:38-45 | The local Need matrix equals max_need − allocation. |
| TsDetector.ReleaseInto | api/src/detector.ts:56-58 | Work gains the released row entry by entry. |
| TsDetector.CollectUnfinished | api/src/detector.ts:66-69 | Collects exactly the unfinished processes, in ascending order. |
| TsDetector.DetectDeadlock | api/src/detector.ts:35-77 | Returns the specified detection. The safe sequence and the deadlocked list partition the processes without repeats, the safe sequence is a safe order, and isDeadlocked holds iff some process is deadlocked. |
| TsDetector.VisitProcess | api/src/detector.ts:55-62 | The inner-loop body at process i leaves exactly the specified visit: an unfinished process whose Need fits Work is finished, releases its row and joins the safe sequence; anything else is left as it was. |
| TsDetector.SumRow | api/src/detector.ts:129-130 | Sums the first R entries of a row. |
| TsDetector.MinimumVictim | api/src/detector.ts:125-135 | Picks the first deadlocked process holding the fewest units. |
| TsDetector.TerminatedState | api/src/detector.ts:139-153 | Builds exactly the terminated state. |
| TsDetector.ResolveDeadlock | api/src/detector.ts:103-161 | Returns the specified resolution outcome, with the thrown errors as Err values. |
| TsDetector.TerminateAndCheck | api/src/detector.ts:138-160 | Builds the terminated state and the detection run on it: exactly the specified round for that victim. |
| TsDetector.DetectDeadlockStep | api/src/detector.ts:235-310 | Returns one specified step from the snapshot, or from the start when there is none. The status is Found iff a process is selected, and Deadlock iff a deadlocked list is returned. |
| TsValidation.FirstViolation | api/src/detector.ts:391-399 | Returns the first index in range whose entry breaks the rule. None is returned iff every entry obeys it. |
| TsValidation.CheckAllocation | api/src/detector.ts:401-414 | Reports no error iff every allocation row is an array of R non-negative integers. |
| TsValidation.CheckMaxRow | api/src/detector.ts:416-432 | Reports no error iff each max_need entry of a row is a non-negative integer that is at least the allocation entry. |
| TsValidation.CheckMaxNeed | api/src/detector.ts:416-432 | The same check over all rows, including the row shapes. |
| TsValidation.Dimension | api/src/detector.ts:381-386 | An accepted dimension is an integer between 1 and its limit (10). |
| TsValidation.ValidateDetect | api/src/detector.ts:377-435 | `validateDetectRequest`: accepting a body implies it is an object whose two dimensions are integers in 1..10. ValidateDetectAccepts gives the full iff and ValidateDetectPinpoints the reported index. |
| TsValidation.ValidateDetectAccepts | api/src/detector.ts:377-435 | validateDetectRequest returns null iff the body is a well-formed detect request. |
| TsValidation.ValidateDetectPinpoints | api/src/detector.ts:391-399 | A reported bad available entry j really is bad, and every earlier entry is good. |
| TsValidation.ToState | api/src/detector.ts:377-435 | An accepted body becomes a shaped state with the same dimensions and the same entries. |
| TsValidation.ToStateValid | api/src/detector.ts:377-435 | An accepted body yields a valid state: non-negative entries and allocation ≤ max_need. |
| TsValidation.ValidateResolve | api/src/detector.ts:167-182 | `validateResolveRequest` accepts only bodies the detect validator accepts, and refuses every body it refuses. ValidateResolveAccepts gives the full iff. |
| TsValidation.ValidateResolveAccepts | api/src/detector.ts:167-182 | validateResolveRequest returns null iff the body is a valid detect body with a victim index that is absent, null, or a number in [0, P). |
| TsValidation.RequestedVictim | api/src/detector.ts:174-179 | An accepted victim index lies in [0, P). |
| TsValidation.FractionalVictimRefused | api/src/detector.ts:113-122 | A non-integral victim index passes validation, but resolution then refuses it. |
| TsValidation.ValidateStep | api/src/detector.ts:316-366 | `validateStepRequest` accepts only bodies the detect validator accepts, and refuses every body it refuses. ValidateStepAccepts gives the full iff. |
| TsValidation.ValidateStepAccepts | api/src/detector.ts:316-366 | validateStepRequest returns null iff the body is valid and its step_state is absent, null, or has work, finish and safe_sequence of the right lengths, types and ranges. |
| TsValidation.Snapshot | api/src/detector.ts:248-256 | An accepted snapshot is resumable, and its sequence lies below P. There is no snapshot exactly when step_state is null. |
| CDetector.RowOf | src/deadlock_detector.c:84 | The C row pointer `need[i]` read as a sequence of R entries. |
| CDetector.CanSatisfy | src/deadlock_detector.c:44-51 | Returns true iff every Need entry is at most the matching Work entry. |
| CDetector.SystemState.NeedRowsComputed | src/deadlock_detector.c:35-41 | Once the need array has been computed, it holds exactly max_need − allocation. |
| CDetector.SystemState.constructor | src/deadlock_detector.c:12-32 | A fresh state has no processes, no resources, and every array is zero. |
| CDetector.SystemState.CalculateNeedMatrix | src/deadlock_detector.c:35-41 | Fills the P×R corner of need with max_need − allocation and touches nothing else. |
| CDetector.SystemState.ReleaseInto | src/deadlock_detector.c:86-88 | Adds the process's allocation to the first R Work entries and leaves the rest. |
| CDetector.SystemState.Visit | src/deadlock_detector.c:82-92 | The arrays after visiting process i are exactly the specified scan. The finished count plus the unfinished count stays P. |
| CDetector.SystemState.Finish | src/deadlock_detector.c:86-91 | The finishing branch releases i's allocation into Work, marks i finished and appends it to the safe sequence, and leaves the state itself untouched. The finished count plus the unfinished count stays P. |
| CDetector.SystemState.Pass | src/deadlock_detector.c:80-94 | One sweep over the arrays equals the specified sweep. |
| CDetector.SystemState.NewWork | src/deadlock_detector.c:64-67 | A fresh Work array starting as available. |
| CDetector.SystemState.NewFinish | src/deadlock_detector.c:70-73 | A fresh finish array with P false flags. |
| CDetector.SystemState.RunPasses | src/deadlock_detector.c:76-97 | The do-while leaves exactly the converged scan in the arrays. |
| CDetector.SystemState.CollectDeadlocked | src/deadlock_detector.c:99-105 | Lists exactly the unfinished processes, in order, and sets is_deadlocked iff the list is non-empty. |
| CDetector.SystemState.SafetyCheck | src/deadlock_detector.c:63-107 | The array algorithm returns the specified detection. |
| CDetector.SystemState.DetectDeadlock | src/deadlock_detector.c:54-108 | Returns the specified detection. Its only effect on the state is a freshly computed need matrix. |
| CDetector.SystemState.HeldBy | src/deadlock_detector.c:125-134 | Sums the units that process p holds. |
| CDetector.SystemState.PickMinimum | src/deadlock_detector.c:122-139 | Picks the first deadlocked process holding the fewest units. |
| CDetector.SystemState.ReleaseVictim | src/deadlock_detector.c:149-157 | The new state is the console's release (ReleaseHeld) of the victim. |
| CDetector.SystemState.ResolveDeadlock | src/deadlock_detector.c:111-177 | Does nothing unless deadlocked. Otherwise it releases the minimum victim and returns detection on the new state. |
| CApiWorker.PickVictim | src/api_worker.c:113-130 | Picks the first deadlocked process holding the fewest units. |
| CApiWorker.ApplyVictim | src/api_worker.c:132-138 | The new state is exactly the terminated state, with max_need zeroed across the whole row. |
| CApiWorker.VictimAllowed | src/api_worker.c:181-185 | Accepts the override iff it is in [0, P) and listed as deadlocked. |
| CApiWorker.TerminateAndDetect | src/api_worker.c:190-191 | Terminates the victim and returns detection on the new state. |
| CApiWorker.Requested | src/api_worker.c:177-178 | A negative override means "no choice"; any other override is the requested index. |
| CApiWorker.ChooseVictim | src/api_worker.c:172-189 | Its error or its victim is exactly the specified resolution's. |
| CApiWorker.CmdResolve | src/api_worker.c:170-198 | Returns the specified resolution outcome. On success the state is the outcome's new state; on error the state is unchanged. |
| CApiWorker.Adjust | src/api_worker.c:216-221 | Moves `delta` units between available[rj] and allocation[pi][rj] and changes nothing else. |
| CApiWorker.TryGrant | src/api_worker.c:216-223 | Reports the safety of the tentative state, and restores available and allocation afterwards. |
| CApiWorker.CmdSimulate | src/api_worker.c:200-229 | Returns the specified simulation outcome and restores available and allocation. The invalid and over-available refusals leave need untouched, and the other outcomes leave need computed (for the original or the tentative state). |
| RagGraph.CellEdges | src/rag.c:33-49 | One cell contributes at most two edges: the assignment edge, then the request edge. |
| RagGraph.EdgeList | api/src/rag.ts:64-84 | The edge list built by `buildRag` and `build_rag` (src/rag.c:29-51), cell by cell in row-major order. EdgeListMembers, EdgeListCells, EdgeListBipartite and EdgeListInOrder state its contents and order. |
| RagGraph.IsRagEdge | src/rag.c:33-49 | An edge of the graph joins two nodes of the graph, one a process node and the other a resource node. |
| RagGraph.EdgeListMembers | api/src/rag.ts:64-84 | The edge list has at most 2·P·R edges. An edge is listed iff it is an assignment edge for a positive allocation or a request edge for a positive Need. |
| RagGraph.EdgeListCells | src/rag.c:34-49 | R_j → P_i is listed iff allocation[i][j] > 0, and P_i → R_j is listed iff need[i][j] > 0. |
| RagGraph.EdgeListBipartite | src/rag.c:29-51 | Every edge joins a process node and a resource node. Assignment edges point to processes, and request edges point to resources. |
| RagGraph.EdgeListInOrder | api/src/rag.ts:65-84 | Edges appear in row-major cell order, assignment before request, with no duplicates. |
| RagGraph.AdjCode | src/rag.h:31 | Every adjacency entry is 0, 1 (request) or 2 (assignment). |
| RagGraph.AdjMatrix | src/rag.c:19-51 | The adjacency matrix is (P+R)×(P+R). |
| RagGraph.AdjMatrixMatchesEdges | src/rag.c:38-47 | An entry is 2 iff the matching assignment edge is listed, and 1 iff the matching request edge is listed. |
| RagGraph.HoldAndWaitCycle | src/rag.c:29-51 | A process that holds units of R_j and still needs more of R_j yields the two-edge cycle P_i → R_j → P_i. Samples.SafeSampleHasCycle shows this happens in a safe state. |
| RagGraph.RankedAcyclic | src/rag.c:55-75 | A graph whose every edge goes from a later-finished node to an earlier-finished one has no cycle. |
| RagGraph.ClosingEdgeCycle | src/rag.c:67-68 | A walk plus an edge back to one of its nodes contains a cycle. |
| CRag.BufferFits | src/rag.h:30 | The edges written before cell (i, j), plus two, fit the 2·MAX_PROCESSES·MAX_RESOURCES buffer. |
| CRag.Rag.constructor | src/rag.h:26-33 | A fresh graph with no nodes, no edges and an all-zero matrix. |
| CRag.Rag.ClearCorner | src/rag.c:19-24 | Zeroes the (P+R)×(P+R) corner of the matrix and leaves the rest. |
| CRag.Rag.PutEdge | src/rag.c:35-39 | Appends one edge to the buffer and writes its code into the one matrix entry the edge names; every other entry keeps its value. |
| CRag.Rag.WriteCell | src/rag.c:31-49 | Appends the cell's edges. A matrix filled up to cell (i, j) becomes filled up to cell (i, j+1): the two entries the cell decides get their codes and every other entry keeps its value. |
| CRag.Rag.AddCell | src/rag.c:30-50 | After cell (i, j), the buffer holds the edges of all earlier cells and the matrix is filled up to that cell. |
| CRag.Rag.FillRow | src/rag.c:29-51 | After row i, the buffer holds the edges of rows 0..i. |
| CRag.Rag.FillRows | src/rag.c:29-51 | The nested loop, from an empty buffer and a cleared corner, leaves the whole edge list in the buffer and every cell written to the matrix; entries outside the corner keep their values. |
| CRag.Rag.AdjacencyComplete | src/rag.c:19-51 | A matrix filled for every cell equals the specified adjacency matrix. |
| CRag.Rag.BuildRag | src/rag.c:12-52 | The edge buffer equals the specified edge list over allocation and the stored need, and the matrix equals the specified adjacency matrix. With need freshly computed (as cmd_rag does), these are the graph of the state. |
| CRag.Rag.Enter | src/rag.c:56-57 | Marks the node visited and on the stack. One fewer node is unvisited. |
| CRag.Rag.Leave | src/rag.c:73-74 | Takes the node off the stack and records it as finished. |
| CRag.Rag.Follow | src/rag.c:62-69 | Following one edge reports a cycle only if one exists. Otherwise it leaves the edge's target finished. |
| CRag.Rag.FollowAll | src/rag.c:61-71 | Scanning all of a node's edges reports a cycle only if one exists. Otherwise every successor is finished. |
| CRag.Rag.DfsCycle | src/rag.c:55-75 | A reported cycle exists. Otherwise the node is finished, earlier finishes are kept, and each call visits a fresh node, so the recursion terminates. |
| CRag.Rag.BackEdge | src/rag.c:67-68 | An edge to a node on the recursion stack closes a cycle. |
| CRag.Rag.BackEdgeOnStack | src/rag.c:67-68 | The same fact, stated for the DFS invariant. |
| CRag.Rag.StartFrom | src/rag.c:84-88 | Starting a search from an unvisited root keeps the invariant and finishes the root. |
| CRag.Rag.FinishedAcyclic | src/rag.c:83-90 | Once every node has finished without a back edge, the graph has no cycle. |
| CRag.Rag.DetectCycleRag | src/rag.c:78-91 | Returns true iff the graph has a cycle. |
| TsRag.DecimalString | api/src/rag.ts:57 | `${n}` is a non-empty digit string with no leading zero. |
| TsRag.DecimalStringInjective | api/src/rag.ts:57-60 | Different numbers have different decimal strings. |
| TsRag.ComputeNeed | api/src/rag.ts:46-52 | The local Need matrix equals max_need − allocation. |
| TsRag.BuildNodes | api/src/rag.ts:55-61 | Lists P process nodes `P{i}` with id i, then R resource nodes `R{j}` with id P+j. |
| TsRag.BuildEdges | api/src/rag.ts:64-84 | The pushed edges are exactly the specified edge list. |
| TsRag.PushCell | api/src/rag.ts:67-82 | The pushes of one cell append exactly that cell's edges: the assignment edge when the process holds units, then the request edge when it still needs some. |
| TsRag.BuildRag | api/src/rag.ts:42-87 | Returns the P+R nodes as above, and exactly the specified edge list of the state's allocation and Need. It is therefore the same list that the C builder writes. |
| TsRag.NodesNamedUniquely | api/src/rag.ts:55-61 | Node ids are list positions, process nodes come first, and no two nodes share a label. |
| Samples.SafeSampleSequence | src/main.c:150-184 | The safe sample is valid and safe, with safe sequence P1, P3, P4, P0, P2 after three sweeps. |
| Samples.DeadlockSampleDetected | src/main.c:191-223 | The deadlock sample is valid, and all four processes are deadlocked. |
| Samples.DeadlockSampleResolved | api/src/detector.ts:103-161 | Resolving the deadlock sample terminates P3, the first process holding the fewest units. P3 then finishes, and P0, P1 and P2 stay deadlocked. |
| Samples.ConsoleResolveStalls | src/deadlock_detector.c:149-157 | On the deadlock sample, the console's release leaves P3's max_need at [0,1,1]. All four processes remain deadlocked, P3 is picked again, and a second release changes nothing. |
| Samples.ConsoleAfterVictimDetected | src/deadlock_detector.c:149-164 | After the console's release on the deadlock sample, nobody can finish: all four processes are deadlocked. |
| Samples.ConsoleAfterVictimStalls | src/deadlock_detector.c:122-157 | P3 now holds nothing, so it is picked as the first minimum again, and releasing it changes nothing. |
| Samples.SafeSampleRefusal | src/api_worker.c:216-228 | In the safe sample, granting P0 three units of R1 is refused as leading to an unsafe state. |
| Samples.SafeSampleHasCycle | src/rag.c:29-51 | The safe sample's allocation graph has a cycle (P0 holds R1 and still needs it) although detection reports the state safe. |

## Left out

- Process and resource names, all console and JSON printing, explanation strings, the stdin line protocol of the worker, and `output_state`. These are text formatting; the model returns the corresponding values.
- The interactive console in `src/main.c` (menus, input reading). Only its two sample scenarios and its resolve option are modelled, the latter through `CDetector.SystemState.ResolveDeadlock`.
- The HTTP server, the C-backend bridge (`api/src/cBackend.ts`) and the frontend. They only move the same requests and responses around.
- C `int` overflow and JavaScript floating-point rounding. The model uses unbounded integers; the one place where the width is observable (the unsigned comparison in `cmd_simulate`) is modelled explicitly.
- Avoidance.SimulateGrantsExactlySafeRequests: requires every entry and the request to be below 2^32, so that the unsigned comparison agrees with the mathematical one; above that the C comparison is modelled but not characterised.
- Avoidance.SimulateRefusalReasons: carries the same below-2^32 premise, for the same reason.
- TsValidation.Snapshot: requires an integral snapshot (whole-number work entries and safe-sequence indices). The TypeScript validator accepts fractional numbers there, and a fractional Work value has no meaning in the integer model.
- TsRag.BuildRag: requires a well-shaped request (P rows of R entries), as the TypeScript types promise; buildRag itself does not validate its input.
- CRag.Rag.DfsCycle: the C call stack of the recursive search is not modelled. Its depth is bounded by the number of unvisited nodes, which is the decreasing measure used for termination.
- CRag.Rag.BuildRag: uses the need array as stored. `cmd_rag` computes need first (src/api_worker.c:84), and `CDetector.SystemState.NeedRowsComputed` turns the result into the graph of the state.
- CDetector.SystemState.ResolveDeadlock: is given the deadlocked list as a sequence, so its length stands in for `num_deadlocked`; C's separate counter is not modelled.
- The TypeScript `RagNode.type` and `label` fields are named `kind` and `name`, because `type` and `label` are Dafny keywords.

## Findings

| source | as written | input that shows it | evidently intended | confidence | as-written member | corrected member |
|---|---|---|---|---|---|---|
| src/deadlock_detector.c:149-157 | The console's `resolve_deadlock` zeroes the victim's max_need only in columns where the victim holds units, so the victim keeps a positive Need elsewhere. | The deadlock sample (src/main.c:191-220) under menu option 5 (src/main.c:288-290): the victim P3 (allocation [1,0,0], max_need [2,1,1]) is left with max_need [0,1,1]. All four processes stay deadlocked, P3 is chosen again, and a second release changes nothing. | Zero the whole max_need row, as `apply_victim` (src/api_worker.c:132-138) and `resolveDeadlock` (api/src/detector.ts:143-145) do. P3 then finishes, and P0, P1 and P2 stay deadlocked. | not executed | Samples.ConsoleResolveStalls | Resolution.TerminateFreesVictim |
