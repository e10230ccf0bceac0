# A verified model of TensorFlow's C API, Go binding and StreamExecutor host code

The project models the algorithms inside TensorFlow's C API (`tensorflow/c`), its Go
binding (`tensorflow/go`) and StreamExecutor (`tensorflow/stream_executor`), and proves
what they promise. Check it with `dafny verify dfyconfig.toml`.

| modules | what they model |
|---|---|
| `Text`, `NodeNames`, `Graphs`, `FunctionSpec`, `FunctionCompiler`, `FunctionMeaning` | the conversion of a subgraph to a FunctionDef: names, renaming, rewriting, and that the function computes what the graph does |
| `CycleCheck`, `CycleLoops` | the check for cycles before a session is extended, and when it is exact |
| `SessionGraph`, `GraphLifetime` | sessions sharing one graph: incremental extension, mutation tracking, deferred deletion |
| `GoSession`, `ExecutorCache` | two concurrent protocols, as interleaved steps of any number of threads |
| `StringCodec`, `AttrLists` | TF_STRING tensors and list attributes in flat buffers |
| `GoTensor`, `GoStrings` | Go tensors of nested slices and arrays |
| `Products`, `BatchLayout`, `Occupancy`, `KernelArgs` | layouts and strides, GPU occupancy and the register search, packed kernel arguments |

## Conventions

- Objects whose methods update their fields are classes with an abstract value. Locked
  sections of concurrent code are steps of a state machine, and a theorem about runs
  holds for every sequence of steps.
- Kernels are an uninterpreted function of an op and its input values. A graph is
  unfolded to any depth, so bodies with loops need no special treatment.
- `WellFormed` states what the graph library guarantees: unique node names without a
  colon or a leading caret, and edges between existing outputs and inputs.
- In `SessionGraph` the backend, and whether the cycle check fails, are choices of the
  environment: every extension may be accepted or refused.
- 64-bit and 32-bit wrap-around is written out in `StringCodec`, `GoTensor`, `GoStrings`
  and `Occupancy`.

## Where the code and an expectation part

- `tensorflow/c/c_api.h:1213-1221` calls a control edge from an input node into the body
  an error. The code at `tensorflow/c/c_api_function.cc:226-239` accepts it and names the
  argument; the model does as the code does.
- The cycle check is not exact on all graphs with loops: `HiddenCycleIsAccepted` is a
  cycle it lets through. It is exact if every loop is closed, that is, if each
  NextIteration feeding a Merge is reached from that Merge (`ClosedLoopsExact`). On a
  graph that is acyclic but for its back edges, closed loops are exactly what keeps the
  check right whatever plain edge is added (`LoopsExact`).
- The error of the cycle check can name a loop that has nothing to do with the cycle
  (`HealthyLoopIsBlamed`). With closed loops, `NamesOnlyCycles` says exactly when it
  names only nodes that a cycle leads to.
- An operation changed while a session ships it leaves that session unmarked and stale:
  `WindowCounterexample`, and `WindowExact` for exactly which changes.
- A string tensor of 2^63 data bytes or more is not read back: `TensorRoundTrip`.
- The register search does not always find the best count: `SearchExact`.
- An operation listed twice for a function is not refused (`RepeatedIsConvertible`). It
  yields a function whose node names repeat, and its outputs can no longer be read by
  name: `ResolvesExactly`.

## Model

| member | source | states |
|---|---|---|
| `FunctionMeaning.FunctionPreservesMeaning` | tensorflow/c/c_api_function.cc:251-381 | For every kernel semantics, every argument assignment, every output and every unfolding depth, the value the FunctionDef returns when it is evaluated by name is the value of the output tensor in the graph with the listed inputs overridden; cyclic bodies and tensors that are both input and output included |
| `FunctionMeaning.AcyclicFunctionMeaning` | tensorflow/c/c_api_function.cc:251-381 | On an acyclic body both values exist, so the returned value is a tensor and equals the graph's |
| `FunctionMeaning.OperandsInOrder` | tensorflow/c/c_api_function.cc:186-223 | Operands keep their places: data input i of an emitted node leads to the source of the last edge into input i of the node it was made of, stated over the edge list alone |
| `FunctionMeaning.NodesKeepOpAndDevice` | tensorflow/c/c_api_function.cc:167-172 | An emitted node keeps its op and attributes, and its device is the assigned one or, without one, the requested one |
| `FunctionMeaning.SameValue` | tensorflow/c/c_api_function.cc:196-223 | The same for every tensor the function can read, under the name the renaming gives it |
| `FunctionMeaning.RenamedResolves` | tensorflow/core/framework/function.cc:151-208 | Resolved by the index that instantiation builds, the name given to a tensor leads back to that tensor: its argument if it is an input, its body node and output otherwise |
| `FunctionMeaning.NamesUnambiguous` | tensorflow/core/framework/function.cc:376-384 | A name stands for one tensor at most |
| `FunctionMeaning.IndexedOnce` | tensorflow/core/framework/function.cc:151-208 | No string is inserted twice into the name index, which holds `arg`, `arg:0`, the plain name of a node without outputs, `node:out` of every output argument and `node:out:p` of every tensor: instantiating the function never reports a duplicate |
| `FunctionMeaning.ResolvesExactly` | tensorflow/c/c_api_function.cc:316-340 | For every body, repetitions included, the name of an available tensor resolves if and only if the tensor is an input or its node is listed once |
| `FunctionMeaning.ControlLeadsBack` | tensorflow/core/framework/function.cc:265-292 | The search for a control input finds an entry, and whatever entry it finds belongs to the emitted source or, for a source outside the body, to the last argument it supplies |
| `FunctionMeaning.ControlInputs` | tensorflow/c/c_api_function.cc:226-239 | The control inputs of an emitted node are the names of its control sources, in edge order |
| `FunctionMeaning.FunctionIsClosed` | tensorflow/core/framework/function.cc:210-300 | Every data input of an emitted node resolves |
| `FunctionCompiler.GraphToFunction` | tensorflow/c/c_api_function.cc:487-537 | The whole call, for every list of operations: it succeeds if and only if inputs are distinct and usable, outputs usable, output names distinct, inputs single-output when the body is implied, and everything the body and the outputs read is available; the result is then the translation, and its node names are distinct exactly if no operation was listed twice |
| `FunctionCompiler.RepeatedIsConvertible` | tensorflow/c/c_api_function.cc:471-477 | A graph and a list naming its one operation twice that meet the success condition |
| `FunctionSpec.EmittedNames` | tensorflow/c/c_api_function.cc:316-340 | Without repetitions the chosen names are the names of the emitted nodes; with them, and only then, names of emitted nodes repeat |
| `FunctionCompiler.BodyUnique` | tensorflow/c/c_api_function.cc:446-479 | A call determines its body: ascending operation ids without the input nodes, or the given list |
| `FunctionCompiler.ImpliedBody` | tensorflow/c/c_api_function.cc:452-470 | A body that is not given leaves out the ids 0 and 1 and holds exactly the other nodes that no input refers to |
| `FunctionCompiler.GraphToFunctionDef` | tensorflow/c/c_api_function.cc:251-381 | Exact success condition of the conversion for every body, repetitions included, and the result is related to graph, inputs, outputs and body by the translation relation; given output names are used as they are, invented ones match the argument name pattern |
| `FunctionCompiler.FillFunctionBody` | tensorflow/c/c_api_function.cc:159-247 | Fails exactly if an input of some body node is not available; otherwise one rewritten node per body node, in order, and stateful exactly if a body node is |
| `FunctionCompiler.EmitNode` | tensorflow/c/c_api_function.cc:166-239 | One node: same op and device, the last name chosen for it, data inputs replaced by the names of the tensors they read, then control inputs; fails exactly if one of them is not available |
| `FunctionCompiler.DataInput` | tensorflow/c/c_api_function.cc:196-223 | The name of one data input, found through its edge or, without an edge, through the requested tensor; which error otherwise |
| `FunctionCompiler.CollectInputs` | tensorflow/c/c_api_function.cc:180-193 | Slot i holds the source of the last data edge into input i, or nothing if there is none; the control sources are those of the control edges, in edge order; edges from the Source node do not count |
| `Graphs.EdgeIntoExactly` | tensorflow/c/c_api_function.cc:186-193 | What an input slot holds, over the edge list: the source of the last data edge into it from a node other than the Source, or nothing exactly if there is no such edge |
| `Graphs.ControlSourcesExactly` | tensorflow/c/c_api_function.cc:186-193 | The control sources are read off the positions of the control edges, all of them and in ascending order, the Source node left out |
| `Graphs.InputOfExactly` | tensorflow/c/c_api_function.cc:197-212 | An input reads the source of the last edge into it and, only if there is no edge, the tensor requested there by name and index |
| `FunctionCompiler.RequestedInput` | tensorflow/c/c_api_function.cc:199-215 | A back edge that exists only as a requested name is found exactly if that tensor is available, under its new name |
| `FunctionCompiler.RenameBody` | tensorflow/c/c_api_function.cc:316-340 | The names chosen for body entries differ from each other and from argument names; the renaming holds exactly the available tensors, under the first name of their node, and looking a node up finds its last name |
| `FunctionCompiler.RenameOutputs` | tensorflow/c/c_api_function.cc:322-339 | All outputs of a node, and nothing else, are added to the renaming unless an input already claimed them |
| `FunctionCompiler.RenamesAvailable` | tensorflow/c/c_api_function.cc:298-340 | A tensor is in the renaming exactly if it is available, and the renaming gives it the name the specification does |
| `FunctionCompiler.FillOutputs` | tensorflow/c/c_api_function.cc:284-295 | Output arguments carry the types of the output tensors; given names are kept and fail exactly if they repeat, missing names are invented without clashes |
| `FunctionCompiler.FillInputs` | tensorflow/c/c_api_function.cc:298-306 | Input arguments carry the types of the input tensors under fresh argument names, and the renaming maps exactly the inputs |
| `FunctionCompiler.RemapReturns` | tensorflow/c/c_api_function.cc:346-360 | The return map sends each output name to the name of its tensor; fails exactly if an output is not available |
| `FunctionCompiler.ProcessInputs` | tensorflow/c/c_api_function.cc:387-420 | Succeeds exactly if the inputs are distinct, exist and are not references; the grouping holds exactly the given indices per node |
| `FunctionCompiler.CheckOutput` | tensorflow/c/c_api_function.cc:151-157 | Accepts exactly the existing non-reference outputs and says which of the two failed |
| `FunctionCompiler.ProcessOutputs` | tensorflow/c/c_api_function.cc:424-442 | Succeeds exactly if every output exists and is not a reference |
| `FunctionCompiler.ComputeBodyNodes` | tensorflow/c/c_api_function.cc:446-479 | The given operations, or all operations of the graph not referenced by an input, in id order; fails exactly if such a referenced node has not one output |
| `NodeNames.Normalize` | tensorflow/c/c_api_function.cc:79-102 | The suffix from the first letter on, lower-cased and with `_` for other characters, or "unknown" without a letter; always a valid argument name |
| `NodeNames.LoweredExactly` | tensorflow/c/c_api_function.cc:85-91 | By ASCII code: capital letters move by 32, small letters and digits stay, everything else becomes an underscore |
| `NodeNames.NodeNameMapping.UniquifyHelper` | tensorflow/c/c_api_function.cc:104-112 | The name itself if it is free, otherwise the candidate `name_i` with the smallest i that is free; terminates for every set of used names |
| `NodeNames.NodeNameMapping.GetInputName` | tensorflow/c/c_api_function.cc:114-118 | A fresh normalised name, recorded as used and as the node's name; the mapping stays one-to-one |
| `NodeNames.NodeNameMapping.GetOutputName` | tensorflow/c/c_api_function.cc:120-126 | A fresh normalised name that is only recorded as used |
| `NodeNames.NodeNameMapping.Uniquify` | tensorflow/c/c_api_function.cc:128-133 | A fresh name for a node, recorded both ways |
| `NodeNames.NodeNameMapping.UseOutputName` | tensorflow/c/c_api_function.cc:135-143 | Claims a name as it is; an error exactly if it was claimed before |
| `NodeNames.CandidateInjective` | tensorflow/c/c_api_function.cc:104-112 | Different suffix numbers give different candidates, which is why the search ends |
| `Graphs.FindArg` | tensorflow/core/framework/node_def_util.cc:503-514 | Every output index lies in the range of an output argument |
| `Graphs.AtUnique` | tensorflow/core/framework/node_def_util.cc:503-514 | and in one range only: the ranges partition the output indices |
| `Graphs.OutputTypeAt` | tensorflow/core/framework/node_def_util.cc:503-514 | Ranges follow each other without gaps, and tensor p of an output argument has the p-th type listed for it |
| `Text.FlatNameInjective` | tensorflow/c/c_api_function.cc:305 | The flat name `node:index` determines the node name and the index |
| `Text.DecimalExactly` | tensorflow/c/c_api_function.cc:305 | The rendering of an index, read as a decimal number, is the index, without a leading zero |
| `CycleCheck.ValidateNoCycles` | tensorflow/c/c_api.cc:397-449 | Accepts exactly the graphs whose nodes can all be released in some order; a refusal counts exactly the nodes that no order releases, and names the first three ids whose count is not zero in the end |
| `CycleCheck.AcceptedHasNoPlainCycle` | tensorflow/c/c_api.cc:397-449 | Every cycle of an accepted graph goes through a Merge fed by a NextIteration |
| `CycleCheck.AcyclicIsAccepted` | tensorflow/c/c_api.cc:397-449 | A graph that is acyclic without its NextIteration-to-Merge data edges is accepted |
| `CycleCheck.LoopFreeExact` | tensorflow/c/c_api.cc:397-449 | Without loops, acceptance is exactly acyclicity |
| `CycleLoops.ClosedLoopsExact` | tensorflow/c/c_api.cc:397-449 | If every NextIteration that feeds a Merge is reached from that Merge, acceptance is exactly acyclicity without the back edges |
| `CycleLoops.AcceptedCyclesAreLoops` | tensorflow/c/c_api.cc:407-415 | With closed loops, every cycle of an accepted graph goes back along a data edge from a NextIteration to a Merge; control edges are never exempt |
| `CycleLoops.LoopsExact` | tensorflow/c/c_api.cc:407-415 | On a graph that is acyclic but for its back edges, the check is right whatever plain edge is added if and only if all loops are closed in that sense |
| `CycleLoops.OpenLoopFools` | tensorflow/c/c_api.cc:407-415 | An open loop makes the check accept a cycle: a self-edge at its Merge |
| `CycleCheck.HiddenCycleIsAccepted` | tensorflow/c/c_api.cc:407-415 | A well-formed graph of four nodes with a cycle that is not a loop back edge is accepted |
| `CycleCheck.ClosedDecides` | tensorflow/c/c_api.cc:421-436 | A visit that cannot be continued has seen all nodes exactly if some order releases all nodes: the order of the stack does not matter |
| `CycleCheck.Saturate` | tensorflow/c/c_api.cc:422-434 | Every partial visit can be continued until no unvisited node is ready |
| `CycleCheck.DecrementKeeps` | tensorflow/c/c_api.cc:427-433 | Pushing when a count arrives at zero pushes each node once, although counts go on below zero |
| `CycleCheck.InitialCount` | tensorflow/c/c_api.cc:404-415 | The number of incoming edges, less the NextIteration data edges of a Merge |
| `CycleCheck.CountPending` | tensorflow/c/c_api.cc:400-419 | Counts and initial stack: exactly the nodes that wait for nothing |
| `CycleCheck.VisitOutputs` | tensorflow/c/c_api.cc:423-433 | Visiting a node lowers the count of its successors by the number of edges and pushes exactly those that become ready |
| `CycleCheck.Report` | tensorflow/c/c_api.cc:436-447 | The first three ids, in ascending order, whose pending count is not zero |
| `CycleCheck.NamedButVisited` | tensorflow/c/c_api.cc:438-443 | In every graph, a node that was visited but is named in the error all the same is a Merge fed by a NextIteration |
| `CycleCheck.UnbalancedExactly` | tensorflow/c/c_api.cc:427-443 | In every graph, a count is not zero in the end exactly if the number of visited back edges into the node differs from the number of plain edges into it that were not visited |
| `CycleLoops.VisitedExactly` | tensorflow/c/c_api.cc:422-434 | With closed loops, the nodes visited are exactly those that no cycle of plain edges leads to |
| `CycleLoops.NamedExactly` | tensorflow/c/c_api.cc:436-443 | With closed loops, the counts that are not zero in the end are exactly those of nodes a cycle leads to and of the Merge nodes of loops no cycle leads to |
| `CycleLoops.NamesOnlyCycles` | tensorflow/c/c_api.cc:436-447 | With closed loops, the error names only nodes that a cycle leads to if and only if every Merge of a loop that no cycle leads to has three such nodes with smaller ids |
| `CycleLoops.HealthyLoopIsBlamed` | tensorflow/c/c_api.cc:436-447 | A graph of five nodes whose error names, first of all, the visited Merge of a loop that has nothing to do with the cycle |
| `SessionGraph.DisciplinedRunIsFresh` | tensorflow/c/c_api.cc:642-763 | In every run of node additions, session creation and deletion, mutations, extensions and runs in which no operation is changed while it is being shipped, every session whose status is OK has a backend that holds the current definition of every operation below its mark |
| `SessionGraph.StepKeepsFresh` | tensorflow/c/c_api.cc:642-763 | The step this rests on, for any number of sessions |
| `SessionGraph.RunShipsEachOpOnce` | tensorflow/c/c_api.cc:716-763 | In every run whatever, each backend has accepted exactly the operations below the session's mark, each once and in id order |
| `SessionGraph.StepKeepsComplete` | tensorflow/c/c_api.cc:716-763 | The step this rests on |
| `SessionGraph.OpsAreSorted` | tensorflow/c/c_api.cc:738-747 | A shipment holds exactly the operations of its id range, with their definitions, in order |
| `SessionGraph.MarkNeverDecreases` | tensorflow/c/c_api.cc:755-757 | The mark of a session never moves back |
| `SessionGraph.ExtensionCatchesUp` | tensorflow/c/c_api.cc:728-757 | Whatever happens between shipping and the answer: an accepted extension brings the session to the size the graph had when it began, with every operation up to there shipped; a rejected one leaves the session as it was |
| `SessionGraph.PoisonIsPermanent` | tensorflow/c/c_api.cc:642-657 | A marked session stays marked, and no later extension of it passes the check |
| `SessionGraph.MarkedExactly` | tensorflow/c/c_api.cc:642-657 | In every run a session is marked if and only if an operation it had shipped was mutated; failed extensions, cycles and refusals mark nothing |
| `SessionGraph.PoisonedNeverRuns` | tensorflow/c/c_api.cc:2565-2580 | A marked session that is idle and extends before running never executes again |
| `SessionGraph.PoisonedRunsOut` | tensorflow/c/c_api.cc:2565-2580 | A marked session that extends before running executes once more at most, and only if a run of it was shipping its extension when it was marked |
| `SessionGraph.MarkingIsExact` | tensorflow/c/c_api.cc:642-657 | A mutation that changes an operation marks an up-to-date session if and only if its backend copy becomes stale |
| `SessionGraph.WindowExact` | tensorflow/c/c_api.cc:741-757 | Between building a shipment and moving the mark no graph lock is held: a mutation in that window leaves an unmarked session stale if and only if it changes an operation of the shipment |
| `SessionGraph.WindowCounterexample` | tensorflow/c/python_api.cc:28-41 | A run of five steps from the initial state that ends with an unmarked session holding a stale attribute |
| `SessionGraph.MutationReadsBack` | tensorflow/c/python_api.cc:22-88 | What is read from a definition after a mutation: the value set where it was set, and every other attribute, input and field as before |
| `SessionGraph.ExtendsUntilTold` | tensorflow/c/python_api.cc:107-111 | A session extends before its runs exactly until ExtendSession is called |
| `GraphLifetime.FreedOnceAndUntouched` | tensorflow/c/c_api.cc:1890-1896 | In every interleaving of deletions, creations and runs the graph is freed at most once, only when its deletion was requested and no session is left, and no step touches it afterwards, its mutex included |
| `GraphLifetime.ExactlyOneFrees` | tensorflow/c/c_api.cc:2551-2563 | When all deleting calls have returned, exactly one has freed the graph |
| `GraphLifetime.DecidedLeavesNothing` | tensorflow/c/c_api.cc:2555-2560 | After the decision to free, the only access left is the deciding call's own unlock |
| `GraphLifetime.NeverStuck` | tensorflow/c/c_api.cc:2551-2563 | While a deleting call has not returned, some call can take its next step |
| `GraphLifetime.RunKeepsInv` | tensorflow/c/c_api_internal.h:87-101 | The invariant every step keeps: mutex ownership, the session set, and one decision exactly when nothing is left |
| `GoSession.NothingAfterDelete` | tensorflow/go/session.go:120-273 | For any number of goroutines and any interleaving, TF_DeleteSession is called at most once, and from then on no C call on the session is in progress or begins |
| `GoSession.RunUsesLiveSession` | tensorflow/go/session.go:120-145 | A run that goes on to its C call holds a pointer that is neither nil nor deleted |
| `GoSession.CloseClears` | tensorflow/go/session.go:258-273 | In any interleaving, a Close whose TF_CloseSession succeeds leaves the session closed when it returns |
| `GoSession.FailedClosesKeep` | tensorflow/go/session.go:267-271 | In any run in which every TF_CloseSession fails, the session stays open and is not deleted |
| `GoSession.RunCallsSession` | tensorflow/go/session.go:120-145 | A run that returns while the session is still open has made its C call |
| `GoSession.StepKeepsCount` | tensorflow/go/session.go:258-273 | The wait group equals the number of goroutines between Add and Done |
| `GoSession.StepKeepsInv` | tensorflow/go/session.go:120-273 | Every step keeps mutual exclusion, the count, quiescence past the wait and liveness of the pointer |
| `GoSession.WaitingCloseBlocksNoRun` | tensorflow/go/session.go:258-273 | While Close waits holding the mutex, every counted run can take its next step, each such step brings the end of the wait closer, and no other step delays it |
| `GoSession.CloseWaitIsBounded` | tensorflow/go/session.go:258-273 | Over any schedule the counted runs take exactly the work that was left, and Close can go on exactly when it is used up |
| `GoSession.NeverStuck` | tensorflow/go/session.go:120-273 | While a call has not returned, some goroutine can take its next step |
| `ExecutorCache.SameKeySameExecutor` | tensorflow/stream_executor/executor_cache.cc:23-64 | For any number of threads and any interleaving, two successful calls return the same executor if and only if their ordinal, plugins and option flags agree, whatever their tags |
| `ExecutorCache.CallsEnd` | tensorflow/stream_executor/executor_cache.cc:23-95 | How calls end in every interleaving: a GetOrCreate with an executor exactly unless its factory returned a failure, and never as not found; a Get never with a factory's failure |
| `ExecutorCache.FailsWithFactory` | tensorflow/stream_executor/executor_cache.cc:54-63 | A call has failed exactly if its own factory returned a failure |
| `ExecutorCache.StepKeepsCalls` | tensorflow/stream_executor/executor_cache.cc:26-40 | Every step keeps that a GetOrCreate goes on after a miss and that a Get neither makes an entry nor runs a factory |
| `ExecutorCache.FactorySucceedsOnce` | tensorflow/stream_executor/executor_cache.cc:23-64 | A factory succeeds at most once per key, no entry holds two equal configurations, and the cache stores exactly one map from keys to executors |
| `ExecutorCache.FactoriesExclude` | tensorflow/stream_executor/executor_cache.cc:42-62 | Two factories run at the same time only for different ordinals |
| `ExecutorCache.GetIsLookup` | tensorflow/stream_executor/executor_cache.cc:66-95 | Get answers as that map stands when it looks: the stored executor, or not found exactly if there is none |
| `ExecutorCache.NeverStuck` | tensorflow/stream_executor/executor_cache.cc:23-95 | While a call has not returned, some thread can take its next step or a factory can return |
| `ExecutorCache.StepRefines` | tensorflow/stream_executor/executor_cache.cc:23-95 | One step adds one key to the map, when a factory succeeds, or leaves the map alone |
| `ExecutorCache.Search` | tensorflow/stream_executor/executor_cache.cc:86-92 | The linear search returns a matching configuration and misses none |
| `ExecutorCache.SearchIsLookup` | tensorflow/stream_executor/executor_cache.cc:86-92 | Searching an entry is looking the key up in the map |
| `BatchLayout.OffsetIndependentOfLayout` | tensorflow/stream_executor/dnn.cc:226-251 | Reordering a coordinate into another layout and using the strides requested for it gives the same offset, and keeps the coordinate in bounds |
| `BatchLayout.OffsetInjective` | tensorflow/stream_executor/dnn.cc:234-251 | In every requested layout offsets lie below the element count and differ for different coordinates |
| `BatchLayout.OffsetSurjective` | tensorflow/stream_executor/dnn.cc:234-251 | and every offset below the element count is some coordinate's, so addressing is a bijection |
| `BatchLayout.ReorderComposes` | tensorflow/stream_executor/dnn.cc:181-203 | Reordering composes, does nothing between equal layouts, and is undone by reordering back |
| `BatchLayout.ReorderDims` | tensorflow/stream_executor/dnn.cc:181-203 | The loop computes the reordering: the value of every role moves from its place in one layout to its place in the other |
| `BatchLayout.Place` | tensorflow/stream_executor/dnn.cc:148-179 | Every role has a place within the dimensions |
| `BatchLayout.Role` | tensorflow/stream_executor/dnn.cc:148-179 | Every place has a role, the inverse of the placement |
| `BatchLayout.ComputeFullDims` | tensorflow/stream_executor/dnn.cc:226-232 | In the requested layout the batch place holds the count, the depth place the number of feature maps and the spatial places the spatial sizes in order |
| `BatchLayout.FullDimsParts` | tensorflow/stream_executor/dnn.cc:226-232 | The same as a fact about every descriptor and layout |
| `BatchLayout.ComputeFullStrides` | tensorflow/stream_executor/dnn.cc:234-251 | The dense strides of the stored layout, reordered to the requested one; refused exactly for the vectorised layout |
| `BatchLayout.StoredStrides` | tensorflow/stream_executor/dnn.cc:244-249 | In the stored layout the last dimension is contiguous and each other dimension strides over all of the next one |
| `BatchLayout.StridesFit` | tensorflow/stream_executor/dnn.cc:244-249 | Without empty dimensions every product the loop forms is at most the element count |
| `BatchLayout.NodesPerFeatureMap` | tensorflow/stream_executor/dnn.cc:313-319 | The product of the spatial sizes |
| `BatchLayout.ElementCountIsProduct` | tensorflow/stream_executor/dnn.cc:325-327 | The element count is the product of the full dimensions in every layout |
| `Occupancy.OccupancyIsGreatest` | tensorflow/stream_executor/device_description.cc:163-213 | Without overflow, a number of blocks is at most the occupancy if and only if that many blocks fit the block, register, shared memory and thread budgets of a core |
| `Occupancy.FitsExactly` | tensorflow/stream_executor/device_description.cc:184-206 | Blocks fit if and only if some allocation of whole warps, and of whole granules of warps, registers and shared memory, covers them and stays within the budgets: rounding up wastes nothing |
| `Occupancy.UnsetFieldsGiveZero` | tensorflow/stream_executor/device_description.cc:167-182 | The occupancy is zero when one of exactly seven fields is unset or too many registers are asked for |
| `Occupancy.OccupancyAntitone` | tensorflow/stream_executor/device_description.cc:163-213 | More registers per thread never raise the occupancy |
| `Occupancy.ComputedExactly` | tensorflow/stream_executor/device_description.cc:184-206 | Without overflow the 64-bit quantities are the exact ones and no divisor is zero |
| `Occupancy.CalculateRegisterLimitForTargetOccupancy` | tensorflow/stream_executor/device_description.cc:215-232 | For every device on which the search divides by zero nowhere, overflow and conversion to `int` included: the result is the largest of the visited counts, the limit and the multiples of the step below it, that reaches the target, or zero if none does; counts below the result need not have an occupancy |
| `Occupancy.ResultIsSearchResult` | tensorflow/stream_executor/device_description.cc:215-232 | Where limit and step fit `int` and nothing overflows, the search runs and this result is the one the theorems below are about |
| `Occupancy.SearchIsBest` | tensorflow/stream_executor/device_description.cc:215-232 | If the register granularity is a multiple of the warp size, the result is the largest of all counts that reach the target, or zero if none does: the skipped counts cannot be better |
| `Occupancy.UnitStepIsBest` | tensorflow/stream_executor/device_description.cc:215-232 | With a step of one the result is the largest for every granularity |
| `Occupancy.SearchMissesBest` | tensorflow/stream_executor/device_description.cc:221-225 | In all other cases there is a device on which the search returns too few registers |
| `Occupancy.SearchExact` | tensorflow/stream_executor/device_description.cc:215-232 | For a warp size and granularity, the search is optimal on all devices, launches and targets if and only if the warp size divides the granularity or the step is one |
| `Occupancy.CeilOfRatio` | tensorflow/stream_executor/lib/mathutil.h:58-89 | The least multiple that is not below the numerator |
| `StringCodec.TensorRoundTrip` | tensorflow/c/c_api.cc:485-514 | For every string tensor whose encoding fits size_t, decoding the encoding gives the strings back if and only if the tensor is empty or its data section is shorter than 2^63 bytes, offsets being compared as pointer differences |
| `StringCodec.TensorFromTensor` | tensorflow/c/c_api.cc:568-619 | Succeeds exactly if the encoding fits size_t: the buffer is then the offset table followed by the encoded strings, filled to the last byte, and neither error branch is taken |
| `StringCodec.TensorBufferSize` | tensorflow/c/c_api.cc:571-578 | The size computed up front is the size of that buffer, as a size_t |
| `StringCodec.WriteElement` | tensorflow/c/c_api.cc:586-599 | One turn of the loop puts the next offset and the next string in place, and fails exactly if the string does not fit |
| `StringCodec.TensorToTensor` | tensorflow/c/c_api.cc:485-514 | On any buffer, the strings its offsets point to, or the first error |
| `StringCodec.TooShortExactly` | tensorflow/c/c_api.cc:490-494 | A buffer is refused as too short exactly if it cannot hold the offset table |
| `StringCodec.OutOfRangeExactly` | tensorflow/c/c_api.cc:501-506 | Below the pointer-difference limit an element is out of range exactly if its offset is not inside the data section |
| `StringCodec.ElementRoundTrip` | tensorflow/c/c_api.cc:500-512 | One element comes back below the limit, and is out of range above it |
| `StringCodec.OffsetAt` | tensorflow/c/c_api.cc:582-588 | The i-th stored offset is the encoded size of the strings before |
| `StringCodec.StringStandsAt` | tensorflow/c/c_api.cc:582-599 | Where a string stands in the buffer: behind the offset table, at its offset, after the varint of its length |
| `StringCodec.LittleEndianByte` | tensorflow/c/c_api.cc:585-588 | Byte i of a stored offset holds its i-th group of eight bits |
| `StringCodec.PutOffset` | tensorflow/c/c_api.cc:585-588 | Stores eight bytes, low byte first, and nothing else |
| `StringCodec.StringEncode` | tensorflow/c/c_api.cc:252-268 | Succeeds exactly if the encoding fits the buffer and its size a size_t, then writes exactly it and returns its size; writes nothing on an error |
| `StringCodec.SizeWraps` | tensorflow/c/c_api.cc:254-258 | The size check detects wrap-around exactly |
| `StringCodec.StringRoundTrip` | tensorflow/c/c_api.cc:270-284 | A string is decoded from its encoding whatever follows |
| `StringCodec.VarintRoundTrip` | tensorflow/core/lib/core/coding.cc:166-183 | Every 64-bit value is read back from its varint whatever follows, with the number of bytes consumed |
| `StringCodec.GetVarint64` | tensorflow/core/lib/core/coding.cc:166-183 | The loop computes the decoding function on every buffer, at most ten bytes of it |
| `StringCodec.VarintReadExactly` | tensorflow/core/lib/core/coding.cc:166-183 | On any buffer a varint is read exactly if one of the first ten bytes ends it, and its value is then the sum of its shifted groups |
| `StringCodec.EncodeVarint64` | tensorflow/core/lib/core/coding.cc:110-119 | Writes exactly the varint and returns the position after it |
| `StringCodec.VarintByte` | tensorflow/core/lib/core/coding.cc:110-119 | Byte i of a varint holds the i-th group of seven bits, with the top bit set in all bytes but the last |
| `StringCodec.VarintIsShortest` | tensorflow/core/lib/core/coding.cc:110-119 | A varint is as short as its value allows |
| `StringCodec.VarintLength` | tensorflow/core/lib/core/coding.cc:127-134 | The length of the varint |
| `GoStrings.TensorHoldsValue` | tensorflow/go/tensor.go:72-113 | The contents made of a uniform value denote that value and no other, for numbers, booleans and strings, nested in slices and arrays to any depth |
| `GoStrings.NewTensor` | tensorflow/go/tensor.go:72-113 | For every Go value, jagged ones included: exactly the uniform values of a supported kind that fit the memory window become tensors, with the shape read off first elements; numbers and booleans stand at their row-major index byte for byte, strings as in the C library; unsupported kinds, and only they, are refused as such; wrapped sizes never let another value through |
| `GoStrings.TensorValue` | tensorflow/go/tensor.go:174-190 | Value returns what the memory denotes, and fails exactly if the memory is larger than the window or denotes nothing |
| `GoStrings.NewStringTensor` | tensorflow/go/tensor.go:72-113 | Succeeds exactly on uniform values that fit the memory window, the buffer is the one the C library makes of the same strings in order, and the check of the offsets written never fires |
| `GoStrings.TextsAreRowMajor` | tensorflow/go/tensor.go:418-430 | The string that indexing with a path finds is the one listed at the row-major index of the path |
| `GoStrings.StringTensorRoundTrip` | tensorflow/go/tensor.go:438-469 | Decoding the buffer of nested strings succeeds and restores the nesting |
| `GoStrings.TextReadsBack` | tensorflow/go/tensor.go:438-458 | Every string is read back through its offset |
| `GoStrings.StringEncoder.Encode` | tensorflow/go/tensor.go:399-430 | Appends the strings of the value in order, offsets and data in step; fails exactly if a slice has not the length of the shape or the strings do not fit |
| `GoStrings.StringEncoder.EncodeOne` | tensorflow/go/tensor.go:400-415 | One offset and one string; fails exactly if the string does not fit, where an index outside the data panics |
| `GoStrings.StringEncoder.EncodeItems` | tensorflow/go/tensor.go:424-429 | The same for the elements of a container |
| `GoStrings.EncodedStringsSize` | tensorflow/go/tensor.go:291-302 | The total encoded size of the nested strings, as a uintptr |
| `GoStrings.StringDecoder.Decode` | tensorflow/go/tensor.go:438-469 | On any buffer: a nested slice of the shape, or failure exactly if one of its strings cannot be read |
| `GoStrings.StringDecoder.DecodeOne` | tensorflow/go/tensor.go:439-458 | The string at the next offset, or failure |
| `GoTensor.NewNumericTensor` | tensorflow/go/tensor.go:72-113 | Which of five ways the call ends: a tensor exactly for uniform values within the window; its bytes hold, at the row-major index of every path, 1 for true, 0 for false and a number's own bytes, and reading them gives the value back; the check of the written size fires exactly if the size of a uniform value wraps to one within the window |
| `GoTensor.SizeBugHappens` | tensorflow/go/tensor.go:100-102 | A value of 2^32 slices of 2^32 bytes for which that check fires |
| `GoTensor.NumericRoundTrip` | tensorflow/go/tensor.go:306-390 | The encoding of a uniform value has the size of its shape and reads back to the value |
| `GoTensor.EncodingChecksExactly` | tensorflow/go/tensor.go:242-261 | Checking only slice lengths against the lengths of first elements accepts exactly the uniform values |
| `GoTensor.EncodeTensor` | tensorflow/go/tensor.go:306-351 | Appends the bytes of the elements in order; fails exactly if a slice has not the length of the shape |
| `GoTensor.FlatElement` | tensorflow/go/tensor.go:307-319 | A boolean is the byte 1 if it is true and 0 if not, and a number its own bytes, each at its index |
| `GoTensor.LeavesAreRowMajor` | tensorflow/go/tensor.go:339-345 | The element that indexing with a path finds is the one written at the row-major index of the path |
| `GoTensor.EncodeItems` | tensorflow/go/tensor.go:339-345 | The same for the elements of a container |
| `GoTensor.BulkIsElementwise` | tensorflow/go/tensor.go:331-337 | Writing a slice of numbers at once writes what element-wise recursion would |
| `GoTensor.DecodeTensor` | tensorflow/go/tensor.go:355-390 | Reads a nested slice of the shape; fails exactly if the bytes do not suffice |
| `GoTensor.ReadsElement` | tensorflow/go/tensor.go:357-366 | A byte is read as true exactly if it is 1, and a number is the bytes it stands in |
| `GoTensor.DecodeItems` | tensorflow/go/tensor.go:380-384 | The same for the elements of a slice |
| `GoTensor.BulkRead` | tensorflow/go/tensor.go:372-378 | Reading a slice of numbers at once reads the same elements |
| `GoTensor.RebuildRestores` | tensorflow/go/tensor.go:355-390 | A uniform value is determined by its shape and its elements in order |
| `GoTensor.ShapeAndKindOf` | tensorflow/go/tensor.go:242-261 | The lengths of the first elements at each depth, zero below an empty container |
| `GoTensor.ShapeExactly` | tensorflow/go/tensor.go:242-261 | A dimension is the length of the container that first elements lead to, and zero below an empty one |
| `GoTensor.NumElements` | tensorflow/go/tensor.go:281-287 | The product of the shape, as an int64 |
| `KernelArgs.AllArguments` | tensorflow/stream_executor/kernel.h:280-334 | Iterating over a list yields exactly the arguments added, in their order: shared ones with their size and no address, plain ones with their address and size, device ones through a slot that holds the device pointer |
| `KernelArgs.KernelArgIterator.constructor` | tensorflow/stream_executor/kernel.h:282-296 | Starts in front of the first argument |
| `KernelArgs.KernelArgIterator.Next` | tensorflow/stream_executor/kernel.h:304-324 | Hands out the next argument of the list the packed arrays stand for; at the end a default one, without moving |
| `KernelArgs.NextArgument` | tensorflow/stream_executor/kernel.h:304-324 | An argument is shared exactly if the next shared index is its position, and the cursors point at its size and address |
| `KernelArgs.PackedPrefix` | tensorflow/stream_executor/kernel.h:395-486 | The arrays of a prefix of the list start the arrays of the list, and later shared indices are not below it |
| `KernelArgs.KernelArgsArray.constructor` | tensorflow/stream_executor/kernel.h:397-400 | The empty list |
| `KernelArgs.KernelArgsArray.AddArgument` | tensorflow/stream_executor/kernel.h:407-412 | Appends a plain argument to the list the arrays stand for |
| `KernelArgs.KernelArgsArray.AddDeviceMemoryArgument` | tensorflow/stream_executor/kernel.h:415-422 | Appends a device argument, copying its pointer |
| `KernelArgs.KernelArgsArray.AddSharedBytes` | tensorflow/stream_executor/kernel.h:428-434 | Appends a shared memory argument |
| `KernelArgs.KernelArgsArray.NumberOfSharedBytes` | tensorflow/stream_executor/kernel.h:443-445 | The sum of the sizes of all shared arguments, as a size_t |
| `AttrLists.GetAttrStringList` | tensorflow/c/c_api.cc:1709-1734 | Succeeds exactly if the values to copy fit the storage, for any maximum; values lie back to back from the start, each at the pointer and length returned |
| `AttrLists.GetAttrShapeList` | tensorflow/c/c_api.cc:1776-1805 | The same for shapes, an unknown rank reported as -1 and taking no room |
| `AttrLists.AllTaken` | tensorflow/c/c_api.cc:1709-1805 | With room for all values, what must fit is the total size that the metadata reports |
| `AttrLists.StringListTotalSize` | tensorflow/c/c_api.cc:1622-1624 | The reported total is the sum of the lengths |
| `AttrLists.ShapeListTotalSize` | tensorflow/c/c_api.cc:1629-1633 | The reported total is the sum of the known ranks |
| `AttrLists.SlicesDisjoint` | tensorflow/c/c_api.cc:1709-1805 | Values do not overlap in the storage |

## Left out

- The name of the function itself, its hash and Base64 form, and its description.
- Parsing of requested input names: the model gets them as node name and index.
- Proto parsing and serialisation, ImportGraphDef, while loops, gradients, shape
  inference, and the real session backend.
- TF_LoadSessionFromSavedModel, sessions without a graph, and the deprecated sessions.
- RemoveAllControlInputs, which records no mutation, and ListDevices in Go, which takes
  no lock.
- The memory model: a locked section is one step, and `ExecutorCache` treats a factory
  call as lasting until it returns. DestroyAllExecutors is not a step.
- Attribute setters, single attributes, int, float, bool, type, tensor and function
  lists, API definition maps, status and buffer handling.
- The wording of error messages.
- TensorFromTensor: more than 2^31 - 1 strings, and wrapped sizes too small for the
  offset table, are not modelled, because the source then overflows an `int` or writes
  outside its buffer.
- TensorToTensor: an offset of 2^63 or more, which passes the range test as a negative
  difference, and a length that runs past the end of the buffer are an error of their
  own, because the source then reads outside the data and its result is undefined.
- StringDecoder.Decode: the error of a bad offset and the panic of an index outside the
  data are one failure, because Value turns both into a panic; a length past the data
  fails too, because what the source then reads is undefined.
- StringDecoder.DecodeOne: the same.
- NewTensor: a value too large for the memory window, or whose sizes wrap, fails, where
  the source may panic; named string types, reflection, finalizers and allocation
  failures are not modelled.
- CalculateRegisterLimitForTargetOccupancy: devices on which it divides by zero are not
  modelled, because the source has no defined result there.
- ComputeFullStrides: 64-bit overflow of the strides is not modelled, because signed
  overflow has no defined result; `StridesFit` says when there is none.
- Byte order other than little-endian in string tensors; numbers are byte strings in
  whatever order the machine has.
- ReadTensor, WriteContentsTo, file and device I/O, plugin registry, platform manager,
  and the blas, fft and rng interfaces.
