# Verified core of vLLM for the RTX 2080 Ti

This project models the parts of the repository that carry real state, branching or arithmetic, and proves
what they promise. Each module follows one source file. Where the source changes state step by step the
model does too (classes and methods with loops), and each method is proved against a specification about
which the theorems are stated. Verify everything with `dafny verify dfyconfig.toml`.

The main results, hardest first:

- **Graph partitioning preserves meaning** (`PartitionMeaning.MeaningExact`). A compiler graph is run two ways:
  as one sequence of kernels, and partition by partition, where each partition sees only its declared inputs,
  frees after last use and hands back only its declared outputs. For every schedule that meets the two assumptions
  below, every choice of kernels and every input, the partitioned run misses nothing if and only if two conditions on
  layouts, aliases and last uses hold, and then every graph output holds the same value. `FlowExact` and `LivenessExact` are the corresponding exact statements about
  which buffers are found and which are returned, and `PartitionBuffers.LiveExactly` says exactly which buffers are
  live after the run: nothing that was used last leaks.
- **All-or-nothing mapping and sleep/wake conservation** (`Allocator`), against a driver whose every call may fail,
  with the exact answers of the driver after which an error leaves memory behind.
- **Flat log-probabilities refine a list of dictionaries** over whole runs (`FlatLogprobs.Run`), with the exact
  condition for slices (`Logprobs.SliceExact`).
- **Stream merging**, with its AssertionError: delta equals cumulative (`Outputs.StreamsAgree`), and the exact
  conditions under which batching messages never changes the outcome (`Outputs.BatchingExactFor`,
  `Outputs.BatchingExact`). The object-level method is proved for all arguments, shared objects included
  (`RequestOutputs.RequestOutput.Add`).
- **Generation safety**: a run passes the masks exactly when it contains no bad word (`LogitsProcess.RunExact`).
- **Largest finite value** of a parametric float format, with the exact set of formats for which the computed value
  is right (`FloatMax.FloatingPointMaxInt`); id codecs in two languages (`ScalarTypes`).
- **Quantisation error**, **bounded tracing under every interleaving** and the **range printer**.

## What the models assume

- Partitions: `OrderedSet` is `set`. `mutation_real_name` never maps to another alias, so the layout test
  terminates. `Scheduled` lists what the scheduler guarantees: one producer per name, names exist before they are
  accessed or aliased, and a name used last is not touched again and backs no graph output. A kernel is an arbitrary
  function of the storage behind the names its node reads or writes; a mutation overwrites the storage it aliases.
  `AliasesAreAccessed`, the second assumption of `MeaningExact` and `LivenessExact`, says that a node which makes an
  alias reads or writes the storage it aliases under a name with a layout, or makes that storage itself.
- Allocator: addresses and offsets are natural numbers. Context, driver and environment are nondeterministic. All that
  is assumed of a successful map call is that nothing starts at the same address: the modelled driver may map
  overlapping ranges, and the theorems hold for it too. Setting access grants it to every mapping that starts in the
  range, whoever made it.
- Log-probabilities, logits and quantisation use exact reals; a logit may also be minus infinity.
- `FloatMax` counts magnitudes in units of the smallest positive double, 2^-1074. Where infinities exist they are
  encoded as in section 3.4 of IEEE 754-2019.

## What turned out false of the code

- A buffer laid out as nothing that a later partition uses last is declared an input which nobody returns
  (`PartitionFlow.LateFreeBreaksFlow`), and an in-place operation whose own buffer is laid out as nothing but is not a
  `MutationOutput` hides the storage a later partition reads (`PartitionMeaning.HiddenAliasMisses`).
- The final assertion of the memory planner accepts an exit that precedes its enter
  (`MemoryPlan.AssertionMissesSwappedBrackets`). What it accepts is well bracketed exactly when the outermost state is
  never popped early (`MemoryPlan.AssertionExact`).
- A latch that is already set makes `create_and_map` return after its first call and leave the created handle live
  (`CreateAndMap`), and a failure to set access is reported without undoing the mapping; if the calls that give memory
  back succeed, these are exactly the errors that change the device. A configured chunk size near
  2^64 makes the chunk division trap, or leaves the range untiled (`ChunkPlan.PlanChunks`,
  `ChunkPlan.LargestSettingTraps`).
- Slices with a negative step read back wrongly unless they select one position or only empty ones
  (`Logprobs.SliceExact`); slices that select nothing raise (`FlatLogprobs.FlatLogprobs.GetSlice`).
- Batching changes the outcome when the message merged into repeats an index (`Outputs.RepeatBreaksBatching`), and,
  with aggregation, it raises where merging one by one does not, exactly when an index that carries log-probabilities
  in the later message does not start with a list of them (`Outputs.BatchingExactFor`). No message can be batched with
  every other under aggregation (`Outputs.NoMessageTakesEveryBatch`).
- The computed maximum is wrong for some formats that `float_IEEE754` and `float_` admit: one exponent bit with the
  IEEE 754 convention, and one mantissa bit with extended range and infinities. Among formats built directly it is also
  wrong for IEEE 754 NaNs with finite values only, for extended range without mantissa bits, and for formats without
  NaNs and without mantissa bits but with infinities; it is right for all others (`FloatMax.MaxIntExact`).
- Widths above eight bits wrap in the final cast (`Quantize.StoredExactly`). The zero point leaves the 32-bit range
  exactly when the smallest element is 2147483647.5 scales or more away from zero (`Quantize.ZeroPointFitsExactly`),
  as for the constant row of 30000 (`Quantize.LargeConstantRowOverflows`).
- A reset while a thread is about to log lets one event be logged twice until the next reset
  (`AttentionTrace.ResetSafeExactly`); such a run exists exactly when two threads trace and the limit is not 0
  (`AttentionTrace.RepeatsExactly`).

## Model

| member | source | states |
|---|---|---|
| `PartitionModel.SignPartition` | vllm/env_override.py:238-334 | one partition's signature and the names unmet before it; none exactly when a returned name with a layout has no node |
| `PartitionModel.GraphPartitionSignatures` | vllm/env_override.py:198-336 | the reverse walk signs the last partitions that both lists cover, or meets a KeyError |
| `PartitionFlow.FlowExact` | vllm/env_override.py:212-336 | run in order, every partition finds its declared inputs and every graph output is live at the end, if and only if no partition takes a name without storage |
| `PartitionFlow.FlowsFrom` | vllm/env_override.py:235-336 | flow soundness from any point of the walk at which the needed buffers are live |
| `PartitionFlow.LateFreeBreaksFlow` | vllm/env_override.py:264-313 | a scheduled graph on which flow fails |
| `PartitionFlow.NoLookupFails` | vllm/env_override.py:309-313 | a scheduled graph meets no KeyError |
| `PartitionFlow.AliasStaysUnmet` | vllm/env_override.py:305-334 | a graph output that is an alias is never struck from the unmet names |
| `PartitionLiveness.LivenessExact` | vllm/env_override.py:238-334 | storage made in a partition is returned if and only if a later partition takes it or it backs a graph output; what else it returns is exactly what it took and did not use last |
| `PartitionLiveness.ReturnedOldIsInput` | vllm/env_override.py:293-307 | what a partition returns without producing it is an unfreed input |
| `PartitionMeaning.MeaningExact` | vllm/env_override.py:198-336 | the partitioned run misses nothing if and only if what a partition frees or accesses from outside has storage, and storage accessed under a name laid out as nothing is also used last there or accessed there under a name with a layout; it then computes what the whole graph computes |
| `PartitionMeaning.CoversAccessesExactly` | vllm/env_override.py:253-280 | that condition on layouts and last uses is what it takes for the computed inputs to hold all storage accessed from outside |
| `PartitionMeaning.PartitionAgrees` | vllm/env_override.py:238-334 | one partition, seeing only its inputs, agrees with the reference run on all live buffers |
| `PartitionMeaning.OverwrittenIsReturned` | vllm/env_override.py:293-307 | older storage that a partition overwrites is handed back or deallocated, never left stale |
| `PartitionBuffers.SignatureExact` | vllm/env_override.py:253-328 | each signature in terms of its partition's nodes: what it takes, which constants it names, which inputs it gives up, and its own cudagraph flag |
| `PartitionBuffers.MarkedMutationsAreCovered` | vllm/env_override.py:215-233 | if every alias laid out as nothing is a `MutationOutput`, the coverage condition always holds |
| `PartitionBuffers.FreedIsNotReturned` | vllm/env_override.py:268-313 | no partition returns what it or an earlier one used last |
| `PartitionBuffers.LiveExactly` | vllm/env_override.py:198-336 | after the whole run a buffer is live if and only if it was given or made for later use and no partition has used it last |
| `PartitionMeaning.RunPartitionsNeed` | vllm/env_override.py:245-313 | a run that misses nothing satisfies both conditions |
| `PartitionMeaning.HiddenAliasMisses` | vllm/env_override.py:215-262 | a scheduled graph whose partitioned run misses, whatever its kernels compute |
| `MemoryPlan.Kept` | vllm/env_override.py:166-172 | the trim drops exactly the maximal suffix of planning lines that name no output |
| `MemoryPlan.WrapperCodegen.DropPointlessLines` | vllm/env_override.py:166-172 | the trimming loop keeps that prefix |
| `MemoryPlan.WrapperCodegen.MemoryPlanReuse` | vllm/env_override.py:166-186 | lines and past states are those of the stack machine, also when it stops early; it succeeds exactly when no line meets an empty stack and one state is left |
| `MemoryPlan.DriveBlock` | vllm/env_override.py:174-185 | on nested code the stack machine does what planning block by block does, whatever surrounds it |
| `MemoryPlan.WellBracketedIsNested` | vllm/env_override.py:177-184 | a line list is well bracketed if and only if it is flattened nested code |
| `MemoryPlan.PlansNestedCode` | vllm/env_override.py:166-186 | on a well-bracketed list every planning line is planned in the state of its innermost subgraph and the assertion holds |
| `MemoryPlan.DoneExactly` | vllm/env_override.py:175-186 | the run passes the final assertion if and only if no planning line and no exit meets an empty stack and one state is left |
| `MemoryPlan.ClosesExactly` | vllm/env_override.py:177-186 | well bracketed is the same as one state left and no prefix emptying the stack |
| `MemoryPlan.AssertionExact` | vllm/env_override.py:166-186 | a list is well bracketed if and only if planning it passes the assertion and never pops the outermost state before the end |
| `MemoryPlan.ErrorsExactly` | vllm/env_override.py:175-186 | an AssertionError exactly when no line meets an empty stack and more than one state is left; success exactly when one is left |
| `MemoryPlan.KeepsOtherLines` | vllm/env_override.py:175-184 | planning rewrites planning lines in place and nothing else, however far it gets |
| `MemoryPlan.AssertionMissesSwappedBrackets` | vllm/env_override.py:183-186 | a badly bracketed list that passes |
| `ChunkPlan.ConfiguredChunkSize` | csrc/cumem_allocator.cpp:24-42 | the configured number of MB when it fits 64 bits, else 256 MB |
| `ChunkPlan.AlignUpExact` | csrc/cumem_allocator.cpp:319-346 | rounding up gives the next multiple, or wraps around to 0 |
| `ChunkPlan.PlanChunks` | csrc/cumem_allocator.cpp:319-369 | whole chunks and a last one that tile the aligned size if and only if no rounding sum wraps; the division traps if and only if the chunk size wraps |
| `ChunkPlan.TilesExactly` | csrc/cumem_allocator.cpp:347-369 | tiling holds exactly without wrap-around |
| `ChunkPlan.EachByteInOneChunk` | csrc/cumem_allocator.cpp:160-178 | running map addresses cover every byte of the range exactly once |
| `ChunkPlan.LargestSettingTraps` | csrc/cumem_allocator.cpp:34-348 | a setting the overflow guard admits gives chunk size 0 |
| `Allocator.CumemAllocator.EnsureContext` | csrc/cumem_allocator.cpp:85-93 | the latch can be set here, never cleared |
| `Allocator.CumemAllocator.CreateHandles` | csrc/cumem_allocator.cpp:150-159 | one new handle per chunk, of its size, or the device as before; under a latch that is already set, one call and at most one new handle |
| `Allocator.CumemAllocator.MapChunks` | csrc/cumem_allocator.cpp:160-179 | all chunks mapped, or neither mapped nor created |
| `Allocator.CumemAllocator.Rollback` | csrc/cumem_allocator.cpp:152-177 | undoing restores the device when its calls succeed |
| `Allocator.CumemAllocator.CreateAndMap` | csrc/cumem_allocator.cpp:102-190 | for any pattern of failures: success is one complete allocation with access to its range, the error is the first failing status, and, with chunks and if cleanup calls succeed, an error leaves the device as it was if and only if no handle was created under a latch already set and no access failure followed the mapping |
| `Allocator.CumemAllocator.UnmapChunks` | csrc/cumem_allocator.cpp:216-226 | every chunk is unmapped at its running address, whatever fails |
| `Allocator.CumemAllocator.ReleaseHandles` | csrc/cumem_allocator.cpp:228-233 | every handle is released, whatever fails |
| `Allocator.CumemAllocator.UnmapAndRelease` | csrc/cumem_allocator.cpp:205-237 | all calls are attempted in order and the earliest failing status is latched |
| `Allocator.CumemAllocator.PythonCreateAndMap` | csrc/cumem_allocator.cpp:715-728 | for any latch: reports and clears it; success means one complete allocation with access, an earlier error is reported even if every call succeeds, and the same exact condition says when an error leaves the device as it was |
| `Allocator.CumemAllocator.PythonUnmapAndRelease` | csrc/cumem_allocator.cpp:648-661 | for any latch: attempts every call, reports the earliest failure or else the latch, and clears it |
| `Allocator.CumemAllocator.WakeAndSleep` | csrc/cumem_allocator.cpp:648-726 | any number of map and unmap cycles that report no error leaves the device as it was, exactly unless somebody else has a mapping in the range that could not be accessed before |
| `Allocator.ChunksAreAccessible` | csrc/cumem_allocator.cpp:160-190 | after success every chunk of an allocation that its chunks make up may be accessed |
| `Allocator.GiveBackGranted` | csrc/cumem_allocator.cpp:216-233 | giving back an accessible allocation leaves nothing of it |
| `Allocator.GiveBackRestores` | csrc/cumem_allocator.cpp:216-233 | unmapping and releasing an allocation with the same list undoes it exactly |
| `Allocator.ReplayGivesBack` | csrc/cumem_allocator.cpp:219-233 | with failures, exactly the successful calls took effect |
| `Logprobs.ReadAtContents` | vllm/logprobs.py:110-120 | reading a position gives its dictionary, in order |
| `Logprobs.WithPositionContents` | vllm/logprobs.py:63-93 | appending a position changes no other and reads back as the dictionary of its items |
| `Logprobs.ToDictExact` | vllm/logprobs.py:110-120 | a dictionary has the keys in first-appearance order, each with the value of its last item |
| `Logprobs.Indices` | vllm/logprobs.py:121-127 | the positions a slice selects are in range and in step order |
| `Logprobs.RangeAt` | vllm/logprobs.py:121-127 | element `j` of a range is `start + j * step`, and exists exactly while that is before `stop` |
| `Logprobs.IndicesExactly` | vllm/logprobs.py:121-127 | a slice selects exactly the positions inside its bounds, negative ones counted from the end, a whole number of steps from the first one |
| `Logprobs.LastPositions` | vllm/logprobs.py:121-127 | a slice from `-k` is the last `k` positions, or all |
| `Logprobs.MiddlePositions` | vllm/logprobs.py:121-127 | a slice with both bounds inside is the usual segment |
| `Logprobs.SlicedAscending` | vllm/logprobs.py:121-133 | a slice in ascending order keeps the layout valid and reads as the list slice |
| `Logprobs.SlicedDescending` | vllm/logprobs.py:121-133 | in descending order only empty dictionaries survive |
| `Logprobs.SliceExact` | vllm/logprobs.py:121-133 | a slice reads as the list slice if and only if its step is positive, or it selects one position, or all it selects is empty |
| `FlatLogprobs.FlatLogprobs.Append` | vllm/logprobs.py:63-72 | the list grows by the dictionary, None reads back as empty |
| `FlatLogprobs.FlatLogprobs.AppendFast` | vllm/logprobs.py:74-93 | the list grows by the dictionary of the zipped columns, later duplicates win |
| `FlatLogprobs.FlatLogprobs.Extend` | vllm/logprobs.py:95-98 | the list grows by all positions |
| `FlatLogprobs.FlatLogprobs.GetItem` | vllm/logprobs.py:110-120 | position `p` or `p - n` of the list reads as its dictionary, any other raises |
| `FlatLogprobs.FlatLogprobs.GetSlice` | vllm/logprobs.py:121-133 | a new container; errors for step 0 and for empty selections |
| `FlatLogprobs.FlatLogprobs.ToList` | vllm/logprobs.py:146-152 | iteration yields the list |
| `FlatLogprobs.FlatLogprobs.AppendNextPosition` | vllm/logprobs.py:175-206 | the flat branch equals the dictionary branch |
| `FlatLogprobs.NextPositionExact` | vllm/logprobs.py:183-206 | the sampled token comes first with its rank, top token `j` has rank `j`, and as many items as asked for and as the columns have |
| `FlatLogprobs.Run` | vllm/logprobs.py:63-152 | any run of appends, extensions and ascending slices reads as on a list of dictionaries, and fails exactly where that meets an empty selection |
| `Outputs.TryCombineExact` | vllm/outputs.py:158-174 | merging three completions has the same outcome in both groupings, exactly unless the last carries log-probabilities that the first could take and the middle one cannot |
| `Outputs.AddAllIndices` | vllm/outputs.py:155-177 | indices stay unique and in first-appearance order |
| `Outputs.AdmissibleExactly` | vllm/outputs.py:164-166 | the assertion never fails if and only if every index that carries log-probabilities starts with a list of them |
| `Outputs.BatchingExactFor` | vllm/outputs.py:147-177 | for a message without repeats, batching with `n` has the stepwise outcome for every output, errors included, if and only if every index that carries log-probabilities in `n` starts with a list of them |
| `Outputs.BatchingExact` | vllm/outputs.py:147-177 | batching messages without repeats never changes the outcome if and only if the message merged into repeats no index and, with aggregation, all its completions have lists of log-probabilities |
| `Outputs.RepeatBreaksBatching` | vllm/outputs.py:147-177 | every repeated index has outputs and a message that tell the difference without any error |
| `Outputs.NoMessageTakesEveryBatch` | vllm/outputs.py:155-177 | under aggregation every message has one it cannot be batched with |
| `Outputs.AddAssociative` | vllm/outputs.py:147-177 | whole request outputs merge associatively into every output, errors included, exactly under the same condition |
| `Outputs.KeepsFirstExperts` | vllm/outputs.py:158-171 | aggregation keeps the routed experts an index came with first |
| `Outputs.ReplacesByLast` | vllm/outputs.py:172-174 | replacement ends with the last completion of every index |
| `Outputs.RaisedLeaves` | vllm/outputs.py:158-166 | an AssertionError leaves all earlier completions merged, and the text and tokens of the one that raised it |
| `Outputs.FieldsOverStream` | vllm/outputs.py:150-153 | over a stream: finished once any message is, last transfer parameters, routed experts of the prompt last reported |
| `Outputs.AggregateHoldsTotals` | vllm/outputs.py:158-166 | aggregation raises nothing, and its text, tokens and log-probabilities are the concatenated deltas, for each index |
| `Outputs.DeltaEqualsCumulative` | vllm/outputs.py:147-177 | folding deltas equals folding the matching totals |
| `Outputs.StreamedIsFlat` | vllm/outputs.py:147-177 | the outcome of a stream does not depend on how completions are grouped into messages |
| `Outputs.StreamsAgree` | vllm/outputs.py:147-177 | deltas and totals, each grouped into messages in any way, raise nothing and agree whenever both streams have delivered equally many completions |
| `Outputs.FirstMessage` | vllm/outputs.py:155-177 | a first message with unique indices is its own aggregate |
| `Outputs.SteadyIsAdmissible` | vllm/outputs.py:164-166 | log-probabilities that are always or never present meet the assertion |
| `RequestOutputs.CompletionOutput.Merge` | vllm/outputs.py:158-171 | the object ends with joined text, tokens and log-probabilities and the newer status, also merged with itself; a failing assertion leaves text and tokens appended |
| `RequestOutputs.UnsharedMergesValues` | vllm/outputs.py:155-177 | merging references is merging values as long as no object plays two parts |
| `RequestOutputs.SelfMergeKeepsRest` | vllm/outputs.py:155-177 | an output merged into itself does not change the part of its list still to be visited |
| `RequestOutputs.RequestOutput.AddCompletion` | vllm/outputs.py:156-177 | first match merged or replaced, else appended, as objects, whatever is shared and also when the assertion fails |
| `RequestOutputs.RequestOutput.AddCompletions` | vllm/outputs.py:155-177 | the loop over a list of references that it may itself be changing, up to a failing assertion |
| `RequestOutputs.RequestOutput.Add` | vllm/outputs.py:147-177 | the whole method for all arguments: what every object holds and which objects are listed, after success or AssertionError; without sharing, the merge on values |
| `LogitsProcess.NoBadWordsLogitsProcessor.CheckTokenIdsBounds` | vllm/logits_process.py:106-121 | all out-of-vocabulary ids, in order |
| `LogitsProcess.InvalidIdsExact` | vllm/logits_process.py:106-112 | the reported ids are those outside the vocabulary, in order and with repetitions |
| `LogitsProcess.NoInvalidIdsAtAll` | vllm/logits_process.py:106-114 | there are none exactly when all words are in the vocabulary |
| `LogitsProcess.NoBadWordsLogitsProcessor.InitWordBias` | vllm/logits_process.py:89-104 | the cached bias masks exactly the one-token words |
| `LogitsProcess.NoBadWordsLogitsProcessor.MaskLastToken` | vllm/logits_process.py:66-83 | one word masks exactly the token that would finish it |
| `LogitsProcess.NoBadWordsLogitsProcessor.LastTokenBias` | vllm/logits_process.py:64-83 | all longer words together; it raises exactly when a word is empty or ends, within reach, outside the logits |
| `LogitsProcess.NoBadWordsLogitsProcessor.Call` | vllm/logits_process.py:56-87 | exactly the tokens that would finish a bad word become impossible, all others keep their logit, with a new or a reused cache; logits of another size than the cache are broadcast or refused |
| `LogitsProcess.SpreadIsMasked` | vllm/logits_process.py:64-87 | with equal sizes the sum of both biases masks exactly the blocked tokens |
| `LogitsProcess.OccursWhenCompleted` | vllm/logits_process.py:66-83 | a word occurs in a run exactly when some step completes it |
| `LogitsProcess.RunExact` | vllm/logits_process.py:56-104 | every token of a run is allowed if and only if none was impossible before and no bad word occurs |
| `LogitsProcess.DriveRun` | vllm/logits_process.py:56-104 | one processor with its cache, driven over a whole run |
| `ScalarTypes.OrFoldPacks` | csrc/core/scalar_type.hpp:124-137 | or-ing shifted members packs their bits |
| `ScalarTypes.ExtractPacked` | csrc/core/scalar_type.hpp:142-149 | shifting and masking reads a member back |
| `ScalarTypes.IdLayout` | csrc/core/scalar_type.hpp:124-137 | where each member sits in the id |
| `ScalarTypes.RoundTrip` | csrc/core/scalar_type.hpp:124-157 | `from_id` inverts `id`, negative bias included |
| `ScalarTypes.DecodedExactly` | csrc/core/scalar_type.hpp:124-157 | decoding an id gives the type back if and only if its members fit |
| `ScalarTypes.SameIdExactly` | csrc/core/scalar_type.hpp:124-137 | equal ids if and only if members agree modulo their widths |
| `ScalarTypes.IdInjective` | csrc/core/scalar_type.hpp:120-137 | ids of types whose members fit are distinct |
| `ScalarTypes.OrAndAdvance` | vllm/scalar_type.py:146-151 | a packing step adds the low bits of a member above all bits so far |
| `ScalarTypes.PyId` | vllm/scalar_type.py:136-164 | the Python id is the C++ id and fits 58 bits |
| `ScalarTypes.Registry.Id` | vllm/scalar_type.py:162-164 | for any type: registering replaces only a type that agrees with it modulo the widths, and changes nothing when both fit |
| `ScalarTypes.Registry.FromId` | vllm/scalar_type.py:308-312 | a registered id gives its type, which is what C++ decodes if and only if the members fit; any other id an error |
| `FloatMax.ValueOrder` | vllm/scalar_type.py:76-85 | magnitudes are ordered like exponent and mantissa fields |
| `FloatMax.DecodeWidened` | vllm/scalar_type.py:87-101 | the shifted fields decode, as a double, to the value in the format |
| `FloatMax.MaxIntExact` | vllm/scalar_type.py:71-101 | the pattern is the largest finite value exactly for the formats in `MaxIsRight` |
| `FloatMax.FloatingPointMaxInt` | vllm/scalar_type.py:71-101 | fails exactly when an assertion does; otherwise the result is the largest finite value if and only if the format is in `MaxIsRight` |
| `FloatMax.MaxRawAgrees` | csrc/core/scalar_type.hpp:178-213 | C++, in wrapping 64-bit arithmetic, computes the same bit pattern if and only if the format is not extended range without mantissa bits |
| `Quantize.WithinHalfStep` | vllm/_xpu_ops.py:314-331 | clamp and rounded zero point cost at most half a step |
| `Quantize.ErrorBound` | vllm/_xpu_ops.py:306-331 | every element of every row is quantised in range and within half a scale, in both modes |
| `Quantize.ScaleIsLeast` | vllm/_xpu_ops.py:316-324 | the scale is the least one, not below 1e-5, at which no element needs clamping |
| `Quantize.EndsExact` | vllm/_xpu_ops.py:314-331 | the range has all codes of the width; zero is stored as 0 in the symmetric mode, the smallest element as 0 in the other |
| `Quantize.RoundExact` | vllm/_xpu_ops.py:325-330 | rounding goes to the nearest integer and from halfway to the even one |
| `Quantize.CastExact` | vllm/_xpu_ops.py:331-331 | the cast keeps the value modulo 256 in the range of its type |
| `Quantize.QuantizeMonotone` | vllm/_xpu_ops.py:327-331 | quantisation is monotone |
| `Quantize.StoredExactly` | vllm/_xpu_ops.py:327-331 | the stored eight-bit values meet the bound for all rows whose smallest element is in reach if and only if the width is at most eight |
| `Quantize.ZeroPointFitsExactly` | vllm/_xpu_ops.py:323-325 | the zero point fits 32 bits if and only if the smallest element is less than 2147483647.5 scales away from zero |
| `Quantize.LargeConstantRowOverflows` | vllm/_xpu_ops.py:324-325 | a row that breaks that condition at every width |
| `AttentionTrace.RunInv` | vllm/sm75_attention_trace.py:40-63 | mutual exclusion and the accounts hold after every interleaving |
| `AttentionTrace.TraceBound` | vllm/sm75_attention_trace.py:40-63 | per epoch an event is logged at most once, at most the limit is admitted, and admitted events are logged or about to be |
| `AttentionTrace.DecidesExactly` | vllm/sm75_attention_trace.py:45-50 | in every interleaving a thread with the lock admits its event if and only if it was new and there was room, and changes the seen set in no other way |
| `AttentionTrace.AdmittedIsLogged` | vllm/sm75_attention_trace.py:52-58 | an admitted event is logged before its thread does anything else |
| `AttentionTrace.TracesExactly` | vllm/sm75_attention_trace.py:40-58 | a call alone logs its event once if and only if it was new with room, and changes nothing otherwise |
| `AttentionTrace.ResetSafeExactly` | vllm/sm75_attention_trace.py:52-63 | no event can be logged twice until the next reset if and only if no thread was about to log when the reset happened |
| `AttentionTrace.StaleResetIsReachable` | vllm/sm75_attention_trace.py:40-63 | any two threads can reach a reset with one of them about to log |
| `AttentionTrace.RepeatsExactly` | vllm/sm75_attention_trace.py:40-63 | over whole runs, an event can be logged twice since a reset if and only if there are two threads and room for an event |
| `IndexRanges.FormatIndexRanges` | vllm/model_inspection.py:44-58 | the loop renders the ranges of the sorted indices; an empty list raises |
| `IndexRanges.DocumentedExample` | vllm/model_inspection.py:45-45 | the documented example |
| `IndexRanges.ExpandsBack` | vllm/model_inspection.py:46-57 | expanding the ranges gives the sorted list back |
| `IndexRanges.RangesAreMaximal` | vllm/model_inspection.py:50-57 | ranges of distinct indices do not touch |
| `IndexRanges.RenderInjective` | vllm/model_inspection.py:54-58 | the text determines the ranges |
| `IndexRanges.FormatExact` | vllm/model_inspection.py:44-58 | two lists print identically if and only if they hold the same indices equally often |

## Left out

- The order inside `OrderedSet`, symbolic inputs and graph constants of partitions beyond their names.
- Termination of `is_none_layout` on chains or cycles of aliases: real names are required to be final.
- What `MemoryPlanningLine.plan` does to a line and its state: any function.
- `my_malloc` and `my_free` around the size arithmetic, host memory accounting, the interpreter lock, address wrap-around, and the CUDA branch without chunks.
- Aliasing of the token-id and log-probability lists of two completions: lists are values, completions are objects.
- Tokenising bad words, and logits that are NaN or plus infinity.
- `_raw_min`, `min`, `max`, names and predicates of scalar types: short arithmetic and tables.
- FlatLogprobs.Run: slices have a positive step, since others can leave a container whose layout is no longer valid.
- Quantize.ErrorBound: excludes one bit in symmetric mode, which divides by zero.
- Allocator.CumemAllocator.CreateAndMap: says nothing about the device when a call that gives memory back fails, except which calls took effect.
- Outputs.StreamsAgree: log-probabilities of an index are present always or never; excludes routed experts, of which aggregation keeps the first and replacement the last (`KeepsFirstExperts`, `ReplacesByLast`).
- Quantize.StoredExactly: rows whose smallest element is out of reach are excluded, since converting their zero point to 32 bits is not defined.
- Float rounding in quantisation, group quantisation and the key cache kernels.
- The module tree around the range printer, and environment switches of the trace.
- Kernel wrappers, build, configuration, I/O and reporting.
