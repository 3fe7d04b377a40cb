# Asynchronous calls of a WASM virtual machine: verified model

A Dafny model of the parts of a smart-contract virtual machine that carry an asynchronous call from
one shard to another, and proofs of what these parts promise.

1. **The wire codec.** A group of async calls is stored as a two-level Protocol Buffers message. The
   writer fills a buffer backwards, after a separate pass has computed its size; the reader is a cursor
   loop that decodes varints, checks bounds, skips fields it does not know and recurses into calls.
   Both are modelled as methods on arrays and objects, and proved against a forward description of the
   format. Writer and reader undo each other, the set of byte strings the reader accepts is exactly a
   grammar of fields, and what it computes is a fold over those fields.
2. **The call-graph pipeline.** A test describes calls as a graph. It is turned into an execution graph
   (finish leaves, callbacks as edges), whose admissible paths are enumerated and merged into a call
   tree; the tree is given execution rounds, and its gas is accounted for. Every stage is a class that
   updates its state step by step, as in the source. `CallGraphRun.RunCallGraph` runs the whole chain.
   For every acyclic, failure-free call graph it promises a correct schedule and balanced gas, and it
   says on which call graphs gas is conserved whatever the limits.
3. **The queue of cross-shard calls**, with its stable round order and the gate for local callbacks.
4. **The life of a call group** over arbitrary runs, and the native form of groups that is stored and
   loaded through the codec.
5. **Bounded arithmetic and linear memory**: overflow detection from wrapped results, a sticky error,
   and memory accesses whose end is computed with a saturating addition.

Some properties one would expect are false in corner cases. Each is stated with its exact condition,
and with an input on which it fails:

- An async call is answered at its own callback only - false when callers with different addresses name
  the same callback for calls of one type to one node (`CallbackFilter.FilterMeaning`,
  `CallbackFilter.StrangerIsFollowed`).
- Gas is conserved - false, for some limits, exactly on trees in which an async call outside callbacks
  has two callbacks, or another call one, as every callback is funded in full
  (`GasWitness.ConservedIffAtMostOne`, `Gas.GasIsCreated`). The chain builds such a tree exactly from call
  graphs in which a call that is made in some run collides in the sense above, or an async call with a
  callback leads to the start (`CallbackFilter.ChainPaysExactly`, `CallbackFilter.StrangersDoNotPay`).
- `MulInt64` reports every overflow - false for MinInt64 times -1 (`Overflow.FaithfulUnlessMissed`,
  `Overflow.MinTimesMinusOneIsMissed`).
- Loads and stores reach the end of memory - false on memories that reach the largest `int32`, and for
  data whose length does not fit an `int32`
  (`ExecutorMemory.LoadIsClamped`, `ExecutorMemory.LastByteIsLost`, `ExecutorMemory.StoreIsRangeStore`).
- An execution mode survives storing - false unless it fits a signed 32-bit field
  (`AsyncCalls.NativeRoundTrip`, `AsyncCalls.ModeTwoTo31IsLost`).

## Files

| file | content |
|---|---|
| MachineIntegers, Options | fixed-width integers, wrapping and sign conversion; optional values |
| Varint | base-128 varints: both encoders, the size formula, the decoder loops |
| Wire, Grammar | tags, the skipping loop, the grammar of raw fields |
| Messages, Codec | the two messages, their encodings and decoders as functions, and the laws |
| FieldBytes, Canonical | single fields on bytes; encodings are canonical |
| Serializable | the message classes: sizing, backward writing, reading |
| AsyncCalls | native calls and groups, their life cycle, conversion to messages |
| Overflow, ExecutorMemory | checked arithmetic, memory loads and stores |
| CallGraph, ExecutionBuild, BuiltGraph | call graphs; building the execution graph; what every built graph satisfies |
| Paths, CallTree | path enumeration; merging paths into a tree |
| TreeShape, Schedule, Gas, GasWitness | call trees; execution rounds; gas accounting; when gas is conserved |
| Pipeline, TreeGas, OneCallback, CallbackFilter, MergedGas | what each stage hands to the next; the accounts node by node; callbacks and the path filter; gas of merged paths |
| ExecutionRun, CallGraphRun | the stages run together, from the execution graph and from the call graph |
| CrossShardQueue | the queue and the callback gate |

## Model

| member | source | states |
|---|---|---|
| `Varint.SizeIsEncodingLength` | vmhost/asyncCall.pb.go:718-720 | The bit-length formula is the length of the base-128 encoding of every uint64, and lies in 1..10 |
| `Varint.EncodingIsMinimal` | vmhost/asyncCall.pb.go:628-638 | No raw varint with the same value is shorter than the encoding |
| `Varint.EncodeVarint` | vmhost/asyncCall.pb.go:628-638 | The loop writes exactly the encoding, ending just before the offset, returns where it starts, and changes no other byte |
| `Varint.U64ToLEB128` | vmhost/helpers.go:98-111 | The LEB128 printer produces the same bytes as the message encoder, as many as the size formula says |
| `Varint.VarintRoundTrip` | vmhost/asyncCall.pb.go:945-958 | Reading an encoded uint64, whatever follows, returns the value and the encoding's length |
| `Varint.ReadVarintOutcome` | vmhost/asyncCall.pb.go:945-958 | On any bytes the loop reads a raw varint of at most ten bytes modulo 2^64, or fails because ten bytes go on or the input ends |
| `Varint.DecodeVarint` | vmhost/asyncCall.pb.go:945-958 | The shift loop on a cursor returns what the decoder function says, with the cursor just after the varint, and never leaves the input |
| `Varint.DecodeEnum` | vmhost/asyncCall.pb.go:838-852 | The 32-bit accumulation gives the low 32 bits, as a signed number, of the 64-bit reading |
| `Varint.OrIsAddition` | vmhost/asyncCall.pb.go:945-958 | Or-ing shifted seven-bit groups adds them, since their bits are disjoint |
| `Wire.SkipAsyncCall` | vmhost/asyncCall.pb.go:1338-1415 | The skipping loop with its depth counter ends on every input and returns what the recursive description of skipping says, errors included |
| `Grammar.SkipAcceptsExactlyFields` | vmhost/asyncCall.pb.go:1338-1415 | Skipping succeeds with n bytes if and only if those n bytes are one well-formed field, with arbitrarily nested balanced groups |
| `Grammar.FieldIsSkipped` | vmhost/asyncCall.pb.go:1338-1415 | At any depth, a well-formed field followed by anything is passed over exactly |
| `Messages.SizeOfCall` | vmhost/asyncCall.pb.go:639-686 | The computed size of a call is the length of its encoding, with no wrap-around while that fits an int |
| `Messages.SizeOfGroup` | vmhost/asyncCall.pb.go:688-716 | The computed size of a group, nested calls and their prefixes included, is the length of its encoding |
| `Serializable.SerializableAsyncCall.MarshalToSizedBuffer` | vmhost/asyncCall.pb.go:488-563 | The backward writer leaves exactly the forward encoding of the call at the end of the buffer, returns its length, and changes no other byte |
| `Serializable.MarshalCall` | vmhost/asyncCall.pb.go:585-599 | A nested call is written with its prefix; the length announced is the one the inner writer returns |
| `Serializable.SerializableAsyncCallGroup.MarshalCalls` | vmhost/asyncCall.pb.go:585-599 | Writing the calls last to first leaves them in list order |
| `Serializable.SerializableAsyncCallGroup.Size` | vmhost/asyncCall.pb.go:688-716 | The sizing loop returns the length of the group's encoding |
| `Serializable.SerializableAsyncCallGroup.MarshalToSizedBuffer` | vmhost/asyncCall.pb.go:580-626 | The backward writer leaves exactly the forward encoding of the group before `end`, and changes no other byte |
| `Serializable.SerializableAsyncCallGroup.Marshal` | vmhost/asyncCall.pb.go:565-573 | On a buffer of the computed size the cursor lands on 0: the whole buffer is the encoding |
| `Serializable.SerializableAsyncCall.Unmarshal` | vmhost/asyncCall.pb.go:771-1133 | The cursor loop ends on every byte string, never leaves it, and leaves in the message and returns what the decoder function says, partial results of failed reads included |
| `Serializable.SerializableAsyncCallGroup.Unmarshal` | vmhost/asyncCall.pb.go:1134-1337 | The same for groups, with every nested call decoded into a fresh message that is appended |
| `Serializable.SerializableAsyncCallGroup.UnmarshalCall` | vmhost/asyncCall.pb.go:1280-1313 | A nested call is appended before it is decoded, so a call that fails to decode stays, half read |
| `Codec.CallRoundTrip` | vmhost/asyncCall.pb.go:488-563 | Decoding an encoded call into an empty message gives it back, negative enumeration values included |
| `Codec.GroupRoundTrip` | vmhost/asyncCall.pb.go:580-626 | Decoding an encoded group gives it back, with its calls in order, for all field values |
| `Canonical.CallIsCanonical` | vmhost/asyncCall.pb.go:488-563 | An encoded call is canonical: each field at most once, by increasing number, with the call's value under that number, none empty or zero, negative enumeration values as 64-bit two's complement, and all tags, lengths and numbers as shortest varints |
| `Canonical.GroupIsCanonical` | vmhost/asyncCall.pb.go:580-626 | The same for the fields of a group, followed by one field 5 per call, in order, holding that call's encoding |
| `Codec.CallLanguage` | vmhost/asyncCall.pb.go:771-1133 | Decoding succeeds if and only if the bytes are a list of accepted fields, and the result is then the fold of these fields |
| `Codec.GroupLanguage` | vmhost/asyncCall.pb.go:1134-1337 | The same for groups, where the payload of a call field must itself decode |
| `Codec.ReadIsAccepted` | vmhost/asyncCall.pb.go:776-1126 | Whatever one turn of the loop consumes is one accepted field, read as it should be |
| `Codec.CallMerge` | vmhost/asyncCall.pb.go:771-1133 | Decoding two byte strings joined is decoding the second into the result of the first: same message and same error, up to which of the two length errors is reported |
| `Codec.GroupMerge` | vmhost/asyncCall.pb.go:1134-1337 | The merge law for groups |
| `Codec.GroupCallsAppend` | vmhost/asyncCall.pb.go:1280-1313 | Decoding into a group that already has calls keeps them and appends those it would decode into an empty list |
| `Codec.LastOneWins` | vmhost/asyncCall.pb.go:804-833 | Of several fields with one number only the last has an effect on a call |
| `Codec.GroupLastOneWins` | vmhost/asyncCall.pb.go:1134-1279 | The same for the scalar fields of a group, calls in between or not |
| `Codec.CallIgnoresUnknown` | vmhost/asyncCall.pb.go:1110-1126 | A well-formed field whose number - the signed low 32 bits of its tag without the type - is none of the fields of a call, inserted between fields, changes neither the decoded call nor, up to the two length errors, the error |
| `Codec.GroupIgnoresUnknown` | vmhost/asyncCall.pb.go:1314-1330 | The same for groups, whose fields are 1 to 5 |
| `FieldBytes.CallReadsBlob` | vmhost/asyncCall.pb.go:776-1126 | On bytes, for every field number 1..2^29-1: a length-delimited field 1, 5, 6, 9, 10, 11 or 12 sets the field of a call that has this number, and every number that is no field of a call is passed over, whatever follows |
| `FieldBytes.CallReadsScalar` | vmhost/asyncCall.pb.go:776-1126 | The same for varint fields: 2 and 3 set the enumerations to the signed low 32 bits, 7 and 8 the gas, and unknown numbers are passed over |
| `FieldBytes.GroupReadsBlob` | vmhost/asyncCall.pb.go:1139-1330 | For groups: 1, 3 and 4 set their fields, 5 appends the call its bytes hold, and every number that is no field of a group is passed over |
| `FieldBytes.GroupReadsScalar` | vmhost/asyncCall.pb.go:1139-1330 | For groups: 2 sets the gas, and unknown numbers are passed over |
| `FieldBytes.CallRefuses` | vmhost/asyncCall.pb.go:791-806 | For every tag of up to 64 bits: the end of a group, a number that is not positive as a signed 32-bit number, and a type that does not fit the number stop the decoder at once, with number and type in the error |
| `FieldBytes.GroupRefuses` | vmhost/asyncCall.pb.go:1154-1169 | The same for groups |
| `AsyncCalls.SwapRemoveDropsOne` | vmhost/asyncCallGroup.go:80-94 | Swap-remove drops one occurrence of the indexed call from the multiset, and nothing else |
| `AsyncCalls.KeepCounts` | vmhost/asyncCallGroup.go:98-107 | Filtering keeps every occurrence of a pending call and removes all others |
| `AsyncCalls.KeepSelects` | vmhost/asyncCallGroup.go:98-107 | Filtering keeps the order: the elements come from increasing places, which are exactly those of kept elements |
| `AsyncCalls.AsyncCall.UpdateStatus` | vmhost/asyncCall.go:109-114 | The status becomes resolved if and only if the return code is 0, and rejected otherwise; the callback named is the success or the error callback accordingly, and nothing else changes |
| `AsyncCalls.AsyncCall.Reject` | vmhost/asyncCall.go:117-119 | The status becomes rejected, the error callback is named, and nothing else changes |
| `AsyncCalls.AsyncCallGroup.AddAsyncCall` | vmhost/asyncCallGroup.go:48-50 | The call is appended; the other fields keep their values |
| `AsyncCalls.AsyncCallGroup.IsComplete` | vmhost/asyncCallGroup.go:59-61 | True exactly for a group without calls |
| `AsyncCalls.AsyncCallGroup.DeleteAsyncCall` | vmhost/asyncCallGroup.go:80-94 | The last call takes the place of the deleted one and all others stay where they are; an empty list or an index out of range changes nothing |
| `AsyncCalls.AsyncCallGroup.DeleteCompletedAsyncCalls` | vmhost/asyncCallGroup.go:98-107 | Exactly the pending calls stay, in their order |
| `AsyncCalls.SettledForever` | vmhost/asyncCall.go:109-119 | Over any run of additions, updates, rejections and deletions, a settled call is never pending again |
| `AsyncCalls.LastSettlementDecides` | vmhost/asyncCall.go:109-119 | After any run the last update or rejection of a call decides its status: resolved if and only if it was an update with return code 0 |
| `AsyncCalls.RunAccounts` | vmhost/asyncCallGroup.go:48-107 | Over any run, every call that was added is still in the group, was removed by index, or is settled |
| `AsyncCalls.CompleteIffAllSettled` | vmhost/asyncCallGroup.go:59-107 | Right after the completed calls are deleted, the group is complete if and only if every call ever added and not removed by index is settled |
| `AsyncCalls.Replay` | vmhost/asyncCallGroup.go:48-107 | Any sequence of operations on real call and group objects ends in the state its run describes, so the results on runs hold of the code |
| `AsyncCalls.CallConversion` | vmhost/asyncCall.go:136-174 | Converting a call to a message and back loses the built-in flag only, exactly when its mode fits a signed 32-bit field |
| `AsyncCalls.ModeTwoTo31IsLost` | vmhost/asyncCall.go:136-174 | A call with mode 2^31 comes back with mode 2^64 - 2^31 |
| `AsyncCalls.AnswersAfterConversion` | vmhost/asyncCall.go:76-129 | After conversion and back, whatever the mode: a call is remote if and only if the low 32 bits of its mode are 2 or 4, it names the callback that the return code selects, and its total gas is the sum, capped at the largest uint64 |
| `AsyncCalls.GroupConversion` | vmhost/asyncCallGroup.go:114-155 | The same for groups: exactly when all modes are portable |
| `AsyncCalls.NativeRoundTrip` | vmhost/asyncCallGroup.go:114-155 | Convert, encode, decode, convert back: the group without built-in flags, and the same answers to IsRemote, GetCallbackName and GetTotalGas, exactly when every mode is portable |
| `AsyncCalls.CallToSerializable` | vmhost/asyncCall.go:136-150 | A fresh message with the fields of the call, the mode cut to 32 bits |
| `AsyncCalls.CallsFromSerializable` | vmhost/asyncCall.go:152-174 | Fresh calls, in order, with the fields of the messages |
| `AsyncCalls.GroupToSerializable` | vmhost/asyncCallGroup.go:114-127 | A fresh message whose calls are fresh and in order |
| `AsyncCalls.GroupFromSerializable` | vmhost/asyncCallGroup.go:147-155 | A fresh group whose calls are fresh and in order |
| `AsyncCalls.GroupsToSerializable` | vmhost/asyncCallGroup.go:130-136 | Lists of groups are converted element by element, in order |
| `AsyncCalls.GroupsFromSerializable` | vmhost/asyncCallGroup.go:139-145 | The same back |
| `AsyncCalls.StoreAndLoad` | vmhost/asyncCallGroup.go:114-155 | The code itself, on a list of group objects: what is stored and loaded is each group without built-in flags, if and only if its modes are portable |
| `Overflow.AddUint64WithErr` | math/overflow.go:23-30 | The sum if it fits, otherwise the largest uint64 and an error |
| `Overflow.MulUint64Exact` | math/overflow.go:53-60 | The check by division finds exactly the products that do not fit |
| `Overflow.AddInt32` | math/overflow.go:63-81 | The exact sum if it fits, otherwise the largest int32, on underflow too |
| `Overflow.AddExact` | math/overflowHandler.go:19-34 | Comparing the wrapped sum with an operand finds exactly the sums that do not fit |
| `Overflow.MulExact` | math/overflowHandler.go:37-52 | Dividing the wrapped product back finds exactly the products that do not fit, except MinInt64 times -1 |
| `Overflow.MinTimesMinusOneIsMissed` | math/overflowHandler.go:37-52 | MinInt64 times -1 wraps to MinInt64 without an error |
| `Overflow.OverflowHandler.AddInt64` | math/overflowHandler.go:19-34 | On a handler without error the exact sum, or MaxInt64 and an error if it does not fit; a stored error stays and is answered by MaxInt64 |
| `Overflow.OverflowHandler.MulInt64` | math/overflowHandler.go:37-52 | The same for the product, with MinInt64 times -1 answered by MinInt64 |
| `Overflow.OverflowHandler.Evaluate` | math/overflowHandler.go:19-57 | An expression computed through one handler object: error equal to the first mathematical overflow and exact value if all values fit, precisely unless that overflow is the missed product |
| `Overflow.ErrorsStick` | math/overflowHandler.go:19-57 | A stored error never changes, and every later operation answers MaxInt64 |
| `Overflow.FaithfulUnlessMissed` | math/overflowHandler.go:19-57 | For every expression tree: no error if and only if all intermediate values fit, then the exact value, otherwise the first overflow - precisely unless the first overflow is MinInt64 times -1 |
| `ExecutorMemory.MemLoadFromMemory` | executor/executorMemory.go:32-63 | Unless saturation cuts it short, the slice over unbounded integers clamped to the memory, or its error; otherwise that slice up to the largest int32 |
| `ExecutorMemory.MemStoreToMemory` | executor/executorMemory.go:67-89 | For data of any length on which slicing does not panic: unless the store is cut short, the whole range is replaced or, with an error, nothing is; otherwise the part that the cut length and the saturated end reach is replaced |
| `ExecutorMemory.LoadIsClamped` | executor/executorMemory.go:32-63 | A load is the slice over unbounded integers, cut at the end of memory, or the stated error, if and only if saturation does not cut it short |
| `ExecutorMemory.LastByteIsLost` | executor/executorMemory.go:32-63 | The last byte of a memory of 2^31 bytes is not loaded |
| `ExecutorMemory.StoreIsRangeStore` | executor/executorMemory.go:67-89 | For given lengths of memory and data, all stores are all-or-nothing range stores if and only if they are not cut short |
| `ExecutorMemory.CutShortStoreIsWrong` | executor/executorMemory.go:67-89 | Wherever a store is cut short, some contents are stored wrongly, so the condition is exact |
| `ExecutorMemory.LoadAfterStore` | executor/executorMemory.go:32-89 | After a successful store, on memories of any size, the data are loaded back if and only if the store was not cut short |
| `ExecutorMemory.StoreLeavesOthers` | executor/executorMemory.go:67-89 | On memories of any size a store does not change what loads outside its range return |
| `ExecutionBuild.ExecutionGraphBuilder.FindNode` | testcommon/testCallGraph.go:475-485 | The first node with the given call, or nothing exactly if there is none |
| `ExecutionBuild.ExecutionGraphBuilder.AddSyncEdges` | testcommon/testCallGraph.go:703-715 | The node that stands for the call gains its sync calls, in order; no other node changes |
| `ExecutionBuild.ExecutionGraphBuilder.AddAsyncEdges` | testcommon/testCallGraph.go:717-755 | The node gains its async calls, in order, every called node the callbacks named for it, in order, and the nodes of callbacks that are configured to fail are marked |
| `ExecutionBuild.ExecutionGraphBuilder.AddCallback` | testcommon/testCallGraph.go:735-752 | The called node gains one edge, to the node of the named callback at the caller's address, failing if so configured |
| `ExecutionBuild.ExecutionGraphBuilder.MoveCallbacksToTheEndOfEdges` | testcommon/testCallGraph.go:690-701 | The edges are partitioned stably, callbacks last |
| `ExecutionBuild.PartedIsParted` | testcommon/testCallGraph.go:690-701 | The partition loses no edge, keeps the order within both kinds, and partitioning again changes nothing |
| `ExecutionBuild.ExecutionGraphBuilder.ProcessNode` | testcommon/testCallGraph.go:667-686 | Processing one call keeps every node in its described form, for calls with and without edges, self-calls and repeated calls included |
| `ExecutionBuild.ExecutionGraphBuilder.DfsGraph` | testcommon/testCallGraph.go:503-545 | The search ends on every graph, cyclic ones included, and processes every call exactly once |
| `ExecutionBuild.CreateExecutionGraph` | testcommon/testCallGraph.go:661-688 | The execution graph of every call graph: copies of the calls, one finish leaf per call, the described edges, the given gas; a node fails if it did or is the failing callback of some call |
| `ExecutionBuild.WorkOrigins` | testcommon/testCallGraph.go:661-733 | A node's work is exactly the finish edges and the sync and async calls of the calls it stands for |
| `ExecutionBuild.CallbackOrigins` | testcommon/testCallGraph.go:735-752 | A node's callback edges are exactly those that async calls to it name |
| `ExecutionBuild.WorkInStages` | testcommon/testCallGraph.go:667-701 | A call that shares address and function with no other makes its sync calls, then finishes, then makes its async calls, and its callbacks come last |
| `BuiltGraph.EdgeOrigins` | testcommon/testCallGraph.go:661-755 | The edges of a node of the finished graph are exactly its work and the callbacks that calls to it name |
| `BuiltGraph.BuiltRanked` | testcommon/testCallGraph.go:661-755 | The execution graph is well formed, and acyclic if the call graph with its callbacks is |
| `BuiltGraph.BuiltShape` | testcommon/testCallGraph.go:661-775 | In every execution graph callbacks come last, every call has a finish leaf, leaves and inner nodes are told apart by their calls, and callback edges by their keys |
| `CallbackFilter.FilterMeaning` | testcommon/testCallGraph.go:848-863 | After an async call the filter passes the call's own callback only, if and only if no two async calls of one type to one node name the same callback at different addresses |
| `CallbackFilter.OwnIsFollowed` | testcommon/testCallGraph.go:848-863 | The callback that an async call names is an edge of the called node and passes the filter |
| `CallbackFilter.GivenCall` | testcommon/testCallGraph.go:735-752 | Every callback edge of the execution graph stems from an async call to its node that names a callback: it is local or cross-shard as the call, leads to that callback at the caller's address, fails if the callback is configured to, carries the gas set aside for it and no other |
| `CallbackFilter.MadeCall` | testcommon/testCallGraph.go:703-775 | Every other edge is a finish edge without gas, or a sync or async edge of the call graph, unchanged but for the copy it leads to |
| `CallbackFilter.StrangersCollide` | testcommon/testCallGraph.go:848-863 | A graph that the chain accepts and on which two calls collide |
| `CallbackFilter.StrangerIsFollowed` | testcommon/testCallGraph.go:848-863 | In every execution graph of that graph a call may be answered by another caller's callback |
| `CallbackFilter.PaidExactly` | testcommon/testCallGraph.go:661-863 | In the execution graph no call reached without callbacks may be followed by two callbacks, nor the start by one, if and only if in the call graph no call made in a run collides and no answered async call leads to the start |
| `CallbackFilter.ChainPaysExactly` | testcommon/testCallGraph.go:661-956 | With distinct edge numbers, the tree leaves no callback unpaid if and only if that holds of the call graph |
| `CallbackFilter.StrangersDoNotPay` | testcommon/testCallGraph.go:848-863 | It does not hold of the graph with the stranger's callback |
| `OneCallback.TreeOneCallback` | testcommon/testCallGraph.go:848-956 | If no path without callbacks is overanswered, no call of the tree that is reached without callbacks has two callbacks |
| `OneCallback.OveransweredShows` | testcommon/testCallGraph.go:848-956 | If some path without callbacks may go on over two callbacks, or the start over one, the tree leaves a callback unpaid |
| `OneCallback.TreePaysExactly` | testcommon/testCallGraph.go:848-956 | In the tree of an execution graph async calls outside callbacks have at most one callback, and sync calls and the start none, if and only if no such path is overanswered |
| `CallGraphRun.RunCallGraph` | testcommon/testCallGraph.go:661-1090 | The whole chain from a call graph: the tree is the one of the paths, its schedule is correct with the start in round 0, every call runs, gas balances from the start's limit; all callbacks are paid for if and only if the call graph pays, then gas is conserved, exactly without underflow, and otherwise for some limits it is not. Every node is accounted for with its own gas. A call's limit, used and locked gas are those of the call-graph edge that makes it; with distinct edge numbers a callback uses what the edge of its async call sets aside |
| `Paths.FromSound` | testcommon/testCallGraph.go:832-882 | Every enumerated path is complete, admissible under the edge-pair filter, and continues the given one |
| `Paths.FromComplete` | testcommon/testCallGraph.go:832-882 | Every complete admissible path is enumerated |
| `Paths.PathsExact` | testcommon/testCallGraph.go:817-882 | The enumeration lists exactly the complete admissible paths, each once, and of two paths the one that takes the earlier edge where they part comes first |
| `Paths.AdmissibleIff` | testcommon/testCallGraph.go:848-863 | A path is admissible if and only if every callback edge in it follows a callback edge, or the async edge of its own kind, local or cross-shard, that names its target |
| `Paths.CopyCarries` | testcommon/testCallGraph.go:865-877 | On every path, in terms of its edges alone: a node between the ends has the limit and locked gas of the edge into it and nothing remaining; it uses what that edge says, or, for the callback of the async edge before it, what the async edge sets aside; the last node uses and is limited to what the node before it uses |
| `Paths.ExecutionGraph.GetPathsRecursive` | testcommon/testCallGraph.go:832-882 | Although the recursion overwrites the gas of shared nodes, each copy carries the gas that its own edges determine at every position, and nodes above the current one keep theirs |
| `Paths.ExecutionGraph.GetPaths` | testcommon/testCallGraph.go:817-828 | The paths returned are the copies of the enumerated ones, in order: the edges and calls of the path, and at every position the gas that its edges determine |
| `CallTree.TreeGraph.InsertPath` | testcommon/testCallGraph.go:922-953 | Adding one path keeps a valid tree that represents all paths so far |
| `CallTree.TreeGraph.FromPaths` | testcommon/testCallGraph.go:915-956 | The merged tree is valid - one parent and a matching incoming edge per node, distinct keys among siblings - and represents the given paths |
| `CallTree.KeyPathInjective` | testcommon/testCallGraph.go:915-956 | Different nodes of a valid tree have different key sequences |
| `CallTree.TreeIsPrefixClosure` | testcommon/testCallGraph.go:915-956 | The key sequences in the tree are exactly the prefixes of the paths' key sequences |
| `CallTree.LeavesAreMaximalPaths` | testcommon/testCallGraph.go:915-956 | The key sequences of leaves are exactly those of paths that no other path extends |
| `CallTree.LeavesArePaths` | testcommon/testCallGraph.go:915-956 | When no path is a prefix of another, the leaves' key sequences are exactly the paths' |
| `CallTree.PathsTreeFromDag` | testcommon/testCallGraph.go:915-956 | Enumerating and merging: the tree represents the admissible paths, and its leaves are exactly these paths when leaf and inner calls differ |
| `Pipeline.TreeCallbacksLast` | testcommon/testCallGraph.go:690-956 | Merging keeps callbacks last: in the tree of an execution graph no call stands after a sibling callback |
| `Pipeline.TreeFinishes` | testcommon/testCallGraph.go:757-956 | Every inner node of the tree has a finish leaf |
| `ExecutionRun.RunExecutionGraph` | testcommon/testCallGraph.go:915-1090 | For every acyclic execution graph: the tree of its paths, a correct schedule with the start in round 0 in which every call runs, and books that balance. The accountant sees the used and locked gas and the edges of the tree's nodes. At every node it leaves the limit the node came with, or for a callback its caller's remaining and locked gas, and what remains is that limit less what the node uses and hands on, modulo 2^64. Limit and locked gas of every call are those of the edge into it |
| `TreeGas.AccountsOfTree` | testcommon/testCallGraph.go:1050-1090 | On a tree without failures, node by node and in terms of the tree: limits, what remains, what is accumulated - for async calls without callback edges what remains, else nothing - and zero entries where the accountant writes none |
| `TreeGas.GasFromEdge` | testcommon/testCallGraph.go:865-956 | In the tree of an execution graph every call has the limit and the locked gas of the edge into it, and uses what that edge says unless it is a callback; a finish leaf is limited to what it uses |
| `TreeGas.ViewMirrors` | testcommon/testCallGraph.go:915-956 | The nested tree that scheduler and accountant walk has the gas, the edges, their types and failure flags of the nodes of the merged tree |
| `Pipeline.RunsSmoothly` | testcommon/testCallGraph.go:191-193 | In a correct schedule no call keeps the round -1 that would exempt it from accounting |
| `Schedule.Scheduler.AssignExecutionRounds` | testcommon/testCallGraph.go:981-1037 | The rounds satisfy the law of every edge, every call's latest round is the true maximum of its subtree, and finish leaves run with their call |
| `Schedule.Scheduler.Visit` | testcommon/testCallGraph.go:547-595 | The running-order traversal establishes the law for a subtree and touches nothing outside it |
| `Schedule.ScheduleCorrect` | testcommon/testCallGraph.go:981-1037 | Rounds never decrease along an edge, local calls share their caller's round, cross-shard calls are strictly later than all earlier siblings' subtrees, and callbacks are no earlier (cross-shard: strictly later) than all non-callback siblings' subtrees |
| `Schedule.EveryCallRuns` | testcommon/testCallGraph.go:981-1037 | If the start has a round, every call of the tree has one |
| `Gas.Accountant.SubtractHanded` | testcommon/testCallGraph.go:1059-1074 | The int64 total of the loop equals the exact one modulo 2^64, through all conversions |
| `Gas.Accountant.FundCallbacks` | testcommon/testCallGraph.go:1083-1087 | Every callback is given what remains and what was locked for it; other limits keep their values |
| `Gas.Accountant.Process` | testcommon/testCallGraph.go:635-648 | The post-order traversal leaves the books of the whole subtree in order and touches nothing outside it. For every call, in terms of its edges: what remains is nothing if the edge into it or a sync edge of it fails, else its limit less what it spends; it has accumulated that if the edge into it is async and none of its edges is a callback, else nothing; limits change for callbacks of processed calls only; calls that are passed over keep their entries |
| `Gas.Accountant.ComputeRemainingGasBeforeCallbacks` | testcommon/testCallGraph.go:1050-1090 | The same for the whole tree; the root keeps its limit, and on trees without failures whose calls all run gas balances |
| `Gas.GasBalances` | testcommon/testCallGraph.go:1050-1090 | Modulo 2^64 a call's limit and the surplus below it make up what remains, what every call outside callbacks used, the limits of all callbacks, and what is left idle - locked gas, and what async calls without callbacks accumulated; the surplus is one funding for every callback that is not paid for |
| `Gas.GasConserved` | testcommon/testCallGraph.go:1050-1090 | For given books, gas is conserved modulo 2^64 if and only if the surplus vanishes |
| `GasWitness.ConservedIffPaying` | testcommon/testCallGraph.go:1050-1090 | On every tree, gas is conserved for all limits if and only if every call outside callbacks leaves a multiple of 2^64 callbacks unpaid |
| `GasWitness.ConservedIffAtMostOne` | testcommon/testCallGraph.go:1050-1090 | With fewer than 2^64 callbacks per call: gas is conserved for all limits if and only if async calls have at most one callback and other calls none |
| `GasWitness.Witness` | testcommon/testCallGraph.go:1059-1087 | For every tree and every call in it there are limits that give one unit to each callback of that call and nothing to all others |
| `Gas.GasConservedExactly` | testcommon/testCallGraph.go:1050-1090 | Without underflow the balance holds over unbounded integers, and gas is conserved exactly if and only if the surplus is zero |
| `Gas.GasIsCreated` | testcommon/testCallGraph.go:1083-1087 | A tree with an async call that has two callbacks, on which 650 units of gas appear |
| `MergedGas.MergeKeepsGas` | testcommon/testCallGraph.go:915-956 | Every path through a node of the tree carries the node's call and gas, if equal keys at one node mean equal gas |
| `MergedGas.BuiltKeysTellGas` | testcommon/testCallGraph.go:661-755 | They do in execution graphs of call graphs with distinct edge numbers |
| `MergedGas.UsedIsOfEdge` | testcommon/testCallGraph.go:834-956 | In the merged tree a callback uses what the edge of the async call above it sets aside, every other call what its own edge says, and a finish leaf what the call above it uses |
| `MergedGas.CallKeepsGas` | testcommon/testCallGraph.go:661-956 | From call graph to tree: every call of the tree is made by an edge of the call graph, with the call, the type and the limit, used and locked gas of that edge |
| `MergedGas.CallbackKeepsGas` | testcommon/testCallGraph.go:661-956 | The callback that answers an async call uses what that call's edge in the call graph sets aside for it, and comes without limit and locked gas |
| `CrossShardQueue.ParentsAreAncestors` | testcommon/queueOfCrossShardCalls.go:37-58 | The collected parents are exactly the proper ancestors reached without meeting a callback |
| `CrossShardQueue.ParentsInOrder` | testcommon/queueOfCrossShardCalls.go:37-58 | The k-th collected parent is the ancestor k steps up |
| `CrossShardQueue.SortIsStable` | testcommon/queueOfCrossShardCalls.go:30-35 | Sorting permutes; the rounds of the start nodes do not decrease along the result, and within a round the arrival order is kept |
| `CrossShardQueue.OrderIsUnique` | testcommon/queueOfCrossShardCalls.go:105-107 | Only one arrangement of given calls is in order, so any stable sort by round gives it |
| `CrossShardQueue.RunKeepsOrder` | testcommon/queueOfCrossShardCalls.go:30-82 | Over any run of enqueueing, requeueing and dequeueing the rounds of the queued calls' start nodes do not decrease along the queue, calls of one round stand in arrival order, and what was put in is what was taken out plus what is queued |
| `CrossShardQueue.DequeueTakesEarliest` | testcommon/queueOfCrossShardCalls.go:75-82 | After any run the front of the queue has a start node of the least round, and the earliest arrival within it |
| `CrossShardQueue.CallsQueue.CollectParents` | testcommon/queueOfCrossShardCalls.go:37-58 | The loop collects the parents, nearest first, up to a callback or a root |
| `CrossShardQueue.CallsQueue.Enqueue` | testcommon/queueOfCrossShardCalls.go:30-35 | The queue gains the request with its parents, as the latest arrival, and is ordered by the rounds of start nodes and by arrival |
| `CrossShardQueue.CallsQueue.Requeue` | testcommon/queueOfCrossShardCalls.go:61-64 | The call's request goes to the back of its round, with its parents collected anew |
| `CrossShardQueue.CallsQueue.Dequeue` | testcommon/queueOfCrossShardCalls.go:75-82 | The front is returned and removed, and its round is at most that of every call left; on an empty queue nothing happens |
| `CrossShardQueue.CallsQueue.CanExecuteLocalCallback` | testcommon/queueOfCrossShardCalls.go:90-99 | True if and only if no queued call starts below the callback's parent without a callback in between |

## Left out

- Failing calls in the schedule: the failure branches of the running-order traversal and the propagation of sync failures (testcommon/testCallGraph.go:558-592, 959-978). Failure flags are built and copied, and the gas accountant's failure branch is modelled; the chain is run on failure-free call graphs. The error values beside the flags are left out.
- `Schedule.Scheduler.AssignExecutionRounds`: requires a failure-free tree, for that reason.
- `Schedule.Scheduler.Visit`: does not model the branches for failing nodes, for that reason.
- Gas after callbacks (testcommon/testCallGraph.go:1093-1157): its upward walk follows no simple law.
- Pointers: nodes and edges are indices. The back pointers `Parent` and `IncomingEdge` are modelled in the tree only; on the shared nodes of an execution graph they are overwritten and not read by the modelled code.
- The options of the depth-first search that building does not use: stopping at a node and not following cross-shard edges (testcommon/testCallGraph.go:531-543).
- Sharing of backing arrays between Go slices: in the path under construction, in the list after a swap-remove, and between a message and the byte strings that `Unmarshal` overwrites in place when it reads a field again (vmhost/asyncCall.pb.go:829).
- `ExecutionBuild.CreateExecutionGraph`: requires that named callbacks exist, where the source panics.
- `CallGraphRun.RunCallGraph`: requires that edges are numbered from 1, as the source's functions that add edges do, that no call of the graph is the finish call, and that call graph and callbacks have no cycle; the enumeration of paths would not end on one.
- `CrossShardQueue.CallsQueue.CanExecuteLocalCallback`: forests are numbered with parents first, and rounds and parents stay as they are while calls are queued.
- `CrossShardQueue.SortIsStable`: the library sort is modelled as an insertion sort; by `CrossShardQueue.OrderIsUnique` any stable sort gives the same. The field `arrival` serves to state the order.
- `ExecutorMemory.MemStoreToMemory`: requires that slicing does not panic, as it can for data whose length becomes negative as an `int32`; memories of 2^32 bytes and more do not exist.
- nil calls inside a group, and the difference between nil and empty byte strings, which `Equal` does not see (vmhost/asyncCall.pb.go:353). Go's `int` has 64 bits, and inputs are shorter than 2^63 bytes.
- `Clone`, `String`, `GoString`, descriptors, registration, single-field getters and error texts.
- The remaining small helpers of math/overflow.go and vmhost/helpers.go (subtraction, padding, guarded slices, byte reversal), logging and drawing.
- The WASM executors, their generated import tables, configuration of gas costs, cryptography, and interfaces whose implementations are elsewhere.
