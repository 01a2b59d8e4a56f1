# libfrozen: verified models of its stateful core

libfrozen chains storage backends together: indexes, block maps, buffers, inter-process transports and small
request scripts. This project models the parts of it that carry real invariants and proves what they promise.

| file | models |
|---|---|
| Common.dfy | definitions shared by the models |
| Arithmetic.dfy | powers, residues, the integer logarithm |
| Forest.dfy | connectivity and acyclicity of the key graph |
| ByteCodec.dfy | the byte layout of edge records |
| Relabelling.dfy | adjacency lists and the relabelling of one side of an edge |
| ChmIndex.dfy | the CHM perfect-hash index as a class over its three stores |
| Mphf.dfy | the index backend with its broken flag, and the rebuild loop |
| IpcShmem.dfy, IpcSafety.dfy, IpcRuns.dfy, IpcRequests.dfy, IpcProgress.dfy | the shared-memory ring as an interleaved step system, its step invariants, safety over runs, the course of a request, and freedom from deadlock |
| TreeSums.dfy, SizeTree.dfy | linear search over block sizes, and the size tree that refines it |
| Rewrite.dfy | the rewrite script compiler and its frame-stack interpreter |
| RewriteValues.dfy | what scripts denote over a store that keeps its values |
| Buffer.dfy | chunked buffers |
| Split.dfy | the windowed stream splitter |
| Pool.dfy | the pool's limit loop |

Check everything with `dafny verify dfyconfig.toml`.

## How the parts are modelled

**Index.** Keys become edges between two hashed vertices. The stores `g` and `v` are arrays, the record store is
a byte sequence; a ghost list of edges, keys and values says what they stand for. `Valid` ties the bytes to the
edges, says that the edges form a forest (every edge is a bridge), and that each edge's two labels add up to its
value modulo the stored width. Labels are computed in wrapping 64-bit words and truncated on every write.
Connectivity is defined by class representatives and proved equal to reachability by walks.

**Ring.** A state holds the blocks, the two counting semaphores, a program counter per process, and a history of
computed answers. Waiting on a semaphore, one try of a compare-and-swap, a post, and each access to a block are
separate steps, and a run is any sequence of steps of any processes. The central invariant is a counting one: from
every index on there are at least as many claimable blocks as claimers that still scan there.

**Size tree.** The reference is linear search over prefix sums. Table entries are unbounded; sizes of a resize are
32-bit and the table addition wraps at 64 bits, as in the code.

**Scripts.** The syntax tree stands for the parser's reductions; the semantic actions append to the innermost open
block. The reference is evaluation of the tree, with operands and result variables named by counting calls in the
syntax. The effects of calls and assignments, the null test, and whatever happens to the state behind an IF that is
not taken are parameters, so the theorem holds for all of them. The last one matters: behind an untaken IF the code
assigns through a pointer that an earlier action left over
(src/libfrozen/backends/request/rewrite/rewrite.c:143, 250-283). The theorem covers this as long as what it does is a function of the tested thing and the state, in which the leftover pointer may be kept; a pointer
that no action has set is outside it. For one kind of machine, a store that keeps every value where it was put, scripts
are also given a denotation without any names of intermediate results. The code's own variables are weaker than such
a store: results of calls refer to a variable that is local to one turn of its loop.

**Buffers, splitter, pool.** A buffer's meaning is the concatenation of its chunks. The splitter has both an
in-place window loop and the function it computes; the pool's loop is measured against a rank-based description of
who has to go.

## Where the code differs from what one would expect

- `mphf_chm_imp_update` computes the new label from vertex 1 instead of vertex 0. The key reads its new value if
  and only if the two old labels agree in the stored bits (`Update`, `UpdateReadsBack`, `UpdateCounterexample`);
  all other keys are preserved.
- `backend_query` turns every handler code except "dead backend" into success. `rebuild_rebuild` therefore returns
  0 also when the reset was refused or the index is read-only. `RebuildAll` reports the first case as
  `Refused`; `RefusedInput` and `RefusedRun` are a configuration that opens and for which it happens.
- `chm_imp_configure_r` divides by 100 twice where the product overflows. An index built for so many elements has fewer
  than one vertex for every 47 of them, so they can never all be inserted (`TargetIsRoomy`, `ForestIsSmall`).
- `tree_resize_block` computes the size difference in 32 bits. After a block shrinks, the sums over it are too large by 2^32.
- `tree_recalc` writes nothing for an empty tree. After the last block is deleted the root is still the total if and
  only if that block was empty (`TreeDelete`, `StaleRoot`); searches find nothing all the same (`TreeGet`).
- `split_handler` forgets the carried bytes in the end offset. `CutsExact` says for every input when the cuts are
  still right, and `CarryLosesOffset` is an input for which they are not.
- `shmem_init` resets the semaphores but not the block statuses, and may be handed a segment that was used before. The
  ring can fail if and only if a status is not FREE and there is a client (`FailsIffUsed`, `UsedBlockFails`).
- `buffer_memcmp` and `buffer_memcpy` never return when, for a positive size, a buffer whose first chunk is empty is read
  from its start and the seek in the other one, if any is read, succeeds (`CompareHangs`, `HangTurn`, `CopyHangTurn`). Empty chunks elsewhere do no harm.
- `rebuild_rebuild` over a writeable index never gets all keys in from a source with a repeated key: it starts over for
  every seed, unless the reset is refused (`RepeatedKey`).
- The pool's loop never returns for the action "request" with the parameter "one", once the limit is reached by
  live members (`NotifyNext`).

## Model

| member | source | states |
|---|---|---|
| `ChmIndex.Index.Insert` | src/libfrozen/backends/index/mphf/mphf_chm_imp.c:660-680 | The insert is refused with BadF exactly when the key's two vertices coincide or a walk of accepted edges already joins them; otherwise the index stays valid (a forest whose every edge carries its value) and gains exactly this key and value. Read-only indexes change nothing. |
| `ChmIndex.VertexOfUnseeded` | src/libfrozen/backends/index/mphf/mphf_chm_imp.c:668-669 | Without a seed a key's vertex is the key modulo the number of vertices. |
| `ChmIndex.VertexOfShift` | src/libfrozen/backends/index/mphf/mphf_chm_imp.c:668-669 | Flipping the same bits in key and seed changes nothing: only their difference counts. |
| `ChmIndex.SeedsForKey` | src/libfrozen/backends/index/mphf/mphf_chm_imp.c:668-672 | For every key there are seeds that give it two different vertices. |
| `ChmIndex.AnyKeyFits` | src/libfrozen/backends/index/mphf/mphf_chm_imp.c:602-680 | For every key there are seeds with which an index, rebuilt empty, accepts it and reads its value back. |
| `ChmIndex.Index.StoredAnswers` | src/libfrozen/backends/index/mphf/mphf_chm_imp.c:723-749 | In every valid index, reading the k-th accepted key yields its value cut to value_bits bits, whatever later inserts relabelled. |
| `ChmIndex.Index.PairAnswers` | src/libfrozen/backends/index/mphf/mphf_chm_imp.c:735-749 | Any key that hashes to the vertex pair of a stored edge reads that edge's value, so answers depend on the pair only. |
| `ChmIndex.Index.Query` | src/libfrozen/backends/index/mphf/mphf_chm_imp.c:723-749 | A key is not found exactly when even an empty index with these seeds would refuse it; otherwise the value is `Lookup` of the current stores. |
| `ChmIndex.Index.LookupMisses` | src/libfrozen/backends/index/mphf/mphf_chm_imp.c:734-735 | What a read means has no value exactly for the keys that an empty index with these seeds would refuse. |
| `ChmIndex.Index.MaskedSum` | src/libfrozen/backends/index/mphf/mphf_chm_imp.c:737-747 | Adding two truncated labels in a 64-bit word and masking gives the low bits of the exact value. |
| `ChmIndex.Index.GraphAddEdge` | src/libfrozen/backends/index/mphf/mphf_chm_imp.c:531-591 | With different vertices, BadF is returned if and only if accepted edges already connect them (parallel edges included); else the edge, both list heads and the labels are updated so that every old edge keeps its value and the new edge has its own. |
| `ChmIndex.Index.SettleValue` | src/libfrozen/backends/index/mphf/mphf_chm_imp.c:555-588 | Three ways to give a new edge its value (either end isolated, or relabel one component); all edges then carry their values modulo the stored width. |
| `ChmIndex.Index.JoinComponents` | src/libfrozen/backends/index/mphf/mphf_chm_imp.c:568-582 | Relabelling the second vertex's component fails exactly when it contains the first vertex, and otherwise shifts that component only. |
| `ChmIndex.Index.GraphRecalc` | src/libfrozen/backends/index/mphf/mphf_chm_imp.c:478-530 | Terminates on every graph; on a forest it sets the vertex to the new label, keeps the sum of every edge but `skip`, and touches nothing outside the vertex's side of `skip`; if the search must come back to its start it returns BadF. |
| `ChmIndex.Index.RecalcEdge` | src/libfrozen/backends/index/mphf/mphf_chm_imp.c:498-524 | One turn of the loop over the adjacency list keeps the progress invariant and never meets an inconsistent list. |
| `ChmIndex.Index.OnPath` | src/libfrozen/backends/index/mphf/mphf_chm_imp.c:489-493 | The path-list scan finds the vertex exactly when it is on the current search path. |
| `ChmIndex.Index.FindEdge` | src/libfrozen/backends/index/mphf/mphf_chm_imp.c:417-444 | Finds an edge with the ordered vertex pair if there is one, reports NoEntry only if there is none, and never "db inconsistency". |
| `ChmIndex.Index.Update` | src/libfrozen/backends/index/mphf/mphf_chm_imp.c:681-722 | For a stored pair only that pair's value changes, to value + g0 - g1 (the code computes the new label from the wrong end), so it reads back exactly when the two old labels agree in the low bits; for a new pair it is an insert. |
| `ChmIndex.Index.RelabelEdge` | src/libfrozen/backends/index/mphf/mphf_chm_imp.c:702-717 | Relabelling one side of a stored edge always succeeds and preserves every other edge's value. |
| `Relabelling.UpdateReadsBack` | src/libfrozen/backends/index/mphf/mphf_chm_imp.c:702-710 | The updated key reads its new value if and only if its two old labels agree modulo 2^value_bits. |
| `Relabelling.UpdateCounterexample` | src/libfrozen/backends/index/mphf/mphf_chm_imp.c:702-710 | A concrete index: inserted with 5, updated to 7, the key reads 12. |
| `Relabelling.UpdateEdge` | src/libfrozen/backends/index/mphf/mphf_chm_imp.c:702-717 | All other edges keep their values when one side of an edge is relabelled. |
| `Relabelling.ChainExact` | src/libfrozen/backends/index/mphf/mphf_chm_imp.c:417-444 | Following first and then next visits exactly the incident edges of a vertex, each once, with strictly decreasing ids. |
| `Relabelling.WiredPush` | src/libfrozen/backends/index/mphf/mphf_chm_imp.c:538-553 | Pushing an edge at the head of both lists keeps every list correctly threaded and changes only the two heads. |
| `Relabelling.SideInside` | src/libfrozen/backends/index/mphf/mphf_chm_imp.c:498-524 | In a forest, what lies behind a list edge lies on the vertex's own side of the skipped edge and excludes the vertex: the recursive relabelling stays within its component. |
| `Relabelling.SidesDisjoint` | src/libfrozen/backends/index/mphf/mphf_chm_imp.c:498-524 | The sides behind two different list edges of one vertex do not meet, so no vertex is relabelled twice. |
| `Relabelling.ProgressStep` | src/libfrozen/backends/index/mphf/mphf_chm_imp.c:498-524 | Relabelling the far side of one list edge advances the loop and disturbs no edge handled before. |
| `Relabelling.ProgressEnd` | src/libfrozen/backends/index/mphf/mphf_chm_imp.c:526-529 | Once all list edges are handled, writing the new label restores every edge sum modulo the label width. |
| `Relabelling.RewriteStart` | src/libfrozen/backends/index/mphf/mphf_chm_imp.c:713-717 | Writing the new label of the start vertex a second time, after the recursion has set it, changes no edge value. |
| `Relabelling.AddAtFreeEnd` | src/libfrozen/backends/index/mphf/mphf_chm_imp.c:555-585 | Setting an isolated end gives the new edge its value and leaves all other edges alone. |
| `Relabelling.AddByRelabelling` | src/libfrozen/backends/index/mphf/mphf_chm_imp.c:568-582 | Relabelling one of two separate components gives the joining edge its value and keeps all others. |
| `Relabelling.DoomedStep` | src/libfrozen/backends/index/mphf/mphf_chm_imp.c:489-524 | When a new edge closes a cycle, at every vertex of the search some list edge other than the one it came by leads on to the start: a cycle cannot be missed. |
| `Relabelling.PathShort` | src/libfrozen/backends/index/mphf/mphf_chm_imp.c:478-493 | A path of distinct vertices is no longer than the number of vertices: the recursion depth is bounded. |
| `Forest.LinkedIffWalk` | src/libfrozen/backends/index/mphf/mphf_chm_imp.c:478-530 | The representative-based notion of connected agrees with existence of a walk along edges. |
| `Forest.ForestExtends` | src/libfrozen/backends/index/mphf/mphf_chm_imp.c:531-591 | A forest with one more edge is a forest if and only if the edge's ends were not connected. |
| `Forest.AvoidVertex` | src/libfrozen/backends/index/mphf/mphf_chm_imp.c:498-524 | A connected class that does not contain a vertex does not need any edge at that vertex. |
| `Forest.FirstStep` | src/libfrozen/backends/index/mphf/mphf_chm_imp.c:498-524 | Any connection from a vertex starts with one of its list edges, whose far end reaches the goal without using that edge again. |
| `Forest.RepsCount` | src/libfrozen/backends/index/mphf/mphf_chm_imp.c:274-277 | Each edge of a forest removes one component: components = vertices - edges. |
| `Forest.ForestIsSmall` | src/libfrozen/backends/index/mphf/mphf_chm_imp.c:274-277 | A forest has fewer edges than vertices, hence edge ids fit the vertex field width. |
| `ChmIndex.Index.RecordsFit` | src/libfrozen/backends/index/mphf/mphf_chm_imp.c:274-277 | Every vertex and edge id stored in any list head or record fits in bt_vertex bytes. |
| `ChmIndex.Index.ConfigureR` | src/libfrozen/backends/index/mphf/mphf_chm_imp.c:259-279 | Computes 2.09 vertices per wanted element (dividing first where safe_mul refuses the product) and the least number of bytes for a vertex number. |
| `ChmIndex.TargetRatio` | src/libfrozen/backends/index/mphf/mphf_chm_imp.c:263-272 | For ordinary counts the number of vertices is 2.09 times the number of elements, rounded down, and at least twice that number. |
| `ChmIndex.TargetIsRoomy` | src/libfrozen/backends/index/mphf/mphf_chm_imp.c:263-272 | There are at least two vertices for each element exactly where the product is accepted; where it is refused, dividing twice leaves fewer than one for every 47. |
| `ChmIndex.VertexBytes` | src/libfrozen/backends/index/mphf/mphf_chm_imp.c:274-277 | The bytes of the bit length are the least number of bytes that hold the vertex count; eight are needed exactly from 2^56 vertices on. |
| `ChmIndex.Index.Rebuild` | src/libfrozen/backends/index/mphf/mphf_chm_imp.c:602-655 | Grows the capacity when at least 80% full, draws new seeds and leaves a valid empty index; a size that cannot be built leaves the stores as they were. |
| `ChmIndex.OrdinaryPlan` | src/libfrozen/backends/index/mphf/mphf_chm_imp.c:614-638 | An index that is not four fifths full is rebuilt with the capacity it had. |
| `ChmIndex.GrowthPlan` | src/libfrozen/backends/index/mphf/mphf_chm_imp.c:625-630 | Otherwise the size is one step beyond the largest of capacity, elements and minimum, times the multiplier; unless that leaves the machine word or the multiplier is 0, it is not below any of them. |
| `ChmIndex.Index.FileInit` | src/libfrozen/backends/index/mphf/mphf_chm_imp.c:169-187 | Zero-filled stores and no records form a valid empty index. |
| `ChmIndex.Index.NewEdgeId` | src/libfrozen/backends/index/mphf/mphf_chm_imp.c:328-339 | Extends the record store by one record and returns the next 1-based id; old bytes are kept. |
| `ChmIndex.Index.PushEdge` | src/libfrozen/backends/index/mphf/mphf_chm_imp.c:538-553 | Appends a record that points at both current list heads and makes it the head of both lists. |
| `ChmIndex.Index.SetEdge` | src/libfrozen/backends/index/mphf/mphf_chm_imp.c:395-416 | Overwrites exactly the bytes of the addressed record with its encoding. |
| `ChmIndex.Index.GetEdge` | src/libfrozen/backends/index/mphf/mphf_chm_imp.c:372-394 | Returns the stored edge for every valid id and fails for every other id. |
| `ChmIndex.Index.SetG` | src/libfrozen/backends/index/mphf/mphf_chm_imp.c:463-477 | A label write changes one vertex and keeps the value modulo the label width. |
| `ByteCodec.PackEdge` | src/libfrozen/backends/index/mphf/mphf_chm_imp.c:401-413 | Four overlapping little-endian 8-byte stores leave exactly the four fields, side by side. |
| `ByteCodec.UnpackEdge` | src/libfrozen/backends/index/mphf/mphf_chm_imp.c:377-391 | The masked 8-byte reads return the very edge that was encoded, whatever bytes follow the record. |
| `ByteCodec.LeWord` | src/libfrozen/backends/index/mphf/mphf_chm_imp.c:401-413 | Encoding a number in n bytes and decoding it truncates it to n bytes. |
| `ByteCodec.LePrefix` | src/libfrozen/backends/index/mphf/mphf_chm_imp.c:377-391 | Masking a longer word equals decoding its low bytes. |
| `ByteCodec.RecordAt` | src/libfrozen/backends/index/mphf/mphf_chm_imp.c:372-394 | Record k of the encoded store is the encoding of edge k. |
| `ByteCodec.RecordWrite` | src/libfrozen/backends/index/mphf/mphf_chm_imp.c:395-416 | Overwriting record k in the bytes changes edge k and no other edge. |
| `Arithmetic.LogAny` | src/libfrozen/backends/index/mphf/mphf_chm_imp.c:83-92 | Returns the least positive exponent whose power exceeds x. |
| `Mphf.Handler.Handle` | src/libfrozen/backends/index/mphf/mphf.c:117-198 | The broken state machine: a broken index answers nothing and is not touched, only a clashing insert or update breaks it, only a successful rebuild repairs it; reads, inserts and updates act exactly as the index does. |
| `Mphf.Handler.Operate` | src/libfrozen/backends/index/mphf/mphf.c:145-184 | A request to an index that is not broken: each action has exactly the effect and code of the index operation behind it. |
| `Mphf.Handler.Reset` | src/libfrozen/backends/index/mphf/mphf.c:129-136 | A rebuild request is answered "dead" exactly when the new size can be built; then the index is empty, sized and seeded as planned, and no longer broken. |
| `Mphf.InsertAll` | src/libfrozen/backends/backend/rebuild/rebuild.c:124-148 | The inserts stop at exactly the first key whose edge closes a cycle in the key graph; without one the index holds exactly the pairs (keys[i], i). |
| `Mphf.RebuildAll` | src/libfrozen/backends/backend/rebuild/rebuild.c:88-155 | How the loop ends is exactly what the key graphs of the successive seeds predict. On success with a writeable index, it is not broken, holds exactly the source keys, and each keys[i] reads i modulo 2^value_bits; after a refused reset the index counts no elements. |
| `Mphf.RefusedInput` | src/libfrozen/backends/backend/rebuild/rebuild.c:97-106 | With one minimal element, step 1 and multiplier 2^63 + 1, opening the index over empty stores builds it for two elements, and every rebuild after that is refused. |
| `Mphf.RefusedRun` | src/libfrozen/backends/backend/rebuild/rebuild.c:88-155 | The run that gets there: the index opens, and its rebuild, which the caller sees as success, inserts no key. |
| `Mphf.RepeatedKey` | src/libfrozen/backends/backend/rebuild/rebuild.c:124-148 | From a source with a repeated key a writeable index is never rebuilt successfully, whatever the seeds. |
| `ChmIndex.RepeatClashes` | src/libfrozen/backends/index/mphf/mphf_chm_imp.c:660-680 | The second of two equal keys cannot be inserted, under any hash seeds. |
| `ChmIndex.SafeMul` | src/libfrozen/core/libfrozen.c:62-74 | A product is returned, and is exact, if and only if a factor is 0 or x * (y + 1) still fits a machine word. |
| `ChmIndex.NoClashIffForest` | src/libfrozen/backends/index/mphf/mphf_chm_imp.c:660-680 | All keys can be inserted, in order, if and only if their edges form a forest. |
| `ChmIndex.Index.ClashesInKeys` | src/libfrozen/backends/index/mphf/mphf_chm_imp.c:660-680 | Whether the next key clashes is a property of the keys and seeds alone, not of the stored labels. |
| `IpcRuns.NoClaimerFallsOff` | src/libfrozen/backends/communication/ipc/ipc_shmem.c:116-132 | In every state of every interleaving of any number of processes, a claimer past its semaphore has a claimable block at or after its scan position; "strange error" and the listener's death are unreachable. |
| `IpcRuns.TokensConserved` | src/libfrozen/backends/communication/ipc/ipc_shmem.c:82-132 | #FREE = free tokens + free-claimers before their compare-and-swap + posts still to come, and likewise for WRITTEN, in every reachable state. |
| `IpcRuns.BlocksHaveOneOwner` | src/libfrozen/backends/communication/ipc/ipc_shmem.c:134-287 | From claim to release a block has one owner, nobody else reads an answer back from it, two synchronous clients never await the same block, and the three later compare-and-swaps find the status they expect. |
| `IpcRuns.OwnedBlockUntouched` | src/libfrozen/backends/communication/ipc/ipc_shmem.c:134-287 | No step of another process changes anything in an owned block. |
| `IpcRuns.DoneTokenIsSingle` | src/libfrozen/backends/communication/ipc/ipc_shmem.c:104-115 | A done-semaphore is 0 or 1, and 1 only while the block is EXEC_DONE, no further post to it is due, and no client has yet been woken by it. |
| `IpcRuns.ListenerExecutesFreshRequest` | src/libfrozen/backends/communication/ipc/ipc_shmem.c:134-151 | A listener about to execute holds a published request that nobody has executed. |
| `IpcRuns.ExecutedOnce` | src/libfrozen/backends/communication/ipc/ipc_shmem.c:134-151 | A computed answer is never replaced: each request is executed at most once. |
| `IpcRuns.OwnResponse` | src/libfrozen/backends/communication/ipc/ipc_shmem.c:270-285 | What a synchronous client reads back is the response that was computed for its own request. |
| `IpcRequests.SyncRequestAnswered` | src/libfrozen/backends/communication/ipc/ipc_shmem.c:239-287 | A client that made a synchronous request and has no request any more went through the release of its block, holding the response that was computed for this very request. |
| `IpcRequests.AsyncNeverWaits` | src/libfrozen/backends/communication/ipc/ipc_shmem.c:239-287 | A client with an asynchronous request never waits for an answer nor reads one. |
| `IpcRequests.Journey` | src/libfrozen/backends/communication/ipc/ipc_shmem.c:239-287 | At every point of a request the client is on its way with it in the mode that was asked for, or has come back from it. |
| `IpcRequests.ExecuteRecords` | src/libfrozen/backends/communication/ipc/ipc_shmem.c:134-151 | Executing a request leaves the computed value as its answer, in the block and in the history. |
| `IpcRequests.OnlyExecuteRecords` | src/libfrozen/backends/communication/ipc/ipc_shmem.c:104-287 | No other step adds or changes an answer. |
| `IpcRuns.RunInv` | src/libfrozen/backends/communication/ipc/ipc_shmem.c:82-287 | Every state of every run satisfies the protocol invariant. |
| `IpcRuns.InitInv` | src/libfrozen/backends/communication/ipc/ipc_shmem.c:82-93 | The freshly initialised ring over zeroed memory satisfies the invariant. |
| `IpcRuns.InvIffFree` | src/libfrozen/backends/communication/ipc/ipc_shmem.c:82-93 | After initialisation the invariant holds if and only if every status in the memory was FREE. |
| `IpcRuns.FailsIffUsed` | src/libfrozen/backends/communication/ipc/ipc_shmem.c:82-132 | After initialisation some interleaving meets "strange error" or kills a listener if and only if a block was left in another status than FREE and there is a client. |
| `IpcRuns.UsedBlockFails` | src/libfrozen/backends/communication/ipc/ipc_shmem.c:116-132 | One block left in WRITING and one client: its fourth step meets "strange error". |
| `IpcRuns.TooManyTokens` | src/libfrozen/backends/communication/ipc/ipc_shmem.c:239-287 | A client that has more tokens than there are free blocks can run into "strange error" all by itself. |
| `IpcSafety.KeepsInv` | src/libfrozen/backends/communication/ipc/ipc_shmem.c:104-287 | Every step of every process keeps the protocol invariant. |
| `IpcSafety.KeepsEnough` | src/libfrozen/backends/communication/ipc/ipc_shmem.c:116-132 | Every step keeps, for every index, at least as many claimable blocks from there on as claimers still scanning there. |
| `IpcSafety.KeepsTokens` | src/libfrozen/backends/communication/ipc/ipc_shmem.c:104-132 | Every step keeps the balance of claimable blocks, tokens, claimers and outstanding posts. |
| `IpcSafety.NoFall` | src/libfrozen/backends/communication/ipc/ipc_shmem.c:116-132 | The supply condition implies that no scan position is past the last block. |
| `IpcSafety.KeepsLocal` | src/libfrozen/backends/communication/ipc/ipc_shmem.c:134-287 | Whatever step another process takes, what a process relies on about its own block still holds. |
| `IpcSafety.KeepsBlock` | src/libfrozen/backends/communication/ipc/ipc_shmem.c:104-115 | Every step keeps each block's status, payload and done-token consistent. |
| `IpcSafety.KeepsIdApart` | src/libfrozen/backends/communication/ipc/ipc_shmem.c:239-268 | No step makes an unpublished request share its id with a pending one. |
| `IpcShmem.ScannerCounted` | src/libfrozen/backends/communication/ipc/ipc_shmem.c:124-130 | A claimer at a position is counted there and no longer one position further: a failed try uses up exactly one of the blocks it was promised. |
| `IpcShmem.ClaimableAhead` | src/libfrozen/backends/communication/ipc/ipc_shmem.c:124-130 | A positive number of claimable blocks from a position on yields one at or after it. |
| `IpcProgress.NoDeadlock` | src/libfrozen/backends/communication/ipc/ipc_shmem.c:82-287 | With a block and a listener, in every state of every run: while a client has a request under way, some process can go on with one without any new request being made. |
| `IpcProgress.WaitsForSomebody` | src/libfrozen/backends/communication/ipc/ipc_shmem.c:104-287 | A client under way waits for a process that can move. |
| `IpcProgress.RunCared` | src/libfrozen/backends/communication/ipc/ipc_shmem.c:104-287 | In every reachable state a WRITING or EXECUTING block has an owner, a requested answer has a client that awaits it, and an answer that is there has been announced, is about to be, or has been noticed. |
| `IpcProgress.KeepsCared` | src/libfrozen/backends/communication/ipc/ipc_shmem.c:104-287 | Every step of every process hands the care of each block on. |
| `IpcProgress.OnlyWaitersStay` | src/libfrozen/backends/communication/ipc/ipc_shmem.c:104-132 | Only an empty semaphore keeps a process from moving. |
| `SizeTree.Tree.TreeGet` | src/libfrozen/backends/rest/blocks_addressing/blocks_addressing.c:339-404 | For every offset the descent over the levels gives the result of linear search: the first block whose inclusive prefix sum exceeds the offset and the real offset in it, or nowhere; every table slot it reads exists and was written. In a tree without blocks nothing is found, even with a stale root. |
| `SizeTree.Tree.ScanLevel` | src/libfrozen/backends/rest/blocks_addressing/blocks_addressing.c:353-369 | Scanning the children of a node stops at the child that contains the offset. |
| `SizeTree.Tree.ScanBlocks` | src/libfrozen/backends/rest/blocks_addressing/blocks_addressing.c:375-403 | The final scan over at most one node of blocks finds the block of linear search. |
| `SizeTree.Tree.NodeWritten` | src/libfrozen/backends/rest/blocks_addressing/blocks_addressing.c:353-366 | A node that starts before the offset lies inside the table, was written, and holds the sum of its blocks. |
| `TreeSums.LinearFindUnique` | src/libfrozen/backends/rest/blocks_addressing/blocks_addressing.c:339-404 | The block that brackets an offset is the one linear search finds, zero-size blocks included. |
| `TreeSums.FindsByte` | src/libfrozen/backends/rest/blocks_addressing/blocks_addressing.c:339-404 | Every byte of every block is found where it is stored, from its virtual offset. |
| `TreeSums.LinearFindNowhere` | src/libfrozen/backends/rest/blocks_addressing/blocks_addressing.c:339-350 | Linear search fails on every offset at or behind the total. |
| `TreeSums.NodeExists` | src/libfrozen/backends/rest/blocks_addressing/blocks_addressing.c:65-97 | Nodes that start at or before the last block fit in their level's slice of the table. |
| `SizeTree.Tree.LevelArrays` | src/libfrozen/backends/rest/blocks_addressing/blocks_addressing.c:65-97 | The level offsets are sums of powers of the fan-out and the spans are its powers. |
| `SizeTree.Tree.TreeReinit` | src/libfrozen/backends/rest/blocks_addressing/blocks_addressing.c:40-118 | Afterwards there are as many levels as the blocks need and no more; all three arrays are replaced if the number of levels changed, and none if it did not. |
| `SizeTree.Tree.OneLevel` | src/libfrozen/backends/rest/blocks_addressing/blocks_addressing.c:65-97 | With at most one block there is a single level, of one entry. |
| `SizeTree.Tree.TreeRecalc` | src/libfrozen/backends/rest/blocks_addressing/blocks_addressing.c:148-222 | For a non-empty tree every node up to the last one of every level holds the sum of its blocks; the table of an empty tree is left alone. |
| `SizeTree.Tree.RecalcBlock` | src/libfrozen/backends/rest/blocks_addressing/blocks_addressing.c:180-199 | Adding one block advances the running sum of every level and writes each finished node. |
| `SizeTree.Tree.TreeInsert` | src/libfrozen/backends/rest/blocks_addressing/blocks_addressing.c:223-263 | Inserts one block at the position and makes the table right again, also for a position behind the end, whatever the store then holds in the gap. |
| `SizeTree.Tree.TreeDelete` | src/libfrozen/backends/rest/blocks_addressing/blocks_addressing.c:264-293 | Removes one block. If the table was right, its root is the total afterwards if and only if a block is left or the deleted block was empty: the table of an emptied tree is kept as it was. |
| `SizeTree.StaleRoot` | src/libfrozen/backends/rest/blocks_addressing/blocks_addressing.c:264-293 | A concrete tree whose only block of five bytes is deleted still claims five bytes. |
| `SizeTree.Tree.TreeResizeBlock` | src/libfrozen/backends/rest/blocks_addressing/blocks_addressing.c:294-338 | Changes one size and shifts the root by the 32-bit difference; a table that was right equals a full recalculation exactly when the block did not shrink, and after shrinking its root is too large by 2^32. |
| `SizeTree.Tree.ShiftTable` | src/libfrozen/backends/rest/blocks_addressing/blocks_addressing.c:331-333 | Adding the difference to one node per level turns the table of the old sizes into that of the new ones. |
| `SizeTree.NodeShift` | src/libfrozen/backends/rest/blocks_addressing/blocks_addressing.c:331-333 | Resizing a block changes exactly the node over it on each level, by the same amount. |
| `SizeTree.Tree.RootIsTotal` | src/libfrozen/backends/rest/blocks_addressing/blocks_addressing.c:423-426 | The first table entry of a correct table over at least one block is the sum of all block sizes. |
| `SizeTree.Tree.TreeSize` | src/libfrozen/backends/rest/blocks_addressing/blocks_addressing.c:423-426 | Reports the root: the total when there is a block. |
| `SizeTree.Tree.TotalFits` | src/libfrozen/backends/rest/blocks_addressing/blocks_addressing.c:423-426 | With 32-bit sizes and counts the total fits 64 bits. |
| `SizeTree.Tree.constructor` | src/libfrozen/backends/rest/blocks_addressing/blocks_addressing.c:119-137 | A new tree has its levels and, over at least one block, a correct table. |
| `Rewrite.CompileAndRun` | src/libfrozen/backends/request/rewrite/rewrite.c:116-323 | Compiling a script by the grammar actions and running it on the frame stack equals direct evaluation of its syntax tree, for every semantics of calls, assignments, null tests and of what follows an IF that is not taken; the operands, result variables and tested things of the evaluation are named from the syntax alone. The slots allocated are exactly the variables the script takes. |
| `RewriteValues.RunDenotes` | src/libfrozen/backends/request/rewrite/rewrite.c:116-323 | Over a store that keeps what is put into it, a compiled script that does not name its own result variables leaves every other thing, and the rest of the world, as the syntax tree denotes; the denotation has values and no names of intermediate results. |
| `RewriteValues.ExprComputes` | src/libfrozen/backends/request/rewrite/rule_parser.tab.c:1537-1557 | Running an expression leaves its value in the thing that stands for it and touches no variable but its own. |
| `RewriteValues.TestComputes` | src/libfrozen/backends/request/rewrite/rule_parser.tab.c:1496-1522 | After an assignment in a test, the thing an IF looks at holds what the target made of the value. |
| `RewriteValues.StmtDenotes` | src/libfrozen/backends/request/rewrite/rule_parser.tab.c:1496-1522 | Running a statement does what the statement denotes, outside the result variables. |
| `RewriteValues.NamedAreCleanIn` | src/libfrozen/backends/request/rewrite/rule_parser.tab.c:1489-1492 | Variables that a script defines by name are not among its result variables. |
| `Rewrite.RunBlock` | src/libfrozen/backends/request/rewrite/rewrite.c:116-297 | The explicit-stack interpreter terminates and equals structured execution: taken blocks run once, and control resumes behind the IF. |
| `Rewrite.Leave` | src/libfrozen/backends/request/rewrite/rewrite.c:285-293 | A finished frame is dropped without effect, and lowers the remaining work. |
| `Rewrite.BlockMeaning` | src/libfrozen/backends/request/rewrite/rule_parser.tab.c:1454-1561 | Executing a compiled block equals evaluating its statements in order, with names counted over the syntax. |
| `Rewrite.StmtMeaning` | src/libfrozen/backends/request/rewrite/rule_parser.tab.c:1496-1522 | Executing a compiled statement equals evaluating it; an IF runs its test once, looks at the value of its expression or the target of its assignment, and runs its body once or not at all. |
| `Rewrite.ExprMeaning` | src/libfrozen/backends/request/rewrite/rule_parser.tab.c:1537-1557 | Executing a compiled call equals evaluating its operands left to right and then the call, on the leaves and result variables that stand for them. |
| `Rewrite.ArgsMeaning` | src/libfrozen/backends/request/rewrite/rule_parser.tab.c:1537-1557 | Nested calls run before their caller, from left to right. |
| `Rewrite.TestMeaning` | src/libfrozen/backends/request/rewrite/rule_parser.tab.c:1496-1522 | An assignment used as a condition is executed, from the thing that stands for its source, before its target is tested. |
| `Rewrite.NamesExpr` | src/libfrozen/backends/request/rewrite/rule_parser.tab.c:1537-1557 | The compiler lets a leaf stand for itself and a call for the first variable behind those of the calls nested in it. |
| `Rewrite.NamesArgs` | src/libfrozen/backends/request/rewrite/rule_parser.tab.c:1537-1557 | The parameter list of a call holds the things of its operands, in order. |
| `Rewrite.NamesBlock` | src/libfrozen/backends/request/rewrite/rule_parser.tab.c:1992-2010 | The variable counter advances by one for every call and every named variable, and by nothing else. |
| `Rewrite.ResultsOfBlock` | src/libfrozen/backends/request/rewrite/rule_parser.tab.c:1537-1557 | No two calls of a script share a result variable, none stores into a variable defined by name, and together they fill exactly the numbers up to the counter. |
| `Rewrite.ExecConcat` | src/libfrozen/backends/request/rewrite/rewrite.c:138-284 | Executing two action lists in a row is executing their concatenation, unless the first aborts. |
| `Rewrite.Advance` | src/libfrozen/backends/request/rewrite/rewrite.c:138-284 | Consuming one action of the innermost frame keeps the meaning of the stack and lowers the remaining work. |
| `Rewrite.Enter` | src/libfrozen/backends/request/rewrite/rewrite.c:129-135 | Pushing a frame means running the block and then what was left. |
| `Rewrite.Parser.ReduceBlock` | src/libfrozen/backends/request/rewrite/rule_parser.tab.c:1454-1475 | Opening a block, reducing its statements and closing it leaves the block stack as it was and yields the compiled block. |
| `Rewrite.Parser.ReduceStmt` | src/libfrozen/backends/request/rewrite/rule_parser.tab.c:1489-1522 | Reducing a statement appends exactly its compiled actions to the innermost open block. |
| `Rewrite.Parser.ReduceExpr` | src/libfrozen/backends/request/rewrite/rule_parser.tab.c:1537-1557 | Reducing an expression appends the actions of nested calls first and allocates one result variable per call. |
| `Rewrite.Parser.ReduceArgs` | src/libfrozen/backends/request/rewrite/rule_parser.tab.c:1537-1557 | Arguments are reduced left to right; their things form the parameter list. |
| `Rewrite.Parser.LeaveActionBlock` | src/libfrozen/backends/request/rewrite/rule_parser.tab.c:1969-1977 | Closing undoes the matching open: the rest of the block stack is what it was. |
| `Buffer.ChunkedBuffer.Write` | src/libfrozen/core/buffer.c:263-289 | The flattening becomes the old one with the data spliced in at the offset, extended at the tail if needed; size stays the sum of the chunk sizes. |
| `Buffer.ChunkedBuffer.WriteChunk` | src/libfrozen/core/buffer.h:89-119 | One turn of the chunk loop brings the bytes of one chunk to their final state. |
| `Buffer.SplicedIsSplice` | src/libfrozen/core/buffer.c:263-289 | With the offset inside the buffer the spliced result is prefix, data, suffix. |
| `Buffer.SplicedTwice` | src/libfrozen/core/buffer.c:443-475 | Two adjacent writes are one write of the concatenated data. |
| `Buffer.ChunkedBuffer.Read` | src/libfrozen/core/buffer.c:300-328 | Returns exactly the slice of the flattening, clipped to its end, and leaves the rest of the destination alone. |
| `Buffer.ChunkedBuffer.ReadChunk` | src/libfrozen/core/buffer.h:89-119 | One turn of the chunk loop copies exactly the part of the chunk that lies behind the offset. |
| `Buffer.ChunkedBuffer.Seek` | src/libfrozen/core/buffer.c:339-369 | Finds the chunk that holds the byte at the offset, and how much of the chunk is left; it succeeds exactly inside the buffer, and also at the start of a buffer whose first chunk is empty, where it finds no bytes. |
| `Buffer.ChunkedBuffer.SeekableInside` | src/libfrozen/core/buffer.c:339-369 | A seek succeeds exactly inside the buffer or where it is stuck on an empty first chunk. |
| `Buffer.NextChunk` | src/libfrozen/core/buffer.c:390-416 | A used-up cursor moves to the next bytes, or fails at the end; where the seek is stuck it comes back used up, at the same offset. |
| `Buffer.NextPieces` | src/libfrozen/core/buffer.c:390-429 | Both buffers yield the next bytes of their flattenings, as many as the shorter rest allows. |
| `Buffer.HangTurn` | src/libfrozen/core/buffer.c:390-430 | With one buffer stuck, a turn of the comparison loop compares nothing and leaves the next turn the same situation. |
| `Buffer.CopyHangTurn` | src/libfrozen/core/buffer.c:450-473 | With the source stuck, a turn of the copying loop writes no byte and leaves the source, the cursor and the rest to copy as they were; the destination at most grows up to the offset. |
| `Buffer.ChunkedBuffer.Defragment` | src/libfrozen/core/buffer.c:160-170 | One chunk with the same bytes remains. |
| `Buffer.ChunkedBuffer.AddHead` | src/libfrozen/core/buffer.c:204-214 | Prepends the chunk's bytes. |
| `Buffer.ChunkedBuffer.AddTail` | src/libfrozen/core/buffer.c:215-225 | Appends the chunk's bytes. |
| `Buffer.PartAt` | src/libfrozen/core/buffer.h:89-119 | Chunk k is the stretch of the flattening that starts where the chunks before it end. |
| `Buffer.Compare` | src/libfrozen/core/buffer.c:380-432 | Unless the loop hangs (both seeks succeed and one buffer is stuck), the result depends on the two flattened slices only, not on the chunkings: 0 if both exist and are equal, the sign of the first differing byte, or invalid if a buffer ends before that. |
| `Buffer.CompareEqualMeans` | src/libfrozen/core/buffer.c:380-432 | The result is 0 exactly when nothing was asked for or both stretches exist and are equal. |
| `Buffer.CompareDiffersMeans` | src/libfrozen/core/buffer.c:380-432 | If both buffers reach the first byte that differs, it gives the sign. |
| `Buffer.MemcmpFirst` | src/libfrozen/core/buffer.c:380-432 | The sign is decided by the first differing byte. |
| `Buffer.MemcmpConcat` | src/libfrozen/core/buffer.c:408-424 | Comparing piece by piece gives the comparison of the concatenations. |
| `Buffer.CompareDecided` | src/libfrozen/core/buffer.c:408-424 | After equal pieces, the first unequal pair of pieces decides the whole comparison. |
| `Buffer.Copy` | src/libfrozen/core/buffer.c:443-475 | Unless the source is stuck, equals reading the clipped slice of the source and writing it to the destination; the source is unchanged; success exactly when the whole slice existed. |
| `Split.SplitHandler` | src/libfrozen/backends/data/split/split.c:75-155 | The reused-window loop cuts where the functional window algorithm does, for every separator and window size. |
| `Split.CutsExact` | src/libfrozen/backends/data/split/split.c:92-143 | For every separator, window size and input: the cuts are the ends of all separator occurrences if and only if no occurrence starts behind the first window that had to carry bytes over. |
| `Split.OuterFinds` | src/libfrozen/backends/data/split/split.c:94-143 | From any window on, with the believed offsets already too small by some amount or not: all further cuts are right exactly when no occurrence starts where the offsets are no longer trusted. |
| `Split.TrustedOneByte` | src/libfrozen/backends/data/split/split.c:109-121 | With a one-byte separator no window ever carries bytes over. |
| `Split.CutsAreMatches` | src/libfrozen/backends/data/split/split.c:92-143 | With a one-byte separator, or when everything fits the window, the cuts are the ends of all separator occurrences. |
| `Split.WindowSizeIrrelevant` | src/libfrozen/backends/data/split/split.c:92-143 | With a one-byte separator the result is the same for all window sizes. |
| `Split.SplitIsProper` | src/libfrozen/backends/data/split/split.c:75-155 | With a one-byte separator the slices concatenate to the input, every slice but the last ends in its only separator, and the last has none. |
| `Split.CarryLosesOffset` | src/libfrozen/backends/data/split/split.c:109-121 | A concrete input with a two-byte separator across two windows is cut one byte early: the carried bytes are missing from the end offset. |
| `Split.InnerFinds` | src/libfrozen/backends/data/split/split.c:103-140 | One window, with its carries, finds every match up to where it ends, each cut too early by exactly the bytes lost before; carrying loses more bytes. |
| `Split.FirstByteMissing` | src/libfrozen/backends/data/split/split.c:104-107 | Jumping to the next first byte of the separator skips no match. |
| `Split.CarryTurn` | src/libfrozen/backends/data/split/split.c:109-121 | Carries the partial separator to the front of the window and reads behind it. |
| `Split.LookTurn` | src/libfrozen/backends/data/split/split.c:123-139 | Compares at the found byte, cuts behind a match, and goes on one byte further. |
| `Pool.GroupLimit` | src/libfrozen/backends/backend/pool/pool.c:212-279 | Terminates, and exactly the victims die: as many as are too many, in the order of the mode; everyone else is unchanged, and without a limit nothing happens. |
| `Pool.NotifyNext` | src/libfrozen/backends/backend/pool/pool.c:202-210 | With the action "request" and the parameter "one" a turn of the loop changes nothing the next turn looks at, and somebody is chosen again. |
| `Pool.VictimsSuffice` | src/libfrozen/backends/backend/pool/pool.c:260-273 | The victims are live, fewer than `limit` members (or none) remain, and one victim less would not have been enough. |
| `Pool.SurvivorsComeLater` | src/libfrozen/backends/backend/pool/pool.c:246-266 | Every victim was created before every survivor (mode first), after it (last), or has the larger or smaller parameter (highest, lowest); among equals the victim stands further ahead in the list. |
| `Pool.EveryOtherWordLimits` | src/libfrozen/backends/backend/pool/pool.c:220-221 | Only the greatest machine word means that there is no limit. |
| `Pool.KillStep` | src/libfrozen/backends/backend/pool/pool.c:260-272 | Destroying the foremost member leaves exactly the remaining victims. |
| `Pool.Scan` | src/libfrozen/backends/backend/pool/pool.c:230-258 | One pass yields the sum of the parameters and the foremost live member for each mode. |
| `Pool.TotalCounts` | src/libfrozen/backends/backend/pool/pool.c:167-169 | With the parameter "one" the group parameter is the number of live members. |
| `Pool.MeasureAll` | src/libfrozen/backends/backend/pool/pool.c:286-297 | Refreshes every member's parameter and destroys those whose own limit is 0. |
| `Pool.LimitGlobal` | src/libfrozen/backends/backend/pool/pool.c:309-317 | After every member's rule was put to the group, all rules are kept, nobody was revived, and if anyone died some rule would not allow one more. |
| `Pool.Member.Destroy` | src/libfrozen/backends/backend/pool/pool.c:185-211 | A destroyed member answers no requests and counts as 0. |

## Left out

- Index: allocation, storage and configuration failures; opening and forking existing stores; a read-only flag that differs between stores.
- Index: 64-bit overflow of the label width (value_bits is 1 to 63) and vertex numbers of eight bytes, for which the record mask would shift by 64; `Rebuild` refuses such sizes instead.
- ChmIndex.Index.Rebuild: the seeds are parameters, the random source is not modelled.
- ChmIndex.AnyKeyFits: the seeds may be any 64-bit numbers, while those that random() draws have 31 bits.
- Mphf.RebuildAll: the loop retries for as long as there are seeds in its argument and then stops with `StillRetrying`; how likely a seed is to give a forest is not modelled.
- Mphf.RebuildAll: a disabled rebuild request, cursor mode, reader failures and the monitor backend are not modelled; the reader is the sequence of keys.
- Mphf.Handler.Handle: a rebuild that fails after changing sizes promises nothing about a later read.
- The bdz index, jenkins and murmur mixing, and hash-key tables: not modelled; a key is the 64-bit number that is handed to the index.
- Ring: creating, attaching and removing the shared segment, thread start, and processes that die between two steps.
- Ring: the error path of a client whose data cannot be converted, which abandons its block in WRITING and so gives up one block for good.
- Ring: weak memory ordering (steps are sequentially consistent) and the option not to read results back.
- Size tree: moving a block and negative offsets.
- SizeTree.Tree.TreeInsert: what the store makes of a move and a write behind its end is a parameter, as is its answer to a delete there; failing writes are not modelled.
- SizeTree.Tree.TreeRecalc: sums are unbounded; `TotalFits` shows that they fit 64 bits when sizes and counts are 32-bit.
- The blocks.c backend, whose author marks its offset logic as wrong.
- Scripts: the LALR tables, the lexer and name lookup; constants and requests are already resolved, and one thing stands for a parenthesised statement.
- Rewrite.RunBlock: an untaken IF before any action has set the pointer it assigns through is not modelled, nor is passing on a request when the script has no actions.
- Rewrite.CompileAndRun: values are opaque, so the aliasing of call results to one local variable is not modelled; it is part of the action parameter.
- Rewrite.Parser.ReduceExpr: an IF or a definition used as a value, and argument lists that start with a comma, are not part of the syntax tree.
- Buffers: buffers over read and write callbacks, defragmenting an empty buffer, the `cached` flag and the raw-pointer variants.
- Buffer.Compare: the calls that never return are excluded; `HangTurn` says what happens there.
- Buffer.Copy: source and destination share no chunk; the call that never returns (a source whose first chunk is empty, read from its start) is excluded.
- Split.SplitHandler: the requests handed downstream and their failures; the result is the list of cut positions.
- Pool.GroupLimit: the parameters "ticks" and "request" and the mode "random" are not modelled; the action "request" is modelled by `NotifyNext` only.
- Pool.Member.Destroy: the children of a forked chain that are destroyed with it, and the locks on the member list.
- Lists, memory mapping, the balancer, the incapsulation backend, fuse, console, the Go modules and the daemon: plumbing, or members without a strong specification.
