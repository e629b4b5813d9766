# pilosa in-process test cluster, modelled in Dafny

This project models `test/cluster.go` of pilosa. That file is the harness that runs
a whole pilosa cluster inside one process. A `TestCluster` owns one `pilosa.Cluster`
record per node and keeps a shared, sorted node set. It also has the `resizeDone`
channel, which `AddNode` waits on. The harness is itself the `Broadcaster` of every
node:
- `SendSync` merges a `ClusterStatus` into every node.
- `SendAsync` does nothing.
- `SendTo` routes a `ResizeInstruction` to `FollowResizeInstruction`, which copies
  fragments from the source nodes into the destination node's holder. It routes a
  `ResizeInstructionComplete` back to the coordinator.

The harness's two test hashers, `ModHasher` and `ConstHasher`, are modelled as well.

Files:
- `wrappers.dfy`: `Option`.
- `hashers.dfy`: the two hashers, with Go's `int(uint64)` conversion and Go's
  truncating `%` written out.
- `uris.dfy`: node addresses and the order the node set is sorted by. Also `sort.Sort`
  as a sorting function, the `host<i>` names written by `fmt`'s `%d`, and first-match
  lookup by address.
- `messages.dfy`: the messages the broadcaster routes, and `Outcome`, which is how a
  call ends: a nil error, an error, or a Go run-time panic.
- `migration.dfy`: what `FollowResizeInstruction` does to the holders, as a function
  of the nodes' fragments before the call, with its properties.
- `harness.dfy`: the `Cluster` record and the `TestCluster` class, whose methods
  update the records in place and are proved against the functions above.

Choices about how the model is built:
- Calls into pilosa that the harness only makes are kept as logs on the `TestCluster`:
  - `ReceiveEvent` becomes `joins`;
  - `MarkResizeInstructionComplete` becomes `completions`.
- The outcome of the holder operations is a parameter, because the harness does not
  decide it. These operations are `ApplySchema`, creating a fragment, and exporting or
  importing one (`HolderFaults`).
- A temporary directory that cannot be made, for a node that `addCluster` adds, is a
  parameter too.
- `ReceiveEvent` may broadcast a status back through the harness before it returns.
  The state the new node holds when `ReceiveEvent` returns is therefore a parameter
  of `AddNode`.
- Each node's holder is its map from fragment key to bytes.
- `NewTestCluster` panics when a temporary directory cannot be made. The constructor
  therefore always passes "no error" to `AddCluster`.

On a failing source the harness returns the error and sends no completion
(test/cluster.go:362-372).

## Model

| member | source | states |
|---|---|---|
| Hashers.ConstHash | test/cluster.go:55 | ConstHasher.Hash: the stored index; its independence from key and bucket count is stated by Hashers.ConstHashIgnoresKeyAndBuckets |
| Hashers.Hash | test/cluster.go:45-55 | the Hash call on a cluster's configured hasher, dispatching to ModHash or ConstHash |
| Hashers.ToInt64 | test/cluster.go:45 | `int(key)` is the 64-bit signed value congruent to the key modulo 2^64; it equals the key exactly when the key is below 2^63 |
| Hashers.TruncRem | test/cluster.go:45 | Go's `%`: smaller than the divisor in magnitude, takes the dividend's sign, and completes the truncating division |
| Hashers.ModHash | test/cluster.go:45 | panics (None) exactly when n = 0; otherwise \|result\| < \|n\|, and the result is negative only for keys from 2^63 up |
| Hashers.ModHashOfSmallKey | test/cluster.go:45 | for n >= 1 and key < 2^63 the bucket is key mod n, in [0, n) |
| Hashers.ModHashOfLargeKey | test/cluster.go:45 | for keys from 2^63 up the bucket is -((2^64 - key) mod n), in (-n, 0] |
| Hashers.ModHashLargestKeyIsNegative | test/cluster.go:45 | the wrap-around happens: key 2^64-1 into 2 buckets gives -1 |
| Hashers.ConstHashIgnoresKeyAndBuckets | test/cluster.go:52-55 | ConstHasher returns its i for every key and n, unclamped even when i >= n |
| Uris.UriLess | test/cluster.go:189 | the strict order the node set is sorted by (host, port, scheme); its order laws are stated by Uris.UriLessStrictTotalOrder |
| Uris.Sort | test/cluster.go:189 | sort.Sort on the node set; that it sorts, permutes and has a single result is stated by Uris.SortSortsAndPermutes and Uris.SortedUnique |
| Uris.NatToString | test/cluster.go:185 | fmt's %d on a natural number: at least one digit, one digit exactly below 10; injectivity is Uris.NatToStringInjective |
| Uris.IntToString | test/cluster.go:185 | fmt's %d on a signed node number, with a leading '-' when negative |
| Uris.NodeUri | test/cluster.go:185 | NewURI("http", fmt.Sprintf("host%d", i), 0); distinct numbers give distinct addresses (Uris.NodeUriInjective) |
| Uris.UriLessStrictTotalOrder | test/cluster.go:189 | the node-set order is irreflexive, transitive, total and asymmetric |
| Uris.SortSortsAndPermutes | test/cluster.go:189 | sorting yields a sorted permutation of the node set |
| Uris.SortedUnique | test/cluster.go:189 | two sorted permutations of one multiset are equal, so an unstable sort.Sort has a single result |
| Uris.SortIgnoresArrivalOrder | test/cluster.go:188-189 | the sorted node set depends only on which addresses were added, not on their order |
| Uris.SortedHeadIsMinimum | test/cluster.go:210 | nothing in a sorted node set orders before its head |
| Uris.NatToStringInjective | test/cluster.go:185 | distinct node numbers are written as distinct decimal strings |
| Uris.NodeUriInjective | test/cluster.go:185 | distinct node numbers get distinct addresses `http://host<i>:0` |
| Uris.HostUrisDistinct | test/cluster.go:30-33 | the addresses of nodes 0 .. n-1 are pairwise distinct |
| Uris.HostZeroFirst | test/cluster.go:185 | host0 orders before every other host<k> |
| Uris.SortedHostsStartWithHostZero | test/cluster.go:210 | any sorted arrangement of the addresses of nodes 0 .. n-1 is duplicate-free and has host0 at its head |
| Uris.IndexOf | test/cluster.go:132-139 | the first position holding the address; None exactly when no node has it |
| Harness.AddAllIfAbsentMembers | test/cluster.go:214-218 | saving a topology adds exactly the node set's addresses, and a duplicate-free list stays duplicate-free |
| Harness.AddAllDistinctCopies | test/cluster.go:214-218 | saving a duplicate-free node set into an empty node list copies it in order |
| Harness.Cluster.constructor | test/cluster.go:202-206 | a new record: one replica, the mod hasher, no nodes, no fragments |
| Harness.Cluster.AddNode | test/cluster.go:216 | the node list gains the address unless it already has it |
| Harness.Cluster.MergeClusterStatus | test/cluster.go:292 | the record adopts the broadcast state and node list |
| Harness.NewCluster | test/cluster.go:17-37 | a fresh record whose nodes are host0 .. host<n-1> in order (none for n <= 0), one replica, the mod hasher |
| Harness.NewNodeCluster | test/cluster.go:197-218 | the per-node record: given address, the node set's head as coordinator, and the node set saved in order when saveTopology |
| Harness.HostNodeSetShape | test/cluster.go:185-189 | the node set of nodes 0 .. n-1 has n addresses, none twice, host0 first |
| Harness.SavedHostNodeSet | test/cluster.go:214-218 | saving that node set into a new record copies it exactly |
| Harness.JoinHostNodeSet | test/cluster.go:185-189 | adding host<n> to the node set of nodes 0 .. n-1 and sorting yields the node set of nodes 0 .. n, host0 still at its head |
| Harness.CoordinatorIsSmallest | test/cluster.go:188-210 | the coordinator taken from the re-sorted node set is its smallest address |
| Harness.JoinConforms | test/cluster.go:183-224 | the harness invariant (node k at host<k>, node set sorted, host0 coordinator everywhere) survives adding node len(Clusters) |
| Harness.TestCluster.ConsistentIsValid | test/cluster.go:221 | under the invariant no cluster record appears twice in Clusters |
| Harness.TestCluster.constructor | test/cluster.go:227-241 | NewTestCluster(n): max(n, 0) nodes, each a new record and none twice, the invariant holds, the node set is that of nodes 0 .. n-1, no channel, nothing sent |
| Harness.TestCluster.JoinNodeSet | test/cluster.go:188-189 | the node set becomes the sorted old set plus the address |
| Harness.TestCluster.AppendCluster | test/cluster.go:221 | Clusters grows by the record at its end; the earlier addresses and coordinators are unchanged |
| Harness.TestCluster.AddCluster | test/cluster.go:183-224 | the node set is re-sorted with host<i>; on a temp-dir error nothing is appended; otherwise exactly one new record is appended, whose coordinator is the node set's head and whose nodes are the saved node set; from a conforming node set the new set is that of nodes 0 .. i, host0 first |
| Harness.TestCluster.AddNode | test/cluster.go:142-171 | the new node has index len(Clusters); the first node sends no join and makes no channel; a later node's NodeJoin goes to Clusters[0] (host0 under the invariant), its error is returned, the new node holds the state ReceiveEvent left it in, and the resizeDone channel is made exactly when there is no error and that state is not Normal; the invariant is kept |
| Harness.TestCluster.AnnounceJoin | test/cluster.go:151-168 | the NodeJoin for the new node is handed to the first node, which leaves the node in the given state; the channel is made exactly when that succeeds and the node is not Normal |
| Harness.TestCluster.ClusterByURI | test/cluster.go:132-139 | the first record with the address, or null exactly when no record has it |
| Harness.TestCluster.SetState | test/cluster.go:244-248 | every record's state becomes the argument; every other field and every fragment is unchanged; the invariant is kept |
| Harness.TestCluster.SendSync | test/cluster.go:287-300 | a ClusterStatus is merged into every record, the coordinator included; resizeDone is closed only on Normal with a channel present (closing a closed one panics); other messages change nothing; fragments untouched |
| Harness.TestCluster.SendAsync | test/cluster.go:303-305 | returns nil |
| Harness.TestCluster.SendTo | test/cluster.go:308-317 | an instruction is followed with the effect of Migration.Follow and its error dropped (only a panic escapes); a completion reaches the addressed node, or panics when no node has that address; other kinds change nothing |
| Harness.TestCluster.FollowResizeInstruction | test/cluster.go:320-383 | the outcome, the new fragments of every node and the completion sent are exactly those of Migration.Follow on the state before the call; no record's other fields change |
| Harness.TestCluster.CopySources | test/cluster.go:339-373 | the destination's fragments after the loop are those of Migration.RunSources over all sources; it stops with that outcome exactly when a step fails |
| Harness.TestCluster.CopyFromSource | test/cluster.go:340-372 | one iteration has the effect of Migration.CopySource on the destination's fragments |
| Migration.CopySource | test/cluster.go:340-372 | one iteration of the source loop; when it stops, the outcome is never a nil error |
| Migration.RunSources | test/cluster.go:339-373 | a loop that stopped never stopped with a nil error |
| Migration.Follow | test/cluster.go:320-383 | a completion (job, destination, empty error) is sent exactly when the destination exists, the schema applies and every source step succeeds; the call returns nil exactly when that completion reaches a node |
| Migration.CopySourceEffect | test/cluster.go:340-372 | one step touches only its own fragment key; it goes on exactly when the source node is found, has the fragment and no fault strikes; it then leaves the source's bytes in the destination |
| Migration.StoppedIsFinal | test/cluster.go:351-372 | after a failure the remaining sources are not processed |
| Migration.RunningPrefix | test/cluster.go:339-373 | reaching step k without failing means every earlier step succeeded |
| Migration.SchemaFailureTouchesNothing | test/cluster.go:335-337 | a schema that cannot be applied returns its error before any fragment is touched or any completion sent |
| Migration.FirstFailureStops | test/cluster.go:339-373 | the first failing source's error or panic is the result, the destination is as that step left it, and no completion is sent |
| Migration.OnlyDestinationChanges | test/cluster.go:332-373 | every holder but the destination's is unchanged |
| Migration.UntouchedKeyKept | test/cluster.go:339-373 | a fragment that no processed source names is unchanged |
| Migration.StepKeepsOtherKey | test/cluster.go:343-372 | a step leaves every other fragment key unchanged |
| Migration.StepCopies | test/cluster.go:343-372 | a successful step leaves in the destination exactly the bytes the source node exported |
| Migration.CopiedFragmentPersists | test/cluster.go:339-373 | a copied fragment stays byte-equal to its source until a later source names the same fragment |
| Migration.CopiedFragmentSurvivesStep | test/cluster.go:339-373 | the inductive step of that: a later step that names another fragment keeps it |
| Migration.AllStepsCopy | test/cluster.go:339-373 | when every step succeeds, each source on another node that no later source overrides ends byte-equal in the destination |
| Migration.StepFindsSource | test/cluster.go:340-343 | a successful step found its source node |
| Migration.FollowCopiesSources | test/cluster.go:320-383 | after a completed instruction, each source on another node that no later source overrides is byte-equal in the destination to what that node held |
| Migration.FollowKeepsOtherFragments | test/cluster.go:320-383 | a completed or failed instruction leaves every destination fragment that no source names as it was |

## Left out

- `CreateIndex`, `CreateFrame` and `SetBit` (test/cluster.go:87-130): thin loops over holder and frame calls whose behaviour lives in pilosa, which is not part of this model.
- `WriteTopology` (test/cluster.go:174-181): protobuf encoding and a file write.
- `Open` and `Close` (test/cluster.go:251-282): they only call pilosa's `Cluster.Open`, `Holder.Open`, `SetNodeState`, `ListenForJoins` and `Close`.
- `NewURI` and `NewURIFromHostPort` (test/cluster.go:58-71): the URI is built directly as scheme, host and port. pilosa's URI validation and `DecodeURI` are not part of this model, so addresses in messages are already decoded.
- The order pilosa's `NodeSet` is sorted by is not part of this model. The model uses its own strict total order (host, then port, then scheme). The lemmas about the node set depend only on that order being strict and total, and on host0 coming first among `host<i>`.
- Blocking on the `resizeDone` channel (test/cluster.go:165-166) and the goroutine of `SendTo` (test/cluster.go:314) are concurrency. The channel is a three-valued signal (nil, open, closed), and the goroutine's call is recorded at once in `completions`. A nil coordinator, which makes that goroutine panic, is a panic outcome.
- Temporary directories (test/cluster.go:19, 192) and the `bufio` writer/reader pair (test/cluster.go:356-372) are file and buffer I/O:
  - the temp-dir error of `addCluster` (test/cluster.go:192-195) is a parameter of `AddCluster` and `AddNode`;
  - the panic of `NewCluster` when its temporary directory cannot be made (test/cluster.go:19-21) is not modelled, and `NewCluster` always succeeds;
  - the transfer is a direct copy of the fragment's bytes.
- A nil frame or view under the destination holder (test/cluster.go:347-348) is not modelled. Creation either succeeds with an empty fragment or fails with a `CreateFailed` fault.
- Harness.TestCluster.constructor: states each node's address and coordinator and the shared node set. It does not state that each node's own node list equals the node set. `AddCluster` states that per node, when the record is made.
- Harness.TestCluster.AddNode: the model ends where Go blocks on `<-t.resizeDone` (test/cluster.go:166). When Go's `AddNode` returns after a join, the coordinator's Normal broadcast has already closed the channel; the model leaves it Open, and a later `SendSync` closes it. Of what `ReceiveEvent` does, only the new node's resulting state (a parameter) is modelled; its effects on other records are not part of this model.
- Harness.Cluster.constructor: the initial state of a new record comes from `pilosa.NewCluster()`, which is not part of this model. It is assumed to be Starting, that is, not Normal. Only the join decision of `AddNode` reads it, and there it is replaced by the state `ReceiveEvent` leaves.
- Harness.Cluster.AddNode: pilosa's `Cluster.AddNode` is not part of this model. It is assumed to add the address to the node list unless the list already has it. The harness calls it only with the sorted, duplicate-free node set (test/cluster.go:215-217).
- Harness.Cluster.MergeClusterStatus: pilosa's `MergeClusterStatus` is not part of this model. It is assumed to overwrite the record's state and node list with the broadcast ones. The comment at test/cluster.go:290 says the coordinator is excluded, but the loop at test/cluster.go:291-293 visits every record. The model follows the loop, so `SendSync` also merges into `Clusters[0]`. Whether pilosa's method itself skips the coordinator is not modelled.
- Harness.NewCluster: the record's address and coordinator are left at Go's zero URI, and its temporary path is not modelled.
