# BinheapOptimized: a fixed-capacity slot array with two cursors and a key map

This project models `BinheapOptimized` from package `binheapv2`. The structure
stores timed entries (`Node`: a key and a timeout) in a slice of slots. It
keeps two cursors, `maxIndex` and `minIndex`, and a map from each stored key to
its slot. The operations are:

- `Insert` places a node, evicting the node under `minIndex` first when the
  structure is "full".
- `EvictMinNode` clears the slot under `minIndex`.
- `Peek`, `Get`, `MinNode`, `CurrentSize`, `IsEmpty` and `IsFull` are reads.
- `swapTwoNodes` exchanges two slots and keeps the map in step.
- `Copy` duplicates the structure, `ReAllocate` appends empty slots, and
  `UpdateNodeTimeout` refreshes one node's timeout.
- `safeIndex` steps an index around the ring and `compareTimeouts` orders
  instants.

The behaviour modelled is that of the code as written. `IsFull` holds as soon as
the two cursors meet on an occupied slot, and that is already true with a
single stored node. So every `Insert` into a non-empty structure evicts the
stored node and puts the new one in slot 0. From construction, the exported
mutating operations (`Insert`, `EvictMinNode`, `ReAllocate` and
`UpdateNodeTimeout`) never leave the structure holding more than one node, and
the placement branch of `Insert` is never taken. The main verified result is
`Reachability.RunRefinesCell`: from construction, any sequence of these four
operations behaves exactly like one optional cell whose capacity only grows.
The unexported `swapTwoNodes` does leave these states: after swapping slot 0
of a one-node structure with slot 1, the next `Insert` stores two nodes
(`Reachability.SwapLeavesReachable`).

Layout:

- `node.dfy`, module `Binheap`: the entry type (the `binheap` package is not
  part of this model; only its two fields are used).
- `wrappers.dfy`, module `Wrappers`: `Option` for nil-able pointers and
  `Result` for `(value, error)` returns.
- `double_indexed_array.dfy`, module `DoubleIndexedArray`: `safeIndex`,
  `compareTimeouts`, and the whole state as a value, `BinheapState`. It has one
  function per operation and lemmas about single operations.
- `binheap_optimized.dfy`, module `Optimized`: the class `BinheapOptimized`.
  It holds an `array` of slots, the two cursors and a `map` field. Each
  mutating method is proved to move `State()` from `old(State())` to the value
  the matching `BinheapState` function computes. Each read is proved equal to
  its `BinheapState` counterpart.
- `reachability.dfy`, module `Reachability`: the states reachable from
  construction, and the proof that they behave as a single cell.
- `scenarios.dfy`, module `Scenarios`: client methods that drive the class
  through the situations of the source's tests. Where a test expects
  several nodes, the method states what the code does instead.

Go runtime panics (a nil dereference, an index out of range, or a `%` by zero)
are preconditions: `CanInsert`, `CanEvict`, `CanPlace`, `CanUpdateNodeTimeout`
and the `requires` clauses of the reads. Each asks only for the slots and
cursors the operation actually reads. For example, `Insert` reads a slot
through `IsEmpty` and `IsFull` only when the cursors coincide, and then reads
the slot under `maxIndex` and steps from `minIndex` or `maxIndex`. So `CanInsert`
does not ask for `minIndex` to be inside the slice when the cursors differ
(`DoubleIndexedArray.InsertIgnoresStrayMinIndex`). `time.Time` is an integer
timestamp. The instant `UpdateNodeTimeout` reads from the clock is a parameter
`now`.

## Behaviour of the code worth noting

- `Peek` fails only when the index is greater than `CurrentSize()`
  (double_indexed_array.go:128). An index equal to the size is accepted
  (`DoubleIndexedArray.BinheapState.Peek`).
- `evictMinNodeLockless` reads `minNode.Key` after taking the slot under
  `minIndex` (double_indexed_array.go:112-121). On an empty structure that
  slot is nil and the read panics. The model therefore requires a node under
  `minIndex` (`CanEvict`) and has no absent result.
- `ReAllocate(n)` appends `n` nil slots with `append`
  (double_indexed_array.go:145). It does not resize to `n`
  (`DoubleIndexedArray.BinheapState.ReAllocate`).
- `CurrentSize` is the formula of double_indexed_array.go:185-194:
  `maxIndex - minIndex`, or `maxIndex + 1 + cap` when wrapped. One stored node
  therefore has size 0, and the wrapped value exceeds the capacity
  (`DoubleIndexedArray.BinheapState.CurrentSize`).
- `safeIndex` wraps forward only when `i + 1 > cap`
  (double_indexed_array.go:228). So the last slot steps to `cap`, one past the
  end (`DoubleIndexedArray.SafeIndexSteps`,
  `DoubleIndexedArray.SafeIndexIncrementInRange`).
- Several test expectations need more than one stored node, so the code as
  written cannot meet them: the slots 2, 1, 0 of three keys
  (binheap_optimized_test.go:212-239); the slot of each of 24 keys, and the
  slots shifting after an eviction and after an insertion
  (binheap_optimized_test.go:241-336); and a size of 3 after three inserts
  (binheap_optimized_test.go:416-428). The code keeps at most one node
  (`Reachability.FromConstruction`, `Scenarios.KeyLookupAfterThreeInserts`,
  `Scenarios.SizeAfterRepeatedInsert`).

## Model

| member | source | states |
|---|---|---|
| `DoubleIndexedArray.SafeIndex` | binheap/binheapv2/double_indexed_array.go:225-241 | for 0 ≤ i < cap, the forward step is i+1 (so cap-1 steps to cap, out of range) and the backward step is the circular predecessor (i-1) mod cap, in range; a forward step past the capacity wraps into range |
| `DoubleIndexedArray.SafeIndexSteps` | binheap/binheapv2/double_indexed_array.go:225-241 | forward then back returns to i; back then forward returns to i for i ≥ 1, but from slot 0 ends at cap, outside the slice |
| `DoubleIndexedArray.SafeIndexIncrementInRange` | binheap/binheapv2/double_indexed_array.go:226-232 | the forward step stays inside the slice exactly when i is not the last slot |
| `DoubleIndexedArray.CompareTimeoutsIsStrictOrder` | binheap/binheapv2/double_indexed_array.go:221-223 | "strictly later than" is irreflexive, asymmetric, transitive and total on distinct instants |
| `DoubleIndexedArray.NewBinheapOptimized` | binheap/binheapv2/double_indexed_array.go:25-32 | a new structure has maxSize nil slots, both cursors 0 and an empty key map |
| `DoubleIndexedArray.CompareTimeouts` | binheap/binheapv2/double_indexed_array.go:221-223 | true exactly when the first instant is strictly later than the second |
| `DoubleIndexedArray.BinheapState.MinNode` | binheap/binheapv2/double_indexed_array.go:55-57 | nil exactly when the slot under maxIndex is nil; on a linked state the key of the node there maps back to maxIndex |
| `DoubleIndexedArray.BinheapState.CurrentSize` | binheap/binheapv2/double_indexed_array.go:183-195 | 0 when the slot under maxIndex is nil and whenever the cursors coincide, so also for one stored node; the wrapped formula exceeds the capacity; the unwrapped one lies in [0, cap) |
| `DoubleIndexedArray.BinheapState.IsEmpty` | binheap/binheapv2/double_indexed_array.go:134-136 | an empty structure is not full, has size 0 and a nil MinNode |
| `DoubleIndexedArray.BinheapState.IsFull` | binheap/binheapv2/double_indexed_array.go:138-140 | a full structure, which includes one holding a single node, has size 0 and a MinNode |
| `DoubleIndexedArray.BinheapState.Get` | binheap/binheapv2/double_indexed_array.go:175-181 | found exactly for mapped keys; nil for unmapped ones; on a linked state the node found carries the key |
| `DoubleIndexedArray.GetOnLinked` | binheap/binheapv2/double_indexed_array.go:175-181 | on a linked state, Get reports found exactly when some slot holds a node with that key |
| `DoubleIndexedArray.BinheapState.Peek` | binheap/binheapv2/double_indexed_array.go:127-132 | fails exactly when index > CurrentSize(), so the index equal to the size is accepted; otherwise yields the raw slot |
| `DoubleIndexedArray.BinheapState.CompareTwoTimes` | binheap/binheapv2/double_indexed_array.go:201-203 | true exactly when slot i's node expires strictly after slot j's; never for i = j and never in both directions |
| `DoubleIndexedArray.BinheapState.InsertAtIndexZero` | binheap/binheapv2/double_indexed_array.go:94-101 | slot 0 holds the node, both cursors are 0, its key maps to 0, other slots and keys stay; the result is full, the node is its MinNode and Get finds it |
| `DoubleIndexedArray.BinheapState.EvictMinNode` | binheap/binheapv2/double_indexed_array.go:111-124 | returns the node under minIndex, clears that slot, unmaps its key, keeps maxIndex and every other slot, sets minIndex to 0 if the cursors coincided and one forward step otherwise; a linked map stays linked |
| `DoubleIndexedArray.BinheapState.PlacementIndex` | binheap/binheapv2/double_indexed_array.go:78-85 | the backward step from an in-range minIndex is in range; the forward step from maxIndex is in range exactly when maxIndex is not the last slot |
| `DoubleIndexedArray.BinheapState.Place` | binheap/binheapv2/double_indexed_array.go:78-88 | the node goes into the chosen slot and its key maps there; a node expiring before the one under maxIndex moves minIndex, any other moves maxIndex, the other cursor stays; Get finds the node |
| `DoubleIndexedArray.BinheapState.Insert` | binheap/binheapv2/double_indexed_array.go:59-92 | the capacity stays and Get finds the node afterwards; outside the placement branch the node sits in slot 0 under both cursors; inserting into a full structure unmaps the node under minIndex unless it has the new key |
| `DoubleIndexedArray.InsertIgnoresStrayMinIndex` | binheap/binheapv2/double_indexed_array.go:59-85 | with the cursors apart, Insert can run and appends after maxIndex although minIndex lies outside the slice, so CanInsert does not require minIndex in range |
| `DoubleIndexedArray.BinheapState.SwapTwoNodes` | binheap/binheapv2/double_indexed_array.go:208-219 | the two slots exchange contents; other slots and both cursors stay; a linked map stays linked |
| `DoubleIndexedArray.SwapTwiceRestores` | binheap/binheapv2/double_indexed_array.go:208-219 | swapping the same two slots of a linked state twice restores it |
| `DoubleIndexedArray.SwapKeyLookup` | binheap/binheapv2/double_indexed_array.go:211-216 | on a linked state, the key stored in slot j moves to i, the key in slot i moves to j, and every other key keeps its slot |
| `DoubleIndexedArray.BinheapState.UpdateNodeTimeout` | binheap/binheapv2/double_indexed_array.go:149-171 | an unmapped key changes nothing and yields nil; a mapped key's node gets timeout `now` in its slot and is returned; slots, cursors and the key map otherwise stay; a linked state stays linked and the returned node carries the key |
| `DoubleIndexedArray.BinheapState.ReAllocate` | binheap/binheapv2/double_indexed_array.go:143-146 | ReAllocate(n) adds n nil slots at the end; existing slots, cursors and key map stay; a linked map stays linked |
| `Optimized.BinheapOptimized.constructor` | binheap/binheapv2/double_indexed_array.go:25-32 | the new object's state is that of NewBinheapOptimized(maxSize), in a fresh array |
| `Optimized.BinheapOptimized.Copy` | binheap/binheapv2/double_indexed_array.go:34-53 | the copy is a fresh object with a fresh array and the same slots, key map and cursors; the original is not modified |
| `Optimized.BinheapOptimized.MinNode` | binheap/binheapv2/double_indexed_array.go:55-57 | the slot under maxIndex, equal to the value model's MinNode |
| `Optimized.BinheapOptimized.Insert` | binheap/binheapv2/double_indexed_array.go:59-92 | the new state is BinheapState.Insert of the old one, in the same array, and the inserted node is returned |
| `Optimized.BinheapOptimized.InsertAtIndexZero` | binheap/binheapv2/double_indexed_array.go:94-101 | slot 0 holds the node, both cursors are 0 and its key maps to 0; the node is returned |
| `Optimized.BinheapOptimized.EvictMinNode` | binheap/binheapv2/double_indexed_array.go:103-109 | state and returned node are those of BinheapState.EvictMinNode |
| `Optimized.BinheapOptimized.EvictMinNodeLockless` | binheap/binheapv2/double_indexed_array.go:111-124 | state and returned node are those of BinheapState.EvictMinNode |
| `Optimized.BinheapOptimized.Peek` | binheap/binheapv2/double_indexed_array.go:127-132 | equal to the value model's Peek on the object's state |
| `Optimized.BinheapOptimized.IsEmpty` | binheap/binheapv2/double_indexed_array.go:134-136 | equal to the value model's IsEmpty on the object's state |
| `Optimized.BinheapOptimized.IsFull` | binheap/binheapv2/double_indexed_array.go:138-140 | equal to the value model's IsFull on the object's state |
| `Optimized.BinheapOptimized.ReAllocate` | binheap/binheapv2/double_indexed_array.go:143-146 | the object's state afterwards is BinheapState.ReAllocate of the old one, in a fresh array |
| `Optimized.BinheapOptimized.UpdateNodeTimeout` | binheap/binheapv2/double_indexed_array.go:149-171 | state and returned node are those of BinheapState.UpdateNodeTimeout with the given `now` |
| `Optimized.BinheapOptimized.Get` | binheap/binheapv2/double_indexed_array.go:175-181 | equal to the value model's Get on the object's state |
| `Optimized.BinheapOptimized.CurrentSize` | binheap/binheapv2/double_indexed_array.go:183-195 | equal to the value model's CurrentSize on the object's state |
| `Optimized.BinheapOptimized.CompareTwoTimes` | binheap/binheapv2/double_indexed_array.go:201-203 | equal to the value model's comparison of the two slots' timeouts |
| `Optimized.BinheapOptimized.SwapTwoNodes` | binheap/binheapv2/double_indexed_array.go:208-219 | the object's state afterwards is BinheapState.SwapTwoNodes of the old one, in the same array |
| `Reachability.ReachableIsCell` | binheap/binheapv2/double_indexed_array.go:17-23 | a reachable state is determined by its capacity and the content of slot 0 |
| `Reachability.NewIsReachable` | binheap/binheapv2/double_indexed_array.go:25-32 | a new structure of at least one slot is the empty cell: empty, not full, size 0, MinNode nil |
| `Reachability.ReachableFacts` | binheap/binheapv2/double_indexed_array.go:134-140 | in a reachable state the cursors are in range, the map is linked, exactly one of IsEmpty and IsFull holds, empty means no key mapped, the size is 0, Peek accepts only index 0, and eviction is possible exactly when not empty |
| `Reachability.InsertIntoReachable` | binheap/binheapv2/double_indexed_array.go:59-76 | Insert into a reachable state never panics and never takes the placement branch (lines 78-88); afterwards the node is alone in slot 0, Get finds it by its key and nothing by any other key, and MinNode is the node |
| `Reachability.EvictFromReachable` | binheap/binheapv2/double_indexed_array.go:111-124 | evicting from a non-empty reachable state returns the node in slot 0 and leaves the empty cell |
| `Reachability.ReAllocateKeepsReachable` | binheap/binheapv2/double_indexed_array.go:143-146 | growing a reachable state gives the cell of the larger capacity holding the same slot 0 |
| `Reachability.UpdateInReachable` | binheap/binheapv2/double_indexed_array.go:149-171 | UpdateNodeTimeout on a reachable state never panics; for the stored node's key it leaves the cell holding that key with timeout `now` and returns it; for any other key nothing changes and nil is returned |
| `Reachability.SwapLeavesReachable` | binheap/binheapv2/double_indexed_array.go:208-219 | swapping slots 0 and 1 of a one-node cell leaves a state that is not reachable and empty, after which one Insert stores two nodes, both found by key |
| `Reachability.RunRefinesCell` | binheap/binheapv2/double_indexed_array.go:59-171 | from a reachable state, any sequence of Insert, EvictMinNode, ReAllocate and UpdateNodeTimeout ends exactly as a single optional slot with a growing capacity would: it fails only on evicting an empty structure, and otherwise ends in the cell of the slot's capacity holding the slot's content |
| `Reachability.FromConstruction` | binheap/binheapv2/double_indexed_array.go:25-171 | after construction and any sequence of those four operations that does not panic, the cursors are 0, only slot 0 may be occupied, the map is empty or holds exactly slot 0's key, exactly one of IsEmpty and IsFull holds, the capacity is the slot's and slot 0 holds the last inserted node not evicted since, with its last updated timeout |
| `Scenarios.InsertOverflow` | binheap/binheapv2/binheap_optimized_test.go:140-161 | capacity 1, insert a then b: slot 0 holds b, a's key is not found, b's is |
| `Scenarios.KeyLookupAfterThreeInserts` | binheap/binheapv2/binheap_optimized_test.go:212-239 | capacity 5, three inserts with distinct keys: only the last key is mapped, to slot 0, so the indices 2 and 1 that the test expects for the first two keys do not happen |
| `Scenarios.SizeAfterRepeatedInsert` | binheap/binheapv2/binheap_optimized_test.go:416-428 | capacity 10, the same node inserted three times: CurrentSize is 0, not the 3 the test expects |
| `Scenarios.PeekAfterInsert` | binheap/binheapv2/binheap_optimized_test.go:61-87 | capacity 10, one insert: Peek(0) yields the node and Peek(4) fails with OutOfRange |
| `Scenarios.SwapAfterTwoInserts` | binheap/binheapv2/binheap_optimized_test.go:188-210 | capacity 5, two inserts, swap of slots 0 and 1: MinNode changes from the second node to nil, and that node's key now maps to slot 1 |

## Left out

- Locking: the embedded `sync.Mutex` and every `Lock`/`Unlock` are left out. The methods run sequentially. The unlocked reads race with the writers, which belongs to concurrency and is not modelled. The early `return nil` in `UpdateNodeTimeout` (double_indexed_array.go:152-153) returns without `Unlock`, so the mutex stays locked. This is a defect of the source and is not modelled.
- The clock: `time.Now().UTC()` in `UpdateNodeTimeout` becomes the parameter `now`.
- Time representation: `time.Time` is an integer timestamp, and `compareTimeouts` is strict `>` on it. Nanosecond precision and time zones are not modelled.
- The `binheap` package (`Node`, `NewNode`) is not part of this model. `Node` is a value with a key and a timeout.
- Pointer aliasing of nodes: `Copy` shares the node objects between the two structures. `UpdateNodeTimeout` changes the shared node in place, so the change is visible through both structures. In this model nodes are values: the copy has equal slots, and an update replaces the slot in one structure only.
- Slice capacity versus length: the capacity `cap(d.Tree)` is modelled as the slice length. Go's `append` may grow the capacity beyond the length and may reuse the backing array. `ReAllocate` here always allocates a fresh array of exactly the new length.
- Go runtime panics are preconditions, not outcomes. Evicting from an empty structure, a placement index outside the slice during `Insert`, a negative or too-large `Peek` index, and the nil or out-of-range neighbours read by `UpdateNodeTimeout`'s comparisons all panic in the source and are excluded by `requires`. `Reachability.Run` reports such a panic as `None`.
- Error text: `Peek`'s `fmt.Errorf` message is the tag `OutOfRange`.
- Percolation: the commented-out percolate-up and percolate-down calls in `UpdateNodeTimeout` do nothing, and none is invented. The two neighbour comparisons are evaluated, but their branches are empty.
