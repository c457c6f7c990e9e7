/** Client code driving the class through the situations of the source's
    tests. Each method builds its own structure and states what the code, as
    written, yields. Where a test expects ring behaviour over several nodes,
    the method shows the single-cell behaviour instead. */
module Scenarios {
  import opened Wrappers
  import opened Binheap
  import opened DoubleIndexedArray
  import opened Optimized
  import opened Reachability

  /** Inserts `n` into a structure whose state is a cell, which leaves the
      cell holding `n` alone. */
  method InsertIntoCell(heap: BinheapOptimized, n: Node)
    requires heap.tree.Length >= 1 && heap.State() == Cell(heap.tree.Length, heap.State().tree[0])
    modifies heap, heap.tree
    ensures heap.tree == old(heap.tree)
    ensures heap.State() == Cell(heap.tree.Length, Some(n))
  {
    CellIsReachable(heap.tree.Length, heap.State().tree[0]);
    InsertIntoReachable(heap.State(), n);
    var _ := heap.Insert(n);
  }

  /** A fresh structure of `capacity` slots, as the empty cell. */
  method NewCell(capacity: nat) returns (heap: BinheapOptimized)
    requires capacity >= 1
    ensures fresh(heap) && fresh(heap.tree)
    ensures heap.tree.Length == capacity && heap.State() == Cell(capacity, None)
  {
    heap := new BinheapOptimized(capacity);
    NewIsReachable(capacity);
  }

  /** Capacity 1, insert `a` then `b`: slot 0 holds `b`, `a` is no longer
      found and `b` is. */
  method InsertOverflow(a: Node, b: Node) returns (foundA: bool, foundB: bool, slotZero: Option<Node>)
    requires a.key != b.key
    ensures !foundA && foundB && slotZero == Some(b)
  {
    var heap := NewCell(1);
    InsertIntoCell(heap, a);
    InsertIntoCell(heap, b);
    foundA := heap.Get(a.key).1;
    foundB := heap.Get(b.key).1;
    slotZero := heap.tree[0];
  }

  /** Capacity 5, three inserts with distinct keys: only the last key is
      mapped, to slot 0; the first two are not mapped at all. */
  method KeyLookupAfterThreeInserts(n1: Node, n2: Node, n3: Node)
    returns (found1: bool, found2: bool, found3: bool, index3: int)
    requires n1.key != n3.key && n2.key != n3.key
    ensures !found1 && !found2 && found3 && index3 == 0
  {
    var heap := NewCell(5);
    InsertIntoCell(heap, n1);
    InsertIntoCell(heap, n2);
    InsertIntoCell(heap, n3);
    found1 := heap.Get(n1.key).1;
    found2 := heap.Get(n2.key).1;
    found3 := heap.Get(n3.key).1;
    index3 := heap.keyLookup[n3.key];
  }

  /** Capacity 10, the same node inserted three times: the size is 0. */
  method SizeAfterRepeatedInsert(n: Node) returns (size: int)
    ensures size == 0
  {
    var heap := NewCell(10);
    InsertIntoCell(heap, n);
    InsertIntoCell(heap, n);
    InsertIntoCell(heap, n);
    ReachableFacts(heap.State());
    size := heap.CurrentSize();
  }

  /** Capacity 10, one insert: Peek(0) yields the node and Peek(4) fails. */
  method PeekAfterInsert(n: Node) returns (atZero: Result<Option<Node>, Error>, atFour: Result<Option<Node>, Error>)
    ensures atZero == Success(Some(n)) && atFour == Failure(OutOfRange)
  {
    var heap := NewCell(10);
    InsertIntoCell(heap, n);
    ReachableFacts(heap.State());
    atZero := heap.Peek(0);
    atFour := heap.Peek(4);
  }

  /** Capacity 5, two inserts, then swapping slots 0 and 1: MinNode is the
      second node before and nil after, so the two differ, and the stored
      node's key now points at slot 1. */
  method SwapAfterTwoInserts(a: Node, b: Node) returns (before: Option<Node>, after: Option<Node>, indexB: int)
    ensures before == Some(b) && after == None && indexB == 1
  {
    var heap := NewCell(5);
    InsertIntoCell(heap, a);
    InsertIntoCell(heap, b);
    before := heap.MinNode();
    heap.SwapTwoNodes(0, 1);
    after := heap.MinNode();
    indexB := heap.keyLookup[b.key];
  }
}
