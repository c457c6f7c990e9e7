/** What construction followed by any sequence of the exported mutating
    operations (Insert, EvictMinNode, ReAllocate, UpdateNodeTimeout) can
    produce. Because IsFull already holds when a single node is stored, every
    Insert into a non-empty structure evicts that node, and these operations
    never leave the states in which at most slot 0 is occupied and both
    cursors are 0. The structure then behaves as one optional cell, and the
    placement branch of Insert is never taken. The unexported swapTwoNodes
    does leave these states (SwapLeavesReachable). */
module Reachability {
  import opened Wrappers
  import opened Binheap
  import opened DoubleIndexedArray

  /** The state with `slot` in slot 0 of `capacity` slots, every other slot
      nil, both cursors 0, and the stored node's key, if any, mapped to 0. */
  function Cell(capacity: nat, slot: Option<Node>): BinheapState
    requires capacity >= 1
  {
    BinheapState(
      seq(capacity, i => if i == 0 then slot else None), 0, 0,
      if slot.Some? then map[slot.value.key := 0] else map[])
  }

  /** Both cursors are 0, every slot other than 0 is nil, and the key map is
      empty or maps exactly the key of the node in slot 0 to 0. */
  ghost predicate Reachable(h: BinheapState)
  {
    && |h.tree| >= 1 && h.maxIndex == 0 && h.minIndex == 0
    && (forall i :: 1 <= i < |h.tree| ==> h.tree[i].None?)
    && h.keyLookup == if h.tree[0].Some? then map[h.tree[0].value.key := 0] else map[]
  }

  /** A reachable state is determined by its capacity and slot 0. */
  lemma ReachableIsCell(h: BinheapState)
    requires Reachable(h)
    ensures h == Cell(|h.tree|, h.tree[0])
  {
  }

  /** A cell is reachable, holds `slot` in slot 0 and has `capacity` slots. */
  lemma CellIsReachable(capacity: nat, slot: Option<Node>)
    requires capacity >= 1
    ensures Reachable(Cell(capacity, slot))
    ensures Cell(capacity, slot).tree[0] == slot && |Cell(capacity, slot).tree| == capacity
  {
  }

  /** A new structure of at least one slot is the empty cell: empty, not full,
      of size 0, with a nil MinNode. */
  lemma NewIsReachable(maxSize: nat)
    requires maxSize >= 1
    ensures NewBinheapOptimized(maxSize) == Cell(maxSize, None)
    ensures Reachable(NewBinheapOptimized(maxSize))
    ensures NewBinheapOptimized(maxSize).IsEmpty() && !NewBinheapOptimized(maxSize).IsFull()
    ensures NewBinheapOptimized(maxSize).CurrentSize() == 0
    ensures NewBinheapOptimized(maxSize).MinNode() == None
  {
  }

  /** In a reachable state the cursors are in range and the key map is
      linked; exactly one of IsEmpty and IsFull holds; empty means no key is
      mapped; the size is 0, so Peek accepts index 0 only; and eviction is
      possible exactly when the structure is not empty. */
  lemma ReachableFacts(h: BinheapState)
    requires Reachable(h)
    ensures h.InRange() && h.Linked()
    ensures h.IsEmpty() != h.IsFull()
    ensures h.IsEmpty() <==> h.keyLookup == map[]
    ensures h.CurrentSize() == 0
    ensures forall index :: 0 <= index < |h.tree| ==> (h.Peek(index).Success? <==> index == 0)
    ensures h.Peek(0) == Success(h.tree[0])
    ensures h.CanEvict() <==> !h.IsEmpty()
  {
  }

  /** Insert into a reachable state never panics and never takes the
      placement branch. The result stores `n` alone in slot 0, with both
      cursors 0 and only `n`'s key mapped: Get finds `n` by its key and
      nothing by any other, and MinNode is `n`. A node stored before is
      evicted. */
  lemma InsertIntoReachable(h: BinheapState, n: Node)
    requires Reachable(h)
    ensures h.CanInsert(n) && !h.TakesPlacement()
    ensures h.Insert(n) == Cell(|h.tree|, Some(n))
    ensures h.Insert(n).Get(n.key) == (Some(n), true)
    ensures forall k :: k != n.key ==> h.Insert(n).Get(k) == (None, false)
    ensures h.Insert(n).MinNode() == Some(n)
  {
  }

  /** EvictMinNode of a non-empty reachable state returns the node in slot 0
      and leaves the empty cell: all slots nil, cursors 0, no keys. */
  lemma EvictFromReachable(h: BinheapState)
    requires Reachable(h) && !h.IsEmpty()
    ensures h.CanEvict()
    ensures h.EvictMinNode() == (Cell(|h.tree|, None), h.tree[0].value)
    ensures h.EvictMinNode().0.IsEmpty()
  {
    ReachableFacts(h);
    var (g, _) := h.EvictMinNode();
    assert g.tree == Cell(|h.tree|, None).tree;
  }

  /** ReAllocate keeps a state reachable and keeps what it stores. */
  lemma ReAllocateKeepsReachable(h: BinheapState, maxSize: nat)
    requires Reachable(h)
    ensures h.ReAllocate(maxSize) == Cell(|h.tree| + maxSize, h.tree[0])
  {
  }

  /** UpdateNodeTimeout on a reachable state never panics. For the key of the
      stored node it leaves the cell holding that key with timeout `now` and
      returns that node; for any other key it changes nothing and returns
      nil. */
  lemma UpdateInReachable(h: BinheapState, key: string, now: int)
    requires Reachable(h)
    ensures h.CanUpdateNodeTimeout(key, now)
    ensures h.UpdateNodeTimeout(key, now) ==
              if h.tree[0].Some? && h.tree[0].value.key == key then
                (Cell(|h.tree|, Some(Node(key, now))), Some(Node(key, now)))
              else
                (h, None)
  {
    if h.tree[0].Some? && h.tree[0].value.key == key {
      var g := h.UpdateNodeTimeout(key, now).0;
      assert g.tree == Cell(|h.tree|, Some(Node(key, now))).tree;
    }
  }

  /** Swapping slots 0 and 1 of a cell of five slots holding `a` moves `a` to
      slot 1 and leaves slot 0 nil under both cursors, which is not
      reachable: the next Insert of `c` then stores `a` and `c` together. */
  lemma SwapLeavesReachable(a: Node, c: Node)
    requires a.key != c.key
    ensures var h := Cell(5, Some(a)).SwapTwoNodes(0, 1);
            && !Reachable(h) && h.IsEmpty() && h.CanInsert(c)
            && h.Insert(c).tree[0] == Some(c) && h.Insert(c).tree[1] == Some(a)
            && h.Insert(c).Get(a.key) == (Some(a), true) && h.Insert(c).Get(c.key) == (Some(c), true)
  {
  }

  /** The operations a caller can issue. */
  datatype Op = InsertOp(node: Node) | EvictOp | ReAllocateOp(size: nat) | UpdateOp(key: string, now: int)

  /** Applies `ops` in order; None when one of them would panic. */
  function Run(h: BinheapState, ops: seq<Op>): Option<BinheapState>
    decreases |ops|
  {
    if ops == [] then Some(h)
    else match ops[0]
      case InsertOp(n) => if h.CanInsert(n) then Run(h.Insert(n), ops[1..]) else None
      case EvictOp => if h.CanEvict() then Run(h.EvictMinNode().0, ops[1..]) else None
      case ReAllocateOp(size) => Run(h.ReAllocate(size), ops[1..])
      case UpdateOp(key, now) =>
        if h.CanUpdateNodeTimeout(key, now) then Run(h.UpdateNodeTimeout(key, now).0, ops[1..]) else None
  }

  /** A single optional slot in a structure of `capacity` slots. */
  datatype Slot = Slot(capacity: nat, content: Option<Node>)

  /** The single slot under `ops`: Insert replaces its content, Evict empties
      it and fails when it is already empty, ReAllocate adds capacity, and
      Update gives the content timeout `now` when it has the key. The capacity
      never shrinks. */
  function CellRun(s: Slot, ops: seq<Op>): (r: Option<Slot>)
    ensures r.Some? ==> r.value.capacity >= s.capacity
    decreases |ops|
  {
    if ops == [] then Some(s)
    else match ops[0]
      case InsertOp(n) => CellRun(s.(content := Some(n)), ops[1..])
      case EvictOp => if s.content.Some? then CellRun(s.(content := None), ops[1..]) else None
      case ReAllocateOp(size) => CellRun(s.(capacity := s.capacity + size), ops[1..])
      case UpdateOp(key, now) =>
        if s.content.Some? && s.content.value.key == key then CellRun(s.(content := Some(Node(key, now))), ops[1..])
        else CellRun(s, ops[1..])
  }

  /** The cell a CellRun outcome stands for. */
  function AsState(r: Option<Slot>): Option<BinheapState>
    requires r.Some? ==> r.value.capacity >= 1
  {
    match r
    case None => None
    case Some(s) => Some(Cell(s.capacity, s.content))
  }

  /** From a reachable state, any sequence of the exported mutating
      operations behaves exactly as the single slot: it fails only by
      evicting an empty structure, and otherwise ends in the cell of the
      slot's capacity holding what the slot holds. */
  lemma {:induction false} RunRefinesCell(h: BinheapState, ops: seq<Op>)
    requires Reachable(h)
    ensures Run(h, ops) == AsState(CellRun(Slot(|h.tree|, h.tree[0]), ops))
    decreases |ops|
  {
    if ops == [] {
      ReachableIsCell(h);
    } else {
      match ops[0]
      case InsertOp(n) =>
        InsertIntoReachable(h, n);
        CellIsReachable(|h.tree|, Some(n));
        RunRefinesCell(h.Insert(n), ops[1..]);
      case EvictOp =>
        ReachableFacts(h);
        if h.tree[0].Some? {
          EvictFromReachable(h);
          CellIsReachable(|h.tree|, None);
          RunRefinesCell(h.EvictMinNode().0, ops[1..]);
        }
      case ReAllocateOp(size) =>
        ReAllocateKeepsReachable(h, size);
        CellIsReachable(|h.tree| + size, h.tree[0]);
        RunRefinesCell(h.ReAllocate(size), ops[1..]);
      case UpdateOp(key, now) =>
        UpdateInReachable(h, key, now);
        if h.tree[0].Some? && h.tree[0].value.key == key {
          CellIsReachable(|h.tree|, Some(Node(key, now)));
          RunRefinesCell(h.UpdateNodeTimeout(key, now).0, ops[1..]);
        } else {
          RunRefinesCell(h, ops[1..]);
        }
    }
  }

  /** After construction and any sequence of Insert, EvictMinNode, ReAllocate
      and UpdateNodeTimeout that does not panic, the state is reachable:
      cursors 0, only slot 0 possibly occupied, the key map empty or holding
      exactly slot 0's key, and exactly one of IsEmpty and IsFull. The
      sequence panics exactly when the single slot's run fails; the slice has
      the slot's capacity, and slot 0 holds the node of the last Insert not
      followed by an eviction, with the timeout of its last update. */
  lemma {:induction false} FromConstruction(maxSize: nat, ops: seq<Op>)
    requires maxSize >= 1
    ensures Run(NewBinheapOptimized(maxSize), ops).None? <==> CellRun(Slot(maxSize, None), ops).None?
    ensures Run(NewBinheapOptimized(maxSize), ops).Some? ==>
              var h := Run(NewBinheapOptimized(maxSize), ops).value;
              && Reachable(h)
              && |h.tree| == CellRun(Slot(maxSize, None), ops).value.capacity
              && h.tree[0] == CellRun(Slot(maxSize, None), ops).value.content
              && h.IsEmpty() != h.IsFull()
  {
    NewIsReachable(maxSize);
    RunRefinesCell(NewBinheapOptimized(maxSize), ops);
    if CellRun(Slot(maxSize, None), ops).Some? {
      var s := CellRun(Slot(maxSize, None), ops).value;
      CellIsReachable(s.capacity, s.content);
      ReachableFacts(Cell(s.capacity, s.content));
    }
  }
}
