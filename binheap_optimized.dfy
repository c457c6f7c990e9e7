/** `BinheapOptimized` as an object: the slot slice is an array of optional
    nodes, the cursors are integer fields and the key-to-slot map is a map
    field that the methods reassign. Every method is proved to take the object
    from the value `old(State())` to the value the corresponding function of
    module DoubleIndexedArray computes; the properties of those functions are
    proved there and in module Reachability. The mutex is left out, so every
    method runs sequentially. */
module Optimized {
  import opened Wrappers
  import opened Binheap
  import opened DoubleIndexedArray

  class BinheapOptimized {
    var tree: array<Option<Node>>
    var maxIndex: int
    var minIndex: int
    var keyLookup: map<string, int>

    /** The object's fields as a value. */
    ghost function State(): BinheapState
      reads this, tree
    {
      BinheapState(tree[..], maxIndex, minIndex, keyLookup)
    }

    /** NewBinheapOptimized: `maxSize` nil slots, cursors at 0, no keys. */
    constructor (maxSize: nat)
      ensures fresh(tree)
      ensures State() == NewBinheapOptimized(maxSize)
    {
      tree := new Option<Node>[maxSize](_ => None);
      maxIndex, minIndex := 0, 0;
      keyLookup := map[];
    }

    /** A new structure with its own array and map holding the same slots, keys
        and cursors; this structure is not changed. */
    method Copy() returns (newStorage: BinheapOptimized)
      ensures fresh(newStorage) && fresh(newStorage.tree)
      ensures newStorage.State() == State()
    {
      newStorage := new BinheapOptimized(tree.Length);
      var index := 0;
      while index < tree.Length
        invariant 0 <= index <= tree.Length == newStorage.tree.Length
        invariant newStorage.tree[..index] == tree[..index]
        modifies newStorage.tree
      {
        newStorage.tree[index] := tree[index];
        index := index + 1;
      }
      assert newStorage.tree[..] == tree[..];
      var pending := keyLookup.Keys;
      while pending != {}
        invariant pending <= keyLookup.Keys
        invariant newStorage.keyLookup.Keys == keyLookup.Keys - pending
        invariant forall k :: k in newStorage.keyLookup ==> newStorage.keyLookup[k] == keyLookup[k]
        decreases pending
        modifies newStorage`keyLookup
      {
        var k :| k in pending;
        newStorage.keyLookup := newStorage.keyLookup[k := keyLookup[k]];
        pending := pending - {k};
      }
      newStorage.maxIndex := maxIndex;
      newStorage.minIndex := minIndex;
    }

    /** The slot under `maxIndex`. */
    function MinNode(): (r: Option<Node>)
      reads this, tree
      requires 0 <= maxIndex < tree.Length
      ensures r == State().MinNode()
    {
      tree[maxIndex]
    }

    /** The cursors coincide on a nil slot. */
    predicate IsEmpty()
      reads this, tree
      requires maxIndex == minIndex ==> 0 <= maxIndex < tree.Length
      ensures IsEmpty() == State().IsEmpty()
    {
      maxIndex == minIndex && tree[maxIndex].None?
    }

    /** The cursors coincide on an occupied slot. */
    predicate IsFull()
      reads this, tree
      requires maxIndex == minIndex ==> 0 <= maxIndex < tree.Length
      ensures IsFull() == State().IsFull()
    {
      maxIndex == minIndex && tree[maxIndex].Some? && tree[minIndex].Some?
    }

    /** The size by the source's formula. */
    function CurrentSize(): (size: int)
      reads this, tree
      requires 0 <= maxIndex < tree.Length
      ensures size == State().CurrentSize()
    {
      if tree[maxIndex].Some? then
        if maxIndex < minIndex then maxIndex + 1 + tree.Length else maxIndex - minIndex
      else
        0
    }

    /** The node stored for `key` and whether the key is mapped. */
    function Get(key: string): (r: (Option<Node>, bool))
      reads this, tree
      requires key in keyLookup ==> 0 <= keyLookup[key] < tree.Length
      ensures r == State().Get(key)
    {
      if key in keyLookup then (tree[keyLookup[key]], true) else (None, false)
    }

    /** The raw slot at `index`, or OutOfRange above the size. */
    function Peek(index: int): (r: Result<Option<Node>, Error>)
      reads this, tree
      requires 0 <= maxIndex < tree.Length
      requires index <= CurrentSize() ==> 0 <= index < tree.Length
      ensures r == State().Peek(index)
    {
      if index > CurrentSize() then Failure(OutOfRange) else Success(tree[index])
    }

    /** Whether the node in slot `i` expires strictly after the one in slot `j`. */
    function CompareTwoTimes(i: int, j: int): (after: bool)
      reads this, tree
      requires 0 <= i < tree.Length && 0 <= j < tree.Length && tree[i].Some? && tree[j].Some?
      ensures after == State().CompareTwoTimes(i, j)
    {
      CompareTimeouts(tree[i].value.timeout, tree[j].value.timeout)
    }

    /** Inserts `newNode`, evicting first when the structure is full, and
        returns it. */
    method Insert(newNode: Node) returns (r: Node)
      requires State().CanInsert(newNode)
      modifies this, tree
      ensures tree == old(tree)
      ensures State() == old(State()).Insert(newNode)
      ensures r == newNode
    {
      if IsEmpty() {
        r := InsertAtIndexZero(newNode);
        return;
      } else if IsFull() {
        var _ := EvictMinNodeLockless();
        if IsEmpty() {
          r := InsertAtIndexZero(newNode);
          return;
        }
      }
      var nextIndex := 0;
      if CompareTimeouts(tree[maxIndex].value.timeout, newNode.timeout) {
        nextIndex := SafeIndex(tree.Length, minIndex, Decrement);
        minIndex := nextIndex;
      } else {
        nextIndex := SafeIndex(tree.Length, maxIndex, Increment);
        maxIndex := nextIndex;
      }
      tree[nextIndex] := Some(newNode);
      keyLookup := keyLookup[newNode.key := nextIndex];
      r := newNode;
    }

    /** Stores `newNode` in slot 0, points both cursors at it and maps its key. */
    method InsertAtIndexZero(newNode: Node) returns (r: Node)
      requires tree.Length >= 1
      modifies this, tree
      ensures tree == old(tree)
      ensures State() == old(State()).InsertAtIndexZero(newNode)
      ensures r == newNode
    {
      tree[0] := Some(newNode);
      maxIndex := 0;
      minIndex := 0;
      keyLookup := keyLookup[newNode.key := 0];
      r := newNode;
    }

    /** Evicts and returns the node under `minIndex`. */
    method EvictMinNode() returns (minNode: Node)
      requires State().CanEvict()
      modifies this, tree
      ensures tree == old(tree)
      ensures (State(), minNode) == old(State()).EvictMinNode()
    {
      minNode := EvictMinNodeLockless();
    }

    /** The body of EvictMinNode, also used by Insert. */
    method EvictMinNodeLockless() returns (minNode: Node)
      requires State().CanEvict()
      modifies this, tree
      ensures tree == old(tree)
      ensures (State(), minNode) == old(State()).EvictMinNode()
    {
      minNode := tree[minIndex].value;
      tree[minIndex] := None;
      var nextIndex := 0;
      if !IsEmpty() {
        nextIndex := SafeIndex(tree.Length, minIndex, Increment);
      }
      minIndex := nextIndex;
      keyLookup := keyLookup - {minNode.key};
    }

    /** Appends `maxSize` nil slots; the slots already there keep their place. */
    method ReAllocate(maxSize: nat)
      modifies this
      ensures fresh(tree)
      ensures State() == old(State()).ReAllocate(maxSize)
    {
      var grown := new Option<Node>[tree.Length + maxSize](_ => None);
      var index := 0;
      while index < tree.Length
        invariant 0 <= index <= tree.Length
        invariant grown[..index] == tree[..index]
        invariant forall m :: tree.Length <= m < grown.Length ==> grown[m].None?
        modifies grown
      {
        grown[index] := tree[index];
        index := index + 1;
      }
      assert grown[..] == tree[..] + seq(maxSize, _ => None) by {
        assert grown[..tree.Length] == tree[..];
      }
      tree := grown;
    }

    /** Sets the timeout of the node mapped for `key` to `now` (the source reads
        the clock) and returns that node, or nil for an unmapped key. The two
        neighbour comparisons are evaluated for their preconditions only: the
        percolation they would guard is not implemented. */
    method UpdateNodeTimeout(key: string, now: int) returns (node: Option<Node>)
      requires State().CanUpdateNodeTimeout(key, now)
      modifies tree
      ensures (State(), node) == old(State()).UpdateNodeTimeout(key, now)
    {
      if key !in keyLookup {
        return None;
      }
      var nodeIndex := keyLookup[key];
      tree[nodeIndex] := Some(tree[nodeIndex].value.(timeout := now));
      if nodeIndex + 1 < CurrentSize() {
        if CompareTwoTimes(nodeIndex, nodeIndex + 1) {
          // percolating down is not implemented
        } else if CompareTwoTimes(nodeIndex - 1, nodeIndex) {
          // percolating up is not implemented
        }
      }
      var found := Get(key);
      node := found.0;
    }

    /** Exchanges slots `i` and `j` and repoints the moved nodes' keys. */
    method SwapTwoNodes(i: int, j: int)
      requires 0 <= i < tree.Length && 0 <= j < tree.Length
      modifies this, tree
      ensures tree == old(tree)
      ensures State() == old(State()).SwapTwoNodes(i, j)
    {
      if tree[i].Some? {
        keyLookup := keyLookup[tree[i].value.key := j];
      }
      if tree[j].Some? {
        keyLookup := keyLookup[tree[j].value.key := i];
      }
      tree[j], tree[i] := tree[i], tree[j];
    }
  }
}
