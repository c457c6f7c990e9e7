/** The state of `BinheapOptimized` as a value, with one function per
    operation of binheap/binheapv2/double_indexed_array.go. The class in
    module Optimized updates an array and a map in place and is proved to
    move between exactly these values.

    Go runtime panics (a nil dereference, an index out of range, a division by
    zero) are not modelled as outcomes: each function requires what keeps the
    corresponding source operation from panicking, and nothing more. */
module DoubleIndexedArray {
  import opened Wrappers
  import opened Binheap

  /** The step direction of `SafeIndex` (the Go constants INCREMENT, DECREMENT). */
  datatype Direction = Increment | Decrement

  /** The error `Peek` returns; the source's message text is not modelled. */
  datatype Error = OutOfRange

  // ---------------------------------------------------------------------------
  // Pure helpers
  // ---------------------------------------------------------------------------

  /** One circular step from slot `i` in a slice of `treeCapacity` slots.
      Forward, the source wraps only when `i + 1` EXCEEDS the capacity, so from
      the last slot it yields `treeCapacity`, one past the end; backward, from
      slot 0 it yields the last slot. Go's `%` truncates, but it is only
      applied to two positive operands here, where it agrees with Dafny's. */
  function SafeIndex(treeCapacity: nat, i: int, direction: Direction): (r: int)
    requires direction == Increment && i + 1 > treeCapacity ==> treeCapacity > 0
    ensures direction == Increment && 0 <= i < treeCapacity ==> r == i + 1
    ensures direction == Increment && i + 1 > treeCapacity ==> 0 <= r < treeCapacity
    ensures direction == Decrement && 0 <= i < treeCapacity ==>
              0 <= r < treeCapacity && r == (i - 1) % treeCapacity
  {
    if direction == Increment then
      var nextVal := i + 1;
      if nextVal > treeCapacity then nextVal % treeCapacity else nextVal
    else
      var nextVal := i - 1;
      if nextVal < 0 then treeCapacity - (nextVal * -1) else nextVal
  }

  /** Stepping back and then forward from slot `i` returns to `i`, except from
      slot 0: there the backward step lands on the last slot and the forward
      step then leaves the slice. Stepping forward and then back always
      returns. */
  lemma SafeIndexSteps(treeCapacity: nat, i: int)
    requires 0 <= i < treeCapacity
    ensures SafeIndex(treeCapacity, SafeIndex(treeCapacity, i, Increment), Decrement) == i
    ensures 1 <= i ==> SafeIndex(treeCapacity, SafeIndex(treeCapacity, i, Decrement), Increment) == i
    ensures i == 0 ==> SafeIndex(treeCapacity, SafeIndex(treeCapacity, i, Decrement), Increment) == treeCapacity
  {
  }

  /** The forward step from slot `i` stays inside the slice exactly when `i`
      is not the last slot. */
  lemma SafeIndexIncrementInRange(treeCapacity: nat, i: int)
    requires 0 <= i < treeCapacity
    ensures SafeIndex(treeCapacity, i, Increment) < treeCapacity <==> i < treeCapacity - 1
  {
  }

  /** True when instant `time1` is strictly later than `time2`
      (`time1.Sub(time2) > 0`). */
  function CompareTimeouts(time1: int, time2: int): (after: bool)
    ensures after <==> time2 < time1
  {
    time1 - time2 > 0
  }

  /** "Later than" is a strict total order on instants. */
  lemma CompareTimeoutsIsStrictOrder(a: int, b: int, c: int)
    ensures !CompareTimeouts(a, a)
    ensures CompareTimeouts(a, b) ==> !CompareTimeouts(b, a)
    ensures CompareTimeouts(a, b) && CompareTimeouts(b, c) ==> CompareTimeouts(a, c)
    ensures a != b ==> CompareTimeouts(a, b) || CompareTimeouts(b, a)
  {
  }

  // ---------------------------------------------------------------------------
  // The state
  // ---------------------------------------------------------------------------

  /** The fields of `BinheapOptimized` without its mutex: the slot slice `Tree`
      (a `None` slot is a nil pointer), the two cursors and the key-to-slot map.
      The slice's capacity is modelled as its length. */
  datatype BinheapState = BinheapState(
    tree: seq<Option<Node>>,
    maxIndex: int,
    minIndex: int,
    keyLookup: map<string, int>)
  {
    /** Both cursors name a slot of a non-empty slice. */
    predicate InRange()
    {
      |tree| >= 1 && 0 <= maxIndex < |tree| && 0 <= minIndex < |tree|
    }

    /** IsEmpty and IsFull can be evaluated: they read a slot only when the
        cursors coincide, and then that slot exists. */
    predicate CursorsReadable()
    {
      maxIndex == minIndex ==> 0 <= maxIndex < |tree|
    }

    /** The key map and the occupied slots agree: every mapped key names an
        occupied slot holding that key, and every occupied slot's key maps
        back to it. */
    ghost predicate Linked()
    {
      && (forall k :: k in keyLookup ==>
            0 <= keyLookup[k] < |tree| && tree[keyLookup[k]].Some? && tree[keyLookup[k]].value.key == k)
      && (forall i :: 0 <= i < |tree| && tree[i].Some? ==>
            tree[i].value.key in keyLookup && keyLookup[tree[i].value.key] == i)
    }

    // --- reads ---------------------------------------------------------------

    /** The slot under `maxIndex`. On a linked state the key of the node
        there, if any, maps back to `maxIndex`. */
    function MinNode(): (r: Option<Node>)
      requires 0 <= maxIndex < |tree|
      ensures r.None? <==> tree[maxIndex].None?
      ensures Linked() && r.Some? ==> r.value.key in keyLookup && keyLookup[r.value.key] == maxIndex
    {
      tree[maxIndex]
    }

    /** The source's size formula, verbatim: 0 when the slot under `maxIndex`
        is nil, `maxIndex - minIndex` when it is occupied and the cursors are
        not wrapped, and `maxIndex + 1 + cap` when they are. So coinciding
        cursors always give 0, also when a node is stored, and the wrapped
        value exceeds the capacity. */
    function CurrentSize(): (size: int)
      requires 0 <= maxIndex < |tree|
      ensures tree[maxIndex].None? ==> size == 0
      ensures maxIndex == minIndex ==> size == 0
      ensures tree[maxIndex].Some? && maxIndex < minIndex ==> size > |tree|
      ensures tree[maxIndex].Some? && 0 <= minIndex <= maxIndex ==> 0 <= size < |tree|
    {
      if tree[maxIndex].Some? then
        if maxIndex < minIndex then maxIndex + 1 + |tree| else maxIndex - minIndex
      else
        0
    }

    /** The cursors coincide on a nil slot. An empty structure is not full,
        has size 0 and a nil MinNode. */
    predicate IsEmpty()
      requires CursorsReadable()
      ensures IsEmpty() ==> 0 <= maxIndex < |tree| && !IsFull() && CurrentSize() == 0 && MinNode() == None
    {
      maxIndex == minIndex && tree[maxIndex].None?
    }

    /** The cursors coincide on an occupied slot, which already holds when one
        node is stored: a full structure has size 0 and a MinNode. */
    predicate IsFull()
      requires CursorsReadable()
      ensures IsFull() ==> 0 <= maxIndex < |tree| && CurrentSize() == 0 && MinNode().Some?
    {
      maxIndex == minIndex && tree[maxIndex].Some? && tree[minIndex].Some?
    }

    /** The node stored for `key` and whether the key is mapped: found exactly
        for mapped keys, nil for the others, and on a linked state a node with
        that key. */
    function Get(key: string): (r: (Option<Node>, bool))
      requires key in keyLookup ==> 0 <= keyLookup[key] < |tree|
      ensures r.1 <==> key in keyLookup
      ensures !r.1 ==> r.0.None?
      ensures Linked() && r.1 ==> r.0.Some? && r.0.value.key == key
    {
      if key in keyLookup then (tree[keyLookup[key]], true) else (None, false)
    }

    /** The raw slot at `index`, or OutOfRange when `index` exceeds the size.
        It fails exactly above the size, so the index equal to the size is
        accepted. */
    function Peek(index: int): (r: Result<Option<Node>, Error>)
      requires 0 <= maxIndex < |tree|
      requires index <= CurrentSize() ==> 0 <= index < |tree|
      ensures r.Failure? <==> index > CurrentSize()
      ensures r.Success? ==> r.value == tree[index]
      ensures index == CurrentSize() ==> r == Success(tree[index])
    {
      if index > CurrentSize() then Failure(OutOfRange) else Success(tree[index])
    }

    /** Whether the node in slot `i` expires strictly after the one in slot
        `j`: never for one slot with itself, and never in both directions. */
    function CompareTwoTimes(i: int, j: int): (after: bool)
      requires 0 <= i < |tree| && 0 <= j < |tree| && tree[i].Some? && tree[j].Some?
      ensures after <==> tree[j].value.timeout < tree[i].value.timeout
      ensures after ==> !CompareTimeouts(tree[j].value.timeout, tree[i].value.timeout)
      ensures i == j ==> !after
    {
      CompareTimeouts(tree[i].value.timeout, tree[j].value.timeout)
    }

    // --- updates -------------------------------------------------------------

    /** Stores `n` in slot 0, points both cursors at it and maps its key to 0.
        The other slots and keys stay; the result is full, with `n` as its
        MinNode and found by its key. */
    function InsertAtIndexZero(n: Node): (r: BinheapState)
      requires |tree| >= 1
      ensures |r.tree| == |tree| && r.tree[0] == Some(n)
      ensures forall m :: 1 <= m < |tree| ==> r.tree[m] == tree[m]
      ensures r.maxIndex == 0 && r.minIndex == 0 && r.keyLookup == keyLookup[n.key := 0]
      ensures r.IsFull() && r.MinNode() == Some(n) && r.Get(n.key) == (Some(n), true)
    {
      BinheapState(tree[0 := Some(n)], 0, 0, keyLookup[n.key := 0])
    }

    /** The slot under `minIndex` exists and holds a node, so eviction neither
        indexes out of range nor dereferences nil. */
    predicate CanEvict()
    {
      0 <= minIndex < |tree| && tree[minIndex].Some?
    }

    /** Eviction returns the node under `minIndex`, clears that slot, unmaps
        its key and keeps `maxIndex` and every other slot. `minIndex` returns
        to 0 if the cursors coincided and otherwise steps forward. A linked
        state stays linked. */
    function EvictMinNode(): (r: (BinheapState, Node))
      requires CanEvict()
      ensures r.1 == tree[minIndex].value
      ensures r.0.tree == tree[minIndex := None]
      ensures r.0.keyLookup == keyLookup - {r.1.key}
      ensures r.0.maxIndex == maxIndex
      ensures r.0.minIndex == if maxIndex == minIndex then 0 else SafeIndex(|tree|, minIndex, Increment)
      ensures Linked() ==> r.0.Linked()
    {
      var minNode := tree[minIndex].value;
      var cleared := this.(tree := tree[minIndex := None]);
      var nextIndex := if !cleared.IsEmpty() then SafeIndex(|tree|, minIndex, Increment) else 0;
      (cleared.(minIndex := nextIndex, keyLookup := keyLookup - {minNode.key}), minNode)
    }

    /** The slot chosen by the placement branch of Insert: if the node under
        `maxIndex` expires after `n`, one step back from `minIndex`, which is
        inside the slice whenever `minIndex` is; otherwise one step forward
        from `maxIndex`, which is inside the slice exactly when `maxIndex` is
        not the last slot. */
    function PlacementIndex(n: Node): (next: int)
      requires 0 <= maxIndex < |tree| && tree[maxIndex].Some?
      ensures CompareTimeouts(tree[maxIndex].value.timeout, n.timeout) && 0 <= minIndex < |tree| ==>
                0 <= next < |tree|
      ensures !CompareTimeouts(tree[maxIndex].value.timeout, n.timeout) ==>
                (0 <= next < |tree| <==> maxIndex < |tree| - 1)
    {
      if CompareTimeouts(tree[maxIndex].value.timeout, n.timeout) then
        SafeIndex(|tree|, minIndex, Decrement)
      else
        SafeIndex(|tree|, maxIndex, Increment)
    }

    /** The placement branch can run: the node under `maxIndex` exists and the
        chosen slot is inside the slice. */
    predicate CanPlace(n: Node)
    {
      0 <= maxIndex < |tree| && tree[maxIndex].Some? && 0 <= PlacementIndex(n) < |tree|
    }

    /** The placement branch of Insert: `n` goes into the chosen slot and its
        key maps there; a node expiring before the node under `maxIndex`
        becomes the new `minIndex`, any other the new `maxIndex`, and the
        other cursor stays. */
    function Place(n: Node): (r: BinheapState)
      requires CanPlace(n)
      ensures r.tree == tree[PlacementIndex(n) := Some(n)]
      ensures r.keyLookup == keyLookup[n.key := PlacementIndex(n)]
      ensures CompareTimeouts(tree[maxIndex].value.timeout, n.timeout) ==>
                r.minIndex == PlacementIndex(n) && r.maxIndex == maxIndex
      ensures !CompareTimeouts(tree[maxIndex].value.timeout, n.timeout) ==>
                r.maxIndex == PlacementIndex(n) && r.minIndex == minIndex
      ensures 0 <= r.keyLookup[n.key] < |r.tree| && r.Get(n.key) == (Some(n), true)
    {
      var nextIndex := PlacementIndex(n);
      var moved :=
        if CompareTimeouts(tree[maxIndex].value.timeout, n.timeout) then this.(minIndex := nextIndex)
        else this.(maxIndex := nextIndex);
      moved.(tree := tree[nextIndex := Some(n)], keyLookup := keyLookup[n.key := nextIndex])
    }

    /** The state Insert reaches after its emptiness and fullness tests: the
        state itself, or the state after evicting when it is full. */
    function MakeRoom(): BinheapState
      requires CursorsReadable()
    {
      if IsFull() then EvictMinNode().0 else this
    }

    /** Insert takes the placement branch: the structure is not empty, and it
        is not full or evicting does not leave it empty. */
    predicate TakesPlacement()
      requires CursorsReadable()
    {
      !IsEmpty() && !(IsFull() && MakeRoom().IsEmpty())
    }

    /** Insert of `n` neither indexes out of range nor dereferences nil: the
        emptiness and fullness tests can read their slot, and the placement
        branch, if taken, can run. */
    predicate CanInsert(n: Node)
    {
      CursorsReadable() && (TakesPlacement() ==> MakeRoom().CanPlace(n))
    }

    /** Insert: into an empty structure at slot 0; into a full one by evicting
        first and, if that empties it, again at slot 0; otherwise by the
        placement branch. Afterwards `n` is found by its key; outside the
        placement branch it sits alone under both cursors in slot 0; and
        inserting into a full structure drops the node under `minIndex`
        unless it has `n`'s key. */
    function Insert(n: Node): (r: BinheapState)
      requires CanInsert(n)
      ensures |r.tree| == |tree|
      ensures n.key in r.keyLookup && 0 <= r.keyLookup[n.key] < |r.tree| && r.Get(n.key) == (Some(n), true)
      ensures !TakesPlacement() ==> r.maxIndex == 0 && r.minIndex == 0 && r.tree[0] == Some(n)
      ensures IsFull() && tree[minIndex].value.key != n.key ==> tree[minIndex].value.key !in r.keyLookup
    {
      if IsEmpty() then InsertAtIndexZero(n)
      else if IsFull() && MakeRoom().IsEmpty() then MakeRoom().InsertAtIndexZero(n)
      else MakeRoom().Place(n)
    }

    /** Exchanges slots `i` and `j`, first repointing the key of each moved
        node: the node in `i` to `j`, then the node in `j` to `i`. Every other
        slot and both cursors stay, and a linked state stays linked. */
    function SwapTwoNodes(i: int, j: int): (r: BinheapState)
      requires 0 <= i < |tree| && 0 <= j < |tree|
      ensures |r.tree| == |tree| && r.tree[i] == tree[j] && r.tree[j] == tree[i]
      ensures forall m :: 0 <= m < |tree| && m != i && m != j ==> r.tree[m] == tree[m]
      ensures r.maxIndex == maxIndex && r.minIndex == minIndex
      ensures Linked() ==> r.Linked()
    {
      var afterI := if tree[i].Some? then keyLookup[tree[i].value.key := j] else keyLookup;
      var afterJ := if tree[j].Some? then afterI[tree[j].value.key := i] else afterI;
      this.(tree := tree[i := tree[j]][j := tree[i]], keyLookup := afterJ)
    }

    /** UpdateNodeTimeout of `key` to instant `now` neither indexes out of range
        nor dereferences nil, including in the two neighbour comparisons it
        evaluates (whose branches are empty). */
    predicate CanUpdateNodeTimeout(key: string, now: int)
    {
      key in keyLookup ==>
        var nodeIndex := keyLookup[key];
        && 0 <= nodeIndex < |tree| && tree[nodeIndex].Some? && 0 <= maxIndex < |tree|
        && (nodeIndex + 1 < CurrentSize() ==>
              && nodeIndex + 1 < |tree| && tree[nodeIndex + 1].Some?
              && (!CompareTimeouts(now, tree[nodeIndex + 1].value.timeout) ==>
                    1 <= nodeIndex && tree[nodeIndex - 1].Some?))
    }

    /** Sets the timeout of the node mapped for `key` to `now` and returns
        that node; slot positions, cursors and the key map stay, and a linked
        state stays linked, the returned node then carrying `key`. An unmapped
        key changes nothing and yields nil. */
    function UpdateNodeTimeout(key: string, now: int): (r: (BinheapState, Option<Node>))
      requires CanUpdateNodeTimeout(key, now)
      ensures key !in keyLookup ==> r == (this, None)
      ensures key in keyLookup ==>
                var updatedNode := tree[keyLookup[key]].value.(timeout := now);
                && r.0.tree == tree[keyLookup[key] := Some(updatedNode)]
                && r.0.keyLookup == keyLookup && r.0.maxIndex == maxIndex && r.0.minIndex == minIndex
                && r.1 == Some(updatedNode)
      ensures Linked() ==> r.0.Linked() && (key in keyLookup ==> r.1 == Some(Node(key, now)))
    {
      if key !in keyLookup then (this, None)
      else
        var nodeIndex := keyLookup[key];
        var updated := this.(tree := tree[nodeIndex := Some(tree[nodeIndex].value.(timeout := now))]);
        (updated, updated.Get(key).0)
    }

    /** Appends `maxSize` nil slots to the slice; the existing slots, the
        cursors and the key map stay, and a linked state stays linked. */
    function ReAllocate(maxSize: nat): (r: BinheapState)
      ensures |r.tree| == |tree| + maxSize && r.tree[..|tree|] == tree
      ensures forall i :: |tree| <= i < |tree| + maxSize ==> r.tree[i].None?
      ensures r.maxIndex == maxIndex && r.minIndex == minIndex && r.keyLookup == keyLookup
      ensures Linked() ==> r.Linked()
    {
      this.(tree := tree + seq(maxSize, _ => None))
    }
  }

  /** A structure of `maxSize` nil slots, both cursors at 0, no keys. */
  function NewBinheapOptimized(maxSize: nat): (h: BinheapState)
    ensures |h.tree| == maxSize && h.maxIndex == 0 && h.minIndex == 0 && h.keyLookup == map[]
    ensures forall i :: 0 <= i < maxSize ==> h.tree[i].None?
  {
    BinheapState(seq(maxSize, _ => None), 0, 0, map[])
  }

  // ---------------------------------------------------------------------------
  // Properties that relate several values or calls
  // ---------------------------------------------------------------------------

  /** On linked state, Get finds a key exactly when some slot holds a node
      with that key. */
  lemma GetOnLinked(h: BinheapState, key: string)
    requires h.Linked()
    ensures h.Get(key).1 <==> exists i :: 0 <= i < |h.tree| && h.tree[i].Some? && h.tree[i].value.key == key
  {
  }

  /** Insert reads `minIndex` only through the emptiness and fullness tests
      and the backward step: with the cursors apart and the stored node
      expiring first, it appends after `maxIndex` although `minIndex` is
      outside the slice. */
  lemma InsertIgnoresStrayMinIndex()
    ensures var h := BinheapState([Some(Node("a", 5)), None], 0, 2, map["a" := 0]);
            && !h.InRange() && h.CanInsert(Node("b", 10))
            && h.Insert(Node("b", 10)) ==
                 BinheapState([Some(Node("a", 5)), Some(Node("b", 10))], 1, 2, map["a" := 0, "b" := 1])
  {
  }

  /** Swapping the same two slots of a linked state twice restores it. */
  lemma SwapTwiceRestores(h: BinheapState, i: int, j: int)
    requires 0 <= i < |h.tree| && 0 <= j < |h.tree| && h.Linked()
    ensures h.SwapTwoNodes(i, j).SwapTwoNodes(i, j) == h
  {
  }

  /** Where a linked state's swap sends each key: the key stored in `i` to `j`,
      the key stored in `j` to `i`, every other key nowhere new. */
  lemma SwapKeyLookup(h: BinheapState, i: int, j: int, k: string)
    requires 0 <= i < |h.tree| && 0 <= j < |h.tree| && h.Linked()
    ensures k in h.SwapTwoNodes(i, j).keyLookup <==> k in h.keyLookup
    ensures h.tree[j].Some? && h.tree[j].value.key == k ==> h.SwapTwoNodes(i, j).keyLookup[k] == i
    ensures h.tree[i].Some? && h.tree[i].value.key == k && !(h.tree[j].Some? && h.tree[j].value.key == k) ==>
              h.SwapTwoNodes(i, j).keyLookup[k] == j
    ensures k in h.keyLookup && !(h.tree[i].Some? && h.tree[i].value.key == k) && !(h.tree[j].Some? && h.tree[j].value.key == k) ==>
              h.SwapTwoNodes(i, j).keyLookup[k] == h.keyLookup[k]
  {
  }
}
