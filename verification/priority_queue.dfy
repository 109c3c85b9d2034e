/** The priority queue (components/Collections-C/src/cc_pqueue.c): a max-heap in a growing buffer. */
module PriorityQueue {

  import opened Options
  import opened Ordering
  import opened HeapOrder

  datatype Stat = CC_OK | CC_ERR_OUT_OF_RANGE | CC_ERR_MAX_CAPACITY

  /** A size_t product is a size_t. */
  ghost predicate InRange(expand: nat -> nat, maxElements: nat) {
    forall c :: expand(c) <= maxElements
  }

  class PQueue {
    const cmp: Comparator
    const expand: nat -> nat        // capacity times the expansion factor
    const maxElements: nat
    var size: nat
    var capacity: nat
    var buffer: array<Ptr>

    /** The elements, as they lie in the heap. */
    ghost function Elements(): seq<Ptr>
      requires size <= buffer.Length
      reads this, buffer
    {
      buffer[..size]
    }

    ghost predicate Valid()
      reads this, buffer
    {
      && TotalPreorder(cmp)
      && size <= capacity == buffer.Length <= maxElements
      && InRange(expand, maxElements)
      && Heap(cmp, Elements())
    }

    constructor (cmp: Comparator, expand: nat -> nat, maxElements: nat, capacity: nat)
      requires TotalPreorder(cmp) && capacity <= maxElements && InRange(expand, maxElements)
      ensures Valid() && fresh(buffer) && Elements() == []
      ensures this.cmp == cmp && this.capacity == capacity && this.maxElements == maxElements
    {
      this.cmp, this.expand, this.maxElements := cmp, expand, maxElements;
      size, this.capacity := 0, capacity;
      buffer := new Ptr[capacity];
    }

    /** expand_capacity: larger, up to the most there may be. */
    method ExpandCapacity() returns (stat: Stat)
      requires Valid() && size == capacity
      modifies this`capacity, this`buffer
      ensures Valid() && Elements() == old(Elements())
      ensures stat == if old(capacity) == maxElements then CC_ERR_MAX_CAPACITY else CC_OK
      ensures stat == CC_OK ==> size < capacity && fresh(buffer)
      ensures stat == CC_OK ==>
        capacity == if expand(old(capacity)) <= old(capacity) then maxElements else expand(old(capacity))
      ensures stat != CC_OK ==> buffer == old(buffer)
    {
      if capacity == maxElements { return CC_ERR_MAX_CAPACITY; }
      var newCapacity := expand(capacity);
      capacity := if newCapacity <= capacity then maxElements else newCapacity;
      var newBuff := new Ptr[capacity];
      for i := 0 to size
        invariant size <= buffer.Length && newBuff[..i] == buffer[..i]
        modifies newBuff
      {
        newBuff[i] := buffer[i];
      }
      buffer := newBuff;
      return CC_OK;
    }

    method Swap(i: nat, j: nat)
      requires i < size <= buffer.Length && j < size
      modifies buffer
      ensures Elements() == Swapped(old(Elements()), i, j)
    {
      var tmp := buffer[i];
      buffer[i] := buffer[j];
      buffer[j] := tmp;
    }

    /** cc_pqueue_push */
    method Push(element: Ptr) returns (stat: Stat)
      requires Valid()
      modifies this, buffer
      ensures Valid() && (buffer == old(buffer) || fresh(buffer))
      ensures stat == if old(size) == maxElements then CC_ERR_MAX_CAPACITY else CC_OK
      ensures multiset(Elements())
           == multiset(old(Elements())) + (if stat == CC_OK then multiset{element} else multiset{})
    {
      var i := size;
      if i >= capacity {
        stat := ExpandCapacity();
        if stat != CC_OK { return; }
      }
      Append(element);
      SiftUpFrom(i);
      stat := CC_OK;
    }

    method Append(element: Ptr)
      requires Valid() && size < capacity
      modifies this`size, buffer
      ensures TotalPreorder(cmp) && size == old(size) + 1 <= capacity
      ensures Elements() == old(Elements()) + [element] && UpHole(cmp, Elements(), size - 1)
    {
      ghost var s := Elements();
      buffer[size] := element;
      size := size + 1;
      assert Elements() == s + [element];
      AppendedUpHole(cmp, s, element);
    }

    /** The loop of push. */
    method SiftUpFrom(i0: nat)
      requires TotalPreorder(cmp) && i0 < size <= capacity == buffer.Length && UpHole(cmp, Elements(), i0)
      modifies buffer
      ensures Heap(cmp, Elements()) && multiset(Elements()) == multiset(old(Elements()))
    {
      var i: nat := i0;
      while i != 0 && cmp(buffer[i], buffer[Parent(i)]) > 0
        invariant i < size && UpHole(cmp, Elements(), i) && multiset(Elements()) == multiset(old(Elements()))
        decreases i
      {
        SiftUp(cmp, Elements(), i);
        SwapKeeps(Elements(), i, Parent(i));
        Swap(i, Parent(i));
        i := Parent(i);
      }
      UpHoleDone(cmp, Elements(), i);
    }

    /** cc_pqueue_top */
    method Top() returns (stat: Stat, out: Option<Ptr>)
      requires Valid()
      ensures stat == if size == 0 then CC_ERR_OUT_OF_RANGE else CC_OK
      ensures out.Some? <==> size > 0
      ensures out.Some? ==> out.value in Elements() && forall y :: y in Elements() ==> cmp(out.value, y) >= 0
    {
      if size == 0 { return CC_ERR_OUT_OF_RANGE, None; }
      FirstIsHighest(cmp, Elements());
      assert forall y :: y in Elements() ==> y in multiset(Elements());
      return CC_OK, Some(buffer[0]);
    }

    /** cc_pqueue_pop */
    method Pop() returns (stat: Stat, out: Option<Ptr>)
      requires Valid()
      modifies this`size, buffer
      ensures Valid() && capacity == old(capacity)
      ensures stat == if old(size) == 0 then CC_ERR_OUT_OF_RANGE else CC_OK
      ensures out.Some? <==> old(size) > 0
      ensures out.None? ==> Elements() == old(Elements())
      ensures out.Some? ==> Highest(cmp, multiset(old(Elements())), out.value)
      ensures out.Some? ==> out.value in old(Elements()) && forall y :: y in old(Elements()) ==> cmp(out.value, y) >= 0
      ensures out.Some? ==> multiset(Elements()) == multiset(old(Elements())) - multiset{out.value}
    {
      if size == 0 { return CC_ERR_OUT_OF_RANGE, None; }
      FirstIsHighest(cmp, Elements());
      assert forall y :: y in Elements() ==> y in multiset(Elements());
      var tmp := TakeFirst();
      Heapify(0);
      return CC_OK, Some(tmp);
    }

    /** The first element changes places with the last and is cut off. */
    method TakeFirst() returns (tmp: Ptr)
      requires Valid() && size > 0
      modifies this`size, buffer
      ensures tmp == old(Elements())[0] && size == old(size) - 1
      ensures DownHole(cmp, Elements(), 0) && multiset(Elements()) == multiset(old(Elements())) - multiset{tmp}
    {
      PoppedDownHole(cmp, Elements());
      Swap(0, size - 1);
      tmp := CutLast();
    }

    method CutLast() returns (tmp: Ptr)
      requires 0 < size <= buffer.Length
      modifies this`size
      ensures size == old(size) - 1 && tmp == old(Elements())[size] && Elements() == old(Elements())[..size]
    {
      tmp := buffer[size - 1];
      size := size - 1;
    }

    /** cc_pqueue_heapify, which looks at a child only when there is one. */
    method Heapify(index: nat)
      requires TotalPreorder(cmp) && size <= capacity == buffer.Length
      requires if index < size then DownHole(cmp, Elements(), index) else size == 0
      modifies buffer
      ensures Heap(cmp, Elements()) && multiset(Elements()) == multiset(old(Elements()))
      decreases size - index
    {
      if size <= 1 { return; }
      var l, r, tmp, index' := Left(index), Right(index), index, index;
      var indexPtr := buffer[index];
      if l < size {
        var left := buffer[l];
        if cmp(indexPtr, left) < 0 { indexPtr, index' := left, l; }
      }
      if r < size {
        var right := buffer[r];
        if cmp(indexPtr, right) < 0 { indexPtr, index' := right, r; }
      }
      ghost var s := Elements();
      assert index' == Higher(cmp, s, index);
      if index' != tmp {
        SiftDown(cmp, s, index);
        SwapKeeps(s, index, index');
        Swap(tmp, index');
        Heapify(index');
      } else {
        DownHoleDone(cmp, s, index);
      }
    }
  }

  lemma AppendedUpHole(cmp: Comparator, s: seq<Ptr>, x: Ptr)
    requires Heap(cmp, s)
    ensures UpHole(cmp, s + [x], |s|)
  {
    forall i | 0 < i < |s| ensures NotBelow(cmp, s + [x], Parent(i), i) { assert NotBelow(cmp, s, Parent(i), i); }
  }

  /** In these elements, and with none above it. */
  ghost predicate Highest(cmp: Comparator, s: multiset<Ptr>, x: Ptr) {
    x in s && forall y :: y in s ==> cmp(x, y) >= 0
  }

  lemma FirstIsHighest(cmp: Comparator, s: seq<Ptr>)
    requires TotalPreorder(cmp) && Heap(cmp, s) && s != []
    ensures Highest(cmp, multiset(s), s[0])
  {
    forall y | y in multiset(s) ensures cmp(s[0], y) >= 0 {
      var i :| 0 <= i < |s| && s[i] == y;
      TopIsHighest(cmp, s, i);
      assert NotBelow(cmp, s, 0, i);
    }
  }

  /** The last element in place of the first. */
  lemma PoppedDownHole(cmp: Comparator, s: seq<Ptr>)
    requires Heap(cmp, s) && s != []
    ensures DownHole(cmp, Swapped(s, 0, |s| - 1)[..|s| - 1], 0)
    ensures multiset(Swapped(s, 0, |s| - 1)[..|s| - 1]) == multiset(s) - multiset{s[0]}
  {
    var w := Swapped(s, 0, |s| - 1);
    var r := w[..|s| - 1];
    forall i | 0 < i < |r| && Parent(i) != 0 ensures NotBelow(cmp, r, Parent(i), i) {
      assert NotBelow(cmp, s, Parent(i), i);
    }
    SwapKeeps(s, 0, |s| - 1);
    assert w == r + [s[0]];
  }

  // ---- whole runs ----

  ghost predicate NonIncreasing(cmp: Comparator, s: seq<Ptr>) {
    forall i, j :: 0 <= i < j < |s| ==> NotBelow(cmp, s, i, j)
  }

  /** Popping until the queue is empty gives every element once, never one of higher priority than the last. */
  method Drain(q: PQueue) returns (out: seq<Ptr>)
    requires q.Valid()
    modifies q`size, q.buffer
    ensures q.Valid() && q.size == 0
    ensures forall i, j :: 0 <= i < j < |out| ==> q.cmp(out[i], out[j]) >= 0
    ensures multiset(out) == multiset(old(q.Elements()))
  {
    out := [];
    while q.size > 0
      invariant q.Valid() && q.buffer == old(q.buffer) && NonIncreasing(q.cmp, out)
      invariant multiset(out) + multiset(q.Elements()) == multiset(old(q.Elements()))
      invariant Follow(q.cmp, out, multiset(q.Elements()))
      decreases q.size
    {
      var stat, x;
      ghost var rest := multiset(q.Elements());
      stat, x := q.Pop();
      PopFollows(q.cmp, out, rest, x.value);
      out := out + [x.value];
    }
    assert q.Elements() == [];
    forall i, j | 0 <= i < j < |out| ensures q.cmp(out[i], out[j]) >= 0 { assert NotBelow(q.cmp, out, i, j); }
  }

  /** Nothing that is left is above anything that came out. */
  ghost predicate Follow(cmp: Comparator, out: seq<Ptr>, rest: multiset<Ptr>) {
    forall i, y :: 0 <= i < |out| && y in rest ==> cmp(out[i], y) >= 0
  }

  lemma PopFollows(cmp: Comparator, out: seq<Ptr>, rest: multiset<Ptr>, x: Ptr)
    requires NonIncreasing(cmp, out) && Follow(cmp, out, rest) && Highest(cmp, rest, x)
    ensures NonIncreasing(cmp, out + [x]) && Follow(cmp, out + [x], rest - multiset{x})
  {
    forall i, j | 0 <= i < j < |out + [x]| ensures NotBelow(cmp, out + [x], i, j) {
      if j < |out| { assert NotBelow(cmp, out, i, j); }
    }
  }
}
