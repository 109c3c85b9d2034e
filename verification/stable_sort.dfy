/** Merge sort on sequences, and why its result is the stable sort. */
module StableSort {
  import opened Ordering

  /** A list node together with the data it holds. */
  datatype Item<N> = Item(node: N, data: Ptr)

  function Merge<N>(cmp: Comparator, a: seq<Item<N>>, b: seq<Item<N>>): (m: seq<Item<N>>)
    ensures |m| == |a| + |b|
  {
    if a == [] then b
    else if b == [] then a
    else if cmp(a[0].data, b[0].data) <= 0 then [a[0]] + Merge(cmp, a[1..], b)
    else [b[0]] + Merge(cmp, a, b[1..])
  }

  function MergeSort<N>(cmp: Comparator, s: seq<Item<N>>): (m: seq<Item<N>>)
    ensures |m| == |s|
    decreases |s|
  {
    if |s| < 2 then s
    else Merge(cmp, MergeSort(cmp, s[..|s| / 2]), MergeSort(cmp, s[|s| / 2..]))
  }

  ghost predicate Sorted<N>(cmp: Comparator, s: seq<Item<N>>)
  {
    forall i, j :: 0 <= i < j < |s| ==> cmp(s[i].data, s[j].data) <= 0
  }

  /** The items that compare equal to k, in the order they stand. */
  ghost function Class<N>(cmp: Comparator, s: seq<Item<N>>, k: Ptr): seq<Item<N>>
  {
    if s == [] then []
    else (if cmp(s[0].data, k) == 0 then [s[0]] else []) + Class(cmp, s[1..], k)
  }

  /** s is t rearranged without ever reordering items that compare equal. */
  ghost predicate Stable<N>(cmp: Comparator, s: seq<Item<N>>, t: seq<Item<N>>)
  {
    forall k :: Class(cmp, s, k) == Class(cmp, t, k)
  }

  lemma {:induction false} MergePermutes<N>(cmp: Comparator, a: seq<Item<N>>, b: seq<Item<N>>)
    ensures multiset(Merge(cmp, a, b)) == multiset(a) + multiset(b)
  {
    if a != [] && b != [] {
      if cmp(a[0].data, b[0].data) <= 0 {
        assert a == [a[0]] + a[1..];
        MergePermutes(cmp, a[1..], b);
      } else {
        assert b == [b[0]] + b[1..];
        MergePermutes(cmp, a, b[1..]);
      }
    }
  }

  lemma {:induction false} MergeSorted<N>(cmp: Comparator, a: seq<Item<N>>, b: seq<Item<N>>)
    requires TotalPreorder(cmp) && Sorted(cmp, a) && Sorted(cmp, b)
    ensures Sorted(cmp, Merge(cmp, a, b))
  {
    if a != [] && b != [] {
      if cmp(a[0].data, b[0].data) <= 0 {
        MergeSorted(cmp, a[1..], b);
        FirstIsLeast(cmp, a[0], a[1..], b);
        FromEither(cmp, a[0], a[1..], b);
        SortedFront(cmp, a[0], Merge(cmp, a[1..], b));
      } else {
        Flip(cmp, a[0].data, b[0].data);
        MergeSorted(cmp, a, b[1..]);
        FirstIsLeast(cmp, b[0], b[1..], a);
        FromEither(cmp, b[0], a, b[1..]);
        SortedFront(cmp, b[0], Merge(cmp, a, b[1..]));
      }
    }
  }

  ghost predicate AtOrBelow<N>(cmp: Comparator, x: Item<N>, s: seq<Item<N>>)
  {
    forall i :: 0 <= i < |s| ==> cmp(x.data, s[i].data) <= 0
  }

  lemma SortedFront<N>(cmp: Comparator, x: Item<N>, s: seq<Item<N>>)
    requires Sorted(cmp, s) && AtOrBelow(cmp, x, s)
    ensures Sorted(cmp, [x] + s)
  {
  }

  /** What is at or below everything in a and in b is at or below everything in their merge. */
  lemma FromEither<N>(cmp: Comparator, x: Item<N>, a: seq<Item<N>>, b: seq<Item<N>>)
    requires AtOrBelow(cmp, x, a) && AtOrBelow(cmp, x, b)
    ensures AtOrBelow(cmp, x, Merge(cmp, a, b))
  {
    MergePermutes(cmp, a, b);
    var m := Merge(cmp, a, b);
    forall i | 0 <= i < |m| ensures cmp(x.data, m[i].data) <= 0 {
      assert m[i] in multiset(m);
      assert m[i] in multiset(a) || m[i] in multiset(b);
    }
  }

  lemma FirstIsLeast<N>(cmp: Comparator, x: Item<N>, a: seq<Item<N>>, b: seq<Item<N>>)
    requires TotalPreorder(cmp) && Sorted(cmp, [x] + a) && Sorted(cmp, b)
    requires b != [] ==> cmp(x.data, b[0].data) <= 0
    ensures AtOrBelow(cmp, x, a) && AtOrBelow(cmp, x, b)
  {
    forall i | 0 <= i < |a| ensures cmp(x.data, a[i].data) <= 0 {
      assert ([x] + a)[0] == x && ([x] + a)[i + 1] == a[i];
    }
    forall i | 0 < i < |b| ensures cmp(x.data, b[i].data) <= 0 {
      Order(cmp, x.data, b[0].data, b[i].data);
    }
  }

  lemma {:induction false} MergeSortSorted<N>(cmp: Comparator, s: seq<Item<N>>)
    requires TotalPreorder(cmp)
    ensures Sorted(cmp, MergeSort(cmp, s))
    decreases |s|
  {
    if |s| >= 2 {
      MergeSortSorted(cmp, s[..|s| / 2]);
      MergeSortSorted(cmp, s[|s| / 2..]);
      MergeSorted(cmp, MergeSort(cmp, s[..|s| / 2]), MergeSort(cmp, s[|s| / 2..]));
    }
  }

  lemma {:induction false} MergeSortPermutes<N>(cmp: Comparator, s: seq<Item<N>>)
    ensures multiset(MergeSort(cmp, s)) == multiset(s)
    decreases |s|
  {
    if |s| >= 2 {
      var l, r := s[..|s| / 2], s[|s| / 2..];
      MergeSortPermutes(cmp, l);
      MergeSortPermutes(cmp, r);
      MergePermutes(cmp, MergeSort(cmp, l), MergeSort(cmp, r));
      Halves(cmp, s, |s| / 2);
    }
  }

  lemma {:induction false} ClassAppend<N>(cmp: Comparator, a: seq<Item<N>>, b: seq<Item<N>>, k: Ptr)
    ensures Class(cmp, a + b, k) == Class(cmp, a, k) + Class(cmp, b, k)
  {
    if a == [] {
      assert a + b == b;
    } else {
      assert (a + b)[1..] == a[1..] + b;
      ClassAppend(cmp, a[1..], b, k);
    }
  }

  lemma {:induction false} ClassEmpty<N>(cmp: Comparator, a: seq<Item<N>>, k: Ptr)
    requires forall i :: 0 <= i < |a| ==> cmp(a[i].data, k) != 0
    ensures Class(cmp, a, k) == []
  {
    if a != [] { ClassEmpty(cmp, a[1..], k); }
  }

  /** Merging keeps equal items in order, and the left run's before the right run's. */
  lemma {:induction false} MergeStable<N>(cmp: Comparator, a: seq<Item<N>>, b: seq<Item<N>>, k: Ptr)
    requires TotalPreorder(cmp) && Sorted(cmp, a)
    ensures Class(cmp, Merge(cmp, a, b), k) == Class(cmp, a, k) + Class(cmp, b, k)
  {
    if a != [] && b != [] {
      if cmp(a[0].data, b[0].data) <= 0 {
        MergeStable(cmp, a[1..], b, k);
        LeftStable(cmp, a, b, Merge(cmp, a[1..], b), k);
      } else {
        MergeStable(cmp, a, b[1..], k);
        if cmp(b[0].data, k) == 0 { NoneAsLow(cmp, a, b[0], k); }
        RightStable(cmp, a, b, Merge(cmp, a, b[1..]), k);
      }
    }
  }

  lemma PastFront<T>(x: seq<T>, p: seq<T>, q: seq<T>)
    ensures x + (p + q) == (x + p) + q
    ensures x == [] || p == [] ==> x + (p + q) == p + (x + q)
  {
  }

  lemma LeftStable<N>(cmp: Comparator, a: seq<Item<N>>, b: seq<Item<N>>, m: seq<Item<N>>, k: Ptr)
    requires a != [] && Class(cmp, m, k) == Class(cmp, a[1..], k) + Class(cmp, b, k)
    ensures Class(cmp, [a[0]] + m, k) == Class(cmp, a, k) + Class(cmp, b, k)
  {
    ClassFront(cmp, a[0], m, k);
    PastFront(if cmp(a[0].data, k) == 0 then [a[0]] else [], Class(cmp, a[1..], k), Class(cmp, b, k));
  }

  lemma RightStable<N>(cmp: Comparator, a: seq<Item<N>>, b: seq<Item<N>>, m: seq<Item<N>>, k: Ptr)
    requires b != [] && Class(cmp, m, k) == Class(cmp, a, k) + Class(cmp, b[1..], k)
    requires cmp(b[0].data, k) == 0 ==> Class(cmp, a, k) == []
    ensures Class(cmp, [b[0]] + m, k) == Class(cmp, a, k) + Class(cmp, b, k)
  {
    ClassFront(cmp, b[0], m, k);
    PastFront(if cmp(b[0].data, k) == 0 then [b[0]] else [], Class(cmp, a, k), Class(cmp, b[1..], k));
  }

  lemma ClassFront<N>(cmp: Comparator, x: Item<N>, s: seq<Item<N>>, k: Ptr)
    ensures Class(cmp, [x] + s, k) == (if cmp(x.data, k) == 0 then [x] else []) + Class(cmp, s, k)
  {
    assert ([x] + s)[1..] == s;
  }

  /** Nothing in a sorted run compares equal to what is below its first item. */
  lemma NoneAsLow<N>(cmp: Comparator, a: seq<Item<N>>, x: Item<N>, k: Ptr)
    requires TotalPreorder(cmp) && Sorted(cmp, a) && a != [] && cmp(a[0].data, x.data) > 0 && cmp(x.data, k) == 0
    ensures Class(cmp, a, k) == []
  {
    forall i | 0 <= i < |a| ensures cmp(a[i].data, k) != 0 {
      Order(cmp, a[0].data, x.data, k);
      if i > 0 { Order(cmp, a[0].data, a[i].data, k); }
    }
    ClassEmpty(cmp, a, k);
  }

  lemma {:induction false} MergeSortStable<N>(cmp: Comparator, s: seq<Item<N>>, k: Ptr)
    requires TotalPreorder(cmp)
    ensures Class(cmp, MergeSort(cmp, s), k) == Class(cmp, s, k)
    decreases |s|
  {
    if |s| >= 2 {
      var l, r := s[..|s| / 2], s[|s| / 2..];
      MergeSortStable(cmp, l, k);
      MergeSortStable(cmp, r, k);
      MergeSortSorted(cmp, l);
      MergeStable(cmp, MergeSort(cmp, l), MergeSort(cmp, r), k);
      ClassAppend(cmp, l, r, k);
      assert s == l + r;
    }
  }

  lemma MergeSortCorrect<N>(cmp: Comparator, s: seq<Item<N>>)
    requires TotalPreorder(cmp)
    ensures Sorted(cmp, MergeSort(cmp, s)) && multiset(MergeSort(cmp, s)) == multiset(s)
    ensures Stable(cmp, MergeSort(cmp, s), s)
  {
    MergeSortSorted(cmp, s);
    MergeSortPermutes(cmp, s);
    forall k ensures Class(cmp, MergeSort(cmp, s), k) == Class(cmp, s, k) {
      MergeSortStable(cmp, s, k);
    }
  }

  lemma {:induction false} ClassPositions<N>(cmp: Comparator, s: seq<Item<N>>, k: Ptr, i: nat, j: nat)
    returns (c: nat, d: nat)
    requires i < j < |s| && cmp(s[i].data, k) == 0 && cmp(s[j].data, k) == 0
    ensures c < d < |Class(cmp, s, k)| && Class(cmp, s, k)[c] == s[i] && Class(cmp, s, k)[d] == s[j]
  {
    if i > 0 {
      c, d := ClassPositions(cmp, s[1..], k, i - 1, j - 1);
      if cmp(s[0].data, k) == 0 { c, d := c + 1, d + 1; }
    } else {
      d := ClassPosition(cmp, s[1..], k, j - 1);
      c, d := 0, d + 1;
    }
  }

  lemma {:induction false} ClassPosition<N>(cmp: Comparator, s: seq<Item<N>>, k: Ptr, i: nat) returns (c: nat)
    requires i < |s| && cmp(s[i].data, k) == 0
    ensures c < |Class(cmp, s, k)| && Class(cmp, s, k)[c] == s[i]
  {
    if i == 0 { return 0; }
    c := ClassPosition(cmp, s[1..], k, i - 1);
    if cmp(s[0].data, k) == 0 { c := c + 1; }
  }

  lemma {:induction false} ClassOrigins<N>(cmp: Comparator, s: seq<Item<N>>, k: Ptr, c: nat, d: nat)
    returns (i: nat, j: nat)
    requires c < d < |Class(cmp, s, k)|
    ensures i < j < |s| && s[i] == Class(cmp, s, k)[c] && s[j] == Class(cmp, s, k)[d]
  {
    if cmp(s[0].data, k) != 0 {
      i, j := ClassOrigins(cmp, s[1..], k, c, d);
      i, j := i + 1, j + 1;
    } else if c > 0 {
      i, j := ClassOrigins(cmp, s[1..], k, c - 1, d - 1);
      i, j := i + 1, j + 1;
    } else {
      j := ClassOrigin(cmp, s[1..], k, d - 1);
      i, j := 0, j + 1;
    }
  }

  lemma {:induction false} ClassOrigin<N>(cmp: Comparator, s: seq<Item<N>>, k: Ptr, c: nat) returns (i: nat)
    requires c < |Class(cmp, s, k)|
    ensures i < |s| && s[i] == Class(cmp, s, k)[c]
  {
    var first := if cmp(s[0].data, k) == 0 then 1 else 0;
    if c < first { return 0; }
    i := ClassOrigin(cmp, s[1..], k, c - first);
    i := i + 1;
  }

  /** What stability means: of two items that compare equal, the one that stood first still does. */
  lemma StableKeepsOrder<N>(cmp: Comparator, s: seq<Item<N>>, t: seq<Item<N>>, i: nat, j: nat)
    returns (a: nat, b: nat)
    requires TotalPreorder(cmp) && Stable(cmp, s, t) && i < j < |t| && cmp(t[i].data, t[j].data) == 0
    ensures a < b < |s| && s[a] == t[i] && s[b] == t[j]
  {
    var k := t[j].data;
    Flip(cmp, k, k);
    var c, d := ClassPositions(cmp, t, k, i, j);
    assert Class(cmp, s, k) == Class(cmp, t, k);
    a, b := ClassOrigins(cmp, s, k, c, d);
  }

  /** There is only one sorted stable rearrangement: being sorted and stable pins the result down. */
  lemma {:induction false} StableSortIsUnique<N>(cmp: Comparator, s: seq<Item<N>>, t: seq<Item<N>>)
    requires TotalPreorder(cmp) && Sorted(cmp, s) && Sorted(cmp, t) && Stable(cmp, s, t)
    ensures s == t
  {
    if s == [] {
      if t != [] { Headed(cmp, t, s); }
    } else {
      Headed(cmp, s, t);
      Headed(cmp, t, s);
      assert s[0] == t[0] by { SameHead(cmp, s, t); }
      TailsStable(cmp, s, t);
      StableSortIsUnique(cmp, s[1..], t[1..]);
      assert s == [s[0]] + s[1..] && t == [t[0]] + t[1..];
    }
  }

  lemma TailsStable<N>(cmp: Comparator, s: seq<Item<N>>, t: seq<Item<N>>)
    requires s != [] && t != [] && s[0] == t[0] && Stable(cmp, s, t)
    ensures Stable(cmp, s[1..], t[1..])
  {
    forall k ensures Class(cmp, s[1..], k) == Class(cmp, t[1..], k) {
      assert Class(cmp, s, k) == Class(cmp, t, k);
      TailClass(cmp, s, k);
      TailClass(cmp, t, k);
    }
  }

  lemma TailClass<N>(cmp: Comparator, s: seq<Item<N>>, k: Ptr)
    requires s != []
    ensures Class(cmp, s[1..], k) == if cmp(s[0].data, k) == 0 then Class(cmp, s, k)[1..] else Class(cmp, s, k)
  {
  }

  /** An item of s is an item of t, and so not below t's first. */
  lemma Headed<N>(cmp: Comparator, s: seq<Item<N>>, t: seq<Item<N>>)
    requires TotalPreorder(cmp) && s != [] && Sorted(cmp, t) && Stable(cmp, s, t)
    ensures t != [] && cmp(t[0].data, s[0].data) <= 0
  {
    var k := s[0].data;
    Flip(cmp, k, k);
    assert Class(cmp, s, k) == Class(cmp, t, k);
    var i := ClassMember(cmp, t, k);
    Order(cmp, t[0].data, t[i].data, k);
  }

  lemma {:induction false} ClassMember<N>(cmp: Comparator, t: seq<Item<N>>, k: Ptr) returns (i: nat)
    requires Class(cmp, t, k) != []
    ensures i < |t| && cmp(t[i].data, k) == 0 && Class(cmp, t, k)[0] == t[i]
  {
    if cmp(t[0].data, k) == 0 { i := 0; }
    else { i := ClassMember(cmp, t[1..], k); i := i + 1; }
  }

  lemma SameHead<N>(cmp: Comparator, s: seq<Item<N>>, t: seq<Item<N>>)
    requires TotalPreorder(cmp) && s != [] && t != [] && Stable(cmp, s, t)
    requires cmp(t[0].data, s[0].data) <= 0 && cmp(s[0].data, t[0].data) <= 0
    ensures s[0] == t[0]
  {
    var k := s[0].data;
    Flip(cmp, k, k);
    Flip(cmp, s[0].data, t[0].data);
    assert Class(cmp, s, k)[0] == s[0] && Class(cmp, t, k)[0] == t[0];
    assert Class(cmp, s, k) == Class(cmp, t, k);
  }

  function NodesOf<N>(s: seq<Item<N>>): (r: seq<N>)
    ensures |r| == |s| && forall i {:trigger r[i]} :: 0 <= i < |s| ==> r[i] == s[i].node
  {
    seq(|s|, i requires 0 <= i < |s| => s[i].node)
  }

  lemma {:induction false} MergeKeepsNodes<N>(cmp: Comparator, a: seq<Item<N>>, b: seq<Item<N>>)
    ensures multiset(NodesOf(Merge(cmp, a, b))) == multiset(NodesOf(a)) + multiset(NodesOf(b))
  {
    if a == [] {
      assert NodesOf(a) == [];
    } else if b == [] {
      assert NodesOf(b) == [];
    } else if cmp(a[0].data, b[0].data) <= 0 {
      assert NodesOf(a) == [a[0].node] + NodesOf(a[1..]);
      assert NodesOf(Merge(cmp, a, b)) == [a[0].node] + NodesOf(Merge(cmp, a[1..], b));
      MergeKeepsNodes(cmp, a[1..], b);
    } else {
      assert NodesOf(b) == [b[0].node] + NodesOf(b[1..]);
      assert NodesOf(Merge(cmp, a, b)) == [b[0].node] + NodesOf(Merge(cmp, a, b[1..]));
      MergeKeepsNodes(cmp, a, b[1..]);
    }
  }

  lemma {:induction false} MergeSortKeepsNodes<N>(cmp: Comparator, s: seq<Item<N>>)
    ensures multiset(NodesOf(MergeSort(cmp, s))) == multiset(NodesOf(s))
    decreases |s|
  {
    if |s| >= 2 {
      var l, r := s[..|s| / 2], s[|s| / 2..];
      MergeSortKeepsNodes(cmp, l);
      MergeSortKeepsNodes(cmp, r);
      MergeKeepsNodes(cmp, MergeSort(cmp, l), MergeSort(cmp, r));
      Halves(cmp, s, |s| / 2);
      NodesAppend(l, r);
    }
  }

  lemma NodesAppend<N>(a: seq<Item<N>>, b: seq<Item<N>>)
    ensures NodesOf(a + b) == NodesOf(a) + NodesOf(b)
  {
  }

  lemma Halves<N>(cmp: Comparator, s: seq<Item<N>>, h: nat)
    requires |s| >= 2 && h == |s| / 2
    ensures s == s[..h] + s[h..] && MergeSort(cmp, s) == Merge(cmp, MergeSort(cmp, s[..h]), MergeSort(cmp, s[h..]))
  {
  }
}
