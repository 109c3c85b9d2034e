/** The in-place merge seen on the sequence of items: the run being merged is kept as
    merged part, rest of the left run, rest of the right run. */
module MergeSteps {
  import opened Ordering
  import opened StableSort

  /** s with the element at j moved to just before the one at i. */
  ghost function Moved<T>(s: seq<T>, i: int, j: int): (r: seq<T>)
    requires 0 <= i < j < |s|
    ensures |r| == |s|
    ensures forall k {:trigger r[k]} :: 0 <= k < |s| ==>
      r[k] == if k == i then s[j] else if i < k <= j then s[k - 1] else s[k]
  {
    seq(|s|, k requires 0 <= k < |s| => if k == i then s[j] else if i < k <= j then s[k - 1] else s[k])
  }

  // Being the merge, or the merge sort, of something is stated item by item, so that it stays folded in proofs
  // that only carry it along.

  ghost predicate MergeAt<N>(cmp: Comparator, a: seq<Item<N>>, b: seq<Item<N>>, m: seq<Item<N>>, k: int)
    requires 0 <= k < |m| == |a| + |b|
  {
    m[k] == Merge(cmp, a, b)[k]
  }

  ghost predicate IsMerge<N>(cmp: Comparator, a: seq<Item<N>>, b: seq<Item<N>>, m: seq<Item<N>>)
  {
    && |m| == |a| + |b|
    && forall k {:trigger MergeAt(cmp, a, b, m, k)} :: 0 <= k < |m| ==> MergeAt(cmp, a, b, m, k)
  }

  lemma MergeIs<N>(cmp: Comparator, a: seq<Item<N>>, b: seq<Item<N>>, m: seq<Item<N>>)
    ensures IsMerge(cmp, a, b, m) <==> m == Merge(cmp, a, b)
  {
    if IsMerge(cmp, a, b, m) {
      forall k | 0 <= k < |m| ensures m[k] == Merge(cmp, a, b)[k] { assert MergeAt(cmp, a, b, m, k); }
    }
  }

  lemma TheMerge<N>(cmp: Comparator, a: seq<Item<N>>, b: seq<Item<N>>) returns (m: seq<Item<N>>)
    ensures IsMerge(cmp, a, b, m)
  {
    m := Merge(cmp, a, b);
    MergeIs(cmp, a, b, m);
  }

  ghost predicate SortAt<N>(cmp: Comparator, s: seq<Item<N>>, m: seq<Item<N>>, k: int)
    requires 0 <= k < |m| == |s|
  {
    m[k] == MergeSort(cmp, s)[k]
  }

  ghost predicate IsSort<N>(cmp: Comparator, s: seq<Item<N>>, m: seq<Item<N>>)
  {
    |m| == |s| && forall k {:trigger SortAt(cmp, s, m, k)} :: 0 <= k < |m| ==> SortAt(cmp, s, m, k)
  }

  lemma SortIs<N>(cmp: Comparator, s: seq<Item<N>>, m: seq<Item<N>>)
    ensures IsSort(cmp, s, m) <==> m == MergeSort(cmp, s)
  {
    if IsSort(cmp, s, m) {
      forall k | 0 <= k < |m| ensures m[k] == MergeSort(cmp, s)[k] { assert SortAt(cmp, s, m, k); }
    }
  }

  lemma SortOfHalves<N>(cmp: Comparator, s: seq<Item<N>>, h: nat, a: seq<Item<N>>, b: seq<Item<N>>, m: seq<Item<N>>)
    requires |s| >= 2 && h == |s| / 2 && IsSort(cmp, s[..h], a) && IsSort(cmp, s[h..], b) && IsMerge(cmp, a, b, m)
    ensures IsSort(cmp, s, m)
  {
    SortIs(cmp, s[..h], a);
    SortIs(cmp, s[h..], b);
    MergeIs(cmp, a, b, m);
    Halves(cmp, s, h);
    SortIs(cmp, s, m);
  }

  lemma SortOfShort<N>(cmp: Comparator, s: seq<Item<N>>)
    requires |s| < 2
    ensures IsSort(cmp, s, s)
  {
    SortIs(cmp, s, s);
  }

  /** Item k of the merge of what remains when l items have been taken from a and r from b. */
  ghost predicate RestAt<N>(cmp: Comparator, a: seq<Item<N>>, b: seq<Item<N>>, l: int, r: int, k: int)
    requires 0 <= l <= |a| && 0 <= r <= |b| && 0 <= k < |a| + |b| - l - r
  {
    Merge(cmp, a, b)[l + r + k] == Merge(cmp, a[l..], b[r..])[k]
  }

  /** Taking l items from a and r from b leaves the merge of what remains. */
  ghost predicate Taken<N>(cmp: Comparator, a: seq<Item<N>>, b: seq<Item<N>>, l: int, r: int)
  {
    && 0 <= l <= |a| && 0 <= r <= |b|
    && forall k {:trigger RestAt(cmp, a, b, l, r, k)} :: 0 <= k < |a| + |b| - l - r ==> RestAt(cmp, a, b, l, r, k)
  }

  lemma TakenRest<N>(cmp: Comparator, a: seq<Item<N>>, b: seq<Item<N>>, l: int, r: int)
    requires Taken(cmp, a, b, l, r)
    ensures Merge(cmp, a, b)[l + r..] == Merge(cmp, a[l..], b[r..])
  {
    var rest := Merge(cmp, a[l..], b[r..]);
    forall k | 0 <= k < |rest| ensures Merge(cmp, a, b)[l + r..][k] == rest[k] {
      assert RestAt(cmp, a, b, l, r, k);
    }
  }

  /** s is w with the runs a and b, which start at lo, merged as far as l and r items; m is their merge. */
  ghost predicate Merging<N>(w: seq<Item<N>>, s: seq<Item<N>>, lo: int, a: seq<Item<N>>, b: seq<Item<N>>,
                             m: seq<Item<N>>, l: int, r: int)
  {
    && |s| == |w| && |m| == |a| + |b| && 0 <= lo && lo + |m| <= |s| && 0 <= l <= |a| && 0 <= r <= |b|
    && forall k {:trigger s[k]} :: 0 <= k < |s| ==>
         s[k] == if lo <= k < lo + l + r then m[k - lo] else if lo + l + r <= k < lo + |a| + r then a[k - lo - r]
                 else if lo + |a| + r <= k < lo + |m| then b[k - lo - |a|] else w[k]
  }

  lemma TakeFirst<N>(cmp: Comparator, a: seq<Item<N>>, b: seq<Item<N>>)
    ensures Taken(cmp, a, b, 0, 0)
  {
    assert a[0..] == a && b[0..] == b;
  }

  lemma TakeLeft<N>(cmp: Comparator, a: seq<Item<N>>, b: seq<Item<N>>, l: int, r: int)
    requires Taken(cmp, a, b, l, r) && l < |a| && r < |b| && cmp(a[l].data, b[r].data) <= 0
    ensures Taken(cmp, a, b, l + 1, r) && Merge(cmp, a, b)[l + r] == a[l]
  {
    TakenRest(cmp, a, b, l, r);
    var m := Merge(cmp, a, b);
    assert a[l..][1..] == a[l + 1..];
    assert m[l + r..][0] == a[l] && m[l + r..][1..] == m[l + r + 1..];
  }

  lemma TakeRight<N>(cmp: Comparator, a: seq<Item<N>>, b: seq<Item<N>>, l: int, r: int)
    requires Taken(cmp, a, b, l, r) && l < |a| && r < |b| && cmp(a[l].data, b[r].data) > 0
    ensures Taken(cmp, a, b, l, r + 1) && Merge(cmp, a, b)[l + r] == b[r]
  {
    TakenRest(cmp, a, b, l, r);
    var m := Merge(cmp, a, b);
    assert b[r..][1..] == b[r + 1..];
    assert m[l + r..][0] == b[r] && m[l + r..][1..] == m[l + r + 1..];
  }

  /** What m has after the first l + r items is what is left of the run that is not used up. */
  ghost predicate InTail<N>(m: seq<Item<N>>, a: seq<Item<N>>, b: seq<Item<N>>, l: int, r: int)
    requires |m| == |a| + |b| && 0 <= l <= |a| && 0 <= r <= |b| && (l == |a| || r == |b|)
  {
    forall k {:trigger m[k]} :: l + r <= k < |m| ==> m[k] == if l == |a| then b[k - |a|] else a[k - r]
  }

  /** With one run used up, the other is already in place. */
  lemma TakeRest<N>(cmp: Comparator, a: seq<Item<N>>, b: seq<Item<N>>, l: int, r: int)
    requires Taken(cmp, a, b, l, r) && (l == |a| || r == |b|)
    ensures InTail(Merge(cmp, a, b), a, b, l, r)
  {
    TakenRest(cmp, a, b, l, r);
    forall k | l + r <= k < |a| + |b|
      ensures Merge(cmp, a, b)[k] == if l == |a| then b[k - |a|] else a[k - r]
    {
      assert Merge(cmp, a, b)[k] == Merge(cmp, a, b)[l + r..][k - l - r];
    }
  }

  lemma MergingStays<N>(w: seq<Item<N>>, s: seq<Item<N>>, lo: int, a: seq<Item<N>>, b: seq<Item<N>>,
                        m: seq<Item<N>>, l: int, r: int)
    requires Merging(w, s, lo, a, b, m, l, r) && l < |a| && r < |b| && m[l + r] == a[l]
    ensures Merging(w, s, lo, a, b, m, l + 1, r)
  {
  }

  lemma MergingMoved<N>(w: seq<Item<N>>, s: seq<Item<N>>, lo: int, a: seq<Item<N>>, b: seq<Item<N>>,
                        m: seq<Item<N>>, l: int, r: int)
    requires Merging(w, s, lo, a, b, m, l, r) && l < |a| && r < |b| && m[l + r] == b[r]
    ensures Merging(w, Moved(s, lo + l + r, lo + |a| + r), lo, a, b, m, l, r + 1)
  {
  }
}
