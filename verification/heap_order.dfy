/** Max-heaps in sequences: sifting up and down, and what the top is. */
module HeapOrder {

  import opened Ordering

  /** CC_PARENT */
  function Parent(i: nat): (p: nat)
    ensures i > 0 ==> p < i
  {
    if i > 0 then (i - 1) / 2 else 0
  }

  /** CC_LEFT and CC_RIGHT */
  function Left(i: nat): nat { 2 * i + 1 }
  function Right(i: nat): nat { 2 * i + 2 }

  lemma ChildParent(i: nat, c: nat)
    ensures c > 0 && Parent(c) == i <==> c == Left(i) || c == Right(i)
  {
  }

  /** Element j has no higher priority than element i. */
  ghost predicate NotBelow(cmp: Comparator, s: seq<Ptr>, i: nat, j: nat)
    requires i < |s| && j < |s|
  {
    cmp(s[i], s[j]) >= 0
  }

  ghost predicate Heap(cmp: Comparator, s: seq<Ptr>) {
    forall i :: 0 < i < |s| ==> NotBelow(cmp, s, Parent(i), i)
  }

  /** A heap except perhaps between hole and its parent, whose parent is not below its children. */
  ghost predicate UpHole(cmp: Comparator, s: seq<Ptr>, hole: nat) {
    && (forall i :: 0 < i < |s| && i != hole ==> NotBelow(cmp, s, Parent(i), i))
    && (forall i :: 0 < i < |s| && 0 < hole < |s| && Parent(i) == hole ==> NotBelow(cmp, s, Parent(hole), i))
  }

  /** A heap except perhaps between hole and its children, which its parent is not below. */
  ghost predicate DownHole(cmp: Comparator, s: seq<Ptr>, hole: nat) {
    && (forall i :: 0 < i < |s| && Parent(i) != hole ==> NotBelow(cmp, s, Parent(i), i))
    && (forall i :: 0 < i < |s| && 0 < hole < |s| && Parent(i) == hole ==> NotBelow(cmp, s, Parent(hole), i))
  }

  function Swapped(s: seq<Ptr>, i: nat, j: nat): seq<Ptr>
    requires i < |s| && j < |s|
  {
    s[i := s[j]][j := s[i]]
  }

  lemma SwapKeeps(s: seq<Ptr>, i: nat, j: nat)
    requires i < |s| && j < |s|
    ensures multiset(Swapped(s, i, j)) == multiset(s)
  {
  }

  /** An element of higher priority than its parent changes places with it. */
  lemma SiftUp(cmp: Comparator, s: seq<Ptr>, i: nat)
    requires TotalPreorder(cmp) && 0 < i < |s| && UpHole(cmp, s, i) && cmp(s[i], s[Parent(i)]) > 0
    ensures UpHole(cmp, Swapped(s, i, Parent(i)), Parent(i))
  {
    var p := Parent(i);
    var r := Swapped(s, i, p);
    forall k | 0 < k < |r| && k != p ensures NotBelow(cmp, r, Parent(k), k) {
      SiftUpAt(cmp, s, i, k);
    }
    if p > 0 {
      forall k | 0 < k < |r| && Parent(k) == p ensures NotBelow(cmp, r, Parent(p), k) {
        assert NotBelow(cmp, s, Parent(p), p);
        if k != i {
          assert NotBelow(cmp, s, p, k);
          Order(cmp, s[Parent(p)], s[p], s[k]);
        }
      }
    }
  }

  lemma SiftUpAt(cmp: Comparator, s: seq<Ptr>, i: nat, k: nat)
    requires TotalPreorder(cmp) && 0 < i < |s| && UpHole(cmp, s, i) && cmp(s[i], s[Parent(i)]) > 0
    requires 0 < k < |s| && k != Parent(i)
    ensures NotBelow(cmp, Swapped(s, i, Parent(i)), Parent(k), k)
  {
    var p := Parent(i);
    if k == i {
      assert cmp(s[i], s[p]) > 0;
    } else if Parent(k) == i {
      assert NotBelow(cmp, s, p, k);
    } else if Parent(k) == p {
      assert NotBelow(cmp, s, p, k);
      Order(cmp, s[i], s[p], s[k]);
    } else {
      assert NotBelow(cmp, s, Parent(k), k);
    }
  }

  lemma UpHoleDone(cmp: Comparator, s: seq<Ptr>, i: nat)
    requires TotalPreorder(cmp) && i < |s| && UpHole(cmp, s, i) && (i == 0 || cmp(s[i], s[Parent(i)]) <= 0)
    ensures Heap(cmp, s)
  {
    if i > 0 { Flip(cmp, s[i], s[Parent(i)]); }
  }

  /** Where heapify goes next: the child of highest priority, if one is above its parent. */
  function Higher(cmp: Comparator, s: seq<Ptr>, i: nat): (h: nat)
    requires i < |s|
    ensures h < |s| && (h == i || h == Left(i) || h == Right(i))
  {
    var l := if Left(i) < |s| && cmp(s[i], s[Left(i)]) < 0 then Left(i) else i;
    if Right(i) < |s| && cmp(s[l], s[Right(i)]) < 0 then Right(i) else l
  }

  lemma HigherIsHighest(cmp: Comparator, s: seq<Ptr>, i: nat)
    requires TotalPreorder(cmp) && i < |s|
    ensures forall c :: 0 < c < |s| && Parent(c) == i ==> NotBelow(cmp, s, Higher(cmp, s, i), c)
    ensures Higher(cmp, s, i) != i ==> cmp(s[i], s[Higher(cmp, s, i)]) < 0
  {
    forall c | 0 < c < |s| && Parent(c) == i ensures NotBelow(cmp, s, Higher(cmp, s, i), c) {
      ChildParent(i, c);
      Flip(cmp, s[Higher(cmp, s, i)], s[c]);
      Flip(cmp, s[i], s[c]);
      if Left(i) < |s| && Right(i) < |s| {
        Order(cmp, s[i], s[Left(i)], s[Right(i)]);
      }
      Flip(cmp, s[c], s[c]);
    }
    if Left(i) < |s| && Right(i) < |s| { Order(cmp, s[i], s[Left(i)], s[Right(i)]); }
  }

  lemma SiftDown(cmp: Comparator, s: seq<Ptr>, i: nat)
    requires TotalPreorder(cmp) && i < |s| && DownHole(cmp, s, i) && Higher(cmp, s, i) != i
    ensures DownHole(cmp, Swapped(s, i, Higher(cmp, s, i)), Higher(cmp, s, i))
  {
    var h := Higher(cmp, s, i);
    var r := Swapped(s, i, h);
    HigherIsHighest(cmp, s, i);
    ChildParent(i, h);
    forall k | 0 < k < |r| && Parent(k) != h ensures NotBelow(cmp, r, Parent(k), k) {
      if k == i {
        assert NotBelow(cmp, s, Parent(i), h);
      } else if Parent(k) == i {
        assert NotBelow(cmp, s, h, k);
        Flip(cmp, s[i], s[h]);
      } else {
        assert NotBelow(cmp, s, Parent(k), k);
      }
    }
    forall k | 0 < k < |r| && Parent(k) == h ensures NotBelow(cmp, r, Parent(h), k) {
      assert NotBelow(cmp, s, h, k);
    }
  }

  lemma DownHoleDone(cmp: Comparator, s: seq<Ptr>, i: nat)
    requires TotalPreorder(cmp) && i < |s| && DownHole(cmp, s, i) && Higher(cmp, s, i) == i
    ensures Heap(cmp, s)
  {
    HigherIsHighest(cmp, s, i);
  }

  /** The first element of a heap has the highest priority. */
  lemma {:induction false} TopIsHighest(cmp: Comparator, s: seq<Ptr>, i: nat)
    requires TotalPreorder(cmp) && Heap(cmp, s) && i < |s|
    ensures NotBelow(cmp, s, 0, i)
  {
    if i == 0 {
      Flip(cmp, s[0], s[0]);
    } else {
      TopIsHighest(cmp, s, Parent(i));
      assert NotBelow(cmp, s, Parent(i), i);
      Order(cmp, s[0], s[Parent(i)], s[i]);
    }
  }
}
