/** Comparators: what the collections ask of the `cmp` function pointer they are given. */
module Ordering {

  type Ptr = int

  type Comparator = (Ptr, Ptr) -> int

  ghost predicate Mirrored(cmp: Comparator, a: Ptr, b: Ptr)
  {
    cmp(a, b) < 0 <==> cmp(b, a) > 0
  }

  ghost predicate Chained(cmp: Comparator, a: Ptr, b: Ptr, c: Ptr)
  {
    cmp(a, b) <= 0 && cmp(b, c) <= 0 ==> cmp(a, c) <= 0
  }

  ghost predicate TotalPreorder(cmp: Comparator)
  {
    && (forall a, b {:trigger Mirrored(cmp, a, b)} :: Mirrored(cmp, a, b))
    && (forall a, b, c {:trigger Chained(cmp, a, b, c)} :: Chained(cmp, a, b, c))
  }

  lemma Flip(cmp: Comparator, a: Ptr, b: Ptr)
    requires TotalPreorder(cmp)
    ensures (cmp(a, b) < 0 <==> cmp(b, a) > 0) && (cmp(a, b) > 0 <==> cmp(b, a) < 0)
    ensures cmp(a, b) == 0 <==> cmp(b, a) == 0
  {
    assert Mirrored(cmp, a, b) && Mirrored(cmp, b, a);
  }

  lemma LessLeq(cmp: Comparator, a: Ptr, b: Ptr, c: Ptr)
    requires TotalPreorder(cmp)
    ensures cmp(a, b) <= 0 && cmp(b, c) <= 0 ==> cmp(a, c) <= 0 && (cmp(a, b) < 0 || cmp(b, c) < 0 ==> cmp(a, c) < 0)
  {
    assert Chained(cmp, a, b, c);
    if cmp(a, b) <= 0 && cmp(b, c) <= 0 && cmp(a, c) == 0 {
      Flip(cmp, a, c);
      Flip(cmp, a, b);
      Flip(cmp, b, c);
      assert Chained(cmp, b, c, a) && Chained(cmp, c, a, b);
    }
  }

  /** Everything the order says about three keys. */
  lemma Order(cmp: Comparator, a: Ptr, b: Ptr, c: Ptr)
    requires TotalPreorder(cmp)
    ensures (cmp(a, b) < 0 <==> cmp(b, a) > 0) && (cmp(b, c) < 0 <==> cmp(c, b) > 0)
    ensures cmp(a, c) < 0 <==> cmp(c, a) > 0
    ensures (cmp(a, b) > 0 <==> cmp(b, a) < 0) && (cmp(b, c) > 0 <==> cmp(c, b) < 0)
    ensures cmp(a, c) > 0 <==> cmp(c, a) < 0
    ensures cmp(a, b) <= 0 && cmp(b, c) <= 0 ==> cmp(a, c) <= 0 && (cmp(a, b) < 0 || cmp(b, c) < 0 ==> cmp(a, c) < 0)
    ensures cmp(a, c) <= 0 && cmp(c, b) <= 0 ==> cmp(a, b) <= 0 && (cmp(a, c) < 0 || cmp(c, b) < 0 ==> cmp(a, b) < 0)
    ensures cmp(b, a) <= 0 && cmp(a, c) <= 0 ==> cmp(b, c) <= 0 && (cmp(b, a) < 0 || cmp(a, c) < 0 ==> cmp(b, c) < 0)
    ensures cmp(b, c) <= 0 && cmp(c, a) <= 0 ==> cmp(b, a) <= 0 && (cmp(b, c) < 0 || cmp(c, a) < 0 ==> cmp(b, a) < 0)
    ensures cmp(c, a) <= 0 && cmp(a, b) <= 0 ==> cmp(c, b) <= 0 && (cmp(c, a) < 0 || cmp(a, b) < 0 ==> cmp(c, b) < 0)
    ensures cmp(c, b) <= 0 && cmp(b, a) <= 0 ==> cmp(c, a) <= 0 && (cmp(c, b) < 0 || cmp(b, a) < 0 ==> cmp(c, a) < 0)
  {
    Flip(cmp, a, b);
    Flip(cmp, b, c);
    Flip(cmp, a, c);
    LessLeq(cmp, a, b, c);
    LessLeq(cmp, a, c, b);
    LessLeq(cmp, b, a, c);
    LessLeq(cmp, b, c, a);
    LessLeq(cmp, c, a, b);
    LessLeq(cmp, c, b, a);
  }
}
