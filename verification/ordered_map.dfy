/** What a table means: a list of entries in strictly ascending key order, used as a map.  The comparator is any
    total preorder on keys; two keys it calls equal are the same key to the table. */
module OrderedMap {

  import opened Options
  import opened Ordering

  datatype Entry = Entry(key: Ptr, value: Ptr)

  ghost predicate Before(cmp: Comparator, es: seq<Entry>, i: int, j: int)
    requires 0 <= i < j < |es|
  {
    cmp(es[i].key, es[j].key) < 0
  }

  ghost predicate Ascending(cmp: Comparator, es: seq<Entry>)
  {
    forall i, j {:trigger Before(cmp, es, i, j)} :: 0 <= i < j < |es| ==> Before(cmp, es, i, j)
  }

  lemma AscendingTail(cmp: Comparator, es: seq<Entry>)
    requires Ascending(cmp, es) && es != []
    ensures Ascending(cmp, es[1..])
  {
    forall i, j | 0 <= i < j < |es[1..]| ensures Before(cmp, es[1..], i, j) {
      assert Before(cmp, es, i + 1, j + 1);
    }
  }

  lemma AscendingDrop(cmp: Comparator, es: seq<Entry>, p: nat)
    requires Ascending(cmp, es) && p < |es|
    ensures Ascending(cmp, es[..p] + es[p + 1..])
  {
    var r := es[..p] + es[p + 1..];
    forall i, j | 0 <= i < j < |r| ensures Before(cmp, r, i, j) {
      assert Before(cmp, es, if i < p then i else i + 1, if j < p then j else j + 1);
    }
  }

  function Find(cmp: Comparator, es: seq<Entry>, k: Ptr): Option<Ptr>
  {
    if es == [] then None
    else if cmp(k, es[0].key) == 0 then Some(es[0].value)
    else Find(cmp, es[1..], k)
  }

  function Put(cmp: Comparator, es: seq<Entry>, k: Ptr, v: Ptr): seq<Entry>
  {
    if es == [] || cmp(k, es[0].key) < 0 then [Entry(k, v)] + es
    else if cmp(k, es[0].key) == 0 then [es[0].(value := v)] + es[1..]
    else [es[0]] + Put(cmp, es[1..], k, v)
  }

  function Del(cmp: Comparator, es: seq<Entry>, k: Ptr): seq<Entry>
  {
    if es == [] then []
    else if cmp(k, es[0].key) == 0 then es[1..]
    else [es[0]] + Del(cmp, es[1..], k)
  }

  // ---- Put, Del and Find by position ----

  lemma {:induction false} FindAt(cmp: Comparator, es: seq<Entry>, k: Ptr, i: nat)
    requires TotalPreorder(cmp) && Ascending(cmp, es) && i < |es| && cmp(k, es[i].key) == 0
    ensures Find(cmp, es, k) == Some(es[i].value)
  {
    if i > 0 {
      assert Before(cmp, es, 0, i);
      AscendingTail(cmp, es);
      Order(cmp, es[0].key, es[i].key, k);
      FindAt(cmp, es[1..], k, i - 1);
    }
  }

  lemma {:induction false} FindNone(cmp: Comparator, es: seq<Entry>, k: Ptr)
    requires forall i :: 0 <= i < |es| ==> cmp(k, es[i].key) != 0
    ensures Find(cmp, es, k) == None
  {
    if es != [] {
      FindNone(cmp, es[1..], k);
    }
  }

  lemma {:induction false} FindSome(cmp: Comparator, es: seq<Entry>, k: Ptr) returns (i: nat)
    requires Find(cmp, es, k) != None
    ensures i < |es| && cmp(k, es[i].key) == 0 && Find(cmp, es, k) == Some(es[i].value)
  {
    if cmp(k, es[0].key) == 0 {
      i := 0;
    } else {
      i := FindSome(cmp, es[1..], k);
      i := i + 1;
    }
  }

  lemma {:induction false} PutFresh(cmp: Comparator, es: seq<Entry>, k: Ptr, v: Ptr, d: nat)
    requires TotalPreorder(cmp) && d <= |es|
    requires forall i :: 0 <= i < d ==> cmp(es[i].key, k) < 0
    requires forall i :: d <= i < |es| ==> cmp(k, es[i].key) < 0
    ensures Put(cmp, es, k, v) == es[..d] + [Entry(k, v)] + es[d..]
  {
    if d > 0 {
      Flip(cmp, k, es[0].key);
      PutFresh(cmp, es[1..], k, v, d - 1);
      assert es[..d] == [es[0]] + es[1..][..d - 1];
      assert es[d..] == es[1..][d - 1..];
    }
  }

  lemma {:induction false} PutReplaces(cmp: Comparator, es: seq<Entry>, k: Ptr, v: Ptr, i: nat)
    requires TotalPreorder(cmp) && Ascending(cmp, es) && i < |es| && cmp(k, es[i].key) == 0
    ensures Put(cmp, es, k, v) == es[i := es[i].(value := v)]
  {
    if i > 0 {
      assert Before(cmp, es, 0, i);
      AscendingTail(cmp, es);
      Order(cmp, es[0].key, es[i].key, k);
      PutReplaces(cmp, es[1..], k, v, i - 1);
    }
  }

  lemma CutBehindHead(es: seq<Entry>, i: nat)
    requires 0 < i < |es|
    ensures [es[0]] + (es[1..][..i - 1] + es[1..][i - 1 + 1..]) == es[..i] + es[i + 1..]
  {
    assert es[1..][i - 1 + 1..] == es[i + 1..];
    assert [es[0]] + es[1..][..i - 1] == es[..i];
  }

  lemma {:induction false} DelAt(cmp: Comparator, es: seq<Entry>, k: Ptr, i: nat)
    requires TotalPreorder(cmp) && Ascending(cmp, es) && i < |es| && cmp(k, es[i].key) == 0
    ensures Del(cmp, es, k) == es[..i] + es[i + 1..]
  {
    if i > 0 {
      assert Before(cmp, es, 0, i);
      AscendingTail(cmp, es);
      Order(cmp, es[0].key, es[i].key, k);
      DelAt(cmp, es[1..], k, i - 1);
      CutBehindHead(es, i);
    }
  }

  lemma {:induction false} DelNone(cmp: Comparator, es: seq<Entry>, k: Ptr)
    requires forall i :: 0 <= i < |es| ==> cmp(k, es[i].key) != 0
    ensures Del(cmp, es, k) == es
  {
    if es != [] {
      DelNone(cmp, es[1..], k);
    }
  }

  // ---- the map laws ----

  lemma {:induction false} FindAfterPut(cmp: Comparator, es: seq<Entry>, k: Ptr, v: Ptr, q: Ptr)
    requires TotalPreorder(cmp) && Ascending(cmp, es)
    ensures Find(cmp, Put(cmp, es, k, v), q) == if cmp(q, k) == 0 then Some(v) else Find(cmp, es, q)
  {
    if es != [] {
      var e := es[0];
      if cmp(k, e.key) < 0 {
        if cmp(q, k) == 0 { assert Put(cmp, es, k, v)[0] == Entry(k, v); }
        else { assert Put(cmp, es, k, v)[1..] == es; }
      } else if cmp(k, e.key) == 0 {
        assert Put(cmp, es, k, v)[1..] == es[1..];
        assert (cmp(q, k) == 0) == (cmp(q, e.key) == 0) by {
          Order(cmp, q, k, e.key);
        }
      } else {
        AscendingTail(cmp, es);
        FindAfterPut(cmp, es[1..], k, v, q);
        assert Put(cmp, es, k, v)[1..] == Put(cmp, es[1..], k, v);
        if cmp(q, e.key) == 0 && cmp(q, k) == 0 { Order(cmp, k, q, e.key); }
      }
    }
  }

  lemma {:induction false} FindAfterDel(cmp: Comparator, es: seq<Entry>, k: Ptr, q: Ptr)
    requires TotalPreorder(cmp) && Ascending(cmp, es)
    ensures Find(cmp, Del(cmp, es, k), q) == if cmp(q, k) == 0 then None else Find(cmp, es, q)
  {
    if es != [] {
      var e := es[0];
      if cmp(k, e.key) == 0 {
        if cmp(q, k) == 0 {
          Order(cmp, q, k, e.key);
          forall i | 0 <= i < |es[1..]| ensures cmp(q, es[1..][i].key) != 0 {
            assert Before(cmp, es, 0, i + 1);
            Order(cmp, q, e.key, es[i + 1].key);
          }
          FindNone(cmp, es[1..], q);
        } else if cmp(q, e.key) == 0 {
          Order(cmp, q, e.key, k);
        }
      } else {
        AscendingTail(cmp, es);
        FindAfterDel(cmp, es[1..], k, q);
        assert Del(cmp, es, k)[1..] == Del(cmp, es[1..], k);
        if cmp(q, e.key) == 0 && cmp(q, k) == 0 { Order(cmp, k, q, e.key); }
      }
    }
  }

  lemma {:induction false} PutAscending(cmp: Comparator, es: seq<Entry>, k: Ptr, v: Ptr)
    requires TotalPreorder(cmp) && Ascending(cmp, es)
    ensures Ascending(cmp, Put(cmp, es, k, v))
    ensures |Put(cmp, es, k, v)| == |es| + if Find(cmp, es, k) == None then 1 else 0
  {
    var r := Put(cmp, es, k, v);
    if i :| 0 <= i < |es| && cmp(k, es[i].key) == 0 {
      PutReplaces(cmp, es, k, v, i);
      FindAt(cmp, es, k, i);
      forall a, b | 0 <= a < b < |r| ensures Before(cmp, r, a, b) {
        assert Before(cmp, es, a, b);
      }
    } else {
      FindNone(cmp, es, k);
      var d := Rank(cmp, es, k);
      PutFresh(cmp, es, k, v, d);
      forall i, j | 0 <= i < j < |r| ensures Before(cmp, r, i, j) {
        if j < d { assert Before(cmp, es, i, j); }
        else if i < d < j { assert Before(cmp, es, i, j - 1); }
        else if d < i { assert Before(cmp, es, i - 1, j - 1); }
      }
    }
  }

  /** How many keys lie below a key that is not there. */
  lemma {:induction false} Rank(cmp: Comparator, es: seq<Entry>, k: Ptr) returns (d: nat)
    requires TotalPreorder(cmp) && Ascending(cmp, es)
    requires forall i :: 0 <= i < |es| ==> cmp(k, es[i].key) != 0
    ensures d <= |es|
    ensures forall i :: 0 <= i < d ==> cmp(es[i].key, k) < 0
    ensures forall i :: d <= i < |es| ==> cmp(k, es[i].key) < 0
  {
    d := 0;
    while d < |es| && cmp(es[d].key, k) < 0
      invariant d <= |es| && forall i :: 0 <= i < d ==> cmp(es[i].key, k) < 0
    {
      d := d + 1;
    }
    forall i | d <= i < |es| ensures cmp(k, es[i].key) < 0 {
      Flip(cmp, k, es[d].key);
      if i > d {
        assert Before(cmp, es, d, i);
        Order(cmp, k, es[d].key, es[i].key);
      }
    }
  }

  lemma {:induction false} DelAscending(cmp: Comparator, es: seq<Entry>, k: Ptr)
    requires TotalPreorder(cmp) && Ascending(cmp, es)
    ensures Ascending(cmp, Del(cmp, es, k))
    ensures |Del(cmp, es, k)| == |es| - if Find(cmp, es, k) == None then 0 else 1
  {
    if i :| 0 <= i < |es| && cmp(k, es[i].key) == 0 {
      DelAt(cmp, es, k, i);
      FindAt(cmp, es, k, i);
      AscendingDrop(cmp, es, i);
    } else {
      DelNone(cmp, es, k);
      FindNone(cmp, es, k);
    }
  }
}
