/** The hash table's iterator, including removal while iterating. */
module HashIter {

  import opened HashChains
  import opened Options
  import opened HashTable

  // ---- what is still to come ----

  /** The entry is in a bucket after b, or in bucket b at position j or after it. */
  ghost predicate IsLater<K, V, I>(s: Scheme<K, I>, chains: seq<seq<Entry<K, V>>>, b: nat, j: nat, e: Entry<K, V>) {
    var h := s.Home(s.Name(e.key), |chains|);
    h > b || (h == b < |chains| && j <= |chains[b]| && e in chains[b][j..])
  }

  ghost function Later<K, V, I>(s: Scheme<K, I>, chains: seq<seq<Entry<K, V>>>, index: map<Option<I>, Entry<K, V>>,
                                b: nat, j: nat): set<Entry<K, V>> {
    set n | n in index && IsLater(s, chains, b, j, index[n]) :: index[n]
  }

  lemma LaterStart<K, V, I>(s: Scheme<K, I>, chains: seq<seq<Entry<K, V>>>, index: map<Option<I>, Entry<K, V>>)
    requires Indexed(s, chains, index)
    ensures Later(s, chains, index, 0, 0) == index.Values
  {
    forall n | n in index ensures IsLater(s, chains, 0, 0, index[n]) {
      assert NameAt(s, chains, index, n);
      if s.Home(n, |chains|) == 0 { assert chains[0][0..] == chains[0]; }
    }
  }

  lemma LaterEnd<K, V, I>(s: Scheme<K, I>, chains: seq<seq<Entry<K, V>>>, index: map<Option<I>, Entry<K, V>>)
    requires Indexed(s, chains, index)
    ensures Later(s, chains, index, |chains|, 0) == {}
  {
    forall n | n in index ensures !IsLater(s, chains, |chains|, 0, index[n]) {
      assert NameAt(s, chains, index, n);
    }
  }

  lemma LaterFirst<K, V, I>(s: Scheme<K, I>, chains: seq<seq<Entry<K, V>>>, index: map<Option<I>, Entry<K, V>>,
                            b: nat, j: nat)
    requires Indexed(s, chains, index) && b < |chains| && j < |chains[b]| && NoDup(chains[b])
    ensures chains[b][j] in Later(s, chains, index, b, j)
    ensures Later(s, chains, index, b, j + 1) == Later(s, chains, index, b, j) - {chains[b][j]}
  {
    assert EntryAt(s, index, |chains|, b, chains[b][j]);
    assert chains[b][j..] == [chains[b][j]] + chains[b][j + 1..];
    assert chains[b][j] !in chains[b][j + 1..];
    assert IsLater(s, chains, b, j, chains[b][j]) && !IsLater(s, chains, b, j + 1, chains[b][j]);
    forall n | n in index
      ensures IsLater(s, chains, b, j + 1, index[n]) <==> IsLater(s, chains, b, j, index[n]) && index[n] != chains[b][j]
    {
    }
  }

  lemma LaterNextBucket<K, V, I>(s: Scheme<K, I>, chains: seq<seq<Entry<K, V>>>, index: map<Option<I>, Entry<K, V>>,
                                 b: nat)
    requires Indexed(s, chains, index) && b < |chains|
    ensures Later(s, chains, index, b + 1, 0) == Later(s, chains, index, b, |chains[b]|)
  {
    forall n | n in index
      ensures IsLater(s, chains, b + 1, 0, index[n]) <==> IsLater(s, chains, b, |chains[b]|, index[n])
    {
      assert NameAt(s, chains, index, n);
      if b + 1 < |chains| { assert chains[b + 1][0..] == chains[b + 1]; }
    }
  }

  lemma LaterWithout<K, V, I>(s: Scheme<K, I>, chains: seq<seq<Entry<K, V>>>, chains': seq<seq<Entry<K, V>>>,
                              index: map<Option<I>, Entry<K, V>>, n: Option<I>, b: nat, j: nat, j': nat)
    requires n in index && !IsLater(s, chains, b, j, index[n])
    requires forall m :: m in index && m != n ==>
      IsLater(s, chains', b, j', index[m]) == IsLater(s, chains, b, j, index[m])
    ensures Later(s, chains', index - {n}, b, j') == Later(s, chains, index, b, j)
  {
    var before, after := Later(s, chains, index, b, j), Later(s, chains', index - {n}, b, j');
    forall e | e in before ensures e in after {
      var m :| m in index && IsLater(s, chains, b, j, index[m]) && index[m] == e;
      assert m in index - {n} && (index - {n})[m] == e;
    }
    forall e | e in after ensures e in before {
      var m :| m in index - {n} && IsLater(s, chains', b, j', (index - {n})[m]) && (index - {n})[m] == e;
      assert m in index && index[m] == e;
    }
  }

  /** Taking out an entry that has been passed changes nothing of what is still to come. */
  lemma LaterTaken<K, V, I>(s: Scheme<K, I>, chains: seq<seq<Entry<K, V>>>, index: map<Option<I>, Entry<K, V>>,
                            b: nat, j: nat, i: nat, at: nat) returns (j': nat)
    requires Indexed(s, chains, index) && i < |chains| && at < |chains[i]| && NoDup(chains[i])
    requires b < |chains| ==> j < |chains[b]|
    requires chains[i][at] !in Later(s, chains, index, b, j)
    ensures b >= |chains| ==> j' == j
    ensures var chains', n := chains[i := Without(chains[i], at)], s.Name(chains[i][at].key);
      && Later(s, chains', index - {n}, b, j') == Later(s, chains, index, b, j)
      && (b < |chains| ==> j' < |chains'[b]| && chains'[b][j'] == chains[b][j])
  {
    var e := chains[i][at];
    assert EntryAt(s, index, |chains|, i, e);
    var n := s.Name(e.key);
    var chains' := chains[i := Without(chains[i], at)];
    assert !IsLater(s, chains, b, j, e);
    j' := if i == b then j - 1 else j;
    if b < |chains| { assert chains'[b][j'..] == chains[b][j..]; }
    forall m | m in index && m != n
      ensures IsLater(s, chains', b, j', index[m]) == IsLater(s, chains, b, j, index[m])
    {
    }
    LaterWithout(s, chains, chains', index, n, b, j, j');
  }

  // ---- the iterator ----

  class HashTableIter<K, V, I(==)> {
    const table: Table<K, V, I>
    var bucketIndex: nat
    var prevEntry: Entry?<K, V>
    var nextEntry: Entry?<K, V>

    /** The next entry is the one at this place, which is (capacity, 0) at the end. */
    ghost predicate Placed(b: nat, j: nat)
      reads this, table
    {
      if nextEntry == null then b == |table.chains| && j == 0
      else b == bucketIndex < |table.chains| && j < |table.chains[b]| && table.chains[b][j] == nextEntry
    }

    /** The entries from this place on. */
    ghost function Pending(b: nat, j: nat): set<Entry<K, V>>
      reads this, table
    {
      Later(table.s, table.chains, table.index, b, j)
    }

    /** cc_hashtable_iter_init */
    constructor (t: Table<K, V, I>)
      requires t.Valid()
      ensures table == t && t.Valid() && prevEntry == null
      ensures exists b :: Placed(b, 0) && Pending(b, 0) == t.index.Values
    {
      LaterStart(t.s, t.chains, t.index);
      var i, e := FirstBucket(t, 0);
      table := t;
      bucketIndex, prevEntry, nextEntry := if e == null then 0 else i, null, e;
      new;
      assert Placed(i, 0) && Pending(i, 0) == t.index.Values;
    }

    /** cc_hashtable_iter_next: None at the end. */
    method Next(ghost b: nat, ghost j: nat) returns (te: Option<Entry<K, V>>, ghost b': nat, ghost j': nat)
      requires table.Valid() && Placed(b, j)
      modifies this`bucketIndex, this`prevEntry, this`nextEntry
      ensures table.Valid() && Placed(b', j')
      ensures te.None? <==> old(nextEntry) == null
      ensures te.Some? ==>
        prevEntry == te.value && te.value in Pending(b, j) && Pending(b', j') == Pending(b, j) - {te.value}
      ensures te.None? ==> Pending(b, j) == {} && b' == b && j' == j
    {
      if nextEntry == null {
        LaterEnd(table.s, table.chains, table.index);
        return None, b, j;
      }
      var e: Entry<K, V> := nextEntry;
      var i, next := Following(table, e, bucketIndex, j);
      prevEntry, nextEntry := e, next;
      if next != null { bucketIndex := i; }
      return Some(e), i, if i == b then j + 1 else 0;
    }

    /** cc_hashtable_iter_remove */
    method Remove(ghost b: nat, ghost j: nat) returns (stat: Stat, out: Option<V>, ghost j': nat)
      requires table.Valid() && Placed(b, j) && prevEntry != null
      requires table.s.Name(prevEntry.key) in table.index && table.index[table.s.Name(prevEntry.key)] == prevEntry
      requires prevEntry !in Pending(b, j)
      modifies table, table.buckets, table.index.Values`next
      ensures table.Valid() && table.buckets == old(table.buckets)
      ensures Placed(b, j') && Pending(b, j') == old(Pending(b, j))
      ensures table.index == old(table.index) - {table.s.Name(prevEntry.key)}
      ensures table.Contents() == old(table.Contents()) - {table.s.Name(prevEntry.key)}
      ensures stat == CC_OK && out == Some(old(prevEntry.value))
    {
      ghost var was, chains, n := table.index, table.chains, table.s.Name(prevEntry.key);
      ghost var i := table.s.Home(n, |chains|);
      assert i < |chains| && NoDup(chains[i]) by {
        assert NameAt(table.s, chains, was, n);
        assert HeadOk(table.buckets, chains, i);
      }
      ghost var at;
      stat, out, at := table.Remove(prevEntry.key);
      j' := LaterTaken(table.s, chains, was, b, j, i, at);
    }
  }

  /** The search of init and next for a bucket that is not empty. */
  method FirstBucket<K, V, I(==)>(t: Table<K, V, I>, from: nat) returns (i: nat, e: Entry?<K, V>)
    requires t.Valid() && from <= t.capacity
    ensures from <= i <= t.capacity && (e == null ==> i == t.capacity)
    ensures e != null ==> i < |t.chains| && t.chains[i] != [] && t.chains[i][0] == e
    ensures Later(t.s, t.chains, t.index, i, 0) == Later(t.s, t.chains, t.index, from, 0)
  {
    i, e := from, null;
    while i < t.capacity
      invariant from <= i <= t.capacity && e == null
      invariant Later(t.s, t.chains, t.index, i, 0) == Later(t.s, t.chains, t.index, from, 0)
    {
      assert HeadOk(t.buckets, t.chains, i);
      e := t.buckets[i];
      if e != null { return; }
      LaterNextBucket(t.s, t.chains, t.index, i);
      i := i + 1;
    }
  }

  /** The entry after one in bucket b, there or in a later bucket. */
  method Following<K, V, I(==)>(t: Table<K, V, I>, e: Entry<K, V>, b: nat, ghost j: nat)
    returns (i: nat, next: Entry?<K, V>)
    requires t.Valid() && b < |t.chains| && j < |t.chains[b]| && t.chains[b][j] == e
    ensures t.Valid()
    ensures e in Later(t.s, t.chains, t.index, b, j)
    ensures b <= i <= t.capacity && (next == null ==> i == t.capacity)
    ensures next != null ==> i < |t.chains| && next == At(t.chains[i], if i == b then j + 1 else 0)
    ensures Later(t.s, t.chains, t.index, i, if i == b then j + 1 else 0) == Later(t.s, t.chains, t.index, b, j) - {e}
  {
    assert HeadOk(t.buckets, t.chains, b);
    LaterFirst(t.s, t.chains, t.index, b, j);
    i, next := b, e.next;
    if next == null {
      LaterNextBucket(t.s, t.chains, t.index, b);
      i, next := FirstBucket(t, b + 1);
    }
  }
}
