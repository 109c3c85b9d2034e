/**
 * The chained hash table (components/Collections-C/src/cc_hashtable.c), in place. Keys are told apart
 * by the identity that `id` gives them, and the hash is a function of the identity, so equal keys
 * hash equally.
 */
module HashTable {

  import opened Powers
  import opened HashChains
  import opened Options
  import opened HashResize

  datatype Stat = CC_OK | CC_ERR_KEY_NOT_FOUND | CC_ERR_MAX_CAPACITY
  datatype Pair<K, V> = Pair(key: Option<K>, value: V)

  ghost function Pairs<K, V, I>(index: map<Option<I>, Entry<K, V>>): map<Option<I>, Pair<K, V>>
    reads index.Values`value
  {
    map n | n in index :: Pair(index[n].key, index[n].value)
  }

  lemma PairsUpdate<K, V, I>(index: map<Option<I>, Entry<K, V>>, n: Option<I>, e: Entry<K, V>)
    ensures Pairs(index[n := e]) == Pairs(index)[n := Pair(e.key, e.value)]
  {
  }

  lemma PairsWithout<K, V, I>(index: map<Option<I>, Entry<K, V>>, n: Option<I>)
    ensures Pairs(index - {n}) == Pairs(index) - {n}
  {
  }

  twostate lemma PairsFrame<K, V, I>(index: map<Option<I>, Entry<K, V>>)
    requires forall e :: e in index.Values ==> e.value == old(e.value)
    ensures Pairs(index) == old(Pairs(index))
  {
  }

  class Table<K, V, I(==)> {
    const s: Scheme<K, I>
    const load: nat -> nat           // the threshold for a capacity
    const arch64: bool
    var capacity: nat
    var size: nat
    var threshold: nat
    var buckets: array<Entry?<K, V>>
    ghost var chains: seq<seq<Entry<K, V>>>
    ghost var index: map<Option<I>, Entry<K, V>>   // the entry of each identity

    ghost predicate Numbers()
      reads this
    {
      && capacity == buckets.Length == |chains| && LegalCapacity(capacity, arch64)
      && size == |index|
      && threshold == load(capacity)
      && Masks(s.mask)
    }

    ghost predicate Valid()
      reads this, buckets, index.Values`next
    {
      && Numbers()
      && Indexed(s, chains, index)
      && OnRecord(chains, index)
      && (forall i :: 0 <= i < |chains| ==> HeadOk(buckets, chains, i))
    }

    /** What the table holds. */
    ghost function Contents(): map<Option<I>, Pair<K, V>>
      reads this`index, index.Values`value
    {
      Pairs(index)
    }

    /** cc_hashtable_new_conf */
    constructor (id: K -> I, hasher: I -> nat, load: nat -> nat, arch64: bool, initialCapacity: nat)
      ensures Valid() && fresh(buckets) && Contents() == map[]
      ensures s == Scheme(id, hasher, And) && this.load == load && this.arch64 == arch64
      ensures if initialCapacity < MaxPowTwo(arch64) then LeastPower(initialCapacity, capacity)
              else capacity == MaxPowTwo(arch64)
    {
      this.s, this.load, this.arch64 := Scheme(id, hasher, And), load, arch64;
      var cap := RoundPowTwo(initialCapacity, arch64);
      capacity, size, threshold := cap, 0, load(cap);
      var none: Entry?<K, V> := null;
      buckets := new Entry?<K, V>[cap](i => none);
      chains, index := seq(cap, i => []), map[];
    }

    predicate Matches(e: Entry<K, V>, key: Option<K>): (same: bool)
      ensures same <==> s.Name(e.key) == s.Name(key)
    {
      match key
      case None => e.key.None?
      case Some(k) => e.key.Some? && s.id(e.key.value) == s.id(k)
    }

    /** get_table_index; the NULL key is in bucket 0. */
    method IndexOf(key: Option<K>) returns (i: nat)
      requires Valid()
      ensures i == s.Home(s.Name(key), capacity) && i < capacity
    {
      match key
      case None => i := s.mask(0, capacity - 1);
      case Some(k) => i := s.mask(s.hasher(s.id(k)), capacity - 1);
    }

    lemma InChain(n: Option<I>)
      requires Valid()
      ensures n in index ==> s.Home(n, capacity) < |chains| && index[n] in chains[s.Home(n, capacity)]
      ensures n in index ==> s.Name(index[n].key) == n
    {
      assert n in index ==> NameAt(s, chains, index, n);
    }

    /** The walk along a chain of get, of add before it inserts, and of remove. */
    method Walk(key: Option<K>, first: Entry?<K, V>, ghost chain: seq<Entry<K, V>>)
      returns (prev: Entry?<K, V>, e: Entry?<K, V>, ghost j: nat)
      requires Linked(chain) && first == At(chain, 0)
      ensures j <= |chain| && e == At(chain, j) && prev == if j == 0 then null else chain[j - 1]
      ensures e == null ==> forall k :: 0 <= k < |chain| ==> s.Name(chain[k].key) != s.Name(key)
      ensures e != null ==> s.Name(e.key) == s.Name(key)
    {
      prev, e, j := null, first, 0;
      while e != null && !Matches(e, key)
        invariant j <= |chain| && e == At(chain, j)
        invariant prev == if j == 0 then null else chain[j - 1]
        invariant forall k :: 0 <= k < j ==> s.Name(chain[k].key) != s.Name(key)
        decreases |chain| - j
      {
        prev, e, j := e, e.next, j + 1;
      }
    }

    /** The walk in the bucket of a key. */
    method Search(key: Option<K>, i: nat) returns (prev: Entry?<K, V>, e: Entry?<K, V>, ghost j: nat)
      requires Valid() && i == s.Home(s.Name(key), capacity) && i < capacity
      ensures j <= |chains[i]| && e == At(chains[i], j)
      ensures prev == if j == 0 then null else chains[i][j - 1]
      ensures e == null ==> s.Name(key) !in index
      ensures e != null ==> s.Name(key) in index && index[s.Name(key)] == e
    {
      ghost var chain := chains[i];
      assert HeadOk(buckets, chains, i);
      prev, e, j := Walk(key, buckets[i], chain);
      if e == null {
        InChain(s.Name(key));
      } else {
        assert EntryAt(s, index, capacity, i, chain[j]);
      }
    }

    /** cc_hashtable_get */
    method Get(key: Option<K>) returns (stat: Stat, out: Option<V>)
      requires Valid()
      ensures stat == CC_OK <==> s.Name(key) in Contents()
      ensures stat == CC_OK ==> out == Some(Contents()[s.Name(key)].value)
      ensures stat != CC_OK ==> stat == CC_ERR_KEY_NOT_FOUND && out == None
    {
      var i := IndexOf(key);
      var prev, e, j := Search(key, i);
      if e == null { return CC_ERR_KEY_NOT_FOUND, None; }
      return CC_OK, Some(e.value);
    }

    /** An equal key is there already: its value is replaced. */
    method Replace(e: Entry<K, V>, val: V, ghost n: Option<I>)
      requires Valid() && n in index && index[n] == e
      modifies e`value
      ensures Valid()
      ensures Contents() == old(Contents())[n := Pair(old(Contents())[n].key, val)]
    {
      InChain(n);
      forall m | m in index && m != n ensures index[m] != e { InChain(m); }
      e.value := val;
    }

    /** What linking a new entry in front of chain i writes. */
    twostate predicate LinkedNew(e: Entry<K, V>, new i: nat, new n: Option<I>)
      reads this, buckets
    {
      && i < |old(chains)| && buckets == old(buckets) && capacity == old(capacity) && threshold == old(threshold)
      && size == old(size) + 1
      && chains == old(chains)[i := [e] + old(chains)[i]]
      && index == old(index)[n := e]
      && (forall k :: 0 <= k < buckets.Length ==> buckets[k] == if k == i then e else old(buckets[k]))
    }

    twostate lemma LinkedChainOk(e: Entry<K, V>, new i: nat, new n: Option<I>, new k: nat)
      requires LinkedNew(e, i, n) && |chains| == buckets.Length && k < |chains|
      requires old(HeadOk(buckets, chains, i)) && e !in old(chains)[i] && old(e.next) == old(buckets[i])
      requires old(HeadOk(buckets, chains, k)) && forall x: Entry<K, V> :: old(allocated(x)) ==> x.next == old(x.next)
      ensures HeadOk(buckets, chains, k)
    {
      if k == i {
        LinkedFrame(old(chains)[i]);
        LinkedFront(e, old(chains)[i]);
      } else {
        LinkedFrame(old(chains)[k]);
      }
    }

    twostate lemma LinkedValid(e: Entry<K, V>, new i: nat, new n: Option<I>)
      requires old(Valid()) && LinkedNew(e, i, n) && n == s.Name(e.key) && n !in old(index) && e.hash == s.HashOf(n)
      requires i == s.Home(n, old(capacity)) && old(e.next) == old(buckets[i])
      requires forall x: Entry<K, V> :: old(allocated(x)) ==> x.next == old(x.next)
      ensures Valid()
    {
      IndexedFront(s, old(chains), old(index), e, n, i);
      IndexedOnRecord(s, chains, index);
      forall k | 0 <= k < |chains| ensures HeadOk(buckets, chains, k) {
        assert old(HeadOk(buckets, chains, i)) && old(HeadOk(buckets, chains, k));
        LinkedChainOk(e, i, n, k);
      }
    }

    /** A new entry goes to the front of its chain. */
    method Link(e: Entry<K, V>, i: nat, ghost n: Option<I>)
      requires Valid() && n == s.Name(e.key) && n !in index && e.hash == s.HashOf(n)
      requires i == s.Home(n, capacity) && i < capacity && e.next == buckets[i]
      modifies this, buckets
      ensures Valid() && LinkedNew(e, i, n)
    {
      buckets[i] := e;
      size := size + 1;
      chains := chains[i := [e] + chains[i]];
      index := index[n := e];
      LinkedValid(e, i, n);
    }

    method Insert(key: Option<K>, val: V, i: nat)
      requires Valid() && i == s.Home(s.Name(key), capacity) && i < capacity && s.Name(key) !in index
      modifies this, buckets
      ensures Valid() && buckets == old(buckets) && capacity == old(capacity)
      ensures fresh(index.Values - old(index.Values))
      ensures Contents() == old(Contents())[s.Name(key) := Pair(key, val)]
    {
      var e := new Entry(key, val, s.HashOf(s.Name(key)), buckets[i]);
      assert Pairs(index) == old(Contents());
      PairsUpdate(index, s.Name(key), e);
      Link(e, i, s.Name(key));
    }

    /** What unlinking entry j of chain i writes; its predecessor, or the bucket, now points to `skip`. */
    twostate predicate Unlinked(new i: nat, new j: nat, new n: Option<I>, new skip: Entry?<K, V>)
      reads this, buckets
    {
      && i < |old(chains)| && j < |old(chains)[i]| && buckets == old(buckets) && capacity == old(capacity)
      && threshold == old(threshold) && n in old(index) && size == old(size) - 1
      && chains == old(chains)[i := Without(old(chains)[i], j)]
      && index == old(index) - {n}
      && (forall k :: 0 <= k < buckets.Length ==>
            buckets[k] == if k == i && j == 0 then skip else old(buckets[k]))
    }

    twostate lemma UnlinkedChainOk(prev: Entry?<K, V>, new skip: Entry?<K, V>, new i: nat, new j: nat,
                                   new n: Option<I>, new k: nat)
      requires Unlinked(i, j, n, skip) && |chains| == buckets.Length && k < |chains|
      requires old(HeadOk(buckets, chains, i)) && old(HeadOk(buckets, chains, k)) && skip == old(chains[i][j].next)
      requires prev == if j == 0 then null else old(chains)[i][j - 1]
      requires forall x: Entry<K, V> :: old(allocated(x)) ==> x.next == if x == prev then skip else old(x.next)
      requires k != i && j > 0 ==> prev !in old(chains)[k]
      ensures HeadOk(buckets, chains, k)
    {
      if k == i {
        LinkedWithout(old(chains)[i], j);
      } else {
        LinkedFrame(old(chains)[k]);
      }
    }

    twostate lemma UnlinkedValid(prev: Entry?<K, V>, new skip: Entry?<K, V>, new i: nat, new j: nat, new n: Option<I>)
      requires old(Valid()) && Unlinked(i, j, n, skip) && skip == old(chains[i][j].next)
      requires n == s.Name(old(chains)[i][j].key)
      requires prev == if j == 0 then null else old(chains)[i][j - 1]
      requires forall x: Entry<K, V> :: old(allocated(x)) ==> x.next == if x == prev then skip else old(x.next)
      ensures Valid()
    {
      assert old(HeadOk(buckets, chains, i));
      IndexedWithout(s, old(chains), old(index), i, j);
      IndexedOnRecord(s, chains, index);
      forall k | 0 <= k < |chains| ensures HeadOk(buckets, chains, k) {
        assert old(HeadOk(buckets, chains, k));
        if k != i && j > 0 { Separate(s, old(chains), old(index), i, j - 1, k); }
        UnlinkedChainOk(prev, skip, i, j, n, k);
      }
    }

    method Skip(prev: Entry?<K, V>, skip: Entry?<K, V>, i: nat)
      requires i < buckets.Length && (prev != null ==> prev in index.Values)
      modifies buckets, index.Values`next
      ensures forall k :: 0 <= k < buckets.Length ==>
        buckets[k] == if k == i && prev == null then skip else old(buckets[k])
      ensures forall x: Entry<K, V> :: old(allocated(x)) ==> x.next == if x == prev then skip else old(x.next)
    {
      if prev == null {
        buckets[i] := skip;
      } else {
        prev.next := skip;
      }
    }

    /** The entry found by a search is taken out of its chain. */
    method Unlink(prev: Entry?<K, V>, e: Entry<K, V>, i: nat, ghost j: nat, ghost n: Option<I>)
      requires Valid() && i < capacity && j < |chains[i]| && e == chains[i][j] && n == s.Name(e.key) && n in index
      requires prev == if j == 0 then null else chains[i][j - 1]
      modifies this, buckets, index.Values`next
      ensures Unlinked(i, j, n, old(e.next))
      ensures forall x: Entry<K, V> :: old(allocated(x)) ==> x.next == if x == prev then old(e.next) else old(x.next)
      ensures forall x: Entry<K, V> :: old(allocated(x)) ==> x.value == old(x.value)
    {
      Skip(prev, e.next, i);
      size := size - 1;
      chains := chains[i := Without(chains[i], j)];
      index := index - {n};
    }

    method RemoveFound(prev: Entry?<K, V>, e: Entry<K, V>, i: nat, ghost j: nat, ghost n: Option<I>) returns (value: V)
      requires Valid() && i < capacity && j < |chains[i]| && e == chains[i][j] && n == s.Name(e.key)
      requires n in index && index[n] == e
      requires prev == if j == 0 then null else chains[i][j - 1]
      modifies this, buckets, index.Values`next
      ensures Valid() && buckets == old(buckets) && capacity == old(capacity)
      ensures index == old(index) - {n} && value == old(e.value)
      ensures chains == old(chains)[i := Without(old(chains)[i], j)]
      ensures Contents() == old(Contents()) - {n}
    {
      value := e.value;
      PairsWithout(index, n);
      Unlink(prev, e, i, j, n);
      PairsFrame(old(index));
      UnlinkedValid(prev, old(e.next), i, j, n);
    }

    /** cc_hashtable_remove */
    method Remove(key: Option<K>) returns (stat: Stat, out: Option<V>, ghost at: nat)
      requires Valid()
      modifies this, buckets, index.Values`next
      ensures Valid() && buckets == old(buckets) && capacity == old(capacity)
      ensures index == old(index) - {s.Name(key)}
      ensures stat == if s.Name(key) in old(Contents()) then CC_OK else CC_ERR_KEY_NOT_FOUND
      ensures out == if s.Name(key) in old(Contents()) then Some(old(Contents())[s.Name(key)].value) else None
      ensures Contents() == old(Contents()) - {s.Name(key)}
      ensures s.Name(key) in old(index) ==> TakenOut(old(chains), chains, old(index)[s.Name(key)], at)
    {
      var n := s.Name(key);
      var i := IndexOf(key);
      var prev, e, j := Search(key, i);
      PairsFrame(index);
      if e == null {
        AbsentRemoved(n);
        return CC_ERR_KEY_NOT_FOUND, None, 0;
      }
      var value := RemoveFound(prev, e, i, j, n);
      return CC_OK, Some(value), j;
    }

    /** The chains differ in that entry e, at this position of its chain, has been taken out. */
    ghost predicate TakenOut(was: seq<seq<Entry<K, V>>>, now: seq<seq<Entry<K, V>>>, e: Entry<K, V>, at: nat) {
      var i := s.Home(s.Name(e.key), |was|);
      i < |was| && at < |was[i]| && was[i][at] == e && now == was[i := Without(was[i], at)]
    }

    lemma AbsentRemoved(n: Option<I>)
      requires n !in index
      ensures n !in Contents() && index == index - {n} && Contents() == Contents() - {n}
    {
    }

    /** The larger array of buckets, with every entry relinked into it. */
    method Rehash(newCapacity: nat) returns (newBuckets: array<Entry?<K, V>>, ghost new_: seq<seq<Entry<K, V>>>)
      requires Valid() && newCapacity > 0
      modifies index.Values`next
      ensures fresh(newBuckets) && newBuckets.Length == newCapacity == |new_| && Indexed(s, new_, index)
      ensures forall k :: 0 <= k < |new_| ==> HeadOk(newBuckets, new_, k)
      ensures Contents() == old(Contents())
    {
      var none: Entry?<K, V> := null;
      newBuckets := new Entry?<K, V>[newCapacity](k => none);
      ghost var t := Transfer(buckets, chains, newBuckets, seq(newBuckets.Length, k => []), index.Values);
      MovingStarts(s, index, t);
      new_ := MoveEntries(s, buckets, newBuckets, index, t);
      PairsFrame(index);
    }

    /** The larger array takes the place of the old one. */
    method Install(newBuckets: array<Entry?<K, V>>, newCapacity: nat, ghost new_: seq<seq<Entry<K, V>>>)
      requires Masks(s.mask) && size == |index| && LegalCapacity(newCapacity, arch64) && Indexed(s, new_, index)
      requires newBuckets.Length == newCapacity == |new_|
      requires forall k :: 0 <= k < |new_| ==> HeadOk(newBuckets, new_, k)
      modifies this`buckets, this`chains, this`capacity, this`threshold
      ensures Valid() && buckets == newBuckets && capacity == newCapacity
    {
      IndexedOnRecord(s, new_, index);
      buckets := newBuckets;
      chains := new_;
      capacity := newCapacity;
      threshold := load(newCapacity);
      assert Numbers();
    }

    /** resize */
    method Resize(newCapacity: nat) returns (stat: Stat)
      requires Valid() && newCapacity == 2 * capacity
      modifies this, index.Values`next
      ensures Valid() && index == old(index) && Contents() == old(Contents())
      ensures if old(capacity) == MaxPowTwo(arch64)
              then stat == CC_ERR_MAX_CAPACITY && capacity == old(capacity) && buckets == old(buckets)
              else stat == CC_OK && capacity == newCapacity && fresh(buckets)
    {
      if capacity == MaxPowTwo(arch64) { return CC_ERR_MAX_CAPACITY; }
      assert LegalCapacity(newCapacity, arch64) by { DoubleLegal(capacity, arch64); }
      var newBuckets, new_ := Rehash(newCapacity);
      Install(newBuckets, newCapacity, new_);
      return CC_OK;
    }

    /** The part of add that follows the resize. */
    method Store(key: Option<K>, val: V)
      requires Valid()
      modifies this, buckets, index.Values`value
      ensures Valid() && buckets == old(buckets) && capacity == old(capacity)
      ensures fresh(index.Values - old(index.Values))
      ensures Contents() == Put(old(Contents()), s.Name(key), key, val)
    {
      var i := IndexOf(key);
      var prev, e, j := Search(key, i);
      PairsFrame(index);
      if e != null {
        Replace(e, val, s.Name(key));
      } else {
        Insert(key, val, i);
      }
    }

    /** cc_hashtable_add */
    method Add(key: Option<K>, val: V) returns (stat: Stat)
      requires Valid()
      modifies this, buckets, index.Values
      ensures Valid() && (buckets == old(buckets) || fresh(buckets))
      ensures fresh(index.Values - old(index.Values))
      ensures stat == if old(size >= threshold && capacity == MaxPowTwo(arch64)) then CC_ERR_MAX_CAPACITY else CC_OK
      ensures Contents() == if stat == CC_OK then Put(old(Contents()), s.Name(key), key, val) else old(Contents())
      ensures stat == CC_OK ==>
        var n, was := s.Name(key), old(Contents());
        && n in Contents() && Contents()[n].value == val
        && Contents()[n].key == (if n in was then was[n].key else key)
        && Contents() - {n} == was - {n}
      ensures capacity == if stat == CC_OK && old(size >= threshold) then 2 * old(capacity) else old(capacity)
    {
      if size >= threshold {
        stat := Resize(2 * capacity);
        if stat != CC_OK { return; }
      }
      assert Contents() == old(Contents()) && index == old(index);
      PutLaws(Contents(), s.Name(key), key, val);
      Store(key, val);
      stat := CC_OK;
    }
  }

  /** A finite map after storing a value: a key that is there keeps its stored form. */
  ghost function Put<K, V, I>(m: map<Option<I>, Pair<K, V>>, n: Option<I>, key: Option<K>,
                              val: V): map<Option<I>, Pair<K, V>> {
    m[n := Pair(if n in m then m[n].key else key, val)]
  }

  /** Every entry of the table hangs in the bucket of its hash, which is that of its key. */
  lemma EntryInBucket<K, V, I>(t: Table<K, V, I>, i: nat, j: nat)
    requires t.Valid() && i < |t.chains| && j < |t.chains[i]|
    ensures var e := t.chains[i][j];
      && e.hash == (if e.key.None? then 0 else t.s.hasher(t.s.id(e.key.value))) && i == e.hash % t.capacity
      && (j == 0 ==> i < t.buckets.Length && t.buckets[i] == e)
      && e.next == if j + 1 < |t.chains[i]| then t.chains[i][j + 1] else null
  {
    var e, n := t.chains[i][j], t.s.Name(t.chains[i][j].key);
    assert EntryAt(t.s, t.index, |t.chains|, i, e);
    var k: nat :| t.capacity == Pow2(k);
    HomeIsRemainder(t.s, n, k);
    assert HeadOk(t.buckets, t.chains, i);
  }

  /** The value is the new one, the stored key the old one if there is one, and nothing else changes. */
  lemma PutLaws<K, V, I>(m: map<Option<I>, Pair<K, V>>, n: Option<I>, key: Option<K>, val: V)
    ensures var r := Put(m, n, key, val);
      n in r && r[n].value == val && r[n].key == (if n in m then m[n].key else key) && r - {n} == m - {n}
  {
  }

  lemma DoubleLegal(cap: nat, arch64: bool)
    requires LegalCapacity(cap, arch64) && cap < MaxPowTwo(arch64)
    ensures LegalCapacity(2 * cap, arch64)
  {
    var k: nat :| cap == Pow2(k);
    var e := MaxShift(arch64);
    if e <= k { Pow2Monotone(e, k); }
    assert 2 * cap == Pow2(k + 1);
    Pow2Monotone(k + 1, e);
  }
}
