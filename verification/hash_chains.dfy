/** Chains of hash table entries, and which entry belongs where. */
module HashChains {

  import opened Options
  import opened Powers

  class Entry<K, V> {
    const key: Option<K>   // None is the NULL key
    const hash: nat
    var value: V
    var next: Entry?<K, V>

    constructor (key: Option<K>, value: V, hash: nat, next: Entry?<K, V>)
      ensures this.key == key && this.value == value && this.hash == hash && this.next == next
    {
      this.key, this.value, this.hash, this.next := key, value, hash, next;
    }
  }

  // ---- links ----

  ghost function At<K, V>(chain: seq<Entry<K, V>>, j: nat): Entry?<K, V> {
    if j < |chain| then chain[j] else null
  }

  /** The entries are linked in this order, and the last ends the chain. */
  ghost predicate Linked<K, V>(chain: seq<Entry<K, V>>)
    reads chain`next
  {
    (forall j :: 0 <= j < |chain| ==> chain[j].next == At(chain, j + 1)) && NoDup(chain)
  }

  ghost predicate NoDup<T>(s: seq<T>) {
    forall j, k :: 0 <= j < k < |s| ==> s[j] != s[k]
  }

  function Without<T>(s: seq<T>, j: nat): seq<T>
    requires j < |s|
  {
    s[..j] + s[j + 1..]
  }

  /** An entry in front of a chain. */
  lemma LinkedFront<K, V>(e: Entry<K, V>, chain: seq<Entry<K, V>>)
    requires Linked(chain) && e.next == At(chain, 0) && e !in chain
    ensures Linked([e] + chain)
  {
  }

  /** The first entry may be relinked elsewhere. */
  twostate lemma LinkedTail<K, V>(chain: seq<Entry<K, V>>)
    requires old(Linked(chain)) && chain != []
    requires forall e :: e in chain && e != chain[0] ==> e.next == old(e.next)
    ensures Linked(chain[1..])
  {
  }

  twostate lemma LinkedFrame<K, V>(chain: seq<Entry<K, V>>)
    requires old(Linked(chain))
    requires forall e :: e in chain ==> e.next == old(e.next)
    ensures Linked(chain)
  {
  }

  /** One entry is taken out: its predecessor, if it has one, skips it. */
  twostate lemma LinkedWithout<K, V>(chain: seq<Entry<K, V>>, new j: nat)
    requires j < |chain| && old(Linked(chain))
    requires forall k :: 0 <= k < |chain| && k + 1 != j ==> chain[k].next == old(chain[k].next)
    requires j > 0 ==> chain[j - 1].next == old(chain[j].next)
    ensures Linked(Without(chain, j))
    ensures At(Without(chain, j), 0) == if j == 0 then old(chain[0].next) else chain[0]
  {
  }

  /** Bucket k points to the first entry of chain k, which is well linked. */
  ghost predicate HeadOk<K, V>(buckets: array<Entry?<K, V>>, chains: seq<seq<Entry<K, V>>>, k: nat)
    requires k < buckets.Length && k < |chains|
    reads buckets, chains[k]`next
  {
    buckets[k] == At(chains[k], 0) && Linked(chains[k])
  }

  // ---- places ----

  /** How keys are told apart and hashed; `mask` is the & operator. */
  datatype Scheme<!K, !I> = Scheme(id: K -> I, hasher: I -> nat, mask: (nat, nat) -> nat) {

    function Name(key: Option<K>): Option<I> {
      if key.None? then None else Some(id(key.value))
    }

    function HashOf(name: Option<I>): nat {
      if name.None? then 0 else hasher(name.value)
    }

    /** The bucket of an identity among `cap`. */
    function Home(name: Option<I>, cap: nat): nat {
      if cap == 0 then 0 else mask(HashOf(name), cap - 1)
    }
  }

  /** `mask` is the & operator; the bound, which follows, is what most proofs need of it. */
  ghost predicate Masks(mask: (nat, nat) -> nat) {
    (forall h, m :: MaskAt(mask, h, m)) && forall h, m :: mask(h, m) <= m
  }

  ghost predicate MaskAt(mask: (nat, nat) -> nat, h: nat, m: nat) { mask(h, m) == And(h, m) }

  /** With a power of two for a capacity the & is a remainder: every bucket can be reached, and NULL's is the first. */
  lemma HomeIsRemainder<K, I>(s: Scheme<K, I>, name: Option<I>, k: nat)
    requires Masks(s.mask)
    ensures s.Home(name, Pow2(k)) == s.HashOf(name) % Pow2(k)
    ensures s.Home(s.Name(None), Pow2(k)) == 0
    ensures forall key :: s.Home(s.Name(Some(key)), Pow2(k)) == s.hasher(s.id(key)) % Pow2(k)
  {
    assert MaskAt(s.mask, s.HashOf(name), Pow2(k) - 1) && MaskAt(s.mask, 0, Pow2(k) - 1);
    AndIsRemainder(s.HashOf(name), k);
    AndIsRemainder(0, k);
    forall key ensures s.Home(s.Name(Some(key)), Pow2(k)) == s.hasher(s.id(key)) % Pow2(k) {
      assert MaskAt(s.mask, s.HashOf(s.Name(Some(key))), Pow2(k) - 1);
      AndIsRemainder(s.hasher(s.id(key)), k);
    }
  }

  /** Entry `e` of chain i is the one on record for its identity, and belongs there. */
  ghost predicate EntryAt<K, V, I>(s: Scheme<K, I>, index: map<Option<I>, Entry<K, V>>, cap: nat, i: nat,
                                   e: Entry<K, V>) {
    var n := s.Name(e.key);
    n in index && index[n] == e && e.hash == s.HashOf(n) && s.Home(n, cap) == i
  }

  /** The entry on record for an identity is in its chain. */
  ghost predicate NameAt<K, V, I>(s: Scheme<K, I>, chains: seq<seq<Entry<K, V>>>,
                                  index: map<Option<I>, Entry<K, V>>, n: Option<I>)
    requires n in index
  {
    s.Name(index[n].key) == n && s.Home(n, |chains|) < |chains| && index[n] in chains[s.Home(n, |chains|)]
  }

  /** The chains hold exactly the entries on record, each in its bucket, one for each identity. */
  ghost predicate Indexed<K, V, I>(s: Scheme<K, I>, chains: seq<seq<Entry<K, V>>>, index: map<Option<I>, Entry<K, V>>) {
    && (forall n :: n in index ==> NameAt(s, chains, index, n))
    && (forall i, j :: 0 <= i < |chains| && 0 <= j < |chains[i]| ==> EntryAt(s, index, |chains|, i, chains[i][j]))
  }

  lemma IndexedFront<K, V, I>(s: Scheme<K, I>, chains: seq<seq<Entry<K, V>>>, index: map<Option<I>, Entry<K, V>>,
                              e: Entry<K, V>, n: Option<I>, i: nat)
    requires Indexed(s, chains, index) && n !in index
    requires n == s.Name(e.key) && e.hash == s.HashOf(n) && i == s.Home(n, |chains|) && i < |chains|
    ensures Indexed(s, chains[i := [e] + chains[i]], index[n := e])
    ensures e !in chains[i]
  {
    var chains', index' := chains[i := [e] + chains[i]], index[n := e];
    forall m | m in index' ensures NameAt(s, chains', index', m) {
      if m != n { assert NameAt(s, chains, index, m); }
    }
    forall k, j | 0 <= k < |chains'| && 0 <= j < |chains'[k]|
      ensures EntryAt(s, index', |chains'|, k, chains'[k][j])
    {
      if k == i && j > 0 {
        assert chains'[k][j] == chains[i][j - 1];
        assert EntryAt(s, index, |chains|, i, chains[i][j - 1]);
      } else if k != i {
        assert EntryAt(s, index, |chains|, k, chains[k][j]);
      }
    }
  }

  lemma IndexedWithout<K, V, I>(s: Scheme<K, I>, chains: seq<seq<Entry<K, V>>>, index: map<Option<I>, Entry<K, V>>,
                                i: nat, j: nat)
    requires Indexed(s, chains, index) && i < |chains| && j < |chains[i]| && NoDup(chains[i])
    ensures s.Name(chains[i][j].key) in index
    ensures Indexed(s, chains[i := Without(chains[i], j)], index - {s.Name(chains[i][j].key)})
  {
    var e := chains[i][j];
    assert EntryAt(s, index, |chains|, i, e);
    var n := s.Name(e.key);
    var chains', index' := chains[i := Without(chains[i], j)], index - {n};
    forall m | m in index' ensures NameAt(s, chains', index', m) {
      assert NameAt(s, chains, index, m);
      if s.Home(m, |chains|) == i { WithoutKeeps(chains[i], j, index[m]); }
    }
    forall k, l | 0 <= k < |chains'| && 0 <= l < |chains'[k]|
      ensures EntryAt(s, index', |chains'|, k, chains'[k][l])
    {
      var l' := if k == i && l >= j then l + 1 else l;
      assert chains'[k][l] == chains[k][l'];
      assert EntryAt(s, index, |chains|, k, chains[k][l']);
    }
  }

  lemma WithoutKeeps<T>(s: seq<T>, j: nat, x: T)
    requires j < |s| && x in s && x != s[j]
    ensures x in Without(s, j)
  {
    var k :| 0 <= k < |s| && s[k] == x;
    if k < j { assert Without(s, j)[k] == x; } else { assert Without(s, j)[k - 1] == x; }
  }

  /** Chains have no entry in common. */
  lemma Separate<K, V, I>(s: Scheme<K, I>, chains: seq<seq<Entry<K, V>>>, index: map<Option<I>, Entry<K, V>>,
                          i: nat, j: nat, k: nat)
    requires Indexed(s, chains, index) && i < |chains| && k < |chains| && i != k && j < |chains[i]|
    ensures chains[i][j] !in chains[k]
  {
    assert EntryAt(s, index, |chains|, i, chains[i][j]);
    forall l | 0 <= l < |chains[k]| ensures chains[k][l] != chains[i][j] {
      assert EntryAt(s, index, |chains|, k, chains[k][l]);
    }
  }

  /** Every entry of every chain is on record. */
  ghost predicate OnRecord<K, V, I>(chains: seq<seq<Entry<K, V>>>, index: map<Option<I>, Entry<K, V>>) {
    forall i, e :: 0 <= i < |chains| && e in chains[i] ==> e in index.Values
  }

  lemma IndexedOnRecord<K, V, I>(s: Scheme<K, I>, chains: seq<seq<Entry<K, V>>>, index: map<Option<I>, Entry<K, V>>)
    requires Indexed(s, chains, index)
    ensures OnRecord(chains, index)
  {
    forall i, e | 0 <= i < |chains| && e in chains[i] ensures e in index.Values {
      var j :| 0 <= j < |chains[i]| && chains[i][j] == e;
      assert EntryAt(s, index, |chains|, i, chains[i][j]);
    }
  }
}
