/** move_entries: every entry is relinked into a larger array of buckets, without being copied. */
module HashResize {

  import opened HashChains
  import opened Options

  /** The entry has been moved: its bucket lies before bucket i, or it is among the first p of bucket i. */
  ghost predicate Done<K, V, I>(s: Scheme<K, I>, chains: seq<seq<Entry<K, V>>>, i: nat, p: nat, e: Entry<K, V>)
    requires i < |chains| ==> p <= |chains[i]|
  {
    var h := s.Home(s.Name(e.key), |chains|);
    h < i || (h == i < |chains| && e in chains[i][..p])
  }

  /** The new chains hold exactly the moved entries, each where it belongs in them. */
  ghost predicate Transit<K, V, I>(s: Scheme<K, I>, chains: seq<seq<Entry<K, V>>>, index: map<Option<I>, Entry<K, V>>,
                                   new_: seq<seq<Entry<K, V>>>, i: nat, p: nat)
    requires i < |chains| ==> p <= |chains[i]|
  {
    && (forall n :: n in index && Done(s, chains, i, p, index[n]) ==> NameAt(s, new_, index, n))
    && (forall k, j :: 0 <= k < |new_| && 0 <= j < |new_[k]| ==>
          EntryAt(s, index, |new_|, k, new_[k][j]) && Done(s, chains, i, p, new_[k][j]))
  }

  lemma TransitStarts<K, V, I>(s: Scheme<K, I>, chains: seq<seq<Entry<K, V>>>, index: map<Option<I>, Entry<K, V>>,
                               new_: seq<seq<Entry<K, V>>>)
    requires forall k :: 0 <= k < |new_| ==> new_[k] == []
    ensures Transit(s, chains, index, new_, 0, 0)
  {
  }

  lemma NotDone<K, V, I>(s: Scheme<K, I>, chains: seq<seq<Entry<K, V>>>, index: map<Option<I>, Entry<K, V>>, i: nat,
                         p: nat)
    requires Indexed(s, chains, index) && i < |chains| && p < |chains[i]| && NoDup(chains[i])
    ensures EntryAt(s, index, |chains|, i, chains[i][p])
    ensures !Done(s, chains, i, p, chains[i][p])
  {
    assert EntryAt(s, index, |chains|, i, chains[i][p]);
  }

  lemma DoneNext<K, V, I>(s: Scheme<K, I>, chains: seq<seq<Entry<K, V>>>, index: map<Option<I>, Entry<K, V>>,
                          i: nat, p: nat, e: Entry<K, V>)
    requires Indexed(s, chains, index) && i < |chains| && p < |chains[i]|
    ensures Done(s, chains, i, p + 1, e) <==> Done(s, chains, i, p, e) || e == chains[i][p]
  {
    assert EntryAt(s, index, |chains|, i, chains[i][p]);
    assert chains[i][..p + 1] == chains[i][..p] + [chains[i][p]];
  }

  lemma TransitMoves<K, V, I>(s: Scheme<K, I>, chains: seq<seq<Entry<K, V>>>, index: map<Option<I>, Entry<K, V>>,
                              new_: seq<seq<Entry<K, V>>>, i: nat, p: nat, h: nat)
    requires Indexed(s, chains, index) && i < |chains| && p < |chains[i]|
    requires Transit(s, chains, index, new_, i, p)
    requires h == s.Home(s.Name(chains[i][p].key), |new_|) && h < |new_|
    ensures Transit(s, chains, index, new_[h := [chains[i][p]] + new_[h]], i, p + 1)
  {
    var e := chains[i][p];
    var after := new_[h := [e] + new_[h]];
    assert EntryAt(s, index, |chains|, i, e);
    forall n | n in index && Done(s, chains, i, p + 1, index[n]) ensures NameAt(s, after, index, n) {
      DoneNext(s, chains, index, i, p, index[n]);
      if Done(s, chains, i, p, index[n]) {
        assert NameAt(s, new_, index, n);
      } else {
        assert NameAt(s, chains, index, n);
      }
    }
    forall k, j | 0 <= k < |after| && 0 <= j < |after[k]|
      ensures EntryAt(s, index, |after|, k, after[k][j]) && Done(s, chains, i, p + 1, after[k][j])
    {
      DoneNext(s, chains, index, i, p, after[k][j]);
      if k != h {
        assert EntryAt(s, index, |new_|, k, new_[k][j]);
      } else if j > 0 {
        assert after[h][j] == new_[h][j - 1];
        assert EntryAt(s, index, |new_|, h, new_[h][j - 1]);
      }
    }
  }

  lemma TransitNextBucket<K, V, I>(s: Scheme<K, I>, chains: seq<seq<Entry<K, V>>>, index: map<Option<I>, Entry<K, V>>,
                                   new_: seq<seq<Entry<K, V>>>, i: nat)
    requires Indexed(s, chains, index) && i < |chains|
    requires Transit(s, chains, index, new_, i, |chains[i]|)
    ensures Transit(s, chains, index, new_, i + 1, 0)
  {
    forall n | n in index && Done(s, chains, i + 1, 0, index[n]) ensures Done(s, chains, i, |chains[i]|, index[n]) {
      assert NameAt(s, chains, index, n);
      assert chains[i][..|chains[i]|] == chains[i];
    }
  }

  lemma TransitEnds<K, V, I>(s: Scheme<K, I>, chains: seq<seq<Entry<K, V>>>, index: map<Option<I>, Entry<K, V>>,
                             new_: seq<seq<Entry<K, V>>>)
    requires Indexed(s, chains, index) && Transit(s, chains, index, new_, |chains|, 0)
    ensures Indexed(s, new_, index)
  {
    forall n | n in index ensures NameAt(s, new_, index, n) {
      assert NameAt(s, chains, index, n);
    }
  }

  // ---- the links on the way ----

  /** Both arrays of buckets, their chains, and all entries. */
  datatype Transfer<!K, !V> = Transfer(
    src: array<Entry?<K, V>>, chains: seq<seq<Entry<K, V>>>,
    dest: array<Entry?<K, V>>, new_: seq<seq<Entry<K, V>>>, all: set<Entry<K, V>>)
  {
    ghost function Moved(i: nat, p: nat, h: nat): Transfer<K, V>
      requires i < |chains| && p < |chains[i]| && h < |new_|
    {
      this.(new_ := new_[h := [chains[i][p]] + new_[h]])
    }
  }

  /** The chains not yet reached, the rest of chain i, and the new chains are all well linked. */
  ghost predicate Links<K, V>(t: Transfer<K, V>, i: nat, p: nat)
    requires i < |t.chains| ==> p <= |t.chains[i]|
    reads t.src, t.dest, t.all`next
  {
    && t.src.Length == |t.chains| && t.dest.Length == |t.new_| && t.src != t.dest
    && (forall k, e :: 0 <= k < |t.chains| && e in t.chains[k] ==> e in t.all)
    && (forall k, e :: 0 <= k < |t.new_| && e in t.new_[k] ==> e in t.all)
    && (forall k :: i < k < |t.chains| ==> HeadOk(t.src, t.chains, k))
    && (forall k :: 0 <= k < |t.new_| ==> HeadOk(t.dest, t.new_, k))
    && (i < |t.chains| ==> Linked(t.chains[i][p..]))
  }

  /** What moving entry e to the front of new bucket h writes. */
  twostate predicate MovedTo<K, V>(t: Transfer<K, V>, new e: Entry<K, V>, new h: nat)
    requires h < t.dest.Length
    reads t.src, t.dest, t.all`next
  {
    && e in t.all && e.next == old(t.dest[h])
    && (forall x :: x in t.all && x != e ==> x.next == old(x.next))
    && (forall k :: 0 <= k < t.src.Length ==> t.src[k] == old(t.src[k]))
    && (forall k :: 0 <= k < t.dest.Length ==> t.dest[k] == if k == h then e else old(t.dest[k]))
  }

  twostate lemma NewChainOk<K, V>(t: Transfer<K, V>, new e: Entry<K, V>, new h: nat, new k: nat)
    requires h < |t.new_| && k < |t.new_| && |t.new_| == t.dest.Length
    requires forall x :: x in t.new_[k] ==> x in t.all
    requires old(HeadOk(t.dest, t.new_, k)) && e !in t.new_[k] && MovedTo(t, e, h)
    ensures HeadOk(t.dest, t.new_[h := [e] + t.new_[h]], k)
  {
    LinkedFrame(t.new_[k]);
    if k == h { LinkedFront(e, t.new_[k]); }
  }

  /** Moving the first entry of the rest keeps every other link. */
  twostate lemma LinksMoved<K, V>(t: Transfer<K, V>, new i: nat, new p: nat, new h: nat)
    requires i < |t.chains| && p < |t.chains[i]| && h < |t.new_| && t.dest.Length == |t.new_|
    requires old(Links(t, i, p)) && MovedTo(t, t.chains[i][p], h)
    requires forall k :: i < k < |t.chains| ==> t.chains[i][p] !in t.chains[k]
    requires forall k :: 0 <= k < |t.new_| ==> t.chains[i][p] !in t.new_[k]
    ensures Links(t.Moved(i, p, h), i, p + 1)
  {
    var e := t.chains[i][p];
    var after := t.Moved(i, p, h).new_;
    forall k | i < k < |t.chains| ensures HeadOk(t.src, t.chains, k) {
      assert old(HeadOk(t.src, t.chains, k));
      LinkedFrame(t.chains[k]);
    }
    forall k | 0 <= k < |after| ensures HeadOk(t.dest, after, k) {
      assert old(HeadOk(t.dest, t.new_, k));
      NewChainOk(t, e, h, k);
    }
    var rest := t.chains[i][p..];
    assert rest[1..] == t.chains[i][p + 1..];
    LinkedTail(rest);
  }

  // ---- move_entries ----

  ghost predicate Moving<K, V, I>(s: Scheme<K, I>, index: map<Option<I>, Entry<K, V>>, t: Transfer<K, V>, i: nat,
                                  p: nat)
    requires i < |t.chains| ==> p <= |t.chains[i]|
    reads t.src, t.dest, t.all`next
  {
    Links(t, i, p) && Transit(s, t.chains, index, t.new_, i, p)
  }

  /** What stays as it is while entries move. */
  ghost predicate Sources<K, V, I>(s: Scheme<K, I>, index: map<Option<I>, Entry<K, V>>,
                                   chains: seq<seq<Entry<K, V>>>, cap: nat) {
    Indexed(s, chains, index) && (forall k :: 0 <= k < |chains| ==> NoDup(chains[k])) && Masks(s.mask) && cap > 0
  }

  lemma MovesApart<K, V, I>(s: Scheme<K, I>, index: map<Option<I>, Entry<K, V>>, t: Transfer<K, V>, i: nat, p: nat)
    requires Sources(s, index, t.chains, |t.new_|) && i < |t.chains| && p < |t.chains[i]|
    requires Transit(s, t.chains, index, t.new_, i, p)
    ensures EntryAt(s, index, |t.chains|, i, t.chains[i][p])
    ensures s.Home(s.Name(t.chains[i][p].key), |t.new_|) < |t.new_|
    ensures forall k :: i < k < |t.chains| ==> t.chains[i][p] !in t.chains[k]
    ensures forall k :: 0 <= k < |t.new_| ==> t.chains[i][p] !in t.new_[k]
  {
    NotDone(s, t.chains, index, i, p);
    forall k | i < k < |t.chains| ensures t.chains[i][p] !in t.chains[k] { Separate(s, t.chains, index, i, p, k); }
  }

  /** One turn of the inner loop. */
  method MoveEntry<K, V, I>(s: Scheme<K, I>, entry: Entry<K, V>, dest: array<Entry?<K, V>>,
                            ghost index: map<Option<I>, Entry<K, V>>, ghost t: Transfer<K, V>, ghost i: nat,
                            ghost p: nat)
    returns (next: Entry?<K, V>, ghost t': Transfer<K, V>)
    requires Sources(s, index, t.chains, |t.new_|) && i < |t.chains| && p < |t.chains[i]|
    requires Moving(s, index, t, i, p) && t.dest == dest && entry == t.chains[i][p] && entry in t.all
    modifies dest, t.all`next
    ensures next == At(t.chains[i], p + 1)
    ensures t' == t.(new_ := t'.new_) && |t'.new_| == |t.new_| && Moving(s, index, t', i, p + 1)
  {
    MovesApart(s, index, t, i, p);
    assert t.chains[i][p..][0] == entry;
    next := entry.next;
    var h := s.mask(entry.hash, dest.Length - 1);
    entry.next := dest[h];
    dest[h] := entry;
    t' := t.Moved(i, p, h);
    LinksMoved(t, i, p, h);
    TransitMoves(s, t.chains, index, t.new_, i, p, h);
  }

  method MoveBucket<K, V, I>(s: Scheme<K, I>, src: array<Entry?<K, V>>, dest: array<Entry?<K, V>>,
                             ghost index: map<Option<I>, Entry<K, V>>, ghost t: Transfer<K, V>, i: nat)
    returns (ghost t': Transfer<K, V>)
    requires Sources(s, index, t.chains, |t.new_|) && i < |t.chains|
    requires t.dest == dest && t.src == src && Moving(s, index, t, i, 0) && src.Length == |t.chains|
    requires src[i] == At(t.chains[i], 0)
    modifies dest, t.all`next
    ensures t' == t.(new_ := t'.new_) && |t'.new_| == |t.new_|
    ensures Moving(s, index, t', i + 1, 0) && (i + 1 < |t.chains| ==> src[i + 1] == At(t.chains[i + 1], 0))
  {
    var entry := src[i];
    t' := t;
    ghost var p := 0;
    while entry != null
      invariant p <= |t.chains[i]| && entry == At(t.chains[i], p)
      invariant t' == t.(new_ := t'.new_) && |t'.new_| == |t.new_| && Moving(s, index, t', i, p)
      decreases |t.chains[i]| - p
    {
      var next;
      next, t' := MoveEntry(s, entry, dest, index, t', i, p);
      entry, p := next, p + 1;
    }
    TransitNextBucket(s, t.chains, index, t'.new_, i);
    LinksNextBucket(t', i);
  }

  lemma LinksNextBucket<K, V>(t: Transfer<K, V>, i: nat)
    requires i < |t.chains| && Links(t, i, |t.chains[i]|)
    ensures Links(t, i + 1, 0) && (i + 1 < |t.chains| ==> t.src[i + 1] == At(t.chains[i + 1], 0))
  {
    if i + 1 < |t.chains| {
      assert HeadOk(t.src, t.chains, i + 1);
      assert t.chains[i + 1][0..] == t.chains[i + 1];
    }
  }

  /** move_entries */
  method MoveEntries<K, V, I>(s: Scheme<K, I>, src: array<Entry?<K, V>>, dest: array<Entry?<K, V>>,
                              ghost index: map<Option<I>, Entry<K, V>>, ghost t: Transfer<K, V>)
    returns (ghost new_: seq<seq<Entry<K, V>>>)
    requires Sources(s, index, t.chains, |t.new_|) && t.dest == dest && t.src == src
    requires Moving(s, index, t, 0, 0) && (|t.chains| > 0 ==> src[0] == At(t.chains[0], 0))
    modifies dest, t.all`next
    ensures |new_| == dest.Length && Indexed(s, new_, index)
    ensures forall k :: 0 <= k < dest.Length ==> HeadOk(dest, new_, k)
  {
    ghost var t' := t;
    for i := 0 to src.Length
      invariant t' == t.(new_ := t'.new_) && |t'.new_| == |t.new_| && Moving(s, index, t', i, 0)
      invariant i < |t.chains| ==> src[i] == At(t.chains[i], 0)
    {
      t' := MoveBucket(s, src, dest, index, t', i);
    }
    TransitEnds(s, t.chains, index, t'.new_);
    new_ := t'.new_;
  }

  /** An empty larger array, and nothing moved yet. */
  lemma MovingStarts<K, V, I>(s: Scheme<K, I>, index: map<Option<I>, Entry<K, V>>, t: Transfer<K, V>)
    requires Indexed(s, t.chains, index) && Masks(s.mask) && |t.chains| == t.src.Length > 0 && t.all == index.Values
    requires forall k :: 0 <= k < |t.chains| ==> HeadOk(t.src, t.chains, k)
    requires t.dest != t.src && |t.new_| == t.dest.Length > 0
    requires forall k :: 0 <= k < t.dest.Length ==> t.dest[k] == null && t.new_[k] == []
    ensures Sources(s, index, t.chains, |t.new_|) && Moving(s, index, t, 0, 0) && t.src[0] == At(t.chains[0], 0)
  {
    TransitStarts(s, t.chains, index, t.new_);
    forall k | 0 <= k < |t.chains| ensures NoDup(t.chains[k]) { assert HeadOk(t.src, t.chains, k); }
    assert HeadOk(t.src, t.chains, 0);
    assert t.chains[0][0..] == t.chains[0];
    forall k, e | 0 <= k < |t.chains| && e in t.chains[k] ensures e in t.all {
      var j :| 0 <= j < |t.chains[k]| && t.chains[k][j] == e;
      assert EntryAt(s, index, |t.chains|, k, t.chains[k][j]);
    }
  }
}
