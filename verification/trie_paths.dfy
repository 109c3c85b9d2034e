/**
 * A ternary search tree as cells at addresses: which address spells a word, and what adding and
 * removing one cell does to every lookup.
 */
module TriePaths {

  import opened Options

  datatype Dir = L | M | R
  type Addr = seq<Dir>

  datatype Pair<V> = Pair(key: string, value: V)
  datatype Cell<V> = Cell(c: char, data: Option<Pair<V>>)
  type Trie<V> = map<Addr, Cell<V>>
  type Comparator = (char, char) -> int

  /** The comparator says 0 for equal characters only. */
  ghost predicate Distinguishes(cmp: Comparator) {
    forall x, y :: cmp(x, y) == 0 <==> x == y
  }

  function Up(a: Addr): Addr
    requires a != []
  {
    a[..|a| - 1]
  }

  function Last(a: Addr): Dir
    requires a != []
  {
    a[|a| - 1]
  }

  /** How many characters a search has matched when it comes to this address. */
  function Used(a: Addr): nat {
    if a == [] then 0 else Used(Up(a)) + (if Last(a) == M then 1 else 0)
  }

  /** Where a search for `key` turns at the cell at b. */
  function Turn<V>(cmp: Comparator, m: Trie<V>, key: string, b: Addr): Dir
    requires b in m && Used(b) < |key|
  {
    var d := cmp(key[Used(b)], m[b].c);
    if d < 0 then L else if d > 0 then R else M
  }

  /** A search for `key` comes to address a, which may be vacant. */
  predicate On<V>(cmp: Comparator, m: Trie<V>, key: string, a: Addr)
    ensures On(cmp, m, key, a) ==> Used(a) < |key|
  {
    if a == [] then key != []
    else
      var b := Up(a);
      On(cmp, m, key, b) && b in m && Turn(cmp, m, key, b) == Last(a) && (Last(a) == M ==> Used(b) + 1 < |key|)
  }

  /** The search for `key` ends at the cell at a, having matched every character. */
  predicate Spells<V>(cmp: Comparator, m: Trie<V>, a: Addr, key: string) {
    On(cmp, m, key, a) && a in m && Used(a) + 1 == |key| && cmp(key[Used(a)], m[a].c) == 0
  }

  lemma OnNext<V>(cmp: Comparator, m: Trie<V>, key: string, a: Addr, d: Dir)
    requires On(cmp, m, key, a) && a in m && Turn(cmp, m, key, a) == d && (d == M ==> Used(a) + 1 < |key|)
    ensures On(cmp, m, key, a + [d]) && Used(a + [d]) == Used(a) + (if d == M then 1 else 0)
    ensures Up(a + [d]) == a && Last(a + [d]) == d
  {
    assert Up(a + [d]) == a;
  }

  lemma {:induction false} OnPrefix<V>(cmp: Comparator, m: Trie<V>, key: string, a: Addr, k: nat)
    requires On(cmp, m, key, a) && k <= |a|
    ensures On(cmp, m, key, a[..k])
    ensures k < |a| ==> a[..k] in m && Turn(cmp, m, key, a[..k]) == a[k] && (a[k] == M ==> Used(a[..k]) + 1 < |key|)
  {
    if k == |a| {
      assert a[..k] == a;
    } else {
      OnPrefix(cmp, m, key, Up(a), k);
      assert Up(a)[..k] == a[..k];
      if k == |a| - 1 { assert a[..k] == Up(a); }
    }
  }

  /** A search has one path. */
  lemma {:induction false} OnePath<V>(cmp: Comparator, m: Trie<V>, key: string, a: Addr, b: Addr)
    requires On(cmp, m, key, a) && On(cmp, m, key, b) && |a| <= |b|
    ensures a == b[..|a|]
  {
    if a != [] {
      OnePath(cmp, m, key, Up(a), b);
      OnPrefix(cmp, m, key, b, |a| - 1);
      assert b[..|a| - 1] == Up(a);
      assert b[|a| - 1] == Last(a);
      assert b[..|a|] == b[..|a| - 1] + [b[|a| - 1]] && a == Up(a) + [Last(a)];
    }
  }

  ghost predicate Closed<V>(m: Trie<V>) {
    forall a :: a in m && a != [] ==> Up(a) in m
  }

  lemma {:induction false} ClosedPrefix<V>(m: Trie<V>, a: Addr, k: nat)
    requires Closed(m) && a in m && k <= |a|
    ensures a[..k] in m
  {
    if k == |a| {
      assert a[..k] == a;
    } else {
      ClosedPrefix(m, Up(a), k);
      assert Up(a)[..k] == a[..k];
    }
  }

  ghost function Prefixes(a: Addr): set<Addr> {
    set k | 0 <= k <= |a| :: a[..k]
  }

  lemma {:induction false} PrefixCount(a: Addr)
    ensures |Prefixes(a)| == |a| + 1
  {
    if a == [] {
      assert Prefixes(a) == {[]};
    } else {
      PrefixCount(Up(a));
      forall k | 0 <= k < |a| ensures Up(a)[..k] == a[..k] {}
      assert a[..|a|] == a;
      assert Prefixes(a) == Prefixes(Up(a)) + {a};
    }
  }

  lemma {:induction false} SubsetCount<T>(a: set<T>, b: set<T>)
    requires a <= b
    ensures |a| <= |b|
  {
    if a != {} {
      var x :| x in a;
      SubsetCount(a - {x}, b - {x});
    }
  }

  /** A cell's depth is below the number of cells. */
  lemma DepthBound<V>(m: Trie<V>, a: Addr)
    requires Closed(m) && a in m
    ensures |a| < |m|
  {
    PrefixCount(a);
    forall k | 0 <= k <= |a| ensures a[..k] in m { ClosedPrefix(m, a, k); }
    SubsetCount(Prefixes(a), m.Keys);
    assert |m| == |m.Keys|;
  }

  /** A search that has matched a whole word goes no further. */
  lemma SpelledIsLast<V>(cmp: Comparator, m: Trie<V>, key: string, a: Addr, b: Addr)
    requires Spells(cmp, m, a, key) && On(cmp, m, key, b)
    ensures |b| <= |a|
  {
    if |b| > |a| {
      OnePath(cmp, m, key, a, b);
      OnPrefix(cmp, m, key, b, |a|);
    }
  }

  lemma SpelledOnce<V>(cmp: Comparator, m: Trie<V>, key: string, a: Addr, b: Addr)
    requires Spells(cmp, m, a, key) && Spells(cmp, m, b, key)
    ensures a == b
  {
    SpelledIsLast(cmp, m, key, a, b);
    SpelledIsLast(cmp, m, key, b, a);
    OnePath(cmp, m, key, a, b);
    assert b[..|a|] == b;
  }

  /** A search that comes to a vacant address finds nothing. */
  lemma VacantMeansAbsent<V>(cmp: Comparator, m: Trie<V>, key: string, a: Addr, b: Addr)
    requires Closed(m) && On(cmp, m, key, a) && a !in m
    ensures !Spells(cmp, m, b, key)
  {
    if Spells(cmp, m, b, key) {
      SpelledIsLast(cmp, m, key, b, a);
      OnePath(cmp, m, key, a, b);
      ClosedPrefix(m, b, |a|);
    }
  }

  // ---- lookups ----

  ghost predicate Known<V>(cmp: Comparator, m: Trie<V>, a: Addr, key: string) {
    Spells(cmp, m, a, key) && m[a].data.Some?
  }

  /** The value that the trie associates with a word. */
  ghost function Lookup<V>(cmp: Comparator, m: Trie<V>, key: string): Option<V> {
    if exists a :: Known(cmp, m, a, key) then
      var a :| Known(cmp, m, a, key);
      Some(m[a].data.value.value)
    else None
  }

  lemma LookupIs<V>(cmp: Comparator, m: Trie<V>, key: string, a: Addr)
    requires Spells(cmp, m, a, key)
    ensures Lookup(cmp, m, key) == if m[a].data.Some? then Some(m[a].data.value.value) else None
  {
    assert m[a].data.Some? ==> Known(cmp, m, a, key);
    forall b | Known(cmp, m, b, key) ensures b == a { SpelledOnce(cmp, m, key, a, b); }
  }

  lemma LookupAbsent<V>(cmp: Comparator, m: Trie<V>, key: string, a: Addr)
    requires Closed(m) && On(cmp, m, key, a) && a !in m
    ensures Lookup(cmp, m, key) == None
  {
    if b :| Known(cmp, m, b, key) { VacantMeansAbsent(cmp, m, key, a, b); }
  }

  /** The same characters at every address before a. */
  ghost predicate SameWay<V>(m: Trie<V>, n: Trie<V>, a: Addr) {
    forall k :: 0 <= k < |a| ==> SameChar(m, n, a[..k])
  }

  ghost predicate SameChar<V>(m: Trie<V>, n: Trie<V>, b: Addr) {
    b in m && b in n && m[b].c == n[b].c
  }

  lemma {:induction false} OnSame<V>(cmp: Comparator, m: Trie<V>, n: Trie<V>, key: string, a: Addr)
    requires On(cmp, m, key, a) && SameWay(m, n, a)
    ensures On(cmp, n, key, a)
  {
    if a != [] {
      forall k | 0 <= k < |a| - 1 ensures SameChar(m, n, Up(a)[..k]) {
        assert Up(a)[..k] == a[..k] && SameChar(m, n, a[..k]);
      }
      OnSame(cmp, m, n, key, Up(a));
      assert a[..|a| - 1] == Up(a) && SameChar(m, n, a[..|a| - 1]);
    }
  }

  lemma SpellsSame<V>(cmp: Comparator, m: Trie<V>, n: Trie<V>, key: string, a: Addr)
    requires Spells(cmp, m, a, key) && SameWay(m, n, a) && SameChar(m, n, a)
    ensures Spells(cmp, n, a, key)
  {
    OnSame(cmp, m, n, key, a);
  }

  ghost predicate SameAt<V>(cmp: Comparator, m: Trie<V>, n: Trie<V>, key: string, a: Addr) {
    Known(cmp, m, a, key) ==> SameWay(m, n, a) && a in n && n[a] == m[a]
  }

  /** Two tries that agree on every cell with data, and on the way to it, look up alike. */
  lemma LookupAgrees<V>(cmp: Comparator, m: Trie<V>, n: Trie<V>, key: string)
    requires forall a :: SameAt(cmp, m, n, key, a) && SameAt(cmp, n, m, key, a)
    ensures Lookup(cmp, m, key) == Lookup(cmp, n, key)
  {
    forall a ensures Known(cmp, m, a, key) <==> Known(cmp, n, a, key) {
      assert SameAt(cmp, m, n, key, a) && SameAt(cmp, n, m, key, a);
      if Known(cmp, m, a, key) { SpellsSame(cmp, m, n, key, a); }
      if Known(cmp, n, a, key) { SpellsSame(cmp, n, m, key, a); }
    }
    if a :| Known(cmp, m, a, key) {
      assert SameAt(cmp, m, n, key, a);
      LookupIs(cmp, m, key, a);
      LookupIs(cmp, n, key, a);
    }
  }

  /** The characters matched on the way to a. */
  ghost function Taken<V>(m: Trie<V>, a: Addr): string
  {
    if a == [] then "" else Taken(m, Up(a)) + (if Last(a) == M && Up(a) in m then [m[Up(a)].c] else "")
  }

  lemma {:induction false} OnTakes<V>(cmp: Comparator, m: Trie<V>, key: string, a: Addr)
    requires Distinguishes(cmp) && On(cmp, m, key, a)
    ensures key[..Used(a)] == Taken(m, a)
  {
    if a != [] {
      OnTakes(cmp, m, key, Up(a));
      var i := Used(Up(a));
      if Last(a) == M {
        assert cmp(key[i], m[Up(a)].c) == 0;
        assert key[..i + 1] == key[..i] + [key[i]];
      }
    }
  }

  /** An address spells at most one word. */
  lemma SpellsOneWord<V>(cmp: Comparator, m: Trie<V>, a: Addr, key: string, other: string)
    requires Distinguishes(cmp) && Spells(cmp, m, a, key) && Spells(cmp, m, a, other)
    ensures key == other
  {
    OnTakes(cmp, m, key, a);
    OnTakes(cmp, m, other, a);
    assert cmp(key[Used(a)], m[a].c) == 0 && cmp(other[Used(a)], m[a].c) == 0;
    assert key == key[..Used(a)] + [key[Used(a)]] && other == other[..Used(a)] + [other[Used(a)]];
  }

  // ---- what a table keeps ----

  /** Every cell with data is spelled by its own key, and no two addresses by the same. */
  ghost predicate Keyed<V>(cmp: Comparator, m: Trie<V>) {
    forall a :: a in m && m[a].data.Some? ==> Spells(cmp, m, a, m[a].data.value.key)
  }

  ghost predicate HasChild<V>(m: Trie<V>, a: Addr) {
    a + [L] in m || a + [M] in m || a + [R] in m
  }

  /** A cell that no word needs: no data, and nothing below. */
  ghost predicate Dead<V>(m: Trie<V>, a: Addr)
    requires a in m
  {
    m[a].data.None? && !HasChild(m, a)
  }

  ghost predicate NoDead<V>(m: Trie<V>) {
    forall a :: a in m ==> !Dead(m, a)
  }

  /** The addresses with data. */
  ghost function Words<V>(m: Trie<V>): set<Addr> {
    set a | a in m && m[a].data.Some?
  }

  // ---- one cell at a time ----

  /** A cell that keeps its character keeps every way. */
  lemma WaysKept<V>(cmp: Comparator, m: Trie<V>, n: Trie<V>, key: string, b: Addr)
    requires On(cmp, m, key, b) && forall x :: x in m ==> SameChar(m, n, x)
    ensures SameWay(m, n, b)
  {
    forall k | 0 <= k < |b| ensures SameChar(m, n, b[..k]) { OnPrefix(cmp, m, key, b, k); }
  }

  /** The cell where the search for `key` ended gets new data, or loses it. */
  lemma DataLooksUp<V>(cmp: Comparator, m: Trie<V>, key: string, a: Addr, data: Option<Pair<V>>, other: string)
    requires Distinguishes(cmp) && Spells(cmp, m, a, key)
    ensures Lookup(cmp, m[a := Cell(m[a].c, data)], other) ==
      if other != key then Lookup(cmp, m, other) else if data.Some? then Some(data.value.value) else None
  {
    var n := m[a := Cell(m[a].c, data)];
    assert forall x :: x in m ==> SameChar(m, n, x) && SameChar(n, m, x);
    if other == key {
      WaysKept(cmp, m, n, key, a);
      SpellsSame(cmp, m, n, key, a);
      LookupIs(cmp, n, key, a);
    } else {
      forall b ensures SameAt(cmp, m, n, other, b) && SameAt(cmp, n, m, other, b) {
        if Known(cmp, m, b, other) {
          WaysKept(cmp, m, n, other, b);
          if b == a { SpellsOneWord(cmp, m, a, key, other); }
        }
        if Known(cmp, n, b, other) {
          WaysKept(cmp, n, m, other, b);
          SpellsSame(cmp, n, m, other, b);
          if b == a { SpellsOneWord(cmp, m, a, key, other); }
        }
      }
      LookupAgrees(cmp, m, n, other);
    }
  }

  /** A new cell without data, or one such cell less, changes no lookup. */
  lemma BlankLooksUp<V>(cmp: Comparator, m: Trie<V>, a: Addr, c: char, other: string)
    requires Closed(m) && a !in m
    ensures Lookup(cmp, m[a := Cell(c, None)], other) == Lookup(cmp, m, other)
  {
    var n := m[a := Cell(c, None)];
    assert forall x :: x in m ==> SameChar(m, n, x) && SameChar(n, m, x);
    forall b ensures SameAt(cmp, m, n, other, b) && SameAt(cmp, n, m, other, b) {
      if Known(cmp, m, b, other) { WaysKept(cmp, m, n, other, b); }
      if Known(cmp, n, b, other) {
        forall k | 0 <= k < |b| ensures SameChar(n, m, b[..k]) { ClosedPrefix(m, b, k); }
      }
    }
    LookupAgrees(cmp, m, n, other);
  }

  lemma DataKeyed<V>(cmp: Comparator, m: Trie<V>, key: string, a: Addr, data: Option<Pair<V>>)
    requires Keyed(cmp, m) && Spells(cmp, m, a, key) && (data.Some? ==> data.value.key == key)
    ensures Keyed(cmp, m[a := Cell(m[a].c, data)])
  {
    var n := m[a := Cell(m[a].c, data)];
    assert forall x :: x in m ==> SameChar(m, n, x);
    forall b | b in n && n[b].data.Some? ensures Spells(cmp, n, b, n[b].data.value.key) {
      WaysKept(cmp, m, n, n[b].data.value.key, b);
      SpellsSame(cmp, m, n, n[b].data.value.key, b);
    }
  }

  lemma BlankKeyed<V>(cmp: Comparator, m: Trie<V>, a: Addr, c: char)
    requires Closed(m) && a !in m
    ensures Keyed(cmp, m) <==> Keyed(cmp, m[a := Cell(c, None)])
  {
    var n := m[a := Cell(c, None)];
    assert forall x :: x in m ==> SameChar(m, n, x) && SameChar(n, m, x);
    forall b | b in m && m[b].data.Some?
      ensures Spells(cmp, m, b, m[b].data.value.key) <==> Spells(cmp, n, b, m[b].data.value.key)
    {
      var key := m[b].data.value.key;
      if Spells(cmp, m, b, key) {
        WaysKept(cmp, m, n, key, b);
        SpellsSame(cmp, m, n, key, b);
      }
      if Spells(cmp, n, b, key) {
        forall k | 0 <= k < |b| ensures SameChar(n, m, b[..k]) { ClosedPrefix(m, b, k); }
        SpellsSame(cmp, n, m, key, b);
      }
    }
    assert forall b :: b in m && m[b].data.Some? <==> b in n && n[b].data.Some?;
    if Keyed(cmp, n) {
      forall b | b in m && m[b].data.Some? ensures Spells(cmp, m, b, m[b].data.value.key) {
        assert b in n && n[b] == m[b];
      }
    }
  }

  /** After a blank cell is put where a search came, the search goes on from it. */
  lemma BlankGoesOn<V>(cmp: Comparator, m: Trie<V>, key: string, a: Addr)
    requires Distinguishes(cmp) && On(cmp, m, key, a) && a !in m
    ensures var n := m[a := Cell(key[Used(a)], None)];
      && (Used(a) + 1 < |key| ==> On(cmp, n, key, a + [M]) && Used(a + [M]) == Used(a) + 1)
      && (Used(a) + 1 == |key| ==> Spells(cmp, n, a, key))
  {
    var n := m[a := Cell(key[Used(a)], None)];
    assert forall x :: x in m ==> SameChar(m, n, x);
    WaysKept(cmp, m, n, key, a);
    OnSame(cmp, m, n, key, a);
    assert cmp(key[Used(a)], n[a].c) == 0;
    assert Up(a + [M]) == a && Last(a + [M]) == M;
  }

  /** A cell that no word needs can go. */
  lemma DropDead<V>(cmp: Comparator, m: Trie<V>, a: Addr, other: string)
    requires Closed(m) && Keyed(cmp, m) && a in m && Dead(m, a)
    ensures Closed(m - {a}) && Keyed(cmp, m - {a}) && Words(m - {a}) == Words(m)
    ensures Lookup(cmp, m - {a}, other) == Lookup(cmp, m, other)
  {
    var n := m - {a};
    forall b | b in n && b != [] ensures Up(b) in n {
      if Up(b) == a {
        assert b == a + [Last(b)];
        match Last(b) case L => {} case M => {} case R => {}
      }
    }
    assert n[a := Cell(m[a].c, None)] == m;
    BlankKeyed(cmp, n, a, m[a].c);
    BlankLooksUp(cmp, n, a, m[a].c, other);
  }
}
