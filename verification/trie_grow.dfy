/** Growing a chain of cells for the rest of a word, and pruning dead cells after a removal. */
module TrieGrow {

  import opened Options
  import opened TriePaths

  /** The address k cells down the middle from a. */
  function Along(a: Addr, k: nat): Addr {
    if k == 0 then a else Along(a, k - 1) + [M]
  }

  lemma {:induction false} AlongLength(a: Addr, k: nat)
    ensures |Along(a, k)| == |a| + k && Along(a, k)[..|a|] == a
    ensures Used(Along(a, k)) == Used(a) + k
  {
    if k > 0 {
      AlongLength(a, k - 1);
      assert Up(Along(a, k)) == Along(a, k - 1);
    }
  }

  lemma AlongApart(a: Addr, j: nat, k: nat)
    requires j < k
    ensures Along(a, j) != Along(a, k)
  {
    AlongLength(a, j);
    AlongLength(a, k);
  }

  lemma AlongVacant<V>(m: Trie<V>, a: Addr, k: nat)
    requires Closed(m) && a !in m
    ensures Along(a, k) !in m
  {
    AlongLength(a, k);
    if Along(a, k) in m { ClosedPrefix(m, Along(a, k), |a|); }
  }

  /** Blank cells for the characters of s, one below the other. */
  function Grown<V>(m: Trie<V>, a: Addr, s: string): Trie<V> {
    if s == [] then m
    else Grown(m, a, s[..|s| - 1])[Along(a, |s| - 1) := Cell(s[|s| - 1], None)]
  }

  ghost predicate IsAlong(a: Addr, n: nat, b: Addr) {
    exists k :: 0 <= k < n && b == Along(a, k)
  }

  lemma {:induction false} GrownKeys<V>(m: Trie<V>, a: Addr, s: string, b: Addr)
    ensures b in Grown(m, a, s) <==> b in m || IsAlong(a, |s|, b)
  {
    if s != [] {
      var k := |s| - 1;
      GrownKeys(m, a, s[..k], b);
      assert b == Along(a, k) ==> IsAlong(a, |s|, b);
      if IsAlong(a, |s|, b) && b != Along(a, k) {
        var i :| 0 <= i < |s| && b == Along(a, i);
        assert i < k;
      }
    }
  }

  lemma GrownVacant<V>(m: Trie<V>, a: Addr, s: string, k: nat)
    requires Closed(m) && a !in m && |s| <= k
    ensures Along(a, k) !in Grown(m, a, s)
  {
    GrownKeys(m, a, s, Along(a, k));
    AlongVacant(m, a, k);
    AlongLength(a, k);
    forall i | 0 <= i < |s| ensures Along(a, i) != Along(a, k) { AlongLength(a, i); }
  }

  /** What holds of the trie m and of the trie n in which the search for `key` has come to b. */
  ghost predicate Growing<V>(cmp: Comparator, m: Trie<V>, n: Trie<V>, key: string, other: string) {
    && Distinguishes(cmp) && Closed(n) && Keyed(cmp, n)
    && Lookup(cmp, n, other) == Lookup(cmp, m, other) && Words(n) == Words(m)
  }

  lemma GrowOne<V>(cmp: Comparator, m: Trie<V>, n: Trie<V>, key: string, b: Addr, other: string)
    requires Growing(cmp, m, n, key, other) && On(cmp, n, key, b) && b !in n
    ensures var n' := n[b := Cell(key[Used(b)], None)];
      && Growing(cmp, m, n', key, other)
      && (Used(b) + 1 < |key| ==> On(cmp, n', key, b + [M]))
      && (Used(b) + 1 == |key| ==> Spells(cmp, n', b, key))
  {
    BlankGoesOn(cmp, n, key, b);
    BlankKeyed(cmp, n, b, key[Used(b)]);
    BlankLooksUp(cmp, n, b, key[Used(b)], other);
    if b != [] { assert Up(b) in n; }
  }

  /** The chain for what is left of the key changes no lookup, and the search now ends at its end. */
  lemma {:induction false} GrownKeeps<V>(cmp: Comparator, m: Trie<V>, key: string, a: Addr, s: string, other: string)
    requires Distinguishes(cmp) && Closed(m) && Keyed(cmp, m) && On(cmp, m, key, a) && a !in m
    requires s <= key[Used(a)..]
    ensures Growing(cmp, m, Grown(m, a, s), key, other)
    ensures Used(a) + |s| < |key| ==> On(cmp, Grown(m, a, s), key, Along(a, |s|))
    ensures Used(a) + |s| == |key| ==> s != [] && Spells(cmp, Grown(m, a, s), Along(a, |s| - 1), key)
  {
    if s != [] {
      var k := |s| - 1;
      assert s[..k] <= key[Used(a)..];
      GrownKeeps(cmp, m, key, a, s[..k], other);
      GrownVacant(m, a, s[..k], k);
      GrownStep(cmp, m, Grown(m, a, s[..k]), key, a, s, k, other);
    }
  }

  /** One more character: n is the trie grown by those before it. */
  lemma GrownStep<V>(cmp: Comparator, m: Trie<V>, n: Trie<V>, key: string, a: Addr, s: string, k: nat, other: string)
    requires |s| == k + 1 && Used(a) <= |key| && s <= key[Used(a)..] && n == Grown(m, a, s[..k])
    requires Growing(cmp, m, n, key, other) && On(cmp, n, key, Along(a, k)) && Along(a, k) !in n
    ensures Growing(cmp, m, Grown(m, a, s), key, other)
    ensures Used(a) + |s| < |key| ==> On(cmp, Grown(m, a, s), key, Along(a, |s|))
    ensures Used(a) + |s| == |key| ==> Spells(cmp, Grown(m, a, s), Along(a, k), key)
  {
    AlongLength(a, k);
    assert s[k] == key[Used(a)..][k] == key[Used(a) + k];
    assert Grown(m, a, s) == n[Along(a, k) := Cell(s[k], None)];
    assert Along(a, k + 1) == Along(a, k) + [M];
    GrowOne(cmp, m, n, key, Along(a, k), other);
  }

  // ---- add ----

  /** The trie after a word has been added at a vacant slot. */
  function WithWord<V>(m: Trie<V>, a: Addr, s: string, p: Pair<V>): Trie<V>
    requires s != []
  {
    Grown(m, a, s)[Along(a, |s| - 1) := Cell(s[|s| - 1], Some(p))]
  }

  lemma WithWordNoDead<V>(m: Trie<V>, a: Addr, s: string, p: Pair<V>)
    requires NoDead(m) && s != []
    ensures NoDead(WithWord(m, a, s, p))
  {
    var n := WithWord(m, a, s, p);
    var e := Along(a, |s| - 1);
    forall b ensures b in m || IsAlong(a, |s|, b) <==> b in Grown(m, a, s) { GrownKeys(m, a, s, b); }
    assert IsAlong(a, |s|, e);
    forall b | b in n && b != e ensures HasChild(n, b) || n[b].data.Some? {
      if IsAlong(a, |s|, b) {
        var k :| 0 <= k < |s| && b == Along(a, k);
        assert IsAlong(a, |s|, b + [M]) by { assert b + [M] == Along(a, k + 1); }
      } else {
        GrownCell(m, a, s, b);
        assert !Dead(m, b);
        assert n[b] == m[b];
      }
    }
  }

  lemma {:induction false} GrownCell<V>(m: Trie<V>, a: Addr, s: string, b: Addr)
    requires b in Grown(m, a, s) && !IsAlong(a, |s|, b)
    ensures b in m && Grown(m, a, s)[b] == m[b]
  {
    if s != [] {
      var k := |s| - 1;
      assert IsAlong(a, |s|, Along(a, k));
      GrownCell(m, a, s[..k], b);
    }
  }

  lemma WithWordKeeps<V>(cmp: Comparator, m: Trie<V>, key: string, a: Addr, v: V, other: string)
    requires Distinguishes(cmp) && Closed(m) && Keyed(cmp, m) && NoDead(m) && On(cmp, m, key, a) && a !in m
    ensures var n := WithWord(m, a, key[Used(a)..], Pair(key, v));
      && Closed(n) && Keyed(cmp, n) && NoDead(n) && |Words(n)| == |Words(m)| + 1
      && Lookup(cmp, n, other) == if other == key then Some(v) else Lookup(cmp, m, other)
  {
    var s := key[Used(a)..];
    var g, e := Grown(m, a, s), Along(a, |s| - 1);
    GrownKeeps(cmp, m, key, a, s, other);
    assert g[e].c == s[|s| - 1];
    var n := g[e := Cell(g[e].c, Some(Pair(key, v)))];
    DataKeyed(cmp, g, key, e, Some(Pair(key, v)));
    DataLooksUp(cmp, g, key, e, Some(Pair(key, v)), other);
    WithWordNoDead(m, a, s, Pair(key, v));
    AlongVacant(m, a, |s| - 1);
    assert Words(n) == Words(m) + {e};
  }

  // ---- remove ----

  ghost predicate NoDeadBut<V>(m: Trie<V>, a: Addr) {
    forall b :: b in m && b != a ==> !Dead(m, b)
  }

  lemma DroppedNoDeadBut<V>(m: Trie<V>, a: Addr)
    requires a in m && a != [] && NoDeadBut(m, a)
    ensures NoDeadBut(m - {a}, Up(a))
  {
    forall b | b in m - {a} && b != Up(a) ensures !Dead(m - {a}, b) {
      assert !Dead(m, b);
      assert a != b + [L] && a != b + [M] && a != b + [R] by {
        assert Up(b + [L]) == b && Up(b + [M]) == b && Up(b + [R]) == b;
      }
    }
  }

  /** The word at a is gone, and with it only cells on the way to it that no other word needs. */
  ghost predicate Pruned<V>(m: Trie<V>, n: Trie<V>, a: Addr) {
    && n.Keys <= m.Keys
    && (forall b :: b in n ==> n[b] == if b == a then Cell(m[b].c, None) else m[b])
    && (forall b :: b in m && b !in n ==> b <= a && (b == a || m[b].data.None?))
  }
}
