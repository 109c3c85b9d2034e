/** cc_tsttable_get, cc_tsttable_remove with its pruning, and cc_tsttable_remove_all. */
module TrieRemove {

  import opened Options
  import opened TriePaths
  import opened TrieGrow
  import opened TrieTable

  /** cc_tsttable_get */
  method Find<V>(t: Table<V>, key: string) returns (stat: Stat, out: Option<V>)
    requires t.Valid() && key != []
    ensures out == Lookup(t.cmp, Cells(t.at), key)
    ensures stat == if out.Some? then CC_OK else CC_ERR_KEY_NOT_FOUND
  {
    var node, owner, dir, matched;
    ghost var a;
    node, owner, dir, matched, a := t.GetLastNode(key);
    if node != null {
      LookupIs(t.cmp, Cells(t.at), key, a);
      if node.data.Some? && matched == |key| { return CC_OK, Some(node.data.value.value); }
    } else {
      LookupAbsent(t.cmp, Cells(t.at), key, a);
    }
    return CC_ERR_KEY_NOT_FOUND, None;
  }

  // ---- unlinking one node ----

  /** What freeing the childless node at a has written: its parent, or the root, no longer points to it. */
  twostate predicate Cut<V>(t: Table<V>, new a: Addr)
    reads t, t.at.Values
  {
    && t.at == old(t.at) - {a}
    && t.root == (if a == [] then null else old(t.root))
    && (forall b :: b in t.at ==> CutAt(t.at[b], b, a))
  }

  twostate predicate CutAt<V>(n: Node<V>, new b: Addr, new a: Addr)
    reads n
  {
    && n.left == (if b + [L] == a then null else old(n.left))
    && n.mid == (if b + [M] == a then null else old(n.mid))
    && n.right == (if b + [R] == a then null else old(n.right))
    && n.parent == old(n.parent) && n.c == old(n.c) && n.data == old(n.data)
  }

  ghost predicate Childless<V>(at: map<Addr, Node<V>>, a: Addr) {
    a + [L] !in at && a + [M] !in at && a + [R] !in at
  }

  lemma NotBelow<V>(at: map<Addr, Node<V>>, a: Addr, b: Addr)
    requires Childless(at, a) && b in at && b != []
    ensures Up(b) != a
  {
    if Up(b) == a {
      assert b == a + [Last(b)];
      match Last(b) case L => {} case M => {} case R => {}
    }
  }

  twostate lemma CutLinked<V>(t: Table<V>, new a: Addr, new b: Addr)
    requires old(t.Shape()) && a in old(t.at) && Childless(old(t.at), a) && Cut(t, a) && b in t.at
    ensures Linked(t.at[b], t.at, b) && (b != [] ==> Up(b) in t.at)
  {
    var at := old(t.at);
    assert old(Linked(t.at[b], t.at, b));
    assert CutAt(t.at[b], b, a);
    GetWithout(at, a, b + [L]);
    GetWithout(at, a, b + [M]);
    GetWithout(at, a, b + [R]);
    if b != [] {
      NotBelow(at, a, b);
      GetWithout(at, a, Up(b));
    }
  }

  lemma GetWithout<V>(at: map<Addr, Node<V>>, a: Addr, b: Addr)
    ensures Get(at - {a}, b) == if b == a then null else Get(at, b)
  {
  }

  twostate lemma CutShape<V>(t: Table<V>, new a: Addr)
    requires old(t.Shape()) && a in old(t.at) && Childless(old(t.at), a) && Cut(t, a)
    ensures t.Shape() && Cells(t.at) == old(Cells(t.at)) - {a}
  {
    forall b | b in t.at ensures Linked(t.at[b], t.at, b) && (b != [] ==> Up(b) in t.at) { CutLinked(t, a, b); }
    CutCells(t, a);
    GetWithout(old(t.at), a, []);
    assert Injective(t.at);
  }

  twostate lemma CutCells<V>(t: Table<V>, new a: Addr)
    requires Cut(t, a)
    ensures Cells(t.at) == old(Cells(t.at)) - {a}
  {
    forall b | b in t.at ensures Cell(t.at[b].c, t.at[b].data) == old(Cell(t.at[b].c, t.at[b].data)) {
      assert CutAt(t.at[b], b, a);
    }
  }

  /** Only the parent's slot for a points to the node at a. */
  lemma SlotOf<V>(at: map<Addr, Node<V>>, a: Addr, b: Addr, d: Dir)
    requires Injective(at) && a in at && a != [] && Up(a) in at && b in at
    ensures Get(at, b + [d]) == at[a] <==> at[b] == at[Up(a)] && d == Last(a)
    ensures b + [d] == a <==> at[b] == at[Up(a)] && d == Last(a)
  {
    assert a == Up(a) + [Last(a)];
    assert Up(b + [d]) == b && Last(b + [d]) == d;
    assert at[b] == at[Up(a)] ==> b == Up(a);
  }

  /** A node after its slot for `node`, looked for from left to right to middle, has been cleared. */
  twostate predicate SlotCleared<V>(n: Node<V>, new parent: Node<V>, new node: Node<V>)
    reads n
  {
    && n.left == (if n == parent && old(n.left) == node then null else old(n.left))
    && n.right == (if n == parent && old(n.left) != node && old(n.right) == node then null else old(n.right))
    && n.mid == (if n == parent && old(n.left) != node && old(n.right) != node && old(n.mid) == node then null
                 else old(n.mid))
    && n.parent == old(n.parent) && n.c == old(n.c) && n.data == old(n.data)
  }

  twostate lemma CutGiven<V>(t: Table<V>, new a: Addr, new b: Addr)
    requires old(t.Shape()) && a in old(t.at) && a != [] && b in old(t.at)
    requires SlotCleared(old(t.at)[b], old(t.at)[Up(a)], old(t.at)[a])
    ensures CutAt(old(t.at)[b], b, a)
  {
    assert old(Linked(t.at[b], t.at, b));
    SlotOf(old(t.at), a, b, L);
    SlotOf(old(t.at), a, b, M);
    SlotOf(old(t.at), a, b, R);
  }

  /** The parent, or the root, lets go of a childless node. */
  method Detach<V>(t: Table<V>, node: Node<V>, ghost a: Addr)
    requires t.Shape() && a in t.at && node == t.at[a] && Childless(t.at, a)
    modifies t`root, t`at, t.at.Values`left, t.at.Values`mid, t.at.Values`right
    ensures t.Shape() && t.at == old(t.at) - {a} && Cells(t.at) == old(Cells(t.at)) - {a}
  {
    assert Linked(node, t.at, a);
    var parent := node.parent;
    if parent != null {
      if parent.left == node {
        parent.left := null;
      } else if parent.right == node {
        parent.right := null;
      } else if parent.mid == node {
        parent.mid := null;
      }
      forall b | b in old(t.at) ensures CutAt(old(t.at)[b], b, a) {
        assert SlotCleared(old(t.at)[b], parent, node);
        CutGiven(t, a, b);
      }
    } else {
      t.root := null;
    }
    t.at := t.at - {a};
    CutShape(t, a);
  }

  // ---- pruning ----

  /** The trie while it is pruned from address a upwards: only the cell at `cur` may be dead. */
  ghost predicate Pruning<V>(cmp: Comparator, m: Trie<V>, n: Trie<V>, a: Addr, cur: Addr) {
    && Closed(n) && Keyed(cmp, n) && NoDeadBut(n, cur) && Words(n) == Words(m) && cur <= a
    && (forall other :: SameLookup(cmp, m, n, other))
    && n.Keys <= m.Keys && (forall b :: b in n ==> n[b] == m[b])
    && (forall b :: b in m && b !in n ==> b <= a && m[b].data.None?)
  }

  ghost predicate SameLookup<V>(cmp: Comparator, m: Trie<V>, n: Trie<V>, key: string) {
    Lookup(cmp, n, key) == Lookup(cmp, m, key)
  }

  lemma PruningNext<V>(cmp: Comparator, m: Trie<V>, n: Trie<V>, a: Addr, cur: Addr)
    requires Pruning(cmp, m, n, a, cur) && cur in n && Dead(n, cur)
    ensures Pruning(cmp, m, n - {cur}, a, if cur == [] then [] else Up(cur))
    ensures cur == [] ==> n - {cur} == map[]
  {
    forall other ensures SameLookup(cmp, m, n - {cur}, other) {
      assert SameLookup(cmp, m, n, other);
      DropDead(cmp, n, cur, other);
    }
    DropDead(cmp, n, cur, "");
    if cur != [] {
      DroppedNoDeadBut(n, cur);
    } else {
      forall b | b in n ensures b == [] { RootChildless(n, b); }
    }
  }

  lemma {:induction false} RootChildless<V>(n: Trie<V>, b: Addr)
    requires Closed(n) && b in n && !HasChild(n, [])
    ensures b == []
  {
    if b != [] {
      RootChildless(n, Up(b));
      assert b == [] + [Last(b)];
      match Last(b) case L => {} case M => {} case R => {}
    }
  }

  /** One turn of the loop in remove_eow_node. */
  method FreeDead<V>(t: Table<V>, node: Node<V>, ghost m: Trie<V>, ghost a: Addr, ghost cur: Addr)
    returns (parent: Node?<V>)
    requires t.Shape() && cur in t.at && node == t.at[cur]
    requires node.left == null && node.mid == null && node.right == null && node.data.None?
    requires Pruning(t.cmp, m, Cells(t.at), a, cur)
    modifies t`root, t`at, t.at.Values`left, t.at.Values`mid, t.at.Values`right
    ensures t.Shape() && t.at == old(t.at) - {cur} && (parent == null ==> t.at == map[])
    ensures parent != null ==> cur != [] && Up(cur) in t.at && parent == t.at[Up(cur)]
    ensures Pruning(t.cmp, m, Cells(t.at), a, if cur == [] then [] else Up(cur))
  {
    assert Linked(node, t.at, cur);
    parent := node.parent;
    PruningNext(t.cmp, m, Cells(t.at), a, cur);
    Detach(t, node, cur);
    if cur == [] { assert Cells(t.at).Keys == t.at.Keys; }
  }

  lemma SmallerMap<A, B>(m: map<A, B>, a: A)
    requires a in m
    ensures |m - {a}| < |m| && (m - {a}).Values <= m.Values
  {
    assert (m - {a}).Keys == m.Keys - {a};
    assert |m.Keys - {a}| < |m.Keys|;
  }

  /** remove_eow_node: the entry is gone, and now every node that no word needs any more goes, upwards. */
  method RemoveEowNode<V>(t: Table<V>, node0: Node<V>, ghost a: Addr) returns (ghost cur: Addr)
    requires t.Shape() && Keyed(t.cmp, Cells(t.at)) && a in t.at && node0 == t.at[a] && node0.data.None?
    requires Distinguishes(t.cmp) && NoDeadBut(Cells(t.at), a)
    modifies t`root, t`at, t.at.Values`left, t.at.Values`mid, t.at.Values`right
    ensures t.Shape() && NoDead(Cells(t.at)) && t.at.Values <= old(t.at.Values)
    ensures Pruning(t.cmp, old(Cells(t.at)), Cells(t.at), a, cur)
  {
    ghost var m := Cells(t.at);
    cur := a;
    var node: Node?<V> := node0;
    while node != null
      invariant t.Shape() && t.at.Values <= old(t.at.Values)
      invariant Pruning(t.cmp, m, Cells(t.at), a, cur)
      invariant if node != null then cur in t.at && node == t.at[cur] else t.at == map[]
      decreases |t.at|, node != null
    {
      assert Linked(node, t.at, cur);
      if node.left != null || node.mid != null || node.right != null || node.data.Some? {
        assert !Dead(Cells(t.at), cur);
        return;
      }
      SmallerMap(t.at, cur);
      node := FreeDead(t, node, m, a, cur);
      cur := if cur == [] then [] else Up(cur);
    }
  }

  /** Clearing the entry at a leaves at most that cell dead. */
  lemma ClearedKeeps<V>(cmp: Comparator, m: Trie<V>, key: string, a: Addr, other: string)
    requires Distinguishes(cmp) && Keyed(cmp, m) && NoDead(m) && Spells(cmp, m, a, key) && m[a].data.Some?
    ensures var n := m[a := Cell(m[a].c, None)];
      && Keyed(cmp, n) && NoDeadBut(n, a) && |Words(n)| == |Words(m)| - 1
      && Lookup(cmp, n, other) == if other == key then None else Lookup(cmp, m, other)
  {
    var n := m[a := Cell(m[a].c, None)];
    DataKeyed(cmp, m, key, a, None);
    DataLooksUp(cmp, m, key, a, None, other);
    forall b | b in n && b != a ensures !Dead(n, b) { assert !Dead(m, b); }
    assert Words(n) == Words(m) - {a};
  }

  /** The entry at a goes, with the nodes that only it needed. */
  method RemoveAt<V>(t: Table<V>, node: Node<V>, ghost a: Addr, ghost key: string)
    requires t.Valid() && Spells(t.cmp, Cells(t.at), a, key) && node == t.at[a] && node.data.Some?
    modifies t, t.at.Values
    ensures t.Shape() && Keyed(t.cmp, Cells(t.at)) && NoDead(Cells(t.at)) && t.at.Values <= old(t.at.Values)
    ensures |Words(Cells(t.at))| == old(|Words(Cells(t.at))|) - 1 && t.size == old(t.size)
    ensures Pruned(old(Cells(t.at)), Cells(t.at), a)
    ensures forall other :: Gone(t.cmp, old(Cells(t.at)), Cells(t.at), key, other)
  {
    ghost var m := Cells(t.at);
    ghost var n := m[a := Cell(m[a].c, None)];
    ClearedKeeps(t.cmp, m, key, a, key);
    node.data := None;
    CellsData(t.at, a);
    ghost var cur := RemoveEowNode(t, node, a);
    forall other ensures Gone(t.cmp, m, Cells(t.at), key, other) {
      assert SameLookup(t.cmp, n, Cells(t.at), other);
      ClearedKeeps(t.cmp, m, key, a, other);
    }
  }

  ghost predicate Gone<V>(cmp: Comparator, m: Trie<V>, n: Trie<V>, key: string, other: string) {
    Lookup(cmp, n, other) == if other == key then None else Lookup(cmp, m, other)
  }

  method RemoveFound<V>(t: Table<V>, node: Node<V>, ghost a: Addr, ghost key: string)
    requires t.Valid() && Spells(t.cmp, Cells(t.at), a, key) && node == t.at[a] && node.data.Some?
    modifies t, t.at.Values
    ensures t.Valid() && t.at.Values <= old(t.at.Values) && t.size == old(t.size) - 1
    ensures Pruned(old(Cells(t.at)), Cells(t.at), a)
    ensures forall other :: Gone(t.cmp, old(Cells(t.at)), Cells(t.at), key, other)
  {
    RemoveAt(t, node, a, key);
    label freed:
    if t.size > 0 { t.size := t.size - 1; }
    CellsFrame@freed(t.at);
  }

  /** The word was there and is pruned away, or it was not and nothing changed. */
  ghost predicate PrunedIf<V>(cmp: Comparator, m: Trie<V>, n: Trie<V>, key: string, found: bool) {
    if found then exists a :: Spells(cmp, m, a, key) && Pruned(m, n, a) else n == m
  }

  /** cc_tsttable_remove */
  method Remove<V>(t: Table<V>, key: string) returns (stat: Stat, out: Option<V>)
    requires t.Valid() && key != []
    modifies t, t.at.Values
    ensures t.Valid() && t.at.Values <= old(t.at.Values)
    ensures out == old(Lookup(t.cmp, Cells(t.at), key))
    ensures stat == if out.Some? then CC_OK else CC_ERR_KEY_NOT_FOUND
    ensures t.size == old(t.size) - (if out.Some? then 1 else 0)
    ensures forall other :: Gone(t.cmp, old(Cells(t.at)), Cells(t.at), key, other)
    ensures PrunedIf(t.cmp, old(Cells(t.at)), Cells(t.at), key, out.Some?)
  {
    var node, owner, dir, matched;
    ghost var a;
    node, owner, dir, matched, a := t.GetLastNode(key);
    CellsFrame(t.at);
    if node == null {
      LookupAbsent(t.cmp, Cells(t.at), key, a);
      return CC_ERR_KEY_NOT_FOUND, None;
    }
    LookupIs(t.cmp, Cells(t.at), key, a);
    if node.data.None? || matched != |key| { return CC_ERR_KEY_NOT_FOUND, None; }
    out := Some(node.data.value.value);
    RemoveFound(t, node, a, key);
    stat := CC_OK;
  }
}
