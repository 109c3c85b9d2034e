/** cc_tsttable_add and make_mid_subtree. */
module TrieAdd {

  import opened Options
  import opened TriePaths
  import opened TrieGrow
  import opened TrieTable

  // ---- a chain of new nodes ----

  ghost function Nth<V>(ns: seq<Node<V>>, k: int): Node?<V> {
    if 0 <= k < |ns| then ns[k] else null
  }

  ghost predicate Apart<T>(s: seq<T>, j: nat, k: nat)
    requires j < |s| && k < |s|
  {
    j != k ==> s[j] != s[k]
  }

  ghost predicate Distinct<T>(s: seq<T>) {
    forall j, k {:trigger Apart(s, j, k)} :: 0 <= j < |s| && 0 <= k < |s| ==> Apart(s, j, k)
  }

  lemma DistinctNext<T>(s: seq<T>, x: T)
    requires Distinct(s) && x !in s
    ensures Distinct(s + [x])
  {
    var n := s + [x];
    forall j, k | 0 <= j < |n| && 0 <= k < |n| ensures Apart(n, j, k) {
      if j < |s| && k < |s| { assert Apart(s, j, k); }
    }
  }

  /** Blank nodes for the characters of s, linked down the middle. */
  ghost predicate Chain<V>(ns: seq<Node<V>>, s: string)
    reads ns
  {
    && |ns| == |s|
    && (forall k :: 0 <= k < |ns| ==> ChainAt(ns[k], ns, k, s))
    && Distinct(ns)
  }

  ghost predicate ChainAt<V>(n: Node<V>, ns: seq<Node<V>>, k: nat, s: string)
    requires k < |s|
    reads n
  {
    && n.c == s[k] && n.data == None && n.left == null && n.right == null
    && n.mid == Nth(ns, k + 1) && n.parent == Nth(ns, k - 1)
  }

  /** One turn of the loop in make_mid_subtree. */
  method Attach<V>(end: Node<V>, s: string, i: nat, ghost ns: seq<Node<V>>) returns (node: Node<V>)
    requires 0 < i < |s| && Chain(ns, s[..i]) && end == ns[i - 1]
    modifies end`mid
    ensures fresh(node) && Chain(ns + [node], s[..i + 1])
  {
    node := new Node(s[i]);
    end.mid := node;
    node.parent := end;
    ghost var ns' := ns + [node];
    DistinctNext(ns, node);
    forall k | 0 <= k < |ns'| ensures ChainAt(ns'[k], ns', k, s[..i + 1]) {
      if k < i { assert old(ChainAt(ns[k], ns, k, s[..i])) && Apart(ns, k, i - 1); }
    }
  }

  /** make_mid_subtree */
  method MakeMidSubtree<V>(s: string) returns (begin: Node<V>, end: Node<V>, ghost ns: seq<Node<V>>)
    requires s != []
    ensures Chain(ns, s) && begin == ns[0] && end == ns[|ns| - 1] && fresh(begin) && fresh(end)
    ensures forall k :: 0 <= k < |ns| ==> fresh(ns[k])
  {
    begin := new Node(s[0]);
    ns := [begin];
    end := begin;
    for i := 1 to |s|
      invariant Chain(ns, s[..i]) && begin == ns[0] && end == ns[i - 1] && fresh(begin) && fresh(end)
      invariant forall k :: 0 <= k < |ns| ==> fresh(ns[k])
    {
      var node := Attach(end, s, i, ns);
      end := node;
      ns := ns + [node];
    }
    assert s[..|s|] == s;
  }

  /** The table's nodes with the chain's. */
  ghost function Extended<V>(at: map<Addr, Node<V>>, a: Addr, ns: seq<Node<V>>): map<Addr, Node<V>> {
    if ns == [] then at else Extended(at, a, ns[..|ns| - 1])[Along(a, |ns| - 1) := ns[|ns| - 1]]
  }

  lemma {:induction false} ExtendedAt<V>(at: map<Addr, Node<V>>, a: Addr, ns: seq<Node<V>>, b: Addr)
    ensures b in Extended(at, a, ns) <==> b in at || IsAlong(a, |ns|, b)
    ensures !IsAlong(a, |ns|, b) ==> Get(Extended(at, a, ns), b) == Get(at, b)
  {
    if ns != [] {
      var k := |ns| - 1;
      ExtendedAt(at, a, ns[..k], b);
      assert b == Along(a, k) ==> IsAlong(a, |ns|, b);
      assert IsAlong(a, k, b) ==> IsAlong(a, |ns|, b) by {
        if i :| 0 <= i < k && b == Along(a, i) { assert i < |ns|; }
      }
      assert IsAlong(a, |ns|, b) && b != Along(a, k) ==> IsAlong(a, k, b);
    }
  }

  lemma {:induction false} ExtendedAlong<V>(at: map<Addr, Node<V>>, a: Addr, ns: seq<Node<V>>, k: nat)
    requires k < |ns|
    ensures Get(Extended(at, a, ns), Along(a, k)) == ns[k]
  {
    var last := |ns| - 1;
    if k < last {
      AlongApart(a, k, last);
      ExtendedAlong(at, a, ns[..last], k);
    }
  }

  lemma {:induction false} ExtendedCells<V>(at: map<Addr, Node<V>>, a: Addr, ns: seq<Node<V>>, s: string)
    requires |ns| == |s| && forall k :: 0 <= k < |ns| ==> ns[k].c == s[k] && ns[k].data == None
    ensures Cells(Extended(at, a, ns)) == Grown(Cells(at), a, s)
  {
    if ns != [] {
      var k := |ns| - 1;
      ExtendedCells(at, a, ns[..k], s[..k]);
    }
  }

  ghost predicate Rooted<V>(at: map<Addr, Node<V>>) {
    forall a :: a in at && a != [] ==> Up(a) in at
  }

  lemma {:induction false} VacantBelow<V>(at: map<Addr, Node<V>>, a: Addr, b: Addr)
    requires Rooted(at) && a !in at && a <= b
    ensures b !in at
  {
    if b != a {
      VacantBelow(at, a, Up(b));
    }
  }

  /** Below an old node there is something new only in the slot where the chain hangs. */
  lemma ExtendedChild<V>(at: map<Addr, Node<V>>, a: Addr, ns: seq<Node<V>>, b: Addr, d: Dir)
    requires Rooted(at) && a !in at && b in at && ns != []
    ensures Get(Extended(at, a, ns), b + [d]) == if b + [d] == a then ns[0] else Get(at, b + [d])
  {
    if b + [d] == a {
      ExtendedAlong(at, a, ns, 0);
    } else {
      if IsAlong(a, |ns|, b + [d]) {
        var k :| 0 <= k < |ns| && b + [d] == Along(a, k);
        assert Up(b + [d]) == b && Up(Along(a, k)) == Along(a, k - 1);
        AlongLength(a, k - 1);
        VacantBelow(at, a, Along(a, k - 1));
      }
      ExtendedAt(at, a, ns, b + [d]);
    }
  }

  /** Below a new node there is only the next one, in the middle. */
  lemma ExtendedChainChild<V>(at: map<Addr, Node<V>>, a: Addr, ns: seq<Node<V>>, k: nat, d: Dir)
    requires Rooted(at) && a !in at && k < |ns|
    ensures Get(Extended(at, a, ns), Along(a, k) + [d]) == if d == M then Nth(ns, k + 1) else null
  {
    var b := Along(a, k) + [d];
    AlongLength(a, k);
    VacantBelow(at, a, b);
    if d == M && k + 1 < |ns| {
      ExtendedAlong(at, a, ns, k + 1);
    } else {
      if IsAlong(a, |ns|, b) {
        var j :| 0 <= j < |ns| && b == Along(a, j);
        AlongLength(a, j);
      }
      ExtendedAt(at, a, ns, b);
    }
  }

  // ---- linking the chain in ----

  /** Node k of a chain that hangs from `owner`. */
  ghost predicate InChain<V>(ns: seq<Node<V>>, k: nat, owner: Node?<V>)
    requires k < |ns|
    reads ns[k]
  {
    && ns[k].left == null && ns[k].right == null && ns[k].mid == Nth(ns, k + 1)
    && ns[k].parent == if k == 0 then owner else ns[k - 1]
  }

  /** What hanging the chain in the vacant slot a has written. */
  twostate predicate Hung<V>(t: Table<V>, new a: Addr, new ns: seq<Node<V>>)
    reads t, t.at.Values, ns
  {
    && ns != [] && t.at == Extended(old(t.at), a, ns)
    && t.root == (if a == [] then ns[0] else old(t.root))
    && (forall b :: b in old(t.at) ==> var n := old(t.at)[b]; n in t.at.Values && HungAt(n, b, a, ns))
    && (forall k :: 0 <= k < |ns| ==> InChain(ns, k, ParentOf(old(t.at), a)))
    && Distinct(ns)
    && (forall b, k :: b in old(t.at) && 0 <= k < |ns| ==> old(t.at)[b] != ns[k])
  }

  twostate predicate HungAt<V>(n: Node<V>, new b: Addr, new a: Addr, new ns: seq<Node<V>>)
    reads n
    requires ns != []
  {
    && n.left == (if b + [L] == a then ns[0] else old(n.left))
    && n.mid == (if b + [M] == a then ns[0] else old(n.mid))
    && n.right == (if b + [R] == a then ns[0] else old(n.right))
    && n.parent == old(n.parent) && n.c == old(n.c) && n.data == old(n.data)
  }

  twostate lemma HungOld<V>(t: Table<V>, new a: Addr, new ns: seq<Node<V>>, new b: Addr)
    requires Hung(t, a, ns) && b in old(t.at) && a !in old(t.at) && Rooted(old(t.at))
    requires old(Linked(t.at[b], t.at, b))
    ensures b in t.at && t.at[b] == old(t.at)[b] && Linked(t.at[b], t.at, b)
  {
    var at, n := old(t.at), old(t.at)[b];
    assert HungAt(n, b, a, ns);
    ExtendedChild(at, a, ns, b, L);
    ExtendedChild(at, a, ns, b, M);
    ExtendedChild(at, a, ns, b, R);
    OldStays(at, a, ns, b);
    if b != [] { OldStays(at, a, ns, Up(b)); }
  }

  lemma OldStays<V>(at: map<Addr, Node<V>>, a: Addr, ns: seq<Node<V>>, b: Addr)
    requires Rooted(at) && a !in at && b in at
    ensures Get(Extended(at, a, ns), b) == at[b]
  {
    if IsAlong(a, |ns|, b) {
      var k :| 0 <= k < |ns| && b == Along(a, k);
      AlongLength(a, k);
      VacantBelow(at, a, b);
    }
    ExtendedAt(at, a, ns, b);
  }

  lemma SameParent<V>(at: map<Addr, Node<V>>, at': map<Addr, Node<V>>, a: Addr)
    requires a != [] ==> Up(a) in at && Get(at', Up(a)) == at[Up(a)]
    ensures ParentOf(at', a) == ParentOf(at, a)
  {
  }

  twostate lemma HungNew<V>(t: Table<V>, new a: Addr, new ns: seq<Node<V>>, new k: nat)
    requires Hung(t, a, ns) && k < |ns| && a !in old(t.at) && Rooted(old(t.at)) && (a != [] ==> Up(a) in old(t.at))
    ensures Along(a, k) in t.at && t.at[Along(a, k)] == ns[k] && Linked(ns[k], t.at, Along(a, k))
    ensures Along(a, k) != [] ==> Up(Along(a, k)) in t.at
  {
    var at := old(t.at);
    assert InChain(ns, k, ParentOf(at, a));
    ExtendedAlong(at, a, ns, k);
    ExtendedChainChild(at, a, ns, k, L);
    ExtendedChainChild(at, a, ns, k, M);
    ExtendedChainChild(at, a, ns, k, R);
    if k == 0 {
      if a != [] { OldStays(at, a, ns, Up(a)); }
      SameParent(at, t.at, a);
    } else {
      assert Up(Along(a, k)) == Along(a, k - 1);
      ExtendedAlong(at, a, ns, k - 1);
    }
  }

  twostate lemma HungShape<V>(t: Table<V>, new a: Addr, new ns: seq<Node<V>>)
    requires old(t.Shape()) && Hung(t, a, ns) && a !in old(t.at) && (a != [] ==> Up(a) in old(t.at))
    ensures t.Shape()
  {
    var at := old(t.at);
    forall b | b in t.at
      ensures Linked(t.at[b], t.at, b) && (b != [] ==> Up(b) in t.at)
      ensures if b in at then t.at[b] == at[b] else t.at[b] in ns
    {
      ExtendedAt(at, a, ns, b);
      if b in at {
        assert old(Linked(t.at[b], t.at, b));
        HungOld(t, a, ns, b);
        if b != [] { OldStays(at, a, ns, Up(b)); }
      } else {
        var k :| 0 <= k < |ns| && b == Along(a, k);
        HungNew(t, a, ns, k);
      }
    }
    forall b, d | b in t.at && d in t.at && b != d ensures t.at[b] != t.at[d] {
      HungApart(t, a, ns, b, d);
    }
    if a == [] { ExtendedAlong(at, a, ns, 0); } else { HungRoot(t, a, ns); }
  }

  twostate lemma HungApart<V>(t: Table<V>, new a: Addr, new ns: seq<Node<V>>, new b: Addr, new d: Addr)
    requires old(t.Shape()) && Hung(t, a, ns) && a !in old(t.at)
    requires b in t.at && d in t.at && b != d
    ensures t.at[b] != t.at[d]
  {
    HungWhere(t, a, ns, b);
    HungWhere(t, a, ns, d);
    assert forall j, k :: 0 <= j < |ns| && 0 <= k < |ns| && j != k ==> ns[j] != ns[k] by {
      forall j, k | 0 <= j < |ns| && 0 <= k < |ns| && j != k ensures ns[j] != ns[k] { assert Apart(ns, j, k); }
    }
  }

  /** A node of the grown table is an old one or one of the chain. */
  twostate lemma HungWhere<V>(t: Table<V>, new a: Addr, new ns: seq<Node<V>>, new b: Addr)
    requires old(t.Shape()) && Hung(t, a, ns) && a !in old(t.at) && b in t.at
    ensures if b in old(t.at) then t.at[b] == old(t.at)[b]
            else exists k :: 0 <= k < |ns| && b == Along(a, k) && t.at[b] == ns[k]
  {
    ExtendedAt(old(t.at), a, ns, b);
    if b in old(t.at) {
      OldStays(old(t.at), a, ns, b);
    } else {
      var k :| 0 <= k < |ns| && b == Along(a, k);
      ExtendedAlong(old(t.at), a, ns, k);
    }
  }

  twostate lemma HungRoot<V>(t: Table<V>, new a: Addr, new ns: seq<Node<V>>)
    requires old(t.Shape()) && Hung(t, a, ns) && a !in old(t.at) && a != [] && Up(a) in old(t.at)
    ensures t.root == Get(t.at, [])
  {
    forall k | 0 <= k < |ns| ensures Along(a, k) != [] { AlongLength(a, k); }
    ExtendedAt(old(t.at), a, ns, []);
  }

  /** The cells after the chain has been hung and its last node given its entry. */
  twostate lemma HungCells<V>(t: Table<V>, new a: Addr, new ns: seq<Node<V>>, new s: string, new p: Pair<V>)
    requires old(t.Shape()) && Hung(t, a, ns) && a !in old(t.at) && |ns| == |s|
    requires forall k :: 0 <= k < |ns| ==> ns[k].c == s[k] && ns[k].data == if k == |ns| - 1 then Some(p) else None
    ensures Cells(t.at) == WithWord(old(Cells(t.at)), a, s, p)
  {
    var m := old(Cells(t.at));
    var n := WithWord(m, a, s, p);
    forall b ensures b in t.at <==> b in n {
      ExtendedAt(old(t.at), a, ns, b);
      GrownKeys(m, a, s, b);
      assert IsAlong(a, |s|, Along(a, |s| - 1));
    }
    forall b | b in t.at ensures Cell(t.at[b].c, t.at[b].data) == n[b] { HungCell(t, a, ns, s, p, b); }
  }

  twostate lemma HungCell<V>(t: Table<V>, new a: Addr, new ns: seq<Node<V>>, new s: string, new p: Pair<V>, new b: Addr)
    requires old(t.Shape()) && Hung(t, a, ns) && a !in old(t.at) && |ns| == |s|
    requires forall k :: 0 <= k < |ns| ==> ns[k].c == s[k] && ns[k].data == if k == |ns| - 1 then Some(p) else None
    requires b in t.at
    ensures var n := WithWord(old(Cells(t.at)), a, s, p); b in n && Cell(t.at[b].c, t.at[b].data) == n[b]
  {
    var m := old(Cells(t.at));
    HungWhere(t, a, ns, b);
    if b in old(t.at) {
      assert HungAt(old(t.at)[b], b, a, ns);
      OldCell(m, a, s, b);
      AlongVacant(m, a, |s| - 1);
    } else {
      var k :| 0 <= k < |ns| && b == Along(a, k) && t.at[b] == ns[k];
      NewCell(m, a, s, k);
      if k < |s| - 1 { AlongApart(a, k, |s| - 1); }
    }
  }

  lemma OldCell<V>(m: Trie<V>, a: Addr, s: string, b: Addr)
    requires Closed(m) && a !in m && b in m
    ensures b in Grown(m, a, s) && Grown(m, a, s)[b] == m[b]
  {
    if IsAlong(a, |s|, b) {
      var k :| 0 <= k < |s| && b == Along(a, k);
      AlongVacant(m, a, k);
    }
    GrownKeys(m, a, s, b);
    GrownCell(m, a, s, b);
  }

  lemma {:induction false} NewCell<V>(m: Trie<V>, a: Addr, s: string, k: nat)
    requires k < |s|
    ensures Along(a, k) in Grown(m, a, s) && Grown(m, a, s)[Along(a, k)] == Cell(s[k], None)
  {
    var last := |s| - 1;
    if k < last {
      AlongApart(a, k, last);
      NewCell(m, a, s[..last], k);
    }
  }

  /** A node after the write to the owner's slot. */
  twostate predicate SlotWritten<V>(n: Node<V>, new owner: Node?<V>, new dir: Dir, new begin: Node<V>)
    reads n
  {
    && n.left == (if n == owner && dir == L then begin else old(n.left))
    && n.mid == (if n == owner && dir == M then begin else old(n.mid))
    && n.right == (if n == owner && dir == R then begin else old(n.right))
    && n.parent == old(n.parent) && n.c == old(n.c) && n.data == old(n.data)
  }

  /** `*last_node = begin`: the last pointer of the search now points to the chain. */
  method Hang<V>(t: Table<V>, owner: Node?<V>, dir: Dir, begin: Node<V>)
    requires owner != null ==> owner in t.at.Values
    modifies t`root, t.at.Values`left, t.at.Values`mid, t.at.Values`right
    ensures t.root == if owner == null then begin else old(t.root)
    ensures forall n: Node<V> :: old(allocated(n)) ==> SlotWritten(n, owner, dir, begin)
  {
    if owner == null {
      t.root := begin;
    } else {
      match dir
      case L => owner.left := begin;
      case M => owner.mid := begin;
      case R => owner.right := begin;
    }
  }

  /** A chain of new nodes that hangs from `owner`, which does not know it yet. */
  ghost predicate Loose<V>(ns: seq<Node<V>>, owner: Node?<V>)
    reads ns
  {
    && ns != [] && (forall k :: 0 <= k < |ns| ==> InChain(ns, k, owner))
    && Distinct(ns)
  }

  /** The chain with its parent and its entry. */
  method NewChain<V>(s: string, owner: Node?<V>, p: Pair<V>) returns (begin: Node<V>, ghost ns: seq<Node<V>>)
    requires s != []
    ensures |ns| == |s| && begin == ns[0] && Loose(ns, owner)
    ensures forall k :: 0 <= k < |ns| ==> fresh(ns[k])
    ensures forall k :: 0 <= k < |ns| ==> ns[k].c == s[k] && ns[k].data == if k == |ns| - 1 then Some(p) else None
  {
    var end;
    begin, end, ns := MakeMidSubtree(s);
    label Built:
    begin.parent := owner;
    end.data := Some(p);
    forall k | 0 <= k < |ns|
      ensures InChain(ns, k, owner) && ns[k].c == s[k] && ns[k].data == if k == |ns| - 1 then Some(p) else None
    {
      assert old@Built(ChainAt(ns[k], ns, k, s)) && Apart(ns, k, 0) && Apart(ns, k, |ns| - 1);
    }
  }

  /** The slot of the search, told by its owner and direction, is address a. */
  lemma OwnerSlot<V>(at: map<Addr, Node<V>>, a: Addr, b: Addr, owner: Node?<V>, dir: Dir, d: Dir)
    requires Injective(at) && b in at && owner == ParentOf(at, a) && (a != [] ==> dir == Last(a) && Up(a) in at)
    ensures at[b] == owner && dir == d <==> b + [d] == a
  {
    if b + [d] == a { assert Up(a) == b && Last(a) == d; }
    if at[b] == owner && dir == d {
      assert b == Up(a);
      assert a == Up(a) + [Last(a)];
    }
  }

  twostate lemma HangsAt<V>(t: Table<V>, new a: Addr, new ns: seq<Node<V>>, new owner: Node?<V>, new dir: Dir,
                            new b: Addr)
    requires old(t.Shape()) && ns != [] && b in old(t.at) && a !in old(t.at)
    requires owner == ParentOf(old(t.at), a) && (a != [] ==> dir == Last(a) && Up(a) in old(t.at))
    requires SlotWritten(old(t.at)[b], owner, dir, ns[0]) && t.at == Extended(old(t.at), a, ns)
    ensures HungAt(old(t.at)[b], b, a, ns) && old(t.at)[b] in t.at.Values
  {
    OwnerSlot(old(t.at), a, b, owner, dir, L);
    OwnerSlot(old(t.at), a, b, owner, dir, M);
    OwnerSlot(old(t.at), a, b, owner, dir, R);
    OldStays(old(t.at), a, ns, b);
  }

  method HangChain<V>(t: Table<V>, owner: Node?<V>, dir: Dir, begin: Node<V>, ghost a: Addr, ghost ns: seq<Node<V>>)
    requires t.Shape() && a !in t.at && Loose(ns, owner) && begin == ns[0]
    requires owner == ParentOf(t.at, a) && (a != [] ==> dir == Last(a) && Up(a) in t.at)
    requires forall k :: 0 <= k < |ns| ==> ns[k] !in t.at.Values
    modifies t`root, t`at, t.at.Values`left, t.at.Values`mid, t.at.Values`right
    ensures Hung(t, a, ns) && t.at == Extended(old(t.at), a, ns)
  {
    Hang(t, owner, dir, begin);
    t.at := Extended(t.at, a, ns);
    forall k | 0 <= k < |ns| ensures InChain(ns, k, owner) { assert old(InChain(ns, k, owner)); }
    forall b | b in old(t.at) ensures HungAt(old(t.at)[b], b, a, ns) && old(t.at)[b] in t.at.Values {
      assert SlotWritten(old(t.at)[b], owner, dir, begin);
      HangsAt(t, a, ns, owner, dir, b);
    }
  }

  /** The cells that the chain's nodes hold. */
  ghost predicate Holds<V>(ns: seq<Node<V>>, s: string, p: Pair<V>)
    reads ns
  {
    && |ns| == |s|
    && forall k :: 0 <= k < |ns| ==> ns[k].c == s[k] && ns[k].data == if k == |ns| - 1 then Some(p) else None
  }

  /** Hanging a chain adds its word and leaves the links right. */
  method Graft<V>(t: Table<V>, owner: Node?<V>, dir: Dir, begin: Node<V>, ghost a: Addr, ghost ns: seq<Node<V>>,
                  ghost s: string, ghost p: Pair<V>)
    requires t.Shape() && a !in t.at && Loose(ns, owner) && begin == ns[0] && Holds(ns, s, p)
    requires owner == ParentOf(t.at, a) && (a != [] ==> dir == Last(a) && Up(a) in t.at)
    requires forall k :: 0 <= k < |ns| ==> ns[k] !in t.at.Values
    modifies t`root, t`at, t.at.Values`left, t.at.Values`mid, t.at.Values`right
    ensures t.Shape() && t.at == Extended(old(t.at), a, ns)
    ensures s != [] && Cells(t.at) == WithWord(old(Cells(t.at)), a, s, p)
  {
    HangChain(t, owner, dir, begin, a, ns);
    HungShape(t, a, ns);
    HungCells(t, a, ns, s, p);
  }

  lemma {:induction false} ExtendedValues<V>(at: map<Addr, Node<V>>, a: Addr, ns: seq<Node<V>>)
    ensures forall n :: n in Extended(at, a, ns).Values ==> n in at.Values || n in ns
  {
    if ns != [] { ExtendedValues(at, a, ns[..|ns| - 1]); }
  }

  /** The key is new: a chain for what the search did not match. */
  method AddNew<V>(t: Table<V>, owner: Node?<V>, dir: Dir, ghost a: Addr, key: string, matched: nat, val: V)
    requires t.Shape() && matched < |key| && a !in t.at
    requires owner == ParentOf(t.at, a) && (a != [] ==> dir == Last(a) && Up(a) in t.at)
    modifies t`root, t`at, t`size, t.at.Values`left, t.at.Values`mid, t.at.Values`right
    ensures t.Shape() && fresh(t.at.Values - old(t.at.Values)) && t.size == old(t.size) + 1
    ensures Cells(t.at) == WithWord(old(Cells(t.at)), a, key[matched..], Pair(key, val))
  {
    var s := key[matched..];
    t.size := t.size + 1;
    var begin;
    ghost var ns;
    begin, ns := NewChain(s, owner, Pair(key, val));
    CellsFrame(t.at);
    Graft(t, owner, dir, begin, a, ns, s, Pair(key, val));
    ExtendedValues(old(t.at), a, ns);
  }

  /** The key's cell is there: its entry is made or overwritten. */
  method Overwrite<V>(t: Table<V>, node: Node<V>, ghost a: Addr, key: string, val: V)
    requires t.Shape() && a in t.at && node == t.at[a]
    modifies t`size, node`data
    ensures t.Shape() && t.size == old(t.size) + (if old(node.data).None? then 1 else 0)
    ensures Cells(t.at) == old(Cells(t.at))[a := Cell(node.c, Some(Pair(key, val)))]
  {
    if node.data.None? { t.size := t.size + 1; }
    node.data := Some(Pair(key, val));
    CellsData(t.at, a);
  }

  lemma OverwriteKeeps<V>(cmp: Comparator, m: Trie<V>, key: string, a: Addr, v: V, other: string)
    requires Distinguishes(cmp) && Keyed(cmp, m) && NoDead(m) && Spells(cmp, m, a, key)
    ensures var n := m[a := Cell(m[a].c, Some(Pair(key, v)))];
      && Keyed(cmp, n) && NoDead(n) && |Words(n)| == |Words(m)| + (if m[a].data.None? then 1 else 0)
      && Lookup(cmp, n, other) == if other == key then Some(v) else Lookup(cmp, m, other)
  {
    var n := m[a := Cell(m[a].c, Some(Pair(key, v)))];
    DataKeyed(cmp, m, key, a, Some(Pair(key, v)));
    DataLooksUp(cmp, m, key, a, Some(Pair(key, v)), other);
    forall b | b in n ensures !Dead(n, b) { assert !Dead(m, b); }
    WordsWith(m, a, Some(Pair(key, v)));
  }

  lemma WordsWith<V>(m: Trie<V>, a: Addr, data: Option<Pair<V>>)
    requires a in m && data.Some?
    ensures |Words(m[a := Cell(m[a].c, data)])| == |Words(m)| + if m[a].data.None? then 1 else 0
  {
    var n := m[a := Cell(m[a].c, data)];
    if m[a].data.Some? {
      assert Words(n) == Words(m);
    } else {
      assert a !in Words(m) && Words(n) == Words(m) + {a};
    }
  }

  /** What the table associates with each key. */
  ghost predicate Maps<V>(t: Table<V>, key: string, v: Option<V>)
    reads t, t.at.Values
  {
    Lookup(t.cmp, Cells(t.at), key) == v
  }

  method AddKnown<V>(t: Table<V>, node: Node<V>, ghost a: Addr, key: string, val: V)
    requires t.Valid() && Spells(t.cmp, Cells(t.at), a, key) && node == t.at[a]
    modifies t`size, node`data
    ensures t.Valid()
    ensures forall other :: Maps(t, other, if other == key then Some(val) else old(Lookup(t.cmp, Cells(t.at), other)))
    ensures t.size == old(t.size) + (if old(Lookup(t.cmp, Cells(t.at), key)) == None then 1 else 0)
  {
    ghost var m := Cells(t.at);
    LookupIs(t.cmp, m, key, a);
    OverwriteKeeps(t.cmp, m, key, a, val, key);
    Overwrite(t, node, a, key, val);
    forall other ensures Maps(t, other, if other == key then Some(val) else Lookup(t.cmp, m, other)) {
      OverwriteKeeps(t.cmp, m, key, a, val, other);
    }
  }

  method AddMissing<V>(t: Table<V>, owner: Node?<V>, dir: Dir, ghost a: Addr, key: string, matched: nat, val: V)
    requires t.Valid() && key != [] && On(t.cmp, Cells(t.at), key, a) && a !in t.at && matched == Used(a)
    requires owner == ParentOf(t.at, a) && (a != [] ==> dir == Last(a))
    modifies t, t.at.Values
    ensures t.Valid() && fresh(t.at.Values - old(t.at.Values)) && t.size == old(t.size) + 1
    ensures old(Lookup(t.cmp, Cells(t.at), key)) == None
    ensures forall other :: Maps(t, other, if other == key then Some(val) else old(Lookup(t.cmp, Cells(t.at), other)))
  {
    ghost var m := Cells(t.at);
    LookupAbsent(t.cmp, m, key, a);
    WithWordKeeps(t.cmp, m, key, a, val, key);
    AddNew(t, owner, dir, a, key, matched, val);
    forall other ensures Maps(t, other, if other == key then Some(val) else Lookup(t.cmp, m, other)) {
      WithWordKeeps(t.cmp, m, key, a, val, other);
    }
  }

  /** cc_tsttable_add */
  method Add<V>(t: Table<V>, key: string, val: V)
    requires t.Valid() && key != []
    modifies t, t.at.Values
    ensures t.Valid() && fresh(t.at.Values - old(t.at.Values))
    ensures forall other :: Maps(t, other, if other == key then Some(val) else old(Lookup(t.cmp, Cells(t.at), other)))
    ensures t.size == old(t.size) + (if old(Lookup(t.cmp, Cells(t.at), key)) == None then 1 else 0)
  {
    var node, owner, dir, matched;
    ghost var a;
    node, owner, dir, matched, a := t.GetLastNode(key);
    CellsFrame(t.at);
    if node != null {
      AddKnown(t, node, a, key, val);
    } else {
      AddMissing(t, owner, dir, a, key, matched, val);
    }
  }
}
