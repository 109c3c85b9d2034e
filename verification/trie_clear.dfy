/** cc_tsttable_remove_all: every node is freed from the leaves up. */
module TrieClear {

  import opened TriePaths
  import opened TrieTable
  import opened TrieRemove

  /** The size counts the entries that are left. */
  ghost predicate Counted<V>(t: Table<V>)
    reads t, t.at.Values
  {
    t.Shape() && t.size == |Words(Cells(t.at))|
  }

  /** A childless node goes; the walk is back at its parent. */
  method FreeLeaf<V>(t: Table<V>, node: Node<V>, ghost cur: Addr) returns (parent: Node?<V>)
    requires Counted(t) && cur in t.at && node == t.at[cur]
    requires node.left == null && node.mid == null && node.right == null
    modifies t`root, t`at, t`size, t.at.Values`left, t.at.Values`mid, t.at.Values`right
    ensures Counted(t) && t.at == old(t.at) - {cur}
    ensures parent == null ==> t.at == map[]
    ensures parent != null ==> cur != [] && Up(cur) in t.at && parent == t.at[Up(cur)]
  {
    assert Linked(node, t.at, cur);
    parent := node.parent;
    LeafLeaves(t, cur);
    if node.data.Some? { t.size := t.size - 1; }
    CellsFrame(t.at);
    Detach(t, node, cur);
  }

  /** What goes with a childless node: its entry, and at the root the last node. */
  lemma LeafLeaves<V>(t: Table<V>, cur: Addr)
    requires t.Shape() && cur in t.at && Childless(t.at, cur)
    ensures cur == [] ==> t.at - {cur} == map[]
    ensures |Words(Cells(t.at) - {cur})| == |Words(Cells(t.at))| - (if t.at[cur].data.Some? then 1 else 0)
  {
    var m := Cells(t.at);
    assert Words(m - {cur}) == Words(m) - {cur};
    if cur == [] {
      forall b | b in m ensures b == [] { RootChildless(m, b); }
      assert forall b :: b in t.at ==> b in m;
    }
  }

  /** To the left child, or the middle one, or the right one. */
  method Descend<V>(t: Table<V>, node: Node<V>, ghost cur: Addr) returns (child: Node<V>, ghost a: Addr)
    requires t.Shape() && cur in t.at && node == t.at[cur]
    requires node.left != null || node.mid != null || node.right != null
    ensures a in t.at && child == t.at[a] && |a| == |cur| + 1 && |a| < |t.at|
  {
    assert Linked(node, t.at, cur);
    if node.left != null {
      child, a := node.left, cur + [L];
    } else if node.mid != null {
      child, a := node.mid, cur + [M];
    } else {
      child, a := node.right, cur + [R];
    }
    DepthBound(Cells(t.at), a);
    assert Cells(t.at).Keys == t.at.Keys;
  }
  /** Where the walk stands: at a node, or at the end of an empty table. */
  ghost predicate Walking<V>(t: Table<V>, node: Node?<V>, cur: Addr)
    reads t
  {
    if node != null then cur in t.at && node == t.at[cur] && |cur| < |t.at| else t.at == map[]
  }

  /** One turn: free a childless node, or go down. */
  method WalkOn<V>(t: Table<V>, node: Node<V>, ghost cur: Addr) returns (next: Node?<V>, ghost a: Addr)
    requires Counted(t) && Walking(t, node, cur)
    modifies t`root, t`at, t`size, t.at.Values`left, t.at.Values`mid, t.at.Values`right
    ensures Counted(t) && Walking(t, next, a) && t.at.Values <= old(t.at.Values)
    ensures |t.at| < old(|t.at|) || (next != null && |t.at| == old(|t.at|) && |a| == |cur| + 1)
  {
    assert Linked(node, t.at, cur);
    if node.left == null && node.right == null && node.mid == null {
      SmallerMap(t.at, cur);
      next := FreeLeaf(t, node, cur);
      a := if cur == [] then [] else Up(cur);
      if next != null { Depth(t, a); }
    } else {
      next, a := Descend(t, node, cur);
    }
  }

  lemma Depth<V>(t: Table<V>, a: Addr)
    requires t.Shape() && a in t.at
    ensures |a| < |t.at|
  {
    DepthBound(Cells(t.at), a);
    assert Cells(t.at).Keys == t.at.Keys;
  }

  lemma RootlessIsEmpty<V>(t: Table<V>)
    requires t.Shape() && t.root == null
    ensures t.at == map[]
  {
    forall a | a in t.at ensures [] in t.at {
      ClosedPrefix(Cells(t.at), a, 0);
      assert a[..0] == [];
    }
  }

  lemma EmptyIsValid<V>(t: Table<V>)
    requires t.at == map[] && t.root == null && t.size == 0 && Distinguishes(t.cmp)
    ensures t.Valid()
  {
    assert Words(Cells(t.at)) == {};
  }

  /** cc_tsttable_remove_all */
  method RemoveAll<V>(t: Table<V>)
    requires t.Valid()
    modifies t, t.at.Values
    ensures t.Valid() && t.at == map[] && t.root == null && t.size == 0
  {
    var node := t.root;
    ghost var cur: Addr := [];
    if node != null { Depth(t, cur); } else { RootlessIsEmpty(t); }
    while node != null
      invariant Counted(t) && t.at.Values <= old(t.at.Values) && Walking(t, node, cur)
      decreases |t.at|, node != null, |t.at| - |cur|
    {
      node, cur := WalkOn(t, node, cur);
    }
    assert Words(Cells(t.at)) == {};
    t.root := null;
    EmptyIsValid(t);
  }
}
