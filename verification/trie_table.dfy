/** The ternary search tree table (components/Collections-C/src/cc_tsttable.c), in place. */
module TrieTable {

  import opened Options
  import opened TriePaths

  datatype Stat = CC_OK | CC_ERR_KEY_NOT_FOUND

  class Node<V> {
    var c: char
    var data: Option<Pair<V>>     // the entry; its presence marks the end of a word
    var parent: Node?<V>
    var left: Node?<V>
    var mid: Node?<V>
    var right: Node?<V>

    constructor (c: char)
      ensures this.c == c && data == None && parent == null && left == null && mid == null && right == null
    {
      this.c, data, parent, left, mid, right := c, None, null, null, null, null;
    }
  }

  ghost function Get<V>(at: map<Addr, Node<V>>, a: Addr): Node?<V> {
    if a in at then at[a] else null
  }

  ghost function ParentOf<V>(at: map<Addr, Node<V>>, a: Addr): Node?<V> {
    if a == [] then null else Get(at, Up(a))
  }

  /** The node at a is linked to the nodes around it. */
  ghost predicate Linked<V>(n: Node<V>, at: map<Addr, Node<V>>, a: Addr)
    reads n`left, n`mid, n`right, n`parent
  {
    && n.left == Get(at, a + [L]) && n.mid == Get(at, a + [M]) && n.right == Get(at, a + [R])
    && n.parent == ParentOf(at, a)
  }

  /** The cells that the nodes hold. */
  ghost function Cells<V>(at: map<Addr, Node<V>>): Trie<V>
    reads at.Values`c, at.Values`data
  {
    map a | a in at :: Cell(at[a].c, at[a].data)
  }

  ghost predicate Injective<V>(at: map<Addr, Node<V>>) {
    forall a, b :: a in at && b in at && a != b ==> at[a] != at[b]
  }

  twostate lemma CellsFrame<V>(at: map<Addr, Node<V>>)
    requires forall n :: n in at.Values ==> n.c == old(n.c) && n.data == old(n.data)
    ensures Cells(at) == old(Cells(at))
  {
  }

  twostate lemma CellsData<V>(at: map<Addr, Node<V>>, new a: Addr)
    requires a in at && Injective(at) && at[a].c == old(at[a].c)
    requires forall n :: n in at.Values && n != at[a] ==> n.c == old(n.c) && n.data == old(n.data)
    ensures Cells(at) == old(Cells(at))[a := Cell(at[a].c, at[a].data)]
  {
  }

  class Table<V> {
    const cmp: Comparator
    var root: Node?<V>
    var size: nat
    ghost var at: map<Addr, Node<V>>

    /** Links only. */
    ghost predicate Shape()
      reads this, at.Values`left, at.Values`mid, at.Values`right, at.Values`parent
    {
      && root == Get(at, [])
      && Injective(at)
      && (forall a :: a in at ==> Linked(at[a], at, a))
      && (forall a :: a in at && a != [] ==> Up(a) in at)
    }

    ghost predicate Valid()
      reads this, at.Values
    {
      && Distinguishes(cmp)
      && Shape()
      && Keyed(cmp, Cells(at))
      && NoDead(Cells(at))
      && size == |Words(Cells(at))|
    }

    constructor (cmp: Comparator)
      requires Distinguishes(cmp)
      ensures Valid() && at == map[] && this.cmp == cmp
    {
      this.cmp, root, size, at := cmp, null, 0, map[];
      new;
      assert Words(Cells(at)) == {};
    }

    /** get_last_node: the slot where the search ends, as its owner and direction, and what is in it. */
    method GetLastNode(key: string) returns (node: Node?<V>, owner: Node?<V>, dir: Dir, matched: nat, ghost a: Addr)
      requires Valid() && key != []
      ensures On(cmp, Cells(at), key, a) && node == Get(at, a) && owner == ParentOf(at, a)
      ensures a != [] ==> dir == Last(a)
      ensures node == null ==> matched == Used(a)
      ensures node != null ==> matched == |key| && Spells(cmp, Cells(at), a, key)
    {
      ghost var m := Cells(at);
      assert Closed(m);
      node, owner, dir, matched, a := root, null, L, 0, [];
      while node != null
        invariant On(cmp, m, key, a) && node == Get(at, a) && owner == ParentOf(at, a)
        invariant (a != [] ==> dir == Last(a)) && matched == Used(a)
        decreases |m| - |a|
      {
        DepthBound(m, a);
        assert m[a].c == node.c;
        var d := cmp(key[matched], node.c);
        if d == 0 && matched + 1 == |key| { return node, owner, dir, |key|, a; }
        dir := if d < 0 then L else if d > 0 then R else M;
        OnNext(cmp, m, key, a, dir);
        assert Linked(node, at, a);
        owner, a := node, a + [dir];
        node := if d < 0 then node.left else if d > 0 then node.right else node.mid;
        if d == 0 { matched := matched + 1; }
      }
    }
  }
}
