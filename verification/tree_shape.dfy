/** The tree table's node, table record and link structure.

    Every real node carries three ghost numbers: its position `pos` in the in-order sequence and the
    half-open interval [lo, hi) of positions its subtree covers.  "Search tree with consistent parent and
    child links" is then a condition on one node and its neighbours, and a rotation touches two intervals. */
module TreeShape {
  import opened Ordering

  datatype Color = Red | Black

  datatype Dir = L | R

  ghost function Opp(d: Dir): Dir { if d == L then R else L }

  class RBNode {
    var key: Ptr
    var value: Ptr
    var color: Color
    var parent: RBNode?
    var left: RBNode?
    var right: RBNode?

    ghost var pos: int
    ghost var lo: int
    ghost var hi: int
    ghost var bh: int  // black nodes on every path from here down, this node not counted

    constructor (k: Ptr, v: Ptr, c: Color)
      ensures key == k && value == v && color == c && parent == left == right == null
    {
      key, value, color, parent, left, right := k, v, c, null, null, null;
    }
  }

  class Table {
    var root: RBNode
    const sentinel: RBNode
    var size: nat
    const cmp: Comparator

    ghost var nodes: set<RBNode>
    ghost var order: seq<RBNode>

    constructor (compare: Comparator)
      ensures cmp == compare && size == 0 && order == [] && nodes == {}
      ensures root == sentinel && fresh(sentinel) && sentinel.color == Black
    {
      sentinel := new RBNode(0, 0, Black);
      root := sentinel;
      size := 0;
      cmp := compare;
      nodes := {};
      order := [];
    }
  }

  ghost predicate KidOk(t: Table, n: RBNode, c: RBNode?, lo: int, hi: int)
    reads t`nodes, t.nodes`parent, t.nodes`lo, t.nodes`hi
  {
    if lo == hi then c == t.sentinel
    else c != null && c in t.nodes && c.parent == n && c.lo == lo && c.hi == hi
  }

  ghost predicate UpOk(t: Table, n: RBNode)
    requires n in t.nodes
    reads t`nodes, t`root, t`order, t.nodes`left, t.nodes`right, t.nodes`parent, t.nodes`lo, t.nodes`hi
  {
    if n == t.root then n.parent == t.sentinel && n.lo == 0 && n.hi == |t.order|
    else n.parent != null && n.parent in t.nodes && (n.parent.left == n || n.parent.right == n)
  }

  ghost predicate LinkOk(t: Table, n: RBNode)
    requires n in t.nodes
    reads t`nodes, t`root, t`order, t.nodes`left, t.nodes`right, t.nodes`parent, t.nodes`pos, t.nodes`lo, t.nodes`hi
  {
    && 0 <= n.lo <= n.pos < n.hi <= |t.order|
    && t.order[n.pos] == n
    && KidOk(t, n, n.left, n.lo, n.pos)
    && KidOk(t, n, n.right, n.pos + 1, n.hi)
    && UpOk(t, n)
  }

  ghost predicate Shape(t: Table)
    reads t`nodes, t`root, t`order, t.nodes`left, t.nodes`right, t.nodes`parent, t.nodes`pos, t.nodes`lo, t.nodes`hi
  {
    && t.sentinel !in t.nodes
    && (if t.order == [] then t.root == t.sentinel else t.root in t.nodes)
    && (forall n {:trigger LinkOk(t, n)} :: n in t.nodes ==> LinkOk(t, n))
    && (forall i {:trigger t.order[i]} :: 0 <= i < |t.order| ==> t.order[i] in t.nodes && t.order[i].pos == i)
  }

  /** What Shape says about one node, its parent and its children. */
  lemma KidFacts(t: Table, x: RBNode)
    requires Shape(t) && x in t.nodes
    ensures 0 <= x.pos < |t.order| && (x.parent == t.sentinel <==> x == t.root)
    ensures x != t.root ==>
      x.parent != null && x.parent != x && x.parent in t.nodes && (x.parent.left == x) != (x.parent.right == x)
    ensures x.left != null && x.left != x
    ensures x.left != t.sentinel ==> x.left in t.nodes && x.left.parent == x && x.left != x.parent
    ensures x.right != null && x.right != x
    ensures x.right != t.sentinel ==> x.right in t.nodes && x.right.parent == x && x.right != x.parent
    ensures x.left == x.right ==> x.left == t.sentinel
    ensures forall n {:trigger n.left} {:trigger n.right} :: n in t.nodes && (n.left == x || n.right == x) ==>
      n == x.parent
  {
    assert LinkOk(t, x);
    if x.parent in t.nodes { assert LinkOk(t, x.parent); }
    forall n | n in t.nodes && (n.left == x || n.right == x) ensures n == x.parent
    {
      assert LinkOk(t, n);
    }
  }

  /** The `if u is the root … else if u is a left child …` step shared by the rotations and by transplant:
      whatever pointed at u points at v. */
  method Redirect(t: Table, u: RBNode, v: RBNode)
    requires u in t.nodes && t.sentinel !in t.nodes && (u.parent == t.sentinel <==> u == t.root)
    requires u.parent != t.sentinel ==>
      u.parent != null && u.parent in t.nodes && (u.parent.left == u) != (u.parent.right == u)
    requires forall n :: n in t.nodes && (n.left == u || n.right == u) ==> n == u.parent
    modifies t`root, t.nodes`left, t.nodes`right
    ensures t.root == if old(t.root) == u then v else old(t.root)
    ensures forall n {:trigger n.left} :: n in t.nodes ==> n.left == if old(n.left) == u then v else old(n.left)
    ensures forall n {:trigger n.right} :: n in t.nodes ==> n.right == if old(n.right) == u then v else old(n.right)
  {
    if u.parent == t.sentinel {
      t.root := v;
    } else if u == u.parent.left {
      u.parent.left := v;
    } else {
      u.parent.right := v;
    }
  }
}
