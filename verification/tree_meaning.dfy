/** What the node-by-node conditions on a tree table add up to: in-order traversal, search order, equal black counts. */
module TreeMeaning {
  import opened Ordering
  import opened OrderedMap
  import opened TreeShape
  import opened TreeColor
  import opened TreeTable

  /** The nodes below n, left to right, by following child pointers. */
  ghost function InOrder(t: Table, n: RBNode): seq<RBNode>
    requires Shape(t) && (n in t.nodes || n == t.sentinel)
    reads t`nodes, t`root, t`order, t.nodes`left, t.nodes`right, t.nodes`parent, t.nodes`pos, t.nodes`lo, t.nodes`hi
    decreases if n in t.nodes then n.hi - n.lo else 0
  {
    if n !in t.nodes then []
    else
      assert LinkOk(t, n);
      InOrder(t, n.left) + [n] + InOrder(t, n.right)
  }

  lemma RangeSplit<T>(s: seq<T>, lo: nat, p: nat, hi: nat)
    requires lo <= p < hi <= |s|
    ensures s[lo..hi] == s[lo..p] + [s[p]] + s[p + 1..hi]
  {
  }

  lemma {:induction false} InOrderIsRange(t: Table, n: RBNode)
    requires Shape(t) && n in t.nodes
    ensures 0 <= n.lo <= n.hi <= |t.order| && InOrder(t, n) == t.order[n.lo..n.hi]
    decreases n.hi - n.lo
  {
    assert LinkOk(t, n);
    if n.left in t.nodes { InOrderIsRange(t, n.left); }
    if n.right in t.nodes { InOrderIsRange(t, n.right); }
    RangeSplit(t.order, n.lo, n.pos, n.hi);
  }

  /** The entries are those of the nodes in order, from the root down, and there are no others. */
  lemma EntriesAreInOrder(t: Table)
    requires Valid(t)
    ensures (t.root in t.nodes || t.root == t.sentinel) && InOrder(t, t.root) == t.order && |t.order| == t.size
    ensures forall n :: n in t.nodes <==> n in InOrder(t, t.root)
    ensures forall i, j :: 0 <= i < j < |t.order| ==> t.cmp(t.order[i].key, t.order[j].key) < 0
  {
    if t.root in t.nodes {
      InOrderIsRange(t, t.root);
      assert LinkOk(t, t.root);
    }
    forall n | n in t.nodes ensures n in t.order { assert LinkOk(t, n) && t.order[n.pos] == n; }
    forall i, j | 0 <= i < j < |t.order| ensures t.cmp(t.order[i].key, t.order[j].key) < 0 {
      assert Before(t.cmp, Entries(t), i, j);
    }
  }

  /** The nodes on the way down from n. */
  ghost predicate Path(t: Table, n: RBNode, path: seq<RBNode>)
    reads t`nodes, t.nodes`left, t.nodes`right, path`left, path`right
  {
    if path == [] then n == t.sentinel
    else
      && n == path[0] && n in t.nodes
      && ((n.left != null && Path(t, n.left, path[1..])) || (n.right != null && Path(t, n.right, path[1..])))
  }

  ghost function BlackCount(path: seq<RBNode>): nat
    reads path`color
  {
    if path == [] then 0 else (if path[0].color == Black then 1 else 0) + BlackCount(path[1..])
  }

  lemma {:induction false} PathBlacks(t: Table, n: RBNode, path: seq<RBNode>)
    requires Shape(t) && RedBlack(t) && Path(t, n, path)
    ensures BlackCount(path) == Blacks(t, n)
  {
    if path != [] {
      assert LinkOk(t, n) && BlackOk(t, n, null, null);
      var next := if n.left != null && Path(t, n.left, path[1..]) then n.left else n.right;
      PathBlacks(t, next, path[1..]);
    }
  }

  /** Every path from the root to the sentinel has the same number of black nodes. */
  lemma EqualBlackCounts(t: Table, a: seq<RBNode>, b: seq<RBNode>)
    requires Shape(t) && RedBlack(t) && Path(t, t.root, a) && Path(t, t.root, b)
    ensures BlackCount(a) == BlackCount(b)
  {
    PathBlacks(t, t.root, a);
    PathBlacks(t, t.root, b);
  }

  /** The root is black, no red node has a red child, and children know their parent. */
  lemma ColoursAndLinks(t: Table, n: RBNode)
    requires Shape(t) && RedBlack(t) && n in t.nodes
    ensures t.root in t.nodes && t.root.color == Black && t.root.parent == t.sentinel
    ensures n.left != null && n.right != null
    ensures n.left in t.nodes || n.left == t.sentinel
    ensures n.right in t.nodes || n.right == t.sentinel
    ensures n.left in t.nodes ==> n.left.parent == n && (n.color == Red ==> n.left.color == Black)
    ensures n.right in t.nodes ==> n.right.parent == n && (n.color == Red ==> n.right.color == Black)
    ensures n != t.root ==> n.parent != null && n.parent in t.nodes && (n.parent.left == n || n.parent.right == n)
  {
    assert LinkOk(t, n) && RedOk(t, n, null, null);
    assert t.order != [];
    assert LinkOk(t, t.root);
  }
}
