/** The public operations of the tree table, against the ordered map they implement. */
module TreeTable {
  import opened Options
  import opened Powers
  import opened Ordering
  import opened OrderedMap
  import opened TreeShape
  import opened TreeColor
  import opened TreeRemoveNode

  ghost function EntriesOf(o: seq<RBNode>): (es: seq<Entry>)
    reads o`key, o`value
    ensures |es| == |o|
    ensures forall i {:trigger es[i]} {:trigger o[i]} :: 0 <= i < |es| ==> es[i] == Entry(o[i].key, o[i].value)
  {
    if o == [] then [] else [Entry(o[0].key, o[0].value)] + EntriesOf(o[1..])
  }

  /** The table's abstract value: its entries from the first key to the last. */
  ghost function Entries(t: Table): (es: seq<Entry>)
    reads t`order, t.order`key, t.order`value
    ensures |es| == |t.order|
    ensures forall i {:trigger es[i]} {:trigger t.order[i]} :: 0 <= i < |es| ==>
      es[i] == Entry(t.order[i].key, t.order[i].value)
  {
    EntriesOf(t.order)
  }

  ghost predicate Valid(t: Table)
    reads t, t.nodes, t.order, t.sentinel
  {
    && Shape(t) && RedBlack(t) && t.sentinel.color == Black && t.size == |t.order|
    && TotalPreorder(t.cmp) && Ascending(t.cmp, Entries(t))
  }

  /** key belongs at or after position a and before or at position b. */
  ghost predicate Between(t: Table, key: Ptr, a: int, b: int)
    requires 0 <= a <= b <= |t.order|
    reads t, t.order
  {
    && (forall i {:trigger t.order[i]} :: 0 <= i < a ==> t.cmp(t.order[i].key, key) < 0)
    && (forall i {:trigger t.order[i]} :: b <= i < |t.order| ==> t.cmp(key, t.order[i].key) < 0)
  }

  lemma GoLeft(t: Table, key: Ptr, n: RBNode)
    requires Valid(t) && n in t.nodes && 0 <= n.lo <= n.hi <= |t.order| && Between(t, key, n.lo, n.hi)
    requires t.cmp(key, n.key) < 0
    ensures 0 <= n.lo <= n.pos <= |t.order| && Between(t, key, n.lo, n.pos)
  {
    assert LinkOk(t, n);
    assert t.order[n.pos] == n;
    forall i | n.pos <= i < |t.order| ensures t.cmp(key, t.order[i].key) < 0 {
      if i > n.pos {
        assert Before(t.cmp, Entries(t), n.pos, i);
        Order(t.cmp, key, n.key, t.order[i].key);
      }
    }
  }

  lemma GoRight(t: Table, key: Ptr, n: RBNode)
    requires Valid(t) && n in t.nodes && 0 <= n.lo <= n.hi <= |t.order| && Between(t, key, n.lo, n.hi)
    requires t.cmp(key, n.key) > 0
    ensures 0 <= n.pos + 1 <= n.hi <= |t.order| && Between(t, key, n.pos + 1, n.hi)
  {
    assert LinkOk(t, n);
    assert t.order[n.pos] == n;
    Flip(t.cmp, key, n.key);
    forall i | 0 <= i < n.pos + 1 ensures t.cmp(t.order[i].key, key) < 0 {
      if i < n.pos {
        assert Before(t.cmp, Entries(t), i, n.pos);
        Order(t.cmp, t.order[i].key, n.key, key);
      }
    }
  }

  lemma NotThere(t: Table, key: Ptr, d: int)
    requires Valid(t) && 0 <= d <= |t.order| && Between(t, key, d, d)
    ensures Find(t.cmp, Entries(t), key) == None
    ensures Del(t.cmp, Entries(t), key) == Entries(t)
  {
    forall i | 0 <= i < |t.order| ensures t.cmp(key, Entries(t)[i].key) != 0 {
      Flip(t.cmp, key, t.order[i].key);
    }
    FindNone(t.cmp, Entries(t), key);
    DelNone(t.cmp, Entries(t), key);
  }

  /** A subtree with b blacks on its paths holds at least 2^b - 1 nodes. */
  lemma {:induction false} Bushy(t: Table, n: RBNode)
    requires Shape(t) && Blackened(t, null, null) && n in t.nodes
    ensures Blacks(t, n) >= 0 && Pow2(Blacks(t, n)) <= n.hi - n.lo + 1
    decreases n.hi - n.lo
  {
    assert LinkOk(t, n) && BlackOk(t, n, null, null);
    if n.left in t.nodes { Bushy(t, n.left); }
    if n.right in t.nodes { Bushy(t, n.right); }
    assert Pow2(n.bh) <= n.pos - n.lo + 1 && Pow2(n.bh) <= n.hi - n.pos;
  }

  lemma StepBound(t: Table, steps: nat)
    requires Valid(t) && t.root in t.nodes && steps <= 2 * Blacks(t, t.root)
    ensures steps <= 2 * Log2(t.size + 1)
  {
    Bushy(t, t.root);
    assert LinkOk(t, t.root);
    if Blacks(t, t.root) > Log2(t.size + 1) {
      Pow2Monotone(Log2(t.size + 1) + 1, Blacks(t, t.root));
    }
  }

  /** Longest search still possible below n. */
  ghost function Reach(t: Table, n: RBNode): int
    reads t, t.nodes
  {
    2 * Blacks(t, n) + if n in t.nodes && n.color == Red then 1 else 0
  }

  lemma ReachShrinks(t: Table, n: RBNode, c: RBNode)
    requires Shape(t) && RedBlack(t) && n in t.nodes && (c == n.left || c == n.right)
    ensures Reach(t, c) < Reach(t, n) && 0 <= Reach(t, c)
  {
    assert LinkOk(t, n) && BlackOk(t, n, null, null) && RedOk(t, n, null, null);
    if c in t.nodes { assert BlackOk(t, c, null, null); }
  }

  /** A search for key has come down to n, whose interval is [a, b), after `steps` comparisons. */
  ghost predicate Searching(t: Table, key: Ptr, n: RBNode, a: int, b: int, steps: nat)
    reads t, t.nodes, t.order, t.sentinel
  {
    && Valid(t) && t.order != [] && 0 <= a <= b <= |t.order| && Between(t, key, a, b)
    && (if n == t.sentinel then a == b else n in t.nodes && n.lo == a && n.hi == b)
    && 0 <= Reach(t, n) && steps + Reach(t, n) <= 2 * Blacks(t, t.root)
  }

  lemma SearchStart(t: Table, key: Ptr)
    requires Valid(t) && t.order != []
    ensures Searching(t, key, t.root, 0, |t.order|, 0)
  {
    assert LinkOk(t, t.root) && BlackOk(t, t.root, null, null);
  }

  lemma SearchLeft(t: Table, key: Ptr, n: RBNode, a: int, b: int, steps: nat)
    requires Searching(t, key, n, a, b, steps) && n != t.sentinel && t.cmp(key, n.key) < 0
    ensures n.left != null && Searching(t, key, n.left, a, n.pos, steps + 1) && n.pos < b
  {
    assert LinkOk(t, n);
    GoLeft(t, key, n);
    ReachShrinks(t, n, n.left);
  }

  lemma SearchRight(t: Table, key: Ptr, n: RBNode, a: int, b: int, steps: nat)
    requires Searching(t, key, n, a, b, steps) && n != t.sentinel && t.cmp(key, n.key) > 0
    ensures n.right != null && Searching(t, key, n.right, n.pos + 1, b, steps + 1) && a <= n.pos
  {
    assert LinkOk(t, n);
    GoRight(t, key, n);
    ReachShrinks(t, n, n.right);
  }

  lemma SearchHit(t: Table, key: Ptr, n: RBNode, a: int, b: int, steps: nat)
    requires Searching(t, key, n, a, b, steps) && n != t.sentinel && t.cmp(key, n.key) == 0
    ensures 0 <= n.pos < |t.order| && Entries(t)[n.pos] == Entry(n.key, n.value)
    ensures Find(t.cmp, Entries(t), key) == Some(n.value)
    ensures steps + 1 <= 2 * Log2(t.size + 1)
  {
    assert LinkOk(t, n);
    FindAt(t.cmp, Entries(t), key, n.pos);
    ReachShrinks(t, n, n.left);
    StepBound(t, steps + 1);
  }

  lemma SearchMiss(t: Table, key: Ptr, n: RBNode, a: int, b: int, steps: nat)
    requires Searching(t, key, n, a, b, steps) && n == t.sentinel
    ensures Find(t.cmp, Entries(t), key) == None && Del(t.cmp, Entries(t), key) == Entries(t)
    ensures steps <= 2 * Log2(t.size + 1)
  {
    NotThere(t, key, a);
    StepBound(t, steps);
  }

  /** steps counts the comparisons: at most 2 log2(size + 1) of them. */
  method GetTreeNodeByKey(t: Table, key: Ptr) returns (node: RBNode?, ghost steps: nat)
    requires Valid(t)
    ensures node != null ==>
      node in t.nodes && t.cmp(key, node.key) == 0 && Find(t.cmp, Entries(t), key) == Some(node.value)
    ensures node == null ==> Find(t.cmp, Entries(t), key) == None && Del(t.cmp, Entries(t), key) == Entries(t)
    ensures steps <= 2 * Log2(t.size + 1)
  {
    steps := 0;
    if t.size == 0 {
      NotThere(t, key, 0);
      return null, 0;
    }
    var n: RBNode := t.root;
    ghost var a, b := 0, |t.order|;
    SearchStart(t, key);
    while n != t.sentinel
      invariant Searching(t, key, n, a, b, steps)
      decreases b - a
    {
      var cmp := t.cmp(key, n.key);
      if cmp < 0 {
        SearchLeft(t, key, n, a, b, steps);
        b := n.pos;
        n := n.left;
      } else if cmp > 0 {
        SearchRight(t, key, n, a, b, steps);
        a := n.pos + 1;
        n := n.right;
      } else {
        SearchHit(t, key, n, a, b, steps);
        return n, steps + 1;
      }
      steps := steps + 1;
    }
    SearchMiss(t, key, n, a, b, steps);
    return null, steps;
  }

  method Get(t: Table, key: Ptr) returns (out: Option<Ptr>)
    requires Valid(t)
    ensures out == Find(t.cmp, Entries(t), key)
  {
    var node, steps := GetTreeNodeByKey(t, key);
    out := if node == null then None else Some(node.value);
  }

  /** Entries of the remaining nodes, which kept their keys and values. */
  twostate lemma EntriesDrop(t: Table, new p: int)
    requires 0 <= p < old(|t.order|) && t.order == old(t.order)[..p] + old(t.order)[p + 1..]
    requires forall i {:trigger old(t.order)[i]} :: 0 <= i < old(|t.order|) ==>
      old(t.order)[i].key == old(t.order[i].key) && old(t.order)[i].value == old(t.order[i].value)
    ensures Entries(t) == old(Entries(t))[..p] + old(Entries(t))[p + 1..]
  {
    var es := old(Entries(t));
    var es' := es[..p] + es[p + 1..];
    forall i | 0 <= i < |t.order| ensures Entries(t)[i] == es'[i] {
      assert t.order[i] == old(t.order)[if i < p then i else i + 1];
      assert es'[i] == es[if i < p then i else i + 1];
    }
  }

  method RemoveEntry(t: Table, node: RBNode)
    requires Valid(t) && node in t.nodes
    modifies t`root, t`nodes, t`order, t`size, t.sentinel`parent, t.sentinel`color
    modifies t.nodes`left, t.nodes`right, t.nodes`parent, t.nodes`pos, t.nodes`lo, t.nodes`hi, t.nodes`color, t.nodes`bh
    ensures Valid(t) && t.nodes == old(t.nodes) - {node} && 0 <= old(node.pos) < old(|t.order|)
    ensures t.order == old(t.order)[..old(node.pos)] + old(t.order)[old(node.pos) + 1..]
    ensures Entries(t) == old(Entries(t))[..old(node.pos)] + old(Entries(t))[old(node.pos) + 1..]
  {
    KidFacts(t, node);
    AscendingDrop(t.cmp, Entries(t), node.pos);
    RemoveNode(t, node);
    EntriesDrop(t, old(node.pos));
  }

  method Remove(t: Table, key: Ptr) returns (out: Option<Ptr>)
    requires Valid(t)
    modifies t`root, t`nodes, t`order, t`size, t.sentinel`parent, t.sentinel`color
    modifies t.nodes`left, t.nodes`right, t.nodes`parent, t.nodes`pos, t.nodes`lo, t.nodes`hi, t.nodes`color, t.nodes`bh
    ensures Valid(t) && t.nodes <= old(t.nodes)
    ensures Entries(t) == Del(t.cmp, old(Entries(t)), key)
    ensures out == Find(t.cmp, old(Entries(t)), key)
  {
    var node, steps := GetTreeNodeByKey(t, key);
    if node == null {
      return None;
    }
    out := Some(node.value);
    KidFacts(t, node);
    NodeEntry(t, node);
    DelAt(t.cmp, Entries(t), key, node.pos);
    RemoveEntry(t, node);
  }

  lemma NodeEntry(t: Table, node: RBNode)
    requires Shape(t) && node in t.nodes
    ensures 0 <= node.pos < |t.order| && Entries(t)[node.pos] == Entry(node.key, node.value)
    ensures t.order[node.pos] == node
  {
    assert LinkOk(t, node);
  }
}
