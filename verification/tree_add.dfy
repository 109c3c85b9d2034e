/** cc_treetable_add. */
module TreeAdd {
  import opened Ordering
  import opened OrderedMap
  import opened TreeShape
  import opened TreeColor
  import opened TreeInsert
  import opened TreeAttach
  import opened TreeTable

  /** The descent has left y and stands at x, whose interval is [a, b). */
  ghost predicate Below(t: Table, key: Ptr, y: RBNode, x: RBNode, a: int, b: int)
    reads t, t.nodes, t.sentinel
  {
    if y == t.sentinel then x == t.root && a == 0 && b == |t.order|
    else
      && y in t.nodes && t.cmp(key, y.key) != 0
      && (if t.cmp(key, y.key) < 0 then x == y.left && a == y.lo && b == y.pos
          else x == y.right && a == y.pos + 1 && b == y.hi)
  }

  twostate lemma EntriesInsert(t: Table, new n: RBNode, new d: int)
    requires 0 <= d <= old(|t.order|) && t.order == old(t.order)[..d] + [n] + old(t.order)[d..]
    requires forall i {:trigger old(t.order)[i]} :: 0 <= i < old(|t.order|) ==>
      old(t.order)[i].key == old(t.order[i].key) && old(t.order)[i].value == old(t.order[i].value)
    ensures Entries(t) == old(Entries(t))[..d] + [Entry(n.key, n.value)] + old(Entries(t))[d..]
  {
    var es := old(Entries(t));
    var es' := es[..d] + [Entry(n.key, n.value)] + es[d..];
    forall i | 0 <= i < |t.order| ensures Entries(t)[i] == es'[i] {
      if i != d {
        assert t.order[i] == old(t.order)[if i < d then i else i - 1];
        assert es'[i] == es[if i < d then i else i - 1];
      }
    }
  }

  twostate lemma EntriesReplace(t: Table, new p: int)
    requires 0 <= p < old(|t.order|) && t.order == old(t.order)
    requires forall i {:trigger t.order[i]} :: 0 <= i < |t.order| ==>
      t.order[i].key == old(t.order[i].key) && (i != p ==> t.order[i].value == old(t.order[i].value))
    ensures Entries(t) == old(Entries(t))[p := Entry(t.order[p].key, t.order[p].value)]
  {
  }

  method Replace(t: Table, x: RBNode, key: Ptr, val: Ptr)
    requires Valid(t) && x in t.nodes && t.cmp(key, x.key) == 0
    modifies x`value
    ensures Valid(t) && Entries(t) == Put(t.cmp, old(Entries(t)), key, val)
  {
    NodeEntry(t, x);
    PutReplaces(t.cmp, Entries(t), key, val, x.pos);
    PutAscending(t.cmp, Entries(t), key, val);
    assert forall i {:trigger t.order[i]} :: 0 <= i < |t.order| ==> t.order[i].pos == i;
    x.value := val;
    EntriesReplace(t, x.pos);
  }

  method AddFirst(t: Table, n: RBNode)
    requires Valid(t) && t.order == [] && n != t.sentinel && n.left == n.right == n.parent == t.sentinel
    modifies t`root, t`nodes, t`order, t`size, n`color, n`pos, n`lo, n`hi, n`bh
    ensures Valid(t) && t.nodes == {n} && t.order == [n]
  {
    assert t.nodes == {} by {
      forall m | m in t.nodes ensures |t.order| > 0 { KidFacts(t, m); }
    }
    t.size := t.size + 1;
    t.root := n;
    n.color := Black;
    n.pos, n.lo, n.hi, n.bh := 0, 0, 1, 0;
    t.nodes := {n};
    t.order := [n];
    assert LinkOk(t, n);
    assert BlackOk(t, n, null, null);
  }

  method Grow(t: Table, n: RBNode, y: RBNode, goLeft: bool, ghost d: int)
    requires Shape(t) && RedBlack(t) && t.sentinel.color == Black
    requires y in t.nodes && n !in t.nodes && n != t.sentinel && FreeSlot(t, y, if goLeft then L else R, d)
    requires n.parent == y && n.left == n.right == t.sentinel && n.color == Red
    modifies t`root, t`nodes, t`order, n`left, n`right, n`parent, n`pos, n`lo, n`hi, n`color, n`bh
    modifies t.nodes`left, t.nodes`right, t.nodes`parent, t.nodes`pos, t.nodes`lo, t.nodes`hi, t.nodes`color, t.nodes`bh
    ensures Shape(t) && RedBlack(t)
    ensures t.nodes == old(t.nodes) + {n} && 0 <= d <= old(|t.order|)
    ensures t.order == old(t.order)[..d] + [n] + old(t.order)[d..]
  {
    Attach(t, n, y, goLeft, d);
    RebalanceAfterInsert(t, n);
  }

  method AddBelow(t: Table, n: RBNode, y: RBNode, ghost d: int)
    requires Valid(t) && y in t.nodes && n !in t.nodes && n != t.sentinel
    requires n.parent == y && n.left == n.right == t.sentinel && t.cmp(n.key, y.key) != 0
    requires FreeSlot(t, y, if t.cmp(n.key, y.key) < 0 then L else R, d)
    modifies t`root, t`nodes, t`order, t`size, n`left, n`right, n`parent, n`pos, n`lo, n`hi, n`color, n`bh
    modifies t.nodes`left, t.nodes`right, t.nodes`parent, t.nodes`pos, t.nodes`lo, t.nodes`hi, t.nodes`color, t.nodes`bh
    ensures Shape(t) && RedBlack(t) && t.size == |t.order|
    ensures t.nodes == old(t.nodes) + {n} && 0 <= d <= old(|t.order|)
    ensures Entries(t) == old(Entries(t))[..d] + [Entry(n.key, n.value)] + old(Entries(t))[d..]
  {
    t.size := t.size + 1;
    n.color := Red;
    var c := t.cmp(n.key, y.key);
    Grow(t, n, y, c < 0, d);
    EntriesInsert(t, n, d);
  }

  lemma FoundPlace(t: Table, key: Ptr, val: Ptr, d: int)
    requires Valid(t) && 0 <= d <= |t.order| && Between(t, key, d, d)
    ensures Put(t.cmp, Entries(t), key, val) == Entries(t)[..d] + [Entry(key, val)] + Entries(t)[d..]
    ensures Ascending(t.cmp, Put(t.cmp, Entries(t), key, val))
  {
    PutFresh(t.cmp, Entries(t), key, val, d);
    PutAscending(t.cmp, Entries(t), key, val);
  }

  lemma SlotFound(t: Table, key: Ptr, y: RBNode, a: int)
    requires Valid(t) && t.order != [] && Below(t, key, y, t.sentinel, a, a)
    ensures y in t.nodes && FreeSlot(t, y, if t.cmp(key, y.key) < 0 then L else R, a)
  {
    assert LinkOk(t, t.root);
    if y in t.nodes { assert LinkOk(t, y); }
  }

  /** The loop of cc_treetable_add: x is the node with an equal key, or the sentinel with y above the free slot. */
  method Descend(t: Table, key: Ptr) returns (y: RBNode, x: RBNode, ghost d: int)
    requires Valid(t)
    ensures x != t.sentinel ==> x in t.nodes && t.cmp(key, x.key) == 0
    ensures x == t.sentinel && t.order == [] ==> y == t.sentinel
    ensures x == t.sentinel && t.order != [] ==>
      && y in t.nodes && t.cmp(key, y.key) != 0 && FreeSlot(t, y, if t.cmp(key, y.key) < 0 then L else R, d)
      && 0 <= d <= |t.order| && Between(t, key, d, d)
  {
    y := t.sentinel;
    x := t.root;
    d := 0;
    if t.root == t.sentinel { return; }
    ghost var b, steps := |t.order|, 0;
    SearchStart(t, key);
    while x != t.sentinel
      invariant Searching(t, key, x, d, b, steps)
      invariant Below(t, key, y, x, d, b)
      decreases b - d
    {
      var cmp := t.cmp(key, x.key);
      if cmp == 0 { return; }
      y := x;
      if cmp < 0 {
        SearchLeft(t, key, x, d, b, steps);
        b := x.pos;
        x := x.left;
      } else {
        SearchRight(t, key, x, d, b, steps);
        d := x.pos + 1;
        x := x.right;
      }
      steps := steps + 1;
    }
    SlotFound(t, key, y, d);
  }

  /** A new key gets a new node in its place; an equal key only gets its value replaced. */
  method Add(t: Table, key: Ptr, val: Ptr)
    requires Valid(t)
    modifies t, t.nodes
    ensures Valid(t) && fresh(t.nodes - old(t.nodes))
    ensures Entries(t) == Put(t.cmp, old(Entries(t)), key, val)
  {
    var y, x, d := Descend(t, key);
    if x != t.sentinel {
      Replace(t, x, key, val);
      return;
    }
    var n := new RBNode(key, val, Red);
    n.parent := y;
    n.left := t.sentinel;
    n.right := t.sentinel;
    if y == t.sentinel {
      AddFirst(t, n);
    } else {
      FoundPlace(t, key, val, d);
      AddBelow(t, n, y, d);
    }
  }
}
