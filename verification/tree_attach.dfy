/** Hanging a new red leaf below y, as cc_treetable_add does before it rebalances. */
module TreeAttach {
  import opened TreeShape
  import opened TreeColor
  import opened TreeInsert

  ghost function Up(i: int, d: int): int { if i >= d then i + 1 else i }

  /** The node just before n's interval is an ancestor of n. */
  lemma {:induction false} BeforeIsAbove(t: Table, n: RBNode)
    requires Shape(t) && n in t.nodes && n.lo > 0
    ensures n.lo - 1 < |t.order| && t.order[n.lo - 1].hi >= n.hi
    decreases |t.order| - (n.hi - n.lo)
  {
    assert LinkOk(t, n);
    var p := n.parent;
    assert LinkOk(t, p);
    if n == p.left {
      BeforeIsAbove(t, p);
    }
  }

  /** The node just after n's interval is an ancestor of n. */
  lemma {:induction false} AfterIsAbove(t: Table, n: RBNode)
    requires Shape(t) && n in t.nodes && n.hi < |t.order|
    ensures 0 <= n.hi && t.order[n.hi].lo <= n.lo
    decreases |t.order| - (n.hi - n.lo)
  {
    assert LinkOk(t, n);
    var p := n.parent;
    assert LinkOk(t, p);
    if n == p.right && n != p.left {
      AfterIsAbove(t, p);
    }
  }

  /** Position d is y's free slot on side s. */
  ghost predicate FreeSlot(t: Table, y: RBNode, s: Dir, d: int)
    requires y in t.nodes
    reads t, t.nodes
  {
    if s == L then y.left == t.sentinel && y.lo == y.pos == d else y.right == t.sentinel && y.hi == y.pos + 1 == d
  }

  /** No other node has a free slot at d. */
  ghost predicate OnlySlot(t: Table, y: RBNode, s: Dir, d: int)
    reads t, t.nodes
  {
    && (forall m {:trigger m.lo} :: m in t.nodes && m.lo == m.pos == d ==> m == y && s == L)
    && (forall m {:trigger m.hi} :: m in t.nodes && m.pos + 1 == m.hi == d ==> m == y && s == R)
  }

  lemma SlotIsUnique(t: Table, y: RBNode, s: Dir, d: int)
    requires Shape(t) && y in t.nodes && FreeSlot(t, y, s, d)
    ensures OnlySlot(t, y, s, d)
  {
    assert LinkOk(t, y);
    forall m | m in t.nodes && m.lo == m.pos == d ensures m == y && s == L {
      assert LinkOk(t, m);
      if s == R { BeforeIsAbove(t, m); }
    }
    forall m | m in t.nodes && m.pos + 1 == m.hi == d ensures m == y && s == R {
      assert LinkOk(t, m);
      if s == L { AfterIsAbove(t, m); }
    }
  }

  twostate predicate Attached(t: Table, new n: RBNode, new y: RBNode, new s: Dir, new d: int)
    reads t, t.nodes
  {
    && n !in old(t.nodes) && n != t.sentinel && t.nodes == old(t.nodes) + {n} && t.root == old(t.root)
    && 0 <= d <= old(|t.order|) && t.order == old(t.order)[..d] + [n] + old(t.order)[d..]
    && (forall m {:trigger m.left} :: m in old(t.nodes) ==> m.left == if m == y && s == L then n else old(m.left))
    && (forall m {:trigger m.right} :: m in old(t.nodes) ==> m.right == if m == y && s == R then n else old(m.right))
    && (forall m {:trigger m.parent} :: m in old(t.nodes) ==> m.parent == old(m.parent))
    && (forall m {:trigger m.pos} :: m in old(t.nodes) ==> m.pos == Up(old(m.pos), d))
    && (forall m {:trigger m.lo} :: m in old(t.nodes) ==> m.lo == Up(old(m.lo), d + 1))
    && (forall m {:trigger m.hi} :: m in old(t.nodes) ==> m.hi == Up(old(m.hi), d))
    && n.left == n.right == t.sentinel && n.parent == y && n.pos == n.lo == d && n.hi == d + 1
  }

  twostate predicate AttachedAt(t: Table, new n: RBNode, new y: RBNode, new s: Dir, new d: int)
    reads t, t.nodes
  {
    && y in old(t.nodes) && old(Shape(t)) && Attached(t, n, y, s, d)
    && old(y.lo) <= d <= old(y.hi)
    && old(if s == L then y.left == t.sentinel && y.lo == y.pos else y.right == t.sentinel && y.hi == y.pos + 1)
    && d == old(if s == L then y.pos else y.pos + 1)
    && (forall m {:trigger m.lo} :: m in old(t.nodes) && old(m.lo) == old(m.pos) == d ==> m == y && s == L)
    && (forall m {:trigger m.hi} :: m in old(t.nodes) && old(m.pos) + 1 == old(m.hi) == d ==> m == y && s == R)
  }

  twostate lemma AttachedNode(t: Table, new n: RBNode, new y: RBNode, new s: Dir, new d: int, new m: RBNode)
    requires AttachedAt(t, n, y, s, d) && m in t.nodes
    ensures LinkOk(t, m)
  {
    assert old(LinkOk(t, y));
    if m != n {
      assert old(LinkOk(t, m));
      if old(m.left) in old(t.nodes) { assert old(LinkOk(t, m.left)); }
      if old(m.right) in old(t.nodes) { assert old(LinkOk(t, m.right)); }
      if old(m.parent) in old(t.nodes) { assert old(LinkOk(t, m.parent)); }
    }
  }

  twostate lemma AttachedAtIndex(t: Table, new n: RBNode, new y: RBNode, new s: Dir, new d: int, new i: int)
    requires AttachedAt(t, n, y, s, d) && 0 <= i < |t.order|
    ensures t.order[i] in t.nodes && t.order[i].pos == i
  {
    if i != d {
      var m := old(t.order)[if i < d then i else i - 1];
      assert t.order[i] == m && m in old(t.nodes) && old(m.pos) == if i < d then i else i - 1;
    }
  }

  twostate lemma AttachedShape(t: Table, new n: RBNode, new y: RBNode, new s: Dir, new d: int)
    requires AttachedAt(t, n, y, s, d)
    ensures Shape(t)
  {
    forall m | m in t.nodes ensures LinkOk(t, m) {
      AttachedNode(t, n, y, s, d, m);
    }
    forall i | 0 <= i < |t.order| ensures t.order[i] in t.nodes && t.order[i].pos == i {
      AttachedAtIndex(t, n, y, s, d, i);
    }
    assert old(LinkOk(t, y));
  }

  twostate lemma AttachedColorNode(t: Table, new n: RBNode, new y: RBNode, new s: Dir, new d: int, new m: RBNode)
    requires AttachedAt(t, n, y, s, d) && old(RedBlack(t)) && m in t.nodes
    requires forall m {:trigger m.color} :: m in old(t.nodes) ==> m.color == old(m.color)
    requires forall m {:trigger m.bh} :: m in old(t.nodes) ==> m.bh == old(m.bh)
    requires n.color == Red && n.bh == 0
    ensures BlackOk(t, m, null, null) && RedOk(t, m, n, null)
  {
    assert old(LinkOk(t, y));
    if m != n {
      assert old(LinkOk(t, m)) && old(BlackOk(t, m, null, null)) && old(RedOk(t, m, null, null));
    }
  }

  twostate lemma AttachedClimbing(t: Table, new n: RBNode, new y: RBNode, new s: Dir, new d: int)
    requires AttachedAt(t, n, y, s, d) && old(RedBlack(t))
    requires forall m {:trigger m.color} :: m in old(t.nodes) ==> m.color == old(m.color)
    requires forall m {:trigger m.bh} :: m in old(t.nodes) ==> m.bh == old(m.bh)
    requires n.color == Red && n.bh == 0
    ensures Climbing(t, n)
  {
    AttachedShape(t, n, y, s, d);
    forall m | m in t.nodes ensures BlackOk(t, m, null, null) && RedOk(t, m, n, null) {
      AttachedColorNode(t, n, y, s, d, m);
    }
    assert old(LinkOk(t, y));
  }

  /** Positions before a new node appears at d. */
  ghost method OpenGap(t: Table, d: int)
    modifies t.nodes`pos, t.nodes`lo, t.nodes`hi
    ensures forall m {:trigger m.pos} :: m in t.nodes ==> m.pos == Up(old(m.pos), d)
    ensures forall m {:trigger m.lo} :: m in t.nodes ==> m.lo == Up(old(m.lo), d + 1)
    ensures forall m {:trigger m.hi} :: m in t.nodes ==> m.hi == Up(old(m.hi), d)
  {
    forall m | m in t.nodes { m.pos := Up(m.pos, d); }
    forall m | m in t.nodes { m.lo := Up(m.lo, d + 1); }
    forall m | m in t.nodes { m.hi := Up(m.hi, d); }
  }

  /** Link the fresh red node n below y and repair. */
  method Attach(t: Table, n: RBNode, y: RBNode, goLeft: bool, ghost d: int)
    requires Shape(t) && RedBlack(t) && t.sentinel.color == Black
    requires y in t.nodes && n !in t.nodes && n != t.sentinel && FreeSlot(t, y, if goLeft then L else R, d)
    requires n.parent == y && n.left == n.right == t.sentinel && n.color == Red
    modifies t`nodes, t`order, y`left, y`right, n`pos, n`lo, n`hi, n`bh, t.nodes`pos, t.nodes`lo, t.nodes`hi
    ensures t.nodes == old(t.nodes) + {n} && 0 <= d <= old(|t.order|)
    ensures t.order == old(t.order)[..d] + [n] + old(t.order)[d..]
    ensures Climbing(t, n)
  {
    ghost var s := if goLeft then L else R;
    SlotIsUnique(t, y, s, d);
    assert LinkOk(t, y);
    OpenGap(t, d);
    if goLeft {
      y.left := n;
    } else {
      y.right := n;
    }
    n.pos, n.lo, n.hi, n.bh := d, d, d + 1, 0;
    t.nodes := t.nodes + {n};
    t.order := t.order[..d] + [n] + t.order[d..];
    AttachedClimbing(t, n, y, s, d);
  }
}
