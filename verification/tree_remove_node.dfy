/** remove_node: unlink, recolour the successor, repair. */
module TreeRemoveNode {
  import opened TreeShape
  import opened TreeColor
  import opened TreeRemove
  import opened TreeDelete

  twostate predicate SameColors(t: Table)
    requires t.nodes <= old(t.nodes)
    reads t, t.nodes
  {
    && (forall n {:trigger n.color} :: n in t.nodes ==> n.color == old(n.color))
    && (forall n {:trigger n.bh} :: n in t.nodes ==> n.bh == old(n.bh))
  }

  twostate lemma SplicedColorNode(t: Table, new z: RBNode, new x: RBNode, new n: RBNode)
    requires SplicedAt(t, z, x) && t.nodes <= old(t.nodes) && n in t.nodes && SameColors(t)
    requires old(RedBlack(t))
    ensures old(z.color) == Black ==> BlackOk(t, n, x, old(z.parent)) && RedOk(t, n, x, x)
    ensures old(z.color) == Red ==> BlackOk(t, n, null, null) && RedOk(t, n, null, null)
  {
    assert old(LinkOk(t, n)) && old(BlackOk(t, n, null, null)) && old(RedOk(t, n, null, null));
    assert old(LinkOk(t, z)) && old(BlackOk(t, z, null, null)) && old(RedOk(t, z, null, null));
    if x in old(t.nodes) { assert old(LinkOk(t, x)) && old(BlackOk(t, x, null, null)); }
  }

  twostate lemma PromotedColorNode(t: Table, new z: RBNode, new y: RBNode, new x: RBNode, new p: RBNode, new n: RBNode)
    requires PromotedAt(t, z, y, x) && n in t.nodes && t.nodes <= old(t.nodes)
    requires forall n {:trigger n.color} :: n in t.nodes ==> n.color == if n == y then old(z.color) else old(n.color)
    requires forall n {:trigger n.bh} :: n in t.nodes ==> n.bh == if n == y then old(z.bh) else old(n.bh)
    requires p == if old(y.parent) == z then y else old(y.parent)
    requires old(RedBlack(t))
    ensures old(y.color) == Black ==> BlackOk(t, n, x, p) && RedOk(t, n, x, x)
    ensures old(y.color) == Red ==> BlackOk(t, n, null, null) && RedOk(t, n, null, null)
  {
    assert old(LinkOk(t, n)) && old(BlackOk(t, n, null, null)) && old(RedOk(t, n, null, null));
    assert old(LinkOk(t, z)) && old(BlackOk(t, z, null, null)) && old(RedOk(t, z, null, null));
    assert old(LinkOk(t, y)) && old(BlackOk(t, y, null, null)) && old(RedOk(t, y, null, null));
    if x in old(t.nodes) { assert old(LinkOk(t, x)) && old(BlackOk(t, x, null, null)); }
  }

  twostate lemma SplicedColor(t: Table, new z: RBNode, new x: RBNode)
    requires SplicedAt(t, z, x) && t.nodes <= old(t.nodes) && SameColors(t) && Shape(t)
    requires old(RedBlack(t)) && x.parent == old(z.parent)
    ensures old(z.color) == Black ==> Short(t, x, x.parent)
    ensures old(z.color) == Red ==> RedBlack(t)
  {
    forall n | n in t.nodes
      ensures old(z.color) == Black ==> BlackOk(t, n, x, old(z.parent)) && RedOk(t, n, x, x)
      ensures old(z.color) == Red ==> BlackOk(t, n, null, null) && RedOk(t, n, null, null)
    {
      SplicedColorNode(t, z, x, n);
    }
    SplicedTop(t, z, x);
  }

  /** Where the shortage sits after a splice: never at an ambiguous link. */
  twostate lemma SplicedTop(t: Table, new z: RBNode, new x: RBNode)
    requires SplicedAt(t, z, x) && t.nodes <= old(t.nodes) && SameColors(t) && Shape(t)
    requires old(RedBlack(t)) && x.parent == old(z.parent)
    ensures x in t.nodes || x == t.sentinel
    ensures x == t.root || IsBlack(t, t.root)
    ensures old(z.color) == Red ==> IsBlack(t, t.root)
    ensures old(z.color) == Black ==>
      if x == t.root then x.parent !in t.nodes else x.parent in t.nodes && (x.parent.left == x) != (x.parent.right == x)
  {
    assert old(LinkOk(t, z)) && old(BlackOk(t, z, null, null)) && old(RedOk(t, z, null, null));
    var p := old(z.parent);
    if p in old(t.nodes) {
      assert old(LinkOk(t, p)) && old(BlackOk(t, p, null, null));
      if old(p.left) in old(t.nodes) { assert old(LinkOk(t, p.left)); }
      if old(p.right) in old(t.nodes) { assert old(LinkOk(t, p.right)); }
    }
    if x in old(t.nodes) { assert old(LinkOk(t, x)); }
  }

  twostate predicate PromotedColors(t: Table, new z: RBNode, new y: RBNode, new x: RBNode, new p: RBNode)
    reads t, t.nodes
  {
    && PromotedAt(t, z, y, x) && t.nodes <= old(t.nodes) && old(RedBlack(t))
    && (forall n {:trigger n.color} :: n in t.nodes ==> n.color == if n == y then old(z.color) else old(n.color))
    && (forall n {:trigger n.bh} :: n in t.nodes ==> n.bh == if n == y then old(z.bh) else old(n.bh))
    && p == if old(y.parent) == z then y else old(y.parent)
  }

  twostate lemma PromotedTop(t: Table, new z: RBNode, new y: RBNode, new x: RBNode, new p: RBNode)
    requires PromotedColors(t, z, y, x, p) && Shape(t) && x.parent == p
    ensures (x in t.nodes || x == t.sentinel) && IsBlack(t, t.root) && x != t.root
    ensures old(y.color) == Black ==> p in t.nodes && (p.left == x) != (p.right == x)
  {
    assert old(LinkOk(t, z)) && old(BlackOk(t, z, null, null));
    assert old(LinkOk(t, y)) && old(BlackOk(t, y, null, null));
    var q := old(y.parent);
    assert old(LinkOk(t, q)) && old(BlackOk(t, q, null, null));
    if old(q.left) in old(t.nodes) { assert old(LinkOk(t, q.left)) && old(BlackOk(t, q.left, null, null)); }
    if old(q.right) in old(t.nodes) { assert old(LinkOk(t, q.right)) && old(BlackOk(t, q.right, null, null)); }
    if x in old(t.nodes) { assert old(LinkOk(t, x)); }
    assert old(LinkOk(t, t.root));
  }

  twostate lemma PromotedColor(t: Table, new z: RBNode, new y: RBNode, new x: RBNode, new p: RBNode)
    requires PromotedColors(t, z, y, x, p) && Shape(t) && x.parent == p
    ensures old(y.color) == Black ==> Short(t, x, x.parent)
    ensures old(y.color) == Red ==> RedBlack(t)
  {
    forall n | n in t.nodes
      ensures old(y.color) == Black ==> BlackOk(t, n, x, p) && RedOk(t, n, x, x)
      ensures old(y.color) == Red ==> BlackOk(t, n, null, null) && RedOk(t, n, null, null)
    {
      PromotedColorNode(t, z, y, x, p, n);
    }
    PromotedTop(t, z, y, x, p);
  }

  /** What the splicing half of remove_node leaves for the repair half. */
  ghost predicate Unlinked(t: Table, x: RBNode, yColor: Color)
    reads t, t.nodes, x
  {
    Shape(t) && (yColor == Black ==> Short(t, x, x.parent)) && (yColor == Red ==> RedBlack(t))
  }

  method UnlinkOuter(t: Table, z: RBNode) returns (x: RBNode)
    requires Shape(t) && RedBlack(t) && z in t.nodes && (z.left == t.sentinel || z.right == t.sentinel)
    modifies t`root, t`nodes, t`order, t.nodes`left, t.nodes`right, t.nodes`parent, t.nodes`pos, t.nodes`lo
    modifies t.nodes`hi, t.sentinel`parent
    ensures Unlinked(t, x, old(z.color))
    ensures t.nodes == old(t.nodes) - {z} && 0 <= old(z.pos) < old(|t.order|)
    ensures t.order == old(t.order)[..old(z.pos)] + old(t.order)[old(z.pos) + 1..]
  {
    x := SpliceOut(t, z);
    SplicedColor(t, z, x);
  }

  method UnlinkInner(t: Table, z: RBNode, y: RBNode)
    requires Shape(t) && RedBlack(t) && {z, y} <= t.nodes && IsNext(t, z, y)
    requires y != z && y != z.left && y.right != null && y.right != y && y.right != z && y.right != z.left
    requires y.right != t.sentinel ==> y.right in t.nodes
    modifies t`root, t`nodes, t`order, t.nodes`left, t.nodes`right, t.nodes`parent, t.nodes`pos, t.nodes`lo
    modifies t.nodes`hi, t.sentinel`parent
    modifies t.nodes`color, t.nodes`bh
    ensures Unlinked(t, old(y.right), old(y.color))
    ensures t.nodes == old(t.nodes) - {z} && 0 <= old(z.pos) < old(|t.order|)
    ensures t.order == old(t.order)[..old(z.pos)] + old(t.order)[old(z.pos) + 1..]
  {
    ghost var x := y.right;
    Promote(t, z, y);
    y.color := z.color;
    y.bh := z.bh;
    PromotedColor(t, z, y, x, x.parent);
  }

  method RemoveNode(t: Table, z: RBNode)
    requires Shape(t) && RedBlack(t) && t.sentinel.color == Black && t.size == |t.order| && z in t.nodes
    modifies t`root, t`nodes, t`order, t`size, t.sentinel`parent, t.sentinel`color
    modifies t.nodes`left, t.nodes`right, t.nodes`parent, t.nodes`pos, t.nodes`lo, t.nodes`hi, t.nodes`color, t.nodes`bh
    ensures Shape(t) && RedBlack(t) && t.sentinel.color == Black && t.size == |t.order|
    ensures 0 <= old(z.pos) < old(|t.order|)
    ensures t.nodes == old(t.nodes) - {z} && t.order == old(t.order)[..old(z.pos)] + old(t.order)[old(z.pos) + 1..]
  {
    KidFacts(t, z);
    var x: RBNode;
    var y := z;
    var yColor := y.color;
    if z.left == t.sentinel || z.right == t.sentinel {
      x := UnlinkOuter(t, z);
    } else {
      y := TreeMin(t, z.right);
      yColor := y.color;
      NextFacts(t, z, y);
      x := y.right;
      UnlinkInner(t, z, y);
    }
    if yColor == Black {
      RebalanceAfterDelete(t, x);
    }
    t.size := t.size - 1;
  }
}
