/** rebalance_after_insert: the repair loop after a red leaf has been attached. */
module TreeInsert {
  import opened TreeShape
  import opened TreeRotate
  import opened TreeColor

  /** What holds each time the loop tests z->parent: the only red-red link is the one above z. */
  ghost predicate Climbing(t: Table, z: RBNode)
    reads t`nodes, t`root, t`order, t.nodes`left, t.nodes`right, t.nodes`parent, t.nodes`pos, t.nodes`lo
    reads t.nodes`hi, t.nodes`color, t.nodes`bh
  {
    && Shape(t) && z in t.nodes && z.color == Red
    && Blackened(t, null, null) && Reddened(t, z, null)
    && (t.root == z || IsBlack(t, t.root))
  }

  /** z and its parent p are red, g is the grandparent; p hangs on side d of g. */
  ghost predicate RedPair(t: Table, z: RBNode, p: RBNode, g: RBNode, d: Dir)
    reads t, t.nodes, z, p, g
  {
    && Climbing(t, z) && p in t.nodes && g in t.nodes && z.parent == p && p.parent == g
    && p.color == Red && g.color == Black && Kid(g, d) == p
  }

  lemma GrandparentFacts(t: Table, z: RBNode)
    requires Climbing(t, z) && z.parent in t.nodes && z.parent.color == Red
    ensures z.parent.parent in t.nodes
    ensures RedPair(t, z, z.parent, z.parent.parent, if z.parent == z.parent.parent.left then L else R)
  {
    assert LinkOk(t, z);
    assert LinkOk(t, z.parent);
    assert RedOk(t, z.parent.parent, z, null);
    assert LinkOk(t, z.parent.parent);
  }

  /** Uncle red: p and y become black, g becomes red and gains one black below it. */
  twostate predicate Pushed(t: Table, new p: RBNode, new y: RBNode, new g: RBNode)
    reads t, t.nodes
  {
    && SameLinks(t)
    && (forall n {:trigger n.color} :: n in t.nodes ==>
         n.color == if n == p || n == y then Black else if n == g then Red else old(n.color))
    && (forall n {:trigger n.bh} :: n in t.nodes ==> n.bh == old(n.bh) + if n == g then 1 else 0)
  }

  twostate lemma PushedNode(t: Table, new z: RBNode, new p: RBNode, new y: RBNode, new g: RBNode, new d: Dir,
                            new n: RBNode)
    requires {z, p, g, y, n} <= old(t.nodes) && old(RedPair(t, z, p, g, d)) && y == old(Kid(g, Opp(d)))
    requires old(y.color) == Red
    requires Pushed(t, p, y, g)
    ensures BlackOk(t, n, null, null) && RedOk(t, n, g, null)
  {
    assert old(LinkOk(t, n)) && old(LinkOk(t, g)) && old(LinkOk(t, p));
    assert old(BlackOk(t, n, null, null)) && old(RedOk(t, n, z, null));
    assert old(BlackOk(t, g, null, null)) && old(RedOk(t, p, z, null));
  }

  twostate lemma PushedAll(t: Table, new z: RBNode, new p: RBNode, new y: RBNode, new g: RBNode, new d: Dir)
    requires {z, p, g, y} <= old(t.nodes) && old(RedPair(t, z, p, g, d)) && y == old(Kid(g, Opp(d)))
    requires old(y.color) == Red
    requires Pushed(t, p, y, g)
    ensures Climbing(t, g) && g.hi - g.lo > z.hi - z.lo
  {
    SameShape(t);
    forall n | n in t.nodes ensures BlackOk(t, n, null, null) && RedOk(t, n, g, null) {
      PushedNode(t, z, p, y, g, d, n);
    }
    assert old(LinkOk(t, z)) && old(LinkOk(t, p)) && old(LinkOk(t, g));
  }

  method PushBlackDown(t: Table, z: RBNode, y: RBNode, ghost d: Dir) returns (z': RBNode)
    requires z.parent in t.nodes && z.parent.parent in t.nodes && RedPair(t, z, z.parent, z.parent.parent, d)
    requires y in t.nodes && y == Kid(z.parent.parent, Opp(d)) && y.color == Red
    modifies t.nodes`color, t.nodes`bh
    ensures Climbing(t, z') && z'.hi - z'.lo > z.hi - z.lo
  {
    ghost var p, g := z.parent, z.parent.parent;
    z.parent.color := Black;
    y.color := Black;
    z.parent.parent.color := Red;
    z' := z.parent.parent;
    g.bh := g.bh + 1;
    PushedAll(t, z, p, y, g, d);
  }

  /** Inner grandchild: rotating at p makes p the lower node of the red pair; no colour changes. */
  twostate lemma TurnedNode(t: Table, new z: RBNode, new p: RBNode, new g: RBNode, new d: Dir, new n: RBNode)
    requires {z, p, g, n} <= old(t.nodes) && old(RedPair(t, z, p, g, d)) && z == old(Kid(p, Opp(d)))
    requires RotatedAt(t, d, p)
    requires forall n {:trigger n.color} :: n in t.nodes ==> n.color == old(n.color)
    requires forall n {:trigger n.bh} :: n in t.nodes ==> n.bh == old(n.bh)
    ensures BlackOk(t, n, null, null) && RedOk(t, n, p, null)
  {
    assert old(LinkOk(t, n)) && old(LinkOk(t, p)) && old(LinkOk(t, z));
    assert old(BlackOk(t, n, null, null)) && old(RedOk(t, n, z, null));
    assert old(BlackOk(t, p, null, null)) && old(RedOk(t, p, z, null));
    assert old(BlackOk(t, z, null, null)) && old(RedOk(t, z, z, null));
  }

  twostate lemma TurnedAll(t: Table, new z: RBNode, new p: RBNode, new g: RBNode, new d: Dir)
    requires {z, p, g} <= old(t.nodes) && old(RedPair(t, z, p, g, d)) && z == old(Kid(p, Opp(d)))
    requires Shape(t) && RotatedAt(t, d, p)
    requires forall n {:trigger n.color} :: n in t.nodes ==> n.color == old(n.color)
    requires forall n {:trigger n.bh} :: n in t.nodes ==> n.bh == old(n.bh)
    ensures RedPair(t, p, z, g, d) && p == Kid(z, d) && Kid(g, Opp(d)) == old(Kid(g, Opp(d)))
  {
    forall n | n in t.nodes ensures BlackOk(t, n, null, null) && RedOk(t, n, p, null) {
      TurnedNode(t, z, p, g, d, n);
    }
    assert old(LinkOk(t, p)) && old(LinkOk(t, g)) && old(LinkOk(t, z));
  }

  /** Outer grandchild: p black, g red, then a rotation at g away from p. */
  twostate lemma LiftedNode(t: Table, new z: RBNode, new p: RBNode, new g: RBNode, new d: Dir, new n: RBNode)
    requires {z, p, g, n} <= old(t.nodes) && old(RedPair(t, z, p, g, d)) && z == old(Kid(p, d))
    requires old(IsBlack(t, Kid(g, Opp(d))))
    requires RotatedAt(t, Opp(d), g)
    requires forall n {:trigger n.color} :: n in t.nodes ==>
      n.color == if n == p then Black else if n == g then Red else old(n.color)
    requires forall n {:trigger n.bh} :: n in t.nodes ==> n.bh == old(n.bh)
    ensures BlackOk(t, n, null, null) && RedOk(t, n, null, null)
  {
    assert old(LinkOk(t, n)) && old(LinkOk(t, p)) && old(LinkOk(t, g));
    assert old(BlackOk(t, n, null, null)) && old(RedOk(t, n, z, null));
    assert old(BlackOk(t, p, null, null)) && old(RedOk(t, p, z, null));
    assert old(BlackOk(t, g, null, null)) && old(RedOk(t, g, z, null));
  }

  twostate lemma LiftedAll(t: Table, new z: RBNode, new p: RBNode, new g: RBNode, new d: Dir)
    requires {z, p, g} <= old(t.nodes) && old(RedPair(t, z, p, g, d)) && z == old(Kid(p, d))
    requires old(IsBlack(t, Kid(g, Opp(d))))
    requires Shape(t) && RotatedAt(t, Opp(d), g)
    requires forall n {:trigger n.color} :: n in t.nodes ==>
      n.color == if n == p then Black else if n == g then Red else old(n.color)
    requires forall n {:trigger n.bh} :: n in t.nodes ==> n.bh == old(n.bh)
    ensures Climbing(t, z) && z.parent == p && p.color == Black
  {
    forall n | n in t.nodes ensures BlackOk(t, n, null, null) && RedOk(t, n, z, null) {
      LiftedNode(t, z, p, g, d, n);
    }
    assert old(LinkOk(t, p)) && old(LinkOk(t, g)) && old(LinkOk(t, z));
  }

  /** Repaint the red pair's parent and grandparent and rotate the grandparent right. */
  method LiftRight(t: Table, z: RBNode)
    requires z.parent in t.nodes && z.parent.parent in t.nodes && RedPair(t, z, z.parent, z.parent.parent, L)
    requires z == Kid(z.parent, L) && IsBlack(t, Kid(z.parent.parent, Opp(L)))
    modifies t`root, t.nodes`left, t.nodes`right, t.nodes`parent, t.nodes`lo, t.nodes`hi, t.nodes`color
    ensures Climbing(t, z) && z.parent in t.nodes && z.parent.color == Black
    ensures t.nodes == old(t.nodes) && t.order == old(t.order)
  {
    ghost var p, g := z.parent, z.parent.parent;
    z.parent.color := Black;
    z.parent.parent.color := Red;
    SameShape(t);
    RotateRight(t, z.parent.parent);
    LiftedAll(t, z, p, g, L);
  }

  /** Repaint the red pair's parent and grandparent and rotate the grandparent left. */
  method LiftLeft(t: Table, z: RBNode)
    requires z.parent in t.nodes && z.parent.parent in t.nodes && RedPair(t, z, z.parent, z.parent.parent, R)
    requires z == Kid(z.parent, R) && IsBlack(t, Kid(z.parent.parent, Opp(R)))
    modifies t`root, t.nodes`left, t.nodes`right, t.nodes`parent, t.nodes`lo, t.nodes`hi, t.nodes`color
    ensures Climbing(t, z) && z.parent in t.nodes && z.parent.color == Black
    ensures t.nodes == old(t.nodes) && t.order == old(t.order)
  {
    ghost var p, g := z.parent, z.parent.parent;
    z.parent.color := Black;
    z.parent.parent.color := Red;
    SameShape(t);
    RotateLeft(t, z.parent.parent);
    LiftedAll(t, z, p, g, R);
  }

  /** The rotating branch when z's parent is a left child. */
  method RotateUnderLeft(t: Table, z0: RBNode) returns (z: RBNode)
    requires z0.parent in t.nodes && z0.parent.parent in t.nodes && RedPair(t, z0, z0.parent, z0.parent.parent, L)
    requires IsBlack(t, Kid(z0.parent.parent, Opp(L)))
    modifies t`root, t.nodes`left, t.nodes`right, t.nodes`parent, t.nodes`lo, t.nodes`hi, t.nodes`color
    ensures Climbing(t, z) && z.parent in t.nodes && z.parent.color == Black
    ensures t.nodes == old(t.nodes) && t.order == old(t.order)
  {
    z := z0;
    ghost var p, g := z.parent, z.parent.parent;
    assert LinkOk(t, z);
    if z == z.parent.right {
      z := z.parent;
      RotateLeft(t, z);
      TurnedAll(t, z0, p, g, L);
    }
    LiftRight(t, z);
  }

  /** The rotating branch when z's parent is a right child. */
  method RotateUnderRight(t: Table, z0: RBNode) returns (z: RBNode)
    requires z0.parent in t.nodes && z0.parent.parent in t.nodes && RedPair(t, z0, z0.parent, z0.parent.parent, R)
    requires IsBlack(t, Kid(z0.parent.parent, Opp(R)))
    modifies t`root, t.nodes`left, t.nodes`right, t.nodes`parent, t.nodes`lo, t.nodes`hi, t.nodes`color
    ensures Climbing(t, z) && z.parent in t.nodes && z.parent.color == Black
    ensures t.nodes == old(t.nodes) && t.order == old(t.order)
  {
    z := z0;
    ghost var p, g := z.parent, z.parent.parent;
    assert LinkOk(t, z);
    if z == z.parent.left {
      z := z.parent;
      RotateRight(t, z);
      TurnedAll(t, z0, p, g, R);
    }
    LiftLeft(t, z);
  }

  twostate lemma RootBlackNode(t: Table, new z: RBNode, new n: RBNode)
    requires {z, n} <= old(t.nodes) && old(Climbing(t, z)) && old(IsBlack(t, z.parent))
    requires SameLinks(t)
    requires forall n {:trigger n.color} :: n in t.nodes ==> n.color == if n == t.root then Black else old(n.color)
    requires forall n {:trigger n.bh} :: n in t.nodes ==> n.bh == old(n.bh)
    ensures BlackOk(t, n, null, null) && RedOk(t, n, null, null)
  {
    assert old(LinkOk(t, n)) && old(LinkOk(t, z)) && old(LinkOk(t, t.root));
    assert old(BlackOk(t, n, null, null)) && old(RedOk(t, n, z, null));
  }

  method RebalanceAfterInsert(t: Table, z0: RBNode)
    requires Climbing(t, z0) && z0.parent != null && t.sentinel.color == Black
    modifies t`root, t.nodes`left, t.nodes`right, t.nodes`parent, t.nodes`lo, t.nodes`hi, t.nodes`color, t.nodes`bh
    ensures Shape(t) && RedBlack(t)
    ensures t.nodes == old(t.nodes) && t.order == old(t.order)
  {
    var z := z0;
    assert LinkOk(t, z);
    while z.parent.color == Red
      invariant Climbing(t, z) && z.parent != null
      invariant t.nodes == old(t.nodes) && t.order == old(t.order)
      decreases if z.parent.color == Red then 1 else 0, |t.order| - (z.hi - z.lo)
    {
      ghost var inside := LinkOk(t, z);
      GrandparentFacts(t, z);
      KidFacts(t, z.parent.parent);
      if z.parent == z.parent.parent.left {
        var y := z.parent.parent.right;
        if y.color == Red {
          z := PushBlackDown(t, z, y, L);
        } else {
          z := RotateUnderLeft(t, z);
        }
      } else {
        var y := z.parent.parent.left;
        if y.color == Red {
          z := PushBlackDown(t, z, y, R);
        } else {
          z := RotateUnderRight(t, z);
        }
      }
      inside := LinkOk(t, z);
    }
    label Done:
    t.root.color := Black;
    SameShape@Done(t);
    forall n | n in t.nodes ensures BlackOk(t, n, null, null) && RedOk(t, n, null, null) {
      RootBlackNode@Done(t, z, n);
    }
  }
}
