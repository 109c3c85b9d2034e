/** rebalance_after_delete: moving a missing black node up or absorbing it. */
module TreeDelete {
  import opened TreeShape
  import opened TreeRotate
  import opened TreeColor

  /** What holds each time the loop tests x: the link from p down to x is one black node short, and x may be
      red under a red parent or over red children.  x may be the sentinel, whose parent field is then p. */
  ghost predicate Short(t: Table, x: RBNode, p: RBNode?)
    reads t, t.nodes, x
  {
    && Shape(t) && (x in t.nodes || x == t.sentinel) && x.parent == p
    && Blackened(t, x, p) && Reddened(t, x, x)
    && (t.root == x || IsBlack(t, t.root))
    && (if x == t.root then p !in t.nodes else p != null && p in t.nodes && (p.left == x) != (p.right == x))
  }

  /** x hangs black on side d of p, w is the sibling. */
  ghost predicate Sibling(t: Table, x: RBNode, p: RBNode, w: RBNode?, d: Dir)
    reads t, t.nodes, x, p
  {
    && Short(t, x, p) && x != t.root && IsBlack(t, x) && p in t.nodes && Kid(p, d) == x && Kid(p, Opp(d)) == w
  }

  lemma SiblingFacts(t: Table, x: RBNode, p: RBNode, d: Dir)
    requires Short(t, x, p) && x != t.root && IsBlack(t, x) && p in t.nodes && Kid(p, d) == x
    ensures Kid(p, Opp(d)) in t.nodes && Sibling(t, x, p, Kid(p, Opp(d)), d)
    ensures Kid(p, Opp(d)).parent == p
    ensures var w := Kid(p, Opp(d));
      && w.left != null && w.right != null
      && (w.color == Red ==> p.color == Black && w.left in t.nodes && w.right in t.nodes)
    ensures var w := Kid(p, Opp(d));
      && (w.left == t.sentinel || w.left in t.nodes)
      && (w.right == t.sentinel || w.right in t.nodes)
  {
    assert LinkOk(t, p);
    assert BlackOk(t, p, x, p) && RedOk(t, p, x, x);
    if x in t.nodes { assert BlackOk(t, x, x, p); }
    var w := Kid(p, Opp(d));
    assert LinkOk(t, w) && BlackOk(t, w, x, p) && RedOk(t, w, x, x);
  }

  /** Case 1, red sibling: it becomes black, p red, and p is rotated down towards x. */
  twostate lemma RedSiblingNode(t: Table, new x: RBNode, new p: RBNode, new w: RBNode, new d: Dir, new n: RBNode)
    requires {p, w, n} <= old(t.nodes) && (x in old(t.nodes) || x == t.sentinel) && old(Sibling(t, x, p, w, d))
    requires old(w.color) == Red && old(p.color) == Black
    requires RotatedAt(t, d, p)
    requires forall n {:trigger n.color} :: n in t.nodes ==>
      n.color == if n == w then Black else if n == p then Red else old(n.color)
    requires forall n {:trigger n.bh} :: n in t.nodes ==> n.bh == old(n.bh)
    ensures BlackOk(t, n, x, p) && RedOk(t, n, x, x)
  {
    assert old(LinkOk(t, n)) && old(LinkOk(t, p)) && old(LinkOk(t, w));
    assert old(BlackOk(t, n, x, p)) && old(RedOk(t, n, x, x));
    assert old(BlackOk(t, p, x, p)) && old(RedOk(t, p, x, x));
    assert old(BlackOk(t, w, x, p)) && old(RedOk(t, w, x, x));
  }

  /** Case 2, black sibling with black children: the sibling turns red and the shortage moves up to p. */
  twostate lemma PassUpNode(t: Table, new x: RBNode, new p: RBNode, new w: RBNode, new d: Dir, new n: RBNode)
    requires {p, w, n} <= old(t.nodes) && (x in old(t.nodes) || x == t.sentinel) && old(Sibling(t, x, p, w, d))
    requires old(w.color) == Black
    requires old(IsBlack(t, w.left)) && old(IsBlack(t, w.right))
    requires SameLinks(t)
    requires forall n {:trigger n.color} :: n in t.nodes ==> n.color == if n == w then Red else old(n.color)
    requires forall n {:trigger n.bh} :: n in t.nodes ==> n.bh == if n == p then old(n.bh) - 1 else old(n.bh)
    ensures BlackOk(t, n, p, p.parent) && RedOk(t, n, p, p)
  {
    assert old(LinkOk(t, n)) && old(LinkOk(t, p)) && old(LinkOk(t, w));
    assert old(BlackOk(t, n, x, p)) && old(RedOk(t, n, x, x));
    assert old(BlackOk(t, p, x, p)) && old(RedOk(t, p, x, x));
    assert old(BlackOk(t, w, x, p)) && old(RedOk(t, w, x, x));
    if x in old(t.nodes) { assert old(LinkOk(t, x)) && old(BlackOk(t, x, x, p)); }
  }

  /** Case 3, black sibling whose near child l is red: l takes the sibling's place. */
  twostate lemma NearRedBlack(t: Table, new x: RBNode, new p: RBNode, new w: RBNode, new l: RBNode, new d: Dir,
                              new n: RBNode)
    requires {p, w, l, n} <= old(t.nodes) && (x in old(t.nodes) || x == t.sentinel)
    requires old(Sibling(t, x, p, w, d)) && old(w.color) == Black
    requires l == old(Kid(w, d)) && old(l.color) == Red && old(IsBlack(t, Kid(w, Opp(d))))
    requires RotatedAt(t, Opp(d), w)
    requires forall n {:trigger n.color} :: n in t.nodes ==>
      n.color == if n == l then Black else if n == w then Red else old(n.color)
    requires forall n {:trigger n.bh} :: n in t.nodes ==> n.bh == old(n.bh)
    ensures BlackOk(t, n, x, p)
  {
    assert old(LinkOk(t, n)) && old(LinkOk(t, w)) && old(LinkOk(t, l));
    assert old(BlackOk(t, n, x, p));
    assert old(BlackOk(t, w, x, p));
    assert old(BlackOk(t, l, x, p));
    assert old(LinkOk(t, p));
    if x in old(t.nodes) { assert old(LinkOk(t, x)); }
  }

  twostate lemma NearRedRed(t: Table, new x: RBNode, new p: RBNode, new w: RBNode, new l: RBNode, new d: Dir,
                            new n: RBNode)
    requires {p, w, l, n} <= old(t.nodes) && (x in old(t.nodes) || x == t.sentinel)
    requires old(Sibling(t, x, p, w, d)) && old(w.color) == Black
    requires l == old(Kid(w, d)) && old(l.color) == Red && old(IsBlack(t, Kid(w, Opp(d))))
    requires RotatedAt(t, Opp(d), w)
    requires forall n {:trigger n.color} :: n in t.nodes ==>
      n.color == if n == l then Black else if n == w then Red else old(n.color)
    requires forall n {:trigger n.bh} :: n in t.nodes ==> n.bh == old(n.bh)
    ensures RedOk(t, n, x, x)
  {
    assert old(LinkOk(t, n)) && old(LinkOk(t, w)) && old(LinkOk(t, l));
    assert old(RedOk(t, n, x, x));
    assert old(RedOk(t, w, x, x));
    assert old(RedOk(t, l, x, x));
    assert old(LinkOk(t, p));
    if x in old(t.nodes) { assert old(LinkOk(t, x)); }
  }

  /** Case 4, black sibling whose far child f is red: one rotation absorbs the shortage. */
  twostate lemma FarRedBlack(t: Table, new x: RBNode, new p: RBNode, new w: RBNode, new f: RBNode, new d: Dir,
                             new n: RBNode)
    requires {p, w, f, n} <= old(t.nodes) && (x in old(t.nodes) || x == t.sentinel)
    requires old(Sibling(t, x, p, w, d)) && old(w.color) == Black
    requires f == old(Kid(w, Opp(d))) && old(f.color) == Red
    requires RotatedAt(t, d, p)
    requires forall n {:trigger n.color} :: n in t.nodes ==>
      n.color == if n == w then old(p.color) else if n == p || n == f then Black else old(n.color)
    requires forall n {:trigger n.bh} :: n in t.nodes ==>
      n.bh == if n == p then old(n.bh) - 1 else if n == w then old(n.bh) + 1 else old(n.bh)
    ensures BlackOk(t, n, null, null)
  {
    assert old(LinkOk(t, n)) && old(LinkOk(t, p)) && old(LinkOk(t, w)) && old(LinkOk(t, f));
    assert old(BlackOk(t, n, x, p));
    assert old(BlackOk(t, p, x, p));
    assert old(BlackOk(t, w, x, p));
    if x in old(t.nodes) { assert old(LinkOk(t, x)) && old(BlackOk(t, x, x, p)); }
  }

  twostate lemma FarRedRed(t: Table, new x: RBNode, new p: RBNode, new w: RBNode, new f: RBNode, new d: Dir,
                           new n: RBNode)
    requires {p, w, f, n} <= old(t.nodes) && (x in old(t.nodes) || x == t.sentinel)
    requires old(Sibling(t, x, p, w, d)) && old(w.color) == Black
    requires f == old(Kid(w, Opp(d))) && old(f.color) == Red
    requires RotatedAt(t, d, p)
    requires forall n {:trigger n.color} :: n in t.nodes ==>
      n.color == if n == w then old(p.color) else if n == p || n == f then Black else old(n.color)
    requires forall n {:trigger n.bh} :: n in t.nodes ==>
      n.bh == if n == p then old(n.bh) - 1 else if n == w then old(n.bh) + 1 else old(n.bh)
    ensures RedOk(t, n, null, null)
  {
    assert old(LinkOk(t, n)) && old(LinkOk(t, p)) && old(LinkOk(t, w)) && old(LinkOk(t, f));
    assert old(RedOk(t, n, x, x));
    assert old(RedOk(t, p, x, x));
    assert old(RedOk(t, w, x, x));
    if x in old(t.nodes) { assert old(LinkOk(t, x)) && old(BlackOk(t, x, x, p)); }
  }

  twostate lemma RedSiblingAll(t: Table, new x: RBNode, new p: RBNode, new w: RBNode, new d: Dir)
    requires {p, w} <= old(t.nodes) && (x in old(t.nodes) || x == t.sentinel) && old(Sibling(t, x, p, w, d))
    requires old(w.color) == Red && old(p.color) == Black
    requires Shape(t) && RotatedAt(t, d, p) && x.parent == p
    requires forall n {:trigger n.color} :: n in t.nodes ==>
      n.color == if n == w then Black else if n == p then Red else old(n.color)
    requires forall n {:trigger n.bh} :: n in t.nodes ==> n.bh == old(n.bh)
    requires old(Kid(w, d)) in old(t.nodes)
    ensures Sibling(t, x, p, Kid(p, Opp(d)), d) && IsBlack(t, Kid(p, Opp(d)))
  {
    forall n | n in t.nodes ensures BlackOk(t, n, x, p) && RedOk(t, n, x, x) {
      RedSiblingNode(t, x, p, w, d, n);
    }
    assert old(LinkOk(t, p)) && old(LinkOk(t, w)) && old(RedOk(t, w, x, x));
    assert LinkOk(t, p);
  }

  twostate lemma PassUpAll(t: Table, new x: RBNode, new p: RBNode, new w: RBNode, new d: Dir)
    requires {p, w} <= old(t.nodes) && (x in old(t.nodes) || x == t.sentinel) && old(Sibling(t, x, p, w, d))
    requires old(w.color) == Black
    requires old(IsBlack(t, w.left)) && old(IsBlack(t, w.right))
    requires SameLinks(t)
    requires forall n {:trigger n.color} :: n in t.nodes ==> n.color == if n == w then Red else old(n.color)
    requires forall n {:trigger n.bh} :: n in t.nodes ==> n.bh == if n == p then old(n.bh) - 1 else old(n.bh)
    ensures Short(t, p, p.parent)
  {
    SameShape(t);
    forall n | n in t.nodes ensures BlackOk(t, n, p, p.parent) && RedOk(t, n, p, p) {
      PassUpNode(t, x, p, w, d, n);
    }
    assert old(LinkOk(t, w));
    KidFacts(t, p);
  }

  twostate lemma NearRedAll(t: Table, new x: RBNode, new p: RBNode, new w: RBNode, new l: RBNode, new d: Dir)
    requires {p, w, l} <= old(t.nodes) && (x in old(t.nodes) || x == t.sentinel) && old(Sibling(t, x, p, w, d))
    requires old(w.color) == Black
    requires l == old(Kid(w, d)) && old(l.color) == Red && old(IsBlack(t, Kid(w, Opp(d))))
    requires Shape(t) && RotatedAt(t, Opp(d), w) && x.parent == p
    requires forall n {:trigger n.color} :: n in t.nodes ==>
      n.color == if n == l then Black else if n == w then Red else old(n.color)
    requires forall n {:trigger n.bh} :: n in t.nodes ==> n.bh == old(n.bh)
    ensures Sibling(t, x, p, l, d) && Kid(l, Opp(d)) == w
  {
    forall n | n in t.nodes ensures BlackOk(t, n, x, p) && RedOk(t, n, x, x) {
      NearRedBlack(t, x, p, w, l, d, n);
      NearRedRed(t, x, p, w, l, d, n);
    }
    assert old(LinkOk(t, p)) && old(LinkOk(t, w)) && old(LinkOk(t, l));
  }

  twostate lemma FarRedAll(t: Table, new x: RBNode, new p: RBNode, new w: RBNode, new f: RBNode, new d: Dir)
    requires {p, w, f} <= old(t.nodes) && (x in old(t.nodes) || x == t.sentinel) && old(Sibling(t, x, p, w, d))
    requires old(w.color) == Black
    requires f == old(Kid(w, Opp(d))) && old(f.color) == Red
    requires Shape(t) && RotatedAt(t, d, p)
    requires forall n {:trigger n.color} :: n in t.nodes ==>
      n.color == if n == w then old(p.color) else if n == p || n == f then Black else old(n.color)
    requires forall n {:trigger n.bh} :: n in t.nodes ==>
      n.bh == if n == p then old(n.bh) - 1 else if n == w then old(n.bh) + 1 else old(n.bh)
    ensures Short(t, t.root, t.root.parent) && RedBlack(t)
  {
    forall n | n in t.nodes ensures BlackOk(t, n, null, null) && RedOk(t, n, null, null) {
      FarRedBlack(t, x, p, w, f, d, n);
      FarRedRed(t, x, p, w, f, d, n);
    }
    assert old(LinkOk(t, p)) && old(LinkOk(t, t.root));
    assert LinkOk(t, t.root);
    forall n | n in t.nodes ensures BlackOk(t, n, t.root, t.root.parent) && RedOk(t, n, t.root, t.root) {
      assert BlackOk(t, n, null, null) && RedOk(t, n, null, null);
    }
  }

  /** How many nodes the subtree at x holds; the sentinel holds none. */
  ghost function Size(t: Table, x: RBNode): int
    reads t`nodes, t.nodes`lo, t.nodes`hi
  {
    if x in t.nodes then x.hi - x.lo else 0
  }

  method PassUp(t: Table, x: RBNode, w: RBNode, ghost d: Dir) returns (x': RBNode)
    requires x.parent in t.nodes && Sibling(t, x, x.parent, w, d) && w in t.nodes && w.color == Black
    requires IsBlack(t, w.left) && IsBlack(t, w.right)
    modifies t.nodes`color, t.nodes`bh
    ensures x' in t.nodes && Short(t, x', x'.parent) && Size(t, x') > old(Size(t, x))
    ensures t.nodes == old(t.nodes) && t.order == old(t.order)
  {
    ghost var p := x.parent;
    assert LinkOk(t, p);
    w.color := Red;
    x' := x.parent;
    p.bh := p.bh - 1;
    PassUpAll(t, x, p, w, d);
  }

  /** The branch for a shortage on the left: sibling red. */
  method RedSiblingLeft(t: Table, x: RBNode, w: RBNode)
    requires x.parent in t.nodes && Sibling(t, x, x.parent, w, L) && w in t.nodes && w.color == Red
    modifies t`root, t.nodes`left, t.nodes`right, t.nodes`parent, t.nodes`lo, t.nodes`hi, t.nodes`color
    ensures x.parent == old(x.parent) && x.parent in t.nodes && Sibling(t, x, x.parent, Kid(x.parent, Opp(L)), L)
    ensures IsBlack(t, Kid(x.parent, Opp(L))) && Size(t, x) == old(Size(t, x))
    ensures t.nodes == old(t.nodes) && t.order == old(t.order)
  {
    ghost var p := x.parent;
    SiblingFacts(t, x, p, L);
    assert LinkOk(t, p) && LinkOk(t, w);
    w.color := Black;
    x.parent.color := Red;
    SameShape(t);
    RotateLeft(t, x.parent);
    RedSiblingAll(t, x, p, w, L);
  }

  /** Near child of the sibling red, far child black. */
  method NearRedLeft(t: Table, x: RBNode, w: RBNode)
    requires x.parent in t.nodes && Sibling(t, x, x.parent, w, L) && w in t.nodes && w.color == Black
    requires w.left in t.nodes && w.left.color == Red && IsBlack(t, w.right)
    modifies t`root, t.nodes`left, t.nodes`right, t.nodes`parent, t.nodes`lo, t.nodes`hi, t.nodes`color
    ensures x.parent == old(x.parent) && x.parent in t.nodes && Sibling(t, x, x.parent, x.parent.right, L)
    ensures x.parent.right in t.nodes && x.parent.right.color == Black && x.parent.right.right == w
    ensures w.color == Red && Size(t, x) == old(Size(t, x))
    ensures t.nodes == old(t.nodes) && t.order == old(t.order)
  {
    ghost var p, l := x.parent, w.left;
    assert LinkOk(t, p) && LinkOk(t, w) && LinkOk(t, l);
    w.left.color := Black;
    w.color := Red;
    SameShape(t);
    RotateRight(t, w);
    NearRedAll(t, x, p, w, l, L);
  }

  /** Far child of the sibling red: the last step. */
  method FarRedLeft(t: Table, x: RBNode, w: RBNode)
    requires x.parent in t.nodes && Sibling(t, x, x.parent, w, L) && w in t.nodes && w.color == Black
    requires w.right in t.nodes && w.right.color == Red
    modifies t`root, t.nodes`left, t.nodes`right, t.nodes`parent, t.nodes`lo, t.nodes`hi, t.nodes`color, t.nodes`bh
    ensures Short(t, t.root, t.root.parent) && RedBlack(t) && t.root in t.nodes
    ensures t.nodes == old(t.nodes) && t.order == old(t.order)
  {
    ghost var p, f := x.parent, w.right;
    assert LinkOk(t, p) && LinkOk(t, w) && LinkOk(t, f);
    w.color := x.parent.color;
    x.parent.color := Black;
    w.right.color := Black;
    p.bh, w.bh := p.bh - 1, w.bh + 1;
    SameShape(t);
    RotateLeft(t, x.parent);
    FarRedAll(t, x, p, w, f, L);
  }

  /** The branch for a shortage on the right: sibling red. */
  method RedSiblingRight(t: Table, x: RBNode, w: RBNode)
    requires x.parent in t.nodes && Sibling(t, x, x.parent, w, R) && w in t.nodes && w.color == Red
    modifies t`root, t.nodes`left, t.nodes`right, t.nodes`parent, t.nodes`lo, t.nodes`hi, t.nodes`color
    ensures x.parent == old(x.parent) && x.parent in t.nodes && Sibling(t, x, x.parent, Kid(x.parent, Opp(R)), R)
    ensures IsBlack(t, Kid(x.parent, Opp(R))) && Size(t, x) == old(Size(t, x))
    ensures t.nodes == old(t.nodes) && t.order == old(t.order)
  {
    ghost var p := x.parent;
    SiblingFacts(t, x, p, R);
    assert LinkOk(t, p) && LinkOk(t, w);
    w.color := Black;
    x.parent.color := Red;
    SameShape(t);
    RotateRight(t, x.parent);
    RedSiblingAll(t, x, p, w, R);
  }

  /** Near child of the sibling red, far child black. */
  method NearRedRight(t: Table, x: RBNode, w: RBNode)
    requires x.parent in t.nodes && Sibling(t, x, x.parent, w, R) && w in t.nodes && w.color == Black
    requires w.right in t.nodes && w.right.color == Red && IsBlack(t, w.left)
    modifies t`root, t.nodes`left, t.nodes`right, t.nodes`parent, t.nodes`lo, t.nodes`hi, t.nodes`color
    ensures x.parent == old(x.parent) && x.parent in t.nodes && Sibling(t, x, x.parent, x.parent.left, R)
    ensures x.parent.left in t.nodes && x.parent.left.color == Black && x.parent.left.left == w
    ensures w.color == Red && Size(t, x) == old(Size(t, x))
    ensures t.nodes == old(t.nodes) && t.order == old(t.order)
  {
    ghost var p, l := x.parent, w.right;
    assert LinkOk(t, p) && LinkOk(t, w) && LinkOk(t, l);
    w.right.color := Black;
    w.color := Red;
    SameShape(t);
    RotateLeft(t, w);
    NearRedAll(t, x, p, w, l, R);
  }

  /** Far child of the sibling red: the last step. */
  method FarRedRight(t: Table, x: RBNode, w: RBNode)
    requires x.parent in t.nodes && Sibling(t, x, x.parent, w, R) && w in t.nodes && w.color == Black
    requires w.left in t.nodes && w.left.color == Red
    modifies t`root, t.nodes`left, t.nodes`right, t.nodes`parent, t.nodes`lo, t.nodes`hi, t.nodes`color, t.nodes`bh
    ensures Short(t, t.root, t.root.parent) && RedBlack(t) && t.root in t.nodes
    ensures t.nodes == old(t.nodes) && t.order == old(t.order)
  {
    ghost var p, f := x.parent, w.left;
    assert LinkOk(t, p) && LinkOk(t, w) && LinkOk(t, f);
    w.color := x.parent.color;
    x.parent.color := Black;
    w.left.color := Black;
    p.bh, w.bh := p.bh - 1, w.bh + 1;
    SameShape(t);
    RotateRight(t, x.parent);
    FarRedAll(t, x, p, w, f, R);
  }

  lemma ParentIsLarger(t: Table, x: RBNode, p: RBNode)
    requires Short(t, x, p) && x != t.root && p in t.nodes
    ensures Size(t, x) < Size(t, p) <= |t.order|
  {
    assert LinkOk(t, p);
    if x in t.nodes { assert LinkOk(t, x); }
  }

  method RepairLeft(t: Table, x0: RBNode) returns (x: RBNode)
    requires x0.parent in t.nodes && Short(t, x0, x0.parent) && x0 != t.root && IsBlack(t, x0)
    requires x0 == x0.parent.left && t.sentinel.color == Black
    modifies t`root, t.nodes`left, t.nodes`right, t.nodes`parent, t.nodes`lo, t.nodes`hi, t.nodes`color, t.nodes`bh
    ensures x in t.nodes && Short(t, x, x.parent) && Size(t, x) > old(Size(t, x0))
    ensures t.nodes == old(t.nodes) && t.order == old(t.order)
  {
    x := x0;
    SiblingFacts(t, x, x.parent, L);
    ParentIsLarger(t, x, x.parent);
    var w := x.parent.right;
    if w.color == Red {
      RedSiblingLeft(t, x, w);
      w := x.parent.right;
      SiblingFacts(t, x, x.parent, L);
    }
    if w.left.color == Black && w.right.color == Black {
      x := PassUp(t, x, w, L);
    } else {
      if w.right.color == Black {
        NearRedLeft(t, x, w);
        w := x.parent.right;
        SiblingFacts(t, x, x.parent, L);
      }
      FarRedLeft(t, x, w);
      x := t.root;
      assert LinkOk(t, x);
    }
  }

  method RepairRight(t: Table, x0: RBNode) returns (x: RBNode)
    requires x0.parent in t.nodes && Short(t, x0, x0.parent) && x0 != t.root && IsBlack(t, x0)
    requires x0 == x0.parent.right && t.sentinel.color == Black
    modifies t`root, t.nodes`left, t.nodes`right, t.nodes`parent, t.nodes`lo, t.nodes`hi, t.nodes`color, t.nodes`bh
    ensures x in t.nodes && Short(t, x, x.parent) && Size(t, x) > old(Size(t, x0))
    ensures t.nodes == old(t.nodes) && t.order == old(t.order)
  {
    x := x0;
    SiblingFacts(t, x, x.parent, R);
    ParentIsLarger(t, x, x.parent);
    var w := x.parent.left;
    if w.color == Red {
      RedSiblingRight(t, x, w);
      w := x.parent.left;
      SiblingFacts(t, x, x.parent, R);
    }
    if w.right.color == Black && w.left.color == Black {
      x := PassUp(t, x, w, R);
    } else {
      if w.left.color == Black {
        NearRedRight(t, x, w);
        w := x.parent.left;
        SiblingFacts(t, x, x.parent, R);
      }
      FarRedRight(t, x, w);
      x := t.root;
      assert LinkOk(t, x);
    }
  }

  /** Painting x black supplies the missing black node, or x is the root and nothing was missing. */
  twostate lemma FinishNode(t: Table, new x: RBNode, new p: RBNode?, new n: RBNode)
    requires n in old(t.nodes) && (x in old(t.nodes) || x == t.sentinel) && old(x.parent) == p
    requires old(Short(t, x, x.parent))
    requires x == old(t.root) || (x in old(t.nodes) && old(x.color) == Red)
    requires SameLinks(t)
    requires forall n {:trigger n.color} :: n in t.nodes ==> n.color == if n == x then Black else old(n.color)
    requires forall n {:trigger n.bh} :: n in t.nodes ==> n.bh == old(n.bh)
    ensures BlackOk(t, n, null, null) && RedOk(t, n, null, null)
  {
    assert old(LinkOk(t, n)) && old(BlackOk(t, n, x, x.parent)) && old(RedOk(t, n, x, x));
    if x in old(t.nodes) { assert old(LinkOk(t, x)) && old(BlackOk(t, x, x, x.parent)); }
  }

  method RebalanceAfterDelete(t: Table, x0: RBNode)
    requires Short(t, x0, x0.parent) && t.sentinel.color == Black
    modifies t`root, t.nodes`left, t.nodes`right, t.nodes`parent, t.nodes`lo, t.nodes`hi, t.nodes`color
    modifies t.nodes`bh, t.sentinel`color
    ensures Shape(t) && RedBlack(t) && t.sentinel.color == Black
    ensures t.nodes == old(t.nodes) && t.order == old(t.order)
  {
    var x := x0;
    while x != t.root && x.color == Black
      invariant Short(t, x, x.parent) && t.sentinel.color == Black
      invariant t.nodes == old(t.nodes) && t.order == old(t.order)
      decreases |t.order| - Size(t, x)
    {
      ParentIsLarger(t, x, x.parent);
      if x == x.parent.left {
        x := RepairLeft(t, x);
      } else {
        x := RepairRight(t, x);
      }
    }
    label Done:
    x.color := Black;
    SameShape@Done(t);
    forall n | n in t.nodes ensures BlackOk(t, n, null, null) && RedOk(t, n, null, null) {
      FinishNode@Done(t, x, x.parent, n);
    }
  }
}
