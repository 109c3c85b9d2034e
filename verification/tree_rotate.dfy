/** rotate_left and rotate_right: what each pointer becomes, and that the link structure survives. */
module TreeRotate {
  import opened TreeShape

  /** The effect of a rotation at x towards d: y, the child of x on the other side, takes x's place,
      x becomes y's child on side d, and y's former child b on side d becomes x's. */
  twostate predicate Rotated(t: Table, d: Dir, x: RBNode, y: RBNode, b: RBNode)
    reads t, t.nodes
  {
    && t.nodes == old(t.nodes) && t.order == old(t.order)
    && t.root == (if old(t.root) == x then y else old(t.root))
    && (forall n {:trigger n.left} :: n in t.nodes ==>
         n.left == if d == L && n == y then x else if d == R && n == x then b
                   else if old(n.left) == x then y else old(n.left))
    && (forall n {:trigger n.right} :: n in t.nodes ==>
         n.right == if d == R && n == y then x else if d == L && n == x then b
                    else if old(n.right) == x then y else old(n.right))
    && (forall n {:trigger n.parent} :: n in t.nodes ==>
         n.parent == if n == x then y else if n == y then old(x.parent) else if n == b then x else old(n.parent))
    && (forall n {:trigger n.pos} :: n in t.nodes ==> n.pos == old(n.pos))
    && (forall n {:trigger n.lo} :: n in t.nodes ==>
         n.lo == if n == y then old(x.lo) else if n == x && d == R then old(y.pos) + 1 else old(n.lo))
    && (forall n {:trigger n.hi} :: n in t.nodes ==>
         n.hi == if n == y then old(x.hi) else if n == x && d == L then old(y.pos) else old(n.hi))
  }

  ghost function Kid(n: RBNode, d: Dir): RBNode?
    reads n
  {
    if d == L then n.left else n.right
  }

  twostate predicate RotatedAt(t: Table, d: Dir, new x: RBNode)
    reads t, t.nodes
  {
    && old(Shape(t)) && x in old(t.nodes)
    && var y := old(Kid(x, Opp(d)));
    && y != null && y in old(t.nodes)
    && var b := old(Kid(y, d));
    && b != null && Rotated(t, d, x, y, b)
  }

  twostate lemma RotatedLower(t: Table, new d: Dir, new x: RBNode, new n: RBNode)
    requires RotatedAt(t, d, x) && n in t.nodes
    ensures KidOk(t, n, n.left, n.lo, n.pos)
  {
    var y := old(Kid(x, Opp(d)));
    assert old(LinkOk(t, x)) && old(LinkOk(t, y)) && old(LinkOk(t, n));
    if old(n.left) in t.nodes { assert old(LinkOk(t, n.left)); }
    if old(y.right) in t.nodes { assert old(LinkOk(t, y.right)); }
  }

  twostate lemma RotatedUpper(t: Table, new d: Dir, new x: RBNode, new n: RBNode)
    requires RotatedAt(t, d, x) && n in t.nodes
    ensures KidOk(t, n, n.right, n.pos + 1, n.hi)
  {
    var y := old(Kid(x, Opp(d)));
    assert old(LinkOk(t, x)) && old(LinkOk(t, y)) && old(LinkOk(t, n));
    if old(n.right) in t.nodes { assert old(LinkOk(t, n.right)); }
    if old(y.left) in t.nodes { assert old(LinkOk(t, y.left)); }
  }

  twostate lemma RotatedUp(t: Table, new d: Dir, new x: RBNode, new n: RBNode)
    requires RotatedAt(t, d, x) && n in t.nodes
    ensures UpOk(t, n)
  {
    var y := old(Kid(x, Opp(d)));
    assert old(LinkOk(t, x)) && old(LinkOk(t, y)) && old(LinkOk(t, n));
    if old(n.parent) in t.nodes { assert old(LinkOk(t, n.parent)); }
  }

  twostate lemma RotatedNode(t: Table, new d: Dir, new x: RBNode, new n: RBNode)
    requires RotatedAt(t, d, x) && n in t.nodes
    ensures LinkOk(t, n)
  {
    RotatedLower(t, d, x, n);
    RotatedUpper(t, d, x, n);
    RotatedUp(t, d, x, n);
    var y := old(Kid(x, Opp(d)));
    assert old(LinkOk(t, x)) && old(LinkOk(t, y)) && old(LinkOk(t, n));
  }

  twostate lemma RotatedShape(t: Table, new d: Dir, new x: RBNode)
    requires RotatedAt(t, d, x)
    ensures Shape(t)
  {
    forall n | n in t.nodes ensures LinkOk(t, n) {
      RotatedNode(t, d, x, n);
    }
    assert old(LinkOk(t, x));
  }

  lemma LeftReady(t: Table, x: RBNode)
    requires Shape(t) && x in t.nodes && x.right in t.nodes
    ensures x.parent != null && x.right.left != null && x.right != x && x.right != x.parent && x != x.right.left
    ensures x.right.left != x.right
    ensures x.right.left != t.sentinel ==> x.right.left in t.nodes
    ensures x.parent == t.sentinel <==> x == t.root
    ensures x.parent != t.sentinel ==>
      x.parent != null && x.parent != x && x.parent in t.nodes && (x.parent.left == x) != (x.parent.right == x)
    ensures forall n :: n in t.nodes && (n.left == x || n.right == x) ==> n == x.parent
  {
    KidFacts(t, x);
    KidFacts(t, x.right);
  }

  lemma RightReady(t: Table, x: RBNode)
    requires Shape(t) && x in t.nodes && x.left in t.nodes
    ensures x.parent != null && x.left.right != null && x.left != x && x.left != x.parent && x != x.left.right
    ensures x.left.right != x.left
    ensures x.left.right != t.sentinel ==> x.left.right in t.nodes
    ensures x.parent == t.sentinel <==> x == t.root
    ensures x.parent != t.sentinel ==>
      x.parent != null && x.parent != x && x.parent in t.nodes && (x.parent.left == x) != (x.parent.right == x)
    ensures forall n :: n in t.nodes && (n.left == x || n.right == x) ==> n == x.parent
  {
    KidFacts(t, x);
    KidFacts(t, x.left);
  }

  /** Nothing about the links changed: a step that only repaints nodes. */
  twostate predicate SameLinks(t: Table)
    reads t, t.nodes
  {
    && t.nodes == old(t.nodes) && t.order == old(t.order) && t.root == old(t.root)
    && (forall n {:trigger n.left} :: n in t.nodes ==> n.left == old(n.left))
    && (forall n {:trigger n.right} :: n in t.nodes ==> n.right == old(n.right))
    && (forall n {:trigger n.parent} :: n in t.nodes ==> n.parent == old(n.parent))
    && (forall n {:trigger n.pos} :: n in t.nodes ==> n.pos == old(n.pos))
    && (forall n {:trigger n.lo} :: n in t.nodes ==> n.lo == old(n.lo))
    && (forall n {:trigger n.hi} :: n in t.nodes ==> n.hi == old(n.hi))
  }

  twostate lemma SameNode(t: Table, new n: RBNode)
    requires old(Shape(t)) && SameLinks(t) && n in t.nodes
    ensures LinkOk(t, n)
  {
    assert old(LinkOk(t, n));
  }

  twostate lemma SameShape(t: Table)
    requires old(Shape(t)) && SameLinks(t)
    ensures Shape(t)
  {
    forall n | n in t.nodes ensures LinkOk(t, n) {
      SameNode(t, n);
    }
  }

  method RotateLeft(t: Table, x: RBNode)
    requires Shape(t) && x in t.nodes && x.right in t.nodes
    modifies t`root, t.nodes`left, t.nodes`right, t.nodes`parent, t.nodes`lo, t.nodes`hi
    ensures Shape(t) && RotatedAt(t, L, x)
  {
    var y := x.right;
    ghost var b := y.left;
    LeftReady(t, x);
    x.right := y.left;
    if y.left != t.sentinel {
      y.left.parent := x;
    }
    y.parent := x.parent;
    Redirect(t, x, y);
    y.left := x;
    x.parent := y;
    y.lo, y.hi, x.hi := x.lo, x.hi, y.pos;
    assert Rotated(t, L, x, y, b);
    RotatedShape(t, L, x);
  }

  method RotateRight(t: Table, x: RBNode)
    requires Shape(t) && x in t.nodes && x.left in t.nodes
    modifies t`root, t.nodes`left, t.nodes`right, t.nodes`parent, t.nodes`lo, t.nodes`hi
    ensures Shape(t) && RotatedAt(t, R, x)
  {
    var y := x.left;
    ghost var b := y.right;
    RightReady(t, x);
    x.left := y.right;
    if y.right != t.sentinel {
      y.right.parent := x;
    }
    y.parent := x.parent;
    Redirect(t, x, y);
    y.right := x;
    x.parent := y;
    y.lo, y.hi, x.lo := x.lo, x.hi, y.pos + 1;
    assert Rotated(t, R, x, y, b);
    RotatedShape(t, R, x);
  }
}
