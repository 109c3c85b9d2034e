/** The first half of remove_node: unlinking a node, before any repainting. */
module TreeRemove {
  import opened TreeShape

  method TreeMin(t: Table, n0: RBNode) returns (n: RBNode)
    requires Shape(t) && (n0 in t.nodes || n0 == t.sentinel)
    ensures n0 == t.sentinel ==> n == t.sentinel
    ensures n0 in t.nodes ==> n in t.nodes && n.left == t.sentinel && n.lo == n0.lo == n.pos && n.hi <= n0.hi
    ensures n0 in t.nodes && n != n0 ==> n.parent in t.nodes && n.parent.left == n && n.parent != n0.parent
    ensures n0 in t.nodes && n != n0 ==> n0.lo <= n.parent.pos && n.parent.hi <= n0.hi
  {
    n := n0;
    if n == t.sentinel {
      return;
    }
    assert LinkOk(t, n);
    while n.left != t.sentinel
      invariant n in t.nodes && n.lo == n0.lo && n.hi <= n0.hi
      invariant n != n0 ==> n.parent in t.nodes && n.parent.left == n && n.parent != n0.parent
      invariant n != n0 ==> n0.lo <= n.parent.pos && n.parent.hi <= n0.hi
      decreases n.hi - n.lo
    {
      assert LinkOk(t, n) && LinkOk(t, n0);
      if n0 != t.root { assert LinkOk(t, n0.parent); }
      n := n.left;
      assert LinkOk(t, n);
    }
    assert LinkOk(t, n);
  }

  method Transplant(t: Table, u: RBNode, v: RBNode)
    requires u in t.nodes && t.sentinel !in t.nodes && (u.parent == t.sentinel <==> u == t.root)
    requires u.parent != t.sentinel ==>
      u.parent != null && u.parent in t.nodes && (u.parent.left == u) != (u.parent.right == u)
    requires forall n :: n in t.nodes && (n.left == u || n.right == u) ==> n == u.parent
    modifies t`root, t.nodes`left, t.nodes`right, v`parent
    ensures t.root == if old(t.root) == u then v else old(t.root)
    ensures forall n {:trigger n.left} :: n in t.nodes ==> n.left == if old(n.left) == u then v else old(n.left)
    ensures forall n {:trigger n.right} :: n in t.nodes ==> n.right == if old(n.right) == u then v else old(n.right)
    ensures v.parent == old(u.parent)
  {
    Redirect(t, u, v);
    v.parent := u.parent;
  }

  ghost function Down(i: int, d: int): int { if i > d then i - 1 else i }

  /** Positions after the one at d has gone. */
  ghost method CloseGap(t: Table, d: int)
    modifies t.nodes`pos, t.nodes`lo, t.nodes`hi
    ensures forall n {:trigger n.pos} :: n in t.nodes ==> n.pos == Down(old(n.pos), d)
    ensures forall n {:trigger n.lo} :: n in t.nodes ==> n.lo == Down(old(n.lo), d)
    ensures forall n {:trigger n.hi} :: n in t.nodes ==> n.hi == Down(old(n.hi), d)
  {
    forall n | n in t.nodes { n.pos := Down(n.pos, d); }
    forall n | n in t.nodes { n.lo := Down(n.lo, d); }
    forall n | n in t.nodes { n.hi := Down(n.hi, d); }
  }

  /** z had at most one child, x (or the sentinel), and x has taken its place. */
  twostate predicate Spliced(t: Table, new z: RBNode, new x: RBNode)
    requires z in old(t.nodes)
    reads t, t.nodes
  {
    && t.nodes == old(t.nodes) - {z}
    && 0 <= old(z.pos) < old(|t.order|)
    && t.order == old(t.order)[..old(z.pos)] + old(t.order)[old(z.pos) + 1..]
    && t.root == (if old(t.root) == z then x else old(t.root))
    && (forall n {:trigger n.left} :: n in t.nodes ==> n.left == if old(n.left) == z then x else old(n.left))
    && (forall n {:trigger n.right} :: n in t.nodes ==> n.right == if old(n.right) == z then x else old(n.right))
    && (forall n {:trigger n.parent} :: n in t.nodes ==> n.parent == if n == x then old(z.parent) else old(n.parent))
    && (forall n {:trigger n.pos} :: n in t.nodes ==> n.pos == Down(old(n.pos), old(z.pos)))
    && (forall n {:trigger n.lo} :: n in t.nodes ==> n.lo == Down(old(n.lo), old(z.pos)))
    && (forall n {:trigger n.hi} :: n in t.nodes ==> n.hi == Down(old(n.hi), old(z.pos)))
  }

  twostate predicate SplicedAt(t: Table, new z: RBNode, new x: RBNode)
    reads t, t.nodes
  {
    && old(Shape(t)) && z in old(t.nodes) && Spliced(t, z, x)
    && old(if z.left == t.sentinel then x == z.right else z.right == t.sentinel && x == z.left)
  }

  twostate lemma SplicedLower(t: Table, new z: RBNode, new x: RBNode, new n: RBNode)
    requires SplicedAt(t, z, x) && n in t.nodes
    ensures KidOk(t, n, n.left, n.lo, n.pos)
  {
    assert old(LinkOk(t, n)) && old(LinkOk(t, z));
    if old(n.left) in old(t.nodes) { assert old(LinkOk(t, n.left)); }
    if x in old(t.nodes) { assert old(LinkOk(t, x)); }
  }

  twostate lemma SplicedUpper(t: Table, new z: RBNode, new x: RBNode, new n: RBNode)
    requires SplicedAt(t, z, x) && n in t.nodes
    ensures KidOk(t, n, n.right, n.pos + 1, n.hi)
  {
    assert old(LinkOk(t, n)) && old(LinkOk(t, z));
    if old(n.right) in old(t.nodes) { assert old(LinkOk(t, n.right)); }
    if x in old(t.nodes) { assert old(LinkOk(t, x)); }
  }

  twostate lemma SplicedNode(t: Table, new z: RBNode, new x: RBNode, new n: RBNode)
    requires SplicedAt(t, z, x) && n in t.nodes
    ensures LinkOk(t, n)
  {
    SplicedLower(t, z, x, n);
    SplicedUpper(t, z, x, n);
    assert old(LinkOk(t, n)) && old(LinkOk(t, z));
    assert UpOk(t, n) by {
      if old(n.parent) in old(t.nodes) { assert old(LinkOk(t, n.parent)); }
      if x in old(t.nodes) { assert old(LinkOk(t, x)); }
    }
  }

  twostate lemma SplicedShape(t: Table, new z: RBNode, new x: RBNode)
    requires SplicedAt(t, z, x)
    ensures Shape(t)
  {
    forall n | n in t.nodes ensures LinkOk(t, n) {
      SplicedNode(t, z, x, n);
    }
    assert old(LinkOk(t, z));
    forall i | 0 <= i < |t.order| ensures t.order[i] in t.nodes && t.order[i].pos == i {
      var m := old(t.order)[if i < old(z.pos) then i else i + 1];
      assert t.order[i] == m && m in old(t.nodes) && old(m.pos) == if i < old(z.pos) then i else i + 1;
    }
    if t.order == [] {
      assert old(t.order[z.pos]) == z && old(t.order) == [z];
      RootOnly(t, z);
    } else {
      assert old(t.root) in old(t.nodes);
    }
  }

  twostate lemma RootOnly(t: Table, new z: RBNode)
    requires old(Shape(t)) && z in old(t.nodes)
    ensures old(|t.order|) == 1 ==> old(t.root) == z && old(z.left) == old(z.right) == t.sentinel
    ensures old(t.root) == z && old(z.left) == old(z.right) == t.sentinel ==> old(|t.order|) == 1
  {
    assert old(LinkOk(t, z)) && old(LinkOk(t, t.root));
  }

  /** remove_node when z has at most one child: that child, or the sentinel, is transplanted. */
  method SpliceOut(t: Table, z: RBNode) returns (x: RBNode)
    requires Shape(t) && z in t.nodes && (z.left == t.sentinel || z.right == t.sentinel)
    modifies t`root, t`nodes, t`order, t.nodes`left, t.nodes`right, t.nodes`parent, t.nodes`pos, t.nodes`lo
    modifies t.nodes`hi, t.sentinel`parent
    ensures SplicedAt(t, z, x) && Shape(t) && x.parent == old(z.parent)
    ensures x == old(if z.left == t.sentinel then z.right else z.left)
  {
    KidFacts(t, z);
    assert LinkOk(t, z);
    if z.left == t.sentinel {
      x := z.right;
      Transplant(t, z, z.right);
    } else {
      x := z.left;
      Transplant(t, z, z.left);
    }
    CloseGap(t, z.pos);
    t.nodes := t.nodes - {z};
    t.order := t.order[..old(z.pos)] + t.order[old(z.pos) + 1..];
    SplicedShape(t, z, x);
  }

  /** z has two children.  Its successor y, whose only child is x (or the sentinel), has been cut out and put
      in z's place; y is a node that moved, no key was copied. */
  twostate predicate Promoted(t: Table, new z: RBNode, new y: RBNode, new x: RBNode)
    requires z in old(t.nodes) && y in old(t.nodes)
    reads t, t.nodes
  {
    && t.nodes == old(t.nodes) - {z}
    && 0 <= old(z.pos) < old(|t.order|)
    && t.order == old(t.order)[..old(z.pos)] + old(t.order)[old(z.pos) + 1..]
    && t.root == (if old(t.root) == z then y else old(t.root))
    && (forall n {:trigger n.left} :: n in t.nodes ==>
         n.left == if n == y then old(z.left) else if old(n.left) == z then y
                   else if old(n.left) == y then x else old(n.left))
    && (forall n {:trigger n.right} :: n in t.nodes ==>
         n.right == if n == y then (if old(y.parent) == z then x else old(z.right))
                    else if old(n.right) == z then y else old(n.right))
    && (forall n {:trigger n.parent} :: n in t.nodes ==>
         n.parent == if n == y then old(z.parent) else if n == x then (if old(y.parent) == z then y else old(y.parent))
                     else if old(n.parent) == z then y else old(n.parent))
    && (forall n {:trigger n.pos} :: n in t.nodes ==>
         n.pos == if n == y then old(z.pos) else Down(old(n.pos), old(z.pos) + 1))
    && (forall n {:trigger n.lo} :: n in t.nodes ==>
         n.lo == if n == y then old(z.lo) else Down(old(n.lo), old(z.pos) + 1))
    && (forall n {:trigger n.hi} :: n in t.nodes ==>
         n.hi == if n == y then old(z.hi) - 1 else Down(old(n.hi), old(z.pos) + 1))
  }

  ghost predicate IsNext(t: Table, z: RBNode, y: RBNode)
    requires z in t.nodes && y in t.nodes
    reads t, t.nodes
  {
    && z.left in t.nodes && z.right in t.nodes
    && y.left == t.sentinel && y.lo == y.pos == z.pos + 1 && y.hi <= z.hi
    && (if y.parent == z then z.right == y
        else z.right != y && y.parent != null && y.parent in t.nodes && y.parent.left == y
             && z.pos < y.parent.pos && y.parent.hi <= z.hi)
  }

  twostate predicate PromotedAt(t: Table, new z: RBNode, new y: RBNode, new x: RBNode)
    reads t, t.nodes
  {
    && old(Shape(t)) && {z, y} <= old(t.nodes) && old(IsNext(t, z, y)) && x == old(y.right) && Promoted(t, z, y, x)
  }

  twostate lemma PromotedLower(t: Table, new z: RBNode, new y: RBNode, new x: RBNode, new n: RBNode)
    requires PromotedAt(t, z, y, x) && n in t.nodes
    ensures KidOk(t, n, n.left, n.lo, n.pos)
  {
    assert old(LinkOk(t, n)) && old(LinkOk(t, z)) && old(LinkOk(t, y));
    if old(n.left) in old(t.nodes) { assert old(LinkOk(t, n.left)); }
    assert old(LinkOk(t, z.left));
    if x in old(t.nodes) { assert old(LinkOk(t, x)); }
  }

  twostate lemma PromotedUpper(t: Table, new z: RBNode, new y: RBNode, new x: RBNode, new n: RBNode)
    requires PromotedAt(t, z, y, x) && n in t.nodes
    ensures KidOk(t, n, n.right, n.pos + 1, n.hi)
  {
    assert old(LinkOk(t, n)) && old(LinkOk(t, z)) && old(LinkOk(t, y));
    if old(n.right) in old(t.nodes) { assert old(LinkOk(t, n.right)); }
    assert old(LinkOk(t, z.right));
    if x in old(t.nodes) { assert old(LinkOk(t, x)); }
  }

  twostate lemma PromotedUp(t: Table, new z: RBNode, new y: RBNode, new x: RBNode, new n: RBNode)
    requires PromotedAt(t, z, y, x) && n in t.nodes
    ensures UpOk(t, n)
  {
    assert old(LinkOk(t, n)) && old(LinkOk(t, z)) && old(LinkOk(t, y));
    if old(n.parent) in old(t.nodes) { assert old(LinkOk(t, n.parent)); }
    if old(z.parent) in old(t.nodes) { assert old(LinkOk(t, z.parent)); }
    assert old(LinkOk(t, y.parent));
  }

  twostate lemma PromotedNode(t: Table, new z: RBNode, new y: RBNode, new x: RBNode, new n: RBNode)
    requires PromotedAt(t, z, y, x) && n in t.nodes
    ensures LinkOk(t, n)
  {
    PromotedLower(t, z, y, x, n);
    PromotedUpper(t, z, y, x, n);
    PromotedUp(t, z, y, x, n);
    assert old(LinkOk(t, n)) && old(LinkOk(t, z)) && old(LinkOk(t, y));
  }

  twostate lemma PromotedShape(t: Table, new z: RBNode, new y: RBNode, new x: RBNode)
    requires PromotedAt(t, z, y, x)
    ensures Shape(t)
  {
    forall n | n in t.nodes ensures LinkOk(t, n) {
      PromotedNode(t, z, y, x, n);
    }
    assert old(LinkOk(t, z)) && old(LinkOk(t, y));
    forall i | 0 <= i < |t.order| ensures t.order[i] in t.nodes && t.order[i].pos == i {
      var m := old(t.order)[if i < old(z.pos) then i else i + 1];
      assert t.order[i] == m && m in old(t.nodes) && old(m.pos) == if i < old(z.pos) then i else i + 1;
    }
  }

  lemma NextFacts(t: Table, z: RBNode, y: RBNode)
    requires Shape(t) && z in t.nodes && z.left in t.nodes && z.right in t.nodes && y in t.nodes
    requires y.left == t.sentinel && y.lo == y.pos == z.right.lo && y.hi <= z.right.hi
    requires y != z.right ==> y.parent in t.nodes && y.parent.left == y && y.parent != z
    requires y != z.right ==> z.right.lo <= y.parent.pos && y.parent.hi <= z.right.hi
    ensures IsNext(t, z, y) && y != z && y != z.left && z.left != z.right
    ensures y.right != null && y.right != y && y.right != z && y.right != z.left
    ensures y.right != t.sentinel ==> y.right in t.nodes
    ensures y.right == z.right ==> z.right == t.sentinel
  {
    assert LinkOk(t, z) && LinkOk(t, y) && LinkOk(t, z.right) && LinkOk(t, z.left);
    if y.right in t.nodes { assert LinkOk(t, y.right); }
  }

  /** Only z's own children have z for a parent. */
  lemma ParentFacts(t: Table, z: RBNode)
    requires Shape(t) && z in t.nodes
    ensures forall n {:trigger n.parent} :: n in t.nodes && n.parent == z ==> n == z.left || n == z.right
  {
    forall n | n in t.nodes && n.parent == z ensures n == z.left || n == z.right {
      assert LinkOk(t, n);
    }
  }

  ghost method Drop(t: Table, z: RBNode, y: RBNode)
    requires z in t.nodes && y in t.nodes && 0 <= z.pos < |t.order|
    modifies t`nodes, t`order, t.nodes`pos, t.nodes`lo, t.nodes`hi
    ensures t.nodes == old(t.nodes) - {z}
    ensures t.order == old(t.order)[..old(z.pos)] + old(t.order)[old(z.pos) + 1..]
    ensures forall n {:trigger n.pos} :: n in t.nodes ==>
      n.pos == if n == y then old(z.pos) else Down(old(n.pos), old(z.pos) + 1)
    ensures forall n {:trigger n.lo} :: n in t.nodes ==>
      n.lo == if n == y then old(z.lo) else Down(old(n.lo), old(z.pos) + 1)
    ensures forall n {:trigger n.hi} :: n in t.nodes ==>
      n.hi == if n == y then old(z.hi) - 1 else Down(old(n.hi), old(z.pos) + 1)
  {
    CloseGap(t, z.pos + 1);
    y.pos, y.lo, y.hi := old(z.pos), old(z.lo), old(z.hi) - 1;
    t.nodes := t.nodes - {z};
    t.order := t.order[..old(z.pos)] + t.order[old(z.pos) + 1..];
  }

  /** y has left its old place: below z, its child x knows y; deeper down, x has replaced y and y has
      adopted z's right subtree. */
  twostate predicate Detached(t: Table, new z: RBNode, new y: RBNode, new x: RBNode)
    requires z in old(t.nodes) && y in old(t.nodes)
    reads t, t.nodes
  {
    && t.nodes == old(t.nodes) && t.order == old(t.order) && t.root == old(t.root)
    && (forall n {:trigger n.left} :: n in t.nodes ==> n.left == if old(n.left) == y then x else old(n.left))
    && (forall n {:trigger n.right} :: n in t.nodes ==>
         n.right == if n == y && old(y.parent) != z then old(z.right) else old(n.right))
    && (forall n {:trigger n.parent} :: n in t.nodes ==>
         n.parent == if n == x then (if old(y.parent) == z then y else old(y.parent))
                     else if n == old(z.right) then (if old(y.parent) == z then z else y) else old(n.parent))
  }

  method DetachSuccessor(t: Table, z: RBNode, y: RBNode)
    requires Shape(t) && z in t.nodes && y in t.nodes && IsNext(t, z, y)
    requires y.right != null && (y.right != t.sentinel ==> y.right in t.nodes)
    modifies t`root, t.nodes`left, t.nodes`right, t.nodes`parent, t.sentinel`parent
    ensures Detached(t, z, y, old(y.right))
    ensures old(y.right).parent == if old(y.parent) == z then y else old(y.parent)
  {
    ghost var x := y.right;
    KidFacts(t, z);
    KidFacts(t, y);
    if y.parent == z {
      y.right.parent := y;
    } else {
      Transplant(t, y, y.right);
      y.right := z.right;
      y.right.parent := y;
    }
  }

  /** remove_node when z has two children. */
  method Promote(t: Table, z: RBNode, y: RBNode)
    requires Shape(t) && z in t.nodes && y in t.nodes && IsNext(t, z, y)
    requires y != z && y != z.left && y.right != null && y.right != y && y.right != z && y.right != z.left
    requires y.right != t.sentinel ==> y.right in t.nodes
    modifies t`root, t`nodes, t`order, t.nodes`left, t.nodes`right, t.nodes`parent, t.nodes`pos, t.nodes`lo
    modifies t.nodes`hi, t.sentinel`parent
    ensures PromotedAt(t, z, y, old(y.right)) && Shape(t)
    ensures old(y.right).parent == if old(y.parent) == z then y else old(y.parent)
  {
    ghost var x := y.right;
    KidFacts(t, z);
    KidFacts(t, y);
    ParentFacts(t, z);
    DetachSuccessor(t, z, y);
    Transplant(t, z, y);
    y.left := z.left;
    y.left.parent := y;
    Drop(t, z, y);
    PromotedShape(t, z, y, x);
  }
}
