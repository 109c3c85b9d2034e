/** The colouring rules, node by node, and how a rotation carries them along. */
module TreeColor {
  import opened TreeShape

  /** Black nodes on a path that starts at c and leaves the tree; the sentinel counts as none. */
  ghost function Blacks(t: Table, c: RBNode?): int
    reads t`nodes, t.nodes`color, t.nodes`bh
  {
    if c == null || c !in t.nodes then 0 else c.bh + if c.color == Black then 1 else 0
  }

  ghost predicate IsBlack(t: Table, c: RBNode?)
    reads t`nodes, t.nodes`color
  {
    c != null && c in t.nodes ==> c.color == Black
  }

  /** Equal black counts on both sides of n.  The link from p to its child x may lack one black node. */
  ghost predicate BlackOk(t: Table, n: RBNode, x: RBNode?, p: RBNode?)
    requires n in t.nodes
    reads t`nodes, t.nodes`left, t.nodes`right, t.nodes`color, t.nodes`bh
  {
    && 0 <= n.bh
    && Blacks(t, n.left) + (if n == p && n.left == x then 1 else 0) == n.bh
    && Blacks(t, n.right) + (if n == p && n.right == x then 1 else 0) == n.bh
  }

  /** No red child below a red n, except that c may be red under anything and q may have red children. */
  ghost predicate RedOk(t: Table, n: RBNode, c: RBNode?, q: RBNode?)
    requires n in t.nodes
    reads t`nodes, t.nodes`left, t.nodes`right, t.nodes`color
  {
    n.color == Red && n != q ==> (IsBlack(t, n.left) || n.left == c) && (IsBlack(t, n.right) || n.right == c)
  }

  ghost predicate Blackened(t: Table, x: RBNode?, p: RBNode?)
    reads t`nodes, t.nodes`left, t.nodes`right, t.nodes`color, t.nodes`bh
  {
    forall n {:trigger BlackOk(t, n, x, p)} :: n in t.nodes ==> BlackOk(t, n, x, p)
  }

  ghost predicate Reddened(t: Table, c: RBNode?, q: RBNode?)
    reads t`nodes, t.nodes`left, t.nodes`right, t.nodes`color
  {
    forall n {:trigger RedOk(t, n, c, q)} :: n in t.nodes ==> RedOk(t, n, c, q)
  }

  /** All red-black rules. */
  ghost predicate RedBlack(t: Table)
    reads t`nodes, t`root, t.nodes`left, t.nodes`right, t.nodes`color, t.nodes`bh
  {
    Blackened(t, null, null) && Reddened(t, null, null) && IsBlack(t, t.root)
  }
}
