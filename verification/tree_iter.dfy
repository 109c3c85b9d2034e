/** The tree table's iterator, including removal while iterating. */
module TreeIter {
  import opened Options
  import opened Ordering
  import opened OrderedMap
  import opened TreeShape
  import opened TreeRemove
  import opened TreeTable

  class TableIter {
    const table: Table
    var current: RBNode?
    var next: RBNode

    constructor (t: Table)
      requires Valid(t)
      ensures table == t && current == t.sentinel && Valid(t) && Ready(t, next, 0)
    {
      table := t;
      current := t.sentinel;
      next := t.root;
      new;
      if t.root != t.sentinel { assert LinkOk(t, t.root); }
      var first := TreeMin(t, t.root);
      next := first;
      if first != t.sentinel { NodeEntry(t, first); }
    }
  }

  /** The iterator's next node is the one at position p, or the sentinel past the end. */
  ghost predicate Ready(t: Table, next: RBNode, p: int)
    reads t`order, t`nodes
  {
    0 <= p <= |t.order| && next == if p < |t.order| then t.order[p] else t.sentinel
  }

  method GetSuccessorNode(t: Table, x0: RBNode) returns (y: RBNode)
    requires Shape(t) && x0 in t.nodes
    ensures Ready(t, y, x0.pos + 1)
  {
    var x := x0;
    assert LinkOk(t, x);
    if x.right != t.sentinel {
      y := TreeMin(t, x.right);
      NodeEntry(t, y);
      return;
    }
    y := x.parent;
    while y != t.sentinel && x == y.right
      invariant x in t.nodes && x.hi == x0.pos + 1 && y == x.parent
      decreases |t.order| - (x.hi - x.lo)
    {
      assert LinkOk(t, y) && LinkOk(t, x);
      x := y;
      assert LinkOk(t, x);
      y := x.parent;
    }
    assert LinkOk(t, x);
    if y != t.sentinel { assert LinkOk(t, y); }
  }

  method IterNext(it: TableIter, ghost p: int) returns (entry: Option<Entry>)
    requires Valid(it.table) && Ready(it.table, it.next, p)
    modifies it`current, it`next
    ensures Valid(it.table) && Entries(it.table) == old(Entries(it.table))
    ensures it.table.nodes == old(it.table.nodes) && it.table.order == old(it.table.order)
    ensures p == |it.table.order| ==> entry == None && it.current == old(it.current) && it.next == old(it.next)
    ensures p < |it.table.order| ==>
      entry == Some(Entries(it.table)[p]) && it.current == it.table.order[p] && Ready(it.table, it.next, p + 1)
  {
    if it.next == it.table.sentinel {
      return None;
    }
    NodeEntry(it.table, it.next);
    entry := Some(Entry(it.next.key, it.next.value));
    it.current := it.next;
    it.next := GetSuccessorNode(it.table, it.next);
  }

  /** The node at p goes; the node after it, still the iterator's next, is now at p. */
  method IterRemove(it: TableIter, ghost p: int) returns (out: Option<Ptr>)
    requires Valid(it.table)
    requires it.current != null ==>
      0 <= p < |it.table.order| && it.current == it.table.order[p] && Ready(it.table, it.next, p + 1)
    modifies it`current, it.table`root, it.table`nodes, it.table`order, it.table`size, it.table.sentinel`parent
    modifies it.table.sentinel`color
    modifies it.table.nodes`left, it.table.nodes`right, it.table.nodes`parent, it.table.nodes`pos
    modifies it.table.nodes`lo, it.table.nodes`hi, it.table.nodes`color, it.table.nodes`bh
    ensures Valid(it.table) && it.current == null && it.table.nodes <= old(it.table.nodes)
    ensures old(it.current) == null ==>
      out == None && Entries(it.table) == old(Entries(it.table)) && it.table.order == old(it.table.order)
    ensures old(it.current) != null ==> out == Some(old(Entries(it.table))[p].value) && Ready(it.table, it.next, p)
    ensures old(it.current) != null ==>
      Entries(it.table) == old(Entries(it.table))[..p] + old(Entries(it.table))[p + 1..]
  {
    if it.current == null {
      return None;
    }
    NodeEntry(it.table, it.current);
    assert it.table.order[p].pos == p;
    out := Some(it.current.value);
    RemoveEntry(it.table, it.current);
    it.current := null;
  }

  /** The iterator has just returned the entry at p, or reached the end. */
  ghost predicate Standing(it: TableIter, entry: Option<Entry>, p: int)
    reads it, it.table, it.table.order
  {
    if 0 <= p < |it.table.order| then
      entry == Some(Entries(it.table)[p]) && it.current == it.table.order[p] && Ready(it.table, it.next, p + 1)
    else entry == None
  }

  /** One round of a loop that may remove the entry it has just been given. */
  method RemoveThenNext(it: TableIter, remove: bool, ghost p: int) returns (entry: Option<Entry>)
    requires Valid(it.table) && 0 <= p < |it.table.order| && Ready(it.table, it.next, p + 1)
    requires it.current == it.table.order[p]
    modifies it`current, it`next, it.table`root, it.table`nodes, it.table`order, it.table`size
    modifies it.table.sentinel`parent, it.table.sentinel`color
    modifies it.table.nodes`left, it.table.nodes`right, it.table.nodes`parent, it.table.nodes`pos
    modifies it.table.nodes`lo, it.table.nodes`hi, it.table.nodes`color, it.table.nodes`bh
    ensures Valid(it.table) && it.table.nodes <= old(it.table.nodes)
    ensures Entries(it.table)
         == var es := old(Entries(it.table)); if remove then es[..p] + es[p + 1..] else es
    ensures Standing(it, entry, if remove then p else p + 1)
  {
    if remove {
      var out := IterRemove(it, p);
    }
    entry := IterNext(it, if remove then p else p + 1);
  }
}
