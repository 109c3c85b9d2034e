/** The doubly linked list and its in-place merge sort, which moves nodes and never data. */
module ListSort {
  import opened Ordering
  import opened StableSort
  import opened MergeSteps

  class Node {
    var data: Ptr
    var next: Node?
    var prev: Node?
    ghost var pos: int  // index in the list
  }

  class List {
    var size: nat
    var head: Node?
    var tail: Node?
    ghost var nodes: seq<Node>
  }

  ghost predicate NodeOk(s: seq<Node>, i: int)
    requires 0 <= i < |s|
    reads s`next, s`prev, s`pos
  {
    && s[i].pos == i
    && s[i].next == (if i + 1 < |s| then s[i + 1] else null)
    && s[i].prev == (if i > 0 then s[i - 1] else null)
  }

  /** next and prev are mirror images along s, and both ends are closed. */
  ghost predicate Linked(s: seq<Node>)
    reads s`next, s`prev, s`pos
  {
    forall i {:trigger NodeOk(s, i)} :: 0 <= i < |s| ==> NodeOk(s, i)
  }

  ghost predicate Valid(l: List)
    reads l, l.nodes
  {
    && Linked(l.nodes) && l.size == |l.nodes|
    && l.head == (if l.nodes == [] then null else l.nodes[0])
    && l.tail == (if l.nodes == [] then null else l.nodes[|l.nodes| - 1])
  }

  ghost function Items(s: seq<Node>): (r: seq<Item<Node>>)
    reads s`data
    ensures |r| == |s|
    ensures forall i {:trigger r[i]} :: 0 <= i < |r| ==> r[i] == Item(s[i], s[i].data)
  {
    if s == [] then [] else [Item(s[0], s[0].data)] + Items(s[1..])
  }

  ghost function NewPos(p: int, i: int, j: int): int
  {
    if p == j then i else if i <= p < j then p + 1 else p
  }

  /** What link_behind(s[i], s[j]) does to each node. */
  twostate predicate Relinked(s: seq<Node>, new i: int, new j: int)
    requires 0 <= i < j < |s|
    reads s`next, s`prev, s`pos
  {
    && (forall k {:trigger s[k].next} :: 0 <= k < |s| ==>
         s[k].next == if k == j then s[i] else if k == j - 1 then (if j + 1 < |s| then s[j + 1] else null)
                      else if k == i - 1 then s[j] else old(s[k].next))
    && (forall k {:trigger s[k].prev} :: 0 <= k < |s| ==>
         s[k].prev == if k == j then (if i > 0 then s[i - 1] else null) else if k == i then s[j]
                      else if k == j + 1 then s[j - 1] else old(s[k].prev))
    && (forall k {:trigger s[k].pos} :: 0 <= k < |s| ==> s[k].pos == NewPos(old(s[k].pos), i, j))
  }

  twostate lemma RelinkedNode(s: seq<Node>, new i: int, new j: int, new k: int)
    requires 0 <= i < j < |s| && 0 <= k < |s| && old(Linked(s)) && Relinked(s, i, j)
    ensures NodeOk(Moved(s, i, j), k)
  {
    var r := Moved(s, i, j);
    var m := if k == i then j else if i < k <= j then k - 1 else k;
    assert old(NodeOk(s, m)) && r[k] == s[m];
  }

  method LinkBehind(base: Node, ins: Node, ghost s: seq<Node>, ghost i: int, ghost j: int)
    requires Linked(s) && 0 <= i < j < |s| && s[i] == base && s[j] == ins
    modifies s`next, s`prev, s`pos
    ensures Linked(Moved(s, i, j))
  {
    assert NodeOk(s, i) && NodeOk(s, j) && NodeOk(s, j - 1);
    assert i > 0 ==> NodeOk(s, i - 1);
    assert j + 1 < |s| ==> NodeOk(s, j + 1);
    Relink(base, ins, s, i, j);
    forall n | n in s { n.pos := NewPos(n.pos, i, j); }
    forall k | 0 <= k < |s| ensures NodeOk(Moved(s, i, j), k) {
      RelinkedNode(s, i, j, k);
    }
  }

  method Relink(base: Node, ins: Node, ghost s: seq<Node>, ghost i: int, ghost j: int)
    requires Linked(s) && 0 <= i < j < |s| && s[i] == base && s[j] == ins
    modifies s`next, s`prev
    ensures forall k {:trigger s[k].next} :: 0 <= k < |s| ==>
         s[k].next == if k == j then s[i] else if k == j - 1 then (if j + 1 < |s| then s[j + 1] else null)
                      else if k == i - 1 then s[j] else old(s[k].next)
    ensures forall k {:trigger s[k].prev} :: 0 <= k < |s| ==>
         s[k].prev == if k == j then (if i > 0 then s[i - 1] else null) else if k == i then s[j]
                      else if k == j + 1 then s[j - 1] else old(s[k].prev)
  {
    assert NodeOk(s, i) && NodeOk(s, j) && NodeOk(s, j - 1);
    assert i > 0 ==> NodeOk(s, i - 1);
    assert j + 1 < |s| ==> NodeOk(s, j + 1);
    assert forall k {:trigger s[k].pos} :: 0 <= k < |s| ==> s[k].pos == k by {
      forall k | 0 <= k < |s| ensures s[k].pos == k { assert NodeOk(s, k); }
    }
    if ins.next != null {
      ins.next.prev := ins.prev;
    }
    if ins.prev != null {
      ins.prev.next := ins.next;
    }
    if base.prev == null {
      ins.prev := null;
      ins.next := base;
      base.prev := ins;
    } else {
      ins.prev := base.prev;
      ins.prev.next := ins;
      ins.next := base;
      base.prev := ins;
    }
  }

  /** Relinking carries the items along. */
  lemma ItemsMoved(s: seq<Node>, i: int, j: int)
    requires 0 <= i < j < |s|
    ensures Items(Moved(s, i, j)) == Moved(Items(s), i, j)
  {
  }

  /** count steps along next. */
  method Advance(n: Node, count: nat, ghost s: seq<Node>, ghost i: int) returns (m: Node)
    requires Linked(s) && 0 <= i && i + count < |s| && s[i] == n
    ensures m == s[i + count]
  {
    m := n;
    var k := 0;
    while k < count
      invariant 0 <= k <= count && m == s[i + k]
    {
      assert NodeOk(s, i + k);
      m := m.next;
      k := k + 1;
    }
  }

  ghost predicate Within(s: seq<Node>, ns: set<Node>)
  {
    forall k {:trigger s[k]} :: 0 <= k < |s| ==> s[k] in ns
  }

  /** link_behind together with what it does to the items. */
  method MoveBehind(base: Node, ins: Node, ghost s0: seq<Node>, ghost ns: set<Node>, ghost i: int, ghost j: int)
    returns (ghost s: seq<Node>)
    requires Linked(s0) && Within(s0, ns) && 0 <= i < j < |s0| && s0[i] == base && s0[j] == ins
    modifies ns`next, ns`prev, ns`pos
    ensures Linked(s) && Within(s, ns) && |s| == |s0| && Items(s) == Moved(Items(s0), i, j)
    ensures s[i] == ins && s[i + 1] == base
    ensures forall k {:trigger s[k]} :: 0 <= k < i || j < k < |s| ==> s[k] == s0[k]
  {
    s := Moved(s0, i, j);
    ItemsMoved(s0, i, j);
    LinkBehind(base, ins, s0, i, j);
  }

  /** merge has sorted the run of length n at lo into m and left the rest of the list alone. */
  ghost predicate Merged(w: seq<Item<Node>>, it: seq<Item<Node>>, lo: int, m: seq<Item<Node>>)
  {
    && |it| == |w| && 0 <= lo && lo + |m| <= |it|
    && forall k {:trigger it[k]} :: 0 <= k < |it| ==> it[k] == if lo <= k < lo + |m| then m[k - lo] else w[k]
  }

  /** Two runs that are merged into m, the one right behind the other: a at lo in the items w, then b. */
  datatype Runs = Runs(w: seq<Item<Node>>, lo: int, a: seq<Item<Node>>, b: seq<Item<Node>>, m: seq<Item<Node>>) {

    /** Where the first item of a's rest stands when l and r items have been taken. */
    function LeftAt(l: int, r: int): int { lo + l + r }

    /** Where the first item of b's rest stands. */
    function RightAt(r: int): int { lo + |a| + r }

    function LastAt(): int { lo + |a| + |b| - 1 }
  }

  /** In the items `it`, l items of a and r of b have been taken. */
  ghost predicate InMerge(cmp: Comparator, g: Runs, it: seq<Item<Node>>, l: int, r: int)
  {
    IsMerge(cmp, g.a, g.b, g.m) && Taken(cmp, g.a, g.b, l, r) && Merging(g.w, it, g.lo, g.a, g.b, g.m, l, r)
  }

  lemma MergeEnds(cmp: Comparator, g: Runs, it: seq<Item<Node>>, l: int, r: int)
    requires InMerge(cmp, g, it, l, r) && (l == |g.a| || r == |g.b|)
    ensures Merged(g.w, it, g.lo, g.m)
  {
    MergeIs(cmp, g.a, g.b, g.m);
    TakeRest(cmp, g.a, g.b, l, r);
    RestInPlace(g.w, it, g.lo, g.a, g.b, g.m, l, r);
  }

  lemma RestInPlace(w: seq<Item<Node>>, it: seq<Item<Node>>, lo: int, a: seq<Item<Node>>, b: seq<Item<Node>>,
                    m: seq<Item<Node>>, l: int, r: int)
    requires Merging(w, it, lo, a, b, m, l, r) && (l == |a| || r == |b|)
    requires InTail(m, a, b, l, r)
    ensures Merged(w, it, lo, m)
  {
  }

  lemma HeadsAt(g: Runs, it: seq<Item<Node>>, l: int, r: int)
    requires Merging(g.w, it, g.lo, g.a, g.b, g.m, l, r) && l < |g.a| && r < |g.b|
    ensures 0 <= g.LeftAt(l, r) < g.RightAt(r) < |it|
    ensures it[g.LeftAt(l, r)] == g.a[l] && it[g.RightAt(r)] == g.b[r]
  {
  }

  lemma ItemAt(s: seq<Node>, i: nat)
    requires i < |s|
    ensures Items(s)[i] == Item(s[i], s[i].data)
  {
  }

  lemma HeadsOf(cmp: Comparator, g: Runs, s: seq<Node>, it: seq<Item<Node>>, l: int, r: int)
    requires it == Items(s) && InMerge(cmp, g, it, l, r) && l < |g.a| && r < |g.b|
    ensures 0 <= g.LeftAt(l, r) < g.RightAt(r) < |s|
    ensures s[g.LeftAt(l, r)].data == g.a[l].data && s[g.RightAt(r)].data == g.b[r].data
  {
    HeadsAt(g, it, l, r);
    ItemAt(s, g.LeftAt(l, r));
    ItemAt(s, g.RightAt(r));
  }

  lemma GoesLeft(cmp: Comparator, g: Runs, it: seq<Item<Node>>, l: int, r: int)
    requires InMerge(cmp, g, it, l, r) && l < |g.a| && r < |g.b| && cmp(g.a[l].data, g.b[r].data) <= 0
    ensures InMerge(cmp, g, it, l + 1, r)
  {
    MergeIs(cmp, g.a, g.b, g.m);
    TakeLeft(cmp, g.a, g.b, l, r);
    MergingStays(g.w, it, g.lo, g.a, g.b, g.m, l, r);
  }

  lemma GoesRight(cmp: Comparator, g: Runs, it: seq<Item<Node>>, l: int, r: int)
    requires InMerge(cmp, g, it, l, r) && l < |g.a| && r < |g.b| && cmp(g.a[l].data, g.b[r].data) > 0
    ensures InMerge(cmp, g, Moved(it, g.LeftAt(l, r), g.RightAt(r)), l, r + 1)
  {
    MergeIs(cmp, g.a, g.b, g.m);
    TakeRight(cmp, g.a, g.b, l, r);
    MergingMoved(g.w, it, g.lo, g.a, g.b, g.m, l, r);
  }

  /** The list is in order, and its items are as far merged as this. */
  ghost predicate Midway(cmp: Comparator, ns: set<Node>, s: seq<Node>, g: Runs, l: int, r: int)
    reads s`data, s`next, s`prev, s`pos
  {
    Linked(s) && Within(s, ns) && InMerge(cmp, g, Items(s), l, r) && g.a != []
  }

  /** The state of merge's loop: the pointers stand where they should. */
  ghost predicate Turning(cmp: Comparator, ns: set<Node>, s: seq<Node>, g: Runs, l: int, r: int,
                          left: Node, right: Node, lPart: Node, rPart: Node)
    reads s`data, s`next, s`prev, s`pos
  {
    && Midway(cmp, ns, s, g, l, r) && l <= |g.a| && r < |g.b|
    && left == s[g.lo] && lPart == s[g.LeftAt(l, r)] && rPart == s[g.RightAt(r)]
    && (l + r == 0 ==> right == s[g.RightAt(0)])
  }

  /** The run is merged and its ends are known. */
  ghost predicate Turned(cmp: Comparator, ns: set<Node>, s: seq<Node>, g: Runs, left: Node, right: Node)
    reads s`data, s`next, s`prev, s`pos
  {
    && Linked(s) && Within(s, ns) && Merged(g.w, Items(s), g.lo, g.m) && |g.m| == |g.a| + |g.b| && g.a != []
    && left == s[g.lo] && right == s[g.LastAt()]
  }

  lemma RightNext(cmp: Comparator, g: Runs, s: seq<Node>, it: seq<Item<Node>>, l: int, r: int)
    requires it == Items(s) && InMerge(cmp, g, it, l, r) && 0 <= l < |g.a| && 0 <= r < |g.b|
    requires cmp(s[g.LeftAt(l, r)].data, s[g.RightAt(r)].data) > 0
    ensures 0 <= g.LeftAt(l, r) < g.RightAt(r) < |s|
    ensures InMerge(cmp, g, Moved(it, g.LeftAt(l, r), g.RightAt(r)), l, r + 1)
  {
    HeadsOf(cmp, g, s, it, l, r);
    GoesRight(cmp, g, it, l, r);
  }

  /** The node at j moves to i, and tmp is the one behind it. */
  method PullRight(lPart: Node, rPart: Node, ghost s0: seq<Node>, ghost ns: set<Node>, ghost i: int, ghost j: int)
    returns (tmp: Node?, ghost s: seq<Node>)
    requires Linked(s0) && Within(s0, ns) && 0 <= i < j < |s0| && s0[i] == lPart && s0[j] == rPart
    modifies ns`next, ns`prev, ns`pos
    ensures Linked(s) && Within(s, ns) && |s| == |s0| && Items(s) == Moved(Items(s0), i, j)
    ensures s[i] == rPart && s[i + 1] == lPart && tmp == if j + 1 < |s| then s[j + 1] else null
    ensures forall k {:trigger s[k]} :: 0 <= k < i ==> s[k] == s0[k]
  {
    assert NodeOk(s0, j);
    tmp := rPart.next;
    s := MoveBehind(lPart, rPart, s0, ns, i, j);
  }

  /** Taking the right run's head. */
  method GoRight(cmp: Comparator, left: Node, right: Node, lPart: Node, rPart: Node, ghost ns: set<Node>,
                 ghost s0: seq<Node>, ghost g: Runs, ghost l: int, ghost r: int)
    returns (tmp: Node?, ghost s: seq<Node>)
    requires Turning(cmp, ns, s0, g, l, r, left, right, lPart, rPart) && l < |g.a|
    requires cmp(lPart.data, rPart.data) > 0
    modifies ns`next, ns`prev, ns`pos
    ensures Midway(cmp, ns, s, g, l, r + 1)
    ensures lPart == s[g.LeftAt(l, r + 1)] && s[g.lo] == (if l + r == 0 then rPart else left)
    ensures r + 1 < |g.b| ==> tmp == s[g.RightAt(r + 1)]
  {
    RightNext(cmp, g, s0, Items(s0), l, r);
    tmp, s := PullRight(lPart, rPart, s0, ns, g.LeftAt(l, r), g.RightAt(r));
  }

  /** One run is used up: walk n to the last node of the merged run. */
  method Finish(cmp: Comparator, left: Node, n: Node, count: nat, ghost ns: set<Node>, ghost s: seq<Node>,
                ghost g: Runs, ghost l: int, ghost r: int)
    returns (right: Node)
    requires Midway(cmp, ns, s, g, l, r) && (l == |g.a| || r == |g.b|)
    requires left == s[g.lo] && g.LastAt() - count >= 0 && n == s[g.LastAt() - count]
    ensures Turned(cmp, ns, s, g, left, right)
  {
    right := Advance(n, count, s, g.LastAt() - count);
    MergeEnds(cmp, g, Items(s), l, r);
  }

  /** merge's branch for cmp(l_part, r_part) <= 0, up to its two ways out. */
  method LeftTurn(cmp: Comparator, left: Node, right0: Node, lPart: Node, rPart: Node, ls: nat, rs: nat, l: nat, r: nat,
                  ghost ns: set<Node>, ghost s: seq<Node>, ghost g: Runs)
    returns (done: bool, next: Node, right: Node)
    requires Turning(cmp, ns, s, g, l, r, left, right0, lPart, rPart) && |g.a| == ls && |g.b| == rs
    requires cmp(lPart.data, rPart.data) <= 0
    ensures done ==> Turned(cmp, ns, s, g, left, right)
    ensures !done ==> Turning(cmp, ns, s, g, l + 1, r, left, right, next, rPart)
  {
    done, next, right := true, lPart, right0;
    if l + r == 0 && ls + rs == 2 {
      HeadsOf(cmp, g, s, Items(s), l, r);
      GoesLeft(cmp, g, Items(s), l, r);
      right := Finish(cmp, left, right, 0, ns, s, g, 1, 0);
    } else if l == ls {
      right := Finish(cmp, left, rPart, rs - 1 - r, ns, s, g, l, r);
    } else {
      HeadsOf(cmp, g, s, Items(s), l, r);
      GoesLeft(cmp, g, Items(s), l, r);
      assert NodeOk(s, g.LeftAt(l, r));
      next := lPart.next;
      done := false;
    }
  }

  /** The two ways out of merge's branch for cmp(l_part, r_part) > 0. */
  method RightEnds(cmp: Comparator, left0: Node, lPart: Node, rPart: Node, ls: nat, rs: nat, l: nat, r: nat,
                   ghost ns: set<Node>, ghost s: seq<Node>, ghost g: Runs)
    returns (left: Node, right: Node)
    requires Midway(cmp, ns, s, g, l, r + 1) && l < |g.a| == ls <= |g.b| == rs == r + 1
    requires lPart == s[g.LeftAt(l, r + 1)] && s[g.lo] == if l + r == 0 then rPart else left0
    ensures Turned(cmp, ns, s, g, left, right)
  {
    left := left0;
    if l + r == 0 && ls + rs == 2 {
      right := lPart;
      left := rPart;
      right := Finish(cmp, left, right, 0, ns, s, g, 0, 1);
    } else {
      right := Finish(cmp, left, lPart, ls - 1 - l, ns, s, g, l, r + 1);
    }
  }

  /** merge's branch for cmp(l_part, r_part) > 0. */
  method RightTurn(cmp: Comparator, left0: Node, right0: Node, lPart: Node, rPart: Node, ls: nat, rs: nat, l: nat,
                   r: nat, ghost ns: set<Node>, ghost s0: seq<Node>, ghost g: Runs)
    returns (done: bool, next: Node, left: Node, right: Node, ghost s: seq<Node>)
    requires Turning(cmp, ns, s0, g, l, r, left0, right0, lPart, rPart)
    requires l < |g.a| == ls <= |g.b| == rs && cmp(lPart.data, rPart.data) > 0
    modifies ns`next, ns`prev, ns`pos
    ensures done ==> Turned(cmp, ns, s, g, left, right)
    ensures !done ==> Turning(cmp, ns, s, g, l, r + 1, left, right, lPart, next)
  {
    done, left, right, next := true, left0, right0, rPart;
    var tmp: Node?;
    tmp, s := GoRight(cmp, left, right, lPart, rPart, ns, s0, g, l, r);
    if (l + r == 0 && ls + rs == 2) || r + 1 == rs {
      left, right := RightEnds(cmp, left, lPart, rPart, ls, rs, l, r, ns, s, g);
    } else {
      if l + r == 0 {
        left := rPart;
      }
      next := tmp;
      done := false;
    }
  }

  method MergeRuns(cmp: Comparator, left0: Node, right0: Node, ls: nat, rs: nat, ghost ns: set<Node>,
                   ghost s0: seq<Node>, ghost g: Runs)
    returns (left: Node, right: Node, ghost s: seq<Node>)
    requires TotalPreorder(cmp) && Linked(s0) && Within(s0, ns) && g.w == Items(s0) && InMerge(cmp, g, g.w, 0, 0)
    requires 0 < ls == |g.a| <= |g.b| == rs
    requires left0 == s0[g.lo] && right0 == s0[g.RightAt(0)]
    modifies ns`next, ns`prev, ns`pos
    ensures Turned(cmp, ns, s, g, left, right)
  {
    var l, r, done := 0, 0, false;
    var lPart := left0;
    var rPart := right0;
    left, right, s := left0, right0, s0;
    while !done
      invariant 0 <= l <= ls && 0 <= r <= rs
      invariant !done ==> Turning(cmp, ns, s, g, l, r, left, right, lPart, rPart)
      invariant done ==> Turned(cmp, ns, s, g, left, right)
      decreases ls + rs - l - r + if done then 0 else 1
    {
      var next: Node;
      var c := cmp(lPart.data, rPart.data);
      if c <= 0 {
        done, next, right := LeftTurn(cmp, left, right, lPart, rPart, ls, rs, l, r, ns, s, g);
        if !done {
          lPart := next;
          l := l + 1;
        }
      } else {
        assert l < ls by { Flip(cmp, lPart.data, lPart.data); }
        done, next, left, right, s := RightTurn(cmp, left, right, lPart, rPart, ls, rs, l, r, ns, s, g);
        if !done {
          rPart := next;
          r := r + 1;
        }
      }
    }
  }

  /** run stands at lo in w. */
  ghost predicate At(w: seq<Item<Node>>, lo: int, run: seq<Item<Node>>)
  {
    0 <= lo && lo + |run| <= |w| && forall k {:trigger run[k]} :: 0 <= k < |run| ==> w[lo + k] == run[k]
  }

  lemma HalvesAt(w: seq<Item<Node>>, lo: int, run: seq<Item<Node>>, ls: nat)
    requires At(w, lo, run) && ls <= |run|
    ensures At(w, lo, run[..ls]) && At(w, lo + ls, run[ls..])
  {
  }

  lemma RightUntouched(w: seq<Item<Node>>, w1: seq<Item<Node>>, lo: int, m: seq<Item<Node>>, run: seq<Item<Node>>)
    requires Merged(w, w1, lo, m) && At(w, lo + |m|, run)
    ensures At(w1, lo + |m|, run)
  {
    forall k | 0 <= k < |run| ensures w1[lo + |m| + k] == run[k] {
      assert w[lo + |m| + k] == run[k];
    }
  }

  /** With both halves sorted in place the merge can start. */
  lemma HalvesReady(w: seq<Item<Node>>, w1: seq<Item<Node>>, w2: seq<Item<Node>>, lo: int, mid: int,
                    a: seq<Item<Node>>, b: seq<Item<Node>>, m: seq<Item<Node>>)
    requires mid == lo + |a| && Merged(w, w1, lo, a) && Merged(w1, w2, mid, b) && |m| == |a| + |b| && a != []
    ensures Merging(w2, w2, lo, a, b, m, 0, 0)
  {
  }

  lemma MergedThrice(w: seq<Item<Node>>, w1: seq<Item<Node>>, w2: seq<Item<Node>>, w3: seq<Item<Node>>, lo: int,
                     mid: int, a: seq<Item<Node>>, b: seq<Item<Node>>, m: seq<Item<Node>>)
    requires mid == lo + |a| && Merged(w, w1, lo, a) && Merged(w1, w2, mid, b) && Merged(w2, w3, lo, m)
    requires |m| == |a| + |b|
    ensures Merged(w, w3, lo, m)
  {
  }

  /** The run at lo has been sorted into m. */
  ghost predicate RunSorted(ns: set<Node>, s: seq<Node>, w: seq<Item<Node>>, w': seq<Item<Node>>, lo: int,
                            m: seq<Item<Node>>)
    reads s`data, s`next, s`prev, s`pos
  {
    Linked(s) && Within(s, ns) && w' == Items(s) && Merged(w, w', lo, m)
  }

  /** Run a has been sorted in place, which gave the items w1; run b, right behind it, too. */
  ghost predicate HalvesSorted(ns: set<Node>, s: seq<Node>, w: seq<Item<Node>>, w1: seq<Item<Node>>, g: Runs)
    reads s`data, s`next, s`prev, s`pos
  {
    Merged(w, w1, g.lo, g.a) && RunSorted(ns, s, w1, g.w, g.lo + |g.a|, g.b)
  }

  /** The second half of split: merge the two sorted halves and note the new ends. */
  method JoinHalves(l: List, lHead: Node, rHead: Node, lSize: nat, rSize: nat, cmp: Comparator, ghost ns: set<Node>,
                    ghost s2: seq<Node>, ghost w: seq<Item<Node>>, ghost w1: seq<Item<Node>>, ghost g: Runs)
    returns (ghost s: seq<Node>, ghost w': seq<Item<Node>>)
    requires TotalPreorder(cmp) && |g.a| == lSize && |g.b| == rSize && 0 < lSize <= rSize && IsMerge(cmp, g.a, g.b, g.m)
    requires HalvesSorted(ns, s2, w, w1, g) && lHead == s2[g.lo] && rHead == s2[g.RightAt(0)]
    modifies l`head, l`tail, ns`next, ns`prev, ns`pos
    ensures RunSorted(ns, s, w, w', g.lo, g.m)
    ensures l.head == s[g.lo] && l.tail == s[g.LastAt()]
  {
    HalvesReady(w, w1, g.w, g.lo, g.lo + lSize, g.a, g.b, g.m);
    TakeFirst(cmp, g.a, g.b);
    var lh, rh;
    lh, rh, s := MergeRuns(cmp, lHead, rHead, lSize, rSize, ns, s2, g);
    w' := Items(s);
    MergedThrice(w, w1, g.w, w', g.lo, g.lo + lSize, g.a, g.b, g.m);
    l.head := lh;
    l.tail := rh;
  }

  /** split: sorts the nodes of `run`, which start at b, into m. */
  method Split(l: List, b: Node?, size: nat, cmp: Comparator, ghost ns: set<Node>, ghost s0: seq<Node>,
               ghost w: seq<Item<Node>>, ghost lo: int, ghost run: seq<Item<Node>>)
    returns (first: Node?, ghost s: seq<Node>, ghost w': seq<Item<Node>>, ghost m: seq<Item<Node>>)
    requires TotalPreorder(cmp) && Linked(s0) && Within(s0, ns) && w == Items(s0) && At(w, lo, run)
    requires |run| == size && (size > 0 ==> b == s0[lo])
    modifies l`head, l`tail, ns`next, ns`prev, ns`pos
    ensures IsSort(cmp, run, m) && RunSorted(ns, s, w, w', lo, m)
    ensures if size > 0 then first == s[lo] else first == b
    ensures size < 2 ==> s == s0 && l.head == old(l.head) && l.tail == old(l.tail)
    ensures size >= 2 ==> l.head == s[lo] && l.tail == s[lo + size - 1]
    decreases size, 1
  {
    if size < 2 {
      SortOfShort(cmp, run);
      return b, s0, w, run;
    }
    var lSize := size / 2;
    var rSize := size / 2 + size % 2;
    HalvesAt(w, lo, run, lSize);
    var lHead, rHead;
    ghost var s2, w1, g;
    lHead, rHead, s2, w1, g := SortHalves(l, b, lSize, rSize, cmp, ns, s0, w, lo, run[..lSize], run[lSize..]);
    s, w' := JoinHalves(l, lHead, rHead, lSize, rSize, cmp, ns, s2, w, w1, g);
    m := g.m;
    SortOfHalves(cmp, run, lSize, g.a, g.b, m);
    first := l.head;
  }

  /** The two calls of split inside split. */
  method SortHalves(l: List, b: Node, lSize: nat, rSize: nat, cmp: Comparator, ghost ns: set<Node>,
                    ghost s0: seq<Node>, ghost w: seq<Item<Node>>, ghost lo: int, ghost front: seq<Item<Node>>,
                    ghost back: seq<Item<Node>>)
    returns (lHead: Node, rHead: Node, ghost s2: seq<Node>, ghost w1: seq<Item<Node>>, ghost g: Runs)
    requires TotalPreorder(cmp) && Linked(s0) && Within(s0, ns) && w == Items(s0)
    requires At(w, lo, front) && At(w, lo + lSize, back) && |front| == lSize > 0 && |back| == rSize > 0
    requires b == s0[lo]
    modifies l`head, l`tail, ns`next, ns`prev, ns`pos
    ensures IsSort(cmp, front, g.a) && IsSort(cmp, back, g.b) && IsMerge(cmp, g.a, g.b, g.m)
    ensures g.lo == lo && HalvesSorted(ns, s2, w, w1, g) && lHead == s2[lo] && rHead == s2[lo + lSize]
    decreases lSize + rSize, 0
  {
    ghost var mid := lo + lSize;
    ghost var s1, w2, a, b';
    var center := Advance(b, lSize, s0, lo);
    var lh, rh;
    lh, s1, w1, a := Split(l, b, lSize, cmp, ns, s0, w, lo, front);
    assert At(w1, mid, back) by { RightUntouched(w, w1, lo, a, back); }
    assert s1[mid] == s0[mid] by { assert w1[mid] == w[mid]; }
    rh, s2, w2, b' := Split(l, center, rSize, cmp, ns, s1, w1, mid, back);
    assert s2[lo] == s1[lo] by { assert w2[lo] == w1[lo]; }
    ghost var m := TheMerge(cmp, a, b');
    lHead, rHead, g := lh, rh, Runs(w2, lo, a, b', m);
  }

  lemma ItemNodes(s: seq<Node>)
    ensures NodesOf(Items(s)) == s
  {
  }

  /** The run was the whole list. */
  lemma WholeSorted(cmp: Comparator, w: seq<Item<Node>>, w': seq<Item<Node>>, m: seq<Item<Node>>)
    requires Merged(w, w', 0, m) && IsSort(cmp, w, m)
    ensures w' == MergeSort(cmp, w) && multiset(NodesOf(w')) == multiset(NodesOf(w))
  {
    assert w' == m;
    SortIs(cmp, w, m);
    MergeSortKeepsNodes(cmp, w);
  }

  /** The call of split on the whole list. */
  method SortNodes(l: List, cmp: Comparator, ghost s0: seq<Node>, ghost ns: set<Node>) returns (ghost s: seq<Node>)
    requires TotalPreorder(cmp) && Linked(s0) && Within(s0, ns) && l.size == |s0|
    requires l.head == (if s0 == [] then null else s0[0])
    modifies l`head, l`tail, ns`next, ns`prev, ns`pos
    ensures Linked(s) && |s| == |s0| && multiset(s) == multiset(s0)
    ensures Items(s) == MergeSort(cmp, old(Items(s0)))
    ensures |s0| < 2 ==> s == s0 && l.head == old(l.head) && l.tail == old(l.tail)
    ensures |s0| >= 2 ==> l.head == s[0] && l.tail == s[|s| - 1]
  {
    ghost var w := Items(s0);
    ItemNodes(s0);
    var first: Node?;
    ghost var w', m;
    first, s, w', m := Split(l, l.head, l.size, cmp, ns, s0, w, 0, w);
    WholeSorted(cmp, w, w', m);
    ItemNodes(s);
  }

  /** cc_list_sort_in_place: only links change, and they come out as the one sorted stable rearrangement. */
  method SortInPlace(l: List, cmp: Comparator)
    requires Valid(l) && TotalPreorder(cmp)
    modifies l`head, l`tail, l`nodes, l.nodes`next, l.nodes`prev, l.nodes`pos
    ensures Valid(l) && multiset(l.nodes) == multiset(old(l.nodes))
    ensures Items(l.nodes) == MergeSort(cmp, old(Items(l.nodes)))
    ensures Sorted(cmp, Items(l.nodes)) && Stable(cmp, Items(l.nodes), old(Items(l.nodes)))
  {
    ghost var w := Items(l.nodes);
    ghost var s := SortNodes(l, cmp, l.nodes, set n | n in l.nodes);
    l.nodes := s;
    ghost var m := Items(l.nodes);
    assert m == MergeSort(cmp, w);
    assert Valid(l);
    assert Sorted(cmp, m) && Stable(cmp, m, w) by { MergeSortCorrect(cmp, w); }
  }

  /** What a valid sorted list is, from its fields alone. */
  lemma SortedList(l: List, cmp: Comparator, i: nat, j: nat)
    requires Valid(l) && Sorted(cmp, Items(l.nodes)) && i < j < |l.nodes|
    ensures cmp(l.nodes[i].data, l.nodes[j].data) <= 0
    ensures l.nodes[i].next == l.nodes[i + 1] && l.nodes[i + 1].prev == l.nodes[i]
    ensures l.head == l.nodes[0] && l.head.prev == null && l.size == |l.nodes|
    ensures l.tail == l.nodes[|l.nodes| - 1] && l.tail.next == null
  {
    var m := Items(l.nodes);
    assert m[i].data == l.nodes[i].data && m[j].data == l.nodes[j].data;
    assert NodeOk(l.nodes, i) && NodeOk(l.nodes, i + 1) && NodeOk(l.nodes, 0) && NodeOk(l.nodes, |l.nodes| - 1);
  }
}
