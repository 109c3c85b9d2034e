/** Whole runs of the tree table: any sequence of operations, and iteration with arbitrary removals. */
module TreeRuns {
  import opened Options
  import opened Ordering
  import opened OrderedMap
  import opened TreeShape
  import opened TreeTable
  import opened TreeAdd
  import opened TreeIter

  datatype Op = AddOp(key: Ptr, value: Ptr) | RemoveOp(key: Ptr) | GetOp(key: Ptr)

  /** One operation on the map, and what it answers. */
  function Applied(cmp: Comparator, es: seq<Entry>, op: Op): seq<Entry>
  {
    match op
    case AddOp(k, v) => Put(cmp, es, k, v)
    case RemoveOp(k) => Del(cmp, es, k)
    case GetOp(_) => es
  }

  function Answer(cmp: Comparator, es: seq<Entry>, op: Op): Option<Ptr>
  {
    if op.AddOp? then None else Find(cmp, es, op.key)
  }

  /** The map after a run, and the answers along it. */
  function Replayed(cmp: Comparator, es: seq<Entry>, ops: seq<Op>): seq<Entry>
  {
    if ops == [] then es else Applied(cmp, Replayed(cmp, es, ops[..|ops| - 1]), ops[|ops| - 1])
  }

  function Answers(cmp: Comparator, es: seq<Entry>, ops: seq<Op>): seq<Option<Ptr>>
  {
    if ops == [] then []
    else Answers(cmp, es, ops[..|ops| - 1]) + [Answer(cmp, Replayed(cmp, es, ops[..|ops| - 1]), ops[|ops| - 1])]
  }

  lemma ReplayStep(cmp: Comparator, es: seq<Entry>, ops: seq<Op>, i: nat)
    requires i < |ops|
    ensures Replayed(cmp, es, ops[..i + 1]) == Applied(cmp, Replayed(cmp, es, ops[..i]), ops[i])
    ensures Answers(cmp, es, ops[..i + 1]) ==
            Answers(cmp, es, ops[..i]) + [Answer(cmp, Replayed(cmp, es, ops[..i]), ops[i])]
  {
    assert ops[..i + 1][..i] == ops[..i];
  }

  method Perform(t: Table, op: Op) returns (out: Option<Ptr>)
    requires Valid(t)
    modifies t, t.nodes, t.sentinel
    ensures Valid(t) && fresh(t.nodes - old(t.nodes))
    ensures Entries(t) == Applied(t.cmp, old(Entries(t)), op)
    ensures out == Answer(t.cmp, old(Entries(t)), op)
  {
    out := None;
    match op
    case AddOp(k, v) => Add(t, k, v);
    case RemoveOp(k) => out := Remove(t, k);
    case GetOp(k) => out := Get(t, k);
  }

  /** cc_treetable_new: where a run begins. */
  method NewTable(cmp: Comparator) returns (t: Table)
    requires TotalPreorder(cmp)
    ensures fresh(t) && fresh(t.sentinel) && t.cmp == cmp && Valid(t) && Entries(t) == []
  {
    t := new Table(cmp);
  }

  /** Over every sequence of operations the table is the map and answers like it. */
  method Replay(t: Table, ops: seq<Op>) returns (answers: seq<Option<Ptr>>)
    requires Valid(t)
    modifies t, t.nodes, t.sentinel
    ensures Valid(t)
    ensures Entries(t) == Replayed(t.cmp, old(Entries(t)), ops)
    ensures answers == Answers(t.cmp, old(Entries(t)), ops)
  {
    ghost var es := Entries(t);
    answers := [];
    var i := 0;
    while i < |ops|
      invariant 0 <= i <= |ops| && Valid(t) && fresh(t.nodes - old(t.nodes))
      invariant Entries(t) == Replayed(t.cmp, es, ops[..i])
      invariant answers == Answers(t.cmp, es, ops[..i])
    {
      ReplayStep(t.cmp, es, ops, i);
      var out := Perform(t, ops[i]);
      answers := answers + [out];
      i := i + 1;
    }
    assert ops[..i] == ops;
  }

  // ---- what a run answers, told without the map ----

  lemma {:induction false} AnswersAt(cmp: Comparator, es: seq<Entry>, ops: seq<Op>, k: nat)
    requires k < |ops|
    ensures |Answers(cmp, es, ops)| == |ops|
    ensures Answers(cmp, es, ops)[k] == Answer(cmp, Replayed(cmp, es, ops[..k]), ops[k])
  {
    var last := |ops| - 1;
    AnswersCount(cmp, es, ops);
    AnswersCount(cmp, es, ops[..last]);
    if k < last {
      AnswersAt(cmp, es, ops[..last], k);
      assert ops[..last][..k] == ops[..k];
    }
  }

  lemma {:induction false} AnswersCount(cmp: Comparator, es: seq<Entry>, ops: seq<Op>)
    ensures |Answers(cmp, es, ops)| == |ops|
  {
    if ops != [] { AnswersCount(cmp, es, ops[..|ops| - 1]); }
  }

  lemma {:induction false} ReplayedAscends(cmp: Comparator, es: seq<Entry>, ops: seq<Op>)
    requires TotalPreorder(cmp) && Ascending(cmp, es)
    ensures Ascending(cmp, Replayed(cmp, es, ops))
  {
    if ops != [] {
      var before, op := ops[..|ops| - 1], ops[|ops| - 1];
      ReplayedAscends(cmp, es, before);
      if op.AddOp? { PutAscending(cmp, Replayed(cmp, es, before), op.key, op.value); }
      if op.RemoveOp? { DelAscending(cmp, Replayed(cmp, es, before), op.key); }
    }
  }

  /** Operations on other keys leave the answer for q as it was. */
  lemma {:induction false} StaysSo(cmp: Comparator, es: seq<Entry>, ops: seq<Op>, q: Ptr, i: nat, j: nat)
    requires TotalPreorder(cmp) && Ascending(cmp, es) && i < j <= |ops|
    requires forall k :: i < k < j ==> ops[k].GetOp? || cmp(q, ops[k].key) != 0
    ensures Find(cmp, Replayed(cmp, es, ops[..j]), q) == Find(cmp, Replayed(cmp, es, ops[..i + 1]), q)
    decreases j
  {
    if i + 1 < j {
      StaysSo(cmp, es, ops, q, i, j - 1);
      ReplayStep(cmp, es, ops, j - 1);
      ReplayedAscends(cmp, es, ops[..j - 1]);
      var b, op := Replayed(cmp, es, ops[..j - 1]), ops[j - 1];
      if op.AddOp? { FindAfterPut(cmp, b, op.key, op.value, q); }
      if op.RemoveOp? { FindAfterDel(cmp, b, op.key, q); }
    }
  }

  /** A get, or a remove, is answered with what the last add of an equal key stored. */
  lemma LastAddWins(cmp: Comparator, es: seq<Entry>, ops: seq<Op>, i: nat, j: nat)
    requires TotalPreorder(cmp) && Ascending(cmp, es)
    requires i < j < |ops| && ops[i].AddOp? && (ops[j].GetOp? || ops[j].RemoveOp?) && cmp(ops[j].key, ops[i].key) == 0
    requires forall k :: i < k < j ==> ops[k].GetOp? || cmp(ops[j].key, ops[k].key) != 0
    ensures |Answers(cmp, es, ops)| == |ops| && Answers(cmp, es, ops)[j] == Some(ops[i].value)
  {
    AnswersAt(cmp, es, ops, j);
    StaysSo(cmp, es, ops, ops[j].key, i, j);
    ReplayStep(cmp, es, ops, i);
    ReplayedAscends(cmp, es, ops[..i]);
    FindAfterPut(cmp, Replayed(cmp, es, ops[..i]), ops[i].key, ops[i].value, ops[j].key);
  }

  /** After a removal of an equal key a get finds nothing, until one is added again. */
  lemma RemovedIsGone(cmp: Comparator, es: seq<Entry>, ops: seq<Op>, i: nat, j: nat)
    requires TotalPreorder(cmp) && Ascending(cmp, es)
    requires i < j < |ops| && ops[i].RemoveOp? && ops[j].GetOp? && cmp(ops[j].key, ops[i].key) == 0
    requires forall k :: i < k < j ==> ops[k].GetOp? || cmp(ops[j].key, ops[k].key) != 0
    ensures |Answers(cmp, es, ops)| == |ops| && Answers(cmp, es, ops)[j] == None
  {
    AnswersAt(cmp, es, ops, j);
    StaysSo(cmp, es, ops, ops[j].key, i, j);
    ReplayStep(cmp, es, ops, i);
    ReplayedAscends(cmp, es, ops[..i]);
    FindAfterDel(cmp, Replayed(cmp, es, ops[..i]), ops[i].key, ops[j].key);
  }

  // ---- iteration with removals ----

  /** The entries a selection keeps. */
  function Kept(es: seq<Entry>, drop: nat -> bool): seq<Entry>
  {
    if es == [] then []
    else Kept(es[..|es| - 1], drop) + if drop(|es| - 1) then [] else [es[|es| - 1]]
  }

  lemma {:induction false} KeptFrom(es: seq<Entry>, drop: nat -> bool, e: Entry)
    requires e in Kept(es, drop)
    ensures e in es
  {
    var k := |es| - 1;
    if e in Kept(es[..k], drop) { KeptFrom(es[..k], drop, e); }
  }

  lemma DropLast(cmp: Comparator, es: seq<Entry>)
    requires TotalPreorder(cmp) && Ascending(cmp, es) && es != []
    ensures var k := |es| - 1; Ascending(cmp, es[..k]) && es[k] !in es[..k]
  {
    var k := |es| - 1;
    forall i, j | 0 <= i < j < k ensures Before(cmp, es[..k], i, j) { assert Before(cmp, es, i, j); }
    forall i | 0 <= i < k ensures es[i] != es[k] {
      assert Before(cmp, es, i, k);
      Flip(cmp, es[k].key, es[k].key);
    }
  }

  /** An entry is kept exactly if it is not dropped; nothing that was not there is kept. */
  lemma {:induction false} KeptIff(cmp: Comparator, es: seq<Entry>, drop: nat -> bool, i: nat)
    requires TotalPreorder(cmp) && Ascending(cmp, es) && i < |es|
    ensures es[i] in Kept(es, drop) <==> !drop(i)
    ensures forall e :: e in Kept(es, drop) ==> e in es
  {
    var k := |es| - 1;
    DropLast(cmp, es);
    forall e | e in Kept(es, drop) ensures e in es { KeptFrom(es, drop, e); }
    if i < k {
      KeptIff(cmp, es[..k], drop, i);
      assert es[..k][i] == es[i];
    } else if es[k] in Kept(es[..k], drop) {
      KeptFrom(es[..k], drop, es[k]);
    }
  }

  /** The entries when the first k have been visited, and how many of those were kept. */
  ghost function Midway(es: seq<Entry>, drop: nat -> bool, k: nat): (m: seq<Entry>)
    requires k <= |es|
  {
    Kept(es[..k], drop) + es[k..]
  }

  ghost function Survivors(es: seq<Entry>, drop: nat -> bool, k: nat): (p: nat)
    requires k <= |es|
    ensures p + |es| - k == |Midway(es, drop, k)|
  {
    |Kept(es[..k], drop)|
  }

  lemma MidwayStep(es: seq<Entry>, drop: nat -> bool, k: nat)
    requires k < |es|
    ensures var m, p := Midway(es, drop, k), Survivors(es, drop, k);
      && p < |m| && m[p] == es[k]
      && Midway(es, drop, k + 1) == (if drop(k) then m[..p] + m[p + 1..] else m)
      && Survivors(es, drop, k + 1) == (if drop(k) then p else p + 1)
  {
    var kept := Kept(es[..k], drop);
    assert es[..k + 1][..k] == es[..k];
    assert es[k..] == [es[k]] + es[k + 1..];
    if drop(k) {
      assert (kept + es[k..])[|kept| + 1..] == es[k + 1..];
      assert (kept + es[k..])[..|kept|] == kept;
    }
  }

  lemma MidwayEnds(es: seq<Entry>, drop: nat -> bool)
    ensures es[..0] == [] && es[..|es|] == es
    ensures Midway(es, drop, 0) == es && Survivors(es, drop, 0) == 0 && Midway(es, drop, |es|) == Kept(es, drop)
  {
    assert es[..|es|] == es;
  }

  lemma Visited(es: seq<Entry>, k: nat)
    requires k < |es|
    ensures es[..k] + [es[k]] == es[..k + 1]
  {
  }

  /** k entries of es have been visited, p of them kept, and `entry` is what the iterator returned last. */
  ghost predicate Visiting(it: TableIter, es: seq<Entry>, drop: nat -> bool, k: nat, p: nat, entry: Option<Entry>)
    reads it, it.table, it.table.order
  {
    && k <= |es| && Entries(it.table) == Midway(es, drop, k) && p == Survivors(es, drop, k)
    && Standing(it, entry, p) && entry == (if k < |es| then Some(es[k]) else None)
  }

  method VisitNext(it: TableIter, ghost es: seq<Entry>, drop: nat -> bool, k: nat, ghost p: nat,
                   ghost seen: Option<Entry>)
    returns (entry: Option<Entry>, ghost p': nat)
    requires Valid(it.table) && Visiting(it, es, drop, k, p, seen) && k < |es|
    modifies it`current, it`next, it.table`root, it.table`nodes, it.table`order, it.table`size
    modifies it.table.sentinel`parent, it.table.sentinel`color
    modifies it.table.nodes`left, it.table.nodes`right, it.table.nodes`parent, it.table.nodes`pos
    modifies it.table.nodes`lo, it.table.nodes`hi, it.table.nodes`color, it.table.nodes`bh
    ensures Valid(it.table) && it.table.nodes <= old(it.table.nodes)
    ensures Visiting(it, es, drop, k + 1, p', entry)
  {
    MidwayStep(es, drop, k);
    entry := RemoveThenNext(it, drop(k), p);
    p' := Survivors(es, drop, k + 1);
    if k + 1 < |es| { MidwayStep(es, drop, k + 1); }
  }

  /** A new iterator and its first entry. */
  method Begin(t: Table) returns (it: TableIter, entry: Option<Entry>)
    requires Valid(t)
    ensures Valid(t) && it.table == t && fresh(it) && Standing(it, entry, 0)
    ensures entry == if Entries(t) == [] then None else Some(Entries(t)[0])
  {
    it := new TableIter(t);
    entry := IterNext(it, 0);
  }

  /** Whatever subset of the entries is removed as they come up, the iterator still visits every original entry
      once, in ascending order, and exactly the chosen ones are gone. */
  method IterateRemoving(t: Table, drop: nat -> bool) returns (visited: seq<Entry>)
    requires Valid(t)
    modifies t, t.nodes, t.sentinel
    ensures Valid(t) && visited == old(Entries(t)) && Ascending(t.cmp, visited)
    ensures Entries(t) == Kept(old(Entries(t)), drop)
  {
    ghost var es := Entries(t);
    visited := [];
    var k := 0;
    ghost var p := 0;
    var it, entry := Begin(t);
    MidwayEnds(es, drop);
    assert Visiting(it, es, drop, 0, 0, entry);
    while entry != None
      invariant Valid(t) && it.table == t && fresh(it) && t.nodes <= old(t.nodes)
      invariant 0 <= k <= |es| && visited == es[..k] && Visiting(it, es, drop, k, p, entry)
      decreases |es| - k
    {
      Visited(es, k);
      visited := visited + [entry.value];
      entry, p := VisitNext(it, es, drop, k, p, entry);
      k := k + 1;
    }
  }
}
