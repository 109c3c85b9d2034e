/** Whole runs of the ternary search tree table: it is a map from words. */
module TrieRuns {

  import opened Options
  import opened TriePaths
  import opened TrieTable
  import opened TrieAdd
  import opened TrieRemove
  import opened TrieClear

  datatype Op<V> = AddOp(key: string, val: V) | GetOp(key: string) | RemoveOp(key: string) | ClearOp

  type Dict<V> = map<string, V>

  /** The map after an operation. */
  function Applied<V>(d: Dict<V>, op: Op<V>): Dict<V> {
    match op
    case AddOp(key, val) => d[key := val]
    case GetOp(_) => d
    case RemoveOp(key) => d - {key}
    case ClearOp => map[]
  }

  /** ... and what the caller is told. */
  function Answer<V>(d: Dict<V>, op: Op<V>): Option<V> {
    match op
    case GetOp(key) => if key in d then Some(d[key]) else None
    case RemoveOp(key) => if key in d then Some(d[key]) else None
    case AddOp(_, _) => None
    case ClearOp => None
  }

  function Replayed<V>(d: Dict<V>, ops: seq<Op<V>>): Dict<V> {
    if ops == [] then d else Applied(Replayed(d, ops[..|ops| - 1]), ops[|ops| - 1])
  }

  function Answers<V>(d: Dict<V>, ops: seq<Op<V>>): seq<Option<V>> {
    if ops == [] then [] else
      Answers(d, ops[..|ops| - 1]) + [Answer(Replayed(d, ops[..|ops| - 1]), ops[|ops| - 1])]
  }

  /** The table looks up as the map does, and has its size. */
  ghost predicate Represents<V>(t: Table<V>, d: Dict<V>)
    reads t, t.at.Values
  {
    t.size == |d| && LooksUpLike(t.cmp, Cells(t.at), d)
  }

  ghost predicate LooksUpLike<V>(cmp: Comparator, m: Trie<V>, d: Dict<V>) {
    forall key :: Lookup(cmp, m, key) == if key in d then Some(d[key]) else None
  }

  lemma AddedLike<V>(cmp: Comparator, m: Trie<V>, n: Trie<V>, d: Dict<V>, key: string, val: V)
    requires LooksUpLike(cmp, m, d)
    requires forall other :: Lookup(cmp, n, other) == if other == key then Some(val) else Lookup(cmp, m, other)
    ensures LooksUpLike(cmp, n, d[key := val])
  {
  }

  lemma RemovedLike<V>(cmp: Comparator, m: Trie<V>, n: Trie<V>, d: Dict<V>, key: string)
    requires LooksUpLike(cmp, m, d) && forall other :: Gone(cmp, m, n, key, other)
    ensures LooksUpLike(cmp, n, d - {key})
  {
    forall other ensures Lookup(cmp, n, other) == if other in d - {key} then Some((d - {key})[other]) else None {
      assert Gone(cmp, m, n, key, other);
    }
  }

  lemma CountChange<V>(d: Dict<V>, key: string, v: V)
    ensures |d[key := v]| == |d| + (if key in d then 0 else 1)
  {
    assert d[key := v].Keys == d.Keys + {key};
    assert |d[key := v]| == |d[key := v].Keys| && |d| == |d.Keys|;
  }

  lemma RemoveCount<V>(d: Dict<V>, key: string)
    ensures |d - {key}| == |d| - (if key in d then 1 else 0)
  {
    assert (d - {key}).Keys == d.Keys - {key};
    assert |d - {key}| == |(d - {key}).Keys| && |d| == |d.Keys|;
  }

  method PerformAdd<V>(t: Table<V>, key: string, val: V, ghost d: Dict<V>)
    requires t.Valid() && Represents(t, d) && key != []
    modifies t, t.at.Values
    ensures t.Valid() && fresh(t.at.Values - old(t.at.Values)) && Represents(t, d[key := val])
  {
    ghost var m := Cells(t.at);
    CountChange(d, key, val);
    Add(t, key, val);
    forall other
      ensures Lookup(t.cmp, Cells(t.at), other) == if other == key then Some(val) else Lookup(t.cmp, m, other)
    {
      assert Maps(t, other, if other == key then Some(val) else Lookup(t.cmp, m, other));
    }
    AddedLike(t.cmp, m, Cells(t.at), d, key, val);
  }

  method PerformRemove<V>(t: Table<V>, key: string, ghost d: Dict<V>) returns (out: Option<V>)
    requires t.Valid() && Represents(t, d) && key != []
    modifies t, t.at.Values
    ensures t.Valid() && t.at.Values <= old(t.at.Values) && Represents(t, d - {key})
    ensures out == if key in d then Some(d[key]) else None
  {
    ghost var m := Cells(t.at);
    RemoveCount(d, key);
    var stat;
    stat, out := Remove(t, key);
    RemovedLike(t.cmp, m, Cells(t.at), d, key);
  }

  /** An operation that the table does; keys are not empty. */
  method Perform<V>(t: Table<V>, op: Op<V>, ghost d: Dict<V>) returns (out: Option<V>)
    requires t.Valid() && Represents(t, d) && (op.ClearOp? || op.key != [])
    modifies t, t.at.Values
    ensures t.Valid() && fresh(t.at.Values - old(t.at.Values))
    ensures Represents(t, Applied(d, op)) && out == Answer(d, op)
  {
    out := None;
    match op
    case AddOp(key, val) => PerformAdd(t, key, val, d);
    case GetOp(key) =>
      var stat;
      stat, out := Find(t, key);
      CellsFrame(t.at);
    case RemoveOp(key) => out := PerformRemove(t, key, d);
    case ClearOp =>
      RemoveAll(t);
      EmptyLooksUpNothing(t);
  }

  lemma EmptyLooksUpNothing<V>(t: Table<V>)
    requires t.at == map[] && t.size == 0
    ensures Represents(t, map[])
  {
  }

  /** Over every sequence of operations the table is the map and answers like it. */
  method Replay<V>(t: Table<V>, ops: seq<Op<V>>) returns (answers: seq<Option<V>>)
    requires t.Valid() && t.at == map[] && forall i :: 0 <= i < |ops| ==> ops[i].ClearOp? || ops[i].key != []
    modifies t, t.at.Values
    ensures t.Valid() && Represents(t, Replayed(map[], ops)) && answers == Answers(map[], ops)
  {
    answers := [];
    assert Words(Cells(t.at)) == {};
    EmptyLooksUpNothing(t);
    for i := 0 to |ops|
      invariant t.Valid() && fresh(t.at.Values - old(t.at.Values))
      invariant Represents(t, Replayed(map[], ops[..i])) && answers == Answers(map[], ops[..i])
    {
      assert ops[..i + 1][..i] == ops[..i];
      var out := Perform(t, ops[i], Replayed(map[], ops[..i]));
      answers := answers + [out];
    }
    assert ops[..|ops|] == ops;
  }

  /** A table has no dead node: every node ends a word or has a child. */
  lemma NoDeadNode<V>(t: Table<V>, a: Addr)
    requires t.Valid() && a in t.at
    ensures var n := t.at[a]; n.data.Some? || n.left != null || n.mid != null || n.right != null
    ensures a == [] ==> t.root == t.at[a]
  {
    assert !Dead(Cells(t.at), a) && Linked(t.at[a], t.at, a);
  }

  /** A node's address is the way to it from the root. */
  lemma ReachedFrom<V>(t: Table<V>, a: Addr, d: Dir)
    requires t.Valid() && a + [d] in t.at
    ensures a in t.at
    ensures t.at[a + [d]] == match d case L => t.at[a].left case M => t.at[a].mid case R => t.at[a].right
    ensures t.at[a + [d]].parent == t.at[a]
  {
    assert Up(a + [d]) == a;
    assert Linked(t.at[a], t.at, a) && Linked(t.at[a + [d]], t.at, a + [d]);
  }

  // ---- what a run answers, told without the map ----

  lemma {:induction false} AnswersAt<V>(d: Dict<V>, ops: seq<Op<V>>, k: nat)
    requires k < |ops|
    ensures |Answers(d, ops)| == |ops| && Answers(d, ops)[k] == Answer(Replayed(d, ops[..k]), ops[k])
    ensures Replayed(d, ops[..k + 1]) == Applied(Replayed(d, ops[..k]), ops[k])
  {
    var last := |ops| - 1;
    assert ops[..k + 1][..k] == ops[..k];
    AnswersCount(d, ops);
    AnswersCount(d, ops[..last]);
    if k < last {
      AnswersAt(d, ops[..last], k);
      assert ops[..last][..k] == ops[..k];
    }
  }

  lemma {:induction false} AnswersCount<V>(d: Dict<V>, ops: seq<Op<V>>)
    ensures |Answers(d, ops)| == |ops|
  {
    if ops != [] { AnswersCount(d, ops[..|ops| - 1]); }
  }

  /** Operations on other keys leave what is on record for this one. */
  lemma {:induction false} StaysSo<V>(d: Dict<V>, ops: seq<Op<V>>, key: string, i: nat, j: nat)
    requires i < j <= |ops|
    requires forall k :: i < k < j ==> ops[k].GetOp? || (!ops[k].ClearOp? && ops[k].key != key)
    ensures var was, now := Replayed(d, ops[..i + 1]), Replayed(d, ops[..j]);
      (key in now <==> key in was) && (key in was ==> now[key] == was[key])
    decreases j
  {
    if i + 1 < j {
      StaysSo(d, ops, key, i, j - 1);
      AnswersAt(d, ops, j - 1);
    }
  }

  /** A get, or a remove, is answered with what the last add of that key stored. */
  lemma LastAddWins<V>(d: Dict<V>, ops: seq<Op<V>>, i: nat, j: nat)
    requires i < j < |ops| && ops[i].AddOp? && (ops[j].GetOp? || ops[j].RemoveOp?) && ops[j].key == ops[i].key
    requires forall k :: i < k < j ==> ops[k].GetOp? || (!ops[k].ClearOp? && ops[k].key != ops[i].key)
    ensures |Answers(d, ops)| == |ops| && Answers(d, ops)[j] == Some(ops[i].val)
  {
    AnswersAt(d, ops, i);
    AnswersAt(d, ops, j);
    StaysSo(d, ops, ops[i].key, i, j);
  }

  /** After a removal of the key, or of all keys, a get finds nothing until the key is added again. */
  lemma RemovedIsGone<V>(d: Dict<V>, ops: seq<Op<V>>, i: nat, j: nat)
    requires i < j < |ops| && ops[j].GetOp? && (ops[i].ClearOp? || (ops[i].RemoveOp? && ops[j].key == ops[i].key))
    requires forall k :: i < k < j ==> ops[k].GetOp? || (!ops[k].ClearOp? && ops[k].key != ops[j].key)
    ensures |Answers(d, ops)| == |ops| && Answers(d, ops)[j] == None
  {
    AnswersAt(d, ops, i);
    AnswersAt(d, ops, j);
    StaysSo(d, ops, ops[j].key, i, j);
  }
}
