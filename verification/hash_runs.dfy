/** Whole runs of the hash table: any sequence of operations, and iteration with arbitrary removals. */
module HashRuns {

  import opened Powers
  import opened HashChains
  import opened Options
  import opened HashTable
  import opened HashIter

  datatype Op<K, V> = AddOp(key: Option<K>, val: V) | GetOp(key: Option<K>) | RemoveOp(key: Option<K>)

  /** The abstract table: a finite map, and a capacity that says when it grows. */
  datatype Model<K, V, I(==)> = Model(m: map<Option<I>, Pair<K, V>>, cap: nat)

  datatype Rules<!K, !I> = Rules(s: Scheme<K, I>, load: nat -> nat, max: nat)

  ghost predicate Full<K, V, I>(r: Rules<K, I>, a: Model<K, V, I>) { |a.m| >= r.load(a.cap) }

  ghost predicate Refuses<K, V, I>(r: Rules<K, I>, a: Model<K, V, I>) { Full(r, a) && a.cap == r.max }

  /** The map and the capacity after an operation. */
  ghost function Applied<K, V, I>(r: Rules<K, I>, a: Model<K, V, I>, op: Op<K, V>): Model<K, V, I> {
    var n := r.s.Name(op.key);
    match op
    case AddOp(key, val) =>
      if Refuses(r, a) then a else Model(Put(a.m, n, key, val), if Full(r, a) then 2 * a.cap else a.cap)
    case GetOp(_) => a
    case RemoveOp(_) => Model(a.m - {n}, a.cap)
  }

  /** ... and what the caller is told. */
  ghost function Answer<K, V, I>(r: Rules<K, I>, a: Model<K, V, I>, op: Op<K, V>): (Stat, Option<V>) {
    var n := r.s.Name(op.key);
    if op.AddOp? then (if Refuses(r, a) then CC_ERR_MAX_CAPACITY else CC_OK, None)
    else if n in a.m then (CC_OK, Some(a.m[n].value)) else (CC_ERR_KEY_NOT_FOUND, None)
  }

  ghost function Replayed<K, V, I>(r: Rules<K, I>, a: Model<K, V, I>, ops: seq<Op<K, V>>): Model<K, V, I> {
    if ops == [] then a else Applied(r, Replayed(r, a, ops[..|ops| - 1]), ops[|ops| - 1])
  }

  ghost function Answers<K, V, I>(r: Rules<K, I>, a: Model<K, V, I>, ops: seq<Op<K, V>>): seq<(Stat, Option<V>)> {
    if ops == [] then [] else
      Answers(r, a, ops[..|ops| - 1]) + [Answer(r, Replayed(r, a, ops[..|ops| - 1]), ops[|ops| - 1])]
  }

  ghost function RulesOf<K, V, I>(t: Table<K, V, I>): Rules<K, I> { Rules(t.s, t.load, MaxPowTwo(t.arch64)) }

  ghost function ModelOf<K, V, I>(t: Table<K, V, I>): Model<K, V, I>
    reads t, t.index.Values`value
  {
    Model(t.Contents(), t.capacity)
  }

  lemma SameCount<A, B, C>(m: map<A, B>, n: map<A, C>)
    requires m.Keys == n.Keys
    ensures |m| == |n|
  {
    assert |m| == |m.Keys| && |n| == |n.Keys|;
  }

  method PerformAdd<K, V, I(==)>(t: Table<K, V, I>, op: Op<K, V>) returns (answer: (Stat, Option<V>))
    requires t.Valid() && op.AddOp?
    modifies t, t.buckets, t.index.Values
    ensures t.Valid() && (t.buckets == old(t.buckets) || fresh(t.buckets))
    ensures fresh(t.index.Values - old(t.index.Values))
    ensures ModelOf(t) == Applied(RulesOf(t), old(ModelOf(t)), op)
    ensures answer == Answer(RulesOf(t), old(ModelOf(t)), op)
  {
    SameCount(t.Contents(), t.index);
    var stat := t.Add(op.key, op.val);
    answer := (stat, None);
  }

  method PerformRemove<K, V, I(==)>(t: Table<K, V, I>, op: Op<K, V>) returns (answer: (Stat, Option<V>))
    requires t.Valid() && op.RemoveOp?
    modifies t, t.buckets, t.index.Values
    ensures t.Valid() && t.buckets == old(t.buckets) && fresh(t.index.Values - old(t.index.Values))
    ensures ModelOf(t) == Applied(RulesOf(t), old(ModelOf(t)), op)
    ensures answer == Answer(RulesOf(t), old(ModelOf(t)), op)
  {
    var stat, out, at := t.Remove(op.key);
    answer := (stat, out);
  }

  method PerformGet<K, V, I(==)>(t: Table<K, V, I>, op: Op<K, V>) returns (answer: (Stat, Option<V>))
    requires t.Valid() && op.GetOp?
    ensures t.Valid() && answer == Answer(RulesOf(t), ModelOf(t), op)
  {
    var stat, out := t.Get(op.key);
    PairsFrame(t.index);
    answer := (stat, out);
  }

  method Perform<K, V, I(==)>(t: Table<K, V, I>, op: Op<K, V>) returns (answer: (Stat, Option<V>))
    requires t.Valid()
    modifies t, t.buckets, t.index.Values
    ensures t.Valid() && (t.buckets == old(t.buckets) || fresh(t.buckets))
    ensures fresh(t.index.Values - old(t.index.Values))
    ensures ModelOf(t) == Applied(RulesOf(t), old(ModelOf(t)), op)
    ensures answer == Answer(RulesOf(t), old(ModelOf(t)), op)
  {
    match op
    case AddOp(_, _) => answer := PerformAdd(t, op);
    case RemoveOp(_) => answer := PerformRemove(t, op);
    case GetOp(_) =>
      answer := PerformGet(t, op);
      PairsFrame(t.index);
  }

  /** Over every sequence of operations the table is the finite map, grows when it says, and answers like it. */
  method Replay<K, V, I(==)>(t: Table<K, V, I>, ops: seq<Op<K, V>>) returns (answers: seq<(Stat, Option<V>)>)
    requires t.Valid()
    modifies t, t.buckets, t.index.Values
    ensures t.Valid() && LegalCapacity(t.capacity, t.arch64)
    ensures ModelOf(t) == Replayed(RulesOf(t), old(ModelOf(t)), ops)
    ensures answers == Answers(RulesOf(t), old(ModelOf(t)), ops)
  {
    ghost var a := ModelOf(t);
    answers := [];
    for i := 0 to |ops|
      invariant t.Valid() && (t.buckets == old(t.buckets) || fresh(t.buckets))
      invariant fresh(t.index.Values - old(t.index.Values))
      invariant ModelOf(t) == Replayed(RulesOf(t), a, ops[..i])
      invariant answers == Answers(RulesOf(t), a, ops[..i])
    {
      assert ops[..i + 1][..i] == ops[..i];
      var answer := Perform(t, ops[i]);
      answers := answers + [answer];
    }
    assert ops[..|ops|] == ops;
  }

  // ---- what a run answers, told without the model ----

  lemma ReplayedNext<K, V, I>(r: Rules<K, I>, a: Model<K, V, I>, ops: seq<Op<K, V>>, k: nat)
    requires k < |ops|
    ensures Replayed(r, a, ops[..k + 1]) == Applied(r, Replayed(r, a, ops[..k]), ops[k])
  {
    assert ops[..k + 1][..k] == ops[..k];
  }

  lemma AnswersNext<K, V, I>(r: Rules<K, I>, a: Model<K, V, I>, ops: seq<Op<K, V>>)
    requires ops != []
    ensures var k := |ops| - 1;
      Answers(r, a, ops) == Answers(r, a, ops[..k]) + [Answer(r, Replayed(r, a, ops[..k]), ops[k])]
  {
  }

  lemma {:induction false} AnswersAt<K, V, I>(r: Rules<K, I>, a: Model<K, V, I>, ops: seq<Op<K, V>>, k: nat)
    requires k < |ops|
    ensures |Answers(r, a, ops)| == |ops|
    ensures Answers(r, a, ops)[k] == Answer(r, Replayed(r, a, ops[..k]), ops[k])
  {
    var last := |ops| - 1;
    AnswersNext(r, a, ops);
    AnswersCount(r, a, ops[..last]);
    if k < last {
      AnswersAt(r, a, ops[..last], k);
      assert ops[..last][..k] == ops[..k];
    }
  }

  lemma {:induction false} AnswersCount<K, V, I>(r: Rules<K, I>, a: Model<K, V, I>, ops: seq<Op<K, V>>)
    ensures |Answers(r, a, ops)| == |ops|
  {
    if ops != [] { AnswersCount(r, a, ops[..|ops| - 1]); }
  }

  /** The operations between i and j change nothing for the name n. */
  ghost predicate Undisturbed<K, V, I>(r: Rules<K, I>, ops: seq<Op<K, V>>, n: Option<I>, i: nat, j: nat) {
    j <= |ops| && forall k :: i < k < j ==> ops[k].GetOp? || r.s.Name(ops[k].key) != n
  }

  lemma OthersStay<K, V, I>(r: Rules<K, I>, b: Model<K, V, I>, op: Op<K, V>, n: Option<I>)
    requires op.GetOp? || r.s.Name(op.key) != n
    ensures var now := Applied(r, b, op).m; (n in now <==> n in b.m) && (n in b.m ==> now[n] == b.m[n])
  {
    if op.AddOp? { PutLaws(b.m, r.s.Name(op.key), op.key, op.val); }
  }

  lemma {:induction false} StaysSo<K, V, I>(r: Rules<K, I>, a: Model<K, V, I>, ops: seq<Op<K, V>>, n: Option<I>, i: nat,
                                            j: nat)
    requires i < j && Undisturbed(r, ops, n, i, j)
    ensures var was, now := Replayed(r, a, ops[..i + 1]).m, Replayed(r, a, ops[..j]).m;
      (n in now <==> n in was) && (n in was ==> now[n] == was[n])
    decreases j
  {
    if i + 1 < j {
      StaysSo(r, a, ops, n, i, j - 1);
      ReplayedNext(r, a, ops, j - 1);
      OthersStay(r, Replayed(r, a, ops[..j - 1]), ops[j - 1], n);
    }
  }

  /** A get, or a remove, is answered with what the last accepted add of that key stored. */
  lemma LastAddWins<K, V, I>(r: Rules<K, I>, a: Model<K, V, I>, ops: seq<Op<K, V>>, i: nat, j: nat)
    requires i < j < |ops| && ops[i].AddOp? && (ops[j].GetOp? || ops[j].RemoveOp?) && r.s.Name(ops[j].key) == r.s.Name(ops[i].key)
    requires forall k :: i < k < j ==> ops[k].GetOp? || r.s.Name(ops[k].key) != r.s.Name(ops[i].key)
    requires |Answers(r, a, ops)| > i && Answers(r, a, ops)[i].0 == CC_OK
    ensures |Answers(r, a, ops)| == |ops| && Answers(r, a, ops)[j] == (CC_OK, Some(ops[i].val))
  {
    AnswersAt(r, a, ops, i);
    AnswersAt(r, a, ops, j);
    ReplayedNext(r, a, ops, i);
    StaysSo(r, a, ops, r.s.Name(ops[i].key), i, j);
    PutLaws(Replayed(r, a, ops[..i]).m, r.s.Name(ops[i].key), ops[i].key, ops[i].val);
  }

  /** After a removal a get finds nothing, until the key is added again. */
  lemma RemovedIsGone<K, V, I>(r: Rules<K, I>, a: Model<K, V, I>, ops: seq<Op<K, V>>, i: nat, j: nat)
    requires i < j < |ops| && ops[i].RemoveOp? && ops[j].GetOp? && r.s.Name(ops[j].key) == r.s.Name(ops[i].key)
    requires forall k :: i < k < j ==> ops[k].GetOp? || r.s.Name(ops[k].key) != r.s.Name(ops[i].key)
    ensures |Answers(r, a, ops)| == |ops| && Answers(r, a, ops)[j] == (CC_ERR_KEY_NOT_FOUND, None)
  {
    AnswersAt(r, a, ops, i);
    AnswersAt(r, a, ops, j);
    ReplayedNext(r, a, ops, i);
    StaysSo(r, a, ops, r.s.Name(ops[i].key), i, j);
  }

  // ---- iteration with removals ----

  /** What is left of the index when the chosen among the visited entries are gone. */
  ghost predicate Left<K, V, I>(was: map<Option<I>, Entry<K, V>>, now: map<Option<I>, Entry<K, V>>,
                                visited: seq<Entry<K, V>>, drop: Option<K> -> bool) {
    && now.Keys <= was.Keys
    && (forall n :: n in was ==> (n in now <==> !(was[n] in visited && drop(was[n].key))))
    && (forall n :: n in now ==> now[n] == was[n])
  }

  /** Visited and still to come: together every entry, none twice. */
  ghost predicate Split<K, V, I>(was: map<Option<I>, Entry<K, V>>, visited: seq<Entry<K, V>>,
                                 pending: set<Entry<K, V>>) {
    && NoDup(visited)
    && (forall e :: e in was.Values ==> e in visited || e in pending)
    && (forall e :: e in visited ==> e in was.Values)
    && (forall e :: e in pending ==> e in was.Values)
    && (forall e :: e in visited ==> e !in pending)
  }

  lemma SplitNext<K, V, I>(was: map<Option<I>, Entry<K, V>>, visited: seq<Entry<K, V>>, pending: set<Entry<K, V>>,
                           e: Entry<K, V>)
    requires Split(was, visited, pending) && e in pending
    ensures Split(was, visited + [e], pending - {e})
  {
  }

  lemma LeftDropped<K, V, I>(was: map<Option<I>, Entry<K, V>>, now: map<Option<I>, Entry<K, V>>,
                             visited: seq<Entry<K, V>>, drop: Option<K> -> bool, n: Option<I>)
    requires Left(was, now, visited, drop) && n in now && now[n] !in visited
    requires forall m :: m in was && m != n ==> was[m] != was[n]
    ensures Left(was, if drop(now[n].key) then now - {n} else now, visited + [now[n]], drop)
  {
  }

  method RemoveIf<K, V, I(==)>(it: HashTableIter<K, V, I>, e: Entry<K, V>, remove: bool, ghost b: nat, ghost j: nat)
    returns (ghost j': nat)
    requires it.table.Valid() && it.Placed(b, j) && it.prevEntry == e && e !in it.Pending(b, j)
    requires it.table.s.Name(e.key) in it.table.index && it.table.index[it.table.s.Name(e.key)] == e
    modifies it.table, it.table.buckets, it.table.index.Values`next
    ensures it.table.Valid() && it.table.buckets == old(it.table.buckets)
    ensures it.Placed(b, j') && it.Pending(b, j') == old(it.Pending(b, j))
    ensures it.table.index == if remove then old(it.table.index) - {it.table.s.Name(e.key)} else old(it.table.index)
  {
    j' := j;
    if remove {
      var stat, out;
      stat, out, j' := it.Remove(b, j);
    }
  }

  /** One turn: the entry that next returned is removed or not, and the iterator moves on. */
  method Turn<K, V, I(==)>(it: HashTableIter<K, V, I>, e: Entry<K, V>, remove: bool, ghost b: nat, ghost j: nat)
    returns (te: Option<Entry<K, V>>, ghost b': nat, ghost j': nat)
    requires it.table.Valid() && it.Placed(b, j) && it.prevEntry == e && e !in it.Pending(b, j)
    requires it.table.s.Name(e.key) in it.table.index && it.table.index[it.table.s.Name(e.key)] == e
    modifies it, it.table, it.table.buckets, it.table.index.Values`next
    ensures it.table.Valid() && it.Placed(b', j') && it.table.buckets == old(it.table.buckets)
    ensures it.table.index == if remove then old(it.table.index) - {it.table.s.Name(e.key)} else old(it.table.index)
    ensures te.Some? ==> it.prevEntry == te.value && te.value in old(it.Pending(b, j))
    ensures it.Pending(b', j') == old(it.Pending(b, j)) - (if te.Some? then {te.value} else {})
    ensures te.None? ==> old(it.Pending(b, j)) == {}
  {
    j' := RemoveIf(it, e, remove, b, j);
    te, b', j' := it.Next(b, j');
  }

  /** Before the entry `te` is dealt with: what is left, what has been visited, and what is to come. */
  ghost predicate Tally<K, V, I>(was: map<Option<I>, Entry<K, V>>, now: map<Option<I>, Entry<K, V>>,
                                 visited: seq<Entry<K, V>>,
                                 drop: Option<K> -> bool, te: Option<Entry<K, V>>, pending: set<Entry<K, V>>) {
    && Left(was, now, visited, drop)
    && (te.Some? ==> te.value !in visited && te.value in was.Values && te.value !in pending)
    && Split(was, if te.Some? then visited + [te.value] else visited, pending)
    && (te.None? ==> pending == {})
  }

  ghost predicate Named<K, V, I>(s: Scheme<K, I>, was: map<Option<I>, Entry<K, V>>) {
    forall n :: n in was ==> s.Name(was[n].key) == n
  }

  lemma TallyNext<K, V, I>(s: Scheme<K, I>, was: map<Option<I>, Entry<K, V>>, now: map<Option<I>, Entry<K, V>>,
                           visited: seq<Entry<K, V>>, drop: Option<K> -> bool, e: Entry<K, V>,
                           pending: set<Entry<K, V>>,
                           te: Option<Entry<K, V>>)
    requires Named(s, was) && Tally(was, now, visited, drop, Some(e), pending)
    requires if te.Some? then te.value in pending else pending == {}
    ensures s.Name(e.key) in now && now[s.Name(e.key)] == e
    ensures Tally(was, if drop(e.key) then now - {s.Name(e.key)} else now, visited + [e], drop, te,
                  pending - (if te.Some? then {te.value} else {}))
  {
    var n := s.Name(e.key);
    assert n in was && was[n] == e;
    LeftDropped(was, now, visited, drop, n);
    if te.Some? { SplitNext(was, visited + [e], pending, te.value); }
  }

  lemma TallyFirst<K, V, I>(was: map<Option<I>, Entry<K, V>>, drop: Option<K> -> bool, te: Option<Entry<K, V>>)
    requires if te.Some? then te.value in was.Values else was.Values == {}
    ensures Tally(was, was, [], drop, te, was.Values - (if te.Some? then {te.value} else {}))
  {
    if te.Some? {
      SplitNext(was, [], was.Values, te.value);
      assert [] + [te.value] == [te.value];
    }
  }

  lemma TallyLast<K, V, I>(was: map<Option<I>, Entry<K, V>>, now: map<Option<I>, Entry<K, V>>,
                           visited: seq<Entry<K, V>>, drop: Option<K> -> bool)
    requires Tally(was, now, visited, drop, None, {})
    ensures NoDup(visited) && forall e :: e in visited <==> e in was.Values
    ensures forall n :: n in now <==> n in was && !drop(was[n].key)
    ensures forall n :: n in now ==> now[n] == was[n]
  {
  }

  ghost predicate Standing<K, V, I>(it: HashTableIter<K, V, I>, was: map<Option<I>, Entry<K, V>>,
                                    visited: seq<Entry<K, V>>,
                                    drop: Option<K> -> bool, te: Option<Entry<K, V>>, b: nat, j: nat)
    reads it, it.table
  {
    && it.Placed(b, j) && (te.Some? ==> it.prevEntry == te.value)
    && Tally(was, it.table.index, visited, drop, te, it.Pending(b, j))
  }

  method VisitNext<K, V, I(==)>(it: HashTableIter<K, V, I>, e: Entry<K, V>, drop: Option<K> -> bool,
                                ghost was: map<Option<I>, Entry<K, V>>, ghost visited: seq<Entry<K, V>>,
                                ghost b: nat, ghost j: nat)
    returns (te: Option<Entry<K, V>>, ghost b': nat, ghost j': nat)
    requires it.table.Valid() && Standing(it, was, visited, drop, Some(e), b, j) && Named(it.table.s, was)
    modifies it, it.table, it.table.buckets, it.table.index.Values`next
    ensures it.table.Valid() && it.table.buckets == old(it.table.buckets)
    ensures it.table.index.Values <= old(it.table.index.Values)
    ensures Standing(it, was, visited + [e], drop, te, b', j')
    ensures te.Some? ==> |it.Pending(b', j')| < |old(it.Pending(b, j))|
  {
    ghost var pending, now := it.Pending(b, j), it.table.index;
    assert it.table.s.Name(e.key) in now && now[it.table.s.Name(e.key)] == e;
    te, b', j' := Turn(it, e, drop(e.key), b, j);
    TallyNext(it.table.s, was, now, visited, drop, e, pending, te);
  }

  /**
   * Whatever subset of the entries is removed as they come up, the iterator visits every original
   * entry exactly once, and exactly the chosen ones are gone.
   */
  method IterateRemoving<K, V, I(==)>(t: Table<K, V, I>, drop: Option<K> -> bool) returns (visited: seq<Entry<K, V>>)
    requires t.Valid()
    modifies t, t.buckets, t.index.Values`next
    ensures t.Valid() && NoDup(visited) && forall e :: e in visited <==> e in old(t.index.Values)
    ensures forall n :: n in t.index <==> n in old(t.index) && !drop(old(t.index)[n].key)
    ensures forall n :: n in t.index ==> t.index[n] == old(t.index)[n]
  {
    ghost var was := t.index;
    forall n | n in was ensures t.s.Name(was[n].key) == n { assert NameAt(t.s, t.chains, t.index, n); }
    visited := [];
    var it, te;
    ghost var b, j;
    it, te, b, j := StartVisit(t, drop);
    while te.Some?
      invariant fresh(it) && it.table == t && t.Valid() && t.buckets == old(t.buckets)
      invariant t.index.Values <= old(t.index.Values)
      invariant Standing(it, was, visited, drop, te, b, j)
      decreases te.Some?, |it.Pending(b, j)|
    {
      var e := te.value;
      te, b, j := VisitNext(it, e, drop, was, visited, b, j);
      visited := visited + [e];
    }
    TallyLast(was, t.index, visited, drop);
  }

  method StartVisit<K, V, I(==)>(t: Table<K, V, I>, drop: Option<K> -> bool)
    returns (it: HashTableIter<K, V, I>, te: Option<Entry<K, V>>, ghost b: nat, ghost j: nat)
    requires t.Valid()
    ensures t.Valid() && fresh(it) && it.table == t && Standing(it, t.index, [], drop, te, b, j)
  {
    it := new HashTableIter(t);
    ghost var b0 :| it.Placed(b0, 0) && it.Pending(b0, 0) == t.index.Values;
    te, b, j := it.Next(b0, 0);
    TallyFirst(t.index, drop, te);
  }
}
