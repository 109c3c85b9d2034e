/** The priority queue over every sequence of pushes and pops, against a multiset. */
module QueueRuns {

  import opened Options
  import opened Ordering
  import opened PriorityQueue

  datatype Op = PushOp(x: Ptr) | PopOp
  datatype Outcome = Outcome(stat: Stat, out: Option<Ptr>)

  /** What one operation may do to the multiset of elements. */
  ghost predicate StepOk(cmp: Comparator, most: nat, was: multiset<Ptr>, op: Op, o: Outcome, now: multiset<Ptr>) {
    match op
    case PushOp(x) =>
      if |was| == most then o == Outcome(CC_ERR_MAX_CAPACITY, None) && now == was
      else o == Outcome(CC_OK, None) && now == was + multiset{x}
    case PopOp =>
      if was == multiset{} then o == Outcome(CC_ERR_OUT_OF_RANGE, None) && now == was
      else o.stat == CC_OK && o.out.Some? && Highest(cmp, was, o.out.value) && now == was - multiset{o.out.value}
  }

  /** bags[i] is what the queue holds before operation i, and the last of them what it holds in the end. */
  ghost predicate Explains(cmp: Comparator, most: nat, bags: seq<multiset<Ptr>>, ops: seq<Op>, outs: seq<Outcome>) {
    && |outs| == |ops| && |bags| == |ops| + 1
    && forall i :: 0 <= i < |ops| ==> StepOk(cmp, most, bags[i], ops[i], outs[i], bags[i + 1])
  }

  method Perform(q: PQueue, op: Op) returns (o: Outcome)
    requires q.Valid()
    modifies q, q.buffer
    ensures q.Valid() && (q.buffer == old(q.buffer) || fresh(q.buffer))
    ensures StepOk(q.cmp, q.maxElements, old(multiset(q.Elements())), op, o, multiset(q.Elements()))
  {
    assert |multiset(q.Elements())| == q.size;
    match op
    case PushOp(x) =>
      var stat := q.Push(x);
      o := Outcome(stat, None);
    case PopOp =>
      assert q.size > 0 ==> q.Elements()[0] in multiset(q.Elements());
      var stat, out := q.Pop();
      o := Outcome(stat, out);
  }

  method Replay(q: PQueue, ops: seq<Op>) returns (outs: seq<Outcome>, ghost bags: seq<multiset<Ptr>>)
    requires q.Valid()
    modifies q, q.buffer
    ensures q.Valid() && Explains(q.cmp, q.maxElements, bags, ops, outs)
    ensures bags[0] == multiset(old(q.Elements())) && bags[|ops|] == multiset(q.Elements())
  {
    outs, bags := [], [multiset(q.Elements())];
    for i := 0 to |ops|
      invariant q.Valid() && (q.buffer == old(q.buffer) || fresh(q.buffer))
      invariant Explains(q.cmp, q.maxElements, bags, ops[..i], outs)
      invariant bags[0] == multiset(old(q.Elements())) && bags[i] == multiset(q.Elements())
    {
      var o := Perform(q, ops[i]);
      ExplainsNext(q.cmp, q.maxElements, bags, ops, outs, i, o, multiset(q.Elements()));
      outs, bags := outs + [o], bags + [multiset(q.Elements())];
    }
    assert ops[..|ops|] == ops;
  }

  lemma ExplainsNext(cmp: Comparator, most: nat, bags: seq<multiset<Ptr>>, ops: seq<Op>, outs: seq<Outcome>, i: nat,
                     o: Outcome, now: multiset<Ptr>)
    requires i < |ops| && Explains(cmp, most, bags, ops[..i], outs) && StepOk(cmp, most, bags[i], ops[i], o, now)
    ensures Explains(cmp, most, bags + [now], ops[..i + 1], outs + [o])
  {
    var bags', ops', outs' := bags + [now], ops[..i + 1], outs + [o];
    forall k | 0 <= k < |ops'| ensures StepOk(cmp, most, bags'[k], ops'[k], outs'[k], bags'[k + 1]) {
      if k < i { assert StepOk(cmp, most, bags[k], ops[..i][k], outs[k], bags[k + 1]); }
    }
  }

  function PoppedBy(o: Outcome): multiset<Ptr> { if o.out.Some? then multiset{o.out.value} else multiset{} }

  function PushedBy(op: Op, o: Outcome): multiset<Ptr> {
    if op.PushOp? && o.stat == CC_OK then multiset{op.x} else multiset{}
  }

  /** The elements that came out. */
  function Popped(outs: seq<Outcome>): multiset<Ptr> {
    if outs == [] then multiset{} else Popped(outs[..|outs| - 1]) + PoppedBy(outs[|outs| - 1])
  }

  /** The elements whose push was accepted. */
  function Pushed(ops: seq<Op>, outs: seq<Outcome>): multiset<Ptr>
    requires |outs| == |ops|
  {
    if ops == [] then multiset{}
    else Pushed(ops[..|ops| - 1], outs[..|ops| - 1]) + PushedBy(ops[|ops| - 1], outs[|ops| - 1])
  }

  lemma StepConserves(cmp: Comparator, most: nat, was: multiset<Ptr>, op: Op, o: Outcome, now: multiset<Ptr>)
    requires StepOk(cmp, most, was, op, o, now)
    ensures now + PoppedBy(o) == was + PushedBy(op, o)
  {
  }

  lemma ExplainsFront(cmp: Comparator, most: nat, bags: seq<multiset<Ptr>>, ops: seq<Op>, outs: seq<Outcome>, k: nat)
    requires Explains(cmp, most, bags, ops, outs) && |ops| == k + 1
    ensures Explains(cmp, most, bags[..k + 1], ops[..k], outs[..k])
    ensures StepOk(cmp, most, bags[k], ops[k], outs[k], bags[k + 1])
  {
    forall i | 0 <= i < k
      ensures StepOk(cmp, most, bags[..k + 1][i], ops[..k][i], outs[..k][i], bags[..k + 1][i + 1])
    {
      assert StepOk(cmp, most, bags[i], ops[i], outs[i], bags[i + 1]);
    }
  }

  lemma Exchange<T>(a: multiset<T>, b: multiset<T>, c: multiset<T>, d: multiset<T>, p: multiset<T>, q: multiset<T>)
    requires a + p == b + q && b + c == d
    ensures a + (c + p) == d + q
  {
    assert a + (c + p) == (a + p) + c;
    assert (b + q) + c == (b + c) + q;
  }

  /** Nothing is lost and nothing is made up. */
  lemma {:induction false} Conserved(cmp: Comparator, most: nat, bags: seq<multiset<Ptr>>, ops: seq<Op>,
                                     outs: seq<Outcome>)
    requires Explains(cmp, most, bags, ops, outs)
    ensures bags[|ops|] + Popped(outs) == bags[0] + Pushed(ops, outs)
  {
    if ops != [] {
      var k := |ops| - 1;
      ExplainsFront(cmp, most, bags, ops, outs, k);
      Conserved(cmp, most, bags[..k + 1], ops[..k], outs[..k]);
      StepConserves(cmp, most, bags[k], ops[k], outs[k], bags[k + 1]);
      Exchange(bags[k + 1], bags[k], Popped(outs[..k]), bags[0] + Pushed(ops[..k], outs[..k]), PoppedBy(outs[k]),
               PushedBy(ops[k], outs[k]));
      assert (bags[0] + Pushed(ops[..k], outs[..k])) + PushedBy(ops[k], outs[k]) == bags[0] + Pushed(ops, outs);
    }
  }

  /** Between two pops with only pops in between, the queue never holds anything new. */
  lemma {:induction false} OnlyShrinks(cmp: Comparator, most: nat, bags: seq<multiset<Ptr>>, ops: seq<Op>,
                                       outs: seq<Outcome>, i: nat, j: nat)
    requires Explains(cmp, most, bags, ops, outs) && i <= j <= |ops|
    requires forall k :: i <= k < j ==> ops[k] == PopOp
    ensures bags[j] <= bags[i]
  {
    if i < j {
      OnlyShrinks(cmp, most, bags, ops, outs, i, j - 1);
      assert StepOk(cmp, most, bags[j - 1], ops[j - 1], outs[j - 1], bags[j]);
    }
  }

  /** Consecutive pops are non-increasing, wherever in the run they are. */
  lemma PopsDescend(cmp: Comparator, most: nat, bags: seq<multiset<Ptr>>, ops: seq<Op>, outs: seq<Outcome>, i: nat,
                    j: nat)
    requires Explains(cmp, most, bags, ops, outs) && i < j < |ops|
    requires forall k :: i <= k <= j ==> ops[k] == PopOp
    requires outs[j].out.Some?
    ensures outs[i].out.Some? && cmp(outs[i].out.value, outs[j].out.value) >= 0
  {
    OnlyShrinks(cmp, most, bags, ops, outs, i, j);
    assert StepOk(cmp, most, bags[i], ops[i], outs[i], bags[i + 1]);
    assert StepOk(cmp, most, bags[j], ops[j], outs[j], bags[j + 1]);
    assert outs[j].out.value in bags[j] && bags[j][outs[j].out.value] <= bags[i][outs[j].out.value];
  }
}
