/** What the device's send queue and socket let through of the jobs that they are given (main/tcp_mgr.c). */
module RelayJobs {

  import opened Crc16
  import opened Sequences

  /**
   * What the network does to job k: whether the queue has room for it, and what call i of send for it would
   * take or, when that is not positive, that the call fails.
   */
  datatype Net = Net(queued: nat -> bool, accepts: nat -> nat -> int)

  /** How many of n bytes go out, from call i on. */
  function Drained(n: nat, accepts: nat -> int, i: nat): (sent: nat)
    ensures sent <= n
  {
    if n == 0 || accepts(i) <= 0 then 0
    else if accepts(i) >= n then n
    else accepts(i) + Drained(n - accepts(i), accepts, i + 1)
  }

  lemma {:induction false} DrainedAll(n: nat, accepts: nat -> int, i: nat)
    requires forall k :: accepts(k) > 0
    ensures Drained(n, accepts, i) == n
  {
    if 0 < accepts(i) < n { DrainedAll(n - accepts(i), accepts, i + 1); }
  }

  /** The call that fails when not all is drained. */
  lemma {:induction false} DrainedStops(n: nat, accepts: nat -> int, i: nat) returns (k: nat)
    requires Drained(n, accepts, i) < n
    ensures accepts(k) <= 0
  {
    if accepts(i) <= 0 { k := i; } else { k := DrainedStops(n - accepts(i), accepts, i + 1); }
  }

  /** What of job k goes out while the connection is up. */
  function Sent(job: seq<Byte>, net: Net, k: nat): (sent: seq<Byte>)
    ensures sent <= job
  {
    if net.queued(k) then job[..Drained(|job|, net.accepts(k), 0)] else []
  }

  /** A send that fails closes the connection. */
  predicate Fails(job: seq<Byte>, net: Net, k: nat) { net.queued(k) && Sent(job, net, k) != job }

  /** After these jobs the connection is still up. */
  predicate Up(jobs: seq<seq<Byte>>, net: Net) {
    jobs == [] ||
    var k := |jobs| - 1;
    Up(jobs[..k], net) && !Fails(jobs[k], net, k)
  }

  /** What goes out of these jobs before the connection is closed: the later ones are discarded. */
  function Relayed(jobs: seq<seq<Byte>>, net: Net): seq<Byte> {
    if jobs == [] then []
    else
      var k := |jobs| - 1;
      Relayed(jobs[..k], net) + if Up(jobs[..k], net) then Sent(jobs[k], net, k) else []
  }

  /**
   * What goes out of each job. Up to the first job that the queue takes and a send fails for, all that the queue
   * takes goes out whole; of that one, a part; of the later ones, nothing.
   */
  lemma {:induction false} RelayedIs(jobs: seq<seq<Byte>>, net: Net) returns (fails: nat, out: seq<seq<Byte>>)
    ensures Relayed(jobs, net) == Concat(out) && Up(jobs, net) == (fails == |jobs|)
    ensures |out| == |jobs| && fails <= |jobs|
    ensures forall k :: 0 <= k < fails ==> out[k] == if net.queued(k) then jobs[k] else []
    ensures forall k :: fails < k < |jobs| ==> out[k] == []
    ensures fails < |jobs| ==>
      net.queued(fails) && out[fails] < jobs[fails] && exists i :: net.accepts(fails)(i) <= 0
  {
    if jobs == [] {
      fails, out := 0, [];
    } else {
      var k := |jobs| - 1;
      fails, out := RelayedIs(jobs[..k], net);
      var last := if fails == k then Sent(jobs[k], net, k) else [];
      assert Concat(out + [last]) == Concat(out) + last by { FlatMapSnoc((piece: seq<Byte>) => piece, out, last); }
      out := out + [last];
      if fails == k && Fails(jobs[k], net, k) {
        var i := DrainedStops(|jobs[k]|, net.accepts(k), 0);
      } else if fails == k {
        fails := k + 1;
      }
    }
  }

  lemma RelayedNext(jobs: seq<seq<Byte>>, job: seq<Byte>, net: Net)
    ensures Relayed(jobs + [job], net) ==
            Relayed(jobs, net) + if Up(jobs, net) then Sent(job, net, |jobs|) else []
    ensures Up(jobs + [job], net) == (Up(jobs, net) && !Fails(job, net, |jobs|))
  {
    assert (jobs + [job])[..|jobs|] == jobs;
  }

  lemma ConcatNext(jobs: seq<seq<Byte>>)
    requires jobs != []
    ensures Concat(jobs) == Concat(jobs[..|jobs| - 1]) + jobs[|jobs| - 1]
  {
    FlatMapSnoc((piece: seq<Byte>) => piece, jobs[..|jobs| - 1], jobs[|jobs| - 1]);
    assert jobs[..|jobs| - 1] + [jobs[|jobs| - 1]] == jobs;
  }

  lemma {:induction false} RelayedGrows(some: seq<seq<Byte>>, jobs: seq<seq<Byte>>, net: Net)
    requires some <= jobs
    ensures Relayed(some, net) <= Relayed(jobs, net)
    decreases |jobs|
  {
    if some != jobs { RelayedGrows(some, jobs[..|jobs| - 1], net); }
  }

  /** The queue takes job k, and no send for it fails. */
  ghost predicate Through(net: Net, k: nat) { net.queued(k) && forall i :: net.accepts(k)(i) > 0 }

  ghost predicate Passes(net: Net, n: nat) { forall k :: 0 <= k < n ==> Through(net, k) }

  ghost predicate NeverFails(net: Net) { forall k: nat :: Through(net, k) }

  ghost predicate NeverFull(net: Net) { forall k :: net.queued(k) }

  lemma {:induction false} PassingIsWhole(jobs: seq<seq<Byte>>, net: Net)
    requires Passes(net, |jobs|)
    ensures Relayed(jobs, net) == Concat(jobs) && Up(jobs, net)
  {
    if jobs != [] {
      var k := |jobs| - 1;
      PassingIsWhole(jobs[..k], net);
      ConcatNext(jobs);
      assert Through(net, k);
      DrainedAll(|jobs[k]|, net.accepts(k), 0);
    }
  }

  /** When the queue always has room, a failure only cuts the stream short. */
  lemma {:induction false} FailureCuts(jobs: seq<seq<Byte>>, net: Net)
    requires NeverFull(net)
    ensures Relayed(jobs, net) <= Concat(jobs)
    ensures Up(jobs, net) ==> Relayed(jobs, net) == Concat(jobs)
  {
    if jobs != [] {
      FailureCuts(jobs[..|jobs| - 1], net);
      ConcatNext(jobs);
    }
  }
}
