/**
 * The device's relay socket (main/tcp_mgr.c): three tasks that share one descriptor under a mutex.
 * A step is what a task does between two points where another may run; what the network and the
 * scheduler choose is part of the step.
 */
module RelayTasks {

  import opened Options

  const SEND_QUEUE_DEPTH: nat := 32

  datatype Task = Cmd | Rx | Tx

  /**
   * How far a task is in close_relay: `target` is the connection that it called close_relay for, if there was
   * one, and `gen` the one whose descriptor it swapped out.
   */
  datatype Closer = NotClosing | Entering(target: Option<nat>) | Swapped(fd: int, gen: nat) | SocketClosed(gen: nat)

  datatype CmdState = CmdIdle | Connecting | HasSocket(sock: int, gen: nat) | SendChecked(job: seq<int>)
  datatype RxState = RxLoop | Polling(fd: int) | Readable(fd: int)
  datatype TxState = TxWaiting | HasJob(job: seq<int>) | Sending(fd: int, left: seq<int>)

  datatype State = State(
    fd: int,                  // s_fd, -1 when disconnected
    gen: nat,                 // the connection that fd belongs to; a connection is numbered when its socket is opened
    open: set<int>,           // the descriptors that are open
    cmd: CmdState, rx: RxState, tx: TxState,
    closer: map<Task, Closer>,
    queue: seq<seq<int>>,
    accepted: seq<seq<int>>,  // the jobs that ever went into the queue
    taken: seq<seq<int>>,     // the jobs that the send task has taken from it
    sockets: nat,             // sockets opened so far
    connected: set<nat>,      // the connections whose connect succeeded
    closes: seq<nat>,         // the connections whose descriptor close_relay closed
    pushes: seq<nat>)         // the connections for which CLOSED was pushed

  datatype CmdStep =
    | ConnectCheck | ResolveFails | SocketOpens(sock: int) | ConnectFails | ConnectSucceeds
    | Disconnect | SendCheck(job: seq<int>) | SendEnqueue
  datatype RxStep = RxSnapshot | RxSelect(sel: int, interrupted: bool) | RxRecv(n: int, again: bool)
  datatype TxStep = TxTake | TxSnapshot | TxSend(n: int)
  datatype CloseStep = Swap | CloseSocket | Push
  datatype Step = ByCmd(c: CmdStep) | ByRx(r: RxStep) | ByTx(x: TxStep) | Closing(task: Task, k: CloseStep)

  const INIT := State(-1, 0, {}, CmdIdle, RxLoop, TxWaiting,
                      map[Cmd := NotClosing, Rx := NotClosing, Tx := NotClosing], [], [], [], 0, {}, [], [])

  predicate Swapping(s: State, t: Task, fd: int) { t in s.closer && s.closer[t].Swapped? && s.closer[t].fd == fd }

  /**
   * The connection that a call on a descriptor is made on: the stored one, one whose connect is under way on a
   * number that is in use again, or one that a task is about to close. A number that is closed is no connection's.
   */
  function Owner(s: State, fd: int): Option<nat> {
    if fd < 0 then None
    else if s.fd == fd then Some(s.gen)
    else if s.cmd.HasSocket? && s.cmd.sock == fd then Some(s.cmd.gen)
    else if Swapping(s, Cmd, fd) then Some(s.closer[Cmd].gen)
    else if Swapping(s, Rx, fd) then Some(s.closer[Rx].gen)
    else if Swapping(s, Tx, fd) then Some(s.closer[Tx].gen)
    else None
  }

  /** A task calls close_relay for what it found on `fd`. */
  function Enter(s: State, t: Task, fd: int): State { s.(closer := s.closer[t := Entering(Owner(s, fd))]) }

  predicate Free(s: State, t: Task) { t in s.closer && s.closer[t] == NotClosing }

  /** tcp_mgr_connect, tcp_mgr_disconnect and tcp_mgr_send, called by the command task only. */
  function NextCmd(s: State, c: CmdStep): State
    requires Free(s, Cmd)
  {
    match c
    case ConnectCheck => if s.cmd == CmdIdle && s.fd < 0 then s.(cmd := Connecting) else s
    case ResolveFails => if s.cmd == Connecting then s.(cmd := CmdIdle) else s
    case SocketOpens(sock) =>
      if s.cmd == Connecting && sock >= 0 && sock !in s.open
      then s.(cmd := HasSocket(sock, s.sockets), sockets := s.sockets + 1, open := s.open + {sock}) else s
    case ConnectFails =>
      if s.cmd.HasSocket? then s.(cmd := CmdIdle, open := s.open - {s.cmd.sock}) else s
    case ConnectSucceeds =>
      if s.cmd.HasSocket?
      then s.(cmd := CmdIdle, fd := s.cmd.sock, gen := s.cmd.gen, connected := s.connected + {s.cmd.gen}) else s
    case Disconnect => if s.cmd == CmdIdle then Enter(s, Cmd, s.fd) else s
    case SendCheck(job) =>
      if s.cmd == CmdIdle && job != [] && s.fd >= 0 then s.(cmd := SendChecked(job)) else s
    case SendEnqueue =>
      if s.cmd.SendChecked? then
        if |s.queue| < SEND_QUEUE_DEPTH then
          s.(cmd := CmdIdle, queue := s.queue + [s.cmd.job], accepted := s.accepted + [s.cmd.job])
        else s.(cmd := CmdIdle)
      else s
  }

  /** tcp_rx_task */
  function NextRx(s: State, r: RxStep): State
    requires Free(s, Rx)
  {
    match r
    case RxSnapshot => if s.rx == RxLoop && s.fd >= 0 then s.(rx := Polling(s.fd)) else s
    case RxSelect(sel, interrupted) =>
      if !s.rx.Polling? then s
      else if sel < 0 then (if interrupted then s.(rx := RxLoop) else Enter(s.(rx := RxLoop), Rx, s.rx.fd))
      else if sel == 0 then s.(rx := RxLoop)
      else s.(rx := Readable(s.rx.fd))
    case RxRecv(n, again) =>
      if !s.rx.Readable? then s
      else if n > 0 || (n < 0 && again) then s.(rx := RxLoop)
      else Enter(s.(rx := RxLoop), Rx, s.rx.fd)
  }

  /** tcp_send_task */
  function NextTx(s: State, x: TxStep): State
    requires Free(s, Tx)
  {
    match x
    case TxTake =>
      if s.tx == TxWaiting && s.queue != [] then
        s.(tx := HasJob(s.queue[0]), queue := s.queue[1..], taken := s.taken + [s.queue[0]])
      else s
    case TxSnapshot =>
      if s.tx.HasJob? then s.(tx := if s.fd < 0 then TxWaiting else Sending(s.fd, s.tx.job)) else s
    case TxSend(n) =>
      if !s.tx.Sending? then s
      else if n <= 0 then Enter(s.(tx := TxWaiting), Tx, s.tx.fd)
      else if n >= |s.tx.left| then s.(tx := TxWaiting)
      else s.(tx := Sending(s.tx.fd, s.tx.left[n..]))
  }

  /** close_relay: the swap under the mutex, shutdown and close, the CLOSED push. */
  function NextClose(s: State, t: Task, k: CloseStep): State
    requires t in s.closer
  {
    var c := s.closer[t];
    match k
    case Swap =>
      if !c.Entering? then s
      else if s.fd < 0 then s.(closer := s.closer[t := NotClosing])
      else s.(fd := -1, closer := s.closer[t := Swapped(s.fd, s.gen)])
    case CloseSocket =>
      if !c.Swapped? then s
      else s.(open := s.open - {c.fd}, closes := s.closes + [c.gen], closer := s.closer[t := SocketClosed(c.gen)])
    case Push =>
      if !c.SocketClosed? then s
      else s.(pushes := s.pushes + [c.gen], closer := s.closer[t := NotClosing])
  }

  /** What a step makes of the state; a step that is not enabled changes nothing. */
  function Next(s: State, step: Step): State {
    match step
    case ByCmd(c) => if Free(s, Cmd) then NextCmd(s, c) else s
    case ByRx(r) => if Free(s, Rx) then NextRx(s, r) else s
    case ByTx(x) => if Free(s, Tx) then NextTx(s, x) else s
    case Closing(t, k) => if t in s.closer then NextClose(s, t, k) else s
  }

  function Run(steps: seq<Step>): State {
    if steps == [] then INIT else Next(Run(steps[..|steps| - 1]), steps[|steps| - 1])
  }

  // ---- where a connection is ----

  function Ones(b: bool): nat { if b then 1 else 0 }

  predicate HoldsGen(c: Closer, g: nat) { (c.Swapped? || c.SocketClosed?) && c.gen == g }

  predicate ClosedGen(c: Closer, g: nat) { c.SocketClosed? && c.gen == g }

  ghost predicate Tasks(s: State) { Cmd in s.closer && Rx in s.closer && Tx in s.closer }

  /** In how many of the places where a connection can be this one is. */
  function Places(s: State, g: nat): nat
    requires Tasks(s)
  {
    Ones(s.fd >= 0 && s.gen == g)
    + Ones(HoldsGen(s.closer[Cmd], g)) + Ones(HoldsGen(s.closer[Rx], g)) + Ones(HoldsGen(s.closer[Tx], g))
    + multiset(s.pushes)[g]
  }

  function CloserCount(s: State): nat
    requires Tasks(s)
  {
    Ones(Holding(s.closer[Cmd])) + Ones(Holding(s.closer[Rx])) + Ones(Holding(s.closer[Tx]))
  }

  /** Between the swap and the push. */
  predicate Holding(c: Closer) { c.Swapped? || c.SocketClosed? }

  // ---- the invariant ----

  /** No two tasks, nor a task and s_fd, have the same open descriptor. */
  ghost predicate DescriptorsApart(s: State)
    requires Tasks(s)
  {
    && (s.fd >= 0 ==> s.fd in s.open)
    && (forall t :: t in s.closer && s.closer[t].Swapped? ==> 0 <= s.closer[t].fd != s.fd && s.closer[t].fd in s.open)
    && (forall t, u :: t in s.closer && u in s.closer && t != u && s.closer[t].Swapped? && s.closer[u].Swapped? ==>
          s.closer[t].fd != s.closer[u].fd)
    && (s.cmd.HasSocket? ==> s.cmd.sock in s.open && s.cmd.sock != s.fd)
    && (s.cmd.HasSocket? ==> forall t :: t in s.closer && s.closer[t].Swapped? ==> s.closer[t].fd != s.cmd.sock)
  }

  /** Connecting is done only while disconnected, and by the command task alone. */
  ghost predicate Control(s: State) {
    && Tasks(s)
    && s.fd >= -1
    && (s.cmd.Connecting? || s.cmd.HasSocket? ==> s.fd == -1)
    && (s.cmd.HasSocket? ==> s.cmd.sock >= 0)
    && (s.cmd != CmdIdle ==> s.closer[Cmd] == NotClosing)
    && |s.queue| <= SEND_QUEUE_DEPTH && s.accepted == s.taken + s.queue
  }

  /** The stored connection is the last that connected; one that is connecting comes after all that did. */
  ghost predicate Numbered(s: State) {
    && (forall g :: g in s.connected ==> g < s.sockets)
    && (s.fd >= 0 ==> s.gen in s.connected && forall g :: g in s.connected ==> g <= s.gen)
    && (s.cmd.HasSocket? ==> s.cmd.gen < s.sockets && forall g :: g in s.connected ==> g < s.cmd.gen)
  }

  /** The places where connection `g` has been closed already. */
  function ClosedCount(s: State, g: nat): nat
    requires Tasks(s)
  {
    Ones(ClosedGen(s.closer[Cmd], g)) + Ones(ClosedGen(s.closer[Rx], g)) + Ones(ClosedGen(s.closer[Tx], g))
    + multiset(s.pushes)[g]
  }

  ghost predicate InOnePlace(s: State, g: nat)
    requires Tasks(s)
  {
    Places(s, g) == Ones(g in s.connected) && multiset(s.closes)[g] == ClosedCount(s, g)
  }

  ghost predicate Balanced(s: State)
    requires Tasks(s)
  {
    |s.connected| == |s.pushes| + CloserCount(s) + Ones(s.fd >= 0)
  }

  ghost predicate Inv(s: State) {
    Control(s) && Numbered(s) && DescriptorsApart(s) && Balanced(s) && forall g: nat :: InOnePlace(s, g)
  }

  lemma CmdKeepsControl(s: State, c: CmdStep)
    requires Inv(s) && Free(s, Cmd)
    ensures Control(NextCmd(s, c)) && DescriptorsApart(NextCmd(s, c))
  {
  }

  lemma CmdKeepsNumbers(s: State, c: CmdStep)
    requires Inv(s) && Free(s, Cmd)
    ensures Numbered(NextCmd(s, c)) && Tasks(NextCmd(s, c)) && Balanced(NextCmd(s, c))
  {
  }

  lemma CmdKeepsPlace(s: State, c: CmdStep, g: nat)
    requires Inv(s) && Free(s, Cmd)
    ensures Tasks(NextCmd(s, c)) && InOnePlace(NextCmd(s, c), g)
  {
    assert InOnePlace(s, g);
    var n := NextCmd(s, c);
    if c != ConnectSucceeds { PlaceStays(s, n, g); }
  }

  /** A command that connects nothing moves no connection; Entering is not a place. */
  lemma PlaceStays(s: State, n: State, g: nat)
    requires Tasks(s) && Tasks(n) && InOnePlace(s, g)
    requires n.fd == s.fd && n.gen == s.gen && n.pushes == s.pushes && n.closes == s.closes && n.connected == s.connected
    requires forall t :: t in s.closer && t in n.closer ==>
      n.closer[t] == s.closer[t] || (s.closer[t] == NotClosing && n.closer[t].Entering?)
    ensures InOnePlace(n, g)
  {
    assert Cmd in s.closer && Rx in s.closer && Tx in s.closer;
    assert Cmd in n.closer && Rx in n.closer && Tx in n.closer;
  }

  lemma CmdKeeps(s: State, c: CmdStep)
    requires Inv(s) && Free(s, Cmd)
    ensures Inv(NextCmd(s, c))
  {
    CmdKeepsControl(s, c);
    CmdKeepsNumbers(s, c);
    forall g: nat ensures InOnePlace(NextCmd(s, c), g) { CmdKeepsPlace(s, c, g); }
  }

  lemma EnterKeeps(s: State, t: Task, fd: int)
    requires Inv(s) && Free(s, t) && (t == Cmd ==> s.cmd == CmdIdle)
    ensures Inv(Enter(s, t, fd))
  {
    forall g: nat ensures InOnePlace(Enter(s, t, fd), g) { assert InOnePlace(s, g); }
  }

  /** What the receive and send tasks keep to themselves. */
  lemma LocalKeeps(s: State, n: State)
    requires Inv(s) && n == s.(rx := n.rx, tx := n.tx, queue := n.queue, taken := n.taken)
    requires |n.queue| <= SEND_QUEUE_DEPTH && s.accepted == n.taken + n.queue
    ensures Inv(n)
  {
    forall g: nat ensures InOnePlace(n, g) { assert InOnePlace(s, g); }
  }

  lemma RxKeeps(s: State, r: RxStep)
    requires Inv(s) && Free(s, Rx)
    ensures Inv(NextRx(s, r))
  {
    var n := NextRx(s, r);
    LocalKeeps(s, s.(rx := n.rx));
    if s.rx != RxLoop { EnterKeeps(s.(rx := n.rx), Rx, s.rx.fd); }
  }

  lemma TxKeeps(s: State, x: TxStep)
    requires Inv(s) && Free(s, Tx)
    ensures Inv(NextTx(s, x))
  {
    var n := NextTx(s, x);
    var local := s.(tx := n.tx, queue := n.queue, taken := n.taken);
    assert s.accepted == n.taken + n.queue;
    LocalKeeps(s, local);
    if s.tx.Sending? { EnterKeeps(local, Tx, s.tx.fd); }
  }

  lemma CloseKeepsControl(s: State, t: Task, k: CloseStep)
    requires Inv(s)
    ensures Control(NextClose(s, t, k)) && Numbered(NextClose(s, t, k)) && Balanced(NextClose(s, t, k))
  {
    match t case Cmd => {} case Rx => {} case Tx => {}
  }

  lemma CloseKeepsApart(s: State, t: Task, k: CloseStep)
    requires Inv(s)
    ensures DescriptorsApart(NextClose(s, t, k))
  {
    match t case Cmd => {} case Rx => {} case Tx => {}
  }

  lemma SwapKeepsPlace(s: State, t: Task, g: nat)
    requires Inv(s)
    ensures Tasks(NextClose(s, t, Swap)) && InOnePlace(NextClose(s, t, Swap), g)
  {
    assert InOnePlace(s, g);
    match t case Cmd => {} case Rx => {} case Tx => {}
  }

  lemma CloseSocketKeepsPlace(s: State, t: Task, g: nat)
    requires Inv(s)
    ensures Tasks(NextClose(s, t, CloseSocket)) && InOnePlace(NextClose(s, t, CloseSocket), g)
  {
    assert InOnePlace(s, g);
    match t case Cmd => {} case Rx => {} case Tx => {}
  }

  lemma PushKeepsPlace(s: State, t: Task, g: nat)
    requires Inv(s)
    ensures Tasks(NextClose(s, t, Push)) && InOnePlace(NextClose(s, t, Push), g)
  {
    assert InOnePlace(s, g);
    match t case Cmd => {} case Rx => {} case Tx => {}
  }

  lemma CloseKeepsPlace(s: State, t: Task, k: CloseStep, g: nat)
    requires Inv(s)
    ensures Tasks(NextClose(s, t, k)) && InOnePlace(NextClose(s, t, k), g)
  {
    match k
    case Swap => SwapKeepsPlace(s, t, g);
    case CloseSocket => CloseSocketKeepsPlace(s, t, g);
    case Push => PushKeepsPlace(s, t, g);
  }

  lemma NextKeepsInv(s: State, step: Step)
    requires Inv(s)
    ensures Inv(Next(s, step))
  {
    match step
    case ByCmd(c) => if Free(s, Cmd) { CmdKeeps(s, c); }
    case ByRx(r) => if Free(s, Rx) { RxKeeps(s, r); }
    case ByTx(x) => if Free(s, Tx) { TxKeeps(s, x); }
    case Closing(t, k) =>
      if t in s.closer { CloseKeeps(s, t, k); }
  }

  lemma CloseKeeps(s: State, t: Task, k: CloseStep)
    requires Inv(s) && t in s.closer
    ensures Inv(NextClose(s, t, k))
  {
    CloseKeepsControl(s, t, k);
    CloseKeepsApart(s, t, k);
    forall g: nat ensures InOnePlace(NextClose(s, t, k), g) { CloseKeepsPlace(s, t, k, g); }
  }

  // ---- what holds in every interleaving ----

  lemma {:induction false} Always(steps: seq<Step>)
    ensures Inv(Run(steps))
  {
    if steps == [] {
      forall g: nat ensures InOnePlace(INIT, g) {}
    } else {
      Always(steps[..|steps| - 1]);
      NextKeepsInv(Run(steps[..|steps| - 1]), steps[|steps| - 1]);
    }
  }

  /** Every successful connect is still open, being closed, or has been reported closed: exactly one of these. */
  lemma Conservation(steps: seq<Step>)
    ensures var s := Run(steps);
      Tasks(s) && |s.connected| == |s.pushes| + CloserCount(s) + (if s.fd >= 0 then 1 else 0)
  {
    Always(steps);
  }

  /** No connection is closed twice or reported closed twice, and none is reported before it is closed. */
  lemma ClosedOnce(steps: seq<Step>, g: nat)
    ensures var s := Run(steps);
      && multiset(s.pushes)[g] <= multiset(s.closes)[g] <= 1
      && (g in multiset(s.closes) ==> g in s.connected)
      && (s.fd >= 0 && s.gen == g ==> g !in multiset(s.closes))
  {
    Always(steps);
    assert InOnePlace(Run(steps), g);
  }

  /** A successful connect never overwrites a descriptor: there is none to overwrite. */
  lemma NeverOverwritten(steps: seq<Step>)
    ensures Run(steps).cmd.HasSocket? ==> Run(steps).fd == -1
  {
    Always(steps);
  }

  /** close_relay closes only a descriptor that is open, and that no one else can still close. */
  lemma ClosesOpenDescriptor(steps: seq<Step>, t: Task, u: Task)
    requires t in Run(steps).closer && Run(steps).closer[t].Swapped?
    ensures var s := Run(steps); s.closer[t].fd in s.open && s.closer[t].fd != s.fd
    ensures var s := Run(steps);
      u in s.closer && u != t && s.closer[u].Swapped? ==> s.closer[u].fd != s.closer[t].fd
  {
    Always(steps);
  }

  /** Once nothing is being closed and nothing is connected, every connect has had its CLOSED push. */
  lemma QuietMeansAllReported(steps: seq<Step>)
    requires var s := Run(steps); s.fd < 0 && forall t :: t in s.closer ==> !Holding(s.closer[t])
    ensures var s := Run(steps); |s.pushes| == |s.connected| && forall g: nat :: g in s.pushes <==> g in s.connected
  {
    Always(steps);
    var s := Run(steps);
    forall g: nat ensures g in s.pushes <==> g in s.connected {
      assert InOnePlace(s, g);
      assert g in s.pushes <==> g in multiset(s.pushes);
    }
  }

  /** The queue holds, in the order in which they were accepted, the jobs not yet taken, at most 32. */
  lemma JobsInOrder(steps: seq<Step>)
    ensures var s := Run(steps); s.accepted == s.taken + s.queue && |s.queue| <= 32
  {
    Always(steps);
  }

  // ---- what each call does, whatever the others are at ----

  /** tcp_mgr_send: refused while disconnected, dropped while the queue is full. */
  lemma SendIff(s: State, job: seq<int>)
    requires Free(s, Cmd) && s.cmd == CmdIdle
    ensures Next(s, ByCmd(SendCheck(job))) == if job != [] && s.fd >= 0 then s.(cmd := SendChecked(job)) else s
    ensures var n := Next(s.(cmd := SendChecked(job)), ByCmd(SendEnqueue));
      n.cmd == CmdIdle && n.accepted == s.accepted + (if |s.queue| < 32 then [job] else [])
  {
  }

  /** tcp_mgr_connect: nothing while connected; otherwise the new socket ends up stored, or closed. */
  lemma ConnectIff(s: State, sock: nat)
    requires Free(s, Cmd) && s.cmd == CmdIdle && sock !in s.open
    ensures s.fd >= 0 ==> Next(s, ByCmd(ConnectCheck)) == s
    ensures s.fd < 0 ==>
      var c := Next(Next(s, ByCmd(ConnectCheck)), ByCmd(SocketOpens(sock)));
      && Next(c, ByCmd(ConnectFails)).(sockets := s.sockets) == s
      && Next(c, ByCmd(ConnectSucceeds)) ==
           s.(fd := sock, gen := s.sockets, sockets := s.sockets + 1, connected := s.connected + {s.sockets},
              open := s.open + {sock})
      && Next(Next(s, ByCmd(ConnectCheck)), ByCmd(ResolveFails)) == s
  {
    if s.fd < 0 { assert (s.open + {sock}) - {sock} == s.open; }
  }

  /** Both background tasks read s_fd afresh; a job that is taken while disconnected is discarded. */
  lemma SnapshotIff(s: State)
    requires Free(s, Rx) && Free(s, Tx)
    ensures s.rx == RxLoop ==> Next(s, ByRx(RxSnapshot)).rx == if s.fd >= 0 then Polling(s.fd) else RxLoop
    ensures s.tx.HasJob? ==>
      Next(s, ByTx(TxSnapshot)).tx == if s.fd >= 0 then Sending(s.fd, s.tx.job) else TxWaiting
    ensures s.tx == TxWaiting && s.queue != [] ==>
      Next(s, ByTx(TxTake)).tx == HasJob(s.queue[0]) && Next(s, ByTx(TxTake)).taken == s.taken + [s.queue[0]]
  {
  }

  /** close_relay, uninterrupted: what is stored is closed and reported once; with nothing stored it does nothing. */
  lemma CloseRelay(s: State, t: Task, target: Option<nat>)
    requires t in s.closer && s.closer[t] == Entering(target)
    ensures var idle := s.(closer := s.closer[t := NotClosing]);
      && (s.fd < 0 ==> Next(s, Closing(t, Swap)) == idle)
      && (s.fd >= 0 ==>
            Next(Next(Next(s, Closing(t, Swap)), Closing(t, CloseSocket)), Closing(t, Push)) ==
              idle.(fd := -1, open := s.open - {s.fd}, closes := s.closes + [s.gen], pushes := s.pushes + [s.gen]))
  {
    if s.fd >= 0 {
      var a := Next(s, Closing(t, Swap));
      var b := Next(a, Closing(t, CloseSocket));
      assert b.closer == s.closer[t := SocketClosed(s.gen)];
      assert b.closer[t := NotClosing] == s.closer[t := NotClosing];
    }
  }

  // ---- which connection an error closes ----

  lemma RunNext(steps: seq<Step>, step: Step)
    ensures Run(steps + [step]) == Next(Run(steps), step)
  {
    assert (steps + [step])[..|steps|] == steps;
  }

  /** A connect succeeds: its socket is stored. */
  predicate Stores(s: State, step: Step) { step == ByCmd(ConnectSucceeds) && Free(s, Cmd) && s.cmd.HasSocket? }

  /** During `mid`, after `pre`, no connect succeeds but that of connection g. */
  predicate NoOther(pre: seq<Step>, mid: seq<Step>, g: nat) {
    mid == [] ||
    var k := |mid| - 1;
    var s := Run(pre + mid[..k]);
    NoOther(pre, mid[..k], g) && (Stores(s, mid[k]) ==> s.cmd.gen == g)
  }

  /** A state and one that comes after it: what is connected or stored in between was not before. */
  ghost predicate Onward(s: State, n: State) {
    && s.sockets <= n.sockets && s.connected <= n.connected
    && (forall g :: g in n.connected ==> g in s.connected || NewIn(s, g))
    && (n.cmd.HasSocket? ==> NewIn(s, n.cmd.gen))
    && (n.fd >= 0 && n.gen in s.connected ==> n.fd == s.fd && n.gen == s.gen)
  }

  predicate NewIn(s: State, g: nat) { g >= s.sockets || (s.cmd.HasSocket? && s.cmd.gen == g) }

  lemma NextOnward(s: State, n: State, step: Step)
    requires Onward(s, n) && Numbered(s) && Numbered(n)
    ensures Onward(s, Next(n, step))
  {
  }

  lemma {:induction false} RunsOnward(pre: seq<Step>, mid: seq<Step>)
    ensures Onward(Run(pre), Run(pre + mid))
  {
    Always(pre);
    if mid == [] {
      assert pre + mid == pre;
    } else {
      var k := |mid| - 1;
      RunsOnward(pre, mid[..k]);
      Always(pre + mid[..k]);
      assert pre + mid == (pre + mid[..k]) + [mid[k]];
      RunNext(pre + mid[..k], mid[k]);
      NextOnward(Run(pre), Run(pre + mid[..k]), mid[k]);
    }
  }

  /** What a step does to s_fd, and to a task that is about to swap it out. */
  lemma NextStored(s: State, step: Step, t: Task)
    ensures !Stores(s, step) && Next(s, step).fd >= 0 ==> Next(s, step).fd == s.fd && Next(s, step).gen == s.gen
    ensures Stores(s, step) ==> Next(s, step).gen == s.cmd.gen && s.cmd.gen in Next(s, step).connected
    ensures s.connected <= Next(s, step).connected
    ensures t in s.closer && s.closer[t].Entering? && step != Closing(t, Swap) ==>
      t in Next(s, step).closer && Next(s, step).closer[t] == s.closer[t]
  {
  }

  /** With no other connect, what is stored at the end is connection g or what was stored at the beginning. */
  lemma {:induction false} StoredDuring(pre: seq<Step>, mid: seq<Step>, t: Task, g: nat)
    ensures var s, n := Run(pre), Run(pre + mid);
      NoOther(pre, mid, g) && n.fd >= 0 ==> n.gen == g || (n.fd == s.fd && n.gen == s.gen)
    ensures var s, n := Run(pre), Run(pre + mid);
      t in s.closer && s.closer[t].Entering? && Closing(t, Swap) !in mid ==> t in n.closer && n.closer[t] == s.closer[t]
  {
    if mid == [] {
      assert pre + mid == pre;
    } else {
      var k := |mid| - 1;
      StoredDuring(pre, mid[..k], t, g);
      assert pre + mid == (pre + mid[..k]) + [mid[k]];
      RunNext(pre + mid[..k], mid[k]);
      NextStored(Run(pre + mid[..k]), mid[k], t);
    }
  }

  /** Another connect leaves a trace. */
  lemma {:induction false} OtherDuring(pre: seq<Step>, mid: seq<Step>, g: nat) returns (other: nat)
    requires !NoOther(pre, mid, g)
    ensures other != g && other in Run(pre + mid).connected && NewIn(Run(pre), other)
  {
    var k := |mid| - 1;
    var s := Run(pre + mid[..k]);
    assert pre + mid == (pre + mid[..k]) + [mid[k]];
    RunNext(pre + mid[..k], mid[k]);
    NextStored(s, mid[k], Cmd);
    if NoOther(pre, mid[..k], g) {
      other := s.cmd.gen;
      RunsOnward(pre, mid[..k]);
    } else {
      other := OtherDuring(pre, mid[..k], g);
    }
  }

  /** The descriptor on which a task makes its calls. */
  predicate Uses(s: State, t: Task, fd: int) {
    match t
    case Cmd => false
    case Rx => (s.rx.Polling? || s.rx.Readable?) && s.rx.fd == fd
    case Tx => s.tx.Sending? && s.tx.fd == fd
  }

  /**
   * A call of task t on fd fails, or reports the end of the stream: select fails and is not interrupted, recv
   * returns 0, recv fails and not because it would block, send does not send.
   */
  predicate Fails(s: State, step: Step, t: Task, fd: int) {
    Free(s, t) && Uses(s, t, fd) &&
    match step
    case ByRx(RxSelect(sel, interrupted)) => t == Rx && s.rx.Polling? && sel < 0 && !interrupted
    case ByRx(RxRecv(n, again)) => t == Rx && s.rx.Readable? && (n == 0 || (n < 0 && !again))
    case ByTx(TxSend(n)) => t == Tx && n <= 0
    case _ => false
  }

  /** A failure, and nothing else in the receive task, makes it call close_relay for that connection. */
  lemma RxEntersIff(s: State, r: RxStep)
    requires Free(s, Rx)
    ensures var n := Next(s, ByRx(r));
      && (s.rx.Polling? && r.RxSelect? && r.sel < 0 && !r.interrupted ==>
            n.rx == RxLoop && n.closer == s.closer[Rx := Entering(Owner(s, s.rx.fd))])
      && (s.rx.Readable? && r.RxRecv? && (r.n == 0 || (r.n < 0 && !r.again)) ==>
            n.rx == RxLoop && n.closer == s.closer[Rx := Entering(Owner(s, s.rx.fd))])
      && (Rx in n.closer && n.closer[Rx] != NotClosing <==>
            (s.rx.Polling? && r.RxSelect? && r.sel < 0 && !r.interrupted)
            || (s.rx.Readable? && r.RxRecv? && (r.n == 0 || (r.n < 0 && !r.again))))
  {
  }

  /** The same for the send task; as long as send takes something, what is left of the job is sent on. */
  lemma TxEntersIff(s: State, x: TxStep)
    requires Free(s, Tx)
    ensures var n := Next(s, ByTx(x));
      && (s.tx.Sending? && x.TxSend? && x.n <= 0 ==>
            n.tx == TxWaiting && n.closer == s.closer[Tx := Entering(Owner(s, s.tx.fd))])
      && (s.tx.Sending? && x.TxSend? && x.n > 0 ==>
            n.tx == if x.n < |s.tx.left| then Sending(s.tx.fd, s.tx.left[x.n..]) else TxWaiting)
      && (Tx in n.closer && n.closer[Tx] != NotClosing <==> s.tx.Sending? && x.TxSend? && x.n <= 0)
  {
  }

  lemma FailsEnters(s: State, step: Step, t: Task, fd: int)
    requires Free(s, t) && Uses(s, t, fd)
    ensures Fails(s, step, t, fd) <==> t in Next(s, step).closer && Next(s, step).closer[t] != NotClosing
    ensures Fails(s, step, t, fd) ==> Next(s, step).closer[t] == Entering(Owner(s, fd))
    ensures Fails(s, step, t, fd) ==> KeepsStored(s, Next(s, step))
  {
  }

  predicate KeepsStored(s: State, n: State) {
    n.fd == s.fd && n.gen == s.gen && n.sockets == s.sockets && n.connected == s.connected && n.cmd == s.cmd
  }

  /** At the call the descriptor was the stored one, or that of the connect under way. */
  predicate Current(s: State, fd: int) { s.fd == fd || (s.cmd.HasSocket? && s.cmd.sock == fd) }

  lemma OwnerIsKnown(s: State, fd: int)
    requires Inv(s) && Owner(s, fd).Some?
    ensures var g := Owner(s, fd).value;
      && g < s.sockets && (s.fd >= 0 && s.gen == g ==> s.fd == fd)
      && (if Current(s, fd) then NewIn(s, g) || (s.fd == fd && s.gen == g) else g in s.connected)
  {
    assert InOnePlace(s, Owner(s, fd).value);
  }

  /** The swap of task t takes out this connection. */
  predicate TakesOut(s: State, t: Task, g: nat) {
    var n := Next(s, Closing(t, Swap));
    t in n.closer && n.closer[t].Swapped? && n.closer[t].gen == g
  }

  lemma TakesOutIff(s: State, t: Task, g: nat)
    requires t in s.closer && s.closer[t].Entering?
    ensures TakesOut(s, t, g) <==> s.fd >= 0 && s.gen == g
  {
  }

  /** Whatever is stored when the swap comes, between the call and the swap: not an earlier connection. */
  lemma StoredLater(at: State, s: State, fd: int)
    requires Inv(at) && Inv(s) && Onward(at, s) && Owner(at, fd).Some? && s.fd >= 0
    ensures Owner(at, fd).value <= s.gen
    ensures s.gen == Owner(at, fd).value ==> Current(at, fd)
  {
    OwnerIsKnown(at, fd);
  }

  /**
   * A call on connection g fails, and in time the task's swap follows. It takes out connection g exactly when, at
   * the call, g was stored or connecting, no other connect has succeeded since, and a descriptor is stored.
   * Otherwise it takes out nothing or whatever is stored by then, which is a later connection.
   */
  lemma ErrorClosesItsOwnIff(pre: seq<Step>, step: Step, mid: seq<Step>, t: Task, fd: int, g: nat)
    requires Fails(Run(pre), step, t, fd) && Owner(Run(pre), fd) == Some(g) && Closing(t, Swap) !in mid
    ensures var s := Run(pre + [step] + mid);
      && (TakesOut(s, t, g) <==> Current(Run(pre), fd) && NoOther(pre + [step], mid, g) && s.fd >= 0)
      && (forall x: nat :: TakesOut(s, t, x) <==> s.fd >= 0 && s.gen == x)
      && (s.fd >= 0 ==> g <= s.gen)
  {
    var at, failed := Run(pre), pre + [step];
    var s := Run(failed + mid);
    RunNext(pre, step);
    FailsEnters(at, step, t, fd);
    StoredDuring(failed, mid, t, g);
    RunsOnward(failed, mid);
    assert Onward(at, s);
    Always(pre);
    Always(failed + mid);
    forall x: nat ensures TakesOut(s, t, x) <==> s.fd >= 0 && s.gen == x { TakesOutIff(s, t, x); }
    OwnerIsKnown(at, fd);
    if s.fd >= 0 {
      StoredLater(at, s, fd);
      if s.gen == g && !NoOther(failed, mid, g) {
        var other := OtherDuring(failed, mid, g);
        assert false;
      }
    }
  }

  function Connect(sock: int): seq<Step> {
    [ByCmd(ConnectCheck), ByCmd(SocketOpens(sock)), ByCmd(ConnectSucceeds)]
  }

  /** From a state where the command task is idle and nothing is stored. */
  lemma ConnectRuns(steps: seq<Step>, sock: nat)
    requires var s := Run(steps); s.cmd == CmdIdle && Free(s, Cmd) && s.fd < 0 && sock !in s.open
    ensures var s := Run(steps);
      Run(steps + Connect(sock)) ==
        s.(fd := sock, gen := s.sockets, sockets := s.sockets + 1, connected := s.connected + {s.sockets},
           open := s.open + {sock})
  {
    var c := Connect(sock);
    RunNext(steps, c[0]);
    RunNext(steps + [c[0]], c[1]);
    RunNext(steps + [c[0]] + [c[1]], c[2]);
    assert steps + [c[0]] + [c[1]] + [c[2]] == steps + c;
  }

  const POLL := [ByRx(RxSnapshot), ByRx(RxSelect(1, false))]

  /** The receive task takes its snapshot and finds the descriptor readable. */
  lemma PollRuns(steps: seq<Step>)
    requires var s := Run(steps); s.rx == RxLoop && Free(s, Rx) && s.fd >= 0
    ensures Run(steps + POLL) == Run(steps).(rx := Readable(Run(steps).fd))
  {
    RunNext(steps, POLL[0]);
    RunNext(steps + [POLL[0]], POLL[1]);
    assert steps + [POLL[0]] + [POLL[1]] == steps + POLL;
  }

  const DISCONNECT := [ByCmd(Disconnect), Closing(Cmd, Swap), Closing(Cmd, CloseSocket), Closing(Cmd, Push)]

  /** The command task closes what is stored, without a pause. */
  lemma DisconnectRuns(steps: seq<Step>)
    requires var s := Run(steps); s.cmd == CmdIdle && Free(s, Cmd) && s.fd >= 0
    ensures var s := Run(steps);
      Run(steps + DISCONNECT) ==
        s.(fd := -1, open := s.open - {s.fd}, closes := s.closes + [s.gen], pushes := s.pushes + [s.gen])
  {
    var s, d := Run(steps), DISCONNECT;
    RunNext(steps, d[0]);
    RunNext(steps + [d[0]], d[1]);
    RunNext(steps + [d[0]] + [d[1]], d[2]);
    RunNext(steps + [d[0]] + [d[1]] + [d[2]], d[3]);
    assert Run(steps + [d[0]] + [d[1]]) == s.(fd := -1, closer := s.closer[Cmd := Swapped(s.fd, s.gen)]);
    assert s.closer[Cmd := SocketClosed(s.gen)][Cmd := NotClosing] == s.closer;
    assert steps + [d[0]] + [d[1]] + [d[2]] + [d[3]] == steps + d;
  }

  const END := ByRx(RxRecv(0, false))

  /** The receive task is in close_relay, and connection 1 is the stored one. */
  predicate ClosesSecond(s: State) {
    Rx in s.closer && s.closer[Rx].Entering? && s.connected == {0, 1} && s.fd >= 0 && TakesOut(s, Rx, 1)
  }

  const STORED := INIT.(fd := 5, sockets := 1, connected := {0}, open := {5})

  /** The first connection is up, and the receive task has found its descriptor readable. */
  lemma FirstReadable()
    ensures Run(Connect(5) + POLL) == STORED.(rx := Readable(5))
  {
    ConnectRuns([], 5);
    assert [] + Connect(5) == Connect(5);
    assert INIT.connected + {0} == {0} && INIT.open + {5} == {5};
    PollRuns(Connect(5));
  }

  /** Whatever the receive task is at, the host disconnects and connects again. */
  lemma Reconnects(steps: seq<Step>, sock: nat)
    requires var s := Run(steps); s == STORED.(rx := s.rx, closer := s.closer) && Free(s, Cmd)
    ensures var s := Run(steps);
      Run(steps + DISCONNECT + Connect(sock)) ==
        s.(fd := sock, gen := 1, sockets := 2, connected := {0, 1}, open := {sock}, closes := [0], pushes := [0])
  {
    DisconnectRuns(steps);
    assert {5} - {5} == {} && [] + [0] == [0];
    ConnectRuns(steps + DISCONNECT, sock);
    assert {} + {sock} == {sock} && {0} + {1} == {0, 1};
  }

  /**
   * So it does happen that the receive task closes the connection that came after, on which nothing has failed:
   * recv has reported the end of connection 0, then the host disconnects and connects again, and then the swap
   * comes.
   */
  lemma ErrorMayCloseSuccessor() returns (pre: seq<Step>, mid: seq<Step>)
    ensures Fails(Run(pre), END, Rx, 5) && Owner(Run(pre), 5) == Some(0)
    ensures Closing(Rx, Swap) !in mid && ClosesSecond(Run(pre + [END] + mid))
  {
    pre, mid := Connect(5) + POLL, DISCONNECT + Connect(5);
    FirstReadable();
    RunNext(pre, END);
    Reconnects(pre + [END], 5);
    assert pre + [END] + DISCONNECT + Connect(5) == pre + [END] + mid;
  }

  /**
   * It even happens with no connect after the failure: the call was made on the number of a descriptor that had
   * been closed before, and its error closes the connection that is stored under another number.
   */
  lemma StaleCallMayCloseSuccessor() returns (pre: seq<Step>)
    ensures Fails(Run(pre), END, Rx, 5) && Owner(Run(pre), 5) == None
    ensures ClosesSecond(Run(pre + [END] + []))
  {
    var first := Connect(5) + POLL;
    pre := first + DISCONNECT + Connect(6);
    FirstReadable();
    Reconnects(first, 6);
    RunNext(pre, END);
    assert pre + [END] + [] == pre + [END];
  }
}
