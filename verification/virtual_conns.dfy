/**
 * The client's virtual connections (ctrl/proxy/client.go): one read loop feeds bounded channels, readers take
 * from them, and anyone may close. A method of the client is what one goroutine does between two points where
 * another may run: the read loop looks a connection up, tests its context, and sends in three steps, and a
 * connection is removed, cancelled and closed in three.
 */
module VirtualConns {

  import opened Crc16
  import opened Mux
  import opened Options
  import opened Sequences

  const CMD_CONNECT: Byte := 0
  const CMD_DATA: Byte := 1
  const CMD_CLOSE: Byte := 2
  const RECV_DEPTH: nat := 64
  const IDENTIFIERS: nat := 0x1_0000_0000

  // ---- what was meant for a connection ----

  function DataOf(id: ConnID, m: Message): seq<seq<Byte>> {
    if m.cmd == CMD_DATA && m.connID == id then [m.payload] else []
  }

  /** The data that the relay carried for this identifier, chunk by chunk. */
  function DataFor(id: ConnID, ms: seq<Message>): seq<seq<Byte>> {
    FlatMap((m: Message) => DataOf(id, m), ms)
  }

  /** One more message, and the connection's channel takes its data or not. */
  lemma OwnNext(accepted: seq<seq<Byte>>, id: ConnID, ms: seq<Message>, m: Message)
    requires Subsequence(accepted, DataFor(id, ms))
    ensures Subsequence(accepted, DataFor(id, ms + [m]))
    ensures m.cmd == CMD_DATA && m.connID == id ==> Subsequence(accepted + [m.payload], DataFor(id, ms + [m]))
  {
    FlatMapSnoc((m: Message) => DataOf(id, m), ms, m);
    if m.cmd == CMD_DATA && m.connID == id {
      SubsequenceSkip(accepted, DataFor(id, ms), m.payload);
      SubsequenceTake(accepted, DataFor(id, ms), m.payload);
    } else {
      assert DataFor(id, ms) + [] == DataFor(id, ms);
    }
  }

  lemma {:induction false} DataForSubsequence(id: ConnID, a: seq<Message>, b: seq<Message>)
    requires Subsequence(a, b)
    ensures Subsequence(DataFor(id, a), DataFor(id, b))
  {
    if a != [] {
      var i, j := |a| - 1, |b| - 1;
      assert a == a[..i] + [a[i]] && b == b[..j] + [b[j]];
      if Subsequence(a, b[..j]) {
        DataForSubsequence(id, a, b[..j]);
        OwnNext(DataFor(id, a), id, b[..j], b[j]);
      } else {
        DataForSubsequence(id, a[..i], b[..j]);
        OwnNext(DataFor(id, a[..i]), id, b[..j], b[j]);
        FlatMapSnoc((m: Message) => DataOf(id, m), a[..i], a[i]);
        assert DataFor(id, a[..i]) + [] == DataFor(id, a[..i]);
      }
    }
  }

  // ---- the connections ----

  datatype ReadResult = Bytes(data: seq<Byte>) | Eof | Blocked

  class ProxyConn {
    const id: ConnID
    var recvCh: seq<seq<Byte>>
    var done: bool                      // its context is cancelled
    var closed: bool                    // recvCh is closed
    var last: seq<Byte>                 // unconsumed tail of the last chunk
    var connResult: seq<bool>           // the connect acknowledgement, room for one
    ghost var share: seq<Message>       // what the read loop took from the relay while it was registered
    ghost var accepted: seq<seq<Byte>>  // the chunks that went into the channel
    ghost var read: seq<Byte>           // the bytes that Read has returned

    constructor (id: ConnID)
      ensures this.id == id && Flow() && Blank()
    {
      this.id := id;
      recvCh, done, closed, last, connResult := [], false, false, [], [];
      share, accepted, read := [], [], [];
      new;
      assert Concat<Byte>([]) == [];
    }

    /** As ConnectRemote makes it. */
    ghost predicate Blank()
      reads this
    {
      recvCh == [] && last == [] && connResult == [] && share == [] && accepted == [] && read == [] && !done && !closed
    }

    /** Nothing is lost or reordered between the channel's entry and the reader. */
    ghost predicate Flow()
      reads this`accepted, this`read, this`last, this`recvCh
    {
      Concat(accepted) == read + last + Concat(recvCh) && |recvCh| <= RECV_DEPTH
    }

    /** It holds, in order, only chunks that the relay carried for it while it was registered. */
    ghost predicate Own()
      reads this`share, this`accepted, this`read, this`last, this`recvCh
    {
      Flow() && Subsequence(accepted, DataFor(id, share))
    }

    /** The chunk, which the read loop holds, comes after all that have been accepted. */
    ghost predicate Held(data: seq<Byte>)
      reads this`share, this`accepted
    {
      Subsequence(accepted + [data], DataFor(id, share))
    }

    predicate HasRoom()
      reads this`closed, this`recvCh
    {
      !closed && |recvCh| < RECV_DEPTH
    }

    /** The send of deliver: a full channel drops the chunk, and so does the recovered panic of a closed one. */
    method Send(data: seq<Byte>)
      requires Flow()
      modifies this`recvCh, this`accepted
      ensures Flow()
      ensures accepted == if old(HasRoom()) then old(accepted) + [data] else old(accepted)
      ensures recvCh == if old(HasRoom()) then old(recvCh) + [data] else old(recvCh)
    {
      if !closed && |recvCh| < RECV_DEPTH {
        FlatMapSnoc((piece: seq<Byte>) => piece, recvCh, data);
        FlatMapSnoc((piece: seq<Byte>) => piece, accepted, data);
        recvCh := recvCh + [data];
        accepted := accepted + [data];
      }
    }

    /**
     * Read: at most `max` of the next bytes. When the context is cancelled, `preferDone` says which
     * of the two ready cases of the select is taken. A read that would wait gives Blocked.
     */
    method Read(max: nat, cancelled: bool, preferDone: bool) returns (r: ReadResult)
      requires Flow()
      modifies this`recvCh, this`last, this`read
      ensures Flow()
      ensures read == old(read) + (if r.Bytes? then r.data else [])
      ensures r.Bytes? && max > 0 ==> 0 < |r.data| <= max
      ensures r.Bytes? ==> |r.data| == max || last == []
      ensures old(last) != [] ==>
        r == Bytes(if max < |old(last)| then old(last)[..max] else old(last)) && recvCh == old(recvCh)
      ensures old(last) == [] && (done || cancelled) && preferDone ==> r == Eof && recvCh == old(recvCh)
      ensures old(last) == [] && !done && !cancelled && old(recvCh) != [] && old(recvCh)[0] != [] ==>
        var chunk := old(recvCh)[0];
        r == Bytes(if max < |chunk| then chunk[..max] else chunk) && recvCh == old(recvCh)[1..]
      ensures r == Eof ==> closed || done || cancelled
      ensures r == Blocked ==> last == [] && recvCh == [] && !closed && !done && !cancelled
      ensures !done && !cancelled && (old(last) != [] || exists i :: 0 <= i < |old(recvCh)| && old(recvCh)[i] != []) ==>
        r.Bytes?
    {
      var end := Refill(cancelled, preferDone);
      if end.Some? { return end.value; }
      var n := if max < |last| then max else |last|;
      r := Bytes(last[..n]);
      read := read + last[..n];
      last := last[n..];
    }

    /** The loop of Read: chunks are taken until one has bytes; or how it ends without. */
    method Refill(cancelled: bool, preferDone: bool) returns (end: Option<ReadResult>)
      requires Flow()
      modifies this`recvCh, this`last
      ensures Flow()
      ensures old(last) != [] ==> end == None && last == old(last) && recvCh == old(recvCh)
      ensures end == None ==> last != []
      ensures end != None ==> last == [] && (end.value == Eof || end.value == Blocked)
      ensures old(last) == [] && (done || cancelled) && preferDone ==> end == Some(Eof) && recvCh == old(recvCh)
      ensures old(last) == [] && !done && !cancelled && old(recvCh) != [] && old(recvCh)[0] != [] ==>
        end == None && last == old(recvCh)[0] && recvCh == old(recvCh)[1..]
      ensures end == Some(Eof) ==> closed || done || cancelled
      ensures end == Some(Blocked) ==> recvCh == [] && !closed && !done && !cancelled
      ensures !done && !cancelled && (exists i :: 0 <= i < |old(recvCh)| && old(recvCh)[i] != []) ==> end == None
    {
      while last == []
        invariant Flow()
        invariant old(last) != [] ==> last == old(last) && recvCh == old(recvCh)
        invariant old(last) == [] && (done || cancelled) && preferDone ==> last == [] && recvCh == old(recvCh)
        invariant old(last) == [] && old(recvCh) != [] && old(recvCh)[0] != [] ==>
          (last == [] && recvCh == old(recvCh)) || (last == old(recvCh)[0] && recvCh == old(recvCh)[1..])
        invariant last == [] && (exists i :: 0 <= i < |old(recvCh)| && old(recvCh)[i] != []) ==>
          exists i :: 0 <= i < |recvCh| && recvCh[i] != []
        decreases |recvCh|
      {
        if (done || cancelled) && preferDone { return Some(Eof); }
        if recvCh == [] { return Some(if closed || done || cancelled then Eof else Blocked); }
        last, recvCh := recvCh[0], recvCh[1..];
      }
      end := None;
    }

    /** The next step of shutdown: the context first, then the channel. */
    method ShutNext()
      modifies this`done, this`closed
      ensures done && closed == (old(closed) || old(done))
    {
      if done { closed := true; } else { done := true; }
    }
  }

  /** Where the read loop is: it may hold a connection that it has looked up, whatever happens to it meanwhile. */
  datatype Loop =
    | Idle
    | Delivering(to: ProxyConn, data: seq<Byte>)
    | Sending(to: ProxyConn, data: seq<Byte>)
    | Acking(to: ProxyConn, ok: bool)
    | Dropping(to: ProxyConn)
    | Stopped

  class Client {
    var conns: map<ConnID, ProxyConn>
    var nextID: ConnID
    var cancelled: bool
    var loop: Loop
    var shutting: set<ProxyConn>          // shutdown has been called on them
    ghost var all: set<ProxyConn>         // every connection ever opened

    /** It is the connection that its identifier means. */
    predicate Registered(pc: ProxyConn)
      reads this`conns
    {
      pc.id in conns && conns[pc.id] == pc
    }

    ghost predicate LoopOk()
      reads this`loop, this`all, all`share, all`accepted
    {
      match loop
      case Idle => true
      case Delivering(pc, data) => pc in all && pc.Held(data)
      case Sending(pc, data) => pc in all && pc.Held(data)
      case Acking(pc, ok) => pc in all
      case Dropping(pc) => pc in all
      case Stopped => true
    }

    ghost predicate Known()
      reads this`conns, this`all, this`shutting
    {
      && (forall id :: id in conns ==> conns[id] in all && conns[id].id == id)
      && shutting <= all
    }

    ghost predicate Valid()
      reads this, all
    {
      && (forall pc :: pc in all ==> pc.Own())
      && Known() && LoopOk()
    }

    constructor ()
      ensures Valid() && all == {} && conns == map[] && nextID == 0 && !cancelled && loop == Idle && shutting == {}
    {
      conns, nextID, cancelled, loop, shutting := map[], 0, false, Idle, {};
      all := {};
    }

    /** The slot that ConnectRemote allocates; identifiers wrap around at 32 bits. */
    method Open() returns (pc: ProxyConn)
      requires Valid()
      modifies this`conns, this`nextID, this`all
      ensures Valid() && fresh(pc) && pc.Blank() && pc.id == old(nextID)
      ensures all == old(all) + {pc} && conns == old(conns)[pc.id := pc]
      ensures nextID as int == (old(nextID) as int + 1) % IDENTIFIERS
    {
      pc := new ProxyConn(nextID);
      nextID := if nextID == 0xFFFF_FFFF then 0 else nextID + 1;
      conns := conns[pc.id := pc];
      all := all + {pc};
      assert pc.Own();
    }

    /** Where the loop goes with a message: dispatch up to the end of getConn. */
    function Found(m: Message): Loop
      reads this`conns
    {
      if m.connID !in conns then Idle
      else if m.cmd == CMD_CONNECT then Acking(conns[m.connID], |m.payload| == 1 && m.payload[0] == 0)
      else if m.cmd == CMD_DATA then Delivering(conns[m.connID], m.payload)
      else if m.cmd == CMD_CLOSE then Dropping(conns[m.connID])
      else Idle
    }

    /** The read loop has the next message and looks its connection up. */
    method Take(m: Message)
      requires Valid() && loop == Idle
      modifies this`loop, all`share
      ensures Valid() && loop == Found(m)
      ensures m.connID !in conns || m.cmd > 2 ==> loop == Idle
      ensures m.connID in conns && m.cmd == 0 ==> loop == Acking(conns[m.connID], m.payload == [0])
      ensures m.connID in conns && m.cmd == 1 ==> loop == Delivering(conns[m.connID], m.payload)
      ensures m.connID in conns && m.cmd == 2 ==> loop == Dropping(conns[m.connID])
      ensures forall pc :: pc in all ==> pc.share == if Registered(pc) then old(pc.share) + [m] else old(pc.share)
    {
      forall pc | pc in all
        ensures Subsequence(pc.accepted, DataFor(pc.id, pc.share + [m]))
        ensures m.cmd == CMD_DATA && m.connID == pc.id ==>
          Subsequence(pc.accepted + [m.payload], DataFor(pc.id, pc.share + [m]))
      {
        assert pc.Own();
        OwnNext(pc.accepted, pc.id, pc.share, m);
      }
      forall pc | pc in all && Registered(pc) { pc.share := pc.share + [m]; }
      loop := Found(m);
      forall pc | pc in all ensures pc.Own() { assert old(pc.Own()); }
    }

    /** deliver's test of the context. */
    method TestContext()
      requires Valid() && loop.Delivering?
      modifies this`loop
      ensures Valid()
      ensures loop == if old(loop).to.done || cancelled then Idle else Sending(old(loop).to, old(loop).data)
    {
      loop := if loop.to.done || cancelled then Idle else Sending(loop.to, loop.data);
    }

    /** deliver's send. The connection may have been removed, cancelled or closed since it was looked up. */
    method SendHeld()
      requires Valid() && loop.Sending?
      modifies this`loop, loop.to`recvCh, loop.to`accepted
      ensures Valid() && loop == Idle
      ensures var pc := old(loop).to;
        var fits := !pc.closed && |old(loop.to.recvCh)| < 64;
        && pc.accepted == old(loop.to.accepted) + (if fits then [old(loop).data] else [])
        && pc.recvCh == old(loop.to.recvCh) + (if fits then [old(loop).data] else [])
    {
      var pc, data := loop.to, loop.data;
      assert pc.Own() && pc.Held(data);
      pc.Send(data);
      loop := Idle;
      forall x | x in all ensures x.Own() { assert old(x.Own()); }
    }

    /** The acknowledgement goes into its one-place channel, or is dropped. */
    method Acknowledge()
      requires Valid() && loop.Acking?
      modifies this`loop, loop.to`connResult
      ensures Valid() && loop == Idle
      ensures old(loop).to.connResult ==
        if old(loop.to.connResult) == [] then [old(loop).ok] else old(loop.to.connResult)
    {
      if loop.to.connResult == [] { loop.to.connResult := [loop.ok]; }
      loop := Idle;
    }

    /** removeConn, and the call of shutdown after it: for CLOSE from the relay. */
    method DropHeld()
      requires Valid() && loop.Dropping?
      modifies this`loop, this`conns, this`shutting
      ensures Valid() && loop == Idle && conns == old(conns) - {old(loop).to.id}
      ensures shutting == old(shutting) + {old(loop).to}
    {
      conns, shutting := conns - {loop.to.id}, shutting + {loop.to};
      loop := Idle;
    }

    /** The same for Close and for a connect that failed; whatever has the identifier by now is what is removed. */
    method Remove(pc: ProxyConn)
      requires Valid() && pc in all
      modifies this`conns, this`shutting
      ensures Valid() && conns == old(conns) - {pc.id} && shutting == old(shutting) + {pc}
    {
      conns, shutting := conns - {pc.id}, shutting + {pc};
    }

    /** The next step of a shutdown that is under way. */
    method Shut(pc: ProxyConn)
      requires Valid() && pc in shutting
      modifies pc`done, pc`closed
      ensures Valid() && pc.done && pc.closed == (old(pc.closed) || old(pc.done))
    {
      pc.ShutNext();
    }

    /** One reader's step. */
    method ReadFrom(pc: ProxyConn, max: nat, preferDone: bool) returns (r: ReadResult)
      requires Valid() && pc in all
      modifies pc`recvCh, pc`last, pc`read
      ensures Valid() && pc.read == old(pc.read) + (if r.Bytes? then r.data else [])
      ensures r == Eof ==> pc.closed || pc.done || cancelled
      ensures r == Blocked ==> pc.last == [] && pc.recvCh == [] && !pc.closed && !pc.done && !cancelled
      ensures old(pc.last) != [] ==> r == Bytes(if max < |old(pc.last)| then old(pc.last)[..max] else old(pc.last))
      ensures old(pc.last) == [] && !pc.done && !cancelled && old(pc.recvCh) != [] && old(pc.recvCh)[0] != [] ==>
        var chunk := old(pc.recvCh)[0]; r == Bytes(if max < |chunk| then chunk[..max] else chunk)
    {
      assert pc.Own();
      r := pc.Read(max, cancelled, preferDone);
      forall x | x in all ensures x.Own() { assert old(x.Own()); }
    }

    method Cancel()
      requires Valid()
      modifies this`cancelled
      ensures Valid() && cancelled
    {
      cancelled := true;
    }

    /** The read loop ends: it cancels the client and, in shutdownAll, takes every connection out of the map. */
    method Stop()
      requires Valid() && loop == Idle
      modifies this`loop, this`conns, this`shutting, this`cancelled
      ensures Valid() && loop == Stopped && conns == map[] && cancelled
      ensures shutting == old(shutting) + old(conns).Values
    {
      conns, shutting, cancelled := map[], shutting + conns.Values, true;
      loop := Stopped;
    }
  }

  // ---- one message at a time, when nothing comes in between ----

  /** deliver, from its test of the context on. */
  method DeliverHeld(c: Client, pc: ProxyConn, data: seq<Byte>)
    requires c.Valid() && c.loop == Delivering(pc, data)
    modifies c`loop, c`conns, c`shutting, c.all`recvCh, c.all`accepted, c.all`connResult
    ensures c.Valid() && c.loop == Idle && c.conns == old(c.conns) && c.shutting == old(c.shutting)
    ensures var fits := !pc.done && !c.cancelled && !pc.closed && |old(pc.recvCh)| < 64;
      && pc.recvCh == old(pc.recvCh) + (if fits then [data] else [])
      && pc.accepted == old(pc.accepted) + (if fits then [data] else [])
  {
    Proceed(c);
    if c.loop != Idle { Proceed(c); }
  }

  /** DATA: the chunk is the next that its connection reads, unless that is cancelled, closed or full. */
  method DataArrives(c: Client, m: Message)
    requires c.Valid() && c.loop == Idle && m.cmd == 1 && m.connID in c.conns
    modifies c`loop, c`conns, c`shutting, c.all`share, c.all`recvCh, c.all`accepted, c.all`connResult
    ensures c.Valid() && c.loop == Idle && c.conns == old(c.conns) && c.shutting == old(c.shutting)
    ensures var pc := c.conns[m.connID];
      var fits := !pc.done && !c.cancelled && !pc.closed && |old(c.conns[m.connID].recvCh)| < 64;
      && pc.recvCh == old(c.conns[m.connID].recvCh) + (if fits then [m.payload] else [])
      && pc.accepted == old(c.conns[m.connID].accepted) + (if fits then [m.payload] else [])
  {
    c.Take(m);
    DeliverHeld(c, c.conns[m.connID], m.payload);
  }

  /** CLOSE: the identifier is free again, and once shutdown has run the connection ends. */
  method CloseArrives(c: Client, m: Message) returns (pc: ProxyConn)
    requires c.Valid() && c.loop == Idle && m.cmd == 2 && m.connID in c.conns
    modifies c`loop, c`conns, c`shutting, c.all`share, c.all`done, c.all`closed
    modifies c.all`recvCh, c.all`accepted, c.all`connResult
    ensures c.Valid() && c.loop == Idle && pc == old(c.conns)[m.connID] && c.conns == old(c.conns) - {m.connID}
    ensures pc.done && pc.closed && pc.recvCh == old(c.conns[m.connID].recvCh)
  {
    pc := c.conns[m.connID];
    c.Take(m);
    Proceed(c);
    c.Shut(pc);
    c.Shut(pc);
  }

  /** The acknowledgement of a connect: accepted exactly if its one byte is 0; a second one changes nothing. */
  method AckArrives(c: Client, m: Message)
    requires c.Valid() && c.loop == Idle && m.cmd == 0 && m.connID in c.conns
    modifies c`loop, c`conns, c`shutting, c.all`share, c.all`recvCh, c.all`accepted, c.all`connResult
    ensures c.Valid() && c.loop == Idle && c.conns == old(c.conns)
    ensures var was := old(c.conns[m.connID].connResult);
      c.conns[m.connID].connResult == if was == [] then [m.payload == [0]] else was
  {
    c.Take(m);
    Proceed(c);
  }

  /** A chunk for a connection that has nothing to read, and then a read of it. */
  method ChunkIsRead(c: Client, m: Message, max: nat, preferDone: bool) returns (r: ReadResult)
    requires c.Valid() && c.loop == Idle && !c.cancelled && m.cmd == 1 && m.payload != [] && m.connID in c.conns
    requires var pc := c.conns[m.connID]; pc.recvCh == [] && pc.last == [] && !pc.done && !pc.closed
    modifies c`loop, c`conns, c`shutting
    modifies c.all`share, c.all`recvCh, c.all`accepted, c.all`connResult, c.all`last, c.all`read
    ensures c.Valid() && r == Bytes(if max < |m.payload| then m.payload[..max] else m.payload)
  {
    var pc := c.conns[m.connID];
    DataArrives(c, m);
    assert pc.recvCh == [m.payload];
    r := c.ReadFrom(pc, max, preferDone);
  }

  /** The first chunk of a new connection, as far as it fits the reader's buffer. */
  method FirstChunk(payload: seq<Byte>, max: nat, preferDone: bool) returns (r: ReadResult)
    requires payload != []
    ensures r == Bytes(if max < |payload| then payload[..max] else payload)
  {
    var c := new Client();
    var pc := c.Open();
    r := ChunkIsRead(c, Message(1, 0, payload), max, preferDone);
  }

  // ---- every run ----

  /** A step; connections are told by the order in which they were opened. */
  datatype Step =
    | Opens
    | Takes(m: Message)
    | Proceeds                                      // the read loop, with what it holds
    | Reads(k: nat, max: nat, preferDone: bool)
    | Removes(k: nat)
    | Shuts(k: nat)
    | Cancels
    | Stops

  function Identifier(k: nat): ConnID { (k % IDENTIFIERS) as ConnID }

  /** The connections of a run so far, in the order they were made, and what was read from each. */
  ghost predicate Tracks(c: Client, made: seq<ProxyConn>, got: seq<seq<Byte>>)
    reads c, c.all, made
  {
    c.Valid() && Listed(c, made) && |got| == |made| && forall k :: 0 <= k < |made| ==> made[k].read == got[k]
  }

  ghost predicate Listed(c: Client, made: seq<ProxyConn>)
    reads c`all, c`nextID
  {
    && c.nextID == Identifier(|made|)
    && (forall k :: 0 <= k < |made| ==> made[k] in c.all && made[k].id == Identifier(k))
    && (forall j, k :: 0 <= j < k < |made| ==> made[j] != made[k])
  }

  /** With n connections opened so far, the step takes this identifier away from whatever has it. */
  predicate Frees(n: nat, step: Step, id: ConnID) {
    (step.Opens? && Identifier(n) == id) || (step.Removes? && step.k < n && Identifier(step.k) == id)
  }

  /** After these steps connection k is open, and its identifier has not been removed or given to a later one. */
  predicate Live(steps: seq<Step>, k: nat) {
    steps != [] &&
    var before, last := steps[..|steps| - 1], steps[|steps| - 1];
    (last.Opens? && Openings(before) == k) || (Live(before, k) && !Frees(Openings(before), last, Identifier(k)))
  }

  /** The steps during which connection k was live. */
  function Window(steps: seq<Step>, k: nat): seq<Step> {
    if steps == [] then []
    else
      var before := steps[..|steps| - 1];
      Window(before, k) + if Live(before, k) then [steps[|steps| - 1]] else []
  }

  function Openings(steps: seq<Step>): nat {
    if steps == [] then 0 else Openings(steps[..|steps| - 1]) + if steps[|steps| - 1].Opens? then 1 else 0
  }

  /** A step that gives the identifier of connection k to a new connection, or removes it. */
  predicate TakesAway(steps: seq<Step>, x: nat, k: nat)
    requires x < |steps|
  {
    var n := Openings(steps[..x]);
    (steps[x] == Opens && n % 0x1_0000_0000 == k % 0x1_0000_0000)
    || (steps[x].Removes? && steps[x].k < n && steps[x].k % 0x1_0000_0000 == k % 0x1_0000_0000)
  }

  /** The window lies between i, where connection k is opened, and j. */
  predicate Spans(steps: seq<Step>, k: nat, i: nat, j: nat) {
    && i < j <= |steps| && steps[i] == Opens && Openings(steps[..i]) == k && Window(steps, k) == steps[i + 1..j]
    && (forall x :: i < x < j - 1 ==> !TakesAway(steps, x, k))
    && (if Live(steps, k) then j == |steps| && (i < j - 1 ==> !TakesAway(steps, j - 1, k))
        else i < j - 1 && TakesAway(steps, j - 1, k))
  }

  lemma SpanOpens(before: seq<Step>, k: nat)
    requires Openings(before) == k && Window(before, k) == [] && !Live(before, k)
    ensures Spans(before + [Opens], k, |before|, |before| + 1)
  {
    assert (before + [Opens])[..|before|] == before;
  }

  lemma SpanNext(before: seq<Step>, step: Step, k: nat, i: nat, j: nat)
    requires Spans(before, k, i, j) && Openings(before) > k
    ensures Spans(before + [step], k, i, if Live(before, k) then j + 1 else j)
  {
    var steps, n := before + [step], |before|;
    assert steps[..n] == before && steps[..i] == before[..i];
    forall x | i < x < n ensures TakesAway(before, x, k) == TakesAway(steps, x, k) { TakesAwayIn(before, step, x, k); }
    SlicesNext(before, step, i + 1, j);
  }

  lemma TakesAwayIn(before: seq<Step>, step: Step, x: nat, k: nat)
    requires x < |before|
    ensures TakesAway(before + [step], x, k) == TakesAway(before, x, k)
  {
    assert (before + [step])[..x] == before[..x];
  }

  lemma SlicesNext<T>(s: seq<T>, x: T, i: nat, j: nat)
    requires i <= j <= |s|
    ensures s[i..j] + [] == s[i..j] == (s + [x])[i..j] && s[i..] + [x] == (s + [x])[i..|s| + 1]
    ensures j == |s| ==> s[i..j] + [x] == (s + [x])[i..j + 1]
  {
  }

  lemma {:induction false} NotYetOpen(steps: seq<Step>, k: nat)
    requires Openings(steps) <= k
    ensures Window(steps, k) == [] && !Live(steps, k)
  {
    if steps != [] { NotYetOpen(steps[..|steps| - 1], k); }
  }

  lemma {:induction false} WindowSpans(steps: seq<Step>, k: nat) returns (i: nat, j: nat)
    requires Openings(steps) > k
    ensures Spans(steps, k, i, j)
  {
    var before, step := steps[..|steps| - 1], steps[|steps| - 1];
    assert before + [step] == steps;
    if Openings(before) > k {
      i, j := WindowSpans(before, k);
      SpanNext(before, step, k, i, j);
      if Live(before, k) { j := j + 1; }
    } else {
      NotYetOpen(before, k);
      SpanOpens(before, k);
      i, j := |before|, |before| + 1;
    }
  }

  /**
   * The window of connection k begins after the step that opens it. It ends with the first step after that which
   * takes its identifier away, or with the run.
   */
  lemma WindowIs(steps: seq<Step>, k: nat) returns (i: nat, j: nat)
    requires Openings(steps) > k
    ensures i < j <= |steps| && steps[i] == Opens && Openings(steps[..i]) == k && Window(steps, k) == steps[i + 1..j]
    ensures forall x :: i < x < j - 1 ==> !TakesAway(steps, x, k)
    ensures j < |steps| ==> i < j - 1 && TakesAway(steps, j - 1, k)
  {
    i, j := WindowSpans(steps, k);
  }

  /** What the relay offered during these steps. */
  function Offered(steps: seq<Step>): seq<Message> {
    FlatMap((s: Step) => if s.Takes? then [s.m] else [], steps)
  }

  lemma OfferedNext(taken: seq<Message>, steps: seq<Step>, step: Step)
    requires Subsequence(taken, Offered(steps))
    ensures Subsequence(taken, Offered(steps + [step]))
    ensures step.Takes? ==> Subsequence(taken + [step.m], Offered(steps + [step]))
  {
    FlatMapSnoc((s: Step) => if s.Takes? then [s.m] else [], steps, step);
    if step.Takes? {
      SubsequenceSkip(taken, Offered(steps), step.m);
      SubsequenceTake(taken, Offered(steps), step.m);
    } else {
      assert Offered(steps) + [] == Offered(steps);
    }
  }

  lemma OpeningsNext(steps: seq<Step>, step: Step)
    ensures Openings(steps + [step]) == Openings(steps) + if step.Opens? then 1 else 0
  {
    assert (steps + [step])[..|steps|] == steps;
  }

  /** Only a live connection is in the map, and its share is among what was offered while it was live. */
  ghost predicate Shares(registered: bool, share: seq<Message>, steps: seq<Step>, k: nat) {
    (registered ==> Live(steps, k)) && Subsequence(share, Offered(Window(steps, k)))
  }

  lemma SharesNext(was: bool, now: bool, share: seq<Message>, share': seq<Message>, steps: seq<Step>, step: Step, k: nat)
    requires Shares(was, share, steps, k)
    requires now ==> was && !Frees(Openings(steps), step, Identifier(k))
    requires share' == share || (was && step.Takes? && share' == share + [step.m])
    ensures Shares(now, share', steps + [step], k)
  {
    assert (steps + [step])[..|steps|] == steps;
    if Live(steps, k) {
      OfferedNext(share, Window(steps, k), step);
    } else {
      assert Window(steps, k) + [] == Window(steps, k);
    }
  }

  lemma SharesNew(now: bool, steps: seq<Step>, k: nat)
    requires k == Openings(steps)
    ensures Shares(now, [], steps + [Opens], k)
  {
    assert (steps + [Opens])[..|steps|] == steps;
  }

  /** What the read loop does next with the connection that it holds. */
  method Proceed(c: Client)
    requires c.Valid()
    modifies c`loop, c`conns, c`shutting, c.all`recvCh, c.all`accepted, c.all`connResult
    ensures c.Valid() && forall pc :: c.Registered(pc) ==> old(c.Registered(pc))
    ensures old(c.loop).Dropping? || (c.conns == old(c.conns) && c.shutting == old(c.shutting))
    ensures old(c.loop).Delivering? ==>
      c.loop == (if old(c.loop).to.done || c.cancelled then Idle else Sending(old(c.loop).to, old(c.loop).data))
    ensures old(c.loop).Sending? ==>
      c.loop == Idle &&
      var pc, data, fits := old(c.loop).to, old(c.loop).data, !old(c.loop.to.closed) && |old(c.loop.to.recvCh)| < 64;
      && pc.recvCh == old(c.loop.to.recvCh) + (if fits then [data] else [])
      && pc.accepted == old(c.loop.to.accepted) + (if fits then [data] else [])
    ensures old(c.loop).Acking? ==>
      c.loop == Idle && old(c.loop).to.connResult ==
        if old(c.loop.to.connResult) == [] then [old(c.loop).ok] else old(c.loop.to.connResult)
    ensures old(c.loop).Dropping? ==>
      c.loop == Idle && c.conns == old(c.conns) - {old(c.loop).to.id} &&
      c.shutting == old(c.shutting) + {old(c.loop).to}
    ensures old(c.loop) == Idle || old(c.loop) == Stopped ==> c.loop == old(c.loop)
    ensures !old(c.loop).Sending? ==> ChannelsStay(c)
  {
    match c.loop
    case Delivering(_, _) => c.TestContext();
    case Sending(_, _) => c.SendHeld();
    case Acking(_, _) => c.Acknowledge();
    case Dropping(_) => c.DropHeld();
    case _ =>
  }

  twostate predicate ChannelsStay(c: Client)
    reads c`all, c.all`recvCh, c.all`accepted
  {
    forall pc :: pc in c.all && pc in old(c.all) ==> pc.recvCh == old(pc.recvCh) && pc.accepted == old(pc.accepted)
  }

  /** After a step, for a connection that was there before it. */
  twostate predicate Stepped(c: Client, n: nat, step: Step, pc: ProxyConn)
    reads c`conns, pc`share
  {
    && (c.Registered(pc) ==> old(c.Registered(pc)) && !Frees(n, step, pc.id))
    && (pc.share == old(pc.share)
        || (old(c.Registered(pc)) && step.Takes? && pc.share == old(pc.share) + [step.m]))
  }

  method OpenNext(c: Client, made: seq<ProxyConn>, got: seq<seq<Byte>>)
    returns (made': seq<ProxyConn>, got': seq<seq<Byte>>)
    requires Tracks(c, made, got)
    modifies c`conns, c`nextID, c`all
    ensures Tracks(c, made', got') && fresh(c.all - old(c.all))
    ensures |made'| == |made| + 1 && made'[..|made|] == made && made'[|made|].share == []
    ensures forall pc :: pc in old(c.all) ==> Stepped(c, |made|, Opens, pc)
  {
    var pc := c.Open();
    made', got' := made + [pc], got + [[]];
  }

  method TakeNext(c: Client, n: nat, m: Message)
    requires c.Valid()
    modifies c`loop, c.all`share
    ensures c.Valid()
    ensures forall pc :: pc in c.all ==> Stepped(c, n, Takes(m), pc)
  {
    if c.loop == Idle { c.Take(m); }
  }

  method ReadNext(c: Client, made: seq<ProxyConn>, got: seq<seq<Byte>>, k: nat, max: nat, preferDone: bool)
    returns (got': seq<seq<Byte>>)
    requires Tracks(c, made, got) && k < |made|
    modifies c.all`recvCh, c.all`last, c.all`read
    ensures Tracks(c, made, got') && got[k] <= got'[k] && got' == got[k := got'[k]]
  {
    var r := c.ReadFrom(made[k], max, preferDone);
    got' := if r.Bytes? then got[k := got[k] + r.data] else got;
  }

  /** The steps that open nothing, take nothing and read nothing. */
  method PerformQuietly(c: Client, made: seq<ProxyConn>, got: seq<seq<Byte>>, step: Step)
    requires Tracks(c, made, got) && !step.Opens? && !step.Takes? && !step.Reads?
    modifies c`loop, c`conns, c`shutting, c`cancelled
    modifies c.all`recvCh, c.all`accepted, c.all`connResult, c.all`done, c.all`closed
    ensures Tracks(c, made, got)
    ensures forall pc :: pc in old(c.all) ==> Stepped(c, |made|, step, pc)
  {
    match step
    case Proceeds => Proceed(c);
    case Removes(k) => if k < |made| { c.Remove(made[k]); }
    case Shuts(k) => if k < |made| && made[k] in c.shutting { c.Shut(made[k]); }
    case Cancels => c.Cancel();
    case Stops => if c.loop == Idle { c.Stop(); }
  }

  /** A step that is not enabled changes nothing. */
  method Perform(c: Client, made: seq<ProxyConn>, got: seq<seq<Byte>>, step: Step)
    returns (made': seq<ProxyConn>, got': seq<seq<Byte>>)
    requires Tracks(c, made, got)
    modifies c, c.all
    ensures Tracks(c, made', got') && fresh(c.all - old(c.all))
    ensures |made'| == |made| + (if step.Opens? then 1 else 0) && made'[..|made|] == made
    ensures step.Opens? ==> made'[|made|].share == []
    ensures forall pc :: pc in old(c.all) ==> Stepped(c, |made|, step, pc)
  {
    made', got' := made, got;
    match step
    case Opens => made', got' := OpenNext(c, made, got);
    case Takes(m) => TakeNext(c, |made|, m);
    case Reads(k, max, preferDone) => if k < |made| { got' := ReadNext(c, made, got, k, max, preferDone); }
    case _ => PerformQuietly(c, made, got, step);
  }

  ghost predicate SoFar(c: Client, made: seq<ProxyConn>, got: seq<seq<Byte>>, steps: seq<Step>)
    reads c, c.all, made
  {
    && Tracks(c, made, got) && |made| == Openings(steps)
    && forall k :: 0 <= k < |made| ==> Shares(c.Registered(made[k]), made[k].share, steps, k)
  }

  method PerformNext(c: Client, made: seq<ProxyConn>, got: seq<seq<Byte>>, steps: seq<Step>, i: nat)
    returns (made': seq<ProxyConn>, got': seq<seq<Byte>>)
    requires i < |steps| && SoFar(c, made, got, steps[..i])
    modifies c, c.all
    ensures SoFar(c, made', got', steps[..i + 1]) && fresh(c.all - old(c.all))
  {
    ghost var before := steps[..i];
    var step := steps[i];
    made', got' := Perform(c, made, got, step);
    assert steps[..i + 1] == before + [step];
    OpeningsNext(before, step);
    forall k | 0 <= k < |made'| ensures Shares(c.Registered(made'[k]), made'[k].share, before + [step], k) {
      if k < |made| {
        assert made'[k] == made'[..|made|][k] && Stepped(c, |made|, step, made[k]);
        SharesNext(old(c.Registered(made[k])), c.Registered(made[k]), old(made[k].share), made[k].share, before, step, k);
      } else {
        SharesNew(c.Registered(made'[k]), before, k);
      }
    }
  }

  /**
   * What was read from connection k is a beginning of chunks that it was given; these are its own, in relay order,
   * though some may have been dropped.
   */
  ghost predicate OwnPrefix(steps: seq<Step>, k: nat, read: seq<Byte>) {
    exists accepted: seq<seq<Byte>> ::
      Subsequence(accepted, DataFor(Identifier(k), Offered(Window(steps, k)))) && read <= Concat(accepted)
  }

  lemma Accounted(pc: ProxyConn, steps: seq<Step>, k: nat)
    requires pc.id == Identifier(k) && pc.Flow() && Subsequence(pc.accepted, DataFor(pc.id, pc.share))
    requires Subsequence(pc.share, Offered(Window(steps, k)))
    ensures OwnPrefix(steps, k, pc.read)
  {
    assert Concat(pc.accepted) == pc.read + (pc.last + Concat(pc.recvCh));
    DataForSubsequence(pc.id, pc.share, Offered(Window(steps, k)));
    SubsequenceTransitive(pc.accepted, DataFor(pc.id, pc.share), DataFor(pc.id, Offered(Window(steps, k))));
  }

  /**
   * In every run from a new client, whatever is removed, cancelled or closed while the read loop holds it: the
   * bytes read from a connection are a prefix of the chunks that it accepted, and these are, in relay order,
   * chunks that the relay offered for its identifier after the connection was opened, and before that identifier
   * was removed or, having wrapped around, given to a later connection.
   */
  method Run(steps: seq<Step>) returns (got: seq<seq<Byte>>)
    ensures |got| == Openings(steps)
    ensures forall k :: 0 <= k < |got| ==> OwnPrefix(steps, k, got[k])
  {
    var c := new Client();
    var made: seq<ProxyConn> := [];
    got := [];
    for i := 0 to |steps|
      invariant fresh(c) && fresh(c.all) && SoFar(c, made, got, steps[..i])
    {
      made, got := PerformNext(c, made, got, steps, i);
    }
    assert steps[..|steps|] == steps;
    forall k | 0 <= k < |got| ensures OwnPrefix(steps, k, got[k]) {
      assert made[k].Own() && Shares(c.Registered(made[k]), made[k].share, steps, k);
      Accounted(made[k], steps, k);
    }
  }
}
