/** The relay from the proxy to the client: pushes among the device's responses. */
module RelayDown {

  import opened Crc16
  import opened Framing
  import opened FramingLaws
  import opened FrameBuilders
  import opened Mux
  import opened Sequences
  import opened Relay
  import opened HostParser

  /** What the device sends besides data pushes: responses, and the push that says that the relay is closed. */
  datatype Reply = Reply(seqNo: Byte, cmd: Byte, status: Byte, data: seq<Byte>) | Closed

  function ReplyFrame(r: Reply): Frame {
    match r
    case Reply(seqNo, cmd, status, data) => ResponseFrame(seqNo, cmd, status, data)
    case Closed => PushFrame(CMD_PROXY_CLOSED_PUSH, [])
  }

  predicate RepliesFit(rs: seq<Reply>) {
    forall i :: 0 <= i < |rs| ==> rs[i].Closed? || |rs[i].data| < MAX_PAYLOAD
  }

  /** What a caller of the host tool gets back from a response, exactly for commands below 0x80. */
  lemma HostSeesResponse(r: Reply)
    requires r.Reply?
    ensures View(ReplyFrame(r)) == HostFrame(r.seqNo, r.cmd, true, r.status, r.data) <==> r.cmd < 0x80
  {
    assert ([r.status] + r.data)[1..] == r.data;
  }

  /** ... and from a push, whose command must be below 0x80 as well. */
  lemma HostSeesPush(cmd: Byte, data: seq<Byte>)
    ensures View(PushFrame(cmd, data)) == HostFrame(0, cmd, false, 0, data) <==> cmd < 0x80
  {
  }

  /** A response without even a status, which the firmware never sends, is seen with status 0. */
  lemma HostSeesEmpty(seqNo: Byte, cmd: Byte)
    requires cmd < 0x80
    ensures View(Frame(seqNo, cmd + 0x80, [])) == HostFrame(seqNo, cmd, true, 0, [])
  {
  }

  /** What the host sees of the push that closes the relay. */
  lemma HostSeesClosed()
    ensures View(ReplyFrame(Closed)) == HostFrame(0, 0x41, false, 0, [])
  {
  }

  /** The data that is pushed. */
  function Pushed(given: seq<HostFrame>): seq<seq<Byte>> {
    if given == [] then []
    else if PushesData(given[0]) then [given[0].payload] + Pushed(given[1..])
    else Pushed(given[1..])
  }

  predicate PushesData(f: HostFrame) {
    !f.isResp && f.cmd == CMD_PROXY_DATA_PUSH && f.payload != []
  }

  lemma {:induction false} PushedBytes(fs: seq<Frame>)
    ensures Concat(Pushed(Views(fs))) == Carried(CMD_PROXY_DATA_PUSH, fs)
  {
    if fs != [] {
      assert Views(fs)[1..] == Views(fs[1..]);
      PushedBytes(fs[1..]);
      var given := Views(fs);
      if PushesData(given[0]) {
        assert Pushed(given)[1..] == Pushed(given[1..]);
      }
    }
  }

  predicate PushesClosed(f: HostFrame) { !f.isResp && f.cmd == CMD_PROXY_CLOSED_PUSH }

  lemma PushedNext(given: seq<HostFrame>, f: HostFrame)
    ensures Pushed(given + [f]) == if PushesData(f) then Pushed(given) + [f.payload] else Pushed(given)
  {
    if given == [] {
      assert [] + [f] == [f];
    } else {
      assert (given + [f])[1..] == given[1..] + [f];
      PushedNext(given[1..], f);
    }
  }

  ghost predicate NoneCloses(given: seq<HostFrame>) {
    forall i :: 0 <= i < |given| ==> !PushesClosed(given[i])
  }

  /**
   * The chunks that the relay connection gets: of the pushed data, what the channel had room for (`room` says so
   * of each piece), up to the first CLOSED push, which takes the connection out of its slot.
   */
  ghost function Kept(given: seq<HostFrame>, room: nat -> bool): seq<seq<Byte>> {
    if given == [] then []
    else
      var before, f := given[..|given| - 1], given[|given| - 1];
      Kept(before, room) +
      if PushesData(f) && NoneCloses(before) && room(|Pushed(before)|) then [f.payload] else []
  }

  lemma KeptNext(given: seq<HostFrame>, room: nat -> bool, i: nat)
    requires i < |given|
    ensures var before, f, now := given[..i], given[i], given[..i + 1];
      && Kept(now, room) ==
           Kept(before, room) +
           (if PushesData(f) && NoneCloses(before) && room(|Pushed(before)|) then [f.payload] else [])
      && |Pushed(now)| == |Pushed(before)| + (if PushesData(f) then 1 else 0)
      && NoneCloses(now) == (NoneCloses(before) && !PushesClosed(f))
  {
    var before, f, now := given[..i], given[i], given[..i + 1];
    assert now[..|now| - 1] == before && now == before + [f];
    PushedNext(before, f);
  }

  /** dispatchPush for each frame. */
  method DispatchPushes(given: seq<HostFrame>, room: nat -> bool) returns (chunks: seq<seq<Byte>>)
    ensures chunks == Kept(given, room)
  {
    chunks := [];
    var conn, k := true, 0;
    for i := 0 to |given|
      invariant chunks == Kept(given[..i], room) && conn == NoneCloses(given[..i]) && k == |Pushed(given[..i])|
    {
      var f := given[i];
      KeptNext(given, room, i);
      if !f.isResp {
        if f.cmd == CMD_PROXY_DATA_PUSH {
          if conn && |f.payload| > 0 && room(k) { chunks := chunks + [f.payload]; }
          if |f.payload| > 0 { k := k + 1; }
        } else if f.cmd == CMD_PROXY_CLOSED_PUSH {
          conn := false;
        }
      }
    }
    assert given[..|given|] == given;
  }

  // ---- what is lost ----

  /** One more frame, while no CLOSED push has come: only a data push with room is kept. */
  lemma KeptIff(given: seq<HostFrame>, f: HostFrame, room: nat -> bool)
    requires forall i :: 0 <= i < |given| ==> given[i].isResp || given[i].cmd != 0x41
    ensures var data := !f.isResp && f.cmd == 0x40 && f.payload != [];
      && Kept(given + [f], room) == Kept(given, room) + (if data && room(|Pushed(given)|) then [f.payload] else [])
      && Pushed(given + [f]) == Pushed(given) + (if data then [f.payload] else [])
  {
    var all := given + [f];
    assert all[..|given|] == given && all[..|given| + 1] == all;
    KeptNext(all, room, |given|);
    PushedNext(given, f);
  }

  /** Nothing that comes after a CLOSED push is kept. */
  lemma {:induction false} ClosedEndsIt(given: seq<HostFrame>, f: HostFrame, later: seq<HostFrame>, room: nat -> bool)
    requires !f.isResp && f.cmd == 0x41
    ensures Kept(given + [f] + later, room) == Kept(given, room)
    decreases |later|
  {
    var all := given + [f] + later;
    var k := |all| - 1;
    assert all[..k + 1] == all && all[|given|] == f;
    KeptNext(all, room, k);
    if later == [] {
      assert all[..k] == given;
    } else {
      assert all[..k] == given + [f] + later[..|later| - 1];
      ClosedEndsIt(given, f, later[..|later| - 1], room);
      assert all[..k][|given|] == f;
    }
  }

  ghost predicate HasRoom(room: nat -> bool, n: nat) { forall k :: 0 <= k < n ==> room(k) }

  /** In front of any loss everything is kept. */
  lemma {:induction false} KeptAll(given: seq<HostFrame>, room: nat -> bool)
    requires NoneCloses(given) && HasRoom(room, |Pushed(given)|)
    ensures Kept(given, room) == Pushed(given)
  {
    if given != [] {
      var i := |given| - 1;
      KeptNext(given, room, i);
      assert given[..i] + [given[i]] == given && given[..i + 1] == given;
      PushedNext(given[..i], given[i]);
      KeptAll(given[..i], room);
    }
  }

  lemma {:induction false} KeptGrows(some: seq<HostFrame>, given: seq<HostFrame>, room: nat -> bool)
    requires some <= given
    ensures Kept(some, room) <= Kept(given, room)
    decreases |given|
  {
    if some != given { KeptGrows(some, given[..|given| - 1], room); }
  }

  /** A channel that always has room loses nothing but what comes after the CLOSED push. */
  lemma {:induction false} ClosedCuts(given: seq<HostFrame>, room: nat -> bool)
    requires HasRoom(room, |Pushed(given)|)
    ensures Kept(given, room) <= Pushed(given)
    ensures NoneCloses(given) ==> Kept(given, room) == Pushed(given)
  {
    if given != [] {
      var i := |given| - 1;
      KeptNext(given, room, i);
      assert given[..i] + [given[i]] == given && given[..i + 1] == given;
      PushedNext(given[..i], given[i]);
      ClosedCuts(given[..i], room);
    }
  }

  /** Whatever happens, the order is kept and nothing is made up. */
  lemma {:induction false} KeptInOrder(given: seq<HostFrame>, room: nat -> bool)
    ensures Subsequence(Kept(given, room), Pushed(given))
  {
    if given != [] {
      var i := |given| - 1;
      KeptNext(given, room, i);
      assert given[..i] + [given[i]] == given && given[..i + 1] == given;
      PushedNext(given[..i], given[i]);
      KeptInOrder(given[..i], room);
      assert Kept(given[..i], room) + [] == Kept(given[..i], room);
      SubsequenceSkip(Kept(given[..i], room), Pushed(given[..i]), given[i].payload);
      SubsequenceTake(Kept(given[..i], room), Pushed(given[..i]), given[i].payload);
    }
  }

  /** The host's frames, from a serial stream in pieces. */
  method HostFrames(pieces: seq<seq<Byte>>) returns (given: seq<HostFrame>)
    ensures given == Views(ScanAll(RESET, Concat(pieces)).frames)
  {
    var parser := new HostParser.Parser();
    for i := 0 to |pieces|
      invariant fresh(parser) && fresh(parser.body)
      invariant parser.Valid() && parser.Seen() == ScanAll(RESET, Concat(pieces[..i]))
    {
      parser.Feed(pieces[i]);
      ScanNextPiece(RESET, pieces, i);
    }
    assert pieces[..|pieces|] == pieces;
    given := parser.given;
  }

  // ---- what the device writes ----

  /** For each piece received: the responses sent before it, and its push. */
  function DeviceWrites(pieces: seq<seq<Byte>>, replies: nat -> seq<Reply>): seq<Frame> {
    if pieces == [] then [] else
      var k := |pieces| - 1;
      DeviceWrites(pieces[..k], replies) + ReplyFrames(replies(k)) + [PushFrame(CMD_PROXY_DATA_PUSH, pieces[k])]
  }

  function ReplyFrames(rs: seq<Reply>): seq<Frame> {
    seq(|rs|, i requires 0 <= i < |rs| => ReplyFrame(rs[i]))
  }

  /** cdc_send_response: what does not fit its buffer is not sent at all. */
  method SendResponse(port: SerialPort, seqNo: Byte, cmd: Byte, status: Byte, data: seq<Byte>)
    requires CheckIsSafe(PUSH_BUF_SIZE, 3 + |data|)
    modifies port
    ensures port.written ==
      if 9 + |data| <= PUSH_BUF_SIZE then old(port.written) + Encode(ResponseFrame(seqNo, cmd, status, data))
      else old(port.written)
  {
    var buf := new Byte[PUSH_BUF_SIZE];
    ghost var was := buf[..];
    var n := BuildResponse(seqNo, cmd, status, data, buf);
    if n == 0 { return; }
    FilledPrefix(buf[..], was, Encode(ResponseFrame(seqNo, cmd, status, data)));
    port.written := port.written + buf[..n];
  }

  /** cdc_send_push, in the same way. */
  method SendPush(port: SerialPort, cmd: Byte, data: seq<Byte>)
    requires CheckIsSafe(PUSH_BUF_SIZE, 2 + |data|)
    modifies port
    ensures port.written ==
      if 8 + |data| <= PUSH_BUF_SIZE then old(port.written) + Encode(PushFrame(cmd, data)) else old(port.written)
  {
    var buf := new Byte[PUSH_BUF_SIZE];
    ghost var was := buf[..];
    var n := BuildPush(cmd, data, buf);
    if n == 0 { return; }
    FilledPrefix(buf[..], was, Encode(PushFrame(cmd, data)));
    port.written := port.written + buf[..n];
  }

  method SendReply(port: SerialPort, r: Reply)
    requires RepliesFit([r])
    modifies port
    ensures port.written == old(port.written) + Encode(ReplyFrame(r))
  {
    assert [r][0] == r;
    match r
    case Reply(seqNo, cmd, status, data) => SendResponse(port, seqNo, cmd, status, data);
    case Closed => SendPush(port, CMD_PROXY_CLOSED_PUSH, []);
  }

  method SendReplies(port: SerialPort, rs: seq<Reply>)
    requires RepliesFit(rs)
    modifies port
    ensures port.written == old(port.written) + EncodeAll(ReplyFrames(rs))
  {
    for i := 0 to |rs|
      invariant port.written == old(port.written) + EncodeAll(ReplyFrames(rs[..i]))
    {
      SendNextReply(port, rs, i, old(port.written));
    }
    assert rs[..|rs|] == rs;
  }

  method SendNextReply(port: SerialPort, rs: seq<Reply>, i: nat, ghost was: seq<Byte>)
    requires i < |rs| && RepliesFit(rs)
    requires port.written == was + EncodeAll(ReplyFrames(rs[..i]))
    modifies port
    ensures port.written == was + EncodeAll(ReplyFrames(rs[..i + 1]))
  {
    SendReply(port, rs[i]);
    ReplyFramesNext(rs, i);
    Onward(was, EncodeAll(ReplyFrames(rs[..i])), Encode(ReplyFrame(rs[i])));
  }

  lemma Onward<T>(a: seq<T>, b: seq<T>, c: seq<T>)
    ensures (a + b) + c == a + (b + c)
  {
  }

  lemma ReplyFramesNext(rs: seq<Reply>, i: nat)
    requires i < |rs|
    ensures EncodeAll(ReplyFrames(rs[..i + 1])) == EncodeAll(ReplyFrames(rs[..i])) + Encode(ReplyFrame(rs[i]))
  {
    assert ReplyFrames(rs[..i + 1]) == ReplyFrames(rs[..i]) + [ReplyFrame(rs[i])];
    FlatMapSnoc(Encode, ReplyFrames(rs[..i]), ReplyFrame(rs[i]));
  }

  lemma DeviceWritesNext(pieces: seq<seq<Byte>>, replies: nat -> seq<Reply>, i: nat)
    requires i < |pieces|
    ensures EncodeAll(DeviceWrites(pieces[..i + 1], replies))
         == EncodeAll(DeviceWrites(pieces[..i], replies)) + EncodeAll(ReplyFrames(replies(i)))
          + Encode(PushFrame(CMD_PROXY_DATA_PUSH, pieces[i]))
  {
    assert pieces[..i + 1][..i] == pieces[..i];
    var before, rs := DeviceWrites(pieces[..i], replies), ReplyFrames(replies(i));
    FlatMapSnoc(Encode, before + rs, PushFrame(CMD_PROXY_DATA_PUSH, pieces[i]));
    FlatMapAppend(Encode, before, rs);
  }

  /** The receive task's pushes, with the responses of the command task and the CLOSED push of any among them. */
  method WriteDevice(pieces: seq<seq<Byte>>, replies: nat -> seq<Reply>) returns (port: SerialPort)
    requires PiecesFit(pieces) && forall i :: RepliesFit(replies(i))
    ensures fresh(port) && port.written == EncodeAll(DeviceWrites(pieces, replies))
  {
    port := new SerialPort();
    for i := 0 to |pieces|
      invariant fresh(port) && port.written == EncodeAll(DeviceWrites(pieces[..i], replies))
    {
      SendReplies(port, replies(i));
      SendPush(port, CMD_PROXY_DATA_PUSH, pieces[i]);
      DeviceWritesNext(pieces, replies, i);
    }
    assert pieces[..|pieces|] == pieces;
  }

  lemma {:induction false} RepliesCarryNothing(rs: seq<Reply>)
    ensures Carried(CMD_PROXY_DATA_PUSH, ReplyFrames(rs)) == []
  {
    if rs != [] {
      assert ReplyFrames(rs)[1..] == ReplyFrames(rs[1..]);
      RepliesCarryNothing(rs[1..]);
    }
  }

  lemma {:induction false} DeviceWritesCarry(pieces: seq<seq<Byte>>, replies: nat -> seq<Reply>)
    requires PiecesFit(pieces) && forall i :: RepliesFit(replies(i))
    ensures Carried(CMD_PROXY_DATA_PUSH, DeviceWrites(pieces, replies)) == Concat(pieces)
    ensures FramesFit(DeviceWrites(pieces, replies))
  {
    if pieces != [] {
      var k := |pieces| - 1;
      DeviceWritesCarry(pieces[..k], replies);
      var before, rs := DeviceWrites(pieces[..k], replies), ReplyFrames(replies(k));
      var push := PushFrame(CMD_PROXY_DATA_PUSH, pieces[k]);
      CarriedAppend(CMD_PROXY_DATA_PUSH, before, rs);
      RepliesCarryNothing(replies(k));
      FlatMapSnoc((f: Frame) => PayloadIf(CMD_PROXY_DATA_PUSH, f), before + rs, push);
      FlatMapSnoc((piece: seq<Byte>) => piece, pieces[..k], pieces[k]);
      assert pieces[..k] + [pieces[k]] == pieces;
      assert RepliesFit(replies(k));
    }
  }

  // ---- what the host makes of it ----

  /** No CLOSED push is sent before piece n. */
  predicate OpenUntil(replies: nat -> seq<Reply>, n: nat) {
    forall k :: 0 <= k < n ==> Closed !in replies(k)
  }

  lemma RepliesSeen(rs: seq<Reply>)
    ensures Closed !in rs ==> NoneCloses(Views(ReplyFrames(rs)))
  {
  }

  lemma {:induction false} PushedAppend(a: seq<HostFrame>, b: seq<HostFrame>)
    ensures Pushed(a + b) == Pushed(a) + Pushed(b)
  {
    if a == [] {
      assert a + b == b;
    } else {
      assert (a + b)[1..] == a[1..] + b;
      PushedAppend(a[1..], b);
    }
  }

  lemma {:induction false} RepliesPushNothing(rs: seq<Reply>)
    ensures Pushed(Views(ReplyFrames(rs))) == []
  {
    if rs != [] {
      assert Views(ReplyFrames(rs))[1..] == Views(ReplyFrames(rs[1..]));
      RepliesPushNothing(rs[1..]);
    }
  }

  /** What the host sees of the data pushes is the pieces; a CLOSED push is seen only if one was sent. */
  lemma {:induction false} PiecesSeen(pieces: seq<seq<Byte>>, replies: nat -> seq<Reply>)
    requires PiecesFit(pieces)
    ensures Pushed(Views(DeviceWrites(pieces, replies))) == pieces
    ensures OpenUntil(replies, |pieces|) ==> NoneCloses(Views(DeviceWrites(pieces, replies)))
  {
    if pieces != [] {
      var k := |pieces| - 1;
      PiecesSeen(pieces[..k], replies);
      var before, rs := Views(DeviceWrites(pieces[..k], replies)), Views(ReplyFrames(replies(k)));
      var push := View(PushFrame(CMD_PROXY_DATA_PUSH, pieces[k]));
      assert Views(DeviceWrites(pieces, replies)) == before + rs + [push];
      PushedNext(before + rs, push);
      PushedAppend(before, rs);
      RepliesPushNothing(replies(k));
      RepliesSeen(replies(k));
      assert pieces[..k] + [pieces[k]] == pieces;
    }
  }

  lemma {:induction false} WritesGrow(pieces: seq<seq<Byte>>, replies: nat -> seq<Reply>, n: nat)
    requires n <= |pieces|
    ensures Views(DeviceWrites(pieces[..n], replies)) <= Views(DeviceWrites(pieces, replies))
    decreases |pieces|
  {
    if n == |pieces| {
      assert pieces[..n] == pieces;
    } else {
      var k := |pieces| - 1;
      assert pieces[..k][..n] == pieces[..n];
      WritesGrow(pieces[..k], replies, n);
      assert Views(DeviceWrites(pieces[..k], replies)) <= Views(DeviceWrites(pieces, replies));
    }
  }

  /** The first n pieces reach the relay connection. */
  lemma FirstKept(pieces: seq<seq<Byte>>, replies: nat -> seq<Reply>, room: nat -> bool, n: nat)
    requires PiecesFit(pieces) && n <= |pieces| && OpenUntil(replies, n) && HasRoom(room, n)
    ensures pieces[..n] <= Kept(Views(DeviceWrites(pieces, replies)), room)
  {
    var some := Views(DeviceWrites(pieces[..n], replies));
    PiecesSeen(pieces[..n], replies);
    WritesGrow(pieces, replies, n);
    KeptAll(some, room);
    KeptGrows(some, Views(DeviceWrites(pieces, replies)), room);
  }

  /** The host's frames are the device's. */
  lemma HostSees(pieces: seq<seq<Byte>>, replies: nat -> seq<Reply>)
    requires FramesFit(DeviceWrites(pieces, replies))
    ensures Views(ScanAll(RESET, EncodeAll(DeviceWrites(pieces, replies))).frames) == Views(DeviceWrites(pieces, replies))
  {
    RoundTripAll(DeviceWrites(pieces, replies), []);
    assert [] + DeviceWrites(pieces, replies) == DeviceWrites(pieces, replies);
  }

  /** writeLoop: the queued messages, one after another, in the buffered writer. */
  method WriteStream(ms: seq<Message>) returns (stream: seq<Byte>)
    ensures stream == AllEncoded(ms)
  {
    stream := [];
    for i := 0 to |ms|
      invariant stream == AllEncoded(ms[..i])
    {
      var frame := MessageBytes(ms[i]);
      stream := stream + frame;
      FlatMapSnoc(Encoded, ms[..i], ms[i]);
      assert ms[..i] + [ms[i]] == ms[..i + 1];
    }
    assert ms[..|ms|] == ms;
  }

  /** Frames of any kind, whose data pushes carry the messages, give the client those messages. */
  lemma DownlinkRecovers(fs: seq<Frame>, ms: seq<Message>)
    requires FramesFit(fs) && AllFit(ms)
    requires Carried(CMD_PROXY_DATA_PUSH, fs) == AllEncoded(ms)
    ensures Messages(Concat(Pushed(Views(ScanAll(RESET, EncodeAll(fs)).frames)))) == ms
  {
    RoundTripAll(fs, []);
    assert [] + fs == fs;
    PushedBytes(fs);
    MessagesRoundTrip(ms, []);
    assert AllEncoded(ms) + [] == AllEncoded(ms);
    assert ms + Messages([]) == ms;
  }
  // ---- the whole way ----

  /** From the device's socket to the client. */
  method Carry(pieces: seq<seq<Byte>>, replies: nat -> seq<Reply>, serial: seq<Byte> -> seq<seq<Byte>>,
               room: nat -> bool) returns (dispatched: seq<Message>)
    requires Segments(serial) && PiecesFit(pieces) && forall i :: RepliesFit(replies(i))
    ensures dispatched == Messages(Concat(Kept(Views(DeviceWrites(pieces, replies)), room)))
  {
    var port := WriteDevice(pieces, replies);
    var given := HostFrames(serial(port.written));
    DeviceWritesCarry(pieces, replies);
    HostSees(pieces, replies);
    var chunks := DispatchPushes(given, room);
    dispatched := ReadMessages(chunks);
  }

  /** A socket that may end at any point: what is received is a beginning of what was sent. */
  ghost predicate Receives(recv: seq<Byte> -> seq<seq<Byte>>) {
    forall s :: PiecesFit(recv(s)) && Concat(recv(s)) <= s
  }

  /** What was received in front of any loss has been read. */
  ghost predicate Delivered(pieces: seq<seq<Byte>>, replies: nat -> seq<Reply>, room: nat -> bool,
                            dispatched: seq<Message>) {
    forall n: nat :: n <= |pieces| && OpenUntil(replies, n) && HasRoom(room, n) ==>
      Messages(Concat(pieces[..n])) <= dispatched
  }

  lemma FirstDelivered(pieces: seq<seq<Byte>>, replies: nat -> seq<Reply>, room: nat -> bool)
    requires PiecesFit(pieces)
    ensures Delivered(pieces, replies, room, Messages(Concat(Kept(Views(DeviceWrites(pieces, replies)), room))))
  {
    var kept := Kept(Views(DeviceWrites(pieces, replies)), room);
    forall n: nat | n <= |pieces| && OpenUntil(replies, n) && HasRoom(room, n)
      ensures Messages(Concat(pieces[..n])) <= Messages(Concat(kept))
    {
      FirstKept(pieces, replies, room, n);
      ConcatGrows(pieces[..n], kept);
      MessagesGrow(Concat(pieces[..n]), Concat(kept));
    }
  }

  lemma NothingElse(pieces: seq<seq<Byte>>, replies: nat -> seq<Reply>, room: nat -> bool, ms: seq<Message>)
    requires PiecesFit(pieces) && AllFit(ms) && Concat(pieces) <= AllEncoded(ms) && HasRoom(room, |pieces|)
    ensures Messages(Concat(Kept(Views(DeviceWrites(pieces, replies)), room))) <= ms
  {
    var given := Views(DeviceWrites(pieces, replies));
    PiecesSeen(pieces, replies);
    ClosedCuts(given, room);
    ConcatGrows(Kept(given, room), pieces);
    MessagesGrow(Concat(Kept(given, room)), AllEncoded(ms));
    AllMessages(ms);
  }

  lemma AllDelivered(pieces: seq<seq<Byte>>, replies: nat -> seq<Reply>, room: nat -> bool, ms: seq<Message>,
                     dispatched: seq<Message>)
    requires AllFit(ms) && Concat(pieces) == AllEncoded(ms) && Delivered(pieces, replies, room, dispatched)
    requires OpenUntil(replies, |pieces|) && HasRoom(room, |pieces|)
    ensures ms <= dispatched
  {
    assert pieces[..|pieces|] == pieces;
    AllMessages(ms);
  }

  /**
   * From the proxy's messages to the client's, through every stage, for every way of cutting the streams, all
   * responses in between, and whatever is lost on the way. All that was received in front of the first piece for
   * which the channel had no room, or of the CLOSED push, is read. Nothing else is, as long as no piece is dropped
   * from the middle. With no loss, exactly the messages are.
   */
  method Downlink(ms: seq<Message>, recv: seq<Byte> -> seq<seq<Byte>>, replies: nat -> seq<Reply>,
                  serial: seq<Byte> -> seq<seq<Byte>>, room: nat -> bool) returns (dispatched: seq<Message>)
    requires AllFit(ms) && Receives(recv) && Segments(serial)
    requires forall i :: RepliesFit(replies(i))
    ensures Delivered(recv(AllEncoded(ms)), replies, room, dispatched)
    ensures (forall k :: room(k)) ==> dispatched <= ms
    ensures
      (forall k :: room(k)) && (forall k :: Closed !in replies(k)) && Concat(recv(AllEncoded(ms))) == AllEncoded(ms) ==>
        dispatched == ms
  {
    var stream := WriteStream(ms);
    var pieces := recv(stream);
    dispatched := Carry(pieces, replies, serial, room);
    FirstDelivered(pieces, replies, room);
    if forall k :: room(k) {
      NothingElse(pieces, replies, room, ms);
      if (forall k :: Closed !in replies(k)) && Concat(pieces) == AllEncoded(ms) {
        AllDelivered(pieces, replies, room, ms, dispatched);
      }
    }
  }
}
