/**
 * The whole relay: multiplexer messages, cut into serial frames, carried over the device and a TCP
 * stream that deliver bytes in arbitrary pieces, and put together again, in both directions.
 */
module Relay {

  import opened Crc16
  import opened Framing
  import opened FramingLaws
  import opened FrameBuilders
  import opened Mux
  import opened Sequences
  import opened Options
  import opened RelayJobs
  import DeviceParser

  const CMD_PROXY_SEND: Byte := 0x21
  const CMD_PROXY_DATA_PUSH: Byte := 0x40
  const CMD_PROXY_CLOSED_PUSH: Byte := 0x41
  const PUSH_BUF_SIZE: nat := MAX_PAYLOAD + 32

  // ---- what a list of frames carries ----

  function PayloadIf(cmd: Byte, f: Frame): seq<Byte> { if f.cmd == cmd then f.payload else [] }

  /** The bytes that the frames with this command carry, in order. */
  function Carried(cmd: Byte, fs: seq<Frame>): seq<Byte> {
    FlatMap((f: Frame) => PayloadIf(cmd, f), fs)
  }

  /** The frames with this command. */
  function Only(cmd: Byte, fs: seq<Frame>): seq<Frame> {
    if fs == [] then []
    else if fs[0].cmd == cmd then [fs[0]] + Only(cmd, fs[1..])
    else Only(cmd, fs[1..])
  }

  lemma CarriedAppend(cmd: Byte, a: seq<Frame>, b: seq<Frame>)
    ensures Carried(cmd, a + b) == Carried(cmd, a) + Carried(cmd, b)
  {
    FlatMapAppend((f: Frame) => PayloadIf(cmd, f), a, b);
  }

  /** Other commands in between change nothing. */
  lemma {:induction false} CarriedByOnly(cmd: Byte, fs: seq<Frame>)
    ensures Carried(cmd, Only(cmd, fs)) == Carried(cmd, fs)
  {
    if fs != [] {
      CarriedByOnly(cmd, fs[1..]);
      if fs[0].cmd == cmd { assert Only(cmd, fs)[1..] == Only(cmd, fs[1..]); }
    }
  }

  /** One frame per piece. */
  function Framed(cmd: Byte, pieces: seq<seq<Byte>>): seq<Frame> {
    seq(|pieces|, i requires 0 <= i < |pieces| => Frame(0, cmd, pieces[i]))
  }

  lemma {:induction false} CarriedByFramed(cmd: Byte, pieces: seq<seq<Byte>>)
    ensures Carried(cmd, Framed(cmd, pieces)) == Concat(pieces)
  {
    if pieces != [] {
      assert Framed(cmd, pieces)[1..] == Framed(cmd, pieces[1..]);
      CarriedByFramed(cmd, pieces[1..]);
    }
  }

  predicate PiecesFit(pieces: seq<seq<Byte>>) {
    forall i :: 0 <= i < |pieces| ==> 0 < |pieces[i]| <= MAX_PAYLOAD
  }

  // ---- from the client to the device ----

  /** TCPConn.Write's pieces: 1024 bytes each, and the remainder. */
  function Chunks(data: seq<Byte>): seq<seq<Byte>> {
    if data == [] then [] else
      var n := if |data| > MAX_PAYLOAD then MAX_PAYLOAD else |data|;
      [data[..n]] + Chunks(data[n..])
  }

  lemma {:induction false} ChunksAreAll(data: seq<Byte>)
    ensures Concat(Chunks(data)) == data && PiecesFit(Chunks(data))
    ensures forall i :: 0 <= i < |Chunks(data)| ==> 0 < |Chunks(data)[i]| <= 1024
    ensures forall i :: 0 <= i < |Chunks(data)| - 1 ==> |Chunks(data)[i]| == 1024
  {
    if data != [] {
      var n := if |data| > MAX_PAYLOAD then MAX_PAYLOAD else |data|;
      ChunksAreAll(data[n..]);
      assert Chunks(data)[1..] == Chunks(data[n..]);
      assert data[..n] + data[n..] == data;
    }
  }

  lemma {:induction false} OnlyAppend(cmd: Byte, a: seq<Frame>, b: seq<Frame>)
    ensures Only(cmd, a + b) == Only(cmd, a) + Only(cmd, b)
  {
    if a == [] {
      assert a + b == b;
    } else {
      assert (a + b)[1..] == a[1..] + b;
      OnlyAppend(cmd, a[1..], b);
    }
  }

  /** The serial port; `frames` is the host's account of the frames that it has written whole. */
  class SerialPort {
    var written: seq<Byte>
    ghost var frames: seq<Frame>

    constructor ()
      ensures written == [] && frames == []
    {
      written, frames := [], [];
    }

    /** Nothing but whole frames that a receiver accepts. */
    ghost predicate Clean()
      reads this
    {
      written == EncodeAll(frames) && FramesFit(frames)
    }
  }

  /**
   * What happens at one chunk: the requests that other callers write first, and, if the write of the chunk
   * fails, how many of its bytes went out.
   */
  datatype Turn = Turn(others: seq<Frame>, fault: Option<nat>)

  predicate Legal(turn: Turn) {
    FramesFit(turn.others) && forall i :: 0 <= i < |turn.others| ==> turn.others[i].cmd != CMD_PROXY_SEND
  }

  /** BuildRequest and the write under the mutex; a failed write leaves part of the frame on the line. */
  method WriteFrame(port: SerialPort, f: Frame, fault: Option<nat>) returns (ok: bool)
    requires port.Clean() && |f.payload| <= MAX_PAYLOAD
    modifies port
    ensures ok == fault.None?
    ensures ok ==> port.Clean() && port.frames == old(port.frames) + [f]
    ensures !ok ==> port.frames == old(port.frames) && Cut(old(port.written), f, port.written)
  {
    var raw := BuildRequest(f.seqNo, f.cmd, f.payload);
    match fault
    case None =>
      FlatMapSnoc(Encode, port.frames, f);
      port.written, port.frames := port.written + raw, port.frames + [f];
      return true;
    case Some(k) =>
      var n := if k < |raw| then k else |raw|;
      port.written := port.written + raw[..n];
      return false;
  }

  /** The line after a write of frame f that failed. */
  ghost predicate Cut(was: seq<Byte>, f: Frame, now: seq<Byte>) {
    was <= now <= was + Encode(f)
  }

  method WriteOthers(port: SerialPort, others: seq<Frame>)
    requires port.Clean() && FramesFit(others)
    modifies port
    ensures port.Clean() && port.frames == old(port.frames) + others
  {
    for i := 0 to |others|
      invariant port.Clean() && port.frames == old(port.frames) + others[..i]
    {
      var ok := WriteFrame(port, others[i], None);
    }
  }

  lemma {:induction false} NoneOf(cmd: Byte, fs: seq<Frame>)
    requires forall i :: 0 <= i < |fs| ==> fs[i].cmd != cmd
    ensures Only(cmd, fs) == []
  {
    if fs != [] { NoneOf(cmd, fs[1..]); }
  }

  function ChunkFrame(chunk: seq<Byte>): Frame { Frame(0, CMD_PROXY_SEND, chunk) }

  /** One turn of the loop in TCPConn.Write. */
  method WriteChunk(port: SerialPort, chunk: seq<Byte>, turn: Turn) returns (ok: bool)
    requires port.Clean() && |chunk| <= MAX_PAYLOAD && Legal(turn)
    modifies port
    ensures ok == turn.fault.None?
    ensures ok ==> port.Clean()
    ensures FramesFit(port.frames)
    ensures !ok ==> Cut(EncodeAll(port.frames), ChunkFrame(chunk), port.written)
    ensures Only(CMD_PROXY_SEND, port.frames) ==
      Only(CMD_PROXY_SEND, old(port.frames)) + if ok then [ChunkFrame(chunk)] else []
  {
    WriteOthers(port, turn.others);
    OnlyAppend(CMD_PROXY_SEND, old(port.frames), turn.others);
    NoneOf(CMD_PROXY_SEND, turn.others);
    OnlyAppend(CMD_PROXY_SEND, port.frames, [ChunkFrame(chunk)]);
    ok := WriteFrame(port, ChunkFrame(chunk), turn.fault);
  }

  /** The first `sent` of the pieces have gone out. */
  ghost predicate SentSoFar(frames: seq<Frame>, was: seq<Frame>, pieces: seq<seq<Byte>>, sent: nat) {
    && sent <= |pieces|
    && Only(CMD_PROXY_SEND, frames) == Only(CMD_PROXY_SEND, was) + Framed(CMD_PROXY_SEND, pieces[..sent])
  }

  lemma SentNone(was: seq<Frame>, pieces: seq<seq<Byte>>)
    ensures SentSoFar(was, was, pieces, 0)
  {
  }

  lemma SentNext(now: seq<Frame>, before: seq<Frame>, was: seq<Frame>, pieces: seq<seq<Byte>>, sent: nat)
    requires SentSoFar(before, was, pieces, sent) && sent < |pieces|
    requires Only(CMD_PROXY_SEND, now) == Only(CMD_PROXY_SEND, before) + [ChunkFrame(pieces[sent])]
    ensures SentSoFar(now, was, pieces, sent + 1)
  {
    FramedNext(CMD_PROXY_SEND, pieces, sent);
  }

  /** data is what is left when the first `sent` of the pieces are gone. */
  ghost predicate Left(pieces: seq<seq<Byte>>, sent: nat, data: seq<Byte>) {
    sent <= |pieces| && pieces[sent..] == Chunks(data)
  }

  lemma LeftNext(pieces: seq<seq<Byte>>, sent: nat, data: seq<Byte>, n: nat)
    requires Left(pieces, sent, data) && data != []
    requires n == if |data| > MAX_PAYLOAD then MAX_PAYLOAD else |data|
    ensures sent < |pieces| && pieces[sent] == data[..n] && Left(pieces, sent + 1, data[n..])
  {
    assert Chunks(data) == [data[..n]] + Chunks(data[n..]);
    assert pieces[sent..][0] == data[..n] && pieces[sent..][1..] == Chunks(data[n..]);
  }

  lemma LeftEnds(pieces: seq<seq<Byte>>, sent: nat)
    requires Left(pieces, sent, [])
    ensures sent == |pieces|
  {
  }

  ghost predicate NoFault(turns: nat -> Turn, n: nat) {
    forall i :: 0 <= i < n ==> turns(i).fault.None?
  }

  lemma NoFaultNext(turns: nat -> Turn, n: nat)
    requires NoFault(turns, n) && turns(n).fault.None?
    ensures NoFault(turns, n + 1)
  {
  }

  /** The same, for piece `sent` of a message. */
  method WritePiece(port: SerialPort, chunk: seq<Byte>, turn: Turn, ghost was: seq<Frame>,
                    ghost pieces: seq<seq<Byte>>, ghost sent: nat)
    returns (ok: bool)
    requires port.Clean() && |chunk| <= MAX_PAYLOAD && Legal(turn)
    requires SentSoFar(port.frames, was, pieces, sent) && sent < |pieces| && chunk == pieces[sent]
    modifies port
    ensures ok == turn.fault.None?
    ensures ok ==> port.Clean() && SentSoFar(port.frames, was, pieces, sent + 1)
    ensures !ok ==> FramesFit(port.frames) && SentSoFar(port.frames, was, pieces, sent)
    ensures !ok ==> Cut(EncodeAll(port.frames), ChunkFrame(pieces[sent]), port.written)
  {
    ghost var before := port.frames;
    ok := WriteChunk(port, chunk, turn);
    if ok { SentNext(port.frames, before, was, pieces, sent); }
  }

  /** TCPConn.Write: piece by piece, until all are written or a write fails. */
  method WriteChunks(port: SerialPort, bytes: seq<Byte>, turns: nat -> Turn) returns (ok: bool, sent: nat)
    requires port.Clean() && forall i :: Legal(turns(i))
    modifies port
    ensures sent <= |Chunks(bytes)| && NoFault(turns, sent)
    ensures SentSoFar(port.frames, old(port.frames), Chunks(bytes), sent)
    ensures ok ==> port.Clean() && sent == |Chunks(bytes)|
    ensures !ok ==> sent < |Chunks(bytes)| && turns(sent).fault.Some? && FramesFit(port.frames)
    ensures !ok ==> Cut(EncodeAll(port.frames), ChunkFrame(Chunks(bytes)[sent]), port.written)
  {
    ghost var pieces, was := Chunks(bytes), port.frames;
    SentNone(was, pieces);
    var data := bytes;
    sent := 0;
    while |data| > 0
      invariant port.Clean() && SentSoFar(port.frames, was, pieces, sent)
      invariant Left(pieces, sent, data) && NoFault(turns, sent)
      decreases |data|
    {
      var n := |data|;
      if n > MAX_PAYLOAD { n := MAX_PAYLOAD; }
      LeftNext(pieces, sent, data, n);
      ok := WritePiece(port, data[..n], turns(sent), was, pieces, sent);
      if !ok { return; }
      NoFaultNext(turns, sent);
      data := data[n..];
      sent := sent + 1;
    }
    LeftEnds(pieces, sent);
    ok := true;
  }

  lemma FramedNext(cmd: Byte, pieces: seq<seq<Byte>>, k: nat)
    requires k < |pieces|
    ensures Framed(cmd, pieces[..k + 1]) == Framed(cmd, pieces[..k]) + [Frame(0, cmd, pieces[k])]
  {
  }

  function MessageFrames(m: Message): seq<Frame> { Framed(CMD_PROXY_SEND, Chunks(Encoded(m))) }

  /** The serial frames that carry these messages. */
  function ClientFrames(ms: seq<Message>): seq<Frame> { FlatMap(MessageFrames, ms) }

  lemma {:induction false} ClientFramesCarry(ms: seq<Message>)
    ensures Carried(CMD_PROXY_SEND, ClientFrames(ms)) == AllEncoded(ms)
  {
    if ms != [] {
      ClientFramesCarry(ms[1..]);
      CarriedAppend(CMD_PROXY_SEND, MessageFrames(ms[0]), ClientFrames(ms[1..]));
      CarriedByFramed(CMD_PROXY_SEND, Chunks(Encoded(ms[0])));
      ChunksAreAll(Encoded(ms[0]));
    }
  }

  /**
   * Whatever other commands the host sends in between, the bytes that the device takes out of the
   * serial stream for the proxy are the messages, and read as messages they are the client's.
   */
  lemma UplinkRecovers(fs: seq<Frame>, ms: seq<Message>)
    requires FramesFit(fs) && AllFit(ms)
    requires Only(CMD_PROXY_SEND, fs) == ClientFrames(ms)
    ensures Messages(Carried(CMD_PROXY_SEND, ScanAll(RESET, EncodeAll(fs)).frames)) == ms
  {
    RoundTripAll(fs, []);
    assert [] + fs == fs;
    CarriedByOnly(CMD_PROXY_SEND, fs);
    ClientFramesCarry(ms);
    MessagesRoundTrip(ms, []);
    assert AllEncoded(ms) + [] == AllEncoded(ms);
    assert ms + Messages([]) == ms;
  }

  /** writeFrame of the client and of the proxy: the message in a buffer of its own. */
  method MessageBytes(m: Message) returns (frame: seq<Byte>)
    ensures frame == Encoded(m)
  {
    var buf := new Byte[HEADER + |m.payload|];
    buf[0] := m.cmd;
    CopyTo(buf, 1, Le32(m.connID));
    assert buf[..5] == [m.cmd] + Le32(m.connID);
    CopyTo(buf, 5, Le16(|m.payload|));
    assert buf[..7] == MessageHeader(m);
    CopyTo(buf, HEADER, m.payload);
    frame := buf[..];
  }

  // ---- what is meant to be sent ----

  /** The pieces of these messages: one job for the device's queue each. */
  function JobsOf(ms: seq<Message>): seq<seq<Byte>> {
    FlatMap((m: Message) => Chunks(Encoded(m)), ms)
  }

  lemma {:induction false} JobsOfConcat(ms: seq<Message>)
    ensures Concat(JobsOf(ms)) == AllEncoded(ms)
  {
    if ms != [] {
      JobsOfConcat(ms[1..]);
      ChunksAreAll(Encoded(ms[0]));
      FlatMapAppend((piece: seq<Byte>) => piece, Chunks(Encoded(ms[0])), JobsOf(ms[1..]));
    }
  }

  /** The jobs that the device makes of these frames. */
  function Jobs(fs: seq<Frame>): seq<seq<Byte>> {
    FlatMap((f: Frame) => JobIf(f), fs)
  }

  function JobIf(f: Frame): seq<seq<Byte>> { if f.cmd == CMD_PROXY_SEND then [f.payload] else [] }

  lemma {:induction false} JobsOfFramed(pieces: seq<seq<Byte>>)
    ensures Jobs(Framed(CMD_PROXY_SEND, pieces)) == pieces
  {
    if pieces != [] {
      assert Framed(CMD_PROXY_SEND, pieces)[1..] == Framed(CMD_PROXY_SEND, pieces[1..]);
      JobsOfFramed(pieces[1..]);
    }
  }

  lemma {:induction false} JobsOfOnly(fs: seq<Frame>)
    ensures Jobs(Only(CMD_PROXY_SEND, fs)) == Jobs(fs)
  {
    if fs != [] {
      JobsOfOnly(fs[1..]);
      if fs[0].cmd == CMD_PROXY_SEND {
        assert Only(CMD_PROXY_SEND, fs)[1..] == Only(CMD_PROXY_SEND, fs[1..]);
      } else {
        assert [] + Jobs(fs[1..]) == Jobs(fs[1..]);
      }
    }
  }

  lemma {:induction false} JobsOfClient(ms: seq<Message>)
    ensures Jobs(ClientFrames(ms)) == JobsOf(ms)
  {
    if ms != [] {
      JobsOfClient(ms[1..]);
      JobsOfFramed(Chunks(Encoded(ms[0])));
      FlatMapAppend((f: Frame) => JobIf(f), MessageFrames(ms[0]), ClientFrames(ms[1..]));
    }
  }

  lemma JobsGrow(a: seq<Frame>, b: seq<Frame>)
    requires a <= b
    ensures Jobs(a) <= Jobs(b)
  {
    FlatMapAppend((f: Frame) => JobIf(f), a, b[|a|..]);
    assert b == a + b[|a|..];
  }

  lemma JobsOfGrow(ms: seq<Message>, n: nat, n': nat)
    requires n <= n' <= |ms|
    ensures JobsOf(ms[..n]) <= JobsOf(ms[..n'])
  {
    FlatMapAppend((m: Message) => Chunks(Encoded(m)), ms[..n], ms[n..n']);
    assert ms[..n'] == ms[..n] + ms[n..n'];
  }

  // ---- writing ----

  /** No write for the first n messages fails. */
  ghost predicate Faultless(turns: (nat, nat) -> Turn, n: nat) {
    forall i, k {:trigger turns(i, k)} :: 0 <= i < n ==> turns(i, k).fault.None?
  }

  /** Client.writeFrame; `sent` of its pieces go out whole. */
  method WriteMessage(port: SerialPort, m: Message, turns: nat -> Turn) returns (ok: bool, ghost sent: nat)
    requires port.Clean() && forall i :: Legal(turns(i))
    modifies port
    ensures sent <= |Chunks(Encoded(m))|
    ensures Only(CMD_PROXY_SEND, port.frames) ==
      Only(CMD_PROXY_SEND, old(port.frames)) + Framed(CMD_PROXY_SEND, Chunks(Encoded(m))[..sent])
    ensures ok ==> port.Clean() && sent == |Chunks(Encoded(m))|
    ensures !ok ==> sent < |Chunks(Encoded(m))| && turns(sent).fault.Some? && FramesFit(port.frames)
    ensures !ok ==> Cut(EncodeAll(port.frames), ChunkFrame(Chunks(Encoded(m))[sent]), port.written)
  {
    var frame := MessageBytes(m);
    ok, sent := WriteChunks(port, frame, turns);
  }

  /**
   * What is on the line: the frames written whole, and, if a write failed, some of the bytes of one more frame;
   * `planned` has that frame as well.
   */
  ghost predicate OnLine(written: seq<Byte>, frames: seq<Frame>, planned: seq<Frame>) {
    frames <= planned && EncodeAll(frames) <= written <= EncodeAll(planned)
  }

  /** The first `whole` messages are among these frames, and the plan is for no more than the messages. */
  ghost predicate Planned(frames: seq<Frame>, planned: seq<Frame>, ms: seq<Message>, whole: nat) {
    && whole <= |ms| && FramesFit(planned)
    && ClientFrames(ms[..whole]) <= Only(CMD_PROXY_SEND, frames)
    && Only(CMD_PROXY_SEND, planned) <= ClientFrames(ms)
  }

  lemma ClientFramesNext(ms: seq<Message>, i: nat)
    requires i < |ms|
    ensures ClientFrames(ms[..i + 1]) == ClientFrames(ms[..i]) + MessageFrames(ms[i])
    ensures ClientFrames(ms[..i]) + MessageFrames(ms[i]) <= ClientFrames(ms)
  {
    FlatMapSnoc(MessageFrames, ms[..i], ms[i]);
    assert ms[..i + 1] == ms[..i] + [ms[i]];
    FlatMapAppend(MessageFrames, ms[..i + 1], ms[i + 1..]);
    assert ms == ms[..i + 1] + ms[i + 1..];
  }

  lemma CutOnLine(written: seq<Byte>, frames: seq<Frame>, f: Frame)
    requires Cut(EncodeAll(frames), f, written)
    ensures OnLine(written, frames, frames + [f])
  {
    FlatMapSnoc(Encode, frames, f);
  }

  lemma PartOf<T>(a: seq<T>, b: seq<T>, n: nat, all: seq<T>)
    requires a + b <= all && n <= |b|
    ensures a + b[..n] <= all
  {
  }

  /** A write that failed in message i. */
  lemma CutPlanned(frames: seq<Frame>, ms: seq<Message>, i: nat, sent: nat)
    requires i < |ms| && sent < |Chunks(Encoded(ms[i]))| && FramesFit(frames)
    requires Only(CMD_PROXY_SEND, frames) ==
      ClientFrames(ms[..i]) + Framed(CMD_PROXY_SEND, Chunks(Encoded(ms[i]))[..sent])
    ensures Planned(frames, frames + [ChunkFrame(Chunks(Encoded(ms[i]))[sent])], ms, i)
  {
    var pieces := Chunks(Encoded(ms[i]));
    var f, framed := ChunkFrame(pieces[sent]), MessageFrames(ms[i]);
    ChunksAreAll(Encoded(ms[i]));
    ClientFramesNext(ms, i);
    PartOf(ClientFrames(ms[..i]), framed, sent + 1, ClientFrames(ms));
    OnlyAppend(CMD_PROXY_SEND, frames, [f]);
    assert framed[..sent + 1] == Framed(CMD_PROXY_SEND, pieces[..sent]) + [f];
  }

  /** Message i. */
  method WriteNext(port: SerialPort, ms: seq<Message>, i: nat, turns: nat -> Turn)
    returns (ok: bool, ghost planned: seq<Frame>)
    requires i < |ms| && port.Clean() && Only(CMD_PROXY_SEND, port.frames) == ClientFrames(ms[..i])
    requires forall k :: Legal(turns(k))
    modifies port
    ensures ok ==> port.Clean() && Only(CMD_PROXY_SEND, port.frames) == ClientFrames(ms[..i + 1])
    ensures !ok ==> exists k :: turns(k).fault.Some?
    ensures !ok ==>
      FramesFit(port.frames) && OnLine(port.written, port.frames, planned) && Planned(port.frames, planned, ms, i)
  {
    ghost var sent;
    ok, sent := WriteMessage(port, ms[i], turns);
    ClientFramesNext(ms, i);
    if ok {
      planned := port.frames;
      assert Chunks(Encoded(ms[i]))[..sent] == Chunks(Encoded(ms[i]));
    } else {
      ghost var f := ChunkFrame(Chunks(Encoded(ms[i]))[sent]);
      planned := port.frames + [f];
      CutOnLine(port.written, port.frames, f);
      CutPlanned(port.frames, ms, i, sent);
    }
  }

  /**
   * The client's messages, until a write fails. `noise` is whatever else gets onto the line after that: the
   * requests of other callers, and of the client's own writers that have not yet seen that it is cancelled.
   */
  method WriteMessages(ms: seq<Message>, turns: (nat, nat) -> Turn, noise: seq<Byte>)
    returns (port: SerialPort, ghost planned: seq<Frame>, ghost whole: nat)
    requires forall i, k :: Legal(turns(i, k))
    ensures fresh(port) && FramesFit(port.frames) && EncodeAll(port.frames) <= port.written
    ensures noise == [] || whole == |ms| ==> OnLine(port.written, port.frames, planned)
    ensures Planned(port.frames, planned, ms, whole)
    ensures forall n: nat :: n <= |ms| && Faultless(turns, n) ==> n <= whole
  {
    port := new SerialPort();
    for i := 0 to |ms|
      invariant fresh(port) && port.Clean() && Only(CMD_PROXY_SEND, port.frames) == ClientFrames(ms[..i])
    {
      var ok;
      ok, planned := WriteNext(port, ms, i, (k: nat) => turns(i, k));
      if !ok {
        whole := i;
        port.written := port.written + noise;
        return;
      }
    }
    assert ms[..|ms|] == ms;
    planned, whole := port.frames, |ms|;
  }

  // ---- the device ----

  /** A way of delivering a stream in pieces that loses nothing and reorders nothing. */
  ghost predicate Segments(cut: seq<Byte> -> seq<seq<Byte>>) {
    forall s :: Concat(cut(s)) == s
  }

  lemma ScanNextPiece(s: Scan, pieces: seq<seq<Byte>>, i: nat)
    requires i < |pieces|
    ensures ScanAll(s, Concat(pieces[..i + 1])) == ScanAll(ScanAll(s, Concat(pieces[..i])), pieces[i])
  {
    FlatMapSnoc((piece: seq<Byte>) => piece, pieces[..i], pieces[i]);
    assert pieces[..i] + [pieces[i]] == pieces[..i + 1];
    ScanAppend(s, Concat(pieces[..i]), pieces[i]);
  }

  /** The device's frames, from a serial stream in pieces. */
  method DeviceFrames(pieces: seq<seq<Byte>>) returns (frames: seq<Frame>)
    ensures frames == ScanAll(RESET, Concat(pieces)).frames
  {
    var parser := new DeviceParser.Parser();
    for i := 0 to |pieces|
      invariant fresh(parser) && fresh(parser.body)
      invariant parser.Valid() && parser.Seen() == ScanAll(RESET, Concat(pieces[..i]))
    {
      parser.Feed(pieces[i]);
      ScanNextPiece(RESET, pieces, i);
    }
    assert pieces[..|pieces|] == pieces;
    frames := parser.frames;
  }

  /** Only frames are added, never taken back. */
  lemma {:induction false} FramesGrow(s: Scan, data: seq<Byte>)
    ensures s.frames <= ScanAll(s, data).frames
  {
    if data != [] { FramesGrow(s, data[..|data| - 1]); }
  }

  /** The device gets the frames that went out whole, and, if nothing follows a failed write, none but the planned. */
  lemma LineGives(written: seq<Byte>, frames: seq<Frame>)
    requires FramesFit(frames)
    ensures EncodeAll(frames) <= written ==> frames <= ScanAll(RESET, written).frames
    ensures written <= EncodeAll(frames) ==> ScanAll(RESET, written).frames <= frames
  {
    RoundTripAll(frames, []);
    assert [] + frames == frames;
    var all := EncodeAll(frames);
    if all <= written {
      ScanAppend(RESET, all, written[|all|..]);
      FramesGrow(ScanAll(RESET, all), written[|all|..]);
      assert all + written[|all|..] == written;
    }
    if written <= all {
      ScanAppend(RESET, written, all[|written|..]);
      FramesGrow(ScanAll(RESET, written), all[|written|..]);
      assert written + all[|written|..] == all;
    }
  }

  /**
   * The send task: a job is drained by partial sends, until one fails. marks[k] bytes have gone out when k calls
   * have succeeded.
   */
  method SendAll(job: seq<Byte>, accepts: nat -> int) returns (sent: seq<Byte>, err: bool, ghost marks: seq<nat>)
    ensures sent == job[..Drained(|job|, accepts, 0)]
    ensures |marks| > 0 && marks[0] == 0 && marks[|marks| - 1] == |sent| && sent <= job
    ensures forall k :: 0 <= k < |marks| - 1 ==> marks[k] < |job| && accepts(k) > 0
    ensures forall k :: 0 <= k < |marks| - 1 ==>
      marks[k + 1] == if marks[k] + accepts(k) < |job| then marks[k] + accepts(k) else |job|
    ensures if err then |sent| < |job| && accepts(|marks| - 1) <= 0 else sent == job
  {
    sent, err, marks := [], false, [0];
    var i := 0;
    while |sent| < |job|
      invariant sent <= job && |sent| + Drained(|job| - |sent|, accepts, i) == Drained(|job|, accepts, 0)
      invariant |marks| == i + 1 && marks[0] == 0 && marks[i] == |sent|
      invariant forall k :: 0 <= k < i ==> marks[k] < |job| && accepts(k) > 0
      invariant forall k :: 0 <= k < i ==>
        marks[k + 1] == if marks[k] + accepts(k) < |job| then marks[k] + accepts(k) else |job|
      decreases |job| - |sent|
    {
      var n := accepts(i);
      if n <= 0 {
        err := true;
        break;
      }
      if n > |job| - |sent| { n := |job| - |sent|; }
      sent := sent + job[|sent|..|sent| + n];
      i := i + 1;
      marks := marks + [|sent|];
    }
  }

  /**
   * handle_proxy_send for each frame, and the send task: a job is dropped when the queue has no room, and all of
   * them are once a failed send has closed the connection.
   */
  method RelayFrames(frames: seq<Frame>, net: Net) returns (stream: seq<Byte>)
    ensures stream == Relayed(Jobs(frames), net)
  {
    stream := [];
    var up, k := true, 0;
    for j := 0 to |frames|
      invariant k == |Jobs(frames[..j])| && up == Up(Jobs(frames[..j]), net) && stream == Relayed(Jobs(frames[..j]), net)
    {
      var f := frames[j];
      JobsNext(frames, j, net);
      if f.cmd == CMD_PROXY_SEND {
        if up && net.queued(k) {
          var bytes, err, marks := SendAll(f.payload, net.accepts(k));
          stream := stream + bytes;
          if err { up := false; }
        }
        k := k + 1;
      }
    }
    assert frames[..|frames|] == frames;
  }

  lemma JobsNext(frames: seq<Frame>, j: nat, net: Net)
    requires j < |frames|
    ensures frames[j].cmd != CMD_PROXY_SEND ==> Jobs(frames[..j + 1]) == Jobs(frames[..j])
    ensures var jobs, job := Jobs(frames[..j]), frames[j].payload;
      frames[j].cmd == CMD_PROXY_SEND ==>
        && |Jobs(frames[..j + 1])| == |jobs| + 1
        && Relayed(Jobs(frames[..j + 1]), net) == Relayed(jobs, net) + (if Up(jobs, net) then Sent(job, net, |jobs|) else [])
        && Up(Jobs(frames[..j + 1]), net) == (Up(jobs, net) && !RelayJobs.Fails(job, net, |jobs|))
  {
    FlatMapSnoc((f: Frame) => JobIf(f), frames[..j], frames[j]);
    assert frames[..j + 1] == frames[..j] + [frames[j]];
    assert Jobs(frames[..j]) + [] == Jobs(frames[..j]);
    RelayedNext(Jobs(frames[..j]), frames[j].payload, net);
  }

  method ReadMessages(pieces: seq<seq<Byte>>) returns (dispatched: seq<Message>)
    ensures dispatched == Messages(Concat(pieces))
  {
    var reader := new RelayReader(pieces);
    dispatched := reader.ReadLoop(_ => true);
  }

  // ---- the whole way ----

  /** The queue takes all that the first n messages are made into, and no send for them fails. */
  ghost predicate PassesFirst(net: Net, ms: seq<Message>, n: nat)
    requires n <= |ms|
  {
    Passes(net, |JobsOf(ms[..n])|)
  }

  /** The first n messages get through, if their frames went out whole and their jobs pass. */
  lemma FirstGetThrough(given: seq<Frame>, frames: seq<Frame>, ms: seq<Message>, whole: nat, n: nat, net: Net)
    requires AllFit(ms) && n <= whole <= |ms| && frames <= given
    requires ClientFrames(ms[..whole]) <= Only(CMD_PROXY_SEND, frames)
    requires PassesFirst(net, ms, n)
    ensures ms[..n] <= Messages(Relayed(Jobs(given), net))
  {
    var first := JobsOf(ms[..n]);
    JobsOfGrow(ms, n, whole);
    JobsOfClient(ms[..whole]);
    JobsGrow(ClientFrames(ms[..whole]), Only(CMD_PROXY_SEND, frames));
    JobsOfOnly(frames);
    JobsGrow(frames, given);
    assert first <= Jobs(given);
    RelayedGrows(first, Jobs(given), net);
    PassingIsWhole(first, net);
    JobsOfConcat(ms[..n]);
    MessagesGrow(AllEncoded(ms[..n]), Relayed(Jobs(given), net));
    AllMessages(ms[..n]);
  }

  /** Nothing but the messages gets through, if no job in between is dropped. */
  lemma NothingElse(given: seq<Frame>, planned: seq<Frame>, ms: seq<Message>, net: Net)
    requires AllFit(ms) && given <= planned && Only(CMD_PROXY_SEND, planned) <= ClientFrames(ms)
    requires NeverFull(net)
    ensures Messages(Relayed(Jobs(given), net)) <= ms
  {
    JobsGrow(given, planned);
    JobsOfOnly(planned);
    JobsGrow(Only(CMD_PROXY_SEND, planned), ClientFrames(ms));
    JobsOfClient(ms);
    FailureCuts(Jobs(given), net);
    ConcatGrows(Jobs(given), JobsOf(ms));
    JobsOfConcat(ms);
    MessagesGrow(Relayed(Jobs(given), net), AllEncoded(ms));
    AllMessages(ms);
  }

  lemma ConcatGrows(a: seq<seq<Byte>>, b: seq<seq<Byte>>)
    requires a <= b
    ensures Concat(a) <= Concat(b)
  {
    FlatMapAppend((piece: seq<Byte>) => piece, a, b[|a|..]);
    assert b == a + b[|a|..];
  }

  lemma AllMessages(ms: seq<Message>)
    requires AllFit(ms)
    ensures Messages(AllEncoded(ms)) == ms
  {
    MessagesRoundTrip(ms, []);
    assert AllEncoded(ms) + [] == AllEncoded(ms);
    assert ms + Messages([]) == ms;
  }

  /** From the serial line to the proxy. */
  method Carry(written: seq<Byte>, serial: seq<Byte> -> seq<seq<Byte>>, net: Net, tcp: seq<Byte> -> seq<seq<Byte>>)
    returns (dispatched: seq<Message>)
    requires Segments(serial) && Segments(tcp)
    ensures dispatched == Messages(Relayed(Jobs(ScanAll(RESET, written).frames), net))
  {
    var given := DeviceFrames(serial(written));
    var stream := RelayFrames(given, net);
    dispatched := ReadMessages(tcp(stream));
  }

  lemma FirstOnLine(written: seq<Byte>, frames: seq<Frame>, planned: seq<Frame>, ms: seq<Message>, whole: nat, n: nat,
                    net: Net)
    requires AllFit(ms) && FramesFit(frames) && EncodeAll(frames) <= written
    requires Planned(frames, planned, ms, whole) && n <= whole && PassesFirst(net, ms, n)
    ensures ms[..n] <= Messages(Relayed(Jobs(ScanAll(RESET, written).frames), net))
  {
    LineGives(written, frames);
    FirstGetThrough(ScanAll(RESET, written).frames, frames, ms, whole, n, net);
  }

  /** The messages before anything fails have been dispatched. */
  ghost predicate Delivered(ms: seq<Message>, turns: (nat, nat) -> Turn, net: Net, dispatched: seq<Message>) {
    forall n: nat :: n <= |ms| && Faultless(turns, n) && PassesFirst(net, ms, n) ==> ms[..n] <= dispatched
  }

  lemma FirstDelivered(written: seq<Byte>, frames: seq<Frame>, planned: seq<Frame>, ms: seq<Message>, whole: nat,
                       turns: (nat, nat) -> Turn, net: Net)
    requires AllFit(ms) && FramesFit(frames) && EncodeAll(frames) <= written
    requires Planned(frames, planned, ms, whole)
    requires forall n: nat :: n <= |ms| && Faultless(turns, n) ==> n <= whole
    ensures Delivered(ms, turns, net, Messages(Relayed(Jobs(ScanAll(RESET, written).frames), net)))
  {
    forall n: nat | n <= |ms| && Faultless(turns, n) && PassesFirst(net, ms, n)
      ensures ms[..n] <= Messages(Relayed(Jobs(ScanAll(RESET, written).frames), net))
    {
      FirstOnLine(written, frames, planned, ms, whole, n, net);
    }
  }

  lemma NothingFails(turns: (nat, nat) -> Turn, net: Net, n: nat)
    requires forall i, k :: turns(i, k).fault == None
    requires (forall k :: net.queued(k)) && forall k, i :: net.accepts(k)(i) > 0
    ensures Faultless(turns, n) && NeverFails(net)
  {
  }

  lemma AllDelivered(ms: seq<Message>, turns: (nat, nat) -> Turn, net: Net, dispatched: seq<Message>)
    requires Delivered(ms, turns, net, dispatched) && Faultless(turns, |ms|) && NeverFails(net)
    ensures ms <= dispatched && NeverFull(net)
  {
    assert ms[..|ms|] == ms && PassesFirst(net, ms, |ms|);
    forall k ensures net.queued(k) { assert Through(net, k); }
  }

  lemma NoneButPlanned(written: seq<Byte>, frames: seq<Frame>, planned: seq<Frame>, ms: seq<Message>, whole: nat,
                       net: Net)
    requires AllFit(ms) && OnLine(written, frames, planned) && Planned(frames, planned, ms, whole) && NeverFull(net)
    ensures Messages(Relayed(Jobs(ScanAll(RESET, written).frames), net)) <= ms
  {
    LineGives(written, planned);
    NothingElse(ScanAll(RESET, written).frames, planned, ms, net);
  }

  /**
   * From the client's messages to the proxy's, through every stage, for every way of cutting the streams, for
   * all requests of other callers between any two frames, and whatever fails on the way. The messages in front of
   * the first failed write, dropped job or failed send get through. Nothing else does, as long as no job is
   * dropped from the middle and nothing follows a write that failed. With no failure, exactly the messages do.
   */
  method Uplink(ms: seq<Message>, turns: (nat, nat) -> Turn, noise: seq<Byte>, serial: seq<Byte> -> seq<seq<Byte>>,
                net: Net, tcp: seq<Byte> -> seq<seq<Byte>>) returns (dispatched: seq<Message>)
    requires AllFit(ms) && Segments(serial) && Segments(tcp)
    requires forall i, k :: Legal(turns(i, k))
    ensures Delivered(ms, turns, net, dispatched)
    ensures (noise == [] || Faultless(turns, |ms|)) && NeverFull(net) ==> dispatched <= ms
    ensures Faultless(turns, |ms|) && NeverFails(net) ==> dispatched == ms
  {
    var port, planned, whole := WriteMessages(ms, turns, noise);
    dispatched := Carry(port.written, serial, net, tcp);
    FirstDelivered(port.written, port.frames, planned, ms, whole, turns, net);
    if (noise == [] || Faultless(turns, |ms|)) && NeverFull(net) {
      NoneButPlanned(port.written, port.frames, planned, ms, whole, net);
    }
    if Faultless(turns, |ms|) && NeverFails(net) { AllDelivered(ms, turns, net, dispatched); }
  }

  /** When no write fails, the queue always has room and send always takes something. */
  method UplinkWithoutLoss(ms: seq<Message>, turns: (nat, nat) -> Turn, serial: seq<Byte> -> seq<seq<Byte>>, net: Net,
                           tcp: seq<Byte> -> seq<seq<Byte>>) returns (dispatched: seq<Message>)
    requires AllFit(ms) && Segments(serial) && Segments(tcp)
    requires forall i, k :: Legal(turns(i, k))
    requires forall i, k :: turns(i, k).fault == None
    requires (forall k :: net.queued(k)) && forall k, i :: net.accepts(k)(i) > 0
    ensures dispatched == ms
  {
    NothingFails(turns, net, |ms|);
    dispatched := Uplink(ms, turns, [], serial, net, tcp);
  }
}
