/**
 * The multiplexer's frames, [cmd:1][connID:4 LE][length:2 LE][payload], and their reassembly from a
 * stream that arrives in arbitrary pieces.
 */
module Mux {

  import opened Crc16
  import opened Framing
  import opened Options
  import opened Sequences

  newtype ConnID = x: int | 0 <= x < 0x1_0000_0000

  datatype Message = Message(cmd: Byte, connID: ConnID, payload: seq<Byte>)

  const HEADER: nat := 7
  const MAX_MESSAGE: nat := 65535

  // ---- little-endian numbers ----

  function Le16(n: nat): seq<Byte> { [Lo(n), Hi(n)] }

  function Le32(x: ConnID): seq<Byte> {
    Le16((x as nat) % 0x1_0000) + Le16((x as nat) / 0x1_0000)
  }

  function FromLe16(s: seq<Byte>): nat
    requires |s| == 2
  {
    Word(s[1], s[0])
  }

  function FromLe32(s: seq<Byte>): ConnID
    requires |s| == 4
  {
    HiLoWord(s[1], s[0]);
    HiLoWord(s[3], s[2]);
    (FromLe16(s[2..]) * 0x1_0000 + FromLe16(s[..2])) as ConnID
  }

  lemma Le16RoundTrip(n: nat)
    requires n < 0x1_0000
    ensures FromLe16(Le16(n)) == n
  {
    WordHiLo(n);
  }

  lemma Le32RoundTrip(x: ConnID)
    ensures FromLe32(Le32(x)) == x
  {
    var n := x as nat;
    var s := Le32(x);
    assert s[..2] == Le16(n % 0x1_0000) && s[2..] == Le16(n / 0x1_0000);
    Le16RoundTrip(n % 0x1_0000);
    Le16RoundTrip(n / 0x1_0000);
  }

  // ---- messages as bytes ----

  function MessageHeader(m: Message): seq<Byte> {
    [m.cmd] + Le32(m.connID) + Le16(|m.payload|)
  }

  function Encoded(m: Message): seq<Byte> { MessageHeader(m) + m.payload }

  function AllEncoded(ms: seq<Message>): seq<Byte> {
    FlatMap(Encoded, ms)
  }

  /** The length field of the message that `s` begins with. */
  function PayloadLength(s: seq<Byte>): nat
    requires |s| >= HEADER
  {
    FromLe16(s[5..7])
  }

  predicate HoldsMessage(s: seq<Byte>) {
    |s| >= HEADER && |s| >= HEADER + PayloadLength(s)
  }

  function FirstMessage(s: seq<Byte>): Message
    requires HoldsMessage(s)
  {
    Message(s[0], FromLe32(s[1..5]), s[HEADER..HEADER + PayloadLength(s)])
  }

  function Rest(s: seq<Byte>): seq<Byte>
    requires HoldsMessage(s)
  {
    s[HEADER + PayloadLength(s)..]
  }

  /** Every whole message of a stream, in order. */
  function Messages(s: seq<Byte>): seq<Message>
    decreases |s|
  {
    if HoldsMessage(s) then [FirstMessage(s)] + Messages(Rest(s)) else []
  }

  /** What is read from the beginning of a stream is read from all of it. */
  lemma {:induction false} MessagesGrow(a: seq<Byte>, b: seq<Byte>)
    requires a <= b
    ensures Messages(a) <= Messages(b)
    decreases |a|
  {
    if HoldsMessage(a) {
      assert a[5..7] == b[5..7] && a[1..5] == b[1..5];
      assert FirstMessage(a) == FirstMessage(b);
      MessagesGrow(Rest(a), Rest(b));
    }
  }

  lemma EncodedFirst(m: Message, tail: seq<Byte>)
    requires |m.payload| <= MAX_MESSAGE
    ensures var s := Encoded(m) + tail; HoldsMessage(s) && FirstMessage(s) == m && Rest(s) == tail
  {
    var s := Encoded(m) + tail;
    assert s[1..5] == Le32(m.connID);
    assert s[5..7] == Le16(|m.payload|);
    Le32RoundTrip(m.connID);
    Le16RoundTrip(|m.payload|);
    assert s[HEADER..HEADER + |m.payload|] == m.payload;
    assert s[HEADER + |m.payload|..] == tail;
  }

  lemma FirstThenRest(m: Message, tail: seq<Byte>)
    requires |m.payload| <= MAX_MESSAGE
    ensures Messages(Encoded(m) + tail) == [m] + Messages(tail)
  {
    EncodedFirst(m, tail);
  }

  predicate AllFit(ms: seq<Message>) {
    forall i :: 0 <= i < |ms| ==> |ms[i].payload| <= MAX_MESSAGE
  }

  lemma Unsplit<T>(s: seq<T>, t: seq<T>)
    requires s != []
    ensures [s[0]] + (s[1..] + t) == s + t
  {
  }

  lemma AllEncodedFirst(ms: seq<Message>, tail: seq<Byte>)
    requires ms != []
    ensures AllEncoded(ms) + tail == Encoded(ms[0]) + (AllEncoded(ms[1..]) + tail)
  {
  }

  lemma {:induction false} MessagesRoundTrip(ms: seq<Message>, tail: seq<Byte>)
    requires AllFit(ms)
    ensures Messages(AllEncoded(ms) + tail) == ms + Messages(tail)
  {
    if ms == [] {
      assert AllEncoded(ms) + tail == tail;
    } else {
      AllEncodedFirst(ms, tail);
      FirstThenRest(ms[0], AllEncoded(ms[1..]) + tail);
      MessagesRoundTrip(ms[1..], tail);
      Unsplit(ms, Messages(tail));
    }
  }

  /** A message survives alone on a stream exactly when its length fits the 16-bit field. */
  lemma SurvivesIff(m: Message)
    ensures Messages(Encoded(m)) == [m] <==> |m.payload| <= 65535
  {
    var s := Encoded(m);
    assert s + [] == s;
    if |m.payload| <= MAX_MESSAGE {
      EncodedFirst(m, []);
    } else {
      HiLoWord(s[6], s[5]);
      assert s[5..7] == [s[5], s[6]];
      assert HoldsMessage(s) ==> |FirstMessage(s).payload| <= MAX_MESSAGE;
      assert HoldsMessage(s) ==> Messages(s)[0] == FirstMessage(s);
    }
  }

  // ---- a stream in pieces ----

  /** relayReader over a connection whose chunks end in EOF, and the readers of both ends. */
  class RelayReader {
    var chunks: seq<seq<Byte>>
    var buf: seq<Byte>

    constructor (pieces: seq<seq<Byte>>)
      ensures Remaining() == Concat(pieces)
    {
      chunks, buf := pieces, [];
    }

    /** The bytes not yet handed out. */
    function Remaining(): seq<Byte>
      reads this
    {
      buf + Concat(chunks)
    }

    /** Take chunks from the connection until one has bytes. */
    method Refill()
      modifies this
      ensures Remaining() == old(Remaining())
      ensures buf == [] ==> Remaining() == []
    {
      while buf == [] && chunks != []
        invariant Remaining() == old(Remaining())
        decreases |chunks|
      {
        buf, chunks := chunks[0], chunks[1..];
      }
    }

    /** relayReader.Read(p[from..]): some of the next bytes, and none only at the end. */
    method Read(p: array<Byte>, from: nat) returns (n: nat)
      requires from < p.Length
      modifies this, p
      ensures n == 0 <==> old(Remaining()) == []
      ensures n <= |old(Remaining())| && from + n <= p.Length
      ensures Remaining() == old(Remaining())[n..]
      ensures p[..from + n] == old(p[..from]) + old(Remaining())[..n]
    {
      Refill();
      n := if |buf| <= p.Length - from then |buf| else p.Length - from;
      CopyTo(p, from, buf[..n]);
      buf := buf[n..];
    }

    /** io.ReadFull: all of p, or nothing usable when the stream ends first. */
    method ReadFull(p: array<Byte>) returns (ok: bool)
      modifies this, p
      ensures ok <==> |old(Remaining())| >= p.Length
      ensures ok ==> p[..] == old(Remaining())[..p.Length] && Remaining() == old(Remaining())[p.Length..]
    {
      ghost var all := Remaining();
      var got := 0;
      while got < p.Length
        invariant got <= p.Length && got <= |all|
        invariant p[..got] == all[..got] && Remaining() == all[got..]
      {
        var n := Read(p, got);
        if n == 0 { return false; }
        SliceStep(all, got, n);
        got := got + n;
      }
      assert p[..] == p[..got];
      return true;
    }

    /**
     * readLoop of the client, Run of the proxy: messages are dispatched until the stream ends or the context is
     * found cancelled; `live` says whether it is not, before each message.
     */
    method ReadLoop(live: nat -> bool) returns (dispatched: seq<Message>)
      modifies this
      ensures dispatched <= Messages(old(Remaining()))
      ensures forall i :: 0 <= i < |dispatched| ==> live(i)
      ensures |dispatched| < |Messages(old(Remaining()))| ==> !live(|dispatched|)
    {
      dispatched := [];
      while live(|dispatched|)
        invariant dispatched + Messages(Remaining()) == Messages(old(Remaining()))
        invariant forall i :: 0 <= i < |dispatched| ==> live(i)
        decreases |Remaining()|
      {
        ghost var before := Remaining();
        var next := ReadMessage();
        match next
        case None =>
          assert dispatched + [] == dispatched;
          return;
        case Some(m) =>
          MoveOne(dispatched, m, Messages(Rest(before)));
          dispatched := dispatched + [m];
      }
    }

    /** One turn of the loop: the header, then the payload it announces. */
    method ReadMessage() returns (next: Option<Message>)
      modifies this
      ensures next.Some? <==> HoldsMessage(old(Remaining()))
      ensures next.Some? ==> next.value == FirstMessage(old(Remaining())) && Remaining() == Rest(old(Remaining()))
    {
      ghost var all := Remaining();
      var hdr := new Byte[HEADER];
      var ok := ReadFull(hdr);
      if !ok { return None; }
      var h := hdr[..];
      HeaderFields(all);
      var cmd := h[0];
      var connID := FromLe32(h[1..5]);
      var payLen := FromLe16(h[5..7]);
      var payload: seq<Byte> := [];
      if payLen > 0 {
        var body := new Byte[payLen];
        ok := ReadFull(body);
        if !ok { return None; }
        payload := body[..];
      }
      PayloadSlice(all);
      return Some(Message(cmd, connID, payload));
    }
  }

  lemma MoveOne<T>(a: seq<T>, x: T, b: seq<T>)
    ensures a + ([x] + b) == a + [x] + b
  {
  }

  lemma SliceStep<T>(s: seq<T>, i: nat, n: nat)
    requires i + n <= |s|
    ensures s[..i] + s[i..][..n] == s[..i + n] && s[i..][n..] == s[i + n..]
  {
  }

  lemma HeaderFields(s: seq<Byte>)
    requires |s| >= HEADER
    ensures var h := s[..HEADER]; h[0] == s[0] && h[1..5] == s[1..5] && h[5..7] == s[5..7]
  {
  }

  lemma PayloadSlice(s: seq<Byte>)
    requires HoldsMessage(s)
    ensures s[HEADER..HEADER + PayloadLength(s)] == s[HEADER..][..PayloadLength(s)]
    ensures Rest(s) == s[HEADER..][PayloadLength(s)..]
  {
  }

  /** copy(p[from..], data) */
  method CopyTo(p: array<Byte>, from: nat, data: seq<Byte>)
    requires from + |data| <= p.Length
    modifies p
    ensures p[..from + |data|] == old(p[..from]) + data
  {
    for i := 0 to |data|
      invariant p[..from + i] == old(p[..from]) + data[..i]
    {
      p[from + i] := data[i];
    }
  }
}
