/** The three builders, each of which fills a buffer with a running index (main/proto.c, ctrl/proto/proto.go). */
module FrameBuilders {

  import opened Crc16
  import opened Framing

  /** cmd | 0x80 */
  function WithFlag(cmd: Byte): Byte { if cmd < RESP_FLAG then cmd + RESP_FLAG else cmd }

  /** What a response carries: the status byte first. */
  function ResponseFrame(seqNo: Byte, cmd: Byte, status: Byte, data: seq<Byte>): Frame {
    Frame(seqNo, WithFlag(cmd), [status] + data)
  }

  function PushFrame(cmd: Byte, data: seq<Byte>): Frame {
    Frame(0, cmd, data)
  }

  /** The bytes of `now` up to `n` are `s`, and the others are those of `was`. */
  ghost predicate Filled(now: seq<Byte>, was: seq<Byte>, s: seq<Byte>) {
    |s| <= |was| && now == s + was[|s|..]
  }

  /** memcpy(&buf[n], data, data_len) */
  method CopyInto(buf: array<Byte>, n: nat, data: seq<Byte>, ghost was: seq<Byte>)
    requires n + |data| <= buf.Length && |was| == buf.Length
    requires Filled(buf[..], was, buf[..n])
    modifies buf
    ensures Filled(buf[..], was, old(buf[..n]) + data)
  {
    for k := 0 to |data|
      invariant Filled(buf[..], was, old(buf[..n]) + data[..k])
    {
      FilledNext(buf[..], was, old(buf[..n]) + data[..k], data[k]);
      buf[n + k] := data[k];
      assert old(buf[..n]) + data[..k] + [data[k]] == old(buf[..n]) + data[..k + 1];
    }
    assert data[..|data|] == data;
  }

  lemma FilledNext(now: seq<Byte>, was: seq<Byte>, s: seq<Byte>, b: Byte)
    requires Filled(now, was, s) && |s| < |was|
    ensures Filled(now[|s| := b], was, s + [b])
  {
  }

  /** The magic, the body length, the sequence number and the command. */
  method PutHeader(buf: array<Byte>, bodyLen: nat, seqNo: Byte, cmd: Byte) returns (n: nat)
    requires buf.Length >= 6
    modifies buf
    ensures n == 6 && Filled(buf[..], old(buf[..]), Header(bodyLen) + [seqNo, cmd])
  {
    n := 0;
    buf[n] := MAGIC0;
    n := n + 1;
    buf[n] := MAGIC1;
    n := n + 1;
    buf[n] := Hi(bodyLen);
    n := n + 1;
    buf[n] := Lo(bodyLen);
    n := n + 1;
    buf[n] := seqNo;
    n := n + 1;
    buf[n] := cmd;
    n := n + 1;
  }

  /** The checksum of everything before it. */
  method PutCrc(buf: array<Byte>, n0: nat, ghost was: seq<Byte>) returns (n: nat)
    requires n0 + 2 <= buf.Length && |was| == buf.Length
    requires Filled(buf[..], was, buf[..n0])
    modifies buf
    ensures n == n0 + 2 && Filled(buf[..], was, Sealed(old(buf[..n0])))
  {
    n := n0;
    var crc := ComputeCrc(buf[..n]);
    var bytes := CrcBytes(crc);
    buf[n] := bytes[0];
    n := n + 1;
    buf[n] := bytes[1];
    n := n + 1;
  }

  lemma FilledPrefix(now: seq<Byte>, was: seq<Byte>, s: seq<Byte>)
    requires Filled(now, was, s)
    ensures |s| <= |now| == |was| && now[..|s|] == s
  {
  }

  /** A 16-bit length. */
  function Short(n: nat): nat { n % 0x1_0000 }

  /**
   * The check of the builders, which reckons with a 16-bit body length, does not let through a frame that is
   * longer than the buffer.
   */
  predicate CheckIsSafe(room: nat, bodyLen: nat) {
    6 + Short(bodyLen) <= room ==> 6 + bodyLen <= room
  }

  lemma SafeCheck(room: nat, bodyLen: nat)
    requires CheckIsSafe(room, bodyLen)
    ensures room < 6 + Short(bodyLen) <==> room < 6 + bodyLen
  {
  }

  lemma HeaderOfShort(n: nat)
    ensures Header(Short(n)) == Header(n)
  {
    var q, m := n / 0x1_0000, n % 0x1_0000;
    assert n / 256 == 256 * q + m / 256;
    assert n / 256 % 256 == m / 256 % 256;
  }

  /**
   * proto_build_response. The room that it asks for is computed with a 16-bit length; a caller must not pass data
   * so long that the check lets through what the buffer cannot hold.
   */
  method BuildResponse(seqNo: Byte, cmd: Byte, status: Byte, data: seq<Byte>, buf: array<Byte>) returns (n: nat)
    requires CheckIsSafe(buf.Length, 3 + |data|)
    modifies buf
    ensures n == if buf.Length < 9 + |data| then 0 else 9 + |data|
    ensures n == 0 ==> buf[..] == old(buf[..])
    ensures n > 0 ==> Filled(buf[..], old(buf[..]), Encode(ResponseFrame(seqNo, cmd, status, data)))
  {
    var bodyLen := Short(3 + |data|);
    HeaderOfShort(3 + |data|);
    SafeCheck(buf.Length, 3 + |data|);
    if buf.Length < 6 + bodyLen { return 0; }
    ghost var was := buf[..];
    n := PutHeader(buf, bodyLen, seqNo, WithFlag(cmd));
    ghost var h := Header(bodyLen) + [seqNo, WithFlag(cmd)];
    FilledNext(buf[..], was, h, status);
    buf[n] := status;
    n := n + 1;
    FilledPrefix(buf[..], was, h + [status]);
    CopyInto(buf, n, data, was);
    n := n + |data|;
    FilledPrefix(buf[..], was, h + [status] + data);
    n := PutCrc(buf, n, was);
    assert h + [status] + data == Header(bodyLen) + Body(ResponseFrame(seqNo, cmd, status, data));
  }

  /** proto_build_push, with the same demand on its caller. */
  method BuildPush(cmd: Byte, data: seq<Byte>, buf: array<Byte>) returns (n: nat)
    requires CheckIsSafe(buf.Length, 2 + |data|)
    modifies buf
    ensures n == if buf.Length < 8 + |data| then 0 else 8 + |data|
    ensures n == 0 ==> buf[..] == old(buf[..])
    ensures n > 0 ==> Filled(buf[..], old(buf[..]), Encode(PushFrame(cmd, data)))
  {
    var bodyLen := Short(2 + |data|);
    HeaderOfShort(2 + |data|);
    SafeCheck(buf.Length, 2 + |data|);
    if buf.Length < 6 + bodyLen { return 0; }
    ghost var was := buf[..];
    n := PutHeader(buf, bodyLen, 0, cmd);
    ghost var h := Header(bodyLen) + [0, cmd];
    FilledPrefix(buf[..], was, h);
    CopyInto(buf, n, data, was);
    n := n + |data|;
    FilledPrefix(buf[..], was, h + data);
    n := PutCrc(buf, n, was);
    assert h + data == Header(bodyLen) + Body(PushFrame(cmd, data));
  }

  /** BuildRequest: a fresh buffer, as long as the frame. */
  method BuildRequest(seqNo: Byte, cmd: Byte, payload: seq<Byte>) returns (frame: seq<Byte>)
    ensures frame == Encode(Frame(seqNo, cmd, payload))
  {
    var bodyLen := 2 + |payload|;
    var buf := new Byte[6 + bodyLen];
    ghost var was := buf[..];
    var n := PutHeader(buf, bodyLen, seqNo, cmd);
    ghost var h := Header(bodyLen) + [seqNo, cmd];
    FilledPrefix(buf[..], was, h);
    CopyInto(buf, n, payload, was);
    n := n + |payload|;
    FilledPrefix(buf[..], was, h + payload);
    n := PutCrc(buf, n, was);
    assert h + payload == Header(bodyLen) + Body(Frame(seqNo, cmd, payload));
    FilledPrefix(buf[..], was, Sealed(h + payload));
    frame := buf[..n];
  }
}
