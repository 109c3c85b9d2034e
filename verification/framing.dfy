/**
 * The serial frame AA 55 LEN_H LEN_L body CRC_H CRC_L, and what a receiver makes of a byte stream:
 * a reference scanner that keeps the bytes of the frame it is in the middle of.
 */
module Framing {

  import opened Crc16

  const MAGIC0: Byte := 0xAA
  const MAGIC1: Byte := 0x55
  const RESP_FLAG: Byte := 0x80
  const MAX_PAYLOAD: nat := 1024
  const MAX_FRAME: nat := 8 + MAX_PAYLOAD

  datatype Frame = Frame(seqNo: Byte, cmd: Byte, payload: seq<Byte>)

  // ---- sending ----

  /** The upper byte of a 16-bit length; a longer length is truncated. */
  function Hi(n: nat): Byte { (n / 256 % 256) as Byte }

  function Lo(n: nat): Byte { (n % 256) as Byte }

  function Word(h: Byte, l: Byte): nat { (h as nat) * 256 + (l as nat) }

  function Body(f: Frame): seq<Byte> { [f.seqNo, f.cmd] + f.payload }

  function Header(n: nat): seq<Byte> { [MAGIC0, MAGIC1, Hi(n), Lo(n)] }

  function Sealed(s: seq<Byte>): seq<Byte> { s + CrcBytes(Crc(CRC_INIT, s)) }

  /** The bytes of a frame on the wire. */
  function Encode(f: Frame): seq<Byte> { Sealed(Header(2 + |f.payload|) + Body(f)) }

  // ---- receiving ----

  /** The body length that a frame's header announces. */
  function Announced(p: seq<Byte>): nat
    requires |p| >= 4
  {
    Word(p[2], p[3])
  }

  predicate LegalLength(n: nat) { 2 <= n <= 2 + MAX_PAYLOAD }

  predicate Led(p: seq<Byte>) {
    && (|p| >= 1 ==> p[0] == MAGIC0)
    && (|p| >= 2 ==> p[1] == MAGIC1)
    && (|p| >= 4 ==> LegalLength(Announced(p)))
  }

  /** Some frame begins with `p` and continues. */
  predicate Partial(p: seq<Byte>) {
    Led(p) && (|p| >= 4 ==> |p| < Announced(p) + 6)
  }

  /** As many bytes as the header announces. */
  predicate Complete(p: seq<Byte>) {
    Led(p) && |p| >= 4 && |p| == Announced(p) + 6
  }

  predicate Checked(p: seq<Byte>)
    requires |p| >= 2
  {
    CrcWord(p[|p| - 2], p[|p| - 1]) == Crc(CRC_INIT, p[..|p| - 2])
  }

  function Unpack(p: seq<Byte>): Frame
    requires |p| >= 8
  {
    Frame(p[4], p[5], p[6..|p| - 2])
  }

  /** The bytes of the frame under way, and the frames received before it. */
  datatype Scan = Scan(pending: seq<Byte>, frames: seq<Frame>)

  const RESET := Scan([], [])

  function Absorb(s: Scan, b: Byte): Scan {
    var next := s.pending + [b];
    if Partial(next) then Scan(next, s.frames)
    else if Complete(next) && Checked(next) then Scan([], s.frames + [Unpack(next)])
    else if |next| == 2 && b == MAGIC0 then Scan([b], s.frames)
    else Scan([], s.frames)
  }

  function ScanAll(s: Scan, data: seq<Byte>): Scan {
    if data == [] then s else Absorb(ScanAll(s, data[..|data| - 1]), data[|data| - 1])
  }

  lemma {:induction false} ScanAppend(s: Scan, a: seq<Byte>, b: seq<Byte>)
    ensures ScanAll(s, a + b) == ScanAll(ScanAll(s, a), b)
  {
    if b == [] {
      assert a + b == a;
    } else {
      assert (a + b)[..|a + b| - 1] == a + b[..|b| - 1];
      ScanAppend(s, a, b[..|b| - 1]);
    }
  }

  // ---- lengths ----

  lemma WordHiLo(n: nat)
    requires n < 0x1_0000
    ensures Word(Hi(n), Lo(n)) == n
  {
  }

  lemma HiLoWord(h: Byte, l: Byte)
    ensures Word(h, l) < 0x1_0000 && Hi(Word(h, l)) == h && Lo(Word(h, l)) == l
  {
  }
}
