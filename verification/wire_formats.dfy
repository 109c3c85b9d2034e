/** The formats on the wire, byte for byte and with their numbers. */
module WireFormats {

  import opened Crc16
  import opened Framing
  import opened FramingLaws
  import opened FrameBuilders
  import opened Mux
  import opened Relay

  // ---- the checksum ----

  /** Nine steps of the register from 0xFFFF. */
  lemma ChecksumSteps()
    ensures Update(Update(Update(0xFFFF, 0x31), 0x32), 0x33) == 0x5BCE
    ensures Update(Update(Update(0x5BCE, 0x34), 0x35), 0x36) == 0x2EF4
    ensures Update(Update(Update(0x2EF4, 0x37), 0x38), 0x39) == 0x29B1
  {
    UpdateIsShift8(0xFFFF, 0x31);
    UpdateIsShift8(0xC782, 0x32);
    UpdateIsShift8(0x3DBA, 0x33);
    UpdateIsShift8(0x5BCE, 0x34);
    UpdateIsShift8(0x5349, 0x35);
    UpdateIsShift8(0x4560, 0x36);
    UpdateIsShift8(0x2EF4, 0x37);
    UpdateIsShift8(0x7718, 0x38);
    UpdateIsShift8(0xA12B, 0x39);
  }

  lemma CrcOfThree(crc: bv16, a: Byte, b: Byte, c: Byte)
    ensures Crc(crc, [a, b, c]) == Update(Update(Update(crc, Bits(a)), Bits(b)), Bits(c))
  {
    var s := [a, b, c];
    assert s[..2] == [a, b] && s[..2][..1] == [a] && s[..2][..1][..0] == [];
    assert Crc(crc, [a]) == Update(Crc(crc, []), Bits(a));
  }

  /** The checksum of the digits 1 to 9, which tells variants of this CRC apart. */
  lemma ChecksumOfDigits()
    ensures Crc(CRC_INIT, [0x31, 0x32, 0x33, 0x34, 0x35, 0x36, 0x37, 0x38, 0x39]) == 0x29B1
  {
    var a, b, c: seq<Byte> := [0x31, 0x32, 0x33], [0x34, 0x35, 0x36], [0x37, 0x38, 0x39];
    CrcOfThree(CRC_INIT, 0x31, 0x32, 0x33);
    CrcOfThree(0x5BCE, 0x34, 0x35, 0x36);
    CrcOfThree(0x2EF4, 0x37, 0x38, 0x39);
    CrcAppend(CRC_INIT, a, b);
    CrcAppend(CRC_INIT, a + b, c);
    ChecksumSteps();
    assert a + b + c == [0x31, 0x32, 0x33, 0x34, 0x35, 0x36, 0x37, 0x38, 0x39];
  }

  // ---- the serial frame ----

  lemma ShortWord(n: nat)
    ensures Word(Hi(n), Lo(n)) == n % 0x1_0000
  {
    HeaderOfShort(n);
    assert Header(Short(n))[2] == Header(n)[2] && Header(Short(n))[3] == Header(n)[3];
    WordHiLo(Short(n));
  }

  /** AA 55, the length of the body high byte first, the body, the checksum of all that. */
  lemma FrameLayout(f: Frame)
    ensures var e, n := Encode(f), |f.payload|;
      && |e| == n + 8 && e[0] == 0xAA && e[1] == 0x55
      && e[2] as int * 256 + e[3] as int == (n + 2) % 0x1_0000
      && e[4] == f.seqNo && e[5] == f.cmd && e[6..n + 6] == f.payload
      && e[n + 6..] == CrcBytes(Crc(CRC_INIT, e[..n + 6]))
  {
    var n := |f.payload|;
    var s := Header(2 + n) + Body(f);
    ShortWord(2 + n);
    assert Encode(f)[..n + 6] == s;
    assert s[6..n + 6] == f.payload;
  }

  /** The checksum field is the number, high byte first. */
  lemma ChecksumBytes(crc: bv16)
    ensures (CrcBytes(crc)[0] as int) * 256 + CrcBytes(crc)[1] as int == crc as int
  {
    HalvesOf(crc);
  }

  lemma HalvesOf(crc: bv16)
    ensures ((crc >> 8) as Octet) as int == (crc >> 8) as int && ((crc & 0xFF) as Octet) as int == (crc & 0xFF) as int
    ensures (crc >> 8) as int * 256 + (crc & 0xFF) as int == crc as int
  {
  }

  /** A response is flagged in the top bit of its command and begins with its status; a push has sequence number 0. */
  lemma ResponseAndPushLayout(seqNo: Byte, cmd: Byte, status: Byte, data: seq<Byte>)
    ensures var f := ResponseFrame(seqNo, cmd, status, data);
      f.seqNo == seqNo && f.cmd as int == (if cmd < 0x80 then cmd as int + 0x80 else cmd as int)
      && f.payload == [status] + data
    ensures PushFrame(cmd, data) == Frame(0, cmd, data)
  {
  }

  /** A header that announces a body of less than two bytes, or of more than 1026, is dropped at once. */
  lemma BadLengthDropped(h: Byte, l: Byte, frames: seq<Frame>)
    ensures var n := h as int * 256 + l as int;
      ScanAll(Scan([], frames), [0xAA, 0x55, h, l]) ==
        Scan(if 2 <= n <= 1026 then [0xAA, 0x55, h, l] else [], frames)
  {
    var s: seq<Byte> := [0xAA, 0x55, h, l];
    assert s[..3] == [0xAA, 0x55, h] && s[..3][..2] == [0xAA, 0x55] && s[..3][..2][..1] == [0xAA];
    assert s[..3][..2][..1][..0] == [];
    assert [] + [0xAA] == s[..1] && s[..1] + [0x55] == s[..2] && s[..2] + [h] == s[..3] && s[..3] + [l] == s;
    assert ScanAll(Scan([], frames), s[..1]) == Scan(s[..1], frames);
    assert ScanAll(Scan([], frames), s[..2]) == Scan(s[..2], frames);
    assert ScanAll(Scan([], frames), s[..3]) == Scan(s[..3], frames);
  }

  // ---- the multiplexer's message ----

  /** The command, the identifier and the payload's length low byte first, the payload. */
  lemma MessageLayout(m: Message)
    ensures var e := Encoded(m);
      && |e| == |m.payload| + 7 && e[0] == m.cmd
      && e[1] as int + e[2] as int * 0x100 + e[3] as int * 0x1_0000 + e[4] as int * 0x100_0000 == m.connID as int
      && e[5] as int + e[6] as int * 0x100 == |m.payload| % 0x1_0000
      && e[7..] == m.payload
  {
    WordHiLo(m.connID as nat % 0x1_0000);
    WordHiLo(m.connID as nat / 0x1_0000);
    ShortWord(|m.payload|);
    var e := Encoded(m);
    assert e[1..5] == Le32(m.connID) && e[5..7] == Le16(|m.payload|);
    assert e[1] == e[1..5][0] && e[2] == e[1..5][1] && e[3] == e[1..5][2] && e[4] == e[1..5][3];
    assert e[5] == e[5..7][0] && e[6] == e[5..7][1];
  }

  /** The numbers of the commands that carry the relay. */
  lemma RelayCommands(chunk: seq<Byte>)
    ensures ChunkFrame(chunk) == Frame(0, 0x21, chunk)
    ensures CMD_PROXY_DATA_PUSH == 0x40 && CMD_PROXY_CLOSED_PUSH == 0x41
    ensures MAX_PAYLOAD == 1024 && MAX_MESSAGE == 65535
  {
  }
}
