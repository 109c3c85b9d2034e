/** The seven states of the two streaming parsers, told from the bytes of the frame under way. */
module ParserStates {

  import opened Crc16
  import opened Framing

  datatype State = Magic0 | Magic1 | LenH | LenL | InBody | CrcH | CrcL

  /** The state that a parser is in when these bytes of a frame have arrived. */
  function StateAfter(p: seq<Byte>): State {
    if |p| == 0 then Magic0
    else if |p| == 1 then Magic1
    else if |p| == 2 then LenH
    else if |p| == 3 then LenL
    else if |p| < 4 + Announced(p) then InBody
    else if |p| == 4 + Announced(p) then CrcH
    else CrcL
  }

  lemma CrcSnoc(p: seq<Byte>, b: Byte)
    ensures Crc(CRC_INIT, p + [b]) == Update(Crc(CRC_INIT, p), Bits(b))
  {
    assert (p + [b])[..|p|] == p;
  }

  lemma CrcOfOne(b: Byte)
    ensures Crc(CRC_INIT, [b]) == Update(CRC_INIT, Bits(b))
  {
    CrcSnoc([], b);
    assert [] + [b] == [b];
  }

  /** The running checksum: it covers everything before the checksum field. */
  function CrcAfter(p: seq<Byte>): bv16 {
    Crc(CRC_INIT, if StateAfter(p) == CrcL then p[..|p| - 1] else p)
  }

  /** The header's length as far as it is known. */
  function LengthAfter(p: seq<Byte>): nat
    requires |p| >= 3
  {
    if |p| == 3 then (p[2] as nat) * 256 else Announced(p)
  }

  lemma CrcAfterReset()
    ensures CrcAfter([]) == CRC_INIT
  {
  }

  lemma CrcAfterMagic0()
    ensures CrcAfter([MAGIC0]) == Update(CRC_INIT, Bits(MAGIC0))
  {
    CrcOfOne(MAGIC0);
  }

  lemma CrcAfterSnoc(p: seq<Byte>, b: Byte)
    requires |p| < 4 || StateAfter(p) == InBody
    ensures CrcAfter(p + [b]) == Update(CrcAfter(p), Bits(b))
  {
    CrcSnoc(p, b);
  }

  lemma LengthKnown(p: seq<Byte>, b: Byte)
    requires |p| == 3
    ensures LengthAfter(p + [b]) == LengthAfter(p) + (b as nat)
    ensures LengthAfter(p + [b]) == Word(p[2], b)
    ensures LegalLength(Word(p[2], b)) ==> StateAfter(p + [b]) == InBody
  {
  }

  lemma CrcAfterHigh(p: seq<Byte>, b: Byte)
    requires |p| >= 4 && StateAfter(p) == CrcH
    ensures StateAfter(p + [b]) == CrcL && CrcAfter(p + [b]) == CrcAfter(p)
  {
    assert (p + [b])[..|p|] == p;
  }

  lemma AbsorbMagic(s: Scan, b: Byte)
    requires Partial(s.pending) && |s.pending| < 2
    ensures Absorb(s, b) == (
      if s.pending == [] && b != MAGIC0 then Scan([], s.frames)
      else if s.pending != [] && b == MAGIC1 then Scan(s.pending + [b], s.frames)
      else if b == MAGIC0 then Scan([b], s.frames)
      else Scan([], s.frames))
  {
    if s.pending == [] { assert s.pending + [b] == [b]; }
  }

  lemma AbsorbLength(s: Scan, b: Byte)
    requires Partial(s.pending) && 2 <= |s.pending| < 4
    ensures Absorb(s, b) == (
      if |s.pending| == 3 && !LegalLength(Word(s.pending[2], b)) then Scan([], s.frames)
      else Scan(s.pending + [b], s.frames))
  {
  }

  lemma AbsorbBody(s: Scan, b: Byte)
    requires Partial(s.pending) && 4 <= |s.pending| <= 4 + Announced(s.pending)
    ensures Absorb(s, b) == Scan(s.pending + [b], s.frames)
  {
  }

  lemma LastByte(p: seq<Byte>, b: Byte)
    requires Partial(p) && 4 <= |p| && |p| == 5 + Announced(p)
    ensures Complete(p + [b]) && !Partial(p + [b])
  {
  }

  lemma LastByteChecks(p: seq<Byte>, b: Byte)
    requires |p| >= 1
    ensures Checked(p + [b]) <==> CrcWord(p[|p| - 1], b) == Crc(CRC_INIT, p[..|p| - 1])
  {
    assert (p + [b])[..|p| - 1] == p[..|p| - 1];
  }

  lemma LastByteUnpacks(p: seq<Byte>, b: Byte)
    requires |p| >= 7
    ensures Unpack(p + [b]) == Frame(p[4], p[5], p[6..|p| - 1])
  {
  }

  lemma AbsorbLast(s: Scan, b: Byte)
    requires Partial(s.pending) && 4 <= |s.pending| && |s.pending| == 5 + Announced(s.pending)
    ensures Absorb(s, b) == Scan([],
      if CrcWord(s.pending[|s.pending| - 1], b) == CrcAfter(s.pending)
      then s.frames + [Frame(s.pending[4], s.pending[5], s.pending[6..|s.pending| - 1])]
      else s.frames)
  {
    LastByte(s.pending, b);
    LastByteChecks(s.pending, b);
    LastByteUnpacks(s.pending, b);
  }
}
