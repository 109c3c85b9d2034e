/** The firmware's streaming parser (main/proto.c), field for field, against the reference scanner. */
module DeviceParser {

  import opened Crc16
  import opened Framing
  import opened ParserStates

  class Parser {
    var state: State
    var bodyLen: nat
    var bodyRecv: nat
    const body: array<Byte>
    var crcHi: Byte
    var crcCalc: bv16
    var frames: seq<Frame>        // what the callback was given, in order
    ghost var pending: seq<Byte>  // the bytes of the frame under way

    ghost predicate Valid()
      reads this, body
    {
      && Partial(pending)
      && state == StateAfter(pending)
      && crcCalc == CrcAfter(pending)
      && (|pending| >= 3 ==> bodyLen == LengthAfter(pending))
      && (state == InBody ==> bodyRecv == |pending| - 4)
      && (state == CrcL ==> crcHi == pending[|pending| - 1])
      && body.Length == 2 + MAX_PAYLOAD
      && BodyHolds()
    }

    ghost predicate BodyHolds()
      requires body.Length == 2 + MAX_PAYLOAD && Partial(pending)
      reads this, body
    {
      forall i :: 0 <= i < body.Length && 4 + i < |pending| && i < bodyLen ==> body[i] == pending[4 + i]
    }

    /** The reference scanner's state. */
    ghost function Seen(): Scan
      reads this
    {
      Scan(pending, frames)
    }

    constructor ()
      ensures Valid() && fresh(body) && Seen() == RESET
    {
      body := new Byte[2 + MAX_PAYLOAD];
      state, bodyLen, bodyRecv, crcHi := Magic0, 0, 0, 0;
      crcCalc, frames := CRC_INIT, [];
      pending := [];
    }
  
    /** parser_reset */
    method Reset()
      modifies this`state, this`crcCalc
      ensures state == Magic0 && crcCalc == CRC_INIT
    {
      state, crcCalc := Magic0, CRC_INIT;
    }

    /** The same, when no frame is under way any more. */
    method StartOver()
      requires body.Length == 2 + MAX_PAYLOAD
      modifies this`state, this`crcCalc, this`pending
      ensures Valid() && pending == []
    {
      Reset();
      CrcAfterReset();
      pending := [];
    }

    method OnMagic0(b: Byte)
      requires Valid() && state == Magic0
      modifies this
      ensures Valid() && Seen() == Absorb(old(Seen()), b)
    {
      AbsorbMagic(Seen(), b);
      if b == MAGIC0 {
        crcCalc := UpdateByte(CRC_INIT, b);
        state := Magic1;
        CrcAfterMagic0();
        pending := [b];
      }
    }

    /** The byte after a lone 0xAA was not 0x55: it may itself begin a frame. */
    method Restart(b: Byte)
      requires Valid() && state == Magic1
      modifies this`state, this`crcCalc, this`pending
      ensures Valid() && pending == if b == MAGIC0 then [b] else []
    {
      StartOver();
      if b == MAGIC0 {
        crcCalc := UpdateByte(CRC_INIT, b);
        state := Magic1;
        CrcAfterMagic0();
        pending := [b];
      }
    }

    method OnMagic1(b: Byte)
      requires Valid() && state == Magic1
      modifies this
      ensures Valid() && Seen() == Absorb(old(Seen()), b)
    {
      AbsorbMagic(Seen(), b);
      CrcAfterSnoc(pending, b);
      var crc := UpdateByte(crcCalc, b);
      if b == MAGIC1 {
        crcCalc := crc;
        state := LenH;
        pending := pending + [b];
      } else {
        Restart(b);
      }
    }

    method OnLenH(b: Byte)
      requires Valid() && state == LenH
      modifies this
      ensures Valid() && Seen() == Absorb(old(Seen()), b)
    {
      AbsorbLength(Seen(), b);
      CrcAfterSnoc(pending, b);
      crcCalc := UpdateByte(crcCalc, b);
      bodyLen := (b as nat) * 256;
      state := LenL;
      pending := pending + [b];
    }

    method OnLenL(b: Byte)
      requires Valid() && state == LenL
      modifies this
      ensures Valid() && Seen() == Absorb(old(Seen()), b)
    {
      AbsorbLength(Seen(), b);
      LengthKnown(pending, b);
      CrcAfterSnoc(pending, b);
      crcCalc := UpdateByte(crcCalc, b);
      bodyLen := bodyLen + (b as nat);
      assert bodyLen == Word(pending[2], b);
      if bodyLen < 2 || bodyLen > 2 + MAX_PAYLOAD {
        StartOver();
      } else {
        StartBody(b);
      }
    }

    /** The length is legal. */
    method StartBody(b: Byte)
      requires |pending| == 3 && Led(pending) && body.Length == 2 + MAX_PAYLOAD
      requires LegalLength(bodyLen) && bodyLen == Word(pending[2], b) && crcCalc == CrcAfter(pending + [b])
      modifies this`bodyRecv, this`state, this`pending
      ensures Valid() && pending == old(pending) + [b]
    {
      LengthKnown(pending, b);
      bodyRecv := 0;
      state := InBody;
      pending := pending + [b];
    }

    method OnBody(b: Byte)
      requires Valid() && state == InBody
      modifies this, body
      ensures Valid() && Seen() == Absorb(old(Seen()), b)
    {
      AbsorbBody(Seen(), b);
      CrcAfterSnoc(pending, b);
      crcCalc := UpdateByte(crcCalc, b);
      body[bodyRecv] := b;
      bodyRecv := bodyRecv + 1;
      if bodyRecv >= bodyLen {
        state := CrcH;
      }
      pending := pending + [b];
    }

    method OnCrcH(b: Byte)
      requires Valid() && state == CrcH
      modifies this
      ensures Valid() && Seen() == Absorb(old(Seen()), b)
    {
      AbsorbBody(Seen(), b);
      CrcAfterHigh(pending, b);
      crcHi := b;
      state := CrcL;
      pending := pending + [b];
    }

    method OnCrcL(b: Byte)
      requires Valid() && state == CrcL
      modifies this
      ensures Valid() && Seen() == Absorb(old(Seen()), b)
    {
      AbsorbLast(Seen(), b);
      var crcRecv := CrcWord(crcHi, b);
      if crcRecv == crcCalc {
        BodySlice();
        frames := frames + [Frame(body[0], body[1], body[2..bodyLen])];
      }
      StartOver();
    }

    lemma BodySlice()
      requires Valid() && state == CrcL
      ensures 2 <= bodyLen && body[0] == pending[4] && body[1] == pending[5]
      ensures body[2..bodyLen] == pending[6..|pending| - 1]
    {
    }

    method FeedByte(b: Byte)
      requires Valid()
      modifies this, body
      ensures Valid() && Seen() == Absorb(old(Seen()), b)
    {
      match state
      case Magic0 => OnMagic0(b);
      case Magic1 => OnMagic1(b);
      case LenH => OnLenH(b);
      case LenL => OnLenL(b);
      case InBody => OnBody(b);
      case CrcH => OnCrcH(b);
      case CrcL => OnCrcL(b);
    }

    /** proto_parser_feed */
    method Feed(data: seq<Byte>)
      requires Valid()
      modifies this, body
      ensures Valid() && Seen() == ScanAll(old(Seen()), data)
    {
      for i := 0 to |data|
        invariant Valid() && Seen() == ScanAll(old(Seen()), data[..i])
      {
        FeedByte(data[i]);
        assert data[..i + 1][..i] == data[..i];
      }
      assert data[..|data|] == data;
    }
  }
}
