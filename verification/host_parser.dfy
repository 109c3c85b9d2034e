/** The host tool's streaming parser (ctrl/proto/proto.go), field for field, against the reference scanner. */
module HostParser {

  import opened Crc16
  import opened Framing
  import opened ParserStates

  datatype HostFrame = HostFrame(seqNo: Byte, cmd: Byte, isResp: bool, status: Byte, payload: seq<Byte>)

  /** What the callback is given for a frame: the response flag and the status byte are split off. */
  function View(f: Frame): HostFrame {
    var isResp := f.cmd >= RESP_FLAG;
    var cmd := if isResp then f.cmd - RESP_FLAG else f.cmd;
    if isResp && f.payload != [] then HostFrame(f.seqNo, cmd, true, f.payload[0], f.payload[1..])
    else HostFrame(f.seqNo, cmd, isResp, 0, f.payload)
  }

  function Views(fs: seq<Frame>): seq<HostFrame> {
    seq(|fs|, i requires 0 <= i < |fs| => View(fs[i]))
  }

  lemma ViewsSnoc(fs: seq<Frame>, f: Frame)
    ensures Views(fs + [f]) == Views(fs) + [View(f)]
  {
  }

  class Parser {
    var state: State
    var bodyLen: nat
    var bodyRecv: nat
    var body: array<Byte>
    var crcH: Byte
    var crcCalc: bv16
    var given: seq<HostFrame>      // what the callback was given, in order
    ghost var pending: seq<Byte>   // the bytes of the frame under way
    ghost var frames: seq<Frame>   // the frames recovered so far

    ghost predicate Valid()
      reads this, body
    {
      && Partial(pending)
      && state == StateAfter(pending)
      && crcCalc == CrcAfter(pending)
      && (|pending| >= 3 ==> bodyLen == LengthAfter(pending))
      && (state == InBody ==> bodyRecv == |pending| - 4)
      && (state == CrcL ==> crcH == pending[|pending| - 1])
      && given == Views(frames)
      && BodyHolds()
    }

    ghost predicate BodyHolds()
      requires Partial(pending)
      reads this, body
    {
      |pending| >= 4 ==>
        body.Length == bodyLen && forall i :: 0 <= i < body.Length && 4 + i < |pending| ==> body[i] == pending[4 + i]
    }

    /** The reference scanner's state. */
    ghost function Seen(): Scan
      reads this
    {
      Scan(pending, frames)
    }

    constructor ()
      ensures Valid() && fresh(body) && Seen() == RESET
    {
      body := new Byte[0];
      state, bodyLen, bodyRecv, crcH := Magic0, 0, 0, 0;
      crcCalc, given := CRC_INIT, [];
      pending, frames := [], [];
    }

    /** reset */
    method Reset()
      modifies this`state, this`crcCalc
      ensures state == Magic0 && crcCalc == CRC_INIT
    {
      state, crcCalc := Magic0, CRC_INIT;
    }

    /** The same, when no frame is under way any more. */
    method StartOver()
      requires given == Views(frames)
      modifies this`state, this`crcCalc, this`pending
      ensures Valid() && pending == []
    {
      Reset();
      CrcAfterReset();
      pending := [];
    }

    method OnMagic0(b: Byte)
      requires Valid() && state == Magic0
      modifies this
      ensures Valid() && Seen() == Absorb(old(Seen()), b)
      ensures body == old(body)
    {
      AbsorbMagic(Seen(), b);
      if b == MAGIC0 {
        crcCalc := UpdateByte(CRC_INIT, b);
        state := Magic1;
        CrcAfterMagic0();
        pending := [b];
      }
    }

    /** The byte after a lone 0xAA was not 0x55: it may itself begin a frame. */
    method Restart(b: Byte)
      requires Valid() && state == Magic1
      modifies this`state, this`crcCalc, this`pending
      ensures Valid() && pending == if b == MAGIC0 then [b] else []
    {
      StartOver();
      if b == MAGIC0 {
        crcCalc := UpdateByte(CRC_INIT, b);
        state := Magic1;
        CrcAfterMagic0();
        pending := [b];
      }
    }

    method OnMagic1(b: Byte)
      requires Valid() && state == Magic1
      modifies this
      ensures Valid() && Seen() == Absorb(old(Seen()), b)
      ensures body == old(body)
    {
      AbsorbMagic(Seen(), b);
      CrcAfterSnoc(pending, b);
      var crc := UpdateByte(crcCalc, b);
      if b == MAGIC1 {
        crcCalc := crc;
        state := LenH;
        pending := pending + [b];
      } else {
        Restart(b);
      }
    }

    method OnLenH(b: Byte)
      requires Valid() && state == LenH
      modifies this
      ensures Valid() && Seen() == Absorb(old(Seen()), b)
      ensures body == old(body)
    {
      AbsorbLength(Seen(), b);
      CrcAfterSnoc(pending, b);
      crcCalc := UpdateByte(crcCalc, b);
      bodyLen := (b as nat) * 256;
      state := LenL;
      pending := pending + [b];
    }

    method OnLenL(b: Byte)
      requires Valid() && state == LenL
      modifies this
      ensures Valid() && Seen() == Absorb(old(Seen()), b)
      ensures body == old(body) || fresh(body)
    {
      AbsorbLength(Seen(), b);
      LengthKnown(pending, b);
      CrcAfterSnoc(pending, b);
      crcCalc := UpdateByte(crcCalc, b);
      bodyLen := bodyLen + (b as nat);
      assert bodyLen == Word(pending[2], b);
      if bodyLen < 2 || bodyLen > 2 + MAX_PAYLOAD {
        StartOver();
      } else {
        StartBody(b);
      }
    }

    /** The length is legal: a buffer for the body. */
    method StartBody(b: Byte)
      requires |pending| == 3 && Led(pending) && given == Views(frames)
      requires LegalLength(bodyLen) && bodyLen == Word(pending[2], b) && crcCalc == CrcAfter(pending + [b])
      modifies this`body, this`bodyRecv, this`state, this`pending
      ensures Valid() && pending == old(pending) + [b] && fresh(body)
    {
      LengthKnown(pending, b);
      body := new Byte[bodyLen];
      bodyRecv := 0;
      state := InBody;
      pending := pending + [b];
    }

    method OnBody(b: Byte)
      requires Valid() && state == InBody
      modifies this, body
      ensures Valid() && Seen() == Absorb(old(Seen()), b)
      ensures body == old(body)
    {
      AbsorbBody(Seen(), b);
      CrcAfterSnoc(pending, b);
      crcCalc := UpdateByte(crcCalc, b);
      body[bodyRecv] := b;
      bodyRecv := bodyRecv + 1;
      if bodyRecv >= bodyLen {
        state := CrcH;
      }
      pending := pending + [b];
    }

    method OnCrcH(b: Byte)
      requires Valid() && state == CrcH
      modifies this
      ensures Valid() && Seen() == Absorb(old(Seen()), b)
      ensures body == old(body)
    {
      AbsorbBody(Seen(), b);
      CrcAfterHigh(pending, b);
      crcH := b;
      state := CrcL;
      pending := pending + [b];
    }

    /** The frame as the callback gets it. */
    method Present() returns (f: HostFrame)
      requires Valid() && state == CrcL
      ensures f == View(Frame(pending[4], pending[5], pending[6..|pending| - 1]))
    {
      BodySlice();
      var cmdByte := body[1];
      var isResp := cmdByte >= RESP_FLAG;
      var cmd := if isResp then cmdByte - RESP_FLAG else cmdByte;
      f := HostFrame(body[0], cmd, isResp, 0, []);
      if isResp && body.Length > 2 {
        assert body[3..] == body[2..][1..];
        f := f.(status := body[2], payload := body[3..]);
      } else {
        f := f.(payload := body[2..]);
      }
    }

    /** Call the callback if the checksum agrees. */
    method Deliver(b: Byte)
      requires Valid() && state == CrcL
      modifies this`given, this`frames
      ensures Valid()
      ensures frames == if CrcWord(crcH, b) == crcCalc
                        then old(frames) + [Frame(pending[4], pending[5], pending[6..|pending| - 1])]
                        else old(frames)
    {
      var crcRecv := CrcWord(crcH, b);
      if crcRecv == crcCalc {
        var f := Present();
        ghost var g := Frame(pending[4], pending[5], pending[6..|pending| - 1]);
        ViewsSnoc(frames, g);
        given, frames := given + [f], frames + [g];
      }
    }

    method OnCrcL(b: Byte)
      requires Valid() && state == CrcL
      modifies this
      ensures Valid() && Seen() == Absorb(old(Seen()), b)
      ensures body == old(body)
    {
      AbsorbLast(Seen(), b);
      ghost var after := Absorb(Seen(), b);
      Deliver(b);
      assert after == Scan([], frames);
      StartOver();
    }

    lemma BodySlice()
      requires Valid() && state == CrcL
      ensures 2 <= body.Length && body[0] == pending[4] && body[1] == pending[5]
      ensures body[2..] == pending[6..|pending| - 1]
    {
    }

    method FeedByte(b: Byte)
      requires Valid()
      modifies this, body
      ensures Valid() && Seen() == Absorb(old(Seen()), b)
      ensures body == old(body) || fresh(body)
    {
      match state
      case Magic0 => OnMagic0(b);
      case Magic1 => OnMagic1(b);
      case LenH => OnLenH(b);
      case LenL => OnLenL(b);
      case InBody => OnBody(b);
      case CrcH => OnCrcH(b);
      case CrcL => OnCrcL(b);
    }

    /** Feed */
    method Feed(data: seq<Byte>)
      requires Valid()
      modifies this, body
      ensures Valid() && Seen() == ScanAll(old(Seen()), data)
      ensures body == old(body) || fresh(body)
    {
      for i := 0 to |data|
        invariant Valid() && Seen() == ScanAll(old(Seen()), data[..i])
        invariant body == old(body) || fresh(body)
      {
        FeedByte(data[i]);
        assert data[..i + 1][..i] == data[..i];
      }
      assert data[..|data|] == data;
    }
  }
}
