/** The two parsers against each other. */
module ParserAgreement {

  import opened Crc16
  import opened Framing
  import opened FramingLaws
  import opened Sequences
  import opened HostParser
  import Relay
  import RelayDown

  /**
   * The same bytes, however each side receives them, give both parsers the same frames: all that the reference
   * scanner finds. They are disjoint slices of the bytes, in order.
   */
  method Agree(a: seq<seq<Byte>>, b: seq<seq<Byte>>) returns (frames: seq<Frame>, given: seq<HostFrame>)
    requires Concat(a) == Concat(b)
    ensures frames == ScanAll(RESET, Concat(a)).frames && given == Views(frames)
    ensures Embeds(Concat(a), frames)
  {
    frames := Relay.DeviceFrames(a);
    given := RelayDown.HostFrames(b);
    FramesAreSlices(Concat(a));
  }

  lemma FramesAreSlices(data: seq<Byte>)
    ensures Embeds(data, ScanAll(RESET, data).frames)
  {
    ScanAccounts(data);
    var s := ScanAll(RESET, data);
    var cut := |data| - |s.pending|;
    EmbedsLonger(data[..cut], data[cut..], s.frames);
    assert data == data[..cut] + data[cut..];
  }

  /** The host's view tells frames apart, unless a response carries no status byte. */
  lemma ViewIsInjective(f: Frame, g: Frame)
    requires View(f) == View(g)
    requires f.cmd >= RESP_FLAG ==> f.payload != []
    requires g.cmd >= RESP_FLAG ==> g.payload != []
    ensures f == g
  {
    if f.cmd >= RESP_FLAG {
      assert f.payload == [f.payload[0]] + f.payload[1..];
      assert g.payload == [g.payload[0]] + g.payload[1..];
    }
  }
}
