/** What the reference scanner recovers from a byte stream, and what it rejects. */
module FramingLaws {

  import opened Crc16
  import opened Framing
  import opened Sequences

  // ---- a frame on the wire is exactly a complete, checked slice ----

  lemma HeaderLeads(n: nat, rest: seq<Byte>)
    requires LegalLength(n)
    ensures Led(Header(n) + rest) && Announced(Header(n) + rest) == n
  {
    WordHiLo(n);
    var p := Header(n) + rest;
    assert p[2] == Hi(n) && p[3] == Lo(n);
  }

  lemma SealedIsChecked(s: seq<Byte>)
    ensures |Sealed(s)| == |s| + 2 && Sealed(s)[..|s|] == s && Checked(Sealed(s))
  {
    CrcWordBytes(Crc(CRC_INIT, s));
    assert Sealed(s)[..|s|] == s;
  }

  lemma EnvelopeOf(e: seq<Byte>, head: seq<Byte>, f: Frame)
    requires |head| == 4 && |e| == |head + Body(f)| + 2 && e[..|e| - 2] == head + Body(f)
    ensures e == head + e[4..] && Unpack(e) == f
  {
    var s := head + Body(f);
    assert forall k :: 0 <= k < |s| ==> e[k] == e[..|e| - 2][k];
    assert e[6..|e| - 2] == f.payload;
  }

  lemma EncodeIsComplete(f: Frame)
    requires |f.payload| <= MAX_PAYLOAD
    ensures Complete(Encode(f)) && Checked(Encode(f)) && Unpack(Encode(f)) == f
  {
    var n := 2 + |f.payload|;
    SealedIsChecked(Header(n) + Body(f));
    EnvelopeOf(Encode(f), Header(n), f);
    HeaderLeads(n, Encode(f)[4..]);
  }

  lemma HeaderAnnounces(p: seq<Byte>)
    requires Led(p) && |p| >= 4
    ensures Header(Announced(p)) == p[..4]
  {
    HiLoWord(p[2], p[3]);
  }

  lemma SealedSlice(p: seq<Byte>)
    requires |p| >= 2 && Checked(p)
    ensures Sealed(p[..|p| - 2]) == p
  {
    CrcBytesWord(p[|p| - 2], p[|p| - 1]);
    assert p == p[..|p| - 2] + [p[|p| - 2], p[|p| - 1]];
  }

  lemma BodyOfSlice(p: seq<Byte>)
    requires |p| >= 8
    ensures Body(Unpack(p)) == p[4..|p| - 2]
  {
  }

  lemma LengthOfSlice(p: seq<Byte>)
    requires Complete(p)
    ensures |p| >= 8 && 2 + |Unpack(p).payload| == Announced(p) && |Unpack(p).payload| <= MAX_PAYLOAD
  {
  }

  lemma Rejoined<T>(p: seq<T>)
    requires |p| >= 8
    ensures p[..4] + p[4..|p| - 2] == p[..|p| - 2]
  {
  }

  lemma EncodeOfParts(f: Frame, head: seq<Byte>, body: seq<Byte>)
    requires Header(2 + |f.payload|) == head && Body(f) == body
    ensures Encode(f) == Sealed(head + body)
  {
  }

  lemma CompleteIsEncode(p: seq<Byte>)
    requires Complete(p) && Checked(p)
    ensures |Unpack(p).payload| <= MAX_PAYLOAD && Encode(Unpack(p)) == p
  {
    LengthOfSlice(p);
    HeaderAnnounces(p);
    BodyOfSlice(p);
    SealedSlice(p);
    Rejoined(p);
    EncodeOfParts(Unpack(p), p[..4], p[4..|p| - 2]);
  }

  // ---- one frame ----

  lemma PartialPrefix(p: seq<Byte>, i: nat)
    requires Partial(p) || Complete(p)
    requires i <= |p| && (Complete(p) ==> i < |p|)
    ensures Partial(p[..i])
  {
  }

  /** While a frame is under way the scanner only collects. */
  lemma {:induction false} Collect(p: seq<Byte>, frames: seq<Frame>, d: seq<Byte>)
    requires Partial(p + d)
    ensures ScanAll(Scan(p, frames), d) == Scan(p + d, frames)
  {
    if d == [] {
      assert p + d == p;
    } else {
      var k := |d| - 1;
      assert (p + d)[..|p| + k] == p + d[..k];
      PartialPrefix(p + d, |p| + k);
      Collect(p, frames, d[..k]);
      assert p + d[..k] + [d[k]] == p + d;
    }
  }

  /** The last byte of a frame decides: delivered if the checksum agrees, dropped if not. */
  lemma Finish(p: seq<Byte>, frames: seq<Frame>, d: seq<Byte>)
    requires d != [] && Complete(p + d)
    ensures ScanAll(Scan(p, frames), d)
         == Scan([], if Checked(p + d) then frames + [Unpack(p + d)] else frames)
  {
    var k := |d| - 1;
    assert (p + d)[..|p| + k] == p + d[..k];
    PartialPrefix(p + d, |p| + k);
    Collect(p, frames, d[..k]);
    assert p + d[..k] + [d[k]] == p + d;
  }

  /** Between frames, an encoded frame is recovered and leaves the scanner between frames. */
  lemma RoundTrip(f: Frame, frames: seq<Frame>)
    requires |f.payload| <= MAX_PAYLOAD
    ensures ScanAll(Scan([], frames), Encode(f)) == Scan([], frames + [f])
  {
    EncodeIsComplete(f);
    assert [] + Encode(f) == Encode(f);
    Finish([], frames, Encode(f));
  }

  function EncodeAll(fs: seq<Frame>): seq<Byte> { FlatMap(Encode, fs) }

  predicate FramesFit(fs: seq<Frame>) {
    forall i :: 0 <= i < |fs| ==> |fs[i].payload| <= MAX_PAYLOAD
  }

  lemma ScanOn(start: Scan, before: seq<Byte>, midway: Scan, more: seq<Byte>, end: Scan, all: seq<Byte>)
    requires ScanAll(start, before) == midway && ScanAll(midway, more) == end && all == before + more
    ensures ScanAll(start, all) == end
  {
    ScanAppend(start, before, more);
  }

  lemma EncodeAllNext(fs: seq<Frame>)
    requires fs != []
    ensures EncodeAll(fs) == EncodeAll(fs[..|fs| - 1]) + Encode(fs[|fs| - 1])
  {
    FlatMapSnoc(Encode, fs[..|fs| - 1], fs[|fs| - 1]);
    assert fs[..|fs| - 1] + [fs[|fs| - 1]] == fs;
  }

  lemma RoundTripNext(fs: seq<Frame>, frames: seq<Frame>)
    requires fs != [] && FramesFit(fs)
    requires ScanAll(Scan([], frames), EncodeAll(fs[..|fs| - 1])) == Scan([], frames + fs[..|fs| - 1])
    ensures ScanAll(Scan([], frames), EncodeAll(fs)) == Scan([], frames + fs)
  {
    var front, f := fs[..|fs| - 1], fs[|fs| - 1];
    RoundTrip(f, frames + front);
    EncodeAllNext(fs);
    assert frames + front + [f] == frames + fs;
    ScanOn(Scan([], frames), EncodeAll(front), Scan([], frames + front), Encode(f), Scan([], frames + fs),
           EncodeAll(fs));
  }

  lemma {:induction false} RoundTripAll(fs: seq<Frame>, frames: seq<Frame>)
    requires FramesFit(fs)
    ensures ScanAll(Scan([], frames), EncodeAll(fs)) == Scan([], frames + fs)
  {
    if fs == [] {
      assert frames + fs == frames;
    } else {
      RoundTripAll(fs[..|fs| - 1], frames);
      RoundTripNext(fs, frames);
    }
  }

  // ---- every frame delivered is a slice of the stream ----

  /** `stream` contains the encodings of `frames`, disjoint and in this order. */
  ghost predicate Embeds(stream: seq<Byte>, frames: seq<Frame>)
    decreases |frames|
  {
    frames == [] ||
    exists i, j :: 0 <= i <= j <= |stream| && EndsWith(stream, frames, i, j)
  }

  ghost predicate EndsWith(stream: seq<Byte>, frames: seq<Frame>, i: nat, j: nat)
    requires frames != [] && i <= j <= |stream|
    decreases |frames|, 0
  {
    stream[i..j] == Encode(frames[|frames| - 1]) && Embeds(stream[..i], frames[..|frames| - 1])
  }

  lemma EmbedsLonger(stream: seq<Byte>, rest: seq<Byte>, frames: seq<Frame>)
    requires Embeds(stream, frames)
    ensures Embeds(stream + rest, frames)
  {
    if frames != [] {
      var i, j :| 0 <= i <= j <= |stream| && EndsWith(stream, frames, i, j);
      assert (stream + rest)[i..j] == stream[i..j] && (stream + rest)[..i] == stream[..i];
      assert EndsWith(stream + rest, frames, i, j);
    }
  }

  lemma EmbedsOneMore(stream: seq<Byte>, frames: seq<Frame>, f: Frame)
    requires Embeds(stream, frames)
    ensures Embeds(stream + Encode(f), frames + [f])
  {
    var s, fs := stream + Encode(f), frames + [f];
    assert s[|stream|..|s|] == Encode(f) && s[..|stream|] == stream && fs[..|fs| - 1] == frames;
    assert EndsWith(s, fs, |stream|, |s|);
  }

  lemma AbsorbIsPartial(s: Scan, b: Byte)
    ensures Partial(Absorb(s, b).pending)
  {
  }

  /** What has been scanned is some gaps and the delivered frames, then the bytes kept. */
  ghost predicate Accounts(data: seq<Byte>, s: Scan) {
    && Partial(s.pending)
    && (forall f :: f in s.frames ==> |f.payload| <= MAX_PAYLOAD)
    && |s.pending| <= |data|
    && data[|data| - |s.pending|..] == s.pending
    && Embeds(data[..|data| - |s.pending|], s.frames)
  }

  lemma AbsorbKeepsFrames(data: seq<Byte>, s: Scan, b: Byte, p: seq<Byte>)
    requires Accounts(data, s)
    requires p == s.pending + [b] || p == [b] || p == []
    requires Partial(p)
    ensures Accounts(data + [b], Scan(p, s.frames))
  {
    var cut := data[..|data| - |s.pending|];
    var all := data + [b];
    assert all == cut + (s.pending + [b]);
    if p == s.pending + [b] {
      assert all[..|all| - |p|] == cut;
    } else if p == [b] {
      EmbedsLonger(cut, s.pending, s.frames);
      assert all[..|all| - 1] == cut + s.pending;
    } else {
      EmbedsLonger(cut, s.pending + [b], s.frames);
      assert all[..|all|] == all;
    }
  }

  lemma DeliveredAccounts(cut: seq<Byte>, frames: seq<Frame>, f: Frame)
    requires Embeds(cut, frames)
    requires forall g :: g in frames + [f] ==> |g.payload| <= MAX_PAYLOAD
    ensures Accounts(cut + Encode(f), Scan([], frames + [f]))
  {
    var all := cut + Encode(f);
    EmbedsOneMore(cut, frames, f);
    assert all[..|all|] == all;
  }

  lemma AbsorbDelivers(data: seq<Byte>, s: Scan, b: Byte)
    requires Accounts(data, s)
    requires Complete(s.pending + [b]) && Checked(s.pending + [b])
    ensures Accounts(data + [b], Scan([], s.frames + [Unpack(s.pending + [b])]))
  {
    var cut := data[..|data| - |s.pending|];
    var next := s.pending + [b];
    CompleteIsEncode(next);
    DeliveredAccounts(cut, s.frames, Unpack(next));
    assert data + [b] == cut + next;
  }

  lemma AbsorbAccounts(data: seq<Byte>, s: Scan, b: Byte)
    requires Accounts(data, s)
    ensures Accounts(data + [b], Absorb(s, b))
  {
    var next := s.pending + [b];
    if Complete(next) && Checked(next) {
      AbsorbDelivers(data, s, b);
    } else {
      AbsorbIsPartial(s, b);
      AbsorbKeepsFrames(data, s, b, Absorb(s, b).pending);
    }
  }

  lemma {:induction false} ScanAccounts(data: seq<Byte>)
    ensures Accounts(data, ScanAll(RESET, data))
  {
    if data != [] {
      var k := |data| - 1;
      ScanAccounts(data[..k]);
      AbsorbAccounts(data[..k], ScanAll(RESET, data[..k]), data[k]);
      assert data[..k] + [data[k]] == data;
    }
  }

  /** A frame is recovered exactly when its payload is within the limit. */
  lemma DeliveredIff(f: Frame)
    ensures f in ScanAll(RESET, Encode(f)).frames <==> |f.payload| <= 1024
  {
    ScanAccounts(Encode(f));
    if |f.payload| <= MAX_PAYLOAD {
      RoundTrip(f, []);
    }
  }

  // ---- resynchronisation ----

  predicate NoMagicPair(junk: seq<Byte>) {
    forall i :: 0 < i < |junk| ==> junk[i - 1] != MAGIC0 || junk[i] != MAGIC1
  }

  lemma {:induction false} JunkLeavesAtMostMagic0(junk: seq<Byte>, frames: seq<Frame>)
    requires NoMagicPair(junk)
    ensures ScanAll(Scan([], frames), junk)
         == Scan(if junk != [] && junk[|junk| - 1] == MAGIC0 then [MAGIC0] else [], frames)
  {
    if junk != [] {
      var k := |junk| - 1;
      JunkLeavesAtMostMagic0(junk[..k], frames);
      JunkByte(if k > 0 && junk[k - 1] == MAGIC0 then [MAGIC0] else [], junk[k], frames);
    }
  }

  lemma JunkByte(p: seq<Byte>, b: Byte, frames: seq<Frame>)
    requires p == [] || (p == [MAGIC0] && b != MAGIC1)
    ensures Absorb(Scan(p, frames), b) == Scan(if b == MAGIC0 then [MAGIC0] else [], frames)
  {
    assert p == [] ==> p + [b] == [b];
  }

  lemma SameAfterMagic0(frames: seq<Frame>, rest: seq<Byte>)
    ensures ScanAll(Scan([MAGIC0], frames), [MAGIC0] + rest) == ScanAll(Scan([], frames), [MAGIC0] + rest)
  {
    ScanAppend(Scan([MAGIC0], frames), [MAGIC0], rest);
    ScanAppend(Scan([], frames), [MAGIC0], rest);
    AbsorbMagic0([], frames);
    AbsorbMagic0([MAGIC0], frames);
  }

  lemma AbsorbMagic0(p: seq<Byte>, frames: seq<Frame>)
    requires p == [] || p == [MAGIC0]
    ensures ScanAll(Scan(p, frames), [MAGIC0]) == Scan([MAGIC0], frames)
  {
    assert [MAGIC0][..0] == [];
    assert ScanAll(Scan(p, frames), [MAGIC0]) == Absorb(Scan(p, frames), MAGIC0);
    if p == [] { assert p + [MAGIC0] == [MAGIC0]; }
  }

  lemma RoundTripAfterMagic0(f: Frame, frames: seq<Frame>)
    requires |f.payload| <= MAX_PAYLOAD
    ensures ScanAll(Scan([MAGIC0], frames), Encode(f)) == Scan([], frames + [f])
  {
    var rest := Encode(f)[1..];
    assert Encode(f) == [MAGIC0] + rest;
    SameAfterMagic0(frames, rest);
    RoundTrip(f, frames);
  }

  /** Junk between frames never costs the frame that follows, not even when it ends in 0xAA. */
  lemma JunkIsSkipped(junk: seq<Byte>, f: Frame, frames: seq<Frame>)
    requires NoMagicPair(junk) && |f.payload| <= MAX_PAYLOAD
    ensures ScanAll(Scan([], frames), junk + Encode(f)) == Scan([], frames + [f])
  {
    ScanAppend(Scan([], frames), junk, Encode(f));
    JunkLeavesAtMostMagic0(junk, frames);
    RoundTrip(f, frames);
    RoundTripAfterMagic0(f, frames);
  }

  /** Frames with junk before each. */
  function Noisy(junk: seq<seq<Byte>>, fs: seq<Frame>): seq<Byte>
    requires |junk| == |fs|
  {
    if fs == [] then [] else
      var k := |fs| - 1;
      Noisy(junk[..k], fs[..k]) + (junk[k] + Encode(fs[k]))
  }

  lemma {:induction false} NoisyRecovered(junk: seq<seq<Byte>>, fs: seq<Frame>)
    requires |junk| == |fs| && FramesFit(fs)
    requires forall i :: 0 <= i < |junk| ==> NoMagicPair(junk[i])
    ensures ScanAll(RESET, Noisy(junk, fs)) == Scan([], fs)
  {
    if fs != [] {
      var k := |fs| - 1;
      NoisyRecovered(junk[..k], fs[..k]);
      NoisyNext(junk, fs, k);
    }
  }

  lemma NoisyIs(junk: seq<seq<Byte>>, fs: seq<Frame>, k: nat)
    requires |junk| == |fs| == k + 1
    ensures Noisy(junk, fs) == Noisy(junk[..k], fs[..k]) + (junk[k] + Encode(fs[k]))
  {
  }

  lemma NoisyNext(junk: seq<seq<Byte>>, fs: seq<Frame>, k: nat)
    requires |junk| == |fs| == k + 1 && NoMagicPair(junk[k]) && |fs[k].payload| <= MAX_PAYLOAD
    requires ScanAll(RESET, Noisy(junk[..k], fs[..k])) == Scan([], fs[..k])
    ensures ScanAll(RESET, Noisy(junk, fs)) == Scan([], fs)
  {
    JunkIsSkipped(junk[k], fs[k], fs[..k]);
    assert fs[..k] + [fs[k]] == fs;
    NoisyIs(junk, fs, k);
    ScanOn(RESET, Noisy(junk[..k], fs[..k]), Scan([], fs[..k]), junk[k] + Encode(fs[k]), Scan([], fs), Noisy(junk, fs));
  }

  lemma {:induction false} QuietBytes(s: Scan, quiet: seq<Byte>)
    requires MAGIC0 !in quiet
    ensures var p := ScanAll(s, quiet).pending; p == [] || p == s.pending + quiet
  {
    if quiet == [] {
      assert s.pending + quiet == s.pending;
    } else {
      var k := |quiet| - 1;
      QuietBytes(s, quiet[..k]);
      assert quiet[k] in quiet;
      assert s.pending + quiet[..k] + [quiet[k]] == s.pending + quiet;
    }
  }

  lemma PartialIsShort(p: seq<Byte>)
    requires Partial(p)
    ensures |p| < MAX_FRAME
  {
  }

  /** From any point in a stream, 1031 bytes free of 0xAA bring the scanner back between frames. */
  lemma QuietResets(s: Scan, quiet: seq<Byte>)
    requires 0xAA !in quiet && |quiet| >= 1031
    requires Partial(s.pending)
    ensures ScanAll(s, quiet).pending == []
  {
    QuietBytes(s, quiet);
    var k := |quiet| - 1;
    AbsorbIsPartial(ScanAll(s, quiet[..k]), quiet[k]);
    PartialIsShort(ScanAll(s, quiet).pending);
    assert quiet[0] in quiet;
  }

  /** One byte less is not enough: a frame of the largest size may still be waiting for its last byte. */
  lemma QuietBoundIsTight() returns (s: Scan, quiet: seq<Byte>)
    ensures Partial(s.pending) && 0xAA !in quiet && |quiet| == 1030
    ensures ScanAll(s, quiet).pending != []
  {
    s := Scan([MAGIC0], []);
    quiet := [MAGIC1, 4, 2] + seq(1027, i => 0);
    Collect(s.pending, [], quiet);
  }

  /** ... so the frame that follows is delivered. */
  lemma QuietThenFrame(s: Scan, quiet: seq<Byte>, f: Frame)
    requires 0xAA !in quiet && |quiet| >= 1031
    requires Partial(s.pending) && |f.payload| <= MAX_PAYLOAD
    ensures ScanAll(s, quiet + Encode(f)) == Scan([], ScanAll(s, quiet).frames + [f])
  {
    QuietResets(s, quiet);
    ScanAppend(s, quiet, Encode(f));
    RoundTrip(f, ScanAll(s, quiet).frames);
  }

  // ---- damaged frames ----

  lemma CheckedIsZero(p: seq<Byte>)
    requires |p| >= 2
    ensures Checked(p) <==> Crc(CRC_INIT, p) == 0
  {
    var k := |p| - 2;
    var c := Crc(CRC_INIT, p[..k]);
    assert p[..k + 1][..k] == p[..k];
    assert Crc(CRC_INIT, p[..k + 1]) == Update(c, Bits(p[k]));
    assert Crc(CRC_INIT, p) == Update(Update(c, Bits(p[k])), Bits(p[k + 1]));
    CheckedByZero(c, Bits(p[k]), Bits(p[k + 1]));
  }

  /** What follows the header of a frame: its body and its checksum. */
  function Tail(f: Frame): seq<Byte> {
    Body(f) + CrcBytes(Crc(CRC_INIT, Header(2 + |f.payload|) + Body(f)))
  }

  lemma EncodeIsHeaderTail(f: Frame)
    ensures Encode(f) == Header(2 + |f.payload|) + Tail(f)
  {
  }

  lemma BurstNotChecked(f: Frame, damaged: seq<Byte>, p: nat)
    requires |f.payload| <= MAX_PAYLOAD
    requires IsBurst(Tail(f), damaged, p)
    ensures !Checked(Header(2 + |f.payload|) + damaged)
  {
    var h := Header(2 + |f.payload|);
    assert Crc(CRC_INIT, Encode(f)) == 0 by {
      EncodeIsComplete(f);
      CheckedIsZero(Encode(f));
    }
    EncodeIsHeaderTail(f);
    CheckedIsZero(h + damaged);
    CrcAppend(CRC_INIT, h, Tail(f));
    CrcAppend(CRC_INIT, h, damaged);
    BurstDetected(Crc(CRC_INIT, h), Tail(f), damaged, p);
  }

  /** A frame whose body or checksum suffered a burst of at most 16 bits is dropped, whole. */
  lemma BurstRejected(f: Frame, damaged: seq<Byte>, p: nat, frames: seq<Frame>)
    requires |f.payload| <= MAX_PAYLOAD
    requires IsBurst(Tail(f), damaged, p)
    ensures ScanAll(Scan([], frames), Header(2 + |f.payload|) + damaged) == Scan([], frames)
  {
    var d := Header(2 + |f.payload|) + damaged;
    BurstNotChecked(f, damaged, p);
    SameHeader(f, damaged);
    assert [] + d == d;
    Finish([], frames, d);
  }

  lemma SameHeader(f: Frame, damaged: seq<Byte>)
    requires |f.payload| <= MAX_PAYLOAD && |damaged| == |Tail(f)|
    ensures Complete(Header(2 + |f.payload|) + damaged)
  {
    WordHiLo(2 + |f.payload|);
  }
}
