/**
 The wire format between kernel and server: a fixed header (`struct mapping_info`, the same
 layout on both sides) followed by as many payload bytes as the header's `len` says.
 */
module Framing {
  import opened Basics
  import opened Bytes

  const MAX_ARG_LEN := 128
  /** sizeof(struct mapping_info): three character arrays and six `unsigned long`s, without padding. */
  const HEADER_SIZE := 272

  type CommField = s: seq<byte> | |s| == 16 witness Zeros(16)
  type ArgsField = s: seq<byte> | |s| == 128 witness Zeros(128)
  type AnonField = s: seq<byte> | |s| == 80 witness Zeros(80)

  datatype Info = Info(
    name: CommField,
    args: ArgsField,
    anonName: AnonField,
    initAddr: u64,
    mappedAddr: u64,
    mappingLen: u64,
    len: u64,
    prot: u64,
    isEnd: u64)

  datatype Frame = Frame(info: Info, payload: seq<byte>)

  /** What the sender promises about every frame: the payload is as long as the header says. */
  predicate WellFormed(f: Frame) { |f.payload| == f.info.len }

  predicate AllWellFormed(fs: seq<Frame>) { forall i :: 0 <= i < |fs| ==> WellFormed(fs[i]) }

  function EncodeInfo(i: Info): (s: seq<byte>)
    ensures |s| == HEADER_SIZE
  {
    i.name + i.args + i.anonName + Encode64(i.initAddr) + Encode64(i.mappedAddr) + Encode64(i.mappingLen)
    + Encode64(i.len) + Encode64(i.prot) + Encode64(i.isEnd)
  }

  function DecodeInfo(s: seq<byte>): Info
    requires |s| == HEADER_SIZE
  {
    Info(s[..16], s[16..144], s[144..224], Decode64(s[224..232]), Decode64(s[232..240]), Decode64(s[240..248]),
         Decode64(s[248..256]), Decode64(s[256..264]), Decode64(s[264..272]))
  }

  lemma DecodeEncodeInfo(i: Info)
    ensures DecodeInfo(EncodeInfo(i)) == i
  {
    var s := EncodeInfo(i);
    hide Encode64;
    assert s[..16] == i.name && s[16..144] == i.args && s[144..224] == i.anonName;
    assert s[224..232] == Encode64(i.initAddr) && s[232..240] == Encode64(i.mappedAddr);
    assert s[240..248] == Encode64(i.mappingLen) && s[248..256] == Encode64(i.len);
    assert s[256..264] == Encode64(i.prot) && s[264..272] == Encode64(i.isEnd);
    RoundTrip64(i.initAddr);
    RoundTrip64(i.mappedAddr);
    RoundTrip64(i.mappingLen);
    RoundTrip64(i.len);
    RoundTrip64(i.prot);
    RoundTrip64(i.isEnd);
  }

  /** Where each field of the header lies, and that numbers are sent least significant byte first. */
  lemma HeaderLayout(i: Info, j: nat)
    requires j < 8
    ensures var s := EncodeInfo(i);
            && s[..16] == i.name && s[16..144] == i.args && s[144..224] == i.anonName
            && s[224 + j] == Shifted(i.initAddr, j) % 256
            && s[232 + j] == Shifted(i.mappedAddr, j) % 256
            && s[240 + j] == Shifted(i.mappingLen, j) % 256
            && s[248 + j] == Shifted(i.len, j) % 256
            && s[256 + j] == Shifted(i.prot, j) % 256
            && s[264 + j] == Shifted(i.isEnd, j) % 256
  {
    FieldAt(i, 224, i.initAddr, j);
    FieldAt(i, 232, i.mappedAddr, j);
    FieldAt(i, 240, i.mappingLen, j);
    FieldAt(i, 248, i.len, j);
    FieldAt(i, 256, i.prot, j);
    FieldAt(i, 264, i.isEnd, j);
    var s := EncodeInfo(i);
    assert s[..16] == i.name && s[16..144] == i.args && s[144..224] == i.anonName;
  }

  lemma FieldAt(i: Info, at: nat, v: u64, j: nat)
    requires j < 8 && at + 8 <= HEADER_SIZE && EncodeInfo(i)[at..at + 8] == Encode64(v)
    ensures EncodeInfo(i)[at + j] == Shifted(v, j) % 256
  {
    hide EncodeInfo;
    LittleEndianAt(v, 8, j);
    assert EncodeInfo(i)[at..at + 8][j] == EncodeInfo(i)[at + j];
  }

  /** A reply is four bytes, least significant first. */
  lemma ReplyLayout(v: u32, j: nat)
    requires j < 4
    ensures Encode32(v)[j] == Shifted(v, j) % 256
  {
    LittleEndianAt(v, 4, j);
  }

  lemma EncodeDecodeInfo(s: seq<byte>)
    requires |s| == HEADER_SIZE
    ensures EncodeInfo(DecodeInfo(s)) == s
  {
    RoundTripBytes64(s[224..232]);
    RoundTripBytes64(s[232..240]);
    RoundTripBytes64(s[240..248]);
    RoundTripBytes64(s[248..256]);
    RoundTripBytes64(s[256..264]);
    RoundTripBytes64(s[264..272]);
    assert s == s[..16] + s[16..144] + s[144..224] + s[224..232] + s[232..240] + s[240..248] + s[248..256]
                + s[256..264] + s[264..272];
  }

  function EncodeFrame(f: Frame): seq<byte> { EncodeInfo(f.info) + f.payload }

  /** The bytes of a whole list of frames, in order. */
  function EncodeFrames(fs: seq<Frame>): seq<byte>
  {
    if fs == [] then [] else EncodeFrames(fs[..|fs| - 1]) + EncodeFrame(fs[|fs| - 1])
  }

  lemma EncodeFramesSnoc(fs: seq<Frame>, f: Frame)
    ensures EncodeFrames(fs + [f]) == EncodeFrames(fs) + EncodeFrame(f)
  {
    assert (fs + [f])[..|fs|] == fs;
  }

  lemma {:induction false} EncodeFramesAppend(a: seq<Frame>, b: seq<Frame>)
    ensures EncodeFrames(a + b) == EncodeFrames(a) + EncodeFrames(b)
  {
    if b == [] {
      assert a + b == a;
    } else {
      var b' := b[..|b| - 1];
      EncodeFramesAppend(a, b');
      assert (a + b)[..|a + b| - 1] == a + b';
      Reassociate(EncodeFrames(a), EncodeFrames(b'), EncodeFrame(b[|b| - 1]));
    }
  }

  lemma EncodeFramesHead(f: Frame, fs: seq<Frame>)
    ensures EncodeFrames([f] + fs) == EncodeInfo(f.info) + f.payload + EncodeFrames(fs)
  {
    EncodeFramesAppend([f], fs);
    EncodeFramesSnoc([], f);
    assert [] + [f] == [f];
  }

  datatype Parsed = Parsed(frames: seq<Frame>, rest: seq<byte>)

  /** Splits a byte stream into its complete frames and the incomplete tail. */
  function ParseFrames(s: seq<byte>): (p: Parsed)
    ensures |p.rest| <= |s|
    decreases |s|
  {
    if |s| < HEADER_SIZE then Parsed([], s)
    else
      var info := DecodeInfo(s[..HEADER_SIZE]);
      if |s| < HEADER_SIZE + info.len then Parsed([], s)
      else
        var p := ParseFrames(s[HEADER_SIZE + info.len..]);
        Parsed([Frame(info, s[HEADER_SIZE..HEADER_SIZE + info.len])] + p.frames, p.rest)
  }

  /** Parsing a stream that starts with a complete frame takes exactly that frame off. */
  lemma ParseHead(f: Frame, t: seq<byte>)
    requires WellFormed(f)
    ensures ParseFrames(EncodeInfo(f.info) + f.payload + t)
         == Parsed([f] + ParseFrames(t).frames, ParseFrames(t).rest)
  {
    var h := EncodeInfo(f.info);
    DecodeEncodeInfo(f.info);
    SplitThree(h, f.payload, t);
  }

  lemma ParseStep(fs: seq<Frame>, tail: seq<byte>)
    requires fs != [] && WellFormed(fs[0])
    ensures var p := ParseFrames(EncodeFrames(fs[1..]) + tail);
            ParseFrames(EncodeFrames(fs) + tail) == Parsed([fs[0]] + p.frames, p.rest)
  {
    assert fs == [fs[0]] + fs[1..];
    EncodeFramesHead(fs[0], fs[1..]);
    Reassociate(EncodeInfo(fs[0].info) + fs[0].payload, EncodeFrames(fs[1..]), tail);
    ParseHead(fs[0], EncodeFrames(fs[1..]) + tail);
  }

  lemma SplitThree(h: seq<byte>, p: seq<byte>, t: seq<byte>)
    ensures (h + p + t)[..|h|] == h
    ensures (h + p + t)[|h|..|h| + |p|] == p
    ensures (h + p + t)[|h| + |p|..] == t
  {
  }

  lemma PrependFrame(fs: seq<Frame>, more: seq<Frame>)
    requires fs != []
    ensures [fs[0]] + (fs[1..] + more) == fs + more
  {
  }

  /** Decoding the concatenated frames yields the frame list, and then goes on with whatever follows it. */
  lemma {:induction false} FramingRoundTrip(fs: seq<Frame>, tail: seq<byte>)
    requires AllWellFormed(fs)
    ensures var p := ParseFrames(tail); ParseFrames(EncodeFrames(fs) + tail) == Parsed(fs + p.frames, p.rest)
  {
    var p := ParseFrames(tail);
    if fs == [] {
      assert EncodeFrames(fs) + tail == tail;
      assert fs + p.frames == p.frames;
    } else {
      var fs' := fs[1..];
      assert WellFormed(fs[0]) && AllWellFormed(fs');
      FramingRoundTrip(fs', tail);
      ParseStep(fs, tail);
      PrependFrame(fs, p.frames);
    }
  }

  /** Conversely, the frames parsed from any stream spell out exactly the bytes before the incomplete tail. */
  lemma {:induction false} ParseIsFaithful(s: seq<byte>)
    ensures AllWellFormed(ParseFrames(s).frames)
    ensures EncodeFrames(ParseFrames(s).frames) + ParseFrames(s).rest == s
    decreases |s|
  {
    hide EncodeInfo, DecodeInfo;
    if |s| < HEADER_SIZE {
      assert EncodeFrames([]) + s == s;
    } else {
      var info := DecodeInfo(s[..HEADER_SIZE]);
      if |s| < HEADER_SIZE + info.len {
        assert EncodeFrames([]) + s == s;
      } else {
        var t := s[HEADER_SIZE + info.len..];
        var f := Frame(info, s[HEADER_SIZE..HEADER_SIZE + info.len]);
        ParseIsFaithful(t);
        EncodeFramesHead(f, ParseFrames(t).frames);
        EncodeDecodeInfo(s[..HEADER_SIZE]);
        assert s == s[..HEADER_SIZE] + f.payload + t;
        Reassociate(s[..HEADER_SIZE] + f.payload, EncodeFrames(ParseFrames(t).frames), ParseFrames(t).rest);
      }
    }
  }
}
