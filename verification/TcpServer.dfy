/**
 The user-space server: it parses frames from a byte stream, places payloads in a zero-filled buffer, dumps
 the buffer on an end frame and answers with four bytes.

 `keepUntilEnd` tells the server the patches describe - the buffer of a mapping lives until its end frame -
 from the server as written, which releases the buffer after every frame.
 */
module TcpServer {
  import opened Basics
  import opened Bytes
  import opened Framing
  import opened Images

  datatype Dump = Dump(info: Info, bytes: seq<byte>)

  /** The buffer policy, the largest mapping `mmap` grants, and the analyzer's verdict on a dump. */
  datatype Config = Config(keepUntilEnd: bool, limit: nat, verdict: Dump -> u32)

  /** `Undefined`: the C++ code would touch memory outside its buffer. */
  datatype Status = Running | Disconnected | Undefined

  datatype Server = Server(root: Option<seq<byte>>, dumps: seq<Dump>, replies: seq<u32>, status: Status)

  /** From the header up to the point where the payload is about to be read. */
  function OnHeader(cfg: Config, s: Server, info: Info): (r: Server)
    ensures r.status == Running ==> r.root.Some? && (info.len > 0 ==> info.mappedAddr + info.len <= |r.root.value|)
    ensures r.dumps == s.dumps && r.replies == s.replies
    ensures s.root.None? && r.status == Running ==> |r.root.value| == info.mappingLen
  {
    if s.root.None? && (info.mappingLen == 0 || info.mappingLen > cfg.limit) then s.(status := Disconnected)
    else
      var root := if s.root.None? then Zeros(info.mappingLen) else s.root.value;
      if info.len > 0 && Add64(info.mappedAddr, info.len) > |root| then s.(root := None, status := Disconnected)
      else if info.len > 0 && info.mappedAddr + info.len > |root| then s.(root := Some(root), status := Undefined)
      else s.(root := Some(root), status := Running)
  }

  /** The payload in its place. */
  function Fill(s: Server, info: Info, payload: seq<byte>): Server
    requires s.root.Some?
  {
    if info.len > 0 then s.(root := Some(Place(s.root.value, info.mappedAddr, payload))) else s
  }

  /** The dump and the reply if the frame ends the mapping, then the release. */
  function Finish(cfg: Config, s: Server, info: Info): Server
    requires s.root.Some?
  {
    if info.isEnd == 1 then
      if info.mappingLen > |s.root.value| then s.(status := Undefined)
      else
        var d := Dump(info, s.root.value[..info.mappingLen]);
        s.(root := None, dumps := s.dumps + [d], replies := s.replies + [cfg.verdict(d)])
    else if cfg.keepUntilEnd then s
    else s.(root := None)
  }

  function OnPayload(cfg: Config, s: Server, info: Info, payload: seq<byte>): Server
    requires s.root.Some?
  {
    Finish(cfg, Fill(s, info, payload), info)
  }

  function OnFrame(cfg: Config, s: Server, f: Frame): Server
  {
    if s.status != Running then s
    else
      var h := OnHeader(cfg, s, f.info);
      if h.status != Running then h else OnPayload(cfg, h, f.info, f.payload)
  }

  function Serve(cfg: Config, s: Server, fs: seq<Frame>): Server
    decreases |fs|
  {
    if fs == [] then s else Serve(cfg, OnFrame(cfg, s, fs[0]), fs[1..])
  }

  lemma {:induction false} ServeAppend(cfg: Config, s: Server, a: seq<Frame>, b: seq<Frame>)
    ensures Serve(cfg, s, a + b) == Serve(cfg, Serve(cfg, s, a), b)
    decreases |a|
  {
    hide OnFrame;
    if a == [] {
      assert a + b == b;
    } else {
      assert (a + b)[1..] == a[1..] + b;
      ServeAppend(cfg, OnFrame(cfg, s, a[0]), a[1..], b);
    }
  }

  lemma ServeSnoc(cfg: Config, s: Server, fs: seq<Frame>, f: Frame)
    ensures Serve(cfg, s, fs + [f]) == OnFrame(cfg, Serve(cfg, s, fs), f)
  {
    hide OnFrame;
    ServeAppend(cfg, s, fs, [f]);
    assert [f][1..] == [];
  }

  lemma {:induction false} StoppedStays(cfg: Config, s: Server, fs: seq<Frame>)
    requires s.status != Running
    ensures Serve(cfg, s, fs) == s
    decreases |fs|
  {
    if fs != [] {
      StoppedStays(cfg, s, fs[1..]);
    }
  }

  // ------------------------------------------------------------------------------------------
  // The server as written, on any frames
  // ------------------------------------------------------------------------------------------

  /** A frame the server as written takes: a mapping it can allocate, and a payload inside it. */
  predicate Fits(cfg: Config, f: Frame)
  {
    && 0 < f.info.mappingLen <= cfg.limit
    && (f.info.len > 0 ==> f.info.mappedAddr + f.info.len <= f.info.mappingLen)
  }

  /** The payload of a frame alone, at its offset among zeros. */
  function OwnDump(f: Frame): Dump
  {
    Dump(f.info, if f.info.len > 0 then Place(Zeros(f.info.mappingLen), f.info.mappedAddr, f.payload)
                 else Zeros(f.info.mappingLen))
  }

  /** One dump for each end frame. */
  function OwnDumps(fs: seq<Frame>): seq<Dump>
  {
    if fs == [] then [] else (if fs[0].info.isEnd == 1 then [OwnDump(fs[0])] else []) + OwnDumps(fs[1..])
  }

  function Verdicts(cfg: Config, ds: seq<Dump>): (r: seq<u32>)
    ensures |r| == |ds|
  {
    seq<u32>(|ds|, i requires 0 <= i < |ds| => cfg.verdict(ds[i]))
  }

  /**
   The range check compares the end of the payload modulo 2^64: a frame whose end wraps around can pass it although
   its payload does not lie in the buffer.
   */
  predicate Escapes(cfg: Config, f: Frame)
  {
    && 0 < f.info.mappingLen <= cfg.limit && f.info.len > 0
    && U64_LIMIT <= f.info.mappedAddr + f.info.len <= U64_LIMIT + f.info.mappingLen
  }

  /** How many frames from the first on fit. */
  function Fitting(cfg: Config, fs: seq<Frame>): (n: nat)
    ensures n <= |fs|
    ensures forall i :: 0 <= i < n ==> Fits(cfg, fs[i])
    ensures n < |fs| ==> !Fits(cfg, fs[n])
    decreases |fs|
  {
    if fs == [] || !Fits(cfg, fs[0]) then 0 else 1 + Fitting(cfg, fs[1..])
  }

  lemma OwnFrame(cfg: Config, s: Server, f: Frame)
    requires !cfg.keepUntilEnd && s.root.None? && s.status == Running
    ensures var s' := OnFrame(cfg, s, f);
            var d := OwnDumps([f]);
            if Fits(cfg, f) then s' == s.(dumps := s.dumps + d, replies := s.replies + Verdicts(cfg, d))
            else s'.status == (if Escapes(cfg, f) then Undefined else Disconnected)
                 && s'.dumps == s.dumps && s'.replies == s.replies
  {
    hide Place;
    assert [f][1..] == [];
    var end := f.info.mappedAddr + f.info.len;
    assert Add64(f.info.mappedAddr, f.info.len) == if end < U64_LIMIT then end else end - U64_LIMIT;
    var d := OwnDump(f);
    assert d.bytes[..f.info.mappingLen] == d.bytes;
    assert [d] + [] == [d];
    assert Verdicts(cfg, [d]) == [cfg.verdict(d)];
  }

  /** What a header leads to, whether or not a buffer is held: the buffer's size is what the payload has to fit. */
  lemma HeaderExact(cfg: Config, s: Server, i: Info)
    requires s.root.Some? ==> |s.root.value| < 0x1_0000_0000_0000_0000
    ensures var s' := OnHeader(cfg, s, i);
            var size, end := if s.root.Some? then |s.root.value| else i.mappingLen, i.mappedAddr + i.len;
            && (s'.status == Running
                <==> (s.root.Some? || 0 < i.mappingLen <= cfg.limit) && (i.len == 0 || end <= size))
            && (s'.status == Undefined
                <==> && (s.root.Some? || 0 < i.mappingLen <= cfg.limit) && i.len > 0 && end > size
                     && end >= 0x1_0000_0000_0000_0000 && end - 0x1_0000_0000_0000_0000 <= size)
            && (s'.status == Running ==>
                  s'.root.Some? && |s'.root.value| == size
                  && forall j :: 0 <= j < size ==> s'.root.value[j] == if s.root.Some? then s.root.value[j] else 0)
  {
  }

  /** What follows a payload: an end frame's dump of the first mapping_len bytes, and what is kept. */
  lemma FinishExact(cfg: Config, s: Server, i: Info)
    requires s.root.Some? && i.mappingLen <= |s.root.value|
    ensures var s' := Finish(cfg, s, i);
            if i.isEnd == 1 then
              var d := Dump(i, s.root.value[..i.mappingLen]);
              s' == Server(None, s.dumps + [d], s.replies + [cfg.verdict(d)], s.status)
            else s' == Server(if cfg.keepUntilEnd then s.root else None, s.dumps, s.replies, s.status)
  {
  }

  lemma PlacedByte(size: nat, off: nat, payload: seq<byte>, j: nat)
    requires off + |payload| <= size && j < size
    ensures Place(Zeros(size), off, payload)[j] == if off <= j < off + |payload| then payload[j - off] else 0
  {
  }

  /**
   One frame, byte by byte, with the server as written: it is taken if its mapping is not empty and is granted and its
   payload ends within it; an end frame is dumped, alone among zeros, and answered; nothing is kept.
   */
  lemma OneFrame(cfg: Config, s: Server, f: Frame)
    requires !cfg.keepUntilEnd && s.root.None? && s.status == Running && WellFormed(f)
    ensures var s', i := OnFrame(cfg, s, f), f.info;
            var granted, end := 0 < i.mappingLen <= cfg.limit, i.mappedAddr + i.len;
            if granted && (i.len == 0 || end <= i.mappingLen) then
              && s'.status == Running && s'.root.None?
              && if i.isEnd == 1 then
                   && |s'.dumps| == |s.dumps| + 1 && s'.dumps[..|s.dumps|] == s.dumps
                   && var d := s'.dumps[|s.dumps|];
                      && d.info == i && |d.bytes| == i.mappingLen && s'.replies == s.replies + [cfg.verdict(d)]
                      && forall j :: 0 <= j < i.mappingLen ==>
                           d.bytes[j] == if i.mappedAddr <= j < end then f.payload[j - i.mappedAddr] else 0
                 else s'.dumps == s.dumps && s'.replies == s.replies
            else
              && s'.dumps == s.dumps && s'.replies == s.replies
              && s'.status == if granted && end >= 0x1_0000_0000_0000_0000
                                 && end - 0x1_0000_0000_0000_0000 <= i.mappingLen then Undefined
                              else Disconnected
  {
    OwnFrame(cfg, s, f);
    OneOwnDump(cfg, f);
    hide OnFrame, OwnDumps, OwnDump, Verdicts;
    if Fits(cfg, f) {
      OwnDumpBytes(cfg, f);
    }
  }

  lemma OneOwnDump(cfg: Config, f: Frame)
    ensures OwnDumps([f]) == if f.info.isEnd == 1 then [OwnDump(f)] else []
    ensures Verdicts(cfg, OwnDumps([f])) == if f.info.isEnd == 1 then [cfg.verdict(OwnDump(f))] else []
  {
    hide OwnDump;
    assert [f][1..] == [];
    assert [OwnDump(f)] + [] == [OwnDump(f)];
  }

  lemma OwnDumpBytes(cfg: Config, f: Frame)
    requires Fits(cfg, f) && WellFormed(f)
    ensures var d, i := OwnDump(f), f.info;
            && d.info == i && |d.bytes| == i.mappingLen
            && forall j :: 0 <= j < i.mappingLen ==>
                 d.bytes[j] == if i.mappedAddr <= j < i.mappedAddr + i.len then f.payload[j - i.mappedAddr] else 0
  {
    hide Place;
    var d, i := OwnDump(f), f.info;
    forall j | 0 <= j < i.mappingLen
      ensures d.bytes[j] == if i.mappedAddr <= j < i.mappedAddr + i.len then f.payload[j - i.mappedAddr] else 0
    {
      if i.len > 0 {
        PlacedByte(i.mappingLen, i.mappedAddr, f.payload, j);
      }
    }
  }

  /**
   The server as written treats every frame on its own, and stops at the first one that does not fit its own mapping:
   it has then dumped the payload of each end frame before it alone among zeros, and answered each dump with the verdict
   on it. It leaves its buffer exactly when that first frame is one whose end wraps around into the mapping.
   */
  lemma {:induction false} EachFrameOnItsOwn(cfg: Config, s: Server, fs: seq<Frame>)
    requires !cfg.keepUntilEnd && s.root.None? && s.status == Running
    ensures var s', n := Serve(cfg, s, fs), Fitting(cfg, fs);
            && s'.dumps == s.dumps + OwnDumps(fs[..n])
            && s'.replies == s.replies + Verdicts(cfg, OwnDumps(fs[..n]))
            && s'.status == (if n == |fs| then Running else if Escapes(cfg, fs[n]) then Undefined else Disconnected)
            && (n == |fs| ==> s'.root.None?)
    decreases |fs|
  {
    hide OnFrame, Fits, OwnDump, Escapes, Verdicts;
    if fs == [] {
      NothingOwn(cfg, s);
    } else {
      OwnFrame(cfg, s, fs[0]);
      var s' := OnFrame(cfg, s, fs[0]);
      if Fits(cfg, fs[0]) {
        EachFrameOnItsOwn(cfg, s', fs[1..]);
        OwnDumpsHead(cfg, fs[..Fitting(cfg, fs)]);
        FrontOfRest(fs, Fitting(cfg, fs));
      } else {
        StoppedStays(cfg, s', fs[1..]);
        NothingOwn(cfg, s);
      }
    }
  }

  lemma FrontOfRest(fs: seq<Frame>, n: nat)
    requires 0 < n <= |fs|
    ensures fs[..n][0] == fs[0] && fs[..n][1..] == fs[1..][..n - 1]
  {
  }

  /** Such a frame exists: one byte at the last address, for a mapping of one byte. */
  lemma SomeFrameEscapes(cfg: Config, tag: Info, b: byte)
    requires 1 <= cfg.limit
    ensures var f := Frame(tag.(mappedAddr := U64_LIMIT - 1, mappingLen := 1, len := 1), [b]);
            WellFormed(f) && Escapes(cfg, f) && !Fits(cfg, f)
  {
  }

  lemma NothingOwn(cfg: Config, s: Server)
    ensures s.dumps + OwnDumps([]) == s.dumps && s.replies + Verdicts(cfg, OwnDumps([])) == s.replies
  {
  }

  lemma OwnDumpsHead(cfg: Config, fs: seq<Frame>)
    requires fs != []
    ensures OwnDumps(fs) == OwnDumps([fs[0]]) + OwnDumps(fs[1..])
    ensures Verdicts(cfg, OwnDumps(fs)) == Verdicts(cfg, OwnDumps([fs[0]])) + Verdicts(cfg, OwnDumps(fs[1..]))
  {
    hide OwnDump, Verdicts;
    assert [fs[0]][1..] == [];
    var head := if fs[0].info.isEnd == 1 then [OwnDump(fs[0])] else [];
    assert head + [] == head;
    VerdictsAppend(cfg, OwnDumps([fs[0]]), OwnDumps(fs[1..]));
  }

  lemma VerdictsAppend(cfg: Config, a: seq<Dump>, b: seq<Dump>)
    ensures Verdicts(cfg, a + b) == Verdicts(cfg, a) + Verdicts(cfg, b)
  {
  }

  // ------------------------------------------------------------------------------------------
  // The server on the byte stream
  // ------------------------------------------------------------------------------------------

  datatype Progress = Progress(server: Server, rest: seq<byte>)

  /** Handles every complete frame of the stream; what is left is too short to be one. */
  function Consume(cfg: Config, s: Server, stream: seq<byte>): (p: Progress)
    decreases |stream|
  {
    if s.status != Running || |stream| < HEADER_SIZE then Progress(s, stream)
    else
      var info := DecodeInfo(stream[..HEADER_SIZE]);
      var h := OnHeader(cfg, s, info);
      if h.status != Running then Progress(h, stream[HEADER_SIZE..])
      else if |stream| < HEADER_SIZE + info.len then Progress(s, stream)
      else
        Consume(cfg, OnPayload(cfg, h, info, stream[HEADER_SIZE..HEADER_SIZE + info.len]),
                stream[HEADER_SIZE + info.len..])
  }

  /** One round of `Consume`. */
  lemma ConsumeRound(cfg: Config, s: Server, stream: seq<byte>)
    requires s.status == Running
    ensures |stream| < HEADER_SIZE ==> Consume(cfg, s, stream) == Progress(s, stream)
    ensures HEADER_SIZE <= |stream| ==>
              var info := DecodeInfo(stream[..HEADER_SIZE]);
              var h := OnHeader(cfg, s, info);
              && (h.status != Running ==> Consume(cfg, s, stream).server == h)
              && (h.status == Running && |stream| < HEADER_SIZE + info.len ==> Consume(cfg, s, stream).server == s)
              && (h.status == Running && HEADER_SIZE + info.len <= |stream| ==>
                    var next := OnPayload(cfg, h, info, stream[HEADER_SIZE..HEADER_SIZE + info.len]);
                    && Consume(cfg, s, stream) == Consume(cfg, next, stream[HEADER_SIZE + info.len..])
                    && (next.status != Running ==> Consume(cfg, s, stream).server == next))
  {
    hide OnHeader, OnPayload, DecodeInfo;
  }

  lemma ConsumeHead(cfg: Config, s: Server, f: Frame, t: seq<byte>)
    requires s.status == Running && WellFormed(f) && OnHeader(cfg, s, f.info).status == Running
    ensures Consume(cfg, s, EncodeInfo(f.info) + f.payload + t) == Consume(cfg, OnFrame(cfg, s, f), t)
  {
    hide OnHeader, OnPayload, EncodeInfo, DecodeInfo;
    DecodeEncodeInfo(f.info);
    SplitThree(EncodeInfo(f.info), f.payload, t);
  }

  lemma ConsumeStep(cfg: Config, s: Server, fs: seq<Frame>, tail: seq<byte>)
    requires fs != [] && s.status == Running && WellFormed(fs[0]) && OnHeader(cfg, s, fs[0].info).status == Running
    ensures Consume(cfg, s, EncodeFrames(fs) + tail)
         == Consume(cfg, OnFrame(cfg, s, fs[0]), EncodeFrames(fs[1..]) + tail)
  {
    hide OnHeader, OnPayload, EncodeInfo, DecodeInfo, Consume, OnFrame;
    assert fs == [fs[0]] + fs[1..];
    EncodeFramesHead(fs[0], fs[1..]);
    Reassociate(EncodeInfo(fs[0].info) + fs[0].payload, EncodeFrames(fs[1..]), tail);
    ConsumeHead(cfg, s, fs[0], EncodeFrames(fs[1..]) + tail);
  }

  lemma RunningHeader(cfg: Config, s: Server, f: Frame)
    requires OnFrame(cfg, s, f).status == Running
    ensures s.status == Running && OnHeader(cfg, s, f.info).status == Running
  {
    hide OnHeader, OnPayload;
  }

  /**
   On the bytes of a list of frames the server does what it does on the frames, and is then at a frame
   boundary: whatever follows is handled from there.
   */
  lemma {:induction false} ConsumeFrames(cfg: Config, s: Server, fs: seq<Frame>, tail: seq<byte>)
    requires AllWellFormed(fs) && s.status == Running && Serve(cfg, s, fs).status == Running
    ensures Consume(cfg, s, EncodeFrames(fs) + tail) == Consume(cfg, Serve(cfg, s, fs), tail)
    decreases |fs|
  {
    hide OnHeader, OnPayload, EncodeFrame, DecodeInfo, Consume, OnFrame;
    if fs == [] {
      assert EncodeFrames(fs) + tail == tail;
    } else {
      var s' := OnFrame(cfg, s, fs[0]);
      if s'.status != Running {
        StoppedStays(cfg, s', fs[1..]);
      }
      RunningHeader(cfg, s, fs[0]);
      assert WellFormed(fs[0]) && AllWellFormed(fs[1..]);
      ConsumeStep(cfg, s, fs, tail);
      ConsumeFrames(cfg, s', fs[1..], tail);
    }
  }

  function EncodeReplies(rs: seq<u32>): seq<byte>
  {
    if rs == [] then [] else EncodeReplies(rs[..|rs| - 1]) + Encode32(rs[|rs| - 1])
  }

  lemma EncodeRepliesSnoc(rs: seq<u32>, r: u32)
    ensures EncodeReplies(rs + [r]) == EncodeReplies(rs) + Encode32(r)
  {
    assert (rs + [r])[..|rs|] == rs;
  }

  /**
   A frame that has not arrived completely changes nothing but the status: that is what its header says once it is
   there, and the payload is waited for otherwise.
   */
  lemma ConsumePartial(cfg: Config, s: Server, fs: seq<Frame>, f: Frame, n: nat)
    requires AllWellFormed(fs) && s.status == Running && Serve(cfg, s, fs).status == Running
    requires WellFormed(f) && n < |EncodeFrame(f)|
    ensures var p, s' := Consume(cfg, s, EncodeFrames(fs) + EncodeFrame(f)[..n]).server, Serve(cfg, s, fs);
            && p.dumps == s'.dumps && p.replies == s'.replies
            && p.status == if n < 272 then Running else OnHeader(cfg, s', f.info).status
  {
    hide EncodeInfo, DecodeInfo, Serve, OnPayload, OnHeader;
    var part, s' := EncodeFrame(f)[..n], Serve(cfg, s, fs);
    ConsumeFrames(cfg, s, fs, part);
    ConsumeRound(cfg, s', part);
    HeaderKeeps(cfg, s', f.info);
    if 272 <= n {
      assert part[..HEADER_SIZE] == EncodeInfo(f.info);
      DecodeEncodeInfo(f.info);
    }
    hide Consume;
  }

  lemma HeaderKeeps(cfg: Config, s: Server, info: Info)
    ensures OnHeader(cfg, s, info).dumps == s.dumps && OnHeader(cfg, s, info).replies == s.replies
  {
  }
}
