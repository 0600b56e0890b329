/**
 The server's receive loop, updating its buffer in place, and the send loop it answers with.

 What one `recv` or `send` moves is the environment's choice, made nondeterministically in their bodies:
 every way the stream can be cut into pieces is covered.
 */
module ServerLoop {
  import opened Basics
  import opened Bytes
  import opened Framing
  import opened Images
  import opened TcpServer

  /** The pieces a send loop delivers when each piece starts at the beginning of the buffer again. */
  function Restarted(buf: seq<byte>, pieces: seq<nat>): seq<byte>
    requires forall i :: 0 <= i < |pieces| ==> pieces[i] <= |buf|
  {
    if pieces == [] then [] else Restarted(buf, pieces[..|pieces| - 1]) + buf[..pieces[|pieces| - 1]]
  }

  function Total(pieces: seq<nat>): nat
  {
    if pieces == [] then 0 else Total(pieces[..|pieces| - 1]) + pieces[|pieces| - 1]
  }

  /** What sends of 1 to `size` bytes each add up to when the loop stops as soon as `size` is reached. */
  predicate Complete(pieces: seq<nat>, size: nat)
  {
    && pieces != []
    && (forall i :: 0 <= i < |pieces| ==> 0 < pieces[i] <= size)
    && Total(pieces[..|pieces| - 1]) < size <= Total(pieces)
  }

  /** What the loop knows about its pieces so far, and their total. */
  predicate Sending(buf: seq<byte>, pieces: seq<nat>, total: nat)
  {
    && (forall i :: 0 <= i < |pieces| ==> 0 < pieces[i] <= |buf|)
    && total == Total(pieces)
    && (pieces != [] ==> Total(pieces[..|pieces| - 1]) < |buf|)
  }

  lemma NoPieces(buf: seq<byte>)
    ensures Sending(buf, [], 0) && Restarted(buf, []) == []
  {
  }

  lemma OneMorePiece(buf: seq<byte>, pieces: seq<nat>, total: nat, p: nat)
    requires Sending(buf, pieces, total) && total < |buf| && 0 < p <= |buf|
    ensures Sending(buf, pieces + [p], total + p)
    ensures Restarted(buf, pieces + [p]) == Restarted(buf, pieces) + buf[..p]
    ensures total + p >= |buf| ==> Complete(pieces + [p], |buf|)
  {
    assert (pieces + [p])[..|pieces|] == pieces;
  }

  lemma SendingTotal(buf: seq<byte>, pieces: seq<nat>, total: nat)
    requires Sending(buf, pieces, total)
    ensures total == Total(pieces) && forall i :: 0 <= i < |pieces| ==> 0 < pieces[i] <= |buf|
    ensures buf != [] ==> (Complete(pieces, |buf|) <==> total >= |buf|)
  {
  }

  class Connection {
    /** What the peer has sent, or will send, before it closes the connection. */
    var incoming: seq<byte>
    var outgoing: seq<byte>
    /** What the last `send` returned. */
    ghost var lastSend: int

    constructor (incoming: seq<byte>)
      ensures this.incoming == incoming && outgoing == []
    {
      this.incoming, outgoing, lastSend := incoming, [], 0;
    }

    /** `recv`: some bytes, or none once the peer has closed. */
    method Recv(n: nat) returns (data: seq<byte>)
      requires n > 0
      modifies this`incoming
      ensures old(incoming) == data + incoming
      ensures |data| <= n && (data == [] <==> old(incoming) == [])
    {
      if incoming == [] {
        return [];
      }
      var k :| 1 <= k <= n && k <= |incoming| by {
        assert 1 <= n && 1 <= |incoming|;
      }
      data := incoming[..k];
      incoming := incoming[k..];
    }

    /** `send`: takes a prefix, or fails. */
    method Send(buf: seq<byte>) returns (sb: int)
      requires buf != []
      modifies this`outgoing, this`lastSend
      ensures sb <= |buf| && lastSend == sb
      ensures outgoing == if sb <= 0 then old(outgoing) else old(outgoing) + buf[..sb]
    {
      sb :| sb <= |buf| by {
        assert 0 <= |buf|;
      }
      lastSend := sb;
      if sb > 0 {
        outgoing := outgoing + buf[..sb];
      }
    }

    /** `send_tcp`: the buffer pointer is never advanced, so every send starts at its beginning again. */
    method SendTcp(buf: seq<byte>) returns (ret: int, pieces: seq<nat>)
      requires buf != []
      modifies this`outgoing, this`lastSend
      ensures ret <= 0 && ret == if Complete(pieces, |buf|) then 0 else lastSend
      ensures forall i :: 0 <= i < |pieces| ==> 0 < pieces[i] <= |buf|
      ensures outgoing == old(outgoing) + Restarted(buf, pieces)
      ensures Complete(pieces, |buf|) <==> Total(pieces) >= |buf|
    {
      hide Restarted, Complete, Sending, Total;
      var total := 0;
      pieces := [];
      NoPieces(buf);
      ghost var before := outgoing;
      while total < |buf|
        invariant Sending(buf, pieces, total)
        invariant forall i :: 0 <= i < |pieces| ==> pieces[i] <= |buf|
        invariant total >= |buf| ==> Complete(pieces, |buf|)
        invariant outgoing == before + Restarted(buf, pieces)
        decreases |buf| - total
      {
        var sb := Send(buf);
        if sb <= 0 {
          SendingTotal(buf, pieces, total);
          return sb, pieces;
        }
        OneMorePiece(buf, pieces, total, sb);
        Reassociate(before, Restarted(buf, pieces), buf[..sb]);
        pieces := pieces + [sb];
        total := total + sb;
      }
      SendingTotal(buf, pieces, total);
      ret := 0;
    }
  }

  /** A completed send loop delivers at least the buffer's length, and less than twice that. */
  lemma CompleteTotal(buf: seq<byte>, pieces: seq<nat>)
    requires Complete(pieces, |buf|)
    ensures |buf| <= |Restarted(buf, pieces)| < 2 * |buf|
  {
    RestartedLength(buf, pieces);
  }

  lemma {:induction false} RestartedLength(buf: seq<byte>, pieces: seq<nat>)
    requires forall i :: 0 <= i < |pieces| ==> pieces[i] <= |buf|
    ensures |Restarted(buf, pieces)| == Total(pieces)
  {
    if pieces != [] {
      RestartedLength(buf, pieces[..|pieces| - 1]);
    }
  }

  lemma {:induction false} RestartedHead(buf: seq<byte>, pieces: seq<nat>)
    requires pieces != [] && forall i :: 0 <= i < |pieces| ==> pieces[i] <= |buf|
    ensures Restarted(buf, pieces) == buf[..pieces[0]] + Restarted(buf, pieces[1..])
    ensures Total(pieces) == pieces[0] + Total(pieces[1..])
  {
    var ps := pieces[..|pieces| - 1];
    if ps == [] {
      assert pieces[1..] == [];
    } else {
      RestartedHead(buf, ps);
      assert pieces[1..][..|pieces| - 2] == ps[1..];
      assert pieces[1..][|pieces| - 2] == pieces[|pieces| - 1];
      Reassociate(buf[..pieces[0]], Restarted(buf, ps[1..]), buf[..pieces[|pieces| - 1]]);
    }
  }

  /** The loop delivers every buffer of a length correctly exactly when its first send takes the whole buffer. */
  lemma SendExactWhenFirstIsFull(pieces: seq<nat>, size: nat)
    requires Complete(pieces, size)
    ensures pieces[0] == size <==> forall buf: seq<byte> :: |buf| == size ==> Restarted(buf, pieces) == buf
  {
    if pieces[0] == size {
      forall buf: seq<byte> | |buf| == size
        ensures Restarted(buf, pieces) == buf
      {
        FirstIsAll(buf, pieces);
      }
    } else {
      var p := pieces[0];
      var buf: seq<byte> := Zeros(size)[p := 1];
      RestartedHead(buf, pieces);
      RestartedLength(buf, pieces);
      if |pieces| > 1 {
        RestartedHead(buf, pieces[1..]);
        assert Restarted(buf, pieces)[p] == buf[0] == 0;
      }
      assert Restarted(buf, pieces) != buf;
    }
  }

  lemma FirstIsAll(buf: seq<byte>, pieces: seq<nat>)
    requires Complete(pieces, |buf|) && pieces[0] == |buf|
    ensures Restarted(buf, pieces) == buf
  {
    if |pieces| > 1 {
      RestartedHead(buf, pieces[..|pieces| - 1]);
      assert false;
    }
    RestartedHead(buf, pieces);
    assert pieces[1..] == [];
  }

  // ------------------------------------------------------------------------------------------
  // The replies on the wire
  // ------------------------------------------------------------------------------------------

  /** One call of the send loop for a reply: complete, or given up before all four bytes were counted as sent. */
  predicate ReplyPieces(pieces: seq<nat>)
  {
    (forall i :: 0 <= i < |pieces| ==> 0 < pieces[i] <= 4) && (Complete(pieces, 4) || Total(pieces) < 4)
  }

  predicate AllReplyPieces(wires: seq<seq<nat>>) { forall i :: 0 <= i < |wires| ==> ReplyPieces(wires[i]) }

  /** The bytes of some replies, each as its send loop delivered it. */
  function Wire(replies: seq<u32>, wires: seq<seq<nat>>): seq<byte>
    requires |wires| == |replies| && AllReplyPieces(wires)
  {
    if replies == [] then []
    else
      var n := |replies| - 1;
      assert ReplyPieces(wires[n]) && AllReplyPieces(wires[..n]);
      Wire(replies[..n], wires[..n]) + Restarted(Encode32(replies[n]), wires[n])
  }

  lemma WireSnoc(replies: seq<u32>, wires: seq<seq<nat>>, r: u32, pieces: seq<nat>)
    requires |wires| == |replies| && AllReplyPieces(wires) && ReplyPieces(pieces)
    ensures AllReplyPieces(wires + [pieces])
    ensures Wire(replies + [r], wires + [pieces]) == Wire(replies, wires) + Restarted(Encode32(r), pieces)
  {
    hide Restarted, ReplyPieces;
    assert (replies + [r])[..|replies|] == replies && (wires + [pieces])[..|wires|] == wires;
  }

  /** When each first send takes all four bytes, the client gets the replies themselves. */
  lemma {:induction false} WholeReplies(replies: seq<u32>, wires: seq<seq<nat>>)
    requires |wires| == |replies| && AllReplyPieces(wires)
    requires forall i :: 0 <= i < |wires| ==> wires[i] != [] && wires[i][0] == 4
    ensures Wire(replies, wires) == EncodeReplies(replies)
  {
    if replies != [] {
      var n := |replies| - 1;
      assert ReplyPieces(wires[n]);
      WholeReplies(replies[..n], wires[..n]);
      WholeReply(Encode32(replies[n]), wires[n]);
    }
  }

  lemma WholeReply(buf: seq<byte>, pieces: seq<nat>)
    requires |buf| == 4 && ReplyPieces(pieces) && pieces != [] && pieces[0] == 4
    ensures Restarted(buf, pieces) == buf
  {
    RestartedHead(buf, pieces);
    RestartedLength(buf, pieces);
    FirstIsAll(buf, pieces);
  }

  /** Serving goes on from what has been dumped and answered. */
  lemma {:induction false} ConsumeGrows(cfg: Config, s: Server, stream: seq<byte>)
    ensures s.dumps <= Consume(cfg, s, stream).server.dumps
    ensures s.replies <= Consume(cfg, s, stream).server.replies
    decreases |stream|
  {
    hide OnHeader, OnPayload, DecodeInfo;
    if s.status == Running && HEADER_SIZE <= |stream| {
      var info := DecodeInfo(stream[..HEADER_SIZE]);
      var h := OnHeader(cfg, s, info);
      HeaderGrows(cfg, s, info);
      if h.status == Running && HEADER_SIZE + info.len <= |stream| {
        var payload := stream[HEADER_SIZE..HEADER_SIZE + info.len];
        PayloadGrows(cfg, h, info, payload);
        ConsumeGrows(cfg, OnPayload(cfg, h, info, payload), stream[HEADER_SIZE + info.len..]);
      }
    }
  }

  lemma HeaderGrows(cfg: Config, s: Server, info: Info)
    ensures OnHeader(cfg, s, info).dumps == s.dumps && OnHeader(cfg, s, info).replies == s.replies
    ensures OnHeader(cfg, s, info).status == Running ==> OnHeader(cfg, s, info).root.Some?
  {
  }

  lemma PayloadGrows(cfg: Config, s: Server, info: Info, payload: seq<byte>)
    requires s.root.Some?
    ensures s.dumps <= OnPayload(cfg, s, info, payload).dumps && s.replies <= OnPayload(cfg, s, info, payload).replies
  {
  }

  class TcpServerState {
    const cfg: Config
    var rootBuf: array?<byte>
    var dumps: seq<Dump>
    var replies: seq<u32>
    var status: Status
    /** How each reply was sent. */
    ghost var wires: seq<seq<nat>>

    ghost function View(): Server
      reads this, rootBuf
    {
      Server(if rootBuf == null then None else Some(rootBuf[..]), dumps, replies, status)
    }

    /** The connection carries the replies, each as it was sent. */
    ghost predicate Sent(conn: Connection)
      reads this, conn
    {
      |wires| == |replies| && AllReplyPieces(wires) && conn.outgoing == Wire(replies, wires)
    }

    constructor (cfg: Config)
      ensures this.cfg == cfg && View() == Server(None, [], [], Running) && wires == []
    {
      this.cfg := cfg;
      rootBuf, dumps, replies, status, wires := null, [], [], Running, [];
    }

    /** The allocation and the range check that follow a header. */
    method HandleHeader(info: Info)
      requires status == Running
      modifies this`rootBuf, this`status
      ensures View() == OnHeader(cfg, old(View()), info)
      ensures rootBuf == old(rootBuf) || rootBuf == null || fresh(rootBuf)
    {
      if rootBuf == null {
        if info.mappingLen == 0 || info.mappingLen > cfg.limit {
          status := Disconnected;
          return;
        }
        rootBuf := new byte[info.mappingLen](_ => 0);
        assert rootBuf[..] == Zeros(info.mappingLen);
      }
      if info.len > 0 && Add64(info.mappedAddr, info.len) > rootBuf.Length {
        rootBuf, status := null, Disconnected;
      } else if info.len > 0 && info.mappedAddr + info.len > rootBuf.Length {
        status := Undefined;
      }
    }

    /** The last reply could not be sent: its send loop was given up because `send` failed. */
    ghost predicate GivenUp(conn: Connection)
      reads this`wires, conn`lastSend
    {
      wires != [] && Total(wires[|wires| - 1]) < 4 && conn.lastSend < 0
    }

    /** `analyze_nop`, with a verdict of its own for each dump: the reply is sent, and a failed send reported. */
    method Answer(verdict: u32, conn: Connection) returns (ok: bool)
      requires Sent(conn)
      modifies this`replies, this`wires, conn`outgoing, conn`lastSend
      ensures Sent(conn) && replies == old(replies) + [verdict]
      ensures |wires| == |old(wires)| + 1 && old(wires) <= wires
      ensures !ok <==> GivenUp(conn)
    {
      hide Wire, AllReplyPieces, Restarted, Complete, Total;
      var ret, pieces := conn.SendTcp(Encode32(verdict));
      WireSnoc(replies, wires, verdict, pieces);
      replies, wires := replies + [verdict], wires + [pieces];
      ok := ret >= 0;
    }

    /** The dump and the reply of an end frame, and the release of the buffer unless the reply cannot be sent. */
    method HandleEnd(info: Info, conn: Connection) returns (ok: bool)
      requires status == Running && rootBuf != null && Sent(conn) && !GivenUp(conn)
      modifies this, conn`outgoing, conn`lastSend
      ensures Sent(conn) && old(wires) <= wires
      ensures rootBuf == old(rootBuf) || rootBuf == null
      ensures ok ==> View() == Finish(cfg, old(View()), info)
      ensures !ok ==>
                var s := Finish(cfg, old(View()), info);
                dumps == s.dumps && replies == s.replies && status == Disconnected
      ensures ok <==> !GivenUp(conn)
    {
      hide Wire, AllReplyPieces;
      ok := true;
      if info.isEnd == 1 {
        if info.mappingLen > rootBuf.Length {
          status := Undefined;
          return;
        }
        var d := Dump(info, rootBuf[..info.mappingLen]);
        dumps := dumps + [d];
        ok := Answer(cfg.verdict(d), conn);
        if !ok {
          status := Disconnected;
          return;
        }
      }
      if info.isEnd == 1 || !cfg.keepUntilEnd {
        rootBuf := null;
      }
    }

    /** The payload, received into its place in the buffer; nothing is received when there is none. */
    method ReceivePayload(info: Info, conn: Connection) returns (ok: bool)
      requires status == Running && rootBuf != null
      requires info.len > 0 ==> info.mappedAddr + info.len <= rootBuf.Length
      modifies conn`incoming, rootBuf
      ensures ok == (info.len <= |old(conn.incoming)|)
      ensures ok ==> conn.incoming == old(conn.incoming)[info.len..]
      ensures ok ==> View() == Fill(old(View()), info, old(conn.incoming)[..info.len])
    {
      ok := true;
      if info.len > 0 {
        ghost var stream, placed := conn.incoming, rootBuf[..];
        ok := RecvInto(conn, rootBuf, info.mappedAddr, info.len);
        if ok {
          assert rootBuf[..] == Place(placed, info.mappedAddr, stream[..info.len]);
        }
      }
    }

    /**
     One round of the inner loop: a header, its payload if there is one, and the end of a mapping. `failed` tells that
     the round ended because its reply could not be sent.
     */
    method ServeFrame(conn: Connection, header: array<byte>) returns (more: bool, ghost failed: bool)
      requires status == Running && Sent(conn) && !GivenUp(conn)
      requires header.Length == HEADER_SIZE && rootBuf != header
      modifies this, conn, header, rootBuf
      ensures Sent(conn) && (failed <==> GivenUp(conn))
      ensures rootBuf == old(rootBuf) || rootBuf == null || fresh(rootBuf)
      ensures more ==> |conn.incoming| < |old(conn.incoming)| && status == Running
      ensures more ==> Consume(cfg, View(), conn.incoming) == Consume(cfg, old(View()), old(conn.incoming))
      ensures !more && !failed ==>
                var p := Consume(cfg, old(View()), old(conn.incoming));
                && dumps == p.server.dumps && replies == p.server.replies
                && status == p.server.status
      ensures failed ==>
                var p := Consume(cfg, old(View()), old(conn.incoming));
                !more && dumps <= p.server.dumps && replies <= p.server.replies && status == Disconnected
    {
      hide OnHeader, Finish, DecodeInfo, Wire, AllReplyPieces, Consume, Total;
      ghost var stream, start := conn.incoming, View();
      failed := false;
      ConsumeRound(cfg, start, stream);
      more := RecvInto(conn, header, 0, HEADER_SIZE);
      if !more {
        return;
      }
      assert header[..] == stream[..HEADER_SIZE];
      var info := DecodeInfo(header[..]);
      HandleHeader(info);
      if status != Running {
        more := false;
        return;
      }
      more := ReceivePayload(info, conn);
      if !more {
        return;
      }
      assert stream[HEADER_SIZE..][..info.len] == stream[HEADER_SIZE..HEADER_SIZE + info.len];
      assert stream[HEADER_SIZE..][info.len..] == stream[HEADER_SIZE + info.len..];
      ghost var next := Finish(cfg, View(), info);
      more := HandleEnd(info, conn);
      if !more {
        failed := true;
        ConsumeGrows(cfg, next, stream[HEADER_SIZE + info.len..]);
      } else {
        more := status == Running;
      }
    }

    /**
     The life of one connection. However the stream is cut into pieces, the dumps written and the replies sent
     are those of the specification on the stream as a whole - or, if a reply cannot be sent, those up to that one -
     and the client gets each reply as its send loop delivers it.
     */
    method ServeClient(conn: Connection) returns (ghost failed: bool)
      requires View() == Server(None, dumps, [], Running) && wires == [] && conn.outgoing == []
      modifies this, conn
      ensures Sent(conn) && (failed <==> GivenUp(conn))
      ensures var p := Consume(cfg, old(View()), old(conn.incoming));
              if failed then
                dumps <= p.server.dumps && replies <= p.server.replies && status == Disconnected
              else
                && dumps == p.server.dumps && replies == p.server.replies
                && status == (if p.server.status == Undefined then Undefined else Disconnected)
      ensures status == Disconnected ==> rootBuf == null
    {
      hide Consume, Wire, AllReplyPieces, Total;
      var header := new byte[HEADER_SIZE](_ => 0);
      var more := true;
      failed := false;
      NothingSent(wires);
      while more
        invariant rootBuf == null || (fresh(rootBuf) && rootBuf != header)
        invariant Sent(conn) && (failed <==> GivenUp(conn))
        invariant more ==> status == Running && !failed
        invariant more ==> Consume(cfg, View(), conn.incoming) == Consume(cfg, old(View()), old(conn.incoming))
        invariant !more ==>
                    var p := Consume(cfg, old(View()), old(conn.incoming));
                    if failed then
                      dumps <= p.server.dumps && replies <= p.server.replies && status == Disconnected
                    else dumps == p.server.dumps && replies == p.server.replies && status == p.server.status
        decreases more, |conn.incoming|
      {
        more, failed := ServeFrame(conn, header);
      }
      if status != Undefined {
        rootBuf, status := null, Disconnected;
      }
    }
  }

  lemma NothingSent(wires: seq<seq<nat>>)
    requires wires == []
    ensures AllReplyPieces(wires) && Wire([], wires) == []
  {
  }

  /** Receives exactly n bytes into an array, or finds the connection closed. */
  method RecvInto(conn: Connection, a: array<byte>, off: nat, n: nat) returns (ok: bool)
    requires off + n <= a.Length
    modifies conn`incoming, a
    ensures ok == (n <= |old(conn.incoming)|)
    ensures ok ==> conn.incoming == old(conn.incoming)[n..]
    ensures ok ==> a[..] == old(a[..off]) + old(conn.incoming)[..n] + old(a[off + n..])
  {
    ghost var stream := conn.incoming;
    var total := 0;
    while total < n
      invariant total <= n && total <= |stream|
      invariant conn.incoming == stream[total..]
      invariant forall k :: 0 <= k < total ==> a[off + k] == stream[k]
      invariant forall k :: 0 <= k < off || off + total <= k < a.Length ==> a[k] == old(a[k])
    {
      var data := conn.Recv(n - total);
      if data == [] {
        return false;
      }
      forall k | 0 <= k < |data| {
        a[off + total + k] := data[k];
      }
      total := total + |data|;
    }
    ok := true;
  }
}
