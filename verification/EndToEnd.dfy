/** The kernel's sender and the user-space server, one after the other, on the bytes that pass between them. */
module EndToEnd {
  import opened Basics
  import opened Bytes
  import opened Framing
  import opened Sockets
  import opened PageWalk
  import opened Images
  import opened WalkBounds
  import opened WalkOutcome
  import opened TcpServer
  import opened ServerLoop
  import opened Reconstruction

  /**
   A mapping is walked and sent, in whatever pieces and after however many retries, and the stream is received, in
   whatever pieces, and served. If the end frame goes out there is one dump, it shows exactly the cells that follow from
   the walk, its failures and the server's buffer policy, and it equals the process's memory exactly when every page not
   seen reads as zero. A reply that cannot be sent ends the connection, but changes no dump.
   */
  method SnapshotMapping(cfg: Config, m: Machine, info: Info, events: seq<Event>, faults: seq<Fault>, retries: nat,
                         table: PageRefs, ghost user: seq<PageBytes>)
      returns (ret: int, server: TcpServerState, ghost failed: bool)
    requires |faults| == |events| + 1 && Describes(info, |Cells(m, events)|) && EndSent(m, info, events, faults)
    requires Accepts(cfg, info) && Agrees(m, Cells(m, events), user)
    modifies table
    ensures table.refs == old(table.refs)
    ensures ret == if Transfer(m, info, events, faults).memoryError then -ENOMEM else 0
    ensures var seen := Seen(cfg.keepUntilEnd, m, info, events, faults);
            var w := Transfer(m, info, events, faults);
            && w.frames != []
            && var d := DumpOf(cfg, w, info.mappingLen);
               && (if failed then server.dumps <= [d] else server.dumps == [d] && server.replies == [cfg.verdict(d)])
               && d.bytes == Image(m, seen)
               && (d.bytes == Join(user)
                   <==> forall k :: 0 <= k < |seen| && seen[k].None? ==> user[k] == Zeros(PAGE_SIZE))
  {
    hide Transfer, Seen, Describes, EndSent, Image, Join, Consume, EncodeFrames, CellsTo, DumpOf, Agrees, Accepts,
      Wire, AllReplyPieces, Total;
    var sock := new KernelSocket(retries);
    ret := SendPages(m, sock, table, info, events, faults);
    var conn := new Connection(sock.sent);
    server := new TcpServerState(cfg);
    ghost var frames := Transfer(m, info, events, faults).frames;
    assert [] + EncodeFrames(frames) == EncodeFrames(frames);
    ReconstructionExact(cfg, m, info, events, faults, user, server.View());
    failed := server.ServeClient(conn);
  }
}
