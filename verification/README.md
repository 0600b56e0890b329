# Verified model of the mcheck memory snapshots

The repository patches a Linux kernel with a security module, `mcheck`, that sends the memory a process is about to
execute to an analyzer before the process can run it. This project models that module, the user-space server at the
other end of its TCP connection, the analyzer behind its netlink family and the `filter-wx` launcher, and proves what
they achieve together. The kernel code modelled is `security/mcheck/mcheck.c` as it stands once patches 0001 to 0026
have been applied in order; rows cite the patch that holds the latest text of the lines in question.

| file | subject |
|---|---|
| `Basics.dfy`, `Bytes.dfy`, `Framing.dfy` | bytes, 32- and 64-bit arithmetic, the header layout and the framed byte stream |
| `Sockets.dfy` | the kernel's send loop |
| `PageWalk.dfy` | the page walk: its specification on values, and the walk context updated in place |
| `WalkBounds.dfy`, `WalkContent.dfy`, `WalkLosses.dfy`, `WalkRuns.dfy` | what every walk keeps, what it carries with and without failures, and how it is cut into frames |
| `WalkOutcome.dfy` | which pages, and which of them in the last frame, in terms of the events and the failed allocations |
| `WalkPages.dfy` | the walk in terms of its page-table entries alone: pages in frames, full arrays, end frames |
| `TcpServer.dfy`, `ServerLoop.dfy` | the server on frames and on the byte stream; its receive and send loops |
| `Images.dfy`, `Reconstruction.dfy`, `EndToEnd.dfy` | sender and server together: the dump and the process's memory |
| `WxSnapshot.dfy`, `WxConditions.dfy` | a process under the W^X filter, over whole runs, and what the exact condition comes to |
| `WxRequests.dfy` | what each request does in its own terms, and where the loop of mprotect ends |
| `Replies.dfy`, `Session.dfy` | when the kernel's receive loop ends, and whose verdict each hook call of a sequence returns |
| `Handshake.dfy`, `Registration.dfy` | hook, kernel thread and analyzer as an interleaving system; the netlink messages |
| `PerfRing.dfy` | the performance ring buffer |
| `ArgText.dfy` | the second argument, and file names made from fields |
| `LinearHash.dfy` | the analyzer's linear hash |

How the model is set up:

- Code that updates state is a class or a method with loops: `KernelSocket`, `PageRefs`, `WalkCtx`, `Connection`,
  `TcpServerState`, `ReplySocket`, `Receiver`, `Ring`, and the loops over arrays in `ArgText` and `LinearHash`. Each is
  proved against a function on values, and the theorems are about those functions. The three actors of the handshake
  and the process under the filter are transition systems.
- What the environment chooses is either made nondeterministically inside a method (how much one `send`, `recv` or
  `sendmsg` takes) or is a parameter over which every theorem quantifies: the callbacks of the page walk (`Event`), the
  outcome of every allocation a callback may attempt (`Fault`), what arrives when at the receive loop (`Round`), the
  analyzer's verdict on a dump, the order in which the actors of the handshake move.
- `keepUntilEnd` distinguishes two servers. The purpose stated by patch 0022 is to reconstruct sparse memory on the
  server's side, but the server releases its buffer after every frame (`tcp_server.cpp:260-262`), although the sender
  emits one frame for each run of pages. The server as written is `keepUntilEnd == false`, and gets its own exact
  theorems; `keepUntilEnd == true` is the server that would serve the purpose.

Places where the code does not do what it is for; each has a theorem that says exactly when it does:

- What a dump shows follows from the callbacks of the walk, the allocations that failed and the server's buffer policy
  (`Seen`), and the dump is the process's memory if and only if every page not seen reads as zero
  (`ReconstructionExact`). In closed form (`SeenIsClosed`): unless growing fails, the server as written shows the run of
  sendable pages that reaches the end of the range, whichever runs before it were lost, and a server that keeps its
  buffer the runs whose flush found memory; if growing fails at a page, the server as written shows at most that page.
- Every executable page is known as it is throughout a run if and only if each action satisfies a condition on the state
  before it (`RunExact`). Without failures the server that keeps its buffer always does (`SnapshotSoundness`). With the
  server as written, and whatever fails, every page of the range that a round of mprotect leaves executable has to be in
  the payload of the end frame or to read as zero, and when the end frame is lost to be known already
  (`AsWrittenRunExact`); a round that does not do this exists (`AsWrittenLosesPage`).
- An executable mapping made at address 0 is not sent (`!addr` is refused), but stays (`MapPageZeroExact`).
- `_tcp_recv` asks whether the queue is empty and not whether it has what it wants. It ends after the first quiet round,
  if no more than it wants has arrived by then, and otherwise never (`LoopEndsExactly`); so it can come back short.
- A growth failure and an incomplete or interrupted read leave a reply unread, and a lost end frame brings none. How many
  bytes are unread (`Lag`), whose verdict a call returns (`ReturnsLaggingAnswer`) and whether it can hang
  (`HangsExactlyInCounts`) follow exactly from their numbers; two calls of which the second returns the verdict on the
  first exist (`StaleVerdict`).
- `send_tcp` never advances its pointer: it is right for every buffer if and only if its first send takes everything
  (`SendExactWhenFirstIsFull`).
- The server's range check admits a frame that does not fit if and only if its end wraps around 2^64 into the mapping
  (`EachFrameOnItsOwn`, `SomeFrameEscapes`).
- A lost netlink notification leaves the hook and its thread waiting for ever; nothing else does
  (`StuckExactlyWhenLost`).
- The ring loses data if and only if some write fills it (`LosslessExactly`).
- The second argument arrives whole if and only if it is short and ends early enough (`SecondArgumentWhole`).

## Model

| member | source | states |
|---|---|---|
| Bytes.NegatedInt | custom_patches/0025-Reinstated-support-for-eBPF.patch:257 | returning the negation of an `unsigned int` as `int` gives the signed number that cancels it modulo 2^32, and 0 only for 0 |
| Framing.DecodeEncodeInfo | custom_patches/0026-Added-anon-names-and-second-arg-to-sent-items.patch:40-53 | decoding an encoded header gives every field back |
| Framing.EncodeDecodeInfo | custom_patches/0026-Added-anon-names-and-second-arg-to-sent-items.patch:40-53 | any 272 bytes are the encoding of the header decoded from them |
| Framing.HeaderLayout | custom_patches/0026-Added-anon-names-and-second-arg-to-sent-items.patch:40-53 | at which offset each field of the header lies, and that numbers are sent least significant byte first |
| Framing.ReplyLayout | custom_patches/0024-Modified-mcheck-to-receive-response-from-server-afte.patch:62 | a reply is four bytes, least significant first |
| Framing.FramingRoundTrip | test-app/tcp-server/src/tcp_server.cpp:205-251 | parsing the concatenation of well-formed frames and a tail yields exactly those frames, and then whatever the tail parses to |
| Framing.ParseIsFaithful | test-app/tcp-server/src/tcp_server.cpp:205-251 | the frames parsed from any stream are well-formed and spell out, byte for byte, everything before the incomplete tail |
| Sockets.KernelSocket.TcpSend | custom_patches/0013-Added-tcp-kernel-socket-to-the-LSM.patch:113-135 | with any partial sends and finitely many retries the loop ends, having delivered exactly the buffer, in order |
| Sockets.KernelSocket.Send | custom_patches/0018-Removed-socket-testing-code-and-modified-sending-pag.patch:159-188 | delivers the buffer and returns its length; an empty buffer is refused |
| PageWalk.SendFrame | custom_patches/0024-Modified-mcheck-to-receive-response-from-server-afte.patch:86-106 | the socket receives the frame's header and then its payload, nothing else |
| PageWalk.WalkCtx.FlushAccumulatedPages | custom_patches/0025-Reinstated-support-for-eBPF.patch:64-86 | one frame for the batch, none when it is empty before the end or an allocation fails; the batch is empty afterwards and each of its pages is put once |
| PageWalk.WalkCtx.PutAll | custom_patches/0021-Modified-send-mechanism-to-send-sparse-pages.patch:106-116 | the put loop leaves every page with the references it had before the batch took them |
| PageWalk.WalkCtx.GrowPageArray | custom_patches/0021-Modified-send-mechanism-to-send-sparse-pages.patch:118-142 | doubles the capacity and keeps the pages, or sets the error flag and changes nothing else |
| PageWalk.WalkCtx.Push | custom_patches/0025-Reinstated-support-for-eBPF.patch:140-148 | takes one reference, stores the page behind the batch, and fixes the batch's offset when it is the first |
| PageWalk.WalkCtx.EnsureRoom | custom_patches/0025-Reinstated-support-for-eBPF.patch:133-138 | the index used next is inside the array whether or not growing succeeded |
| PageWalk.WalkCtx.CollectPages | custom_patches/0025-Reinstated-support-for-eBPF.patch:112-149 | an absent page, the zero page and an invalid frame leave the batch empty, any other page becomes its last; refines the specified step; -ENOMEM exactly when the error flag was already set, and then the batch stays |
| PageWalk.WalkCtx.Visit | custom_patches/0025-Reinstated-support-for-eBPF.patch:161-175 | an entry is collected, a hole flushes, and nothing happens once a callback has failed |
| PageWalk.WalkCtx.WalkPageRange | custom_patches/0025-Reinstated-support-for-eBPF.patch:169-175 | after every callback, count <= capacity, sent bytes are the frames so far, and each page in the batch is held once; the final state is that of the specified walk |
| PageWalk.WalkCtx.EndOfMapping | custom_patches/0023-Modified-mcheck-to-send-mapping-length-and-whether-t.patch:41-45 | the flush marked as the end sends the last frame, gives every reference back and reports -ENOMEM exactly when the flag is set |
| PageWalk.SendPages | custom_patches/0025-Reinstated-support-for-eBPF.patch:218-246 | over any events and any failures: the socket gets exactly the frames of the specified transfer, every reference count is what it was before, and the result is -ENOMEM exactly on a growth failure |
| WalkPages.CellOfEvent | custom_patches/0025-Reinstated-support-for-eBPF.patch:125-131 | a page of the range is one to send if and only if its entry is present, not for the zero page and has a valid frame; no page of a hole is |
| WalkPages.PageInFrame | custom_patches/0025-Reinstated-support-for-eBPF.patch:112-166 | over a transfer without failures, a page lies in a frame if and only if its entry is present, not for the zero page and has a valid frame, and the frame holds its bytes in its place |
| WalkPages.EndMarked | custom_patches/0024-Modified-mcheck-to-receive-response-from-server-afte.patch:86-110 | a frame is marked as the end if and only if it is the last and the last flush found its memory |
| WalkPages.EndSentExactly | custom_patches/0024-Modified-mcheck-to-receive-response-from-server-afte.patch:81-92 | the end frame goes out if and only if its header can be allocated and, when there is a page left to send with it, the pages can be mapped |
| WalkPages.WalkedCapacity | custom_patches/0021-Modified-send-mechanism-to-send-sparse-pages.patch:118-142 | the array has room for 512, 1024, 2048, ... pages, as many as the longest run so far has needed |
| WalkPages.GrowthFailsExactly | custom_patches/0025-Reinstated-support-for-eBPF.patch:133-138 | growing fails at the first entry at which the longest run so far, of 512, 1024, ... pages, goes on and there is no memory; -ENOMEM if and only if there is one |
| WalkBounds.WalkedBounded | custom_patches/0025-Reinstated-support-for-eBPF.patch:112-149 | whatever fails, after each callback the batch fits its array and every frame sent lies inside the part of the mapping walked so far |
| WalkBounds.BatchAddress | custom_patches/0022-Modified-logic-so-we-can-reconstruct-the-sparse-memo.patch:47-51 | while a batch is collected the next address is always init_addr + mapped_addr + count * PAGE_SIZE |
| WalkBounds.FramesFit | custom_patches/0025-Reinstated-support-for-eBPF.patch:70-79 | whatever fails, every frame of a transfer satisfies mapped_addr + len <= mapping_len without wrapping, repeats the mapping's header, and only the last is marked as the end |
| WalkContent.ErrorStays | custom_patches/0025-Reinstated-support-for-eBPF.patch:121-123 | once the error flag is set it stays set and no later page is taken into account |
| WalkContent.FirstError | custom_patches/0025-Reinstated-support-for-eBPF.patch:133-138 | a set error flag has one origin: a sendable page that met a full array which could not be grown |
| WalkContent.GrowthFailure | custom_patches/0025-Reinstated-support-for-eBPF.patch:114-148 | -ENOMEM if and only if growing failed at some callback; then exactly the sendable pages up to and including its page are carried, otherwise all |
| WalkContent.GrowingKeepsAll | custom_patches/0025-Reinstated-support-for-eBPF.patch:114-148 | however often the array is grown, every sendable page is carried |
| WalkLosses.FlushKeeps | custom_patches/0024-Modified-mcheck-to-receive-response-from-server-afte.patch:70-114 | a flush that cannot map or allocate removes exactly the pages of the batch, those from the batch's offset on, and a successful one removes none |
| WalkLosses.WalkedShown | custom_patches/0025-Reinstated-support-for-eBPF.patch:64-166 | after every callback, whatever has failed, frames and batch hold exactly the cells that the failed callbacks have left |
| WalkLosses.CarriedBelow | custom_patches/0025-Reinstated-support-for-eBPF.patch:64-166 | each of these cells is the mapping's own, or missing |
| WalkLosses.CarriedContent | custom_patches/0025-Reinstated-support-for-eBPF.patch:64-166 | whatever fails, the frames of a transfer placed in zeros are exactly the image of the cells computed from the walk and its failures |
| WalkLosses.TransferContent | custom_patches/0025-Reinstated-support-for-eBPF.patch:64-166 | when no flush loses its batch these are the heeded cells: all, or those up to and including the page at which growing failed |
| WalkOutcome.RunDelivered | custom_patches/0024-Modified-mcheck-to-receive-response-from-server-afte.patch:70-114 | a run is carried whole or not at all, depending on the flush that ends it |
| WalkOutcome.CarriedIsDelivered | custom_patches/0024-Modified-mcheck-to-receive-response-from-server-afte.patch:70-114 | unless growing fails, a sendable page is carried if and only if the callback that ends its run, found by looking ahead in the events, finds its memory |
| WalkOutcome.CarriedIsBroken | custom_patches/0025-Reinstated-support-for-eBPF.patch:114-148 | if growing fails at a page, whichever flushes are lost: carried are the runs before it whose flush found memory, the page if its own flush did, and nothing behind it |
| WalkOutcome.LastCarriedTrails | custom_patches/0025-Reinstated-support-for-eBPF.patch:64-166 | unless growing fails, the end frame carries the run that reaches the end of the range, whichever flushes before it are lost |
| WalkOutcome.LastCarriedIsBroken | custom_patches/0025-Reinstated-support-for-eBPF.patch:114-166 | if growing fails at a page, the end frame carries that page alone, or nothing when a hole comes right behind it |
| WalkOutcome.SeenIsClosed | custom_patches/0025-Reinstated-support-for-eBPF.patch:64-166 | for either server and whichever allocations fail, what can be seen of a mapping in closed form |
| WalkRuns.RunDecomposition | custom_patches/0025-Reinstated-support-for-eBPF.patch:64-166 | without failures the data frames are maximal runs of sendable pages, ascending, disjoint and covering all of them; the end frame carries the run that reaches the end of the range, or nothing |
| WalkRuns.DecomposesExactly | custom_patches/0025-Reinstated-support-for-eBPF.patch:112-149 | such frames are all the maximal runs and only those |
| TcpServer.ServeAppend | test-app/tcp-server/src/tcp_server.cpp:203-263 | serving two lists of frames one after the other is serving their concatenation |
| TcpServer.HeaderExact | test-app/tcp-server/src/tcp_server.cpp:215-249 | when a header is taken, refused, or leads out of the buffer, with and without a buffer held |
| TcpServer.FinishExact | test-app/tcp-server/src/tcp_server.cpp:253-262 | an end frame dumps the first mapping_len bytes and is answered, any other one is not, and what is kept |
| TcpServer.OneFrame | test-app/tcp-server/src/tcp_server.cpp:215-262 | one frame with the server as written, byte by byte: when it is taken, and for an end frame the dump that holds its payload alone among zeros |
| TcpServer.EachFrameOnItsOwn | test-app/tcp-server/src/tcp_server.cpp:215-262 | for any frames, the server as written stops at the first one that does not fit its own mapping, leaves its buffer if and only if that one's end wraps around 2^64 into the mapping, and has dumped and answered each end frame before it, its payload alone among zeros |
| TcpServer.SomeFrameEscapes | test-app/tcp-server/src/tcp_server.cpp:236 | a well-formed frame of one byte passes the range check of a mapping of one byte without lying in it |
| TcpServer.ConsumeFrames | test-app/tcp-server/src/tcp_server.cpp:205-251 | on the bytes of frames the server does what it does on the frames, and is then at a frame boundary |
| TcpServer.ConsumePartial | test-app/tcp-server/src/tcp_server.cpp:206-243 | a frame that has not arrived completely is neither dumped nor answered; its header decides as soon as it is there |
| ServerLoop.RecvInto | test-app/tcp-server/src/tcp_server.cpp:206-213 | however `recv` cuts the stream, the loop stores exactly the next n bytes in place, or reports that the peer has closed |
| ServerLoop.TcpServerState.HandleHeader | test-app/tcp-server/src/tcp_server.cpp:215-249 | allocation, refusal and the range check with 64-bit wrap-around, in place |
| ServerLoop.TcpServerState.Answer | test-app/tcp-server/src/tcp_server.cpp:146-154 | the connection carries one more reply, as its send loop delivered it; a failure is reported if and only if the loop was given up because `send` failed |
| ServerLoop.TcpServerState.ReceivePayload | test-app/tcp-server/src/tcp_server.cpp:233-243 | the payload arrives in its place, or the peer has closed |
| ServerLoop.TcpServerState.HandleEnd | test-app/tcp-server/src/tcp_server.cpp:253-262 | dump of mapping_len bytes, four-byte reply and release, in place; a reply that cannot be sent ends the connection |
| ServerLoop.TcpServerState.ServeFrame | test-app/tcp-server/src/tcp_server.cpp:203-263 | one round consumes exactly one frame of the stream and does what the specification does with it |
| ServerLoop.TcpServerState.ServeClient | test-app/tcp-server/src/tcp_server.cpp:199-270 | for every chunking of the stream and every behaviour of `send`, the dumps and replies are those of the specification on the whole stream, or those up to the reply that could not be sent, and the bytes sent back are the replies as their send loops deliver them |
| ServerLoop.WholeReplies | test-app/tcp-server/src/tcp_server.cpp:134-154 | when each first send takes all four bytes, the client gets the replies themselves |
| ServerLoop.Connection.SendTcp | test-app/tcp-server/src/tcp_server.cpp:134-144 | the loop ends; what it delivered is a sequence of prefixes of the buffer whose lengths reach its size with the last one |
| ServerLoop.CompleteTotal | test-app/tcp-server/src/tcp_server.cpp:134-144 | a completed send loop delivers at least size and less than 2 * size bytes |
| ServerLoop.SendExactWhenFirstIsFull | test-app/tcp-server/src/tcp_server.cpp:134-144 | it delivers every buffer correctly if and only if its first send takes the whole buffer |
| Reconstruction.TransferServed | test-app/tcp-server/src/tcp_server.cpp:119 | whatever fails in the kernel, if the end frame is sent then no frame is rejected, one dump of the announced length is written, one reply is sent, and the server is idle at a frame boundary |
| Reconstruction.DumpIsSeen | test-app/tcp-server/src/tcp_server.cpp:253-262 | for either server and whatever fails, the dump is the image of the cells seen: all that is carried, or what the last frame carries |
| Reconstruction.ReconstructionExact | custom_patches/0022-Modified-logic-so-we-can-reconstruct-the-sparse-memo.patch:4-5 | for either server and whatever fails, if the end frame is sent there is one dump, and it is the memory if and only if every page not seen reads as zero |
| Reconstruction.LostEndForgotten | test-app/tcp-server/src/tcp_server.cpp:260-262 | a transfer whose end frame is lost leaves the server as written as it was |
| Reconstruction.ReconstructionKept | custom_patches/0022-Modified-logic-so-we-can-reconstruct-the-sparse-memo.patch:4-5 | with the buffer kept and no failure, the dump is the image of the sendable pages for every pattern of pages, and is the memory if and only if every page not sent reads as zero |
| Reconstruction.ReconstructionUnderLosses | custom_patches/0024-Modified-mcheck-to-receive-response-from-server-afte.patch:70-114 | unless growing fails, and whichever flushes are lost: a server that keeps its buffer dumps exactly the runs whose flush found memory, the server as written exactly the run that reaches the end of the range |
| Reconstruction.ReconstructionAfterGrowthFailure | custom_patches/0025-Reinstated-support-for-eBPF.patch:133-148 | if growing fails at a page, whichever flushes are lost: a server that keeps its buffer dumps the runs before it and the page, each if its flush found memory; the server as written dumps that page alone, or nothing when a hole comes right behind it |
| Reconstruction.KeptUpToGrowthFailure | custom_patches/0025-Reinstated-support-for-eBPF.patch:133-148 | with no flush lost these are the sendable pages up to and including that page |
| Reconstruction.ReconstructionAsWritten | test-app/tcp-server/src/tcp_server.cpp:253-262 | unless growing fails, and whichever flushes before the last one are lost, the server as written dumps the run that reaches the end of the range and zeros elsewhere; the dump is the memory if and only if every page before that run reads as zero |
| Reconstruction.BpfExact | custom_patches/0025-Reinstated-support-for-eBPF.patch:273-284 | the single frame of a jited program is dumped exactly, by both servers |
| EndToEnd.SnapshotMapping | test-app/tcp-server/src/tcp_server.cpp:199-270 | the sender's walk and the server's loop composed, for every partial send, every chunking and every failure that leaves the end frame: one dump, of exactly the cells seen, equal to the memory if and only if every page not seen reads as zero; all page references given back |
| WxSnapshot.FilterDeniesWx | test-app/filter-wx/src/main.cpp:21-37 | the masked comparison matches a protection if and only if it asks for both writing and executing |
| WxRequests.HookSends | custom_patches/0026-Added-anon-names-and-second-arg-to-sent-items.patch:110-118 | a hook sends its range, in one entry that names the request, if and only if it is not for address 0 and asks for PROT_WRITE or PROT_EXEC; otherwise nothing changes and it returns -EINVAL or 0 |
| WxRequests.HookReturns | custom_patches/0025-Reinstated-support-for-eBPF.patch:245-257 | what a hook that sends returns: the value read, or 0 for an incomplete reply |
| WxRequests.HookDumps | test-app/tcp-server/src/tcp_server.cpp:253-258 | one dump for each end frame, which names the request |
| WxRequests.VerdictDecides | custom_patches/0001-added-custom-hooks-to-mmap-and-mprotect.patch:64-66 | with no reply outstanding, the rights of an area change if and only if the verdict on the round's own dump is 0 |
| WxSnapshot.HookLogs | custom_patches/0026-Added-anon-names-and-second-arg-to-sent-items.patch:110-118 | a hook that passes the guards adds one entry to what the sender carried, and one dump to the server's if its end frame goes out, and each is the image of the cells its observer sees |
| WxSnapshot.HookExact | custom_patches/0026-Added-anon-names-and-second-arg-to-sent-items.patch:110-118 | for either observer and either server and whatever fails (end frames only with the server as written), a page of the range is known as it is after a hook if and only if it is seen or reads as zero, and other pages as before |
| WxSnapshot.MmapExact | custom_patches/0004-moved-mmap-hook-so-it-is-called-AFTER-the-mapping-is.patch:30-32 | a mapping made before its hook runs, and kept whatever the hook returns, keeps every executable page known if and only if its own pages are |
| WxSnapshot.AreaExact | custom_patches/0001-added-custom-hooks-to-mmap-and-mprotect.patch:64-66 | one round of the mprotect loop, hook first and change second unless there is an error, keeps every executable page known if and only if those of the range that it leaves executable are |
| WxSnapshot.StepSafe | test-app/filter-wx/src/main.cpp:21-37 | mmap, mprotect, pkey_mprotect, store and munmap each keep: no page is both writable and executable |
| WxSnapshot.StepExact | test-app/filter-wx/src/main.cpp:21-37 | each of them keeps every executable page known as it is if and only if it satisfies its condition |
| WxSnapshot.NeverWritableAndExecutable | test-app/filter-wx/src/main.cpp:21-37 | in every state of every run, whatever fails, no page is both writable and executable |
| WxSnapshot.RunExact | test-app/filter-wx/src/main.cpp:21-37 | over whole runs, for what transfers carried and for what was dumped, by the server as written whatever fails and by one that keeps its buffer whatever fails short of an end frame: every executable page is known as it is in every state if and only if every action satisfies its condition |
| WxConditions.NoFailureKnown | custom_patches/0026-Added-anon-names-and-second-arg-to-sent-items.patch:110-118 | without a failure a hook makes its whole range known to the sender, and to a server that keeps its buffer |
| WxConditions.FreshKnown | custom_patches/0004-moved-mmap-hook-so-it-is-called-AFTER-the-mapping-is.patch:30-32 | a fresh mapping is known once it is logged, by either server and whatever else fails |
| WxConditions.SnapshotSoundness | test-app/filter-wx/src/main.cpp:21-37 | without failures, and unless page 0 is mapped executable, every executable page equals in every state of every run what the most recent transfer covering it carried, by any server, and the most recent dump of a server that keeps its buffer |
| WxConditions.MapPageZeroExact | custom_patches/0026-Added-anon-names-and-second-arg-to-sent-items.patch:115-116 | an executable mapping at page 0 is harmless if and only if the latest entries for its pages are all zeros |
| WxRequests.MmapPages | test-app/filter-wx/src/main.cpp:21-25 | a mapping the filter lets through has the rights asked for and reads as zero; any other request changes no page |
| WxRequests.ProtectPages | test-app/filter-wx/src/main.cpp:27-37 | a round changes nothing but the rights of its area, to those asked for, and only if the filter lets it through, the area is mapped and the hook returns 0 |
| WxRequests.AccessPages | custom_patches/0025-Reinstated-support-for-eBPF.patch:125-128 | reading brings in the zero page and changes nothing that can be read, writing changes the page written, unmapping the range unmapped |
| WxRequests.StepLink | test-app/filter-wx/src/main.cpp:21-37 | exactly the requests that the filter lets through, and of those the rounds for mapped areas, reach the connection |
| WxRequests.GainsAreLogged | custom_patches/0026-Added-anon-names-and-second-arg-to-sent-items.patch:115-118 | over whole runs: a page that an action makes writable or executable is in the sender's log as it was then, in every later state, unless the action is for page 0 or an allocation fails |
| WxRequests.LoopIsRun | custom_patches/0001-added-custom-hooks-to-mmap-and-mprotect.patch:60-70 | the loop of an mprotect over its areas is a run of rounds whose hooks return 0, up to the first one whose hook returns an error, to the first area not mapped, or to the end |
| WxRequests.ProtectAreasExact | custom_patches/0001-added-custom-hooks-to-mmap-and-mprotect.patch:60-70 | the rights change exactly on the areas before the failing round, and there is one entry for each round |
| WxConditions.PlanExists | custom_patches/0025-Reinstated-support-for-eBPF.patch:169-175 | every range of every address space has a walk and a reply that satisfy what the theorems assume of a hook that runs without a failure |
| WxConditions.AsWrittenPageExact | test-app/tcp-server/src/tcp_server.cpp:260-262 | with the server as written and whatever fails, the latest dump of a page of a hooked range is correct if and only if the end frame goes out and carries the page or the page reads as zero, or it does not go out and the latest dump was correct before |
| WxConditions.LastSeenAt | custom_patches/0025-Reinstated-support-for-eBPF.patch:114-166 | a page is in the payload of the end frame if and only if it lies in the last run, or growing failed at it and no hole follows |
| WxConditions.MapAsWritten | custom_patches/0004-moved-mmap-hook-so-it-is-called-AFTER-the-mapping-is.patch:30-32 | with the server as written a fresh executable mapping keeps everything known if and only if its end frame goes out or its pages are known to be zeros |
| WxConditions.AsWrittenRunExact | test-app/tcp-server/src/tcp_server.cpp:260-262 | with the server as written, over whole runs and whatever fails - growing, flushes, end frames: every executable page equals its latest dump in every state if and only if every mapping and every round satisfies these conditions |
| WxConditions.AsWrittenLosesPage | test-app/tcp-server/src/tcp_server.cpp:260-262 | there is a sound state and one round without a failure that leaves an executable page whose latest dump is wrong |
| WxConditions.GrowthFailureExact | custom_patches/0025-Reinstated-support-for-eBPF.patch:245-249 | after a growth failure the round changes no right, and the executable pages stay known if and only if those of the range are shown by the broken transfer or read as zero |
| WxConditions.VisibleIsClosed | custom_patches/0024-Modified-mcheck-to-receive-response-from-server-afte.patch:70-114 | what failures leave visible of a range to the sender, to a server that keeps its buffer and to the server as written, in closed form |
| Replies.ReadingKeepsStream | custom_patches/0013-Added-tcp-kernel-socket-to-the-LSM.patch:149-158 | after every round of the receive loop, bytes read followed by bytes queued are all bytes that arrived |
| Replies.ReturnsWhatArrived | custom_patches/0013-Added-tcp-kernel-socket-to-the-LSM.patch:149-160 | a call that returns has read everything that had arrived, and that was no more than it wanted |
| Replies.TooMuchIsForEver | custom_patches/0013-Added-tcp-kernel-socket-to-the-LSM.patch:158 | once more has arrived than is wanted the loop does not end any more |
| Replies.LoopEndsExactly | custom_patches/0013-Added-tcp-kernel-socket-to-the-LSM.patch:149-160 | for every queue, length and schedule: the loop ends after the first round that leaves nothing behind, interrupted or not, if and only if no more than wanted has arrived by then, and has then read exactly what has arrived |
| Replies.ReplySocket.TcpRecv | custom_patches/0013-Added-tcp-kernel-socket-to-the-LSM.patch:137-161 | for every schedule of arrivals and interruptions the loop ends when the specification says, with the bytes it says in the buffer and in the queue |
| Replies.ReplySocket.ReceiveReply | custom_patches/0024-Modified-mcheck-to-receive-response-from-server-afte.patch:54-64 | the global response becomes the four bytes of the buffer, of which an incomplete read has filled only some |
| Replies.ReplySocket.AwaitVerdict | custom_patches/0025-Reinstated-support-for-eBPF.patch:250-257 | 0 for an incomplete reply, and otherwise the negation of the four bytes read |
| Session.CallServed | test-app/tcp-server/src/tcp_server.cpp:146-154 | a call whose end frame goes out adds one reply, the verdict on its own dump; one whose end frame is lost adds none; the server stays idle |
| Session.ReadReply | custom_patches/0025-Reinstated-support-for-eBPF.patch:250-257 | the bytes read and the bytes left are those under way; four of them are the returned verdict, fewer a skipped one |
| Session.InterruptedReadSkips | custom_patches/0013-Added-tcp-kernel-socket-to-the-LSM.patch:151-152 | an interrupted read before anything has arrived returns 0 and leaves all that is under way |
| Session.EndHook | custom_patches/0025-Reinstated-support-for-eBPF.patch:250-257 | the receive loop, as the kernel runs it, returns what the specification says |
| Session.GrowthFailureReturns | custom_patches/0025-Reinstated-support-for-eBPF.patch:245-249 | a call returns -ENOMEM, and reads nothing, if and only if some entry finds the array full and gets no memory |
| Session.Lag | custom_patches/0025-Reinstated-support-for-eBPF.patch:245-257 | over any sequence of calls, the unread bytes are four for each growth failure and each incomplete read, less four for each lost end frame, less the bytes incomplete reads took, plus those the server sent twice |
| Session.TakenInOrder | custom_patches/0013-Added-tcp-kernel-socket-to-the-LSM.patch:149-160 | the calls read the server's replies in order, nothing left out and nothing twice, and how many bytes follows from the counts |
| Session.ReturnsNextBytes | custom_patches/0025-Reinstated-support-for-eBPF.patch:245-257 | every call returns -ENOMEM on a growth failure, 0 on an incomplete read, and otherwise the negation of the four bytes behind those read before, also across the border of two replies |
| Session.ReturnsLaggingAnswer | custom_patches/0025-Reinstated-support-for-eBPF.patch:245-257 | with whole replies, the reply read is the one whose number is that of the calls before less their growth failures and interrupted reads: its own if and only if these are as many as the lost end frames |
| Session.ReplyMatching | custom_patches/0025-Reinstated-support-for-eBPF.patch:250-257 | with whole replies and neither growth failures nor interrupted reads nor lost end frames so far, the n-th call returns the negated answer to the n-th end frame, and nothing is left unread |
| Session.StaleVerdict | custom_patches/0025-Reinstated-support-for-eBPF.patch:250-257 | for any two answered calls there is a session in which an interrupted read makes the first return 0 and the second return the verdict on the first |
| Session.HangsExactly | custom_patches/0013-Added-tcp-kernel-socket-to-the-LSM.patch:149-158 | without interruptions the receive loop can fail to end if and only if no byte is under way, or more than four are |
| Session.HangsExactlyInCounts | custom_patches/0025-Reinstated-support-for-eBPF.patch:245-257 | with whole replies, the next call can hang if and only if it grows its array and the number of growth failures and interrupted reads before it, plus one if its own end frame goes out, is not one more than that of lost end frames |
| Handshake.HookKeepsInv | custom_patches/0006-added-mprotect-check-function-using-physical-mem-pag.patch:90-131 | every step of the hook keeps the invariant of the three actors |
| Handshake.ThreadKeepsInv | custom_patches/0006-added-mprotect-check-function-using-physical-mem-pag.patch:39-87 | every step of the kernel thread keeps it |
| Handshake.AnalyzerKeepsInv | test-app/analyzer.c:117-152 | every step of the analyzer, one reply for one notification, keeps it |
| Handshake.RunKeepsInv | custom_patches/0006-added-mprotect-check-function-using-physical-mem-pag.patch:39-131 | every state of every interleaving satisfies the invariant |
| Handshake.HandshakeSafe | custom_patches/0006-added-mprotect-check-function-using-physical-mem-pag.patch:39-131 | in every state of every interleaving: no unmapping before the reply, no freed record in reach of the thread, `analyzer_munmap_ready` initialised before it can be completed and its completion still there to be consumed |
| Handshake.ReturnsOwnVerdict | custom_patches/0006-added-mprotect-check-function-using-physical-mem-pag.patch:129-131 | a hook returns the negated verdict of its own request, or 0 when it did not ask |
| Handshake.RunTells | custom_patches/0006-added-mprotect-check-function-using-physical-mem-pag.patch:90-131 | in every state of every interleaving, what the thread and the hook have done so far goes with where they stand |
| Handshake.AsksExactly | custom_patches/0009-added-jited-bpf-mapping.patch:28-40 | over whole runs, from the actions alone: a hook has notified the analyzer exactly once if the range was mapped, and for bpf copied, and for mprotect remapped, and not at all otherwise; it returns the negated verdict on its own request, or 0 |
| Handshake.EveryStepCounts | custom_patches/0006-added-mprotect-check-function-using-physical-mem-pag.patch:39-131 | whichever actor moves, the number of steps the request can still take goes down |
| Handshake.RequestsAreShort | custom_patches/0006-added-mprotect-check-function-using-physical-mem-pag.patch:39-131 | under every schedule a request takes at most as many steps as its rank says |
| Handshake.StuckExactlyWhenLost | custom_patches/0006-added-mprotect-check-function-using-physical-mem-pag.patch:109-125 | a reachable state is stuck if and only if the notification was lost and hook and thread wait for its answer |
| Registration.RegistrationFirst | custom_patches/0005-register-analyzer-process-via-netlink-message-map-in.patch:113-134 | the first value naming a running task registers; exactly the later ones are replies, each signalled once, and the last is the response |
| Registration.NoRegistration | custom_patches/0005-register-analyzer-process-via-netlink-message-map-in.patch:118-127 | without such a value no message has any effect |
| Registration.Receiver.LsmReceiveReply | custom_patches/0005-register-analyzer-process-via-netlink-message-map-in.patch:110-134 | one message, in place, with its error cases |
| PerfRing.AfterWriteIs | custom_patches/0010-added-instrument-functions-for-performance-testing.patch:142-145 | a write keeps everything when the ring stays short of full, loses as many of the oldest bytes as it writes when it fills the ring exactly, and loses the oldest S bytes when it overfills it |
| PerfRing.WriteLaw | custom_patches/0010-added-instrument-functions-for-performance-testing.patch:123-148 | with capacity S, q bytes held and at most S written (d bytes), a write leaves the last (q + d) mod S bytes of the unread stream, or the last S - d when q + d = S |
| PerfRing.Ring.CopyIn | custom_patches/0010-added-instrument-functions-for-performance-testing.patch:126-140 | both copy shapes fill exactly the places behind the head, around the end of the buffer |
| PerfRing.Ring.Write | custom_patches/0010-added-instrument-functions-for-performance-testing.patch:123-148 | with q unread and d written: q + d when that is shorter than the ring, without its first bytes - as many as d has - when it is as long, and without its first S bytes when it is longer |
| PerfRing.Ring.Read | custom_patches/0010-added-instrument-functions-for-performance-testing.patch:77-121 | hands out the oldest min(len, held) bytes and removes them, or changes nothing, which happens exactly when the first copy fails or the range wraps around and the second one fails |
| PerfRing.DeliveryInOrder | custom_patches/0010-added-instrument-functions-for-performance-testing.patch:77-148 | over any interleaving, delivered bytes stand at strictly increasing positions of the written stream, and unread ones at its end |
| PerfRing.LossIsShort | custom_patches/0010-added-instrument-functions-for-performance-testing.patch:142-145 | delivered and held bytes are never more than were written, and as many if and only if no write filled the ring |
| PerfRing.LosslessExactly | custom_patches/0010-added-instrument-functions-for-performance-testing.patch:77-148 | bytes read followed by bytes held equal all bytes written if and only if every write left the ring short of full |
| ArgText.TokensExact | custom_patches/0026-Added-anon-names-and-second-arg-to-sent-items.patch:154-165 | the tokens of an area are the only NUL-free pieces that spell it with a NUL between any two |
| ArgText.SkipToken | custom_patches/0026-Added-anon-names-and-second-arg-to-sent-items.patch:154-159 | the first loop stops at the first NUL, or at the end |
| ArgText.CopyToken | custom_patches/0026-Added-anon-names-and-second-arg-to-sent-items.patch:161-172 | the second loop copies the token, cut to 127 bytes, into a field that stays zero behind it |
| ArgText.SecondArgument | custom_patches/0026-Added-anon-names-and-second-arg-to-sent-items.patch:139-180 | the field holds the second token of the first min(arg_len, 1023) bytes, cut to 127 bytes and NUL-padded, and is empty when there is none or the copy fails |
| ArgText.SecondArgTextExact | custom_patches/0026-Added-anon-names-and-second-arg-to-sent-items.patch:139-177 | for every area: what follows the first NUL of what is looked at, up to the next NUL or the end, cut to 127 bytes; nothing without a NUL, or when the copy fails |
| ArgText.SecondArgumentWhole | custom_patches/0026-Added-anon-names-and-second-arg-to-sent-items.patch:139-177 | the field always holds a prefix of the second argument, and all of it if and only if it has at most 127 bytes and ends within the first 1023 |
| ArgText.SanitizeFilename | test-app/tcp-server/src/tcp_server.cpp:42-52 | in place: the text with '@' dropped and '/' turned into '_', terminated, and nothing behind the terminator changed |
| ArgText.SanitizedParts | test-app/tcp-server/src/tcp_server.cpp:42-52 | character by character: '@' goes, '/' becomes '_', every other one stays |
| ArgText.SanitizedIdempotent | test-app/tcp-server/src/tcp_server.cpp:42-52 | a text is left alone if and only if it has neither character; doing it twice is doing it once |
| ArgText.TerminatedFieldHasRoom | test-app/tcp-server/src/tcp_server.cpp:60-86 | a field terminated in its last byte has room for the terminator written |
| ArgText.SafeComponent | test-app/tcp-server/src/tcp_server.cpp:60-86 | copy, terminate, sanitise, fall back: the path component for a field |
| ArgText.ComponentExact | test-app/tcp-server/src/tcp_server.cpp:60-86 | the component for every field: its last byte does not count, its text ends at the first NUL before that, and the fallback stands in for nothing |
| ArgText.ArgumentDirectory | test-app/tcp-server/src/tcp_server.cpp:69-76 | from the argument area to the directory name: the sanitised second argument or the fallback, never empty and without '/', '@' or NUL |
| LinearHash.StepIsBijective | test-app/analyzer.c:84-87 | for each byte, xor with its sign extension and the odd multiplication modulo 2^32 is a bijection on states |
| LinearHash.CommonEnding | test-app/analyzer.c:84-87 | two buffers with a common ending hash alike if and only if what is before it does |
| LinearHash.OneByteDiffers | test-app/analyzer.c:80-93 | buffers of equal length that differ in exactly one byte hash differently |
| LinearHash.AnalyzeLinear | test-app/analyzer.c:80-93 | the loop returns 1 if and only if the hash of the whole buffer is the flagged one |
| LinearHash.KnownHashes | test-app/analyzer.c:80-87 | the hash of nothing, of one ASCII byte and of one byte whose sign is extended |

## Left out

- Socket setup and teardown, netlink attribute building, device registration, logging and timing: no logic to prove.
- Kernel internals: lookup of areas, page tables, `vmap`, completions and kernel threads appear as events, outcomes and counters; ranges are page-aligned and memory is anonymous and never swapped, remapped or advised away.
- WxSnapshot.RunExact: a page the process has only read is the zero page; assumes mappings the server can take in, a connected socket and a single-threaded target process without `mremap`, fork or READ_IMPLIES_EXEC; a hook call that hangs has no next state.
- Session.Proper: a server that keeps its buffer is only given transfers whose end frame goes out, because the repository does not say what such a server does with the buffer otherwise; for the server as written lost end frames are covered.
- Session.ReturnsLaggingAnswer: is about replies sent and read whole; for replies delivered in pieces, read in parts or sent twice, ReturnsNextBytes says which four bytes are returned.
- Results of `sendmsg` and `recvmsg` below zero other than a retry: they are compared as unsigned numbers there, so the error branches cannot be taken.
- Sockets.KernelSocket.TcpSend: retries are finite; with endless retries the loop does not end.
- Session.Reply: the send loop for a reply is complete; one that is given up is followed to the connection, as ServeClient says, but not into later calls, and a call on a closed connection is not part of this model.
- The server's `mmap` is granted up to a size limit; where its C++ code would leave its buffer the model stops with the status `Undefined`, which no transfer reaches.
- The server's verdict is a parameter, because `analyze_nop` answers zero to everything.
- Several hooks at once over the shared completions or the shared socket, and the early returns of the netlink hooks that skip `mmput` or `kfree`: one hook is in flight, on a path that completes.
- Handshake.HandshakeSafe: `vm_mmap` yields 0 or a mapping, because that is all the code distinguishes; pinning and remapping pages is one step that succeeds or fails.
- PerfRing.Ring.Write: writes are no longer than the buffer, which the code relies on; the spin lock is not modelled, as reads and writes are whole steps.
- The remaining guards of the TCP path - the name of the process, the connection, file-backed areas - and the name and anonymous-name fields, which are copied as they are.
- Dump file names beyond the sanitised components, compression and the counter in the name.
- The YARA, Authenticode and TLSH analyses, which are outside the repository; the dispatch in `analyzer.c` that would select the linear hash is disabled there.
- Build files, configurations, plotting and data-set scripts, and `match_yara.py`: no hard properties.
