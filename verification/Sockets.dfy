/**
 The kernel's TCP socket and the send loop around it.

 How much one `sendmsg` takes is the environment's choice: the body of `SendMsg` chooses it nondeterministically,
 so whatever is proved of its callers holds for every choice.
 */
module Sockets {
  import opened Bytes

  const EAGAIN: int := 11

  class KernelSocket {
    /** Everything the peer will receive, in order. */
    var sent: seq<byte>
    /** How often `sendmsg` may still ask to be called again; finite, but otherwise arbitrary. */
    var retries: nat

    constructor (retries: nat)
      ensures sent == [] && this.retries == retries
    {
      sent := [];
      this.retries := retries;
    }

    /** `kernel_sendmsg`: asks for a retry, or takes a non-empty prefix (nothing when there is nothing). */
    method SendMsg(base: seq<byte>) returns (wb: int)
      modifies this
      ensures wb == -EAGAIN ==> sent == old(sent) && retries < old(retries)
      ensures wb != -EAGAIN ==>
                && 0 <= wb <= |base| && (base != [] ==> wb > 0)
                && sent == old(sent) + base[..wb] && retries == old(retries)
    {
      if * {
        if retries > 0 {
          retries := retries - 1;
          return -EAGAIN;
        }
      }
      wb :| 0 <= wb <= |base| && (base != [] ==> wb > 0) by {
        assert 0 <= |base| <= |base|;
      }
      sent := sent + base[..wb];
    }

    /** `_tcp_send`: terminates with exactly the buffer delivered, whatever the pieces and retries were. */
    method TcpSend(buf: seq<byte>) returns (len: nat)
      modifies this
      ensures sent == old(sent) + buf
      ensures len == |buf|
    {
      var base := buf;
      var again := true;
      while again
        invariant sent + base == old(sent) + buf
        invariant !again ==> base == []
        decreases again, |base|, retries
      {
        var wb := SendMsg(base);
        if wb != -EAGAIN {
          assert base == base[..wb] + base[wb..];
          base := base[wb..];
        }
        again := base != [];
      }
      len := |buf|;
    }

    /** `lsm_send_to_userspace_tcp`: refuses an empty buffer. */
    method Send(buf: seq<byte>) returns (ret: int)
      modifies this
      ensures sent == old(sent) + buf
      ensures ret == if buf == [] then -22 else |buf|
    {
      if buf == [] {
        return -22;
      }
      ret := TcpSend(buf);
    }
  }
}
