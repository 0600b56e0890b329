/**
 The kernel's end of the netlink family: the first message that names a running task registers the analyzer, and
 every later one is a reply, which sets the response and signals the waiting hook.
 */
module Registration {
  import opened Basics
  import opened Bytes

  const EINVAL: int := 22

  /** `analyzer_task`, `analyzer_response`, and how often `analyzer_ready` has been completed. */
  datatype Registry = Registry(analyzer: Option<u32>, response: u32, completed: nat)

  const UNREGISTERED := Registry(None, 0, 0)

  /** A message carries a value, or lacks the attribute for it. */
  type Message = Option<u32>

  function Receive(r: Registry, msg: Message, running: u32 -> bool): Registry
  {
    if msg.None? then r
    else if r.analyzer.Some? then r.(response := msg.value, completed := r.completed + 1)
    else if running(msg.value) then r.(analyzer := msg)
    else r
  }

  function ReceiveAll(msgs: seq<Message>, running: u32 -> bool): Registry
  {
    if msgs == [] then UNREGISTERED else Receive(ReceiveAll(msgs[..|msgs| - 1], running), msgs[|msgs| - 1], running)
  }

  /** The values the messages carry. */
  function Values(msgs: seq<Message>): (vs: seq<u32>)
  {
    if msgs == [] then []
    else Values(msgs[..|msgs| - 1]) + match msgs[|msgs| - 1] case Some(v) => [v] case None => []
  }

  /** Where the registration stands among the values, if there is one. */
  predicate RegistersAt(vs: seq<u32>, running: u32 -> bool, k: nat)
  {
    k < |vs| && running(vs[k]) && forall j :: 0 <= j < k ==> !running(vs[j])
  }

  /** Exactly the values behind the registration are replies: each is signalled, and the last one is the response. */
  lemma {:induction false} RegistrationFirst(msgs: seq<Message>, running: u32 -> bool, k: nat)
    requires RegistersAt(Values(msgs), running, k)
    ensures var vs := Values(msgs);
            ReceiveAll(msgs, running)
            == Registry(Some(vs[k]), if k + 1 < |vs| then vs[|vs| - 1] else 0, |vs| - k - 1)
  {
    var before, vs := msgs[..|msgs| - 1], Values(msgs);
    assert Values(before) <= vs;
    if k < |Values(before)| {
      assert forall j :: 0 <= j < k ==> Values(before)[j] == vs[j];
      assert RegistersAt(Values(before), running, k);
      RegistrationFirst(before, running, k);
    } else {
      assert Values(before) == vs[..k];
      NoRegistration(before, running);
    }
  }

  /** Without a value that names a running task nothing happens at all. */
  lemma {:induction false} NoRegistration(msgs: seq<Message>, running: u32 -> bool)
    requires forall j :: 0 <= j < |Values(msgs)| ==> !running(Values(msgs)[j])
    ensures ReceiveAll(msgs, running) == UNREGISTERED
  {
    if msgs != [] {
      var before := msgs[..|msgs| - 1];
      assert forall j :: 0 <= j < |Values(before)| ==> Values(before)[j] == Values(msgs)[j];
      NoRegistration(before, running);
      assert msgs[|msgs| - 1].Some? ==> Values(msgs)[|Values(before)|] == msgs[|msgs| - 1].value;
    }
  }

  class Receiver {
    var analyzer: Option<u32>
    var response: u32
    var completed: nat

    function View(): Registry
      reads this
    {
      Registry(analyzer, response, completed)
    }

    constructor ()
      ensures View() == UNREGISTERED
    {
      analyzer, response, completed := None, 0, 0;
    }

    /** `lsm_receive_reply`; `running` is what `find_task_by_vpid` knows. */
    method LsmReceiveReply(msg: Message, running: u32 -> bool) returns (ret: int)
      modifies this
      ensures View() == Receive(old(View()), msg, running)
      ensures ret == if msg.None? || (old(analyzer).None? && !running(msg.value)) then -22 else 0
    {
      if msg.None? {
        return -EINVAL;
      }
      if analyzer.None? {
        if !running(msg.value) {
          return -EINVAL;
        }
        analyzer := msg;
        return 0;
      }
      response := msg.value;
      completed := completed + 1;
      ret := 0;
    }
  }
}
