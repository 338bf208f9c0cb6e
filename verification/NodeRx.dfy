/** The receiving thread of src/node.c: what it does with a socket that has become readable. */
module NodeRx {
  import opened Greybus
  import opened Transport

  /** Pass the message on to the AP, or report that the node's module is gone. */
  datatype Action = Forward(cport: U16, message: Message) | ReportRemoval

  /** gb_message_receive sets the flag only when a read comes up short; nothing clears it in between. */
  function FlagAfterOne(flag: bool, r: Reception): bool {
    if r.Broken? then r.closed else flag
  }

  function ActionOn(flag: bool, r: Reception): Action {
    if r.Received? && !flag then Forward(r.cport, r.message) else ReportRemoval
  }

  /** The flag after a sequence of receptions, from any sockets. */
  function FlagAfter(flag: bool, log: seq<Reception>): bool {
    if log == [] then flag else FlagAfterOne(FlagAfter(flag, log[..|log| - 1]), log[|log| - 1])
  }

  function Actions(flag: bool, log: seq<Reception>): (actions: seq<Action>)
    ensures |actions| == |log|
  {
    if log == [] then []
    else
      var n := |log| - 1;
      Actions(flag, log[..n]) + [ActionOn(FlagAfter(flag, log[..n]), log[n])]
  }

  lemma ActionsSnoc(log: seq<Reception>, r: Reception)
    ensures FlagAfter(false, log + [r]) == FlagAfterOne(FlagAfter(false, log), r)
    ensures Actions(false, log + [r]) == Actions(false, log) + [ActionOn(FlagAfter(false, log), r)]
  {
    assert (log + [r])[..|log|] == log;
  }

  class RxThread {
    var flag: bool
    var actions: seq<Action>
    ghost var log: seq<Reception>

    ghost predicate Valid()
      reads this
    {
      flag == FlagAfter(false, log) && actions == Actions(false, log)
    }

    constructor ()
      ensures Valid() && log == []
    {
      flag := false;
      actions := [];
      log := [];
    }

    /** The POLLIN branch for a socket whose node is in the cache; r is what has been received. */
    method HandleReadable(socket: Socket, heapHasRoom: bool) returns (ghost r: Reception)
      requires Valid()
      modifies this, socket`incoming, socket`recvPlan
      ensures Valid() && log == old(log) + [r]
      ensures r.Received? ==> Parse(old(socket.incoming)) == Whole(r.cport, r.message, socket.incoming)
      ensures r == Broken(true) ==>
        socket.incoming == []
        && (Parse(old(socket.incoming)).NoHeader? || Parse(old(socket.incoming)).NoPayload?)
      ensures Steady(old(socket.recvPlan), CallsFor(old(socket.incoming))) ==>
        r == Due(Parse(old(socket.incoming)), heapHasRoom)
    {
      hide Parse, CallsFor, Due, Steady, FlagAfter, Actions;
      var received := socket.MessageReceive(heapHasRoom, 0);
      ActionsSnoc(log, received);
      if received.Broken? {
        flag := received.closed;
      }
      if flag || !received.Received? {
        actions := actions + [ReportRemoval];
      } else {
        actions := actions + [Forward(received.cport, received.message)];
      }
      log := log + [received];
      r := received;
    }
  }

  // ----- The flag outlives the socket it was set for

  /** The last short read before position n met the end of a stream. */
  predicate ClosedBefore(log: seq<Reception>, n: nat)
    requires n <= |log|
  {
    exists i :: 0 <= i < n && log[i] == Broken(true) && forall k :: i < k < n ==> !log[k].Broken?
  }

  lemma {:induction false} FlagIffClosed(log: seq<Reception>, n: nat)
    requires n <= |log|
    ensures FlagAfter(false, log[..n]) <==> ClosedBefore(log, n)
  {
    if n > 0 {
      FlagIffClosed(log, n - 1);
      assert log[..n][..n - 1] == log[..n - 1];
      if ClosedBefore(log, n) {
        var i :| 0 <= i < n && log[i] == Broken(true) && forall k :: i < k < n ==> !log[k].Broken?;
        assert i < n - 1 ==> ClosedBefore(log, n - 1);
      }
      if log[n - 1] == Broken(true) {
        assert ClosedBefore(log, n);
      } else if !log[n - 1].Broken? && ClosedBefore(log, n - 1) {
        var i :| 0 <= i < n - 1 && log[i] == Broken(true) && forall k :: i < k < n - 1 ==> !log[k].Broken?;
        assert ClosedBefore(log, n);
      }
    }
  }

  lemma {:induction false} ActionAt(flag: bool, log: seq<Reception>, i: nat)
    requires i < |log|
    ensures Actions(flag, log)[i] == ActionOn(FlagAfter(flag, log[..i]), log[i])
  {
    var n := |log| - 1;
    if i < n {
      ActionAt(flag, log[..n], i);
      assert log[..n][..i] == log[..i];
    }
  }

  /** A message received in full is passed on if and only if no socket has been closed by its peer
      since the last short read that was an error. */
  lemma ForwardedIffNotClosed(log: seq<Reception>, i: nat)
    requires i < |log| && log[i].Received?
    ensures Actions(false, log)[i] == Forward(log[i].cport, log[i].message) <==> !ClosedBefore(log, i)
  {
    ActionAt(false, log, i);
    FlagIffClosed(log, i);
  }

  lemma {:induction false} AsReceivedAt(out: seq<Outgoing>)
    ensures |AsReceived(out)| == |out|
    ensures forall i :: 0 <= i < |out| ==> AsReceived(out)[i] == Received(out[i].cport, out[i].message)
    decreases |out|
  {
    if out != [] {
      AsReceivedAt(out[1..]);
    }
  }

  /** Whatever else comes out of a read that fails is reported as a removal. */
  lemma NoMessageReported(log: seq<Reception>, i: nat)
    requires i < |log| && !log[i].Received?
    ensures Actions(false, log)[i] == ReportRemoval
  {
    ActionAt(false, log, i);
  }

  /** So one closed connection silences the others: of the messages the other nodes send afterwards,
      none reaches the AP, and each has its node's module reported as removed. */
  lemma ClosedPeerSilencesOthers(before: seq<Reception>, out: seq<Outgoing>, i: nat)
    requires i < |out|
    ensures
      var log := before + [Broken(true)] + AsReceived(out);
      && |log| == |before| + 1 + |out|
      && log[|before| + 1 + i] == Received(out[i].cport, out[i].message)
      && Actions(false, log)[|before| + 1 + i] == ReportRemoval
  {
    hide AsReceived, Actions, FlagAfter;
    var log := before + [Broken(true)] + AsReceived(out);
    var n := |before| + 1 + i;
    AsReceivedAt(out);
    assert log[|before|] == Broken(true) && log[n] == AsReceived(out)[i];
    assert forall k :: |before| < k < n ==> log[k] == AsReceived(out)[k - |before| - 1];
    assert ClosedBefore(log, n);
    ActionAt(false, log, n);
    FlagIffClosed(log, n);
  }
}
