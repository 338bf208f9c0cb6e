/** The host at one end of the UART and the SVC at the other: requests go in as HDLC frames, and replies
    come out as HDLC frames, with everything in between. */
module Gateway {
  import opened Greybus
  import opened Hdlc
  import opened HdlcReference
  import opened GreybusHdlc
  import opened ApBridge
  import opened Svc
  import opened SvcTraces
  import opened Sequences

  const SVC_SLOT := Slot(Pointer.Svc, 0, SVC_ID)

  // ----- From submissions to the SVC

  /** The nodes there are when a message arrives, and what opening a connection to one would return. */
  datatype World = World(nodes: map<nat, nat>, outcome: int)

  function InputOf(m: Message, w: World): Input {
    Input(m, w.nodes, w.outcome)
  }

  /** connection_send from the AP, on an occupied AP cport, with a payload the SVC can read. */
  predicate Deliverable(s: SvcState, submission: Submission, w: World) {
    && submission.Submitted? && submission.cport < |s.routes| && !s.routes[submission.cport].intf.Null?
    && (s.routes[submission.cport] == SVC_SLOT ==> InputOf(submission.message, w).Complete())
  }

  /** What a submitted message does to the SVC: one for another interface, or for another SVC cport,
      does nothing to it. */
  function Deliver(s: SvcState, submission: Submission, w: World): SvcState
    requires Deliverable(s, submission, w)
  {
    if s.routes[submission.cport] == SVC_SLOT then Handle(s, InputOf(submission.message, w)) else s
  }

  predicate AllDeliverable(s: SvcState, submissions: seq<Submission>, worlds: seq<World>)
    requires |submissions| == |worlds|
    decreases |submissions|
  {
    submissions == [] ||
    (Deliverable(s, submissions[0], worlds[0])
     && AllDeliverable(Deliver(s, submissions[0], worlds[0]), submissions[1..], worlds[1..]))
  }

  function DeliverAll(s: SvcState, submissions: seq<Submission>, worlds: seq<World>): SvcState
    requires |submissions| == |worlds| && AllDeliverable(s, submissions, worlds)
    decreases |submissions|
  {
    if submissions == [] then s
    else DeliverAll(Deliver(s, submissions[0], worlds[0]), submissions[1..], worlds[1..])
  }

  /** Every message finds AP cport 0 connected to the SVC. */
  predicate Served(s: SvcState, inputs: seq<Input>)
    requires AllComplete(inputs)
    decreases |inputs|
  {
    inputs == [] ||
    (|s.routes| > 0 && s.routes[0] == SVC_SLOT && Served(Handle(s, inputs[0]), inputs[1..]))
  }

  function Worlds(inputs: seq<Input>): (worlds: seq<World>)
    ensures |worlds| == |inputs|
  {
    if inputs == [] then [] else [World(inputs[0].nodes, inputs[0].outcome)] + Worlds(inputs[1..])
  }

  /** The messages as the host sends them on AP cport 0, whatever the pad bytes hold. */
  predicate Asks(out: seq<Outgoing>, inputs: seq<Input>) {
    |out| == |inputs| && forall i :: 0 <= i < |out| ==> out[i].cport == 0 && out[i].message == inputs[i].message
  }

  lemma {:induction false} ServedDelivered(s: SvcState, out: seq<Outgoing>, inputs: seq<Input>)
    requires AllComplete(inputs) && Served(s, inputs) && Asks(out, inputs)
    ensures |AsSubmitted(out)| == |out| && AllDeliverable(s, AsSubmitted(out), Worlds(inputs))
    ensures DeliverAll(s, AsSubmitted(out), Worlds(inputs)) == HandleAll(s, inputs)
    decreases |inputs|
  {
    if inputs != [] {
      hide Handle, Input.Complete;
      var first := inputs[0];
      assert InputOf(first.message, World(first.nodes, first.outcome)) == first;
      ServedDelivered(Handle(s, first), out[1..], inputs[1..]);
      assert AsSubmitted(out)[1..] == AsSubmitted(out[1..]);
      assert Worlds(inputs)[1..] == Worlds(inputs[1..]);
    }
  }

  lemma {:induction false} ServedNotDiverted(s: SvcState, inputs: seq<Input>)
    requires AllComplete(inputs) && Served(s, inputs)
    ensures NoneDivert(s, inputs)
    decreases |inputs|
  {
    if inputs != [] {
      hide Handle;
      ServedNotDiverted(Handle(s, inputs[0]), inputs[1..]);
    }
  }

  // ----- Replies on the wire

  /** The Greybus submissions among the frames received, however the bytes are cut. */
  function Heard(max: BlockSize, chunks: seq<seq<bv8>>): seq<Submission> {
    Submissions(ReceiveChunks(max, INITIAL_RECEIVER, chunks).delivered)
  }

  /** Replies have at most six bytes of payload. */
  predicate Small(m: Message) {
    m.WellSized() && m.size <= HEADER_SIZE + 6
  }

  predicate AllSmall(sent: seq<Sent>) {
    forall x :: x in sent ==> Small(x.message)
  }

  lemma SendsSmall(s: SvcState, m: Message)
    requires Small(m)
    ensures s.sent <= SendToAp(s, m).sent && AllSmall(SendToAp(s, m).sent[|s.sent|..])
  {
    hide ToApCport, Small;
  }

  lemma ResponseSmall(request: Message, payload: seq<bv8>, status: bv8)
    requires |payload| <= 6
    ensures Small(ResponseTo(request, payload, status))
  {
  }

  lemma HandleSmall(s: SvcState, input: Input)
    requires input.Complete()
    ensures s.sent <= Handle(s, input).sent && AllSmall(Handle(s, input).sent[|s.sent|..])
  {
    hide SendToAp, ToApCport, Create, Destroy, ResponseTo, Alloc, AllSmall, Small, FromLe16, ReadyAfterDestroy,
      ReplyPayload;
    var m := input.message;
    if input.IsCreate() {
      var (routes, status) := Create(Environment(s.ready, input.nodes), s.routes, input.Connection(), input.outcome);
      ResponseSmall(m, [], 0x01);
      ResponseSmall(m, [], 0x00);
      SendsSmall(s, ResponseTo(m, [], 0x01));
      SendsSmall(s.(routes := routes), ResponseTo(m, [], if status == Success then 0x00 else 0x01));
    } else if input.IsDestroy() {
      var (routes, status) := ApBridge.Destroy(s.routes, input.Connection());
      var ready := ReadyAfterDestroy(Environment(s.ready, input.nodes), input.Connection());
      ResponseSmall(m, [], 0x01);
      ResponseSmall(m, [], 0x00);
      SendsSmall(s.(routes := routes, ready := ready), ResponseTo(m, [], if status == Success then 0x00 else 0x01));
    } else if Supported(m.messageType) {
      ReplySmall(m);
      ResponseSmall(m, ReplyPayload(m), 0x00);
      SendsSmall(s, ResponseTo(m, ReplyPayload(m), 0x00));
    } else if m.messageType == 0x81 {
      HelloSmall(s.nextOperation);
      SendsSmall(s.(nextOperation := AfterOperation(s.nextOperation)),
        Alloc([0x55, 0x47, 0x01], 0x02, s.nextOperation, 0));
    } else {
      NoneSmall();
      assert s.sent[|s.sent|..] == [];
    }
  }

  lemma ReplySmall(m: Message)
    requires m.messageType == 0x10 ==> |m.payload| >= 8
    ensures |ReplyPayload(m)| <= 6
  {
  }

  lemma HelloSmall(id: U16)
    ensures Small(Alloc([0x55, 0x47, 0x01], 0x02, id, 0))
  {
  }

  lemma NoneSmall()
    ensures AllSmall([])
  {
  }

  lemma SmallAppend(a: seq<Sent>, b: seq<Sent>, c: seq<Sent>)
    requires a <= b <= c && AllSmall(b[|a|..]) && AllSmall(c[|b|..])
    ensures a <= c && AllSmall(c[|a|..])
  {
    assert c[|a|..] == b[|a|..] + c[|b|..];
  }

  lemma {:induction false} RunSmall(s: SvcState, inputs: seq<Input>)
    requires AllComplete(inputs)
    ensures s.sent <= HandleAll(s, inputs).sent && AllSmall(HandleAll(s, inputs).sent[|s.sent|..])
    decreases |inputs|
  {
    hide Handle, AllSmall, Input.Complete;
    if inputs == [] {
      NoneSmall();
      assert s.sent[|s.sent|..] == [];
    } else {
      assert inputs[0].Complete();
      HandleSmall(s, inputs[0]);
      RunSmall(Handle(s, inputs[0]), inputs[1..]);
      SmallAppend(s.sent, Handle(s, inputs[0]).sent, HandleAll(s, inputs).sent);
    }
  }

  /** What the SVC sends in answer to the messages. */
  function SentFor(s: SvcState, inputs: seq<Input>): seq<Sent>
    requires AllComplete(inputs)
  {
    RunSmall(s, inputs);
    HandleAll(s, inputs).sent[|s.sent|..]
  }

  /** The frames carry these messages, whatever their pad bytes hold. */
  predicate Carries(out: seq<Outgoing>, sent: seq<Sent>) {
    |out| == |sent| &&
    forall i :: 0 <= i < |out| ==> out[i].cport == sent[i].apCport && out[i].message == sent[i].message
  }

  function HeadersOf(submissions: seq<Submission>): seq<Header> {
    if submissions == [] then []
    else
      var n := |submissions| - 1;
      HeadersOf(submissions[..n]) +
      if submissions[n].Submitted? then
        [Header(submissions[n].cport, submissions[n].message.messageType, submissions[n].message.operationId)]
      else
        []
  }

  lemma {:induction false} SubmittedLength(out: seq<Outgoing>)
    ensures |AsSubmitted(out)| == |out|
    decreases |out|
  {
    if out != [] {
      SubmittedLength(out[1..]);
    }
  }

  lemma {:induction false} SubmittedAt(out: seq<Outgoing>, i: nat)
    requires i < |out| == |AsSubmitted(out)|
    ensures AsSubmitted(out)[i] == Submitted(out[i].cport, out[i].message)
    decreases |out|
  {
    if i > 0 {
      SubmittedAt(out[1..], i - 1);
    }
  }

  lemma {:induction false} HeadersCarried(submissions: seq<Submission>, sent: seq<Sent>)
    requires |submissions| == |sent|
    requires forall i :: 0 <= i < |sent| ==>
      var x := submissions[i];
      x.Submitted? && x.cport == sent[i].apCport && x.message == sent[i].message
    ensures HeadersOf(submissions) == Headers(sent)
  {
    if sent != [] {
      var n := |sent| - 1;
      HeadersCarried(submissions[..n], sent[..n]);
    }
  }

  lemma {:induction false} HeadersSplit(a: seq<Sent>, b: seq<Sent>)
    ensures Headers(a + b) == Headers(a) + Headers(b)
    decreases |b|
  {
    if b == [] {
      assert a + b == a;
      assert Headers(a) + [] == Headers(a);
    } else {
      hide Headers;
      var n := |b| - 1;
      HeadersSplit(a, b[..n]);
      assert a + b == a + b[..n] + [b[n]];
      HeadersSnoc(a + b[..n], b[n]);
      assert b == b[..n] + [b[n]];
      HeadersSnoc(b[..n], b[n]);
      var last := [Header(b[n].apCport, b[n].message.messageType, b[n].message.operationId)];
      Associative(Headers(a), Headers(b[..n]), last);
    }
  }

  /** What a receiver makes of frames that carry small messages. */
  lemma RepliesReceived(max: BlockSize, replies: seq<Outgoing>, sent: seq<Sent>)
    requires Carries(replies, sent) && AllSmall(sent) && max >= 20
    ensures Submissions(Receive(max, INITIAL_RECEIVER, WireAll(ToFrames(replies))).delivered) == AsSubmitted(replies)
  {
    hide Receive, Submissions, Small;
    forall o | o in replies ensures Sendable(max, o) {
      var i :| 0 <= i < |replies| && replies[i] == o;
      assert sent[i] in sent;
      SmallSendable(max, o);
    }
    if replies == [] {
      NothingReceived(max);
    } else {
      FromIdle(max, replies);
    }
  }

  lemma SmallSendable(max: BlockSize, o: Outgoing)
    requires Small(o.message) && max >= 20
    ensures Sendable(max, o)
  {
  }

  lemma NothingReceived(max: BlockSize)
    ensures WireAll(ToFrames([])) == [] && Submissions(Receive(max, INITIAL_RECEIVER, []).delivered) == AsSubmitted([])
  {
  }

  lemma NothingEarlier(max: BlockSize)
    ensures Submissions(Receive(max, INITIAL_RECEIVER, [] + [FLAG]).delivered) == []
    ensures !Pending(false, [])
  {
    assert [FLAG][..0] == [];
    assert [] + [FLAG] == [FLAG];
  }

  lemma FromIdle(max: BlockSize, out: seq<Outgoing>)
    requires out != [] && forall o :: o in out ==> Sendable(max, o)
    ensures Submissions(Receive(max, INITIAL_RECEIVER, WireAll(ToFrames(out))).delivered) == AsSubmitted(out)
  {
    hide Receive, Submissions, Pending, AsSubmitted, WireAll, ToFrames;
    var wire := WireAll(ToFrames(out));
    OneChunk(max, wire);
    assert [] + wire == wire;
    NothingEarlier(max);
    WholeStackRoundTrip(max, [], out, [wire]);
  }

  lemma OneChunk(max: BlockSize, wire: seq<bv8>)
    ensures Flatten([wire]) == wire
    ensures ReceiveChunks(max, INITIAL_RECEIVER, [wire]) == Receive(max, INITIAL_RECEIVER, wire)
  {
    hide Receive;
    assert [wire][1..] == [];
    assert wire + [] == wire;
  }

  lemma ServedOpens(s: SvcState, inputs: seq<Input>)
    requires inputs != [] && AllComplete(inputs) && WellFormed(s.routes) && Served(s, inputs)
    ensures SvcSlotOpen(s.routes)
  {
    hide Handle, WellFormed;
  }

  lemma RepliesExpected(hostMax: BlockSize, s: SvcState, inputs: seq<Input>, replies: seq<Outgoing>)
    requires AllComplete(inputs) && hostMax >= 20
    requires Carries(replies, SentFor(s, inputs))
    requires Headers(HandleAll(s, inputs).sent) == Headers(s.sent) + Expected(inputs, s.nextOperation)
    ensures Heard(hostMax, [WireAll(ToFrames(replies))]) == AsSubmitted(replies)
    ensures HeadersOf(AsSubmitted(replies)) == Expected(inputs, s.nextOperation)
  {
    hide Receive, Submissions, WireAll, ToFrames, HandleAll, Expected, Headers, HeadersOf, AsSubmitted, AllSmall,
      Input.Complete, ReceiveChunks;
    var final := HandleAll(s, inputs).sent;
    var sent := SentFor(s, inputs);
    RunSmall(s, inputs);
    RepliesReceived(hostMax, replies, sent);
    OneChunk(hostMax, WireAll(ToFrames(replies)));
    assert final == s.sent + sent;
    HeadersSplit(s.sent, sent);
    SameTail(Headers(s.sent), Headers(sent), Expected(inputs, s.nextOperation));
    CarriedHeaders(replies, sent);
  }

  lemma SameTail(front: seq<Header>, a: seq<Header>, b: seq<Header>)
    requires front + a == front + b
    ensures a == b
  {
    assert (front + a)[|front|..] == a && (front + b)[|front|..] == b;
  }

  lemma CarriedHeaders(replies: seq<Outgoing>, sent: seq<Sent>)
    requires Carries(replies, sent)
    ensures HeadersOf(AsSubmitted(replies)) == Headers(sent)
  {
    hide AsSubmitted, HeadersOf, Headers;
    SubmittedLength(replies);
    forall i | 0 <= i < |replies|
      ensures AsSubmitted(replies)[i] == Submitted(replies[i].cport, replies[i].message)
    {
      SubmittedAt(replies, i);
    }
    HeadersCarried(AsSubmitted(replies), sent);
  }

  // ----- The whole way

  /** The chunks hold frames that carry these messages, after bytes that submit nothing and leave no
      escape pending. */
  predicate Conveys(max: BlockSize, garbage: seq<bv8>, chunks: seq<seq<bv8>>, out: seq<Outgoing>) {
    && out != [] && (forall o :: o in out ==> Sendable(max, o))
    && Flatten(chunks) == garbage + WireAll(ToFrames(out))
    && !Pending(false, garbage)
    && Submissions(Receive(max, INITIAL_RECEIVER, garbage + [FLAG]).delivered) == []
  }

  lemma HeardWhatIsConveyed(max: BlockSize, garbage: seq<bv8>, chunks: seq<seq<bv8>>, out: seq<Outgoing>)
    requires Conveys(max, garbage, chunks, out)
    ensures Heard(max, chunks) == AsSubmitted(out)
  {
    hide Receive, ReceiveChunks, Submissions, Pending, WireAll, ToFrames, Flatten, AsSubmitted;
    WholeStackRoundTrip(max, garbage, out, chunks);
    assert [] + AsSubmitted(out) == AsSubmitted(out);
  }

  /** From wire to wire. The host sends requests on AP cport 0 as HDLC frames. Then the SVC handles
      exactly those requests; and what the host decodes from the frames that carry what the SVC has sent
      are those messages, in every field, and their headers are exactly those of the specification. */
  lemma WireToWire(
    max: BlockSize, hostMax: BlockSize, s: SvcState, garbage: seq<bv8>, chunks: seq<seq<bv8>>,
    inputs: seq<Input>, out: seq<Outgoing>, replies: seq<Outgoing>)
    requires AllComplete(inputs) && WellFormed(s.routes) && Served(s, inputs)
    requires Asks(out, inputs) && Conveys(max, garbage, chunks, out)
    requires hostMax >= 20 && Carries(replies, SentFor(s, inputs))
    ensures |Heard(max, chunks)| == |inputs| && AllDeliverable(s, Heard(max, chunks), Worlds(inputs))
    ensures DeliverAll(s, Heard(max, chunks), Worlds(inputs)) == HandleAll(s, inputs)
    ensures Heard(hostMax, [WireAll(ToFrames(replies))]) == AsSubmitted(replies)
    ensures HeadersOf(AsSubmitted(replies)) == Expected(inputs, s.nextOperation)
  {
    hide HandleAll, Expected, Headers, DeliverAll, AllDeliverable, Handle, Input.Complete, WellFormed, NoneDivert,
      Heard, AsSubmitted, HeadersOf, WireAll, ToFrames;
    HeardWhatIsConveyed(max, garbage, chunks, out);
    ServedDelivered(s, out, inputs);
    ServedOpens(s, inputs);
    ServedNotDiverted(s, inputs);
    TraceIsExpected(s, inputs);
    RepliesExpected(hostMax, s, inputs, replies);
  }
}
