/** What the SVC does for each message, field by field: the responses with their results and payloads,
    and the requests it sends of its own. */
module SvcReplies {
  import opened Greybus
  import opened ApBridge
  import opened Svc

  /** One message with these fields goes out, on the first AP cport that is free or leads to SVC cport 0,
      or none where there is no such AP cport. */
  predicate SendsOne(
    before: SvcState, after: SvcState, messageType: bv8, operationId: U16, result: bv8, payload: seq<bv8>)
  {
    var i := ToApCport(after.routes, 0, 0);
    if i < 0 then after.sent == before.sent
    else
      && |after.sent| == |before.sent| + 1 && before.sent <= after.sent
      && var x := after.sent[|before.sent|];
      && x.apCport == i && x.message.size == 8 + |payload| && x.message.operationId == operationId
      && x.message.messageType == messageType && x.message.result == result && x.message.payload == payload
  }

  lemma MessageSent(s: SvcState, m: Message)
    requires m.size == 8 + |m.payload|
    ensures SendsOne(s, SendToAp(s, m), m.messageType, m.operationId, m.result, m.payload)
    ensures SendToAp(s, m) == s.(sent := SendToAp(s, m).sent)
  {
    hide ToApCport;
  }

  lemma ResponseSent(s: SvcState, request: Message, payload: seq<bv8>, status: bv8)
    requires |payload| <= 6
    ensures SendsOne(s, Respond(s, request, payload, status),
                     0x80 | request.messageType, request.operationId, status, payload)
    ensures Respond(s, request, payload, status) == s.(sent := Respond(s, request, payload, status).sent)
  {
    hide ToApCport, SendsOne, SendToAp;
    MessageSent(s, ResponseTo(request, payload, status));
  }

  lemma RequestSent(s: SvcState, payload: seq<bv8>, requestType: bv8)
    requires |payload| <= 6
    ensures SendsOne(s, SendRequest(s, payload, requestType), requestType, s.nextOperation, 0x00, payload)
    ensures SendRequest(s, payload, requestType)
            == s.(nextOperation := AfterOperation(s.nextOperation), sent := SendRequest(s, payload, requestType).sent)
  {
    hide ToApCport, SendToAp;
    MessageSent(s.(nextOperation := AfterOperation(s.nextOperation)), Alloc(payload, requestType, s.nextOperation, 0));
  }

  // ----- Connections

  /** The payload of connection requests: two interface ids, each followed by a little-endian cport. */
  lemma ConnectionRead(input: Input, r: Request)
    requires input.Complete() && (input.IsCreate() || input.IsDestroy())
    requires
      var p := input.message.payload;
      && p[0] as int == r.intf1 && p[1] as int + 256 * (p[2] as int) == r.cport1
      && p[3] as int == r.intf2 && p[4] as int + 256 * (p[5] as int) == r.cport2
    ensures input.Connection() == r
  {
  }

  /** The AP cport of the request was free, and is routed to its node endpoint now. */
  predicate Routed(before: Map, now: Map, r: Request) {
    && r.HasAp() && r.ApCport() < |before| == |now| && before[r.ApCport()] == FREE
    && !now[r.ApCport()].intf.Null? && Bound(now[r.ApCport()], r.NodeId(), r.NodeCport())
  }

  lemma SuccessIffRouted(env: Environment, m: Map, r: Request, outcome: int)
    requires WellFormed(m) && env.Valid()
    ensures Create(env, m, r, outcome).1 == Success <==> Routed(m, Create(env, m, r, outcome).0, r)
    ensures !Routed(m, m, r)
  {
  }

  /** A create request is answered, whatever comes of it, with its operation id and an empty payload.
      The result tells the truth: it is zero exactly when the AP cport was free and is now routed to the
      node endpoint of the request, and one otherwise. Nothing but that AP cport changes. */
  lemma CreateStatusIsTrue(s: SvcState, input: Input)
    requires input.Complete() && input.IsCreate() && Environment(true, input.nodes).Valid()
    requires WellFormed(s.routes)
    ensures
      var after := Handle(s, input);
      var result: bv8 := if Routed(s.routes, after.routes, input.Connection()) then 0x00 else 0x01;
      && SendsOne(s, after, 0x87, input.message.operationId, result, [])
      && after.ready == s.ready && after.nextOperation == s.nextOperation && |after.routes| == |s.routes|
      && forall i :: 0 <= i < |s.routes| && i != input.Connection().ApCport() ==> after.routes[i] == s.routes[i]
  {
    hide ToApCport, FromLe16, WellFormed, Routed, Respond, SendsOne;
    var r, env := input.Connection(), Environment(s.ready, input.nodes);
    var (routes, status) := Create(env, s.routes, r, input.outcome);
    SuccessIffRouted(env, s.routes, r, input.outcome);
    ResponseSent(s, input.message, [], 0x01);
    ResponseSent(s.(routes := routes), input.message, [], if status == Success then 0x00 else 0x01);
    SameMessages(s, s.(routes := routes));
  }

  /** What is sent is judged by the messages before and the map after. */
  lemma SameMessages(s: SvcState, t: SvcState)
    requires s.sent == t.sent
    ensures forall after: SvcState, messageType: bv8, operationId: U16, result: bv8, payload: seq<bv8> ::
      SendsOne(s, after, messageType, operationId, result, payload)
      == SendsOne(t, after, messageType, operationId, result, payload)
  {
    hide ToApCport;
  }

  /** A destroy request is answered the same way: the result is zero exactly when one end is the AP. */
  lemma DestroyStatusIsTrue(s: SvcState, input: Input)
    requires input.Complete() && input.IsDestroy()
    ensures
      var after := Handle(s, input);
      var r := input.Connection();
      var result: bv8 := if r.intf1 == 1 || r.intf2 == 1 then 0x00 else 0x01;
      && SendsOne(s, after, 0x88, input.message.operationId, result, [])
      && after.routes == Destroy(s.routes, r).0 && after.nextOperation == s.nextOperation
      && after.ready == ReadyAfterDestroy(Environment(s.ready, input.nodes), r)
  {
    hide ToApCport, FromLe16, Respond, SendsOne, ReadyAfterDestroy;
    var r := input.Connection();
    var (routes, status) := Destroy(s.routes, r);
    var ready := ReadyAfterDestroy(Environment(s.ready, input.nodes), r);
    ResponseSent(s.(routes := routes, ready := ready), input.message, [], if status == Success then 0x00 else 0x01);
    SameMessages(s, s.(routes := routes, ready := ready));
  }

  // ----- Fixed replies

  /** The payload due to each other request: GB_SVC_TYPE_INTF_DEVICE_ID, ROUTE_CREATE, ROUTE_DESTROY and
      PING get none; DME_PEER_GET a result code and the attribute value 0x0126; DME_PEER_SET a result
      code; INTF_SET_PWRM whether both modes, bytes 2 and 7, are hibernation; INTF_ACTIVATE a status and
      the Greybus interface type; the others one zero byte. */
  lemma PayloadDue(m: Message)
    requires m.messageType == 0x10 ==> |m.payload| >= 8
    ensures
      var t, p := m.messageType, ReplyPayload(m);
      && (t == 0x03 || t == 0x0b || t == 0x0c || t == 0x13 ==> p == [])
      && (t == 0x09 ==> p == [0x00, 0x00, 0x26, 0x01, 0x00, 0x00]) && (t == 0x0a ==> p == [0x00, 0x00])
      && (t == 0x10 && m.payload[2] == 0x11 && m.payload[7] == 0x11 ==> p == [0x00])
      && (t == 0x10 && (m.payload[2] != 0x11 || m.payload[7] != 0x11) ==> p == [0x01])
      && (t == 0x14 || t == 0x21 || t == 0x22 || t == 0x23 || t == 0x24 || t == 0x25 || t == 0x26 || t == 0x28 ==>
            p == [0x00])
      && (t == 0x27 ==> p == [0x00, 0x03])
  {
  }

  /** The other requests that are answered. */
  predicate Plain(t: bv8) {
    || t == 0x03 || t == 0x09 || t == 0x0a || t == 0x0b || t == 0x0c || t == 0x10 || t == 0x13 || t == 0x14
    || t == 0x21 || t == 0x22 || t == 0x23 || t == 0x24 || t == 0x25 || t == 0x26 || t == 0x27 || t == 0x28
  }

  lemma PlainSupported(t: bv8)
    ensures Plain(t) <==> Supported(t) && t != 0x07 && t != 0x08
    ensures Plain(t) ==> t != 0x81
  {
  }

  lemma PayloadShort(m: Message)
    requires m.messageType == 0x10 ==> |m.payload| >= 8
    ensures |ReplyPayload(m)| <= 6
  {
  }

  /** They are answered with result zero and the payload due, and change nothing. */
  lemma PlainReply(s: SvcState, input: Input)
    requires input.Complete() && Plain(input.message.messageType)
    ensures
      var after, m := Handle(s, input), input.message;
      && SendsOne(s, after, 0x80 | m.messageType, m.operationId, 0x00, ReplyPayload(m))
      && after == s.(sent := after.sent)
  {
    hide ToApCport, Respond, SendsOne, ReplyPayload, Plain, Supported;
    PlainSupported(input.message.messageType);
    PayloadShort(input.message);
    ResponseSent(s, input.message, ReplyPayload(input.message), 0x00);
  }

  /** A version response is followed by the hello request: the endo id 0x4755, little-endian, and the
      AP's interface id. */
  lemma HelloSent(s: SvcState, input: Input)
    requires input.Complete() && input.message.messageType == 0x81
    ensures
      var after := Handle(s, input);
      && SendsOne(s, after, 0x02, s.nextOperation, 0x00, [0x55, 0x47, 0x01])
      && after == s.(nextOperation := after.nextOperation, sent := after.sent)
      && after.nextOperation == AfterOperation(s.nextOperation)
  {
    hide ToApCport, SendRequest, SendsOne, Supported;
    PlainSupported(0x81);
    RequestSent(s, [0x55, 0x47, 0x01], 0x02);
  }

  /** No other message does anything. */
  lemma OthersIgnored(s: SvcState, input: Input)
    requires input.Complete()
    requires
      var t := input.message.messageType;
      !Plain(t) && t != 0x07 && t != 0x08 && t != 0x81
    ensures Handle(s, input) == s
  {
    hide Supported, Plain;
    PlainSupported(input.message.messageType);
  }

  // ----- Start and stop

  /** A start that succeeds binds AP cport 0 to the SVC and sends the version request, 0.1. */
  lemma VersionSent(s: SvcState, nodes: map<nat, nat>)
    requires WellFormed(s.routes) && Start(s, nodes).1
    ensures
      var after := Start(s, nodes).0;
      && SendsOne(s, after, 0x01, s.nextOperation, 0x00, [0x00, 0x01])
      && after.ready && after.nextOperation == AfterOperation(s.nextOperation)
      && |s.routes| > 0 && after.routes == s.routes[0 := Slot(Pointer.Svc, 0, 0)]
  {
    hide ToApCport, SendRequest, SendsOne;
    var bound := s.(ready := true, routes := s.routes[0 := Slot(Pointer.Svc, 0, 0)]);
    RequestSent(bound, [0x00, 0x01], 0x01);
    SameMessages(s, bound);
  }

  /** A stop leaves nothing connected and sends nothing. */
  lemma StopClears(s: SvcState)
    ensures
      var after := Stop(s);
      && !after.ready && after.sent == s.sent && after.nextOperation == s.nextOperation
      && |after.routes| == |s.routes| && forall i :: 0 <= i < |s.routes| ==> after.routes[i] == Slot(Null, 0, 0)
  {
  }
}
