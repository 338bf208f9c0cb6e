/** The SVC of src/svc.c: one message in, at most one message out, over the routing map of the bridge. */
module Svc {
  import opened Greybus
  import opened ApBridge

  /** A message handed to the AP transport, with the AP cport it goes out on. */
  datatype Sent = Sent(apCport: nat, message: Message)

  /** The readiness flag, the routing map, the operation id counter and the messages sent so far. */
  datatype SvcState = SvcState(ready: bool, routes: Map, nextOperation: U16, sent: seq<Sent>)

  /** A message for SVC cport 0, with the nodes cached when it arrives and what opening a connection
      to one of them would return. */
  datatype Input = Input(message: Message, nodes: map<nat, nat>, outcome: int)
  {
    /** The payload has the fields the handler reads. */
    predicate Complete() {
      && (message.messageType in {0x07, 0x08} ==> |message.payload| >= 6)
      && (message.messageType == 0x10 ==> |message.payload| >= 8)
    }

    predicate IsCreate() { message.messageType == 0x07 }

    predicate IsDestroy() { message.messageType == 0x08 }

    function Connection(): Request
      requires Complete() && (IsCreate() || IsDestroy())
    {
      var p := message.payload;
      Request(p[0] as int, FromLe16(p[1], p[2]), p[3] as int, FromLe16(p[4], p[5]))
    }

    /** Both ends of the connection are the same. */
    predicate Loop()
      requires Complete() && (IsCreate() || IsDestroy())
    {
      var r := Connection();
      r.intf1 == r.intf2 && r.cport1 == r.cport2
    }
  }

  /** connection_send from the SVC, cport 0: the message is dropped when no slot looks like it. */
  function SendToAp(s: SvcState, m: Message): SvcState {
    var i := ToApCport(s.routes, SVC_ID, 0);
    if i < 0 then s else s.(sent := s.sent + [Sent(i, m)])
  }

  /** control_send_request */
  function SendRequest(s: SvcState, payload: seq<bv8>, requestType: bv8): SvcState {
    SendToAp(s.(nextOperation := AfterOperation(s.nextOperation)), Alloc(payload, requestType, s.nextOperation, 0))
  }

  /** svc_response_helper */
  function Respond(s: SvcState, request: Message, payload: seq<bv8>, status: bv8): SvcState {
    SendToAp(s, ResponseTo(request, payload, status))
  }

  function CreateHandler(s: SvcState, input: Input): SvcState
    requires input.Complete() && input.IsCreate()
  {
    var r := input.Connection();
    if input.Loop() then Respond(s, input.message, [], 0x01)
    else
      var (routes, status) := Create(Environment(s.ready, input.nodes), s.routes, r, input.outcome);
      Respond(s.(routes := routes), input.message, [], if status == Success then 0x00 else 0x01)
  }

  function DestroyHandler(s: SvcState, input: Input): SvcState
    requires input.Complete() && input.IsDestroy()
  {
    var r := input.Connection();
    var (routes, status) := Destroy(s.routes, r);
    var ready := ReadyAfterDestroy(Environment(s.ready, input.nodes), r);
    Respond(s.(routes := routes, ready := ready), input.message, [], if status == Success then 0x00 else 0x01)
  }

  /** The fixed replies. */
  function ReplyPayload(m: Message): seq<bv8>
    requires m.messageType == 0x10 ==> |m.payload| >= 8
  {
    if m.messageType == 0x09 then [0x00, 0x00, 0x26, 0x01, 0x00, 0x00]
    else if m.messageType == 0x0a then [0x00, 0x00]
    else if m.messageType == 0x10 then [if m.payload[2] == 0x11 && m.payload[7] == 0x11 then 0x00 else 0x01]
    else if m.messageType in {0x14, 0x21, 0x22, 0x23, 0x24, 0x25, 0x26, 0x28} then [0x00]
    else if m.messageType == 0x27 then [0x00, 0x03]
    else []
  }

  /** The request types the dispatcher answers. */
  predicate Supported(t: bv8) {
    t in {0x03, 0x07, 0x08, 0x09, 0x0a, 0x0b, 0x0c, 0x10, 0x13, 0x14,
          0x21, 0x22, 0x23, 0x24, 0x25, 0x26, 0x27, 0x28}
  }

  /** gb_handle_msg */
  function Handle(s: SvcState, input: Input): SvcState
    requires input.Complete()
  {
    var t := input.message.messageType;
    if t == 0x07 then CreateHandler(s, input)
    else if t == 0x08 then DestroyHandler(s, input)
    else if Supported(t) then Respond(s, input.message, ReplyPayload(input.message), 0x00)
    else if t == 0x81 then SendRequest(s, [0x55, 0x47, 0x01], 0x02)
    else s
  }

  predicate AllComplete(inputs: seq<Input>) {
    forall i :: i in inputs ==> i.Complete() && Environment(true, i.nodes).Valid()
  }

  function HandleAll(s: SvcState, inputs: seq<Input>): SvcState
    requires AllComplete(inputs)
    decreases |inputs|
  {
    if inputs == [] then s else HandleAll(Handle(s, inputs[0]), inputs[1..])
  }

  // ----- Session control (src/main.c)

  /** CONTROL_SVC_START, and whether it succeeds. */
  function Start(s: SvcState, nodes: map<nat, nat>): (SvcState, bool) {
    var s1 := s.(ready := true);
    var (routes, status) := Create(Environment(true, nodes), s.routes, Request(AP_ID, 0, SVC_ID, 0), 0);
    if status != Success then (s1, false)
    else (SendRequest(s1.(routes := routes), [0x00, 0x01], 0x01), true)
  }

  /** CONTROL_SVC_STOP, as far as this state goes. */
  function Stop(s: SvcState): SvcState {
    s.(ready := false, routes := EmptyMap(|s.routes|))
  }

  // ----- What every message keeps

  /** AP cport 0 is free or connected to SVC cport 0. */
  predicate SvcSlotOpen(routes: Map) {
    |routes| > 0 && WellFormed(routes) && (routes[0] == FREE || routes[0] == Slot(ApBridge.Svc, 0, SVC_ID))
  }

  /** The message binds a free AP cport 0 to something other than SVC cport 0: a create request that
      the loop test, the interface lookup and the node let pass. */
  predicate Diverts(s: SvcState, input: Input)
    requires input.Complete()
  {
    input.IsCreate() &&
    var r := input.Connection();
    var intf := Environment(s.ready, input.nodes).Find(r.NodeId());
    && !input.Loop() && r.HasAp() && r.ApCport() == 0 && |s.routes| > 0 && s.routes[0] == FREE
    && !(r.NodeId() == SVC_ID && r.NodeCport() == 0)
    && !intf.Null? && (intf.Node? ==> input.outcome >= 0)
  }

  predicate NoneDivert(s: SvcState, inputs: seq<Input>)
    requires AllComplete(inputs)
    decreases |inputs|
  {
    inputs == [] || (!Diverts(s, inputs[0]) && NoneDivert(Handle(s, inputs[0]), inputs[1..]))
  }

  /** What identifies a message on the wire. */
  datatype Header = Header(apCport: nat, messageType: bv8, operationId: U16)

  function Headers(sent: seq<Sent>): seq<Header> {
    if sent == [] then []
    else
      var n := |sent| - 1;
      Headers(sent[..n]) + [Header(sent[n].apCport, sent[n].message.messageType, sent[n].message.operationId)]
  }

  /** The specification of a run: every supported request is answered once, on AP cport 0, with its own
      operation id and its type with the response bit set; a version response is followed by one hello
      request with the next operation id; nothing else is ever sent. */
  function Expected(inputs: seq<Input>, next: U16): seq<Header>
    decreases |inputs|
  {
    if inputs == [] then []
    else
      var m := inputs[0].message;
      if Supported(m.messageType) then
        [Header(0, RESPONSE | m.messageType, m.operationId)] + Expected(inputs[1..], next)
      else if m.messageType == 0x81 then
        [Header(0, 0x02, next)] + Expected(inputs[1..], AfterOperation(next))
      else
        Expected(inputs[1..], next)
  }

  lemma HeadersSnoc(sent: seq<Sent>, x: Sent)
    ensures Headers(sent + [x]) == Headers(sent) + [Header(x.apCport, x.message.messageType, x.message.operationId)]
  {
    assert (sent + [x])[..|sent|] == sent;
  }

  /** With AP cport 0 open, whatever the SVC sends goes out there. */
  lemma SentOnZero(s: SvcState, m: Message)
    requires SvcSlotOpen(s.routes)
    ensures SendToAp(s, m) == s.(sent := s.sent + [Sent(0, m)])
    ensures Headers(SendToAp(s, m).sent) == Headers(s.sent) + [Header(0, m.messageType, m.operationId)]
  {
    hide ToApCport, WellFormed;
    SvcLookup(s.routes);
    HeadersSnoc(s.sent, Sent(0, m));
  }

  // ----- One message

  lemma RoutesAfter(s: SvcState, input: Input)
    requires input.Complete()
    ensures
      Handle(s, input).routes
      == if input.IsCreate() && !input.Loop() then
           Create(Environment(s.ready, input.nodes), s.routes, input.Connection(), input.outcome).0
         else if input.IsDestroy() then Destroy(s.routes, input.Connection()).0
         else s.routes
  {
    hide ToApCport, FromLe16, ReplyPayload, Supported, Create, Destroy, ResponseTo, Alloc, ReadyAfterDestroy;
  }

  /** A message leaves AP cport 0 to the SVC if and only if it does not divert it. */
  lemma SlotStaysOpenIff(s: SvcState, input: Input)
    requires input.Complete() && Environment(true, input.nodes).Valid() && SvcSlotOpen(s.routes)
    ensures SvcSlotOpen(Handle(s, input).routes) <==> !Diverts(s, input)
    ensures WellFormed(Handle(s, input).routes) && |Handle(s, input).routes| == |s.routes|
  {
    hide Handle, FromLe16;
    RoutesAfter(s, input);
  }

  /** The operation counter, and what every message appends at most: one message, and none that the
      specification does not call for. */
  lemma AppendsAtMostOne(s: SvcState, input: Input)
    requires input.Complete()
    ensures Handle(s, input).nextOperation
            == if input.message.messageType == 0x81 then AfterOperation(s.nextOperation) else s.nextOperation
    ensures
      var r := Handle(s, input);
      && s.sent <= r.sent && |r.sent| <= |s.sent| + |Expected([input], s.nextOperation)|
  {
    hide FromLe16, ReplyPayload, Supported, Create, Destroy, ReadyAfterDestroy, ToApCport, Alloc, ResponseTo;
    ExpectedOne(input, s.nextOperation);
  }

  lemma {:induction false} HandleOne(s: SvcState, input: Input)
    requires input.Complete() && Environment(true, input.nodes).Valid()
    requires SvcSlotOpen(s.routes) && !Diverts(s, input)
    ensures Headers(Handle(s, input).sent) == Headers(s.sent) + Expected([input], s.nextOperation)
  {
    SlotStaysOpenIff(s, input);
    hide SvcSlotOpen, SendToAp, Diverts, Create, Destroy, Headers, Supported, ReplyPayload, ReadyAfterDestroy, FromLe16;
    var m := input.message;
    ExpectedOne(input, s.nextOperation);
    if input.IsCreate() {
      var (routes, status) := Create(Environment(s.ready, input.nodes), s.routes, input.Connection(), input.outcome);
      SentOnZero(s, ResponseTo(m, [], 0x01));
      RoutesAfterSend(s.(routes := routes), ResponseTo(m, [], if status == Success then 0x00 else 0x01));
      if !input.Loop() {
        SentOnZero(s.(routes := routes), ResponseTo(m, [], if status == Success then 0x00 else 0x01));
      }
    } else if input.IsDestroy() {
      var r := input.Connection();
      var (routes, status) := Destroy(s.routes, r);
      var ready := ReadyAfterDestroy(Environment(s.ready, input.nodes), r);
      var response := ResponseTo(m, [], if status == Success then 0x00 else 0x01);
      RoutesAfterSend(s.(routes := routes, ready := ready), response);
      SentOnZero(s.(routes := routes, ready := ready), response);
    } else if Supported(m.messageType) {
      SentOnZero(s, ResponseTo(m, ReplyPayload(m), 0x00));
    } else if m.messageType == 0x81 {
      SentOnZero(s.(nextOperation := AfterOperation(s.nextOperation)),
        Alloc([0x55, 0x47, 0x01], 0x02, s.nextOperation, 0));
    } else {
      assert Headers(s.sent) + [] == Headers(s.sent);
    }
  }

  lemma RoutesAfterSend(s: SvcState, m: Message)
    ensures SendToAp(s, m).routes == s.routes
  {
    hide ToApCport;
  }

  /** The response to a diverting request does not reach AP cport 0: it goes out on another AP cport,
      the first that is free or leads to the SVC, or is dropped when there is none. */
  lemma DivertedResponse(s: SvcState, input: Input)
    requires input.Complete() && Environment(true, input.nodes).Valid()
    requires SvcSlotOpen(s.routes) && Diverts(s, input)
    ensures
      var r := Handle(s, input);
      var i := ToApCport(r.routes, SVC_ID, 0);
      && i != 0
      && r.sent == if i < 0 then s.sent else s.sent + [Sent(i, ResponseTo(input.message, [], 0x00))]
  {
    SlotStaysOpenIff(s, input);
    hide FromLe16, ToApCport, ResponseTo;
    SvcLookup(Handle(s, input).routes);
  }

  lemma ExpectedOne(input: Input, next: U16)
    ensures Expected([input], next) ==
      var m := input.message;
      if Supported(m.messageType) then [Header(0, RESPONSE | m.messageType, m.operationId)]
      else if m.messageType == 0x81 then [Header(0, 0x02, next)] else []
    ensures input.IsCreate() || input.IsDestroy() ==> Supported(input.message.messageType)
    ensures Supported(input.message.messageType) ==> input.message.messageType != 0x81
  {
  }
}
