/** What a whole session with the SVC puts on the wire. */
module SvcTraces {
  import opened Greybus
  import opened ApBridge
  import opened Svc
  import opened Sequences

  lemma ExpectedCons(inputs: seq<Input>, next: U16)
    requires inputs != []
    ensures
      var after := if inputs[0].message.messageType == 0x81 then AfterOperation(next) else next;
      Expected(inputs, next) == Expected([inputs[0]], next) + Expected(inputs[1..], after)
  {
    hide AfterOperation;
    ExpectedOne(inputs[0], next);
  }

  lemma {:induction false} RunAppends(s: SvcState, inputs: seq<Input>)
    requires AllComplete(inputs)
    ensures
      var r := HandleAll(s, inputs);
      s.sent <= r.sent && |r.sent| <= |s.sent| + |Expected(inputs, s.nextOperation)|
    decreases |inputs|
  {
    if inputs != [] {
      hide Handle, Expected, Input.Complete;
      AppendsAtMostOne(s, inputs[0]);
      RunAppends(Handle(s, inputs[0]), inputs[1..]);
      ExpectedCons(inputs, s.nextOperation);
    }
  }

  lemma {:induction false} HeadersAt(sent: seq<Sent>, i: nat)
    requires i < |sent|
    ensures |Headers(sent)| == |sent| && Headers(sent)[i].apCport == sent[i].apCport
    decreases |sent|
  {
    var n := |sent| - 1;
    if i < n {
      HeadersAt(sent[..n], i);
    } else if n > 0 {
      HeadersAt(sent[..n], 0);
    }
  }

  lemma HeadersLength(sent: seq<Sent>)
    ensures |Headers(sent)| == |sent|
  {
    if sent != [] {
      HeadersAt(sent, 0);
    }
  }

  /** Once a create request has diverted AP cport 0, the run has gone wrong for good: its response is
      not where it should be, and nothing sent later can make up for it. */
  lemma DivertedForGood(s: SvcState, inputs: seq<Input>)
    requires AllComplete(inputs) && inputs != [] && SvcSlotOpen(s.routes)
    requires inputs[0].Complete() && Diverts(s, inputs[0])
    ensures Headers(HandleAll(s, inputs).sent) != Headers(s.sent) + Expected(inputs, s.nextOperation)
  {
    hide SvcSlotOpen, Diverts, Handle, Expected, Headers, ToApCport, Input.Complete, WellFormed;
    var next := Handle(s, inputs[0]);
    var final := HandleAll(s, inputs).sent;
    assert inputs[0] in inputs && Environment(true, inputs[0].nodes).Valid();
    assert final == HandleAll(next, inputs[1..]).sent;
    DivertedResponse(s, inputs[0]);
    AppendsAtMostOne(s, inputs[0]);
    RunAppends(next, inputs[1..]);
    ExpectedCons(inputs, s.nextOperation);
    DivertsIsCreate(s, inputs[0]);
    HeadersLength(s.sent);
    HeadersLength(final);
    if next.sent != s.sent {
      assert final[|s.sent|] == next.sent[|s.sent|];
      HeadersAt(final, |s.sent|);
    }
  }

  lemma DivertsIsCreate(s: SvcState, input: Input)
    requires input.Complete() && Diverts(s, input)
    ensures
      var expected := Expected([input], s.nextOperation);
      |expected| == 1 && expected[0].apCport == 0
  {
    ExpectedOne(input, s.nextOperation);
  }

  /** SVC traces: for every run of messages, the messages sent are exactly those of the specification,
      in order, all on AP cport 0, if and only if none diverts that cport; even a request that
      destroys the SVC connection itself does not change that. */
  lemma {:induction false} TraceIsExpected(s: SvcState, inputs: seq<Input>)
    requires AllComplete(inputs) && SvcSlotOpen(s.routes)
    ensures Headers(HandleAll(s, inputs).sent) == Headers(s.sent) + Expected(inputs, s.nextOperation)
            <==> NoneDivert(s, inputs)
    decreases |inputs|
  {
    hide SvcSlotOpen, Diverts, Handle, Expected, Headers, Input.Complete;
    if inputs == [] {
      NothingExpected(s.nextOperation);
      assert Headers(s.sent) + [] == Headers(s.sent);
    } else {
      assert inputs[0] in inputs && Environment(true, inputs[0].nodes).Valid();
      if Diverts(s, inputs[0]) {
        DivertedForGood(s, inputs);
      } else {
        var next := Handle(s, inputs[0]);
        HandleOne(s, inputs[0]);
        AppendsAtMostOne(s, inputs[0]);
        SlotStaysOpenIff(s, inputs[0]);
        TraceIsExpected(next, inputs[1..]);
        ExpectedCons(inputs, s.nextOperation);
        var first, rest := Expected([inputs[0]], s.nextOperation), Expected(inputs[1..], next.nextOperation);
        Associative(Headers(s.sent), first, rest);
      }
    }
  }

  lemma NothingExpected(next: U16)
    ensures Expected([], next) == []
  {
  }

  /** No message with the response bit set is answered; only the version response makes the SVC send
      anything, and that is a request. */
  lemma ResponsesAreNotAnswered(s: SvcState, input: Input)
    requires input.Complete() && input.message.IsResponse()
    ensures input.message.messageType != 0x81 ==> Handle(s, input) == s
    ensures input.message.messageType == 0x81 ==>
      var sent := Handle(s, input).sent;
      sent == s.sent || (|sent| == |s.sent| + 1 && s.sent <= sent && !sent[|s.sent|].message.IsResponse())
  {
    NotSupported(input.message.messageType);
  }

  lemma NotSupported(t: bv8)
    requires t & RESPONSE != 0
    ensures !Supported(t)
  {
  }

  // ----- Sessions

  /** Starting succeeds exactly when AP cport 0 is free, and then announces the protocol version there. */
  lemma StartIffFree(s: SvcState, nodes: map<nat, nat>)
    requires WellFormed(s.routes) && |s.routes| > 0
    ensures Start(s, nodes).1 <==> s.routes[0] == FREE
    ensures Start(s, nodes).0.ready
    ensures Start(s, nodes).1 ==>
      var after := Start(s, nodes).0;
      SvcSlotOpen(after.routes) && Headers(after.sent) == Headers(s.sent) + [Header(0, 0x01, s.nextOperation)]
    ensures !Start(s, nodes).1 ==> Start(s, nodes).0 == s.(ready := true)
  {
    hide ToApCport, SendToAp, Headers;
    var routes := s.routes[0 := Slot(ApBridge.Svc, 0, SVC_ID)];
    if s.routes[0] == FREE {
      SentOnZero(s.(ready := true, routes := routes, nextOperation := AfterOperation(s.nextOperation)),
        Alloc([0x00, 0x01], 0x01, s.nextOperation, 0));
    }
  }

  /** A whole session: stop, start, then any messages. The wire sees the version request, and then
      exactly what the messages call for, if and only if none of them diverts AP cport 0. */
  lemma Session(s: SvcState, nodes: map<nat, nat>, inputs: seq<Input>)
    requires |s.routes| > 0 && AllComplete(inputs)
    ensures Start(Stop(s), nodes).1
    ensures Headers(HandleAll(Start(Stop(s), nodes).0, inputs).sent)
            == Headers(s.sent) + [Header(0, 0x01, s.nextOperation)] + Expected(inputs, AfterOperation(s.nextOperation))
            <==> NoneDivert(Start(Stop(s), nodes).0, inputs)
  {
    hide SvcSlotOpen, Expected, Headers, HandleAll, Handle, NoneDivert;
    StartIffFree(Stop(s), nodes);
    StartCounts(Stop(s), nodes);
    TraceIsExpected(Start(Stop(s), nodes).0, inputs);
  }

  lemma StartCounts(s: SvcState, nodes: map<nat, nat>)
    requires Start(s, nodes).1
    ensures Start(s, nodes).0.nextOperation == AfterOperation(s.nextOperation)
  {
  }
}
