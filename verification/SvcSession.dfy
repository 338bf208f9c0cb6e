/** The globals of src/apbridge.c and src/svc.c, updated in place: the routing map, the readiness flag
    and the operation id counter. What goes to the AP transport is a log. */
module SvcSession {
  import opened Greybus
  import opened ApBridge
  import opened Svc
  import NodeCache
  import NodeManager
  import NodeRuns

  /** A message handed to the write function of an interface other than the SVC. */
  datatype Written = Written(intf: Pointer, cport: nat, message: Message)

  class Bridge {
    const nodeApMap: array<Slot>
    var ready: bool
    var operationIdCounter: U16
    var sent: seq<Sent>
    var written: seq<Written>
    /** whether the discovery thread is running */
    var discovering: bool

    ghost function State(): SvcState
      reads this, nodeApMap
    {
      SvcState(ready, nodeApMap[..], operationIdCounter, sent)
    }

    constructor (maxNodes: nat)
      ensures fresh(nodeApMap)
      ensures State() == SvcState(false, EmptyMap(maxNodes), FIRST_OPERATION, []) && written == [] && !discovering
    {
      nodeApMap := new Slot[maxNodes](_ => FREE);
      ready := false;
      operationIdCounter := FIRST_OPERATION;
      sent, written := [], [];
      discovering := false;
    }

    // ----- src/apbridge.c

    method NodeApAdd(apCport: nat, nodeCport: nat, intf: Pointer) returns (status: Status)
      requires !intf.Null?
      modifies nodeApMap
      ensures apCport >= nodeApMap.Length ==> status == TooBig
      ensures apCport < nodeApMap.Length ==>
        status == if old(nodeApMap[apCport]).intf.Null? then Success else Already
      ensures nodeApMap[..] == if status == Success then old(nodeApMap[..])[apCport := Slot(intf, nodeCport, intf.Id())]
                               else old(nodeApMap[..])
    {
      if apCport >= nodeApMap.Length {
        return TooBig;
      }
      if !nodeApMap[apCport].intf.Null? {
        return Already;
      }
      nodeApMap[apCport] := Slot(intf, nodeCport, intf.Id());
      return Success;
    }

    method NodeApRemove(apCport: nat) returns (status: Status)
      modifies nodeApMap
      ensures status == if apCport < nodeApMap.Length then Success else TooBig
      ensures nodeApMap[..] == if apCport < nodeApMap.Length then old(nodeApMap[..])[apCport := FREE]
                               else old(nodeApMap[..])
    {
      if apCport >= nodeApMap.Length {
        return TooBig;
      }
      nodeApMap[apCport] := FREE;
      return Success;
    }

    method NodeToApCport(id: nat, cport: nat) returns (r: int)
      ensures r == ToApCport(nodeApMap[..], id, cport)
    {
      var i := 0;
      while i < nodeApMap.Length
        invariant 0 <= i <= nodeApMap.Length
        invariant forall k :: 0 <= k < i ==> !Bound(nodeApMap[..][k], id, cport)
      {
        if nodeApMap[i].id == id && nodeApMap[i].cport == cport {
          assert Bound(nodeApMap[..][i], id, cport);
          return i;
        }
        i := i + 1;
      }
      return -1;
    }

    method ApbridgeDeinit()
      modifies nodeApMap
      ensures nodeApMap[..] == EmptyMap(nodeApMap.Length)
    {
      var i := 0;
      while i < nodeApMap.Length
        invariant 0 <= i <= nodeApMap.Length
        invariant forall k :: 0 <= k < i ==> nodeApMap[k] == FREE
      {
        nodeApMap[i] := FREE;
        i := i + 1;
      }
    }

    method ConnectionCreate(r: Request, nodes: map<nat, nat>, outcome: int) returns (status: Status)
      modifies nodeApMap
      ensures (nodeApMap[..], status) == Create(Environment(ready, nodes), old(nodeApMap[..]), r, outcome)
    {
      var nodeId, nodeCport, apCport := r.intf2, r.cport2, r.cport1;
      if r.intf1 != AP_ID {
        if r.intf2 != AP_ID {
          return Invalid;
        }
        nodeId, nodeCport, apCport := r.intf1, r.cport1, r.cport2;
      }
      var intf := Environment(ready, nodes).Find(nodeId);
      if intf.Null? {
        return Invalid;
      }
      if intf.Node? && outcome < 0 {
        return Failed;
      }
      status := NodeApAdd(apCport, nodeCport, intf);
    }

    method ConnectionDestroy(r: Request, nodes: map<nat, nat>) returns (status: Status)
      modifies this`ready, nodeApMap
      ensures (nodeApMap[..], status) == Destroy(old(nodeApMap[..]), r)
      ensures ready == ReadyAfterDestroy(Environment(old(ready), nodes), r)
    {
      var nodeId, nodeCport, apCport := r.intf2, r.cport2, r.cport1;
      if r.intf1 != AP_ID {
        if r.intf2 != AP_ID {
          return Invalid;
        }
        nodeId, nodeCport, apCport := r.intf1, r.cport1, r.cport2;
      }
      var intf := Environment(ready, nodes).Find(nodeId);
      if intf.Svc? && nodeCport == 0 {
        ready := false;
      }
      var ignored := NodeApRemove(apCport);
      return Success;
    }

    /** connection_send from an interface other than the AP: the message goes out on the AP cport that
        the endpoint is bound to, or is dropped. */
    method ConnectionSend(intfId: nat, intfCport: nat, m: Message) returns (ok: bool)
      requires intfId != AP_ID
      modifies this`sent
      ensures ok <==> ToApCport(nodeApMap[..], intfId, intfCport) >= 0
      ensures sent == if ok then old(sent) + [Sent(ToApCport(nodeApMap[..], intfId, intfCport), m)] else old(sent)
    {
      var apCport := NodeToApCport(intfId, intfCport);
      if apCport < 0 {
        return false;
      }
      sent := sent + [Sent(apCport, m)];
      return true;
    }

    // ----- src/svc.c

    method NewOperationId() returns (id: U16)
      modifies this`operationIdCounter
      ensures id == old(operationIdCounter) && operationIdCounter == AfterOperation(id)
    {
      id := operationIdCounter;
      if id == 0xffff {
        operationIdCounter := FIRST_OPERATION;
      } else {
        operationIdCounter := operationIdCounter + 1;
      }
    }

    /** control_send_request: the operation id, or an error when no AP cport leads to the SVC. */
    method ControlSendRequest(payload: seq<bv8>, requestType: bv8) returns (ret: int)
      modifies this`operationIdCounter, this`sent
      ensures ret == if ToApCport(nodeApMap[..], SVC_ID, 0) >= 0 then old(operationIdCounter) else -22
      ensures State() == SendRequest(old(State()), payload, requestType)
    {
      var id := NewOperationId();
      var ok := ConnectionSend(SVC_ID, 0, Alloc(payload, requestType, id, 0));
      return if ok then id else -22;
    }

    method ResponseHelper(m: Message, payload: seq<bv8>, status: bv8)
      modifies this`sent
      ensures State() == Respond(old(State()), m, payload, status)
    {
      var ok := ConnectionSend(SVC_ID, 0, ResponseTo(m, payload, status));
    }

    method ConnectionCreateHandler(input: Input)
      requires input.Complete() && input.IsCreate()
      modifies this`sent, nodeApMap
      ensures State() == CreateHandler(old(State()), input)
    {
      hide Respond, Create;
      var r := input.Connection();
      if r.intf1 == r.intf2 && r.cport1 == r.cport2 {
        ResponseHelper(input.message, [], 0x01);
      } else {
        var status := ConnectionCreate(r, input.nodes, input.outcome);
        ResponseHelper(input.message, [], if status == Success then 0x00 else 0x01);
      }
    }

    method ConnectionDestroyHandler(input: Input)
      requires input.Complete() && input.IsDestroy()
      modifies this`ready, this`sent, nodeApMap
      ensures State() == DestroyHandler(old(State()), input)
    {
      hide Respond, Destroy;
      var status := ConnectionDestroy(input.Connection(), input.nodes);
      ResponseHelper(input.message, [], if status == Success then 0x00 else 0x01);
    }

    /** gb_handle_msg; the message is for SVC cport 0. */
    method HandleMsg(input: Input)
      requires input.Complete()
      modifies this`ready, this`operationIdCounter, this`sent, nodeApMap
      ensures State() == Handle(old(State()), input)
    {
      hide CreateHandler, DestroyHandler, Respond, SendRequest;
      var t := input.message.messageType;
      if t == 0x07 {
        ConnectionCreateHandler(input);
      } else if t == 0x08 {
        ConnectionDestroyHandler(input);
      } else if Supported(t) {
        ResponseHelper(input.message, ReplyPayload(input.message), 0x00);
      } else if t == 0x81 {
        var ignored := ControlSendRequest([0x55, 0x47, 0x01], 0x02);
      }
    }

    /** connection_send from the AP, on an occupied AP cport. The SVC handles messages for its cport 0
        and refuses others; other interfaces are handed the message, with `writeResult` what they
        return. */
    method ConnectionSendFromAp(apCport: nat, input: Input, writeResult: int) returns (ret: int)
      requires apCport < nodeApMap.Length && !nodeApMap[apCport].intf.Null?
      requires input.Complete()
      modifies this`ready, this`operationIdCounter, this`sent, this`written, nodeApMap
      ensures
        var (intf, cport) := FromAp(old(nodeApMap[..]), apCport);
        if !intf.Svc? then
          && State() == old(State()) && ret == writeResult
          && written == old(written) + [Written(intf, cport, input.message)]
        else
          && written == old(written)
          && State() == (if cport == 0 then Handle(old(State()), input) else old(State()))
          && ret == if cport == 0 then 0 else -1
    {
      var slot := nodeApMap[apCport];
      if !slot.intf.Svc? {
        written := written + [Written(slot.intf, slot.cport, input.message)];
        return writeResult;
      }
      if slot.cport != 0 {
        return -1;
      }
      HandleMsg(input);
      return 0;
    }

    // ----- src/main.c

    method ControlStart(nodes: map<nat, nat>) returns (ok: bool)
      modifies this, nodeApMap
      ensures (State(), ok) == Start(old(State()), nodes)
      ensures discovering == (ok || old(discovering)) && written == old(written)
    {
      hide SendRequest, Create;
      ready := true;
      var status := ConnectionCreate(Request(AP_ID, 0, SVC_ID, 0), nodes, 0);
      CreateFailureKeeps(Environment(true, nodes), old(nodeApMap[..]), Request(AP_ID, 0, SVC_ID, 0), 0);
      if status != Success {
        return false;
      }
      var ignored := ControlSendRequest([0x00, 0x01], 0x01);
      discovering := true;
      return true;
    }

    /** CONTROL_SVC_STOP, with the node cache; the result tells whether the assertion in
        node_destroy_all holds. */
    method ControlStop(cache: NodeManager.Nodes) returns (assertionHolds: bool)
      requires cache.Valid() && NodeCache.Agrees(cache.Lim(), cache.State())
      modifies this, nodeApMap, cache, cache.nodeCache
      ensures State() == Stop(old(State())) && !discovering && written == old(written)
      ensures cache.Valid() && cache.State() == NodeRuns.DestroyFrom(cache.Lim(), old(cache.State()), 0)
      ensures NodeCache.Agrees(cache.Lim(), cache.State())
      ensures assertionHolds <==> |old(cache.State()).cache| <= 1 && NodeCache.Lost(old(cache.State())) == 0
    {
      hide NodeCache.Agrees, NodeCache.Lost, NodeRuns.DestroyFrom;
      discovering := false;
      assertionHolds := cache.DestroyAll();
      ready := false;
      ApbridgeDeinit();
    }
  }

  lemma CreateFailureKeeps(env: Environment, m: Map, r: Request, outcome: int)
    ensures Create(env, m, r, outcome).1 != Success ==> Create(env, m, r, outcome).0 == m
  {
  }
}
