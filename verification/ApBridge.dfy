/** The map from AP cports to node cports (src/apbridge.c), used in both directions. */
module ApBridge {

  const AP_ID := 1
  const SVC_ID := 0
  const LOCAL_ID := 2
  const FIRST_NODE_ID := 3

  /** A struct gb_interface pointer. */
  datatype Pointer = Null | Svc | Local | Node(slot: nat, id: nat)
  {
    function Id(): nat
      requires !Null?
    {
      match this
      case Svc => SVC_ID
      case Local => LOCAL_ID
      case Node(_, id) => id
    }
  }

  /** struct node_ap_item */
  datatype Slot = Slot(intf: Pointer, cport: nat, id: nat)

  const FREE := Slot(Null, 0, 0)

  type Map = seq<Slot>

  function EmptyMap(n: nat): (m: Map)
    ensures |m| == n && forall i :: 0 <= i < n ==> m[i] == FREE
  {
    seq(n, _ => FREE)
  }

  /** What gb_interface_find_by_id can see: whether the SVC is ready, and the slots of the cached
      nodes by interface id. */
  datatype Environment = Environment(svcReady: bool, nodes: map<nat, nat>)
  {
    predicate Valid() {
      forall id :: id in nodes ==> id >= FIRST_NODE_ID
    }

    function Find(id: nat): Pointer {
      if id == SVC_ID then (if svcReady then Svc else Null)
      else if id == LOCAL_ID then Local
      else if id in nodes then Node(nodes[id], id)
      else Null
    }
  }

  /** The arguments of connection_create and connection_destroy. */
  datatype Request = Request(intf1: nat, cport1: nat, intf2: nat, cport2: nat)
  {
    predicate HasAp() { intf1 == AP_ID || intf2 == AP_ID }

    function ApCport(): nat { if intf1 == AP_ID then cport1 else cport2 }

    function NodeId(): nat { if intf1 == AP_ID then intf2 else intf1 }

    function NodeCport(): nat { if intf1 == AP_ID then cport2 else cport1 }

    function Swapped(): Request { Request(intf2, cport2, intf1, cport1) }
  }

  datatype Status = Success | Invalid | TooBig | Already | Failed

  /** connection_create; `outcome` is what a node's create_connection returns. */
  function Create(env: Environment, m: Map, r: Request, outcome: int): (Map, Status) {
    if !r.HasAp() then (m, Invalid)
    else
      var intf := env.Find(r.NodeId());
      if intf.Null? then (m, Invalid)
      else if intf.Node? && outcome < 0 then (m, Failed)
      else if r.ApCport() >= |m| then (m, TooBig)
      else if !m[r.ApCport()].intf.Null? then (m, Already)
      else (m[r.ApCport() := Slot(intf, r.NodeCport(), intf.Id())], Success)
  }

  /** connection_destroy clears the AP cport, whatever it is bound to. */
  function Destroy(m: Map, r: Request): (Map, Status) {
    if !r.HasAp() then (m, Invalid)
    else if r.ApCport() >= |m| then (m, Success)
    else (m[r.ApCport() := FREE], Success)
  }

  /** Destroying the connection to SVC cport 0 makes the SVC not ready. */
  function ReadyAfterDestroy(env: Environment, r: Request): bool {
    env.svcReady && !(r.HasAp() && r.NodeId() == SVC_ID && r.NodeCport() == 0)
  }

  predicate Bound(s: Slot, id: nat, cport: nat) { s.id == id && s.cport == cport }

  /** node_to_ap_cport: the first slot with these values, or a negative number. */
  function ToApCport(m: Map, id: nat, cport: nat): (i: int)
    ensures -1 <= i < |m|
    ensures i >= 0 ==> Bound(m[i], id, cport) && forall k :: 0 <= k < i ==> !Bound(m[k], id, cport)
    ensures i < 0 ==> forall k :: 0 <= k < |m| ==> !Bound(m[k], id, cport)
  {
    if m == [] then -1
    else
      var n := |m| - 1;
      var i := ToApCport(m[..n], id, cport);
      if i >= 0 then i else if Bound(m[n], id, cport) then n else -1
  }

  // ----- Every reachable map

  /** Free slots are all zero; occupied ones carry the id of their interface, which is never the AP's. */
  predicate WellFormed(m: Map) {
    forall i :: 0 <= i < |m| ==>
      if m[i].intf.Null? then m[i] == FREE
      else m[i].id == m[i].intf.Id() && (m[i].intf.Node? ==> m[i].id >= FIRST_NODE_ID)
  }

  lemma NeverTheAp(m: Map, i: nat)
    requires WellFormed(m) && i < |m|
    ensures m[i].id != AP_ID
    ensures m[i].id == SVC_ID <==> m[i] == FREE || m[i].intf == Svc
  {
  }

  /** No two connections to nodes other than the SVC share their node endpoint. */
  predicate EndpointsDistinct(m: Map) {
    forall i, j :: 0 <= i < j < |m| && m[i].id != SVC_ID && m[j].id != SVC_ID ==>
      m[i].id != m[j].id || m[i].cport != m[j].cport
  }

  datatype Event =
    | CreateEvent(env: Environment, request: Request, outcome: int)
    | DestroyEvent(env: Environment, request: Request)
    | DeinitEvent

  function Apply(m: Map, e: Event): Map {
    match e
    case CreateEvent(env, r, outcome) => Create(env, m, r, outcome).0
    case DestroyEvent(_, r) => Destroy(m, r).0
    case DeinitEvent => EmptyMap(|m|)
  }

  function ApplyAll(m: Map, events: seq<Event>): Map {
    if events == [] then m else Apply(ApplyAll(m, events[..|events| - 1]), events[|events| - 1])
  }

  predicate ValidEvents(events: seq<Event>) {
    forall e :: e in events && !e.DeinitEvent? ==> e.env.Valid()
  }

  /** If the event creates a connection to a node, that node endpoint is not bound yet. */
  predicate FreshEndpoint(m: Map, e: Event) {
    e.CreateEvent? && Create(e.env, m, e.request, e.outcome).1 == Success && e.request.NodeId() != SVC_ID ==>
      ToApCport(m, e.request.NodeId(), e.request.NodeCport()) < 0
  }

  predicate FreshEndpoints(m: Map, events: seq<Event>) {
    events == [] ||
    var n := |events| - 1;
    FreshEndpoints(m, events[..n]) && FreshEndpoint(ApplyAll(m, events[..n]), events[n])
  }

  lemma ApplyWellFormed(m: Map, e: Event)
    requires WellFormed(m) && (!e.DeinitEvent? ==> e.env.Valid())
    ensures WellFormed(Apply(m, e)) && |Apply(m, e)| == |m|
  {
  }

  lemma ApplyDistinct(m: Map, e: Event)
    requires EndpointsDistinct(m) && FreshEndpoint(m, e)
    ensures EndpointsDistinct(Apply(m, e))
  {
    match e
    case CreateEvent(env, r, outcome) =>
      hide ToApCport;
      if Create(env, m, r, outcome).1 == Success && r.NodeId() != SVC_ID {
        NotBound(m, r.NodeId(), r.NodeCport());
      }
    case DestroyEvent(_, r) =>
    case DeinitEvent =>
  }

  lemma NotBound(m: Map, id: nat, cport: nat)
    requires ToApCport(m, id, cport) < 0
    ensures forall k :: 0 <= k < |m| ==> m[k].id != id || m[k].cport != cport
  {
    assert forall k :: 0 <= k < |m| ==> !Bound(m[k], id, cport);
  }

  /** The map after any run from the empty map is well formed; and if endpoints are fresh whenever
      they are bound, they stay distinct. */
  lemma {:induction false} RunKeeps(n: nat, events: seq<Event>)
    requires ValidEvents(events)
    ensures WellFormed(ApplyAll(EmptyMap(n), events)) && |ApplyAll(EmptyMap(n), events)| == n
    ensures FreshEndpoints(EmptyMap(n), events) ==> EndpointsDistinct(ApplyAll(EmptyMap(n), events))
  {
    if events != [] {
      hide Apply, WellFormed, EndpointsDistinct, FreshEndpoint;
      var k := |events| - 1;
      assert events[k] in events;
      RunKeeps(n, events[..k]);
      var before := ApplyAll(EmptyMap(n), events[..k]);
      ApplyWellFormed(before, events[k]);
      if FreshEndpoints(EmptyMap(n), events) {
        ApplyDistinct(before, events[k]);
      }
    }
  }

  // ----- What the operations do, in terms of their arguments

  /** The interface id at the end that is not the AP (whose id is 1). */
  function OtherEnd(r: Request): nat {
    if r.intf1 == 1 then r.intf2 else r.intf1
  }

  /** There is an interface with the id: the SVC (0) while it is ready, the local node (2), or a node. */
  predicate Reachable(env: Environment, id: nat) {
    (id == 0 && env.svcReady) || id == 2 || id in env.nodes
  }

  /** When connection_create succeeds, which status comes out when it does not, and what it binds: the
      AP's cport to the other end's cport and interface, and nothing else. */
  lemma CreateExactly(env: Environment, m: Map, r: Request, outcome: int)
    requires WellFormed(m) && env.Valid()
    ensures
      var (now, status) := Create(env, m, r, outcome);
      var other := OtherEnd(r);
      var (apCport, cport) := if r.intf1 == 1 then (r.cport1, r.cport2) else (r.cport2, r.cport1);
      && (status == Invalid <==> (r.intf1 != 1 && r.intf2 != 1) || !Reachable(env, other))
      && (status == Failed <==> (r.intf1 == 1 || r.intf2 == 1) && other in env.nodes && outcome < 0)
      && (status == TooBig <==> status != Invalid && status != Failed && apCport >= |m|)
      && (status == Already <==>
            status != Invalid && status != Failed && apCport < |m| && m[apCport] != Slot(Null, 0, 0))
      && (status != Success ==> now == m)
      && (status == Success ==>
            && apCport < |m| == |now|
            && now[apCport].cport == cport && now[apCport].id == other
            && now[apCport].intf == (if other == 0 then Pointer.Svc else if other == 2 then Local
                                     else if other in env.nodes then Node(env.nodes[other], other) else Null)
            && forall i :: 0 <= i < |m| && i != apCport ==> now[i] == m[i])
  {
  }

  /** connection_destroy needs the AP at one end, and frees its cport, whatever it is bound to. Only the
      end of the connection to SVC cport 0 ends the SVC's readiness. */
  lemma DestroyExactly(env: Environment, m: Map, r: Request)
    requires env.Valid()
    ensures
      var (now, status) := Destroy(m, r);
      var apCport := if r.intf1 == 1 then r.cport1 else r.cport2;
      && (status == Success <==> r.intf1 == 1 || r.intf2 == 1) && (status != Success ==> status == Invalid)
      && |now| == |m|
      && forall i :: 0 <= i < |m| ==> now[i] == if status == Success && i == apCport then Slot(Null, 0, 0) else m[i]
    ensures
      ReadyAfterDestroy(env, r)
      <==> env.svcReady
           && !(r.intf1 == 1 && r.intf2 == 0 && r.cport2 == 0) && !(r.intf1 == 0 && r.intf2 == 1 && r.cport1 == 0)
  {
  }

  // ----- Routing in both directions

  /** Looking up the node endpoint of a connection gives the AP cport it was created on. */
  predicate InverseAt(m: Map, i: nat)
    requires i < |m|
  {
    ToApCport(m, m[i].id, m[i].cport) == i
  }

  /** Routing inverse: reverse lookup is right for every connection to a node other than the SVC
      exactly when their node endpoints are distinct. */
  lemma InverseIffDistinct(m: Map)
    requires WellFormed(m)
    ensures (forall i :: 0 <= i < |m| && m[i].id != SVC_ID ==> InverseAt(m, i)) <==> EndpointsDistinct(m)
  {
    if forall i :: 0 <= i < |m| && m[i].id != SVC_ID ==> InverseAt(m, i) {
      forall i, j | 0 <= i < j < |m| && m[i].id != SVC_ID && m[j].id != SVC_ID
        ensures m[i].id != m[j].id || m[i].cport != m[j].cport
      {
        assert InverseAt(m, i) && InverseAt(m, j);
      }
    }
    if EndpointsDistinct(m) {
      forall i | 0 <= i < |m| && m[i].id != SVC_ID ensures InverseAt(m, i) {
        var k := ToApCport(m, m[i].id, m[i].cport);
        assert Bound(m[i], m[i].id, m[i].cport);
      }
    }
  }

  /** connection_send from the AP: the interface and cport a message for an occupied AP cport goes to. */
  function FromAp(m: Map, apCport: nat): (Pointer, nat)
    requires apCport < |m| && !m[apCport].intf.Null?
  {
    (m[apCport].intf, m[apCport].cport)
  }

  /** Replies come back: what a node sends from the endpoint that an AP cport leads to arrives on
      that AP cport, after any run of creations with fresh endpoints, destructions and resets. */
  lemma RepliesComeBack(n: nat, events: seq<Event>, apCport: nat)
    requires ValidEvents(events) && FreshEndpoints(EmptyMap(n), events)
    requires apCport < |ApplyAll(EmptyMap(n), events)| && !ApplyAll(EmptyMap(n), events)[apCport].intf.Null?
    ensures
      var m := ApplyAll(EmptyMap(n), events);
      var (intf, cport) := FromAp(m, apCport);
      !intf.Svc? ==> ToApCport(m, intf.Id(), cport) == apCport
  {
    hide ToApCport, Apply;
    var m := ApplyAll(EmptyMap(n), events);
    RunKeeps(n, events);
    InverseIffDistinct(m);
    NeverTheAp(m, apCport);
    assert m[apCport].id != SVC_ID ==> InverseAt(m, apCport);
  }

  /** A node endpoint that is not the SVC's leads to an AP cport only through a connection to it. */
  lemma LookupFindsConnections(m: Map, id: nat, cport: nat)
    requires WellFormed(m) && id != SVC_ID && ToApCport(m, id, cport) >= 0
    ensures
      var slot := m[ToApCport(m, id, cport)];
      !slot.intf.Null? && slot.intf.Id() == id && slot.cport == cport
  {
  }

  /** Free slots look like connections to SVC cport 0: the reverse lookup for it stops at the first
      slot that is either. So it yields AP cport 0 exactly when slot 0 is one of them. */
  lemma SvcLookup(m: Map)
    requires WellFormed(m) && |m| > 0
    ensures ToApCport(m, SVC_ID, 0) == 0 <==> m[0] == FREE || m[0] == Slot(Svc, 0, SVC_ID)
  {
    assert Bound(m[0], SVC_ID, 0) ==> ToApCport(m, SVC_ID, 0) == 0;
  }

  /** Destroying a connection right after creating it restores the map, whichever end is named first. */
  lemma CreateThenDestroy(env: Environment, m: Map, r: Request, outcome: int)
    requires WellFormed(m) && env.Valid() && Create(env, m, r, outcome).1 == Success
    ensures Destroy(Create(env, m, r, outcome).0, r) == (m, Success)
    ensures Destroy(Create(env, m, r, outcome).0, r.Swapped()) == (m, Success)
  {
    var created := Create(env, m, r, outcome).0;
    assert created[r.ApCport() := FREE] == m;
  }
}
