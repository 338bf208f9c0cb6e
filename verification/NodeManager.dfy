/** The globals of src/node.c and the functions that update them in place. */
module NodeManager {
  import opened NodeCache
  import opened NodeRuns

  class Nodes {
    const nodeCache: array<Item>
    const maxInterfaces: nat
    var nodeCachePos: nat
    var ctrls: map<nat, int>
    var intfs: map<nat, Interface>
    var ctrlAllocs: nat
    var intfAllocs: nat
    var idCounter: nat
    var announced: seq<nat>
    var closed: seq<int>

    ghost predicate Valid()
      reads this
    {
      nodeCachePos <= nodeCache.Length && forall c :: c in ctrls ==> c < ctrlAllocs
    }

    ghost function Lim(): Limits
      reads this
    {
      Limits(nodeCache.Length, maxInterfaces)
    }

    ghost function State(): NodeCache.State
      reads this, nodeCache
      requires Valid()
    {
      NodeCache.State(nodeCache[..nodeCachePos], ctrls, intfs, ctrlAllocs, intfAllocs, idCounter, announced, closed)
    }

    constructor (maxNodes: nat, maxInterfaces: nat)
      ensures Valid() && fresh(nodeCache)
      ensures Lim() == Limits(maxNodes, maxInterfaces)
      ensures State() == INITIAL_STATE
    {
      nodeCache := new Item[maxNodes](_ => Item(0, 0, 0, 0, 0));
      this.maxInterfaces := maxInterfaces;
      nodeCachePos := 0;
      ctrls, intfs := map[], map[];
      ctrlAllocs, intfAllocs := 0, 0;
      idCounter := FIRST_ID;
      announced, closed := [], [];
    }

    /** node_cache_find_by_addr */
    method FindByAddr(addr: Address) returns (r: int)
      requires Valid()
      ensures -1 <= r < nodeCachePos
      ensures r >= 0 ==> nodeCache[r].addr == addr
      ensures r >= 0 <==> Cached(State().cache, addr)
    {
      var i := 0;
      while i < nodeCachePos
        invariant 0 <= i <= nodeCachePos
        invariant forall k :: 0 <= k < i ==> nodeCache[k].addr != addr
      {
        if nodeCache[i].addr == addr {
          assert State().cache[i].addr == addr;
          return i;
        }
        i := i + 1;
      }
      return -1;
    }

    /** node_cache_find_by_id */
    method FindByIdInCache(id: nat) returns (r: int)
      requires Valid()
      ensures r == FindById(State().cache, id)
    {
      var i := 0;
      while i < nodeCachePos
        invariant 0 <= i <= nodeCachePos
        invariant forall k :: 0 <= k < i ==> State().cache[k].id != id
      {
        if nodeCache[i].id == id {
          assert State().cache[i].id == id;
          return i;
        }
        i := i + 1;
      }
      return -1;
    }

    /** new_interface_id */
    method NewInterfaceId() returns (id: nat)
      modifies this`idCounter
      ensures id == old(idCounter) && idCounter == AfterId(id)
    {
      id := idCounter;
      idCounter := idCounter + 1;
      if id == LAST_ID {
        idCounter := FIRST_ID;
      }
    }

    /** node_cache_remove_at */
    method RemoveAtPos(pos: nat)
      requires Valid() && pos < nodeCachePos
      modifies this`nodeCachePos, nodeCache
      ensures Valid() && State() == old(State()).(cache := RemoveAt(old(State()).cache, pos))
    {
      nodeCachePos := nodeCachePos - 1;
      if pos != nodeCachePos {
        nodeCache[pos] := nodeCache[nodeCachePos];
      }
    }

    /** gb_interface_alloc: a slot and an id, or nothing. */
    method InterfaceAlloc(ctrl: nat) returns (ok: bool)
      modifies this`intfs, this`intfAllocs, this`idCounter
      ensures ok <==> |old(intfs)| < maxInterfaces
      ensures ok ==>
        && intfs == old(intfs)[old(intfAllocs) := Interface(old(idCounter), ctrl)]
        && intfAllocs == old(intfAllocs) + 1 && idCounter == AfterId(old(idCounter))
      ensures !ok ==> intfs == old(intfs) && intfAllocs == old(intfAllocs) && idCounter == old(idCounter)
    {
      if |intfs| >= maxInterfaces {
        return false;
      }
      var id := NewInterfaceId();
      intfs := intfs[intfAllocs := Interface(id, ctrl)];
      intfAllocs := intfAllocs + 1;
      return true;
    }

    /** node_cache_add */
    method CacheAdd(item: Item) returns (ok: bool)
      requires Valid()
      modifies this`nodeCachePos, nodeCache
      ensures ok <==> old(nodeCachePos) < nodeCache.Length
      ensures Valid() && State() == if ok then old(State()).(cache := old(State()).cache + [item]) else old(State())
    {
      if nodeCachePos >= nodeCache.Length {
        return false;
      }
      nodeCache[nodeCachePos] := item;
      nodeCachePos := nodeCachePos + 1;
      return true;
    }

    /** node_create_interface */
    method NewInterface(addr: Address) returns (created: bool)
      requires Valid()
      modifies this, nodeCache
      ensures Valid() && (State(), created) == CreateInterface(Lim(), old(State()), addr)
    {
      if |ctrls| >= nodeCache.Length {
        return false;
      }
      var ctrl, intf, id := ctrlAllocs, intfAllocs, idCounter;
      ctrlAllocs := ctrlAllocs + 1;
      ctrls := ctrls[ctrl := -1];
      assert ctrls - {ctrl} == old(ctrls);
      var ok := InterfaceAlloc(ctrl);
      if !ok {
        ctrls := ctrls - {ctrl};
        return false;
      }
      created := CacheAdd(Item(-1, id, addr, intf, 0));
      if !created {
        ctrls := ctrls - {ctrl};
      }
    }

    /** node_filter */
    method NodeFilter(active: seq<Address>)
      requires Valid()
      modifies this, nodeCache
      ensures Valid() && State() == Filter(Lim(), old(State()), active)
    {
      hide Filter, CreateInterface, Cached;
      var i := 0;
      FilterNone(Lim(), State());
      while i < |active|
        invariant 0 <= i <= |active| && Valid()
        invariant State() == Filter(Lim(), old(State()), active[..i])
      {
        FilterNext(Lim(), old(State()), active, i);
        var found := FindByAddr(active[i]);
        if found < 0 {
          var id := idCounter;
          var created := NewInterface(active[i]);
          if created {
            announced := announced + [id];
          }
        }
        i := i + 1;
      }
      assert active[..i] == active;
    }

    /** node_destroy_interface */
    method DestroyInterface(h: nat)
      requires Valid() && Live(State(), h)
      modifies this, nodeCache
      ensures Valid() && State() == Destroy(old(State()), h)
    {
      var sock := ctrls[intfs[h].ctrl];
      if sock >= 0 {
        closed := closed + [sock];
      }
      var pos := FindByIdInCache(intfs[h].id);
      if pos >= 0 {
        RemoveAtPos(pos);
      }
      ctrls := ctrls - {intfs[h].ctrl};
      intfs := intfs - {h};
    }

    /** node_intf_create_connection; `outcome` is what connect_to_node returns if it is called. */
    method CreateConnection(h: nat, cport: nat, outcome: int) returns (ret: int)
      requires Valid() && Live(State(), h)
      modifies this, nodeCache
      ensures Valid() && State() == Connect(old(State()), h, cport, outcome)
      ensures
        var s, sock := old(State()), old(ctrls[intfs[h].ctrl]);
        ret == if cport != 0 then 0
               else if sock >= 0 then sock
               else if forall i :: 0 <= i < |s.cache| ==> s.cache[i].id != s.intfs[h].id then -22
               else outcome
      ensures cport == 0 && ret >= 0 ==> State().ctrls[State().intfs[h].ctrl] == ret
    {
      if cport != 0 {
        return 0;
      }
      var ctrl := intfs[h].ctrl;
      if ctrls[ctrl] >= 0 {
        return ctrls[ctrl];
      }
      var pos := FindByIdInCache(intfs[h].id);
      if pos < 0 {
        return -22;
      }
      if outcome < 0 {
        return outcome;
      }
      nodeCache[pos] := nodeCache[pos].(sock := outcome);
      ctrls := ctrls[ctrl := outcome];
      return outcome;
    }

    /** node_destroy_all, up to its final assertion, which is evaluated. It keeps agreement, so it may be
        called again. */
    method DestroyAll() returns (assertionHolds: bool)
      requires Valid() && Agrees(Lim(), State())
      modifies this, nodeCache
      ensures Valid() && State() == DestroyFrom(Lim(), old(State()), 0)
      ensures assertionHolds <==> old(nodeCachePos) <= 1 && Lost(old(State())) == 0
      ensures Agrees(Lim(), State()) && Lost(State()) == Lost(old(State())) + old(nodeCachePos) / 2
    {
      hide Agrees, Destroy, DestroyFrom, Live, InCache, Lost, IsLost;
      ghost var start := State();
      var i := 0;
      while i < nodeCachePos
        invariant Valid() && Agrees(Lim(), State())
        invariant DestroyFrom(Lim(), start, 0) == DestroyFrom(Lim(), State(), i)
        decreases nodeCachePos - i
      {
        DestroyFromUnfold(Lim(), State(), i);
        DestroyInterface(nodeCache[i].intf);
        i := i + 1;
      }
      DestroyFromUnfold(Lim(), State(), i);
      nodeCachePos := 0;
      DestroyAllReleasesHalf(Lim(), start);
      assertionHolds := |ctrls| == 0;
    }
  }
}
