/** Runs of the node cache: agreement is kept by every run, discovery only appends, and what
    node_destroy_all leaves behind. */
module NodeRuns {
  import opened NodeCache

  // ----- Discovery

  lemma FilterNone(lim: Limits, s: State)
    ensures Filter(lim, s, []) == s
  {
  }

  lemma FilterNext(lim: Limits, s: State, addrs: seq<Address>, i: nat)
    requires i < |addrs|
    ensures Filter(lim, s, addrs[..i + 1]) == FilterOne(lim, Filter(lim, s, addrs[..i]), addrs[i])
  {
    hide FilterOne;
    assert addrs[..i + 1][..i] == addrs[..i];
  }

  function Ids(items: seq<Item>): seq<nat> {
    if items == [] then [] else Ids(items[..|items| - 1]) + [items[|items| - 1].id]
  }

  lemma CreatedCaches(s: State, addr: Address)
    ensures Cached(Created(s, addr).cache, addr)
    ensures forall a :: Cached(s.cache, a) ==> Cached(Created(s, addr).cache, a)
    ensures forall a :: Cached(Created(s, addr).cache, a) ==> Cached(s.cache, a) || a == addr
  {
    var r := Created(s, addr).cache;
    assert r[|s.cache|].addr == addr;
    forall a | Cached(s.cache, a) ensures Cached(r, a) {
      var i :| 0 <= i < |s.cache| && s.cache[i].addr == a;
      assert r[i].addr == a;
    }
  }

  /** There is no room for another node. */
  predicate Full(lim: Limits, s: State) {
    |s.ctrls| >= lim.nodes || |s.intfs| >= lim.interfaces || |s.cache| >= lim.nodes
  }

  lemma FilterOneAppends(lim: Limits, s: State, addr: Address)
    ensures
      var r := FilterOne(lim, s, addr);
      && (forall a :: Cached(s.cache, a) ==> Cached(r.cache, a))
      && (forall a :: Cached(r.cache, a) ==> Cached(s.cache, a) || a == addr)
      && (Cached(r.cache, addr) || Full(lim, r)) && (Full(lim, s) ==> Full(lim, r))
      && (if r.cache == s.cache then r.announced == s.announced
          else
            && |r.cache| == |s.cache| + 1 && s.cache <= r.cache && r.cache[|s.cache|].id == s.nextId
            && r.announced == s.announced + [s.nextId])
  {
    hide Cached;
    CreatedCaches(s, addr);
    assert Creates(lim, s, addr) ==> FilterOne(lim, s, addr) == Created(s, addr);
  }

  /** Discovery never removes or reorders entries: it appends entries for active addresses that were
      not cached, announcing exactly their ids, in order; and afterwards every active address is cached
      or there is no room left. */
  lemma {:induction false} FilterAppends(lim: Limits, s: State, addrs: seq<Address>)
    ensures
      var r := Filter(lim, s, addrs);
      && s.cache <= r.cache && |r.cache| <= |s.cache| + |addrs|
      && r.announced == s.announced + Ids(r.cache[|s.cache|..])
      && (forall a :: Cached(r.cache, a) ==> Cached(s.cache, a) || a in addrs)
      && ((forall a :: a in addrs ==> Cached(r.cache, a)) || Full(lim, r))
  {
    hide FilterOne, Cached, Full;
    if addrs == [] {
      assert s.cache[|s.cache|..] == [];
      assert s.announced + Ids([]) == s.announced;
    } else {
      var n := |addrs| - 1;
      var m := Filter(lim, s, addrs[..n]);
      FilterAppends(lim, s, addrs[..n]);
      FilterOneAppends(lim, m, addrs[n]);
      var r := FilterOne(lim, m, addrs[n]);
      assert addrs == addrs[..n] + [addrs[n]];
      if r.cache != m.cache {
        var added := r.cache[|s.cache|..];
        assert added[..|added| - 1] == m.cache[|s.cache|..];
        assert Ids(added) == Ids(m.cache[|s.cache|..]) + [m.nextId];
      }
    }
  }

  // ----- Fresh ids

  /** Every node that discovery enters gets an id no cached node has. */
  predicate FreshDiscoveries(lim: Limits, s: State, addrs: seq<Address>) {
    addrs == [] ||
    var n := |addrs| - 1;
    FreshDiscoveries(lim, s, addrs[..n]) && FreshOne(lim, Filter(lim, s, addrs[..n]), addrs[n])
  }

  lemma NotDistinctStays(a: seq<Item>, b: seq<Item>)
    requires !Distinct(a) && a <= b
    ensures !Distinct(b)
  {
    var i, j :| 0 <= i < j < |a| && !(a[i].addr != a[j].addr && a[i].id != a[j].id && a[i].intf != a[j].intf);
    assert b[i] == a[i] && b[j] == a[j];
  }

  /** Discovery keeps agreement exactly when all its ids are fresh, and what it breaks is that no two
      cached nodes have the same id. It loses no slots. */
  lemma {:induction false} FilterAgreesIffFresh(lim: Limits, s: State, addrs: seq<Address>)
    requires Agrees(lim, s)
    ensures Agrees(lim, Filter(lim, s, addrs)) <==> FreshDiscoveries(lim, s, addrs)
    ensures Distinct(Filter(lim, s, addrs).cache) <==> FreshDiscoveries(lim, s, addrs)
    ensures FreshDiscoveries(lim, s, addrs) ==> Lost(Filter(lim, s, addrs)) == Lost(s)
  {
    hide AllBacked, SlabsFaithful, Distinct, Numbered, FilterOne, FreshOne;
    if addrs != [] {
      var n := |addrs| - 1;
      var m := Filter(lim, s, addrs[..n]);
      FilterAgreesIffFresh(lim, s, addrs[..n]);
      if Agrees(lim, m) {
        DiscoveryAgreesIffFresh(lim, m, addrs[n]);
      } else {
        FilterOneAppends(lim, m, addrs[n]);
        NotDistinctStays(m.cache, FilterOne(lim, m, addrs[n]).cache);
      }
    }
  }

  lemma FilterOneAllocs(lim: Limits, s: State, addr: Address)
    ensures s.intfAllocs <= FilterOne(lim, s, addr).intfAllocs <= s.intfAllocs + 1
    ensures Creates(lim, s, addr) ==> FilterOne(lim, s, addr).intfAllocs == s.intfAllocs + 1
    ensures forall more: nat :: Young(s, more + 1) ==> Young(FilterOne(lim, s, addr), more)
  {
  }

  /** While no live interface is 253 allocations old, ids are fresh. */
  lemma {:induction false} YoungMeansFreshDiscoveries(lim: Limits, s: State, addrs: seq<Address>, more: nat)
    requires Agrees(lim, s) && Young(s, |addrs| + more)
    ensures FreshDiscoveries(lim, s, addrs) && Young(Filter(lim, s, addrs), more)
  {
    if addrs != [] {
      hide AllBacked, SlabsFaithful, Distinct, Numbered, FilterOne, Young, FreshNextId, Creates;
      var n := |addrs| - 1;
      var m := Filter(lim, s, addrs[..n]);
      YoungMeansFreshDiscoveries(lim, s, addrs[..n], more + 1);
      FilterAgreesIffFresh(lim, s, addrs[..n]);
      YoungLess(m, more);
      YoungMeansFresh(m);
      FilterOneAllocs(lim, m, addrs[n]);
    }
  }

  lemma YoungLess(s: State, more: nat)
    requires Young(s, more + 1)
    ensures Young(s, 1)
  {
  }

  /** While no more than 253 interfaces have been allocated in all, ids are fresh. */
  lemma {:induction false} FewMeansFreshDiscoveries(lim: Limits, s: State, addrs: seq<Address>)
    requires Agrees(lim, s) && Filter(lim, s, addrs).intfAllocs <= PERIOD
    ensures FreshDiscoveries(lim, s, addrs)
    ensures s.intfAllocs <= Filter(lim, s, addrs).intfAllocs
  {
    FilterAllocs(lim, s, addrs);
    if addrs != [] {
      hide AllBacked, SlabsFaithful, Distinct, FilterOne, FreshNextId, Creates;
      var n := |addrs| - 1;
      var m := Filter(lim, s, addrs[..n]);
      FilterOneAllocs(lim, m, addrs[n]);
      FewMeansFreshDiscoveries(lim, s, addrs[..n]);
      FilterAgreesIffFresh(lim, s, addrs[..n]);
      if Creates(lim, m, addrs[n]) {
        YoungMeansFresh(m);
      }
    }
  }

  lemma {:induction false} FilterAllocs(lim: Limits, s: State, addrs: seq<Address>)
    ensures s.intfAllocs <= Filter(lim, s, addrs).intfAllocs
  {
    if addrs != [] {
      hide FilterOne;
      var n := |addrs| - 1;
      FilterAllocs(lim, s, addrs[..n]);
      FilterOneAllocs(lim, Filter(lim, s, addrs[..n]), addrs[n]);
    }
  }

  // ----- node_destroy_all

  /** The loop from index i on: the index ascends while every destruction shortens the array. */
  function DestroyFrom(lim: Limits, s: State, i: nat): State
    requires Agrees(lim, s)
    decreases |s.cache| - i
  {
    if i >= |s.cache| then s.(cache := [])
    else
      EntryKnown(lim, s, i);
      DestroyAgrees(lim, s, s.cache[i].intf);
      DestroyFrom(lim, Destroy(s, s.cache[i].intf), i + 1)
  }

  lemma EntryKnown(lim: Limits, s: State, i: nat)
    requires Agrees(lim, s) && i < |s.cache|
    ensures Known(s, s.cache[i].intf)
    ensures FindById(s.cache, s.intfs[s.cache[i].intf].id) == i
  {
    assert Backed(s, s.cache[i]);
    var pos := FindById(s.cache, s.cache[i].id);
    assert pos >= 0;
  }

  lemma DestroyFromUnfold(lim: Limits, s: State, i: nat)
    requires Agrees(lim, s)
    ensures i >= |s.cache| ==> DestroyFrom(lim, s, i) == s.(cache := [])
    ensures i < |s.cache| ==>
      var h := s.cache[i].intf;
      && Known(s, h) && Agrees(lim, Destroy(s, h)) && |Destroy(s, h).cache| == |s.cache| - 1
      && Lost(Destroy(s, h)) == Lost(s)
      && DestroyFrom(lim, s, i) == DestroyFrom(lim, Destroy(s, h), i + 1)
  {
    hide Agrees, Destroy, Known, Lost;
    if i < |s.cache| {
      EntryKnown(lim, s, i);
      DestroyAgrees(lim, s, s.cache[i].intf);
    }
  }

  /** The interface is that of an entry before `lo` or from `hi` on. */
  predicate Outside(cache: seq<Item>, lo: nat, hi: nat, h: nat) {
    exists j :: 0 <= j < |cache| && (j < lo || hi <= j) && cache[j].intf == h
  }

  lemma OutsideAfterRemoval(cache: seq<Item>, i: nat, hi: nat, h: nat)
    requires i < hi <= |cache| && (hi == |cache| ==> i == |cache| - 1)
    ensures Outside(RemoveAt(cache, i), i + 1, hi, h) <==> Outside(cache, i, hi, h)
  {
    var r, last := RemoveAt(cache, i), |cache| - 1;
    if Outside(r, i + 1, hi, h) {
      var j :| 0 <= j < |r| && (j < i + 1 || hi <= j) && r[j].intf == h;
      var k := if j == i then last else j;
      assert cache[k].intf == h;
    }
    if Outside(cache, i, hi, h) {
      var j :| 0 <= j < |cache| && (j < i || hi <= j) && cache[j].intf == h;
      var k := if j == last then i else j;
      assert k < |r| && r[k].intf == h;
    }
  }

  /** The interface slot is in use, and no cache entry leads to it. */
  predicate IsLost(s: State, h: nat) {
    h in s.intfs && !InCache(s, h)
  }

  lemma EntryRemoved(lim: Limits, s: State, i: nat)
    requires Agrees(lim, s) && i < |s.cache|
    ensures Known(s, s.cache[i].intf)
    ensures
      var r := Destroy(s, s.cache[i].intf);
      r.cache == RemoveAt(s.cache, i) && r.intfs == s.intfs - {s.cache[i].intf}
  {
    hide FindById, AllBacked, SlabsFaithful, Numbered, Distinct;
    EntryKnown(lim, s, i);
  }

  lemma StillThere(s: State, r: State, i: nat, h: nat)
    requires i < |s.cache| && r.cache == RemoveAt(s.cache, i) && h != s.cache[i].intf
    ensures InCache(r, h) <==> InCache(s, h)
  {
    if InCache(s, h) {
      var j :| 0 <= j < |s.cache| && s.cache[j].intf == h;
      var j' := if j == |s.cache| - 1 then i else j;
      assert r.cache[j'].intf == h;
    }
    if InCache(r, h) {
      var j :| 0 <= j < |r.cache| && r.cache[j].intf == h;
      assert s.cache[Origin(s.cache, i, j)].intf == h;
    }
  }

  lemma LostStaysLost(lim: Limits, s: State, i: nat, h: nat)
    requires Agrees(lim, s) && i < |s.cache| && Live(s, s.cache[i].intf)
    ensures IsLost(Destroy(s, s.cache[i].intf), h) <==> IsLost(s, h)
  {
    hide Agrees, Destroy, InCache, RemoveAt;
    EntryRemoved(lim, s, i);
    if h != s.cache[i].intf {
      StillThere(s, Destroy(s, s.cache[i].intf), i, h);
    }
  }

  /** How many entries the loop destroys when it starts at index i of an array of length n. */
  function Destroyed(n: nat, i: nat): nat {
    if i < n then (n - i + 1) / 2 else 0
  }

  lemma InUse(lim: Limits, s: State, i: nat, h: nat)
    requires Agrees(lim, s) && i >= |s.cache|
    ensures h in s.intfs <==> IsLost(s, h) || Outside(s.cache, i, i, h)
  {
    if Outside(s.cache, i, i, h) {
      var j :| 0 <= j < |s.cache| && s.cache[j].intf == h;
      assert Backed(s, s.cache[j]);
    }
  }

  lemma {:induction false} DestroyFromKeeps(lim: Limits, s: State, i: nat, h: nat)
    requires Agrees(lim, s) && i <= |s.cache| + 1
    ensures h in DestroyFrom(lim, s, i).intfs
            <==> IsLost(s, h) || Outside(s.cache, i, i + Destroyed(|s.cache|, i), h)
    decreases |s.cache| - i
  {
    hide Agrees, Outside, IsLost, DestroyFrom, Destroy, Live, InCache, Lost, RemoveAt;
    var n := |s.cache|;
    DestroyFromUnfold(lim, s, i);
    if i >= n {
      InUse(lim, s, i, h);
    } else {
      EntryRemoved(lim, s, i);
      DestroyFromKeeps(lim, Destroy(s, s.cache[i].intf), i + 1, h);
      OutsideAfterRemoval(s.cache, i, i + Destroyed(n, i), h);
      LostStaysLost(lim, s, i, h);
    }
  }

  lemma DestroyedNext(n: nat, i: nat)
    requires i < n
    ensures Destroyed(n, i) == 1 + Destroyed(n - 1, i + 1)
  {
  }

  /** Agreement with an empty cache and so many slots of each slab in use. */
  predicate Emptied(lim: Limits, s: State, left: int) {
    Agrees(lim, s) && s.cache == [] && |s.ctrls| == |s.intfs| == left
  }

  lemma EmptiedNow(lim: Limits, s: State)
    requires Agrees(lim, s)
    ensures Emptied(lim, s.(cache := []), Lost(s) + |s.cache|)
  {
  }

  lemma {:induction false} DestroyFromCounts(lim: Limits, s: State, i: nat)
    requires Agrees(lim, s) && i <= |s.cache| + 1
    ensures Emptied(lim, DestroyFrom(lim, s, i), Lost(s) + |s.cache| - Destroyed(|s.cache|, i))
    decreases |s.cache| - i
  {
    hide Agrees, Destroy, Live, InCache, Emptied, Lost;
    DestroyFromUnfold(lim, s, i);
    if i < |s.cache| {
      hide Destroyed;
      DestroyFromCounts(lim, Destroy(s, s.cache[i].intf), i + 1);
      DestroyedNext(|s.cache|, i);
    } else {
      EmptiedNow(lim, s);
    }
  }

  /** node_destroy_all is meant to release every node. It destroys only the first half of the entries,
      rounded up, and forgets the others: their slots stay in use and are lost, as are those lost before.
      So the final assertion, that no control slot is in use, holds exactly when at most one node was
      cached and none was lost. */
  lemma {:induction false} DestroyAllReleasesHalf(lim: Limits, s: State)
    requires Agrees(lim, s)
    ensures
      var r := DestroyFrom(lim, s, 0);
      var n := |s.cache|;
      && Agrees(lim, r) && r.cache == []
      && |r.ctrls| == |r.intfs| == Lost(r) == Lost(s) + n / 2
      && (forall j :: 0 <= j < n ==> (s.cache[j].intf in r.intfs <==> (n + 1) / 2 <= j))
      && (forall h :: IsLost(s, h) ==> h in r.intfs)
      && (|r.ctrls| == 0 <==> n <= 1 && Lost(s) == 0)
  {
    hide DestroyFrom, AllBacked, SlabsFaithful, Numbered, Distinct;
    DestroyFromCounts(lim, s, 0);
    var n := |s.cache|;
    forall j | 0 <= j < n
      ensures s.cache[j].intf in DestroyFrom(lim, s, 0).intfs <==> (n + 1) / 2 <= j
    {
      DestroyFromKeeps(lim, s, 0, s.cache[j].intf);
      OutsideIndex(s.cache, (n + 1) / 2, j);
    }
    forall h | IsLost(s, h) ensures h in DestroyFrom(lim, s, 0).intfs {
      DestroyFromKeeps(lim, s, 0, h);
    }
  }

  lemma OutsideIndex(cache: seq<Item>, hi: nat, j: nat)
    requires Distinct(cache) && j < |cache|
    ensures Outside(cache, 0, hi, cache[j].intf) <==> hi <= j
  {
    if Outside(cache, 0, hi, cache[j].intf) {
      var k :| 0 <= k < |cache| && hi <= k && cache[k].intf == cache[j].intf;
      assert k == j;
    }
  }

  // ----- Runs

  datatype Event =
    | Discover(addrs: seq<Address>)
    | OpenConnection(intf: nat, cport: nat, outcome: int)
    | Remove(intf: nat)
    | Stop

  /** The cache leads to the interfaces that are connected or removed. Stopping without agreement may
      reach interfaces that have been freed, which is outside the contract of the C code. */
  predicate Enabled(lim: Limits, s: State, e: Event) {
    match e
    case Discover(_) => true
    case OpenConnection(h, _, _) => Known(s, h)
    case Remove(h) => Known(s, h)
    case Stop => Agrees(lim, s)
  }

  function Apply(lim: Limits, s: State, e: Event): State
    requires Enabled(lim, s, e)
  {
    match e
    case Discover(addrs) => Filter(lim, s, addrs)
    case OpenConnection(h, cport, outcome) => Connect(s, h, cport, outcome)
    case Remove(h) => Destroy(s, h)
    case Stop => DestroyFrom(lim, s, 0)
  }

  predicate AllEnabled(lim: Limits, s: State, events: seq<Event>)
    decreases |events|
  {
    events == [] || (Enabled(lim, s, events[0]) && AllEnabled(lim, Apply(lim, s, events[0]), events[1..]))
  }

  function ApplyAll(lim: Limits, s: State, events: seq<Event>): State
    requires AllEnabled(lim, s, events)
    decreases |events|
  {
    if events == [] then s else ApplyAll(lim, Apply(lim, s, events[0]), events[1..])
  }

  /** Agreement now and after every event. */
  predicate AlwaysAgrees(lim: Limits, s: State, events: seq<Event>)
    requires AllEnabled(lim, s, events)
    decreases |events|
  {
    Agrees(lim, s) && (events == [] || AlwaysAgrees(lim, Apply(lim, s, events[0]), events[1..]))
  }

  predicate AllFresh(lim: Limits, s: State, events: seq<Event>)
    requires AllEnabled(lim, s, events)
    decreases |events|
  {
    events == [] ||
    ((events[0].Discover? ==> FreshDiscoveries(lim, s, events[0].addrs))
     && AllFresh(lim, Apply(lim, s, events[0]), events[1..]))
  }

  lemma EventAgreesIffFresh(lim: Limits, s: State, e: Event)
    requires Agrees(lim, s) && Enabled(lim, s, e)
    ensures Agrees(lim, Apply(lim, s, e)) <==> (e.Discover? ==> FreshDiscoveries(lim, s, e.addrs))
    ensures Agrees(lim, Apply(lim, s, e)) ==>
      Lost(Apply(lim, s, e)) == Lost(s) + if e.Stop? then |s.cache| / 2 else 0
  {
    hide Agrees, Known, FreshDiscoveries, DestroyFrom, Lost;
    match e {
      case Discover(addrs) => FilterAgreesIffFresh(lim, s, addrs);
      case OpenConnection(h, cport, outcome) => ConnectAgrees(lim, s, h, cport, outcome);
      case Remove(h) => DestroyAgrees(lim, s, h);
      case Stop => DestroyAllReleasesHalf(lim, s);
    }
  }

  /** Cache and allocator agreement over every run, stops included: it is kept throughout if and only if
      every node entered on the way gets a fresh id. */
  lemma {:induction false} RunAgreesIffFresh(lim: Limits, s: State, events: seq<Event>)
    requires Agrees(lim, s) && AllEnabled(lim, s, events)
    ensures AlwaysAgrees(lim, s, events) <==> AllFresh(lim, s, events)
    ensures AllFresh(lim, s, events) ==> Agrees(lim, ApplyAll(lim, s, events))
    decreases |events|
  {
    if events != [] {
      hide Agrees, Apply, Enabled, FreshDiscoveries, Lost;
      EventAgreesIffFresh(lim, s, events[0]);
      var next := Apply(lim, s, events[0]);
      if Agrees(lim, next) {
        RunAgreesIffFresh(lim, next, events[1..]);
      }
    }
  }

  /** The halves that the stops of a run leave behind. */
  function LeftBehind(lim: Limits, s: State, events: seq<Event>): nat
    requires AllEnabled(lim, s, events)
    decreases |events|
  {
    if events == [] then 0
    else
      (if events[0].Stop? then |s.cache| / 2 else 0) + LeftBehind(lim, Apply(lim, s, events[0]), events[1..])
  }

  function Room(lim: Limits): nat {
    if lim.nodes < lim.interfaces then lim.nodes else lim.interfaces
  }

  /** Slots are lost by stopping, half of the cached nodes each time, and by nothing else; and the cache
      has only the room that is left. */
  lemma {:induction false} RunLosesHalves(lim: Limits, s: State, events: seq<Event>)
    requires Agrees(lim, s) && AllEnabled(lim, s, events) && AllFresh(lim, s, events)
    ensures
      var r := ApplyAll(lim, s, events);
      Lost(r) == Lost(s) + LeftBehind(lim, s, events) && |r.cache| + Lost(r) <= Room(lim)
    decreases |events|
  {
    if events != [] {
      hide Agrees, Apply, Enabled, FreshDiscoveries, Lost, Room;
      EventAgreesIffFresh(lim, s, events[0]);
      RunLosesHalves(lim, Apply(lim, s, events[0]), events[1..]);
    }
  }

  /** Discovery after a stop enters every active address, or fills exactly the room that is left. */
  lemma DiscoveryAfterStop(lim: Limits, s: State, addrs: seq<Address>)
    requires Agrees(lim, s) && FreshDiscoveries(lim, DestroyFrom(lim, s, 0), addrs)
    ensures
      var r := Filter(lim, DestroyFrom(lim, s, 0), addrs);
      var room := Room(lim) - Lost(s) - |s.cache| / 2;
      && |r.cache| <= room
      && ((forall a :: a in addrs ==> Cached(r.cache, a)) || |r.cache| == room)
  {
    hide DestroyFrom, FreshDiscoveries, Cached, AllBacked, SlabsFaithful, Numbered, Distinct, Filter, IsLost;
    DestroyAllReleasesHalf(lim, s);
    FilterAgreesIffFresh(lim, DestroyFrom(lim, s, 0), addrs);
    FilterAppends(lim, DestroyFrom(lim, s, 0), addrs);
  }

  lemma {:induction false} DestroyFromAllocs(lim: Limits, s: State, i: nat)
    requires Agrees(lim, s)
    ensures DestroyFrom(lim, s, i).intfAllocs == s.intfAllocs
    decreases |s.cache| - i
  {
    hide Agrees, Live, InCache, Lost;
    DestroyFromUnfold(lim, s, i);
    if i < |s.cache| {
      DestroyFromAllocs(lim, Destroy(s, s.cache[i].intf), i + 1);
    }
  }

  lemma EventAllocs(lim: Limits, s: State, e: Event)
    requires Enabled(lim, s, e)
    ensures s.intfAllocs <= Apply(lim, s, e).intfAllocs
  {
    hide Agrees, DestroyFrom, Filter;
    match e {
      case Discover(addrs) => FilterAllocs(lim, s, addrs);
      case OpenConnection(_, _, _) =>
      case Remove(_) =>
      case Stop => DestroyFromAllocs(lim, s, 0);
    }
  }

  lemma {:induction false} AllocsGrow(lim: Limits, s: State, events: seq<Event>)
    requires AllEnabled(lim, s, events)
    ensures s.intfAllocs <= ApplyAll(lim, s, events).intfAllocs
    decreases |events|
  {
    if events != [] {
      hide Enabled, Apply;
      EventAllocs(lim, s, events[0]);
      AllocsGrow(lim, Apply(lim, s, events[0]), events[1..]);
    }
  }

  lemma {:induction false} FewMeansAllFresh(lim: Limits, s: State, events: seq<Event>)
    requires Agrees(lim, s) && AllEnabled(lim, s, events) && ApplyAll(lim, s, events).intfAllocs <= PERIOD
    ensures AllFresh(lim, s, events)
    decreases |events|
  {
    if events != [] {
      hide Agrees, FreshDiscoveries, Connect, Destroy, DestroyFrom, Known, Lost;
      var next := Apply(lim, s, events[0]);
      AllocsGrow(lim, next, events[1..]);
      if events[0].Discover? {
        FewMeansFreshDiscoveries(lim, s, events[0].addrs);
      }
      EventAgreesIffFresh(lim, s, events[0]);
      FewMeansAllFresh(lim, next, events[1..]);
    }
  }

  lemma InitialAgrees(lim: Limits)
    ensures Agrees(lim, INITIAL_STATE)
  {
  }

  lemma NothingLostAtFirst()
    ensures Lost(INITIAL_STATE) == 0
  {
  }

  /** Runs from the start. Those that allocate no more than 253 interfaces always agree; and as long as
      ids are fresh, what is lost is what the stops have left behind. */
  lemma RunsFromStart(lim: Limits, events: seq<Event>)
    requires AllEnabled(lim, INITIAL_STATE, events)
    ensures AlwaysAgrees(lim, INITIAL_STATE, events) <==> AllFresh(lim, INITIAL_STATE, events)
    ensures ApplyAll(lim, INITIAL_STATE, events).intfAllocs <= PERIOD ==> AlwaysAgrees(lim, INITIAL_STATE, events)
    ensures AllFresh(lim, INITIAL_STATE, events) ==>
      var r := ApplyAll(lim, INITIAL_STATE, events);
      && Lost(r) == LeftBehind(lim, INITIAL_STATE, events)
      && ((forall h :: h in r.intfs ==> InCache(r, h)) <==> LeftBehind(lim, INITIAL_STATE, events) == 0)
  {
    hide *;
    InitialAgrees(lim);
    NothingLostAtFirst();
    RunAgreesIffFresh(lim, INITIAL_STATE, events);
    if ApplyAll(lim, INITIAL_STATE, events).intfAllocs <= PERIOD {
      FewMeansAllFresh(lim, INITIAL_STATE, events);
    }
    if AllFresh(lim, INITIAL_STATE, events) {
      RunLosesHalves(lim, INITIAL_STATE, events);
      AllKnownIffNoneLost(lim, ApplyAll(lim, INITIAL_STATE, events));
    }
  }

  /** With agreement, node_create_interface fails only for want of a slot: the full-cache branch is
      never taken. */
  lemma CreateFailsOnlyWithoutSlots(lim: Limits, s: State, addr: Address)
    requires Agrees(lim, s)
    ensures CreateInterface(lim, s, addr).1 <==> |s.ctrls| < lim.nodes && |s.intfs| < lim.interfaces
    ensures !CreateInterface(lim, s, addr).1 ==> CreateInterface(lim, s, addr).0.intfs == s.intfs
  {
  }

  // ----- A repeated id

  /** One node has been there from the start; n others have come and gone. */
  function Aged(n: nat): State {
    State([Item(-1, 3, 1, 0, 0)], map[0 := -1], map[0 := Interface(3, 0)], n + 1, n + 1, NthId(n + 1),
          seq(n + 1, i requires 0 <= i => NthId(i)), [])
  }

  /** Another node is discovered and removed, n times; k interfaces have been allocated before. */
  function Cycles(k: nat, n: nat): seq<Event>
    decreases n
  {
    if n == 0 then [] else [Discover([2]), Remove(k)] + Cycles(k + 1, n - 1)
  }

  const AGING: seq<Event> := [Discover([1])] + Cycles(1, PERIOD - 1)

  lemma OneAddress(lim: Limits, s: State, addr: Address)
    ensures Filter(lim, s, [addr]) == FilterOne(lim, s, addr)
  {
    hide FilterOne;
    assert [addr][..0] == [];
  }

  /** The state in which the second node is there. */
  function TwoNodes(n: nat): State {
    Created(Aged(n), 2)
  }

  lemma SecondNode(lim: Limits, n: nat)
    requires lim.nodes >= 2 && lim.interfaces >= 2
    ensures Filter(lim, Aged(n), [2]) == TwoNodes(n)
    ensures Known(TwoNodes(n), n + 1)
    ensures TwoNodes(n).cache == [Item(-1, 3, 1, 0, 0), Item(-1, NthId(n + 1), 2, n + 1, 0)]
  {
    OneAddress(lim, Aged(n), 2);
    assert !Cached(Aged(n).cache, 2);
    assert FilterOne(lim, Aged(n), 2) == Created(Aged(n), 2);
    assert TwoNodes(n).cache[1].intf == n + 1;
  }

  lemma SecondFound(n: nat)
    requires n + 1 < PERIOD
    ensures
      var cache := [Item(-1, 3, 1, 0, 0), Item(-1, NthId(n + 1), 2, n + 1, 0)];
      && TwoNodes(n).cache == cache && FindById(cache, NthId(n + 1)) == 1
      && RemoveAt(cache, 1) == [Item(-1, 3, 1, 0, 0)]
  {
  }

  lemma SecondNodeGone(n: nat)
    requires n + 1 < PERIOD
    ensures Live(TwoNodes(n), n + 1) && Destroy(TwoNodes(n), n + 1) == Aged(n + 1)
  {
    hide FindById, RemoveAt;
    var s, r := TwoNodes(n), Destroy(TwoNodes(n), n + 1);
    SecondFound(n);
    assert r.ctrls == map[0 := -1] && r.intfs == map[0 := Interface(3, 0)];
    NextNth(n + 1);
    assert r.announced == Aged(n + 1).announced;
  }

  lemma CyclesFirst(k: nat, n: nat)
    ensures n == 0 ==> Cycles(k, n) == []
    ensures n > 0 ==> Cycles(k, n) == [Discover([2]), Remove(k)] + Cycles(k + 1, n - 1)
  {
  }

  lemma NoEvents(lim: Limits, s: State)
    ensures AllEnabled(lim, s, []) && ApplyAll(lim, s, []) == s
  {
  }

  lemma TwoSteps(lim: Limits, s: State, events: seq<Event>)
    requires |events| >= 2 && Enabled(lim, s, events[0])
    requires Enabled(lim, Apply(lim, s, events[0]), events[1])
    requires AllEnabled(lim, Apply(lim, Apply(lim, s, events[0]), events[1]), events[1..][1..])
    ensures AllEnabled(lim, s, events)
    ensures ApplyAll(lim, s, events)
            == ApplyAll(lim, Apply(lim, Apply(lim, s, events[0]), events[1]), events[1..][1..])
  {
    hide Enabled, Apply;
    assert events[1..][0] == events[1];
    assert AllEnabled(lim, Apply(lim, s, events[0]), events[1..]);
  }

  lemma {:induction false} CyclesAge(lim: Limits, k: nat, n: nat)
    requires lim.nodes >= 2 && lim.interfaces >= 2 && k + n < PERIOD
    ensures AllEnabled(lim, Aged(k), Cycles(k + 1, n))
    ensures ApplyAll(lim, Aged(k), Cycles(k + 1, n)) == Aged(k + n)
    decreases n
  {
    hide Aged, TwoNodes, Destroy, Filter, Known, Live, AllEnabled, ApplyAll, Cycles, Created, Agrees, DestroyFrom;
    CyclesFirst(k + 1, n);
    if n == 0 {
      NoEvents(lim, Aged(k));
    } else {
      SecondNode(lim, k);
      SecondNodeGone(k);
      CyclesAge(lim, k + 1, n - 1);
      var events := [Discover([2]), Remove(k + 1)] + Cycles(k + 2, n - 1);
      assert events[1..][1..] == Cycles(k + 2, n - 1);
      TwoSteps(lim, Aged(k), events);
    }
  }

  /** A run of 253 allocations, all of whose states agree, after which the first node is still there. */
  lemma AgingReached(lim: Limits)
    requires lim.nodes >= 2 && lim.interfaces >= 2
    ensures AllEnabled(lim, INITIAL_STATE, AGING) && AlwaysAgrees(lim, INITIAL_STATE, AGING)
    ensures ApplyAll(lim, INITIAL_STATE, AGING) == Aged(PERIOD - 1)
  {
    hide Aged, Cycles, Filter, AlwaysAgrees, AllFresh, Lost, LeftBehind, Agrees, DestroyFrom;
    FirstNode(lim);
    CyclesAge(lim, 0, PERIOD - 1);
    assert AGING[0] == Discover([1]) && AGING[1..] == Cycles(1, PERIOD - 1);
    assert Aged(PERIOD - 1).intfAllocs == PERIOD by { AgedAllocs(PERIOD - 1); }
    RunsFromStart(lim, AGING);
  }

  lemma AgedAllocs(n: nat)
    ensures Aged(n).intfAllocs == n + 1
  {
  }

  lemma FirstNode(lim: Limits)
    requires lim.nodes >= 1 && lim.interfaces >= 1
    ensures Filter(lim, INITIAL_STATE, [1]) == Aged(0)
  {
    OneAddress(lim, INITIAL_STATE, 1);
    assert !Cached(INITIAL_STATE.cache, 1);
  }

  /** The bound is sharp: the next id is that of the first node. When the new node is destroyed, the
      first one's entry goes and its own stays, without an interface behind it. */
  lemma RepeatedIdBreaksAgreement(lim: Limits)
    requires lim.nodes >= 2 && lim.interfaces >= 2
    ensures AllEnabled(lim, INITIAL_STATE, AGING) && AlwaysAgrees(lim, INITIAL_STATE, AGING)
    ensures
      var s := Filter(lim, ApplyAll(lim, INITIAL_STATE, AGING), [2]);
      && s.cache == [Item(-1, 3, 1, 0, 0), Item(-1, 3, 2, 253, 0)]
      && Live(s, 0) && Live(s, 253)
      && Destroy(s, 253).cache == [Item(-1, 3, 2, 253, 0)]
      && Live(Destroy(s, 253), 0) && 253 !in Destroy(s, 253).intfs
  {
    hide AlwaysAgrees, AllEnabled, ApplyAll, Filter;
    AgingReached(lim);
    SecondNode(lim, PERIOD - 1);
    var s := TwoNodes(PERIOD - 1);
    assert s.cache[..1] == [Item(-1, 3, 1, 0, 0)];
    assert FindById(s.cache, 3) == 0;
  }
}
