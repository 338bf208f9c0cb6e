/** The node cache of src/node.c with the two slabs behind it and the interface ids of
    src/greybus_interfaces.c, as functions on values. A slab is a finite map from the slots in use to
    their contents. Slots are named by the number of allocations made before them. */
module NodeCache {

  /** The 128 bits of an IPv6 address. */
  type Address = nat

  datatype Limits = Limits(nodes: nat, interfaces: nat)

  datatype Item = Item(sock: int, id: nat, addr: Address, intf: nat, failCount: nat)

  datatype Interface = Interface(id: nat, ctrl: nat)

  datatype State = State(
    cache: seq<Item>, ctrls: map<nat, int>, intfs: map<nat, Interface>,
    ctrlAllocs: nat, intfAllocs: nat, nextId: nat, announced: seq<nat>, closed: seq<int>)

  const INITIAL_STATE := State([], map[], map[], 0, 0, FIRST_ID, [], [])

  // ----- Interface ids

  const FIRST_ID := 3
  const LAST_ID := 255
  const PERIOD := LAST_ID - FIRST_ID + 1

  /** new_interface_id: the value the counter has after one more id. */
  function AfterId(id: nat): nat {
    if id == LAST_ID then FIRST_ID else id + 1
  }

  function NthId(n: nat): (id: nat)
    ensures FIRST_ID <= id <= LAST_ID
  {
    FIRST_ID + n % PERIOD
  }

  function CounterAfter(n: nat): nat {
    if n == 0 then FIRST_ID else AfterId(CounterAfter(n - 1))
  }

  /** The counter runs through 3..255 cyclically. */
  lemma {:induction false} CounterIsCyclic(n: nat)
    ensures CounterAfter(n) == NthId(n)
  {
    if n > 0 {
      CounterIsCyclic(n - 1);
      NextNth(n - 1);
    }
  }

  /** Two allocations get the same id exactly when they are a multiple of 253 apart. */
  lemma SameIdIffFarApart(a: nat, b: nat)
    requires a <= b
    ensures NthId(a) == NthId(b) <==> (b - a) % PERIOD == 0
  {
  }

  // ----- The cache

  function FindById(cache: seq<Item>, id: nat): (r: int)
    ensures -1 <= r < |cache|
    ensures r >= 0 ==> cache[r].id == id && forall k :: 0 <= k < r ==> cache[k].id != id
    ensures r < 0 ==> forall k :: 0 <= k < |cache| ==> cache[k].id != id
  {
    if cache == [] then -1
    else
      var n := |cache| - 1;
      var r := FindById(cache[..n], id);
      if r >= 0 then r else if cache[n].id == id then n else -1
  }

  predicate Cached(cache: seq<Item>, addr: Address) {
    exists i :: 0 <= i < |cache| && cache[i].addr == addr
  }

  /** node_cache_remove_at: the last entry takes the place of the removed one. */
  function RemoveAt(cache: seq<Item>, pos: nat): (r: seq<Item>)
    requires pos < |cache|
    ensures |r| == |cache| - 1
    ensures forall k :: 0 <= k < |r| ==> r[k] == if k == pos then cache[|cache| - 1] else cache[k]
  {
    var last := |cache| - 1;
    if pos != last then cache[..last][pos := cache[last]] else cache[..last]
  }

  // ----- Operations

  /** node_create_interface for an address; the result tells whether an interface came out. */
  function CreateInterface(lim: Limits, s: State, addr: Address): (State, bool) {
    if |s.ctrls| >= lim.nodes then (s, false)
    else
      var s1 := s.(ctrlAllocs := s.ctrlAllocs + 1);
      if |s.intfs| >= lim.interfaces then (s1, false)
      else
        var s2 := s1.(intfs := s.intfs[s.intfAllocs := Interface(s.nextId, s.ctrlAllocs)],
                      intfAllocs := s.intfAllocs + 1, nextId := AfterId(s.nextId));
        if |s.cache| >= lim.nodes then (s2, false)
        else
          (s2.(ctrls := s.ctrls[s.ctrlAllocs := -1],
               cache := s.cache + [Item(-1, s.nextId, addr, s.intfAllocs, 0)]), true)
  }

  /** One address of node_filter. */
  function FilterOne(lim: Limits, s: State, addr: Address): State {
    if Cached(s.cache, addr) then s
    else
      var (r, created) := CreateInterface(lim, s, addr);
      if created then r.(announced := r.announced + [s.nextId]) else r
  }

  function Filter(lim: Limits, s: State, addrs: seq<Address>): State {
    if addrs == [] then s
    else FilterOne(lim, Filter(lim, s, addrs[..|addrs| - 1]), addrs[|addrs| - 1])
  }

  /** The interface is live: its slot and that of its control data are in use. */
  predicate Live(s: State, h: nat) {
    h in s.intfs && s.intfs[h].ctrl in s.ctrls
  }

  /** node_destroy_interface */
  function Destroy(s: State, h: nat): State
    requires Live(s, h)
  {
    var pos := FindById(s.cache, s.intfs[h].id);
    var sock := s.ctrls[s.intfs[h].ctrl];
    s.(cache := if pos >= 0 then RemoveAt(s.cache, pos) else s.cache,
       ctrls := s.ctrls - {s.intfs[h].ctrl},
       intfs := s.intfs - {h},
       closed := if sock >= 0 then s.closed + [sock] else s.closed)
  }

  /** node_intf_create_connection, with what connecting to the node would return. */
  function Connect(s: State, h: nat, cport: nat, outcome: int): State
    requires Live(s, h)
  {
    var pos := FindById(s.cache, s.intfs[h].id);
    if cport != 0 || s.ctrls[s.intfs[h].ctrl] >= 0 || pos < 0 || outcome < 0 then s
    else s.(cache := s.cache[pos := s.cache[pos].(sock := outcome)],
            ctrls := s.ctrls[s.intfs[h].ctrl := outcome])
  }

  // ----- Agreement of the cache, the slabs and the ids

  predicate Distinct(cache: seq<Item>) {
    forall i, j :: 0 <= i < j < |cache| ==>
      cache[i].addr != cache[j].addr && cache[i].id != cache[j].id && cache[i].intf != cache[j].intf
  }

  /** An entry tells the truth about its interface. */
  predicate Backed(s: State, item: Item) {
    Live(s, item.intf) && s.intfs[item.intf].id == item.id && s.ctrls[s.intfs[item.intf].ctrl] == item.sock
  }

  predicate AllBacked(s: State) {
    forall i :: 0 <= i < |s.cache| ==> Backed(s, s.cache[i])
  }

  predicate InCache(s: State, h: nat) {
    exists i :: 0 <= i < |s.cache| && s.cache[i].intf == h
  }

  /** The control slots of the interfaces are in use and pairwise distinct. */
  predicate SlabsFaithful(s: State) {
    && (forall h :: h in s.intfs ==> s.intfs[h].ctrl in s.ctrls)
    && (forall h, k :: h in s.intfs && k in s.intfs && h != k ==> s.intfs[h].ctrl != s.intfs[k].ctrl)
  }

  predicate Numbered(s: State) {
    && s.nextId == NthId(s.intfAllocs)
    && (forall h :: h in s.intfs ==> h < s.intfAllocs && s.intfs[h].id == NthId(h))
    && (forall c :: c in s.ctrls ==> c < s.ctrlAllocs)
  }

  /** As many control slots as interface slots are used; addresses, ids and interfaces in the cache are
      pairwise distinct; every entry agrees with its interface on socket and id. */
  predicate Agrees(lim: Limits, s: State) {
    && |s.cache| <= |s.intfs| == |s.ctrls| <= lim.nodes && |s.intfs| <= lim.interfaces
    && Distinct(s.cache) && AllBacked(s) && SlabsFaithful(s) && Numbered(s)
  }

  /** Interface slots in use that no cache entry leads to. */
  function Lost(s: State): int {
    |s.intfs| - |s.cache|
  }

  /** After `more` further interface allocations no live interface would be 253 allocations old. */
  predicate Young(s: State, more: nat) {
    more <= PERIOD && forall h :: h in s.intfs ==> s.intfAllocs + more - h <= PERIOD
  }

  // ----- Creating

  /** The id the next interface will get is not that of a cached one. */
  predicate FreshNextId(s: State) {
    forall i :: 0 <= i < |s.cache| ==> s.cache[i].id != s.nextId
  }

  lemma YoungMeansFresh(s: State)
    requires Numbered(s) && Young(s, 1) && AllBacked(s)
    ensures FreshNextId(s)
  {
    hide NthId;
    forall i | 0 <= i < |s.cache|
      ensures s.cache[i].id != s.nextId
    {
      assert Backed(s, s.cache[i]);
      SameIdIffFarApart(s.cache[i].intf, s.intfAllocs);
    }
  }

  /** The state after an interface has been created and entered into the cache. */
  function Created(s: State, addr: Address): State {
    s.(ctrlAllocs := s.ctrlAllocs + 1, intfAllocs := s.intfAllocs + 1, nextId := AfterId(s.nextId),
       intfs := s.intfs[s.intfAllocs := Interface(s.nextId, s.ctrlAllocs)],
       ctrls := s.ctrls[s.ctrlAllocs := -1],
       cache := s.cache + [Item(-1, s.nextId, addr, s.intfAllocs, 0)],
       announced := s.announced + [s.nextId])
  }

  lemma CreatedBacked(lim: Limits, s: State, addr: Address)
    requires Agrees(lim, s)
    ensures AllBacked(Created(s, addr))
  {
    var r := Created(s, addr);
    forall i | 0 <= i < |r.cache| ensures Backed(r, r.cache[i]) {
      if i < |s.cache| {
        assert Backed(s, s.cache[i]);
      }
    }
  }

  lemma CreatedFaithful(lim: Limits, s: State, addr: Address)
    requires Agrees(lim, s)
    ensures SlabsFaithful(Created(s, addr))
  {
  }

  lemma CreatedDistinct(s: State, addr: Address)
    requires Distinct(s.cache) && AllBacked(s) && Numbered(s) && !Cached(s.cache, addr)
    ensures Distinct(Created(s, addr).cache) <==> FreshNextId(s)
  {
    var r, n := Created(s, addr).cache, |s.cache|;
    forall i | 0 <= i < n ensures s.cache[i].intf != r[n].intf && s.cache[i].addr != addr {
      assert Backed(s, s.cache[i]);
    }
    assert forall i :: 0 <= i < n ==> r[i] == s.cache[i];
    if Distinct(r) {
      assert forall i :: 0 <= i < n ==> r[i].id != r[n].id;
    }
  }

  lemma NextNth(n: nat)
    ensures AfterId(NthId(n)) == NthId(n + 1)
  {
  }

  lemma CreatedNumbered(s: State, addr: Address)
    requires Numbered(s)
    ensures Numbered(Created(s, addr))
    ensures s.intfAllocs !in s.intfs && s.ctrlAllocs !in s.ctrls
  {
    hide AfterId, NthId;
    NextNth(s.intfAllocs);
  }

  lemma CreatedAgrees(lim: Limits, s: State, addr: Address)
    requires Agrees(lim, s) && !Cached(s.cache, addr) && |s.ctrls| < lim.nodes && |s.intfs| < lim.interfaces
    ensures Agrees(lim, Created(s, addr)) <==> FreshNextId(s)
    ensures Distinct(Created(s, addr).cache) <==> FreshNextId(s)
    ensures Lost(Created(s, addr)) == Lost(s)
  {
    CreatedDistinct(s, addr);
    CreatedBacked(lim, s, addr);
    CreatedFaithful(lim, s, addr);
    CreatedNumbered(s, addr);
    hide AllBacked, SlabsFaithful, Distinct, Numbered, FreshNextId;
  }

  /** node_filter enters a new node for the address. */
  predicate Creates(lim: Limits, s: State, addr: Address) {
    !Cached(s.cache, addr) && |s.ctrls| < lim.nodes && |s.intfs| < lim.interfaces && |s.cache| < lim.nodes
  }

  /** Nothing is created, or the new id is not that of a cached interface. */
  predicate FreshOne(lim: Limits, s: State, addr: Address) {
    Creates(lim, s, addr) ==> FreshNextId(s)
  }

  lemma CreatesCreated(lim: Limits, s: State, addr: Address)
    requires Creates(lim, s, addr)
    ensures FilterOne(lim, s, addr) == Created(s, addr)
  {
  }

  /** Discovering an address keeps agreement exactly when it creates nothing or the next id is fresh;
      otherwise two cached nodes have the same id. */
  lemma {:induction false} DiscoveryAgreesIffFresh(lim: Limits, s: State, addr: Address)
    requires Agrees(lim, s)
    ensures Creates(lim, s, addr) ==> FilterOne(lim, s, addr) == Created(s, addr)
    ensures Agrees(lim, FilterOne(lim, s, addr)) <==> FreshOne(lim, s, addr)
    ensures Distinct(FilterOne(lim, s, addr).cache) <==> FreshOne(lim, s, addr)
    ensures Lost(FilterOne(lim, s, addr)) == Lost(s)
  {
    hide AllBacked, SlabsFaithful, Distinct, FreshNextId, Created;
    if !Cached(s.cache, addr) && |s.ctrls| < lim.nodes {
      if |s.intfs| < lim.interfaces {
        CreatesCreated(lim, s, addr);
        CreatedAgrees(lim, s, addr);
      } else {
        AgreesFrame(lim, s, s.ctrlAllocs + 1);
      }
    }
  }

  lemma AgreesFrame(lim: Limits, s: State, ctrlAllocs: nat)
    requires Agrees(lim, s) && ctrlAllocs >= s.ctrlAllocs
    ensures Agrees(lim, s.(ctrlAllocs := ctrlAllocs))
  {
    var r := s.(ctrlAllocs := ctrlAllocs);
    forall i | 0 <= i < |r.cache| ensures Backed(r, r.cache[i]) {
      assert Backed(s, s.cache[i]);
    }
  }

  // ----- Connecting and destroying

  /** An interface that the cache leads to. */
  predicate Known(s: State, h: nat) {
    Live(s, h) && InCache(s, h)
  }

  /** With agreement, the lookup by id finds the entry of the interface itself. */
  lemma FindsOwnEntry(lim: Limits, s: State, h: nat)
    requires Agrees(lim, s) && Known(s, h)
    ensures
      var pos := FindById(s.cache, s.intfs[h].id);
      pos >= 0 && s.cache[pos].intf == h && Backed(s, s.cache[pos])
  {
    var i :| 0 <= i < |s.cache| && s.cache[i].intf == h;
    assert Backed(s, s.cache[i]);
    var pos := FindById(s.cache, s.intfs[h].id);
    assert pos == i;
  }

  lemma ConnectBacked(lim: Limits, s: State, h: nat, outcome: int)
    requires Agrees(lim, s) && Known(s, h) && Connect(s, h, 0, outcome) != s
    ensures AllBacked(Connect(s, h, 0, outcome))
  {
    var r := Connect(s, h, 0, outcome);
    FindsOwnEntry(lim, s, h);
    var pos := FindById(s.cache, s.intfs[h].id);
    forall i | 0 <= i < |r.cache| ensures Backed(r, r.cache[i]) {
      assert Backed(s, s.cache[i]);
      assert i != pos ==> s.cache[i].intf != h;
    }
  }

  lemma ConnectFaithful(s: State, h: nat, outcome: int)
    requires SlabsFaithful(s) && Live(s, h)
    ensures SlabsFaithful(Connect(s, h, 0, outcome))
  {
  }

  lemma ConnectNumbered(s: State, h: nat, outcome: int)
    requires Numbered(s) && Live(s, h)
    ensures Numbered(Connect(s, h, 0, outcome))
  {
  }

  lemma {:induction false} ConnectAgrees(lim: Limits, s: State, h: nat, cport: nat, outcome: int)
    requires Agrees(lim, s) && Known(s, h)
    ensures Agrees(lim, Connect(s, h, cport, outcome))
    ensures Lost(Connect(s, h, cport, outcome)) == Lost(s)
  {
    var r := Connect(s, h, cport, outcome);
    if r != s {
      ConnectBacked(lim, s, h, outcome);
      ConnectFaithful(s, h, outcome);
      hide AllBacked, SlabsFaithful, Numbered;
      assert r.ctrls.Keys == s.ctrls.Keys;
      ConnectNumbered(s, h, outcome);
    }
  }

  /** The entry that stands at position i after the removal of position pos. */
  function Origin(cache: seq<Item>, pos: nat, i: nat): nat
    requires pos < |cache|
  {
    if i == pos then |cache| - 1 else i
  }

  lemma DestroyDistinct(cache: seq<Item>, pos: nat)
    requires Distinct(cache) && pos < |cache|
    ensures Distinct(RemoveAt(cache, pos))
  {
    var r := RemoveAt(cache, pos);
    assert forall i :: 0 <= i < |r| ==> r[i] == cache[Origin(cache, pos, i)];
  }

  lemma DestroyBacked(lim: Limits, s: State, h: nat)
    requires Agrees(lim, s) && Known(s, h)
    ensures AllBacked(Destroy(s, h))
  {
    var r := Destroy(s, h);
    FindsOwnEntry(lim, s, h);
    var pos := FindById(s.cache, s.intfs[h].id);
    forall i | 0 <= i < |r.cache| ensures Backed(r, r.cache[i]) {
      var j := Origin(s.cache, pos, i);
      assert r.cache[i] == s.cache[j] && j != pos;
      assert Backed(s, s.cache[j]);
      assert s.cache[j].intf != h;
    }
  }

  lemma DestroyFaithful(s: State, h: nat)
    requires SlabsFaithful(s) && Live(s, h)
    ensures SlabsFaithful(Destroy(s, h))
  {
  }

  lemma {:induction false} DestroyAgrees(lim: Limits, s: State, h: nat)
    requires Agrees(lim, s) && Known(s, h)
    ensures Agrees(lim, Destroy(s, h))
    ensures |Destroy(s, h).cache| == |s.cache| - 1 && Lost(Destroy(s, h)) == Lost(s)
  {
    hide AllBacked, SlabsFaithful, Distinct;
    FindsOwnEntry(lim, s, h);
    DestroyDistinct(s.cache, FindById(s.cache, s.intfs[h].id));
    DestroyBacked(lim, s, h);
    DestroyFaithful(s, h);
    MapRemove(s.intfs, h);
    MapRemove(s.ctrls, s.intfs[h].ctrl);
  }

  lemma MapRemove<V>(m: map<nat, V>, k: nat)
    requires k in m
    ensures |m - {k}| == |m| - 1
  {
    assert (m - {k}).Keys == m.Keys - {k};
  }

  // ----- When nothing is lost

  function CachedIntfs(cache: seq<Item>): set<nat> {
    set i | 0 <= i < |cache| :: cache[i].intf
  }

  lemma {:induction false} CachedIntfsCount(cache: seq<Item>)
    requires Distinct(cache)
    ensures |CachedIntfs(cache)| == |cache|
  {
    if cache != [] {
      var n := |cache| - 1;
      CachedIntfsCount(cache[..n]);
      assert CachedIntfs(cache) == CachedIntfs(cache[..n]) + {cache[n].intf};
    }
  }

  lemma SubsetFull(a: set<nat>, b: set<nat>)
    requires a <= b && |a| == |b|
    ensures a == b
  {
    assert |b - a| == |b| - |a|;
  }

  /** With agreement, the cache leads to every interface exactly when no slot is lost. */
  lemma AllKnownIffNoneLost(lim: Limits, s: State)
    requires Agrees(lim, s)
    ensures (forall h :: h in s.intfs ==> InCache(s, h)) <==> Lost(s) == 0
  {
    hide Numbered, SlabsFaithful;
    var known := CachedIntfs(s.cache);
    CachedIntfsCount(s.cache);
    forall h | h in known ensures h in s.intfs {
      var i :| 0 <= i < |s.cache| && s.cache[i].intf == h;
      assert Backed(s, s.cache[i]);
    }
    assert known <= s.intfs.Keys && |s.intfs.Keys| == |s.intfs|;
    if Lost(s) == 0 {
      SubsetFull(known, s.intfs.Keys);
    }
    if forall h :: h in s.intfs ==> InCache(s, h) {
      assert known == s.intfs.Keys;
    }
  }
}
