/** What becomes of the sockets to the nodes: over every run, each one that is opened is held by an
    interface or has been closed, and not both. */
module NodeSockets {
  import opened NodeCache
  import opened NodeRuns

  /** The control slots that hold the socket. */
  function Holders(s: State, sock: int): set<nat> {
    set c | c in s.ctrls && s.ctrls[c] == sock
  }

  /** How often the socket is held or has been closed. */
  function Accounted(s: State, sock: int): nat {
    |Holders(s, sock)| + multiset(s.closed)[sock]
  }

  /** Control slots are handed out in order. */
  predicate SlotsOrdered(s: State) {
    forall c :: c in s.ctrls ==> c < s.ctrlAllocs
  }

  // ----- One event

  lemma FilterOneAccounts(lim: Limits, s: State, addr: Address, sock: int)
    requires SlotsOrdered(s) && sock >= 0
    ensures SlotsOrdered(FilterOne(lim, s, addr)) && Accounted(FilterOne(lim, s, addr), sock) == Accounted(s, sock)
    ensures FilterOne(lim, s, addr).closed == s.closed
  {
    assert Holders(FilterOne(lim, s, addr), sock) == Holders(s, sock);
  }

  lemma {:induction false} FilterAccounts(lim: Limits, s: State, addrs: seq<Address>, sock: int)
    requires SlotsOrdered(s) && sock >= 0
    ensures SlotsOrdered(Filter(lim, s, addrs)) && Accounted(Filter(lim, s, addrs), sock) == Accounted(s, sock)
  {
    if addrs != [] {
      hide FilterOne, Accounted, SlotsOrdered;
      var n := |addrs| - 1;
      FilterAccounts(lim, s, addrs[..n], sock);
      FilterOneAccounts(lim, Filter(lim, s, addrs[..n]), addrs[n], sock);
    }
  }

  lemma ClosedSnoc(closed: seq<int>, last: int, sock: int)
    ensures multiset(closed + [last])[sock] == multiset(closed)[sock] + if last == sock then 1 else 0
  {
    assert multiset(closed + [last]) == multiset(closed) + multiset{last};
  }

  /** Destroying an interface closes its socket, if it has one. */
  lemma DestroyAccounts(s: State, h: nat, sock: int)
    requires Live(s, h) && SlotsOrdered(s) && sock >= 0
    ensures SlotsOrdered(Destroy(s, h)) && Accounted(Destroy(s, h), sock) == Accounted(s, sock)
    ensures Destroy(s, h).announced == s.announced && s.closed <= Destroy(s, h).closed
    ensures forall x :: x in Destroy(s, h).closed[|s.closed|..] ==> x >= 0
  {
    hide FindById, RemoveAt;
    var c := s.intfs[h].ctrl;
    assert Holders(Destroy(s, h), sock) == Holders(s, sock) - {c};
    ClosedSnoc(s.closed, s.ctrls[c], sock);
  }

  /** The socket is stored: on cport 0, when there was none, the cache knows the interface, and
      connecting worked. */
  predicate Stores(s: State, h: nat, cport: nat, outcome: int)
    requires Live(s, h)
  {
    && cport == 0 && s.ctrls[s.intfs[h].ctrl] < 0 && outcome >= 0
    && exists i :: 0 <= i < |s.cache| && s.cache[i].id == s.intfs[h].id
  }

  /** Opening a connection does nothing, or stores the socket with the interface and in the entry. */
  lemma ConnectAccounts(s: State, h: nat, cport: nat, outcome: int, sock: int)
    requires Live(s, h) && SlotsOrdered(s) && sock >= 0
    ensures
      var r := Connect(s, h, cport, outcome);
      && SlotsOrdered(r) && r.announced == s.announced && r.closed == s.closed
      && (!Stores(s, h, cport, outcome) ==> r == s)
      && (Stores(s, h, cport, outcome) ==> r.ctrls[s.intfs[h].ctrl] == outcome)
      && Accounted(r, sock) == Accounted(s, sock) + if Stores(s, h, cport, outcome) && outcome == sock then 1 else 0
  {
    var r, c := Connect(s, h, cport, outcome), s.intfs[h].ctrl;
    var pos := FindById(s.cache, s.intfs[h].id);
    assert pos >= 0 ==> s.cache[pos].id == s.intfs[h].id;
    if Stores(s, h, cport, outcome) {
      assert c !in Holders(s, sock);
      assert Holders(r, sock) == if outcome == sock then Holders(s, sock) + {c} else Holders(s, sock);
    }
  }

  lemma {:induction false} DestroyFromAccounts(lim: Limits, s: State, i: nat, sock: int)
    requires Agrees(lim, s) && SlotsOrdered(s) && sock >= 0
    ensures SlotsOrdered(DestroyFrom(lim, s, i)) && Accounted(DestroyFrom(lim, s, i), sock) == Accounted(s, sock)
    decreases |s.cache| - i
  {
    hide Agrees, Live, InCache, Lost, Destroy, DestroyFrom;
    DestroyFromUnfold(lim, s, i);
    if i < |s.cache| {
      DestroyAccounts(s, s.cache[i].intf, sock);
      DestroyFromAccounts(lim, Destroy(s, s.cache[i].intf), i + 1, sock);
    } else {
      CacheDoesNotCount(s, sock);
    }
  }

  lemma CacheDoesNotCount(s: State, sock: int)
    ensures Accounted(s.(cache := []), sock) == Accounted(s, sock)
  {
    assert Holders(s.(cache := []), sock) == Holders(s, sock);
  }

  // ----- Runs

  /** How often the run opens the socket. */
  function Opened(lim: Limits, s: State, events: seq<Event>, sock: int): nat
    requires AllEnabled(lim, s, events)
    decreases |events|
  {
    if events == [] then 0
    else
      var e := events[0];
      (if e.OpenConnection? && Stores(s, e.intf, e.cport, e.outcome) && e.outcome == sock then 1 else 0)
      + Opened(lim, Apply(lim, s, e), events[1..], sock)
  }

  lemma EventAccounts(lim: Limits, s: State, e: Event, sock: int)
    requires Enabled(lim, s, e) && SlotsOrdered(s) && sock >= 0
    ensures SlotsOrdered(Apply(lim, s, e))
    ensures
      Accounted(Apply(lim, s, e), sock)
      == Accounted(s, sock)
         + if e.OpenConnection? && Stores(s, e.intf, e.cport, e.outcome) && e.outcome == sock then 1 else 0
  {
    hide Agrees, InCache, Accounted, SlotsOrdered, Stores, Filter, Connect, Destroy, DestroyFrom;
    match e {
      case Discover(addrs) => FilterAccounts(lim, s, addrs, sock);
      case OpenConnection(h, cport, outcome) => ConnectAccounts(s, h, cport, outcome, sock);
      case Remove(h) => DestroyAccounts(s, h, sock);
      case Stop => DestroyFromAccounts(lim, s, 0, sock);
    }
  }

  /** Sockets are conserved: over every run, agreeing or not, what is held and what has been closed
      grows by exactly what is opened. */
  lemma {:induction false} SocketsConserved(lim: Limits, s: State, events: seq<Event>, sock: int)
    requires AllEnabled(lim, s, events) && SlotsOrdered(s) && sock >= 0
    ensures Accounted(ApplyAll(lim, s, events), sock) == Accounted(s, sock) + Opened(lim, s, events, sock)
    decreases |events|
  {
    if events != [] {
      hide Accounted, SlotsOrdered, Stores, Apply, Enabled;
      EventAccounts(lim, s, events[0], sock);
      SocketsConserved(lim, Apply(lim, s, events[0]), events[1..], sock);
    }
  }

  /** From the start, a socket that has been opened once is held by exactly one interface, or has been
      closed exactly once; and one that has not been opened is neither. */
  lemma OpenedOnce(lim: Limits, events: seq<Event>, sock: int)
    requires AllEnabled(lim, INITIAL_STATE, events) && sock >= 0
    requires Opened(lim, INITIAL_STATE, events, sock) <= 1
    ensures
      var r := ApplyAll(lim, INITIAL_STATE, events);
      var held, closed := |Holders(r, sock)|, multiset(r.closed)[sock];
      && held + closed == Opened(lim, INITIAL_STATE, events, sock)
      && (Opened(lim, INITIAL_STATE, events, sock) == 1 ==> (held == 1 && closed == 0) || (held == 0 && closed == 1))
  {
    hide Opened, ApplyAll;
    SocketsConserved(lim, INITIAL_STATE, events, sock);
    assert Holders(INITIAL_STATE, sock) == {};
  }
}
