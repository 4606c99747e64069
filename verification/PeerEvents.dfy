/** What the events do to one peer, field by field and call by call, for every event from every state. None of
    this is said in terms of the functions that define the events, so it fixes what they may be. */
module PeerEvents {
  import opened Outcomes
  import opened PeerModel
  import opened PeerLemmas
  import opened PeerRuns
  import PeerDials

  ghost predicate IsLive(m: Manager, p: PeerId) {
    p in m.peers && m.peers[p].state == Connected
  }

  ghost predicate IsPinged(m: Manager, p: PeerId) {
    p in m.peers && m.peers[p].isPinging
  }

  /** The event that `onConnectedPeer` handles: the peer identified itself, or is the one a dial has reached. */
  predicate Connects(e: Event, p: PeerId) {
    (e.Identified? && e.p == p) || (e.DialSucceeded? && e.p == p && e.remote == Some(p))
  }

  predicate PingResult(e: Event, p: PeerId) {
    e == PingOk(p) || e == PingFailed(p)
  }

  // ---------------------------------------------------------------- which calls an event makes

  lemma CountWithPeer(m: Manager, p: PeerId)
    ensures Count(WithPeer(m, p)) == Count(m.peers)
  {
    if p !in m.peers {
      UpdateMembers(Counted, m.peers, p, Fresh(m.tick));
      assert p !in Members(Counted, m.peers);
    }
  }

  /** A disconnect is a disconnect of the host's, immediately, for every peer but the host itself. */
  ghost predicate Answered(calls: seq<Call>, p: PeerId) {
    forall i :: 0 <= i < |calls| && calls[i] == Disconnect(p) ==> i + 1 < |calls| && calls[i + 1] == HostDisconnect(p)
  }

  lemma AnsweredAppend(a: seq<Call>, b: seq<Call>, p: PeerId)
    requires Answered(a, p) && Answered(b, p)
    ensures Answered(a + b, p)
  {
    forall i | 0 <= i < |a + b| && (a + b)[i] == Disconnect(p)
      ensures i + 1 < |a + b| && (a + b)[i + 1] == HostDisconnect(p)
    {
      if i < |a| {
        assert a[i] == Disconnect(p);
      } else {
        assert b[i - |a|] == Disconnect(p);
      }
    }
  }

  lemma {:induction false} DrainsAnswered(c: Config, chosen: seq<PeerId>, p: PeerId)
    requires p != c.self
    ensures Answered(DrainCalls(c, chosen), p)
    ensures HostDisconnect(p) in DrainCalls(c, chosen) <==> p in chosen
  {
    if chosen == [] {
    } else {
      var init, q := chosen[..|chosen| - 1], chosen[|chosen| - 1];
      DrainsAnswered(c, init, p);
      AnsweredAppend(DrainCalls(c, init), DisconnectCalls(c, q), p);
      assert chosen == init + [q];
      assert p == q ==> DisconnectCalls(c, q)[1] == HostDisconnect(p);
    }
  }

  lemma {:induction false} DialsAnswered(c: Config, chosen: seq<PeerId>, dialable: set<PeerId>, p: PeerId)
    ensures Answered(DialCalls(c, chosen, dialable), p)
    ensures HostDisconnect(p) !in DialCalls(c, chosen, dialable)
    ensures StartPinging(p) !in DialCalls(c, chosen, dialable)
    ensures HostConnect(p) in DialCalls(c, chosen, dialable) <==> p in chosen && p != c.self && p in dialable
  {
    if chosen == [] {
    } else {
      var init, q := chosen[..|chosen| - 1], chosen[|chosen| - 1];
      DialsAnswered(c, init, dialable, p);
      assert chosen == init + [q];
    }
  }

  lemma {:induction false} DrainsOnlyDisconnect(c: Config, chosen: seq<PeerId>, p: PeerId)
    ensures HostConnect(p) !in DrainCalls(c, chosen) && StartPinging(p) !in DrainCalls(c, chosen)
    ensures c.self !in chosen ==> HostDisconnect(c.self) !in DrainCalls(c, chosen)
  {
    if chosen == [] {
    } else {
      var init, q := chosen[..|chosen| - 1], chosen[|chosen| - 1];
      DrainsOnlyDisconnect(c, init, p);
      assert chosen == init + [q];
    }
  }

  /** Everything a tick calls, by what it does to the table. */
  lemma TickCallsFacts(c: Config, m: Manager, order: seq<PeerId>, dialable: set<PeerId>, p: PeerId)
    requires c.Valid() && Enumerates(order, m.peers)
    ensures var calls, chosen := TickCalls(c, m, order, dialable), Chosen(c, m.peers, order);
            && (Connect(p) in calls <==> p in chosen && Count(m.peers) < c.min)
            && (HostConnect(p) in calls <==> Connect(p) in calls && p != c.self && p in dialable)
            && (Disconnect(p) in calls <==> p in chosen && Count(m.peers) >= c.min)
            && StartPinging(p) !in calls && AddToKademlia(p) !in calls
            && (p != c.self ==> Answered(calls, p) && (HostDisconnect(p) in calls <==> Disconnect(p) in calls))
  {
    var chosen := Chosen(c, m.peers, order);
    PeerDials.DialCallsFacts(c, chosen, dialable, p);
    PeerDials.DrainCallsFacts(c, chosen, p);
    DialsAnswered(c, chosen, dialable, p);
    DrainsOnlyDisconnect(c, chosen, p);
    TickAddsNobody(c, chosen, dialable, p);
    if p != c.self {
      DrainsAnswered(c, chosen, p);
    }
  }

  /** What a tick does to one entry, by what it called. */
  lemma TickEntry(c: Config, m: Manager, order: seq<PeerId>, dialable: set<PeerId>, p: PeerId)
    requires c.Valid() && Enumerates(order, m.peers)
    ensures var m', calls := Tick(c, m, order), TickCalls(c, m, order, dialable);
            && m'.tick == m.tick + 1 && m'.peers.Keys == m.peers.Keys
            && (Connect(p) in calls ==>
                  && p in m.peers && m.peers[p].state == Disconnected && m.peers[p].action == NoAction
                  && m'.peers[p] == PeerState(Disconnected, Connecting, m.tick + 1, m.peers[p].isPinging))
            && (Disconnect(p) in calls ==>
                  && IsLive(m, p)
                  && m'.peers[p] == PeerState(Disconnected, NoAction, m.tick + 1, m.peers[p].isPinging))
            && (p in m.peers && Connect(p) !in calls && Disconnect(p) !in calls ==> m'.peers[p] == m.peers[p])
  {
    var chosen := Chosen(c, m.peers, order);
    TickCallsFacts(c, m, order, dialable, p);
    ChosenFacts(c, m.peers, order);
    assert p in chosen <==> p in Elements(chosen);
    assert p in Members(Idle, m.peers) ==> p in m.peers;
    assert p in Members(Live, m.peers) ==> p in m.peers;
  }

  /** What a connection event calls: exactly one branch, decided by whether the peer is live already, whether the
      count is above `max`, and whether the host has a connection. */
  lemma ConnectionCalls(c: Config, m: Manager, p: PeerId, hasConnection: bool, hasAddresses: bool, q: PeerId)
    ensures var calls := ConnectedCalls(c, m, p, hasConnection, hasAddresses);
            var late := p != c.self && !IsLive(m, p) && Count(m.peers) > c.max;
            var joins := p != c.self && !IsLive(m, p) && Count(m.peers) <= c.max && hasConnection;
            && (Disconnect(q) in calls <==> q == p && late)
            && (HostDisconnect(q) in calls <==> q == p && late)
            && (StartPinging(q) in calls <==> q == p && joins && !IsPinged(m, p))
            && (AddToKademlia(q) in calls <==> q == p && joins && hasAddresses)
            && Connect(q) !in calls && HostConnect(q) !in calls
            && Answered(calls, q)
  {
    CountWithPeer(m, p);
    if p != c.self {
      assert DisconnectCalls(c, p) == [Disconnect(p), HostDisconnect(p)];
    }
  }

  /** What a connection event leaves in the table, by the same three questions. */
  lemma ConnectionEntry(c: Config, m: Manager, p: PeerId, hasConnection: bool)
    ensures var m' := OnConnected(c, m, p, hasConnection);
            && m'.tick == m.tick
            && (p == c.self || IsLive(m, p) ==> m' == m)
            && (p != c.self && !IsLive(m, p) ==>
                  && p in m'.peers && m'.peers.Keys == m.peers.Keys + {p}
                  && m'.peers[p].lastActivity == (if p in m.peers then m.peers[p].lastActivity else m.tick)
                  && m'.peers[p].isPinging == IsPinged(m, p)
                  && (IsLive(m', p) <==> Count(m.peers) <= c.max && hasConnection)
                  && m'.peers[p].action ==
                     if p !in m.peers || Count(m.peers) > c.max then NoAction
                     else if !hasConnection && m.peers[p].action == Disconnecting then NoAction
                     else m.peers[p].action)
  {
    CountWithPeer(m, p);
  }

  lemma StopCallsFacts(m: Manager, order: seq<PeerId>, p: PeerId)
    requires Enumerates(order, m.peers)
    ensures var calls := StopCalls(Filter(Live, m.peers, order));
            && (HostDisconnect(p) in calls <==> IsLive(m, p))
            && Connect(p) !in calls && HostConnect(p) !in calls && Disconnect(p) !in calls
            && StartPinging(p) !in calls && AddToKademlia(p) !in calls
  {
    var live := Filter(Live, m.peers, order);
    FilterCovers(Live, m.peers, order);
    assert p in live <==> p in Elements(live);
    var calls := StopCalls(live);
    if p in live {
      var i :| 0 <= i < |live| && live[i] == p;
      assert calls[i] == HostDisconnect(p);
    }
  }

  lemma PingCalls(c: Config, p: PeerId, q: PeerId)
    ensures Disconnect(q) in DisconnectCalls(c, p) <==> q == p
    ensures HostDisconnect(q) in DisconnectCalls(c, p) <==> q == p && p != c.self
    ensures q != c.self ==> Answered(DisconnectCalls(c, p), q)
    ensures Connect(q) !in DisconnectCalls(c, p) && HostConnect(q) !in DisconnectCalls(c, p)
    ensures StartPinging(q) !in DisconnectCalls(c, p) && AddToKademlia(q) !in DisconnectCalls(c, p)
  {
    assert DisconnectCalls(c, p)[0] == Disconnect(p);
    assert p != c.self ==> DisconnectCalls(c, p)[1] == HostDisconnect(p);
  }

  // ---------------------------------------------------------------- laws about every event

  /** Each disconnect reaches the host, right away. */
  lemma DisconnectReachesHost(c: Config, m: Manager, e: Event, p: PeerId)
    requires c.Valid() && Enabled(m, e) && p != c.self
    ensures Answered(CallsOf(c, m, e), p)
    ensures Disconnect(p) in CallsOf(c, m, e) ==> HostDisconnect(p) in CallsOf(c, m, e)
  {
    match e
    case Discovered(_) =>
    case Identified(q, hasConnection, hasAddresses) => ConnectionCalls(c, m, q, hasConnection, hasAddresses, p);
    case DialSucceeded(q, _, hasConnection, hasAddresses) => ConnectionCalls(c, m, q, hasConnection, hasAddresses, p);
    case DialFailed(_) =>
    case PingOk(_) =>
    case PingFailed(q) => PingCalls(c, q, p);
    case TimerTick(order, dialable) => TickCallsFacts(c, m, order, dialable, p);
    case Stopped(order) => StopCallsFacts(m, order, p);
  }

  /** `disconnect` of a peer is called for a failed ping, for a connection event of a peer that is not live yet
      while the count is above `max`, and for the live peers a tick drops. */
  lemma DisconnectCalledIff(c: Config, m: Manager, e: Event, p: PeerId)
    requires c.Valid() && Enabled(m, e)
    ensures Disconnect(p) in CallsOf(c, m, e) <==>
            || e == PingFailed(p)
            || (Connects(e, p) && p != c.self && !IsLive(m, p) && Count(m.peers) > c.max)
            || (e.TimerTick? && IsLive(m, p) && !IsLive(Next(c, m, e), p))
  {
    match e
    case Discovered(_) =>
    case Identified(q, hasConnection, hasAddresses) => ConnectionCalls(c, m, q, hasConnection, hasAddresses, p);
    case DialSucceeded(q, _, hasConnection, hasAddresses) => ConnectionCalls(c, m, q, hasConnection, hasAddresses, p);
    case DialFailed(_) =>
    case PingOk(_) =>
    case PingFailed(q) => PingCalls(c, q, p);
    case TimerTick(order, dialable) => TickEntry(c, m, order, dialable, p);
    case Stopped(order) => StopCallsFacts(m, order, p);
  }

  /** The host is told to disconnect a peer exactly with each `disconnect` of it, and when stopping, if it is
      live. */
  lemma HostDisconnectIff(c: Config, m: Manager, e: Event, p: PeerId)
    requires c.Valid() && Enabled(m, e) && p != c.self
    ensures HostDisconnect(p) in CallsOf(c, m, e) <==>
            Disconnect(p) in CallsOf(c, m, e) || (e.Stopped? && IsLive(m, p))
  {
    match e
    case Discovered(_) =>
    case Identified(q, hasConnection, hasAddresses) => ConnectionCalls(c, m, q, hasConnection, hasAddresses, p);
    case DialSucceeded(q, _, hasConnection, hasAddresses) => ConnectionCalls(c, m, q, hasConnection, hasAddresses, p);
    case DialFailed(_) =>
    case PingOk(_) =>
    case PingFailed(q) => PingCalls(c, q, p);
    case TimerTick(order, dialable) => TickCallsFacts(c, m, order, dialable, p);
    case Stopped(order) => StopCallsFacts(m, order, p);
  }

  /** A peer becomes live exactly through a connection event with a live connection, unless the count is already
      above `max`. */
  lemma BecomesLiveIff(c: Config, m: Manager, e: Event, p: PeerId)
    requires c.Valid() && Enabled(m, e) && !IsLive(m, p)
    ensures IsLive(Next(c, m, e), p) <==>
            Connects(e, p) && e.hasConnection && p != c.self && Count(m.peers) <= c.max
  {
    match e
    case Discovered(_) =>
    case Identified(q, hasConnection, _) => ConnectionEntry(c, m, q, hasConnection);
    case DialSucceeded(q, _, hasConnection, _) => ConnectionEntry(c, m, q, hasConnection);
    case DialFailed(_) =>
    case PingOk(_) =>
    case PingFailed(_) =>
    case TimerTick(order, dialable) => TickEntry(c, m, order, dialable, p);
    case Stopped(_) =>
  }

  /** A live peer stops being live exactly by a `disconnect` of it, and then the host is told. */
  lemma StopsLivingIff(c: Config, m: Manager, e: Event, p: PeerId)
    requires c.Valid() && Enabled(m, e) && IsLive(m, p)
    ensures !IsLive(Next(c, m, e), p) <==> Disconnect(p) in CallsOf(c, m, e)
    ensures !IsLive(Next(c, m, e), p) && p != c.self ==> HostDisconnect(p) in CallsOf(c, m, e)
  {
    DisconnectCalledIff(c, m, e, p);
    if p != c.self {
      DisconnectReachesHost(c, m, e, p);
    }
    match e
    case Discovered(_) =>
    case Identified(q, hasConnection, _) => ConnectionEntry(c, m, q, hasConnection);
    case DialSucceeded(q, _, hasConnection, _) => ConnectionEntry(c, m, q, hasConnection);
    case DialFailed(_) =>
    case PingOk(_) =>
    case PingFailed(_) =>
    case TimerTick(_, _) =>
    case Stopped(_) =>
  }

  /** Pinging is started exactly for a peer that becomes live and is not being pinged yet. */
  lemma StartsPingingIff(c: Config, m: Manager, e: Event, p: PeerId)
    requires c.Valid() && Enabled(m, e)
    ensures StartPinging(p) in CallsOf(c, m, e) <==>
            IsLive(Next(c, m, e), p) && !IsLive(m, p) && !IsPinged(m, p)
  {
    if !IsLive(m, p) {
      BecomesLiveIff(c, m, e, p);
    }
    match e
    case Discovered(_) =>
    case Identified(q, hasConnection, hasAddresses) => ConnectionCalls(c, m, q, hasConnection, hasAddresses, p);
    case DialSucceeded(q, _, hasConnection, hasAddresses) => ConnectionCalls(c, m, q, hasConnection, hasAddresses, p);
    case DialFailed(_) =>
    case PingOk(_) =>
    case PingFailed(q) => PingCalls(c, q, p);
    case TimerTick(order, dialable) => TickCallsFacts(c, m, order, dialable, p);
    case Stopped(order) => StopCallsFacts(m, order, p);
  }

  /** A peer is added to Kademlia exactly when it becomes live and its addresses are known. */
  lemma AddsToKademliaIff(c: Config, m: Manager, e: Event, p: PeerId)
    requires c.Valid() && Enabled(m, e)
    ensures AddToKademlia(p) in CallsOf(c, m, e) <==>
            IsLive(Next(c, m, e), p) && !IsLive(m, p) && Connects(e, p) && e.hasAddresses
  {
    if !IsLive(m, p) {
      BecomesLiveIff(c, m, e, p);
    }
    match e
    case Discovered(_) =>
    case Identified(q, hasConnection, hasAddresses) => ConnectionCalls(c, m, q, hasConnection, hasAddresses, p);
    case DialSucceeded(q, _, hasConnection, hasAddresses) => ConnectionCalls(c, m, q, hasConnection, hasAddresses, p);
    case DialFailed(_) =>
    case PingOk(_) =>
    case PingFailed(q) => PingCalls(c, q, p);
    case TimerTick(order, dialable) => TickCallsFacts(c, m, order, dialable, p);
    case Stopped(order) => StopCallsFacts(m, order, p);
  }

  /** A dial turns an idle entry into a connecting one and nothing else does; it reaches the host exactly for
      another peer that can be dialled. */
  lemma DialsIff(c: Config, m: Manager, e: Event, p: PeerId)
    requires c.Valid() && Enabled(m, e)
    ensures Connect(p) in CallsOf(c, m, e) <==>
            && p in m.peers && m.peers[p].state == Disconnected && m.peers[p].action == NoAction
            && Next(c, m, e).peers[p].action == Connecting
    ensures HostConnect(p) in CallsOf(c, m, e) <==>
            Connect(p) in CallsOf(c, m, e) && p != c.self && e.TimerTick? && p in e.dialable
  {
    match e
    case Discovered(_) =>
    case Identified(q, hasConnection, hasAddresses) =>
      ConnectionCalls(c, m, q, hasConnection, hasAddresses, p);
      ConnectionEntry(c, m, q, hasConnection);
    case DialSucceeded(q, _, hasConnection, hasAddresses) =>
      ConnectionCalls(c, m, q, hasConnection, hasAddresses, p);
      ConnectionEntry(c, m, q, hasConnection);
    case DialFailed(_) =>
    case PingOk(_) =>
    case PingFailed(q) => PingCalls(c, q, p);
    case TimerTick(order, dialable) =>
      TickCallsFacts(c, m, order, dialable, p);
      TickEntry(c, m, order, dialable, p);
    case Stopped(order) => StopCallsFacts(m, order, p);
  }

  // ---------------------------------------------------------------- laws about every field

  /** Who is known: an event adds the peer it is about, when that is another one discovered or connected. */
  lemma KnownIff(c: Config, m: Manager, e: Event, p: PeerId)
    requires c.Valid() && Enabled(m, e)
    ensures p in Next(c, m, e).peers <==> p in m.peers || ((e == Discovered(p) || Connects(e, p)) && p != c.self)
    ensures Next(c, m, e).tick == m.tick + if e.TimerTick? then 1 else 0
  {
    match e
    case Discovered(_) =>
    case Identified(q, hasConnection, _) => ConnectionEntry(c, m, q, hasConnection);
    case DialSucceeded(q, _, hasConnection, _) => ConnectionEntry(c, m, q, hasConnection);
    case DialFailed(_) =>
    case PingOk(_) =>
    case PingFailed(_) =>
    case TimerTick(_, _) =>
    case Stopped(_) =>
  }

  /** A stranger is entered as disconnected, without action, at the current tick and not pinged; a known peer and
      everybody else are left as they are. */
  lemma DiscoveredIsEntered(c: Config, m: Manager, p: PeerId)
    ensures var m' := Next(c, m, Discovered(p));
            && m'.tick == m.tick
            && m'.peers.Keys == m.peers.Keys + (if p == c.self then {} else {p})
            && (forall q :: q in m.peers ==> m'.peers[q] == m.peers[q])
            && (p != c.self && p !in m.peers ==> m'.peers[p] == PeerState(Disconnected, NoAction, m.tick, false))
  {
    if p in m.peers {
      assert m.peers.Keys + {p} == m.peers.Keys;
    }
  }

  /** The tick an entry was last active at: when it was entered, when its ping was answered or failed, and when a
      tick dialled or dropped it. */
  lemma StampedIff(c: Config, m: Manager, e: Event, p: PeerId)
    requires c.Valid() && Enabled(m, e) && p in Next(c, m, e).peers
    ensures Next(c, m, e).peers[p].lastActivity ==
            if || p !in m.peers
               || PingResult(e, p)
               || (e.TimerTick? && (Connect(p) in CallsOf(c, m, e) || Disconnect(p) in CallsOf(c, m, e)))
            then Next(c, m, e).tick else m.peers[p].lastActivity
  {
    match e
    case Discovered(_) =>
    case Identified(q, hasConnection, _) => ConnectionEntry(c, m, q, hasConnection);
    case DialSucceeded(q, _, hasConnection, _) => ConnectionEntry(c, m, q, hasConnection);
    case DialFailed(_) =>
    case PingOk(_) =>
    case PingFailed(_) =>
    case TimerTick(order, dialable) => TickEntry(c, m, order, dialable, p);
    case Stopped(_) =>
  }

  /** Whether an entry is being pinged changes with the result of a ping of it and in no other way. */
  lemma PingedIff(c: Config, m: Manager, e: Event, p: PeerId)
    requires c.Valid() && Enabled(m, e)
    ensures IsPinged(Next(c, m, e), p) <==>
            if PingResult(e, p) then e.PingOk? && p in m.peers else IsPinged(m, p)
  {
    match e
    case Discovered(_) =>
    case Identified(q, hasConnection, _) => ConnectionEntry(c, m, q, hasConnection);
    case DialSucceeded(q, _, hasConnection, _) => ConnectionEntry(c, m, q, hasConnection);
    case DialFailed(_) =>
    case PingOk(_) =>
    case PingFailed(_) =>
    case TimerTick(order, dialable) => TickEntry(c, m, order, dialable, p);
    case Stopped(_) =>
  }

  /** The action of an entry: set by a dial and, when live, by stopping; cleared by a disconnect and, if it was
      Disconnecting, by a connection event that finds no connection; otherwise kept. */
  lemma ActionIs(c: Config, m: Manager, e: Event, p: PeerId)
    requires c.Valid() && Enabled(m, e) && p in Next(c, m, e).peers
    ensures Next(c, m, e).peers[p].action ==
            if Connect(p) in CallsOf(c, m, e) then Connecting
            else if p !in m.peers || Disconnect(p) in CallsOf(c, m, e) then NoAction
            else if e.Stopped? && IsLive(m, p) then Disconnecting
            else if Connects(e, p) && p != c.self && !IsLive(m, p) && !e.hasConnection
                    && m.peers[p].action == Disconnecting then NoAction
            else m.peers[p].action
  {
    match e
    case Discovered(_) =>
    case Identified(q, hasConnection, hasAddresses) =>
      ConnectionCalls(c, m, q, hasConnection, hasAddresses, p);
      ConnectionEntry(c, m, q, hasConnection);
    case DialSucceeded(q, _, hasConnection, hasAddresses) =>
      ConnectionCalls(c, m, q, hasConnection, hasAddresses, p);
      ConnectionEntry(c, m, q, hasConnection);
    case DialFailed(_) =>
    case PingOk(_) =>
    case PingFailed(q) => PingCalls(c, q, p);
    case TimerTick(order, dialable) => TickEntry(c, m, order, dialable, p);
    case Stopped(order) => StopCallsFacts(m, order, p);
  }
}
