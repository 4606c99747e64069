/** The connection manager as the program has it: an object whose methods update the peer table and the
    tick counter in place. `history` and `calls` are what happened so far; `Valid` ties the fields to the
    run they stand for, so every lemma about runs is a statement about every object of this class. */
module PeerConnections {
  import opened Outcomes
  import opened PeerModel
  import opened PeerLemmas
  import opened PeerEvents
  import PeerRuns

  /** The table while `stop` is walking it: the connected peers visited so far are marked. */
  ghost function Marked(start: Peers, stopped: set<PeerId>): Peers {
    map p | p in start :: if p in stopped then start[p].(action := Disconnecting) else start[p]
  }

  class PeerManager {
    const cfg: Config
    var peers: Peers
    var tick: nat
    ghost var calls: seq<Call>
    ghost var history: seq<Event>

    ghost function View(): Manager
      reads this
    {
      Manager(peers, tick)
    }

    ghost predicate Valid()
      reads this
    {
      && cfg.Valid()
      && IsRun(cfg, history)
      && View() == After(cfg, history)
      && calls == Log(cfg, history)
    }

    constructor (cfg: Config)
      requires cfg.Valid()
      ensures Valid() && this.cfg == cfg && history == []
    {
      this.cfg := cfg;
      peers, tick := map[], 0;
      calls, history := [], [];
    }

    /** The event loop: one event is handled to completion before the next. */
    method Deliver(e: Event)
      requires Valid() && Enabled(View(), e)
      modifies this
      ensures Valid() && history == old(history) + [e]
      ensures |Members(Counted, peers)| <= cfg.max + 1
      ensures e.TimerTick? ==> |Members(Counted, peers)| <= cfg.max
      ensures cfg.self !in peers
    {
      Handle(e);
      history := history + [e];
      EventHandled(cfg, old(history), e);
    }

    /** The dispatch to the handler the environment's event is registered for. */
    method Handle(e: Event)
      requires cfg.Valid() && Enabled(View(), e)
      modifies this`peers, this`tick, this`calls
      ensures View() == Next(cfg, old(View()), e)
      ensures calls == old(calls) + CallsOf(cfg, old(View()), e)
    {
      match e {
        case Discovered(p) => OnDiscoveredPeer(p);
        case Identified(p, hasConnection, hasAddresses) => OnConnectedPeer(p, hasConnection, hasAddresses);
        case DialSucceeded(p, remote, hasConnection, hasAddresses) =>
          if remote == Some(p) {
            OnConnectedPeer(p, hasConnection, hasAddresses);
          }
        case DialFailed(p) =>
        case PingOk(p) => OnPingResult(p, true);
        case PingFailed(p) => OnPingResult(p, false);
        case TimerTick(order, dialable) => UpdateConnections(order, dialable);
        case Stopped(order) => Stop(order);
      }
    }

    method OnDiscoveredPeer(p: PeerId)
      modifies this`peers
      ensures View() == OnDiscovered(cfg, old(View()), p)
      ensures p != cfg.self && p !in old(peers) ==>
                peers == old(peers)[p := PeerState(Disconnected, NoAction, tick, false)]
      ensures p == cfg.self || p in old(peers) ==> peers == old(peers)
    {
      if p == cfg.self {
        return;
      }
      if p in peers {
        return;
      }
      peers := peers[p := Fresh(tick)];
    }

    method OnConnectedPeer(p: PeerId, hasConnection: bool, hasAddresses: bool)
      modifies this`peers, this`calls
      ensures View() == OnConnected(cfg, old(View()), p, hasConnection)
      ensures calls == old(calls) + ConnectedCalls(cfg, old(View()), p, hasConnection, hasAddresses)
      ensures p != cfg.self && !IsLive(old(View()), p) && old(Count(peers)) > cfg.max ==>
                calls == old(calls) + [Disconnect(p), HostDisconnect(p)]
      ensures StartPinging(p) in calls[|old(calls)|..] <==>
              IsLive(View(), p) && !IsLive(old(View()), p) && !IsPinged(old(View()), p)
    {
      ConnectionEvent(cfg, View(), p, hasConnection, hasAddresses);
      if p == cfg.self {
        return;
      }
      if p !in peers {
        peers := peers[p := Fresh(tick)];
      }
      if peers[p].state == Connected {
        return;
      }
      var connectedCount := GetConnectionsCount();
      if connectedCount > cfg.max {
        DisconnectPeer(p);
        return;
      }
      if hasConnection {
        peers := peers[p := peers[p].(state := Connected)];
        if !peers[p].isPinging {
          calls := calls + [StartPinging(p)];
        }
      } else {
        peers := peers[p := peers[p].(state := Disconnected)];
        if peers[p].action == Disconnecting {
          peers := peers[p := peers[p].(action := NoAction)];
        }
        return;
      }
      if hasAddresses {
        // Kademlia raises the discovery event while this handler is still running.
        calls := calls + [AddToKademlia(p)];
        OnDiscoveredPeer(p);
      }
    }

    method OnPingResult(p: PeerId, ok: bool)
      modifies this`peers, this`calls
      ensures View() == OnPing(old(View()), p, ok)
      ensures calls == old(calls) + if ok then [] else DisconnectCalls(cfg, p)
      ensures !ok && p != cfg.self ==> calls == old(calls) + [Disconnect(p), HostDisconnect(p)]
      ensures p in old(peers) ==>
                peers[p] == if ok then old(peers)[p].(isPinging := true, lastActivity := tick)
                            else PeerState(Disconnected, NoAction, tick, false)
    {
      if p in peers {
        peers := peers[p := peers[p].(isPinging := ok)];
        UpdateTick(p);
      }
      if !ok {
        DisconnectPeer(p);
      }
    }

    method UpdateTick(p: PeerId)
      requires p in peers
      modifies this`peers
      ensures peers == old(peers)[p := old(peers)[p].(lastActivity := tick)]
    {
      peers := peers[p := peers[p].(lastActivity := tick)];
    }

    method DisconnectPeer(p: PeerId)
      modifies this`peers, this`calls
      ensures peers == Reset(old(peers), p)
      ensures p in peers ==> peers[p] == old(peers)[p].(state := Disconnected, action := NoAction)
      ensures calls == old(calls) + DisconnectCalls(cfg, p)
      ensures p != cfg.self ==> calls == old(calls) + [Disconnect(p), HostDisconnect(p)]
    {
      calls := calls + [Disconnect(p)];
      if p in peers {
        peers := peers[p := peers[p].(action := NoAction)];
        peers := peers[p := peers[p].(state := Disconnected)];
      }
      if p != cfg.self {
        calls := calls + [HostDisconnect(p)];
      }
    }

    method ConnectPeer(p: PeerId, dialable: set<PeerId>)
      modifies this`calls
      ensures calls ==
              old(calls) + ([Connect(p)] + if p != cfg.self && p in dialable then [HostConnect(p)] else [])
    {
      calls := calls + [Connect(p)];
      if p == cfg.self {
        return;
      }
      if p !in dialable {
        return;
      }
      calls := calls + [HostConnect(p)];
    }

    /** Walking the map in whatever order counts each connected or connecting peer once. */
    method GetConnectionsCount() returns (n: nat)
      ensures n == |Members(Counted, peers)|
    {
      n := 0;
      var rest := peers.Keys;
      ghost var seen: set<PeerId> := {};
      while rest != {}
        invariant rest <= peers.Keys && seen == peers.Keys - rest
        invariant n == |seen * Members(Counted, peers)|
        decreases rest
      {
        var p :| p in rest;
        if peers[p].state == Connected || peers[p].action == Connecting {
          n := n + 1;
        }
        OneMore(seen, Members(Counted, peers), p);
        rest, seen := rest - {p}, seen + {p};
      }
      assert seen * Members(Counted, peers) == Members(Counted, peers);
    }

    /** The 200 ms tick, walking the map in the given order with a local counter and an early exit. The
        counter agrees with a fresh count of the table at every step of either loop. */
    method UpdateConnections(order: seq<PeerId>, dialable: set<PeerId>)
      requires cfg.Valid() && Enumerates(order, peers)
      modifies this`peers, this`tick, this`calls
      ensures View() == Tick(cfg, old(View()), order)
      ensures calls == old(calls) + TickCalls(cfg, old(View()), order, dialable)
    {
      tick := tick + 1;
      var connectedCount := GetConnectionsCount();
      if connectedCount < cfg.min {
        DialUpToMax(order, dialable, connectedCount);
      } else if connectedCount > cfg.max {
        DrainDownToMax(order, connectedCount);
      } else {
        assert Drained(peers, {}, tick) == peers;
      }
    }

    method DialIfIdle(p: PeerId, dialable: set<PeerId>) returns (dialling: bool)
      requires p in peers
      modifies this`peers, this`calls
      ensures dialling == Is(Idle, old(peers)[p])
      ensures dialling ==>
                && peers == old(peers)[p := old(peers)[p].(action := Connecting, lastActivity := tick)]
                && calls == old(calls)
                            + ([Connect(p)] + if p != cfg.self && p in dialable then [HostConnect(p)] else [])
      ensures !dialling ==> peers == old(peers) && calls == old(calls)
    {
      dialling := peers[p].state == Disconnected && peers[p].action == NoAction;
      if dialling {
        peers := peers[p := peers[p].(action := Connecting)];
        UpdateTick(p);
        ConnectPeer(p, dialable);
      }
    }

    method DrainIfConnected(p: PeerId) returns (draining: bool)
      requires p in peers
      modifies this`peers, this`calls
      ensures draining == Is(Live, old(peers)[p])
      ensures draining ==>
                && peers == old(peers)[
                     p := old(peers)[p].(state := Disconnected, action := NoAction, lastActivity := tick)]
                && calls == old(calls) + DisconnectCalls(cfg, p)
      ensures !draining ==> peers == old(peers) && calls == old(calls)
    {
      draining := peers[p].state == Connected;
      if draining {
        peers := peers[p := peers[p].(action := Disconnecting)];
        UpdateTick(p);
        DisconnectPeer(p);
      }
    }

    method DialUpToMax(order: seq<PeerId>, dialable: set<PeerId>, count: nat)
      requires cfg.Valid() && Enumerates(order, peers)
      requires count == Count(peers) < cfg.min
      modifies this`peers, this`calls
      ensures peers == Dialled(old(peers), Elements(Chosen(cfg, old(peers), order)), tick)
      ensures calls == old(calls) + DialCalls(cfg, Chosen(cfg, old(peers), order), dialable)
    {
      ghost var start, dialled := peers, Filter(Idle, peers, []);
      var connectedCount := count;
      var i := 0;
      while i < |order|
        invariant i <= |order| && dialled == Filter(Idle, start, order[..i])
        invariant peers == Dialled(start, Elements(dialled), tick)
        invariant calls == old(calls) + DialCalls(cfg, dialled, dialable)
        invariant connectedCount == count + |dialled| < cfg.max
        invariant connectedCount == Count(peers)
      {
        var p := order[i];
        i := i + 1;
        dialled := DialStep(cfg, start, order, i, tick, old(calls), dialable);
        var dialling := DialIfIdle(p, dialable);
        if dialling {
          connectedCount := connectedCount + 1;
          if connectedCount == cfg.max {
            break;
          }
        }
      }
      DialWalkStopped(cfg, start, order, i);
      assert dialled == Chosen(cfg, start, order);
    }

    method DrainDownToMax(order: seq<PeerId>, count: nat)
      requires cfg.Valid() && Enumerates(order, peers)
      requires count == Count(peers) > cfg.max
      modifies this`peers, this`calls
      ensures peers == Drained(old(peers), Elements(Chosen(cfg, old(peers), order)), tick)
      ensures calls == old(calls) + DrainCalls(cfg, Chosen(cfg, old(peers), order))
    {
      ghost var start, drained := peers, Filter(Live, peers, []);
      var connectedCount := count;
      var i := 0;
      while i < |order|
        invariant i <= |order| && drained == Filter(Live, start, order[..i])
        invariant peers == Drained(start, Elements(drained), tick)
        invariant calls == old(calls) + DrainCalls(cfg, drained)
        invariant connectedCount == count - |drained| > cfg.max
        invariant connectedCount == Count(peers)
      {
        var p := order[i];
        i := i + 1;
        drained := DrainStep(cfg, start, order, i, tick, old(calls));
        var draining := DrainIfConnected(p);
        if draining {
          connectedCount := connectedCount - 1;
          if connectedCount == cfg.max {
            break;
          }
        }
      }
      DrainWalkStopped(cfg, start, order, i);
      assert drained == Chosen(cfg, start, order);
    }

    /** Each connected peer is told to disconnect; their entries stay connected until that happens. */
    method Stop(order: seq<PeerId>)
      requires Enumerates(order, peers)
      modifies this`peers, this`calls
      ensures View() == OnStop(old(View()))
      ensures calls == old(calls) + StopCalls(Filter(Live, old(peers), order))
    {
      ghost var start, stopped := peers, Filter(Live, peers, []);
      var i := 0;
      while i < |order|
        invariant i <= |order| && stopped == Filter(Live, start, order[..i])
        invariant peers == Marked(start, Elements(stopped))
        invariant calls == old(calls) + StopCalls(stopped)
      {
        var p := order[i];
        i := i + 1;
        stopped := StopStep(start, order, i, old(calls));
        if peers[p].state == Connected {
          peers := peers[p := peers[p].(action := Disconnecting)];
          calls := calls + [HostDisconnect(p)];
        }
      }
      assert order[..i] == order;
      StopDone(start, tick, order);
    }

    /** Reports the connected peers in walking order, each once. */
    method GetPeersInfo(order: seq<PeerId>) returns (result: seq<PeerId>)
      requires Enumerates(order, peers)
      ensures Distinct(result) && Elements(result) == Members(Live, peers)
      ensures result == Filter(Live, peers, order)
    {
      result := [];
      var i := 0;
      while i < |order|
        invariant i <= |order|
        invariant result == Filter(Live, peers, order[..i])
      {
        assert order[i] in Elements(order);
        assert order[..i + 1][..i] == order[..i];
        if peers[order[i]].state == Connected {
          result := result + [order[i]];
        }
        i := i + 1;
      }
      assert order[..i] == order;
      FilterCovers(Live, peers, order);
    }
  }

  lemma ConnectionEvent(c: Config, m: Manager, p: PeerId, hasConnection: bool, hasAddresses: bool)
    ensures var m', calls := OnConnected(c, m, p, hasConnection), ConnectedCalls(c, m, p, hasConnection, hasAddresses);
            && (p != c.self && !IsLive(m, p) && Count(m.peers) > c.max ==> calls == [Disconnect(p), HostDisconnect(p)])
            && (StartPinging(p) in calls <==> IsLive(m', p) && !IsLive(m, p) && !IsPinged(m, p))
  {
    CountWithPeer(m, p);
    ConnectionCalls(c, m, p, hasConnection, hasAddresses, p);
    ConnectionEntry(c, m, p, hasConnection);
  }

  lemma EventHandled(c: Config, es: seq<Event>, e: Event)
    requires c.Valid() && IsRun(c, es) && Enabled(After(c, es), e)
    ensures IsRun(c, es + [e])
    ensures After(c, es + [e]) == Next(c, After(c, es), e)
    ensures Log(c, es + [e]) == Log(c, es) + CallsOf(c, After(c, es), e)
    ensures Count(After(c, es + [e]).peers) <= c.max + 1
    ensures e.TimerTick? ==> Count(After(c, es + [e]).peers) <= c.max
    ensures c.self !in After(c, es + [e]).peers
  {
    PeerRuns.RunExtends(c, es, e);
    PeerRuns.RunIsCapped(c, es + [e]);
  }

  /** A visited peer adds itself to the counted ones seen so far exactly if it is counted. */
  lemma OneMore(seen: set<PeerId>, counted: set<PeerId>, p: PeerId)
    requires p !in seen
    ensures |(seen + {p}) * counted| == |seen * counted| + if p in counted then 1 else 0
  {
    assert (seen + {p}) * counted == if p in counted then seen * counted + {p} else seen * counted;
  }

  /** One step of the dialling walk: the entry reached is still as it was, and its own update is what the
      closed form adds for it. */
  lemma DialStep(c: Config, start: Peers, order: seq<PeerId>, i: nat, tick: nat, log: seq<Call>, dialable: set<PeerId>)
    returns (after: seq<PeerId>)
    requires Enumerates(order, start) && 0 < i <= |order|
    ensures after == Filter(Idle, start, order[..i])
    ensures var p, before := order[i - 1], Filter(Idle, start, order[..i - 1]);
            && p in start
            && Dialled(start, Elements(before), tick).Keys == start.Keys
            && Dialled(start, Elements(before), tick)[p] == start[p]
            && Count(Dialled(start, Elements(after), tick)) == Count(start) + |after|
            && (!Is(Idle, start[p]) ==> after == before)
            && (Is(Idle, start[p]) ==>
                  && |after| == |before| + 1
                  && Dialled(start, Elements(after), tick) ==
                     Dialled(start, Elements(before), tick)[p := start[p].(action := Connecting, lastActivity := tick)]
                  && log + DialCalls(c, after, dialable) ==
                     log + DialCalls(c, before, dialable)
                     + ([Connect(p)] + if p != c.self && p in dialable then [HostConnect(p)] else []))
  {
    after := Filter(Idle, start, order[..i]);
    var before := Filter(Idle, start, order[..i - 1]);
    WalkStep(Idle, start, order, i);
    DialledCounts(start, Elements(after), tick);
    DialOne(c, start, before, order[i - 1], tick, log, dialable);
  }

  lemma DialOne(c: Config, start: Peers, before: seq<PeerId>, p: PeerId, tick: nat, log: seq<Call>,
                dialable: set<PeerId>)
    requires p in start && p !in Elements(before)
    ensures Dialled(start, Elements(before), tick)[p] == start[p]
    ensures Dialled(start, Elements(before) + {p}, tick) ==
            Dialled(start, Elements(before), tick)[p := start[p].(action := Connecting, lastActivity := tick)]
    ensures log + DialCalls(c, before + [p], dialable) ==
            log + DialCalls(c, before, dialable)
            + ([Connect(p)] + if p != c.self && p in dialable then [HostConnect(p)] else [])
  {
    assert (before + [p])[..|before|] == before;
  }

  lemma DrainStep(c: Config, start: Peers, order: seq<PeerId>, i: nat, tick: nat, log: seq<Call>)
    returns (after: seq<PeerId>)
    requires Enumerates(order, start) && 0 < i <= |order|
    ensures after == Filter(Live, start, order[..i])
    ensures var p, before := order[i - 1], Filter(Live, start, order[..i - 1]);
            && p in start
            && Drained(start, Elements(before), tick).Keys == start.Keys
            && Drained(start, Elements(before), tick)[p] == start[p]
            && Count(Drained(start, Elements(after), tick)) == Count(start) - |after|
            && (!Is(Live, start[p]) ==> after == before)
            && (Is(Live, start[p]) ==>
                  && |after| == |before| + 1
                  && Drained(start, Elements(after), tick) ==
                     Drained(start, Elements(before), tick)[
                       p := start[p].(state := Disconnected, action := NoAction, lastActivity := tick)]
                  && log + DrainCalls(c, after) == log + DrainCalls(c, before) + DisconnectCalls(c, p))
  {
    after := Filter(Live, start, order[..i]);
    var before := Filter(Live, start, order[..i - 1]);
    WalkStep(Live, start, order, i);
    DrainedCounts(start, Elements(after), tick);
    DrainOne(c, start, before, order[i - 1], tick, log);
  }

  lemma DrainOne(c: Config, start: Peers, before: seq<PeerId>, p: PeerId, tick: nat, log: seq<Call>)
    requires p in start && p !in Elements(before)
    ensures Drained(start, Elements(before), tick)[p] == start[p]
    ensures Drained(start, Elements(before) + {p}, tick) ==
            Drained(start, Elements(before), tick)[
              p := start[p].(state := Disconnected, action := NoAction, lastActivity := tick)]
    ensures log + DrainCalls(c, before + [p]) == log + DrainCalls(c, before) + DisconnectCalls(c, p)
  {
    assert (before + [p])[..|before|] == before;
  }

  lemma StopStep(start: Peers, order: seq<PeerId>, i: nat, log: seq<Call>) returns (after: seq<PeerId>)
    requires Enumerates(order, start) && 0 < i <= |order|
    ensures after == Filter(Live, start, order[..i])
    ensures var p, before := order[i - 1], Filter(Live, start, order[..i - 1]);
            && p in start
            && Marked(start, Elements(before))[p] == start[p]
            && (!Is(Live, start[p]) ==> after == before)
            && (Is(Live, start[p]) ==>
                  && Marked(start, Elements(after)) ==
                     Marked(start, Elements(before))[p := start[p].(action := Disconnecting)]
                  && log + StopCalls(after) == log + StopCalls(before) + [HostDisconnect(p)])
  {
    after := Filter(Live, start, order[..i]);
    WalkStep(Live, start, order, i);
    StopOne(start, Filter(Live, start, order[..i - 1]), order[i - 1], log);
  }

  lemma StopDone(start: Peers, tick: nat, order: seq<PeerId>)
    requires Enumerates(order, start)
    ensures Manager(Marked(start, Elements(Filter(Live, start, order))), tick) == OnStop(Manager(start, tick))
  {
    FilterCovers(Live, start, order);
  }

  lemma StopOne(start: Peers, before: seq<PeerId>, p: PeerId, log: seq<Call>)
    requires p in start && p !in Elements(before)
    ensures Marked(start, Elements(before))[p] == start[p]
    ensures Marked(start, Elements(before) + {p}) ==
            Marked(start, Elements(before))[p := start[p].(action := Disconnecting)]
    ensures log + StopCalls(before + [p]) == log + StopCalls(before) + [HostDisconnect(p)]
  {
  }

  lemma WalkStep(k: Kind, start: Peers, order: seq<PeerId>, i: nat)
    requires Enumerates(order, start) && 0 < i <= |order|
    ensures var p, before, after := order[i - 1], Filter(k, start, order[..i - 1]), Filter(k, start, order[..i]);
            && p in start && p !in before
            && after == before + (if Is(k, start[p]) then [p] else [])
            && Elements(after) <= Members(k, start)
            && |Elements(after)| == |after|
            && Elements(after) == Elements(before) + (if Is(k, start[p]) then {p} else {})
            && p !in Elements(before)
  {
    var p := order[i - 1];
    assert p in Elements(order);
    assert order[..i][..i - 1] == order[..i - 1];
    FilterExact(k, start, order[..i - 1]);
    FilterExact(k, start, order[..i]);
    DistinctSize(Filter(k, start, order[..i]));
    assert p !in Elements(order[..i - 1]);
    assert p !in Elements(Filter(k, start, order[..i - 1]));
  }

  lemma DialWalkStopped(c: Config, start: Peers, order: seq<PeerId>, i: nat)
    requires c.Valid() && Count(start) < c.min && i <= |order|
    requires Count(start) + |Filter(Idle, start, order[..i])| <= c.max
    requires i < |order| ==> Count(start) + |Filter(Idle, start, order[..i])| == c.max
    ensures Filter(Idle, start, order[..i]) == Chosen(c, start, order)
  {
    WalkStopped(Idle, start, order, i, c.max - Count(start));
  }

  lemma DrainWalkStopped(c: Config, start: Peers, order: seq<PeerId>, i: nat)
    requires c.Valid() && Count(start) > c.max && i <= |order|
    requires Count(start) - |Filter(Live, start, order[..i])| >= c.max
    requires i < |order| ==> Count(start) - |Filter(Live, start, order[..i])| == c.max
    ensures Filter(Live, start, order[..i]) == Chosen(c, start, order)
  {
    WalkStopped(Live, start, order, i, Count(start) - c.max);
  }

  /** A walk that ran to the end or stopped once it had its quota picked what the closed form picks. */
  lemma WalkStopped(k: Kind, start: Peers, order: seq<PeerId>, i: nat, quota: nat)
    requires i <= |order| && |Filter(k, start, order[..i])| <= quota
    requires i < |order| ==> |Filter(k, start, order[..i])| == quota
    ensures Filter(k, start, order[..i]) == Take(Filter(k, start, order), quota)
  {
    FilterPrefix(k, start, order, i);
    assert order[..|order|] == order;
  }
}
