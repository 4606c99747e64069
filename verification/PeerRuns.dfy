/** What holds in every run of the connection manager, for any event order and any map walk. */
module PeerRuns {
  import opened PeerModel
  import opened PeerLemmas

  // ---------------------------------------------------------------- the tick

  lemma TickDialsChosen(c: Config, m: Manager, order: seq<PeerId>)
    requires Count(m.peers) < c.min
    ensures Tick(c, m, order).peers == Dialled(m.peers, Elements(Chosen(c, m.peers, order)), m.tick + 1)
  {
  }

  lemma TickDials(c: Config, m: Manager, order: seq<PeerId>)
    requires c.Valid() && Enumerates(order, m.peers) && Count(m.peers) < c.min
    ensures var peers, chosen := Tick(c, m, order).peers, Chosen(c, m.peers, order);
            && Members(Live, peers) == Members(Live, m.peers)
            && Count(peers) == Count(m.peers) + |chosen|
            && |Members(Idle, peers)| == |Members(Idle, m.peers)| - |chosen|
            && |chosen| == Min(c.max - Count(m.peers), |Members(Idle, m.peers)|)
  {
    var chosen := Chosen(c, m.peers, order);
    TickDialsChosen(c, m, order);
    ChosenFacts(c, m.peers, order);
    DialledCounts(m.peers, Elements(chosen), m.tick + 1);
  }

  lemma TickDrains(c: Config, m: Manager, order: seq<PeerId>)
    requires c.Valid() && Enumerates(order, m.peers) && Count(m.peers) > c.max
    ensures var peers, chosen := Tick(c, m, order).peers, Chosen(c, m.peers, order);
            && Members(Live, peers) <= Members(Live, m.peers)
            && Count(peers) == Count(m.peers) - |chosen|
            && |Members(Live, peers)| == |Members(Live, m.peers)| - |chosen|
            && |Members(Idle, peers)| == |Members(Idle, m.peers)| + |chosen|
            && |chosen| == Min(Count(m.peers) - c.max, |Members(Live, m.peers)|)
  {
    var chosen := Chosen(c, m.peers, order);
    ChosenFacts(c, m.peers, order);
    DrainedCounts(m.peers, Elements(chosen), m.tick + 1);
  }

  /** Below the minimum a tick dials exactly up to the maximum or until no idle peer is left; above the
      maximum it drops connected peers down to it; in between only the tick number changes. */
  lemma TickExact(c: Config, m: Manager, order: seq<PeerId>)
    requires c.Valid() && Enumerates(order, m.peers)
    ensures var m' := Tick(c, m, order);
            var n, n' := Count(m.peers), Count(m'.peers);
            && m'.tick == m.tick + 1 && m'.peers.Keys == m.peers.Keys
            && (n < c.min ==>
                  n' == Min(c.max, n + |Members(Idle, m.peers)|) &&
                  |Members(Idle, m'.peers)| == |Members(Idle, m.peers)| - (n' - n) &&
                  Members(Live, m'.peers) == Members(Live, m.peers) &&
                  |Chosen(c, m.peers, order)| == n' - n)
            && (n > c.max ==>
                  n - n' == Min(n - c.max, |Members(Live, m.peers)|) &&
                  Members(Live, m'.peers) <= Members(Live, m.peers) &&
                  |Members(Live, m'.peers)| == |Members(Live, m.peers)| - (n - n') &&
                  |Members(Idle, m'.peers)| == |Members(Idle, m.peers)| + (n - n') &&
                  |Chosen(c, m.peers, order)| == n - n')
            && (c.min <= n <= c.max ==> m'.peers == m.peers)
  {
    if Count(m.peers) < c.min {
      TickDials(c, m, order);
    } else if Count(m.peers) > c.max {
      TickDrains(c, m, order);
    } else {
      ChosenFacts(c, m.peers, order);
    }
  }

  /** Two walks over the same table may pick different peers but never different numbers of them. */
  lemma TickOrderIrrelevant(c: Config, m: Manager, order: seq<PeerId>, other: seq<PeerId>)
    requires c.Valid() && Enumerates(order, m.peers) && Enumerates(other, m.peers)
    ensures Count(Tick(c, m, order).peers) == Count(Tick(c, m, other).peers)
    ensures |Members(Idle, Tick(c, m, order).peers)| == |Members(Idle, Tick(c, m, other).peers)|
    ensures |Members(Live, Tick(c, m, order).peers)| == |Members(Live, Tick(c, m, other).peers)|
    ensures |Chosen(c, m.peers, order)| == |Chosen(c, m.peers, other)|
  {
    TickExact(c, m, order);
    TickExact(c, m, other);
  }

  /** A tick leaves the table alone exactly when the count is in range or nobody it could act on is left. In
      particular peers whose dials failed, still marked Connecting, keep counting and are not dialled again. */
  lemma TickDoesNothingIff(c: Config, m: Manager, order: seq<PeerId>)
    requires c.Valid() && Enumerates(order, m.peers)
    ensures Tick(c, m, order).peers == m.peers <==>
            || c.min <= Count(m.peers) <= c.max
            || (Count(m.peers) < c.min && Members(Idle, m.peers) == {})
            || (Count(m.peers) > c.max && Members(Live, m.peers) == {})
  {
    TickExact(c, m, order);
    ChosenFacts(c, m.peers, order);
    var chosen := Elements(Chosen(c, m.peers, order));
    if Count(Tick(c, m, order).peers) == Count(m.peers) {
      assert chosen == {};
    }
  }

  /** Every event but the tick and `stop` touches at most the entry of the peer it is about. */
  lemma OnlyOwnEntryChanges(c: Config, m: Manager, e: Event, q: PeerId)
    requires !e.TimerTick? && !e.Stopped? && q != e.p
    ensures var m' := Next(c, m, e);
            && m'.tick == m.tick
            && (q in m'.peers <==> q in m.peers)
            && (q in m.peers ==> m'.peers[q] == m.peers[q])
  {
    match e
    case Discovered(_) =>
    case Identified(_, _, _) =>
    case DialSucceeded(_, _, _, _) =>
    case DialFailed(_) =>
    case PingOk(_) =>
    case PingFailed(_) =>
  }

  // ---------------------------------------------------------------- the inductive invariant

  ghost predicate EntryOk(tick: nat, s: PeerState) {
    s.lastActivity <= tick && (s.action == Disconnecting ==> s.state == Connected)
  }

  /** At `max + 1` some counted peer is connected: without that the drain loop could find nobody to evict. */
  ghost predicate Inv(c: Config, m: Manager) {
    && c.self !in m.peers
    && (forall p | p in m.peers :: EntryOk(m.tick, m.peers[p]))
    && Count(m.peers) <= c.max + 1
    && (Count(m.peers) == c.max + 1 ==> Members(Live, m.peers) != {})
  }

  /** Replacing one entry by an uncounted one never breaks the cap. */
  lemma DropKeepsInv(c: Config, m: Manager, p: PeerId, s: PeerState)
    requires Inv(c, m) && p != c.self && EntryOk(m.tick, s) && !Is(Counted, s)
    ensures Inv(c, m.(peers := m.peers[p := s]))
    ensures Count(m.peers[p := s]) <= Count(m.peers)
  {
    UpdateMembers(Counted, m.peers, p, s);
    UpdateMembers(Live, m.peers, p, s);
    SubsetSize(Members(Counted, m.peers) - {p}, Members(Counted, m.peers));
    if Count(m.peers[p := s]) == c.max + 1 {
      if p in Members(Counted, m.peers) {
        MinusSize(Members(Counted, m.peers), {p});
      }
      assert Members(Live, m.peers) - {p} == Members(Live, m.peers);
    }
  }

  lemma ResetKeepsInv(c: Config, m: Manager, p: PeerId)
    requires Inv(c, m)
    ensures Inv(c, m.(peers := Reset(m.peers, p)))
    ensures Count(Reset(m.peers, p)) <= Count(m.peers)
  {
    if p in m.peers {
      DropKeepsInv(c, m, p, m.peers[p].(state := Disconnected, action := NoAction));
    } else {
      assert m.(peers := m.peers) == m;
    }
  }

  lemma WithPeerKeepsInv(c: Config, m: Manager, p: PeerId)
    requires Inv(c, m) && p != c.self
    ensures Inv(c, m.(peers := WithPeer(m, p)))
    ensures Members(Counted, WithPeer(m, p)) == Members(Counted, m.peers)
  {
    if p !in m.peers {
      UpdateMembers(Counted, m.peers, p, Fresh(m.tick));
      DropKeepsInv(c, m, p, Fresh(m.tick));
    } else {
      assert m.(peers := m.peers) == m;
    }
  }

  /** The count can pass `max` only here, and then the newcomer itself is a connected peer. */
  lemma ConnectKeepsInv(c: Config, m: Manager, p: PeerId)
    requires Inv(c, m) && p in m.peers && Count(m.peers) <= c.max
    ensures Inv(c, m.(peers := m.peers[p := m.peers[p].(state := Connected)]))
  {
    UpdateMembers(Counted, m.peers, p, m.peers[p].(state := Connected));
    UpdateMembers(Live, m.peers, p, m.peers[p].(state := Connected));
    assert p in Members(Live, m.peers) + {p};
  }

  lemma OnConnectedKeepsInv(c: Config, m: Manager, p: PeerId, hasConnection: bool)
    requires c.Valid() && Inv(c, m)
    ensures Inv(c, OnConnected(c, m, p, hasConnection))
  {
    if p == c.self {
      return;
    }
    WithPeerKeepsInv(c, m, p);
    var known := m.(peers := WithPeer(m, p));
    if known.peers[p].state == Connected {
    } else if Count(known.peers) > c.max {
      ResetKeepsInv(c, known, p);
    } else if hasConnection {
      ConnectKeepsInv(c, known, p);
    } else {
      assert known.peers[p := known.peers[p]] == known.peers;
    }
  }

  lemma OnPingKeepsInv(c: Config, m: Manager, p: PeerId, ok: bool)
    requires Inv(c, m)
    ensures Inv(c, OnPing(m, p, ok))
  {
    if p in m.peers {
      var s := m.peers[p].(isPinging := ok, lastActivity := m.tick);
      UpdateMembers(Counted, m.peers, p, s);
      UpdateMembers(Live, m.peers, p, s);
      if Is(Counted, s) {
        assert Members(Counted, m.peers) + {p} == Members(Counted, m.peers);
      } else {
        assert Members(Counted, m.peers) - {p} == Members(Counted, m.peers);
      }
      if Is(Live, s) {
        assert Members(Live, m.peers) + {p} == Members(Live, m.peers);
      } else {
        assert Members(Live, m.peers) - {p} == Members(Live, m.peers);
      }
      var pinged := m.(peers := m.peers[p := s]);
      assert Inv(c, pinged);
      ResetKeepsInv(c, pinged, p);
    }
  }

  /** After a tick the cap itself holds, not just the cap plus one. */
  lemma TickRestoresCap(c: Config, m: Manager, order: seq<PeerId>)
    requires c.Valid() && Inv(c, m) && Enumerates(order, m.peers)
    ensures Inv(c, Tick(c, m, order))
    ensures Count(Tick(c, m, order).peers) <= c.max
    ensures Count(m.peers) > c.max ==>
              Count(Tick(c, m, order).peers) == c.max && |Chosen(c, m.peers, order)| == Count(m.peers) - c.max == 1
  {
    TickExact(c, m, order);
    if Count(m.peers) > c.max {
      assert |Members(Live, m.peers)| >= 1;
    }
  }

  /** Ticks settle: whatever the two walks, a second tick finds nobody to dial or to drop. */
  lemma TicksSettle(c: Config, m: Manager, order: seq<PeerId>, other: seq<PeerId>)
    requires c.Valid() && Inv(c, m) && Enumerates(order, m.peers) && Enumerates(other, m.peers)
    ensures Tick(c, Tick(c, m, order), other).peers == Tick(c, m, order).peers
  {
    var once := Tick(c, m, order);
    TickExact(c, m, order);
    TickRestoresCap(c, m, order);
    TickDoesNothingIff(c, once, other);
  }

  lemma OnStopKeepsInv(c: Config, m: Manager)
    requires Inv(c, m)
    ensures Inv(c, OnStop(m))
    ensures Members(Counted, OnStop(m).peers) == Members(Counted, m.peers)
  {
    assert forall p :: p in Members(Live, m.peers) <==> p in Members(Live, OnStop(m).peers);
    assert Members(Live, OnStop(m).peers) == Members(Live, m.peers);
    forall p
      ensures p in Members(Counted, OnStop(m).peers) <==> p in Members(Counted, m.peers)
    {
    }
    assert Members(Counted, OnStop(m).peers) == Members(Counted, m.peers);
  }

  lemma StepKeepsInv(c: Config, m: Manager, e: Event)
    requires c.Valid() && Inv(c, m) && Enabled(m, e)
    ensures Inv(c, Next(c, m, e))
  {
    match e
    case Discovered(p) =>
      if p != c.self && p !in m.peers {
        DropKeepsInv(c, m, p, Fresh(m.tick));
      }
    case Identified(p, hasConnection, _) => OnConnectedKeepsInv(c, m, p, hasConnection);
    case DialSucceeded(p, _, hasConnection, _) => OnConnectedKeepsInv(c, m, p, hasConnection);
    case DialFailed(_) =>
    case PingOk(p) => OnPingKeepsInv(c, m, p, true);
    case PingFailed(p) => OnPingKeepsInv(c, m, p, false);
    case TimerTick(order, _) => TickRestoresCap(c, m, order);
    case Stopped(_) => OnStopKeepsInv(c, m);
  }

  /** Every reachable state satisfies the invariant. */
  lemma {:induction false} RunKeepsInv(c: Config, es: seq<Event>)
    requires c.Valid() && IsRun(c, es)
    ensures Inv(c, After(c, es))
  {
    if es == [] {
      assert Members(Counted, INITIAL.peers) == {};
    } else {
      RunKeepsInv(c, es[..|es| - 1]);
      StepKeepsInv(c, After(c, es[..|es| - 1]), es[|es| - 1]);
    }
  }

  /** The cap: never more than `max + 1`, and at most `max` right after every tick. */
  lemma RunIsCapped(c: Config, es: seq<Event>)
    requires c.Valid() && IsRun(c, es)
    ensures Count(After(c, es).peers) <= c.max + 1
    ensures es != [] && es[|es| - 1].TimerTick? ==> Count(After(c, es).peers) <= c.max
    ensures c.self !in After(c, es).peers
  {
    RunKeepsInv(c, es);
    if es != [] && es[|es| - 1].TimerTick? {
      RunKeepsInv(c, es[..|es| - 1]);
      TickRestoresCap(c, After(c, es[..|es| - 1]), es[|es| - 1].order);
    }
  }

  /** In every reachable state the known peers are exactly the counted and the idle ones, and the branch of
      `onConnectedPeer` that clears a Disconnecting action never sees one. */
  lemma KnownPeersSplit(c: Config, es: seq<Event>)
    requires c.Valid() && IsRun(c, es)
    ensures var peers := After(c, es).peers;
            && Members(Counted, peers) + Members(Idle, peers) == peers.Keys
            && Members(Counted, peers) !! Members(Idle, peers)
            && Count(peers) + |Members(Idle, peers)| == |peers|
            && (forall p :: p in peers && peers[p].action == Disconnecting ==> peers[p].state == Connected)
  {
    RunKeepsInv(c, es);
    var m := After(c, es);
    InvSplits(c, m);
    forall p | p in m.peers && m.peers[p].action == Disconnecting
      ensures m.peers[p].state == Connected
    {
      assert EntryOk(m.tick, m.peers[p]);
    }
  }

  lemma InvSplits(c: Config, m: Manager)
    requires Inv(c, m)
    ensures Members(Counted, m.peers) + Members(Idle, m.peers) == m.peers.Keys
    ensures Members(Counted, m.peers) !! Members(Idle, m.peers)
    ensures Count(m.peers) + |Members(Idle, m.peers)| == |m.peers|
  {
    forall p | p in m.peers
      ensures p in Members(Counted, m.peers) + Members(Idle, m.peers)
    {
      assert EntryOk(m.tick, m.peers[p]);
    }
    assert Members(Counted, m.peers) + Members(Idle, m.peers) == m.peers.Keys;
    assert |m.peers.Keys| == |m.peers|;
  }

  lemma RunExtends(c: Config, es: seq<Event>, e: Event)
    requires IsRun(c, es) && Enabled(After(c, es), e)
    ensures IsRun(c, es + [e])
    ensures After(c, es + [e]) == Next(c, After(c, es), e)
    ensures Log(c, es + [e]) == Log(c, es) + CallsOf(c, After(c, es), e)
  {
    assert (es + [e])[..|es|] == es;
  }

  /** After a tick that started below the minimum either the table is full or nobody is left to dial. */
  lemma TickFillsOrExhausts(c: Config, es: seq<Event>, order: seq<PeerId>, dialable: set<PeerId>)
    requires c.Valid() && IsRun(c, es) && Enumerates(order, After(c, es).peers)
    requires Count(After(c, es).peers) < c.min
    ensures var peers := After(c, es + [TimerTick(order, dialable)]).peers;
            Count(peers) == c.max || (Members(Idle, peers) == {} && Count(peers) == |peers|)
  {
    RunExtends(c, es, TimerTick(order, dialable));
    var m, m' := After(c, es), Next(c, After(c, es), TimerTick(order, dialable));
    RunKeepsInv(c, es);
    StepKeepsInv(c, m, TimerTick(order, dialable));
    InvSplits(c, m');
    TickDials(c, m, order);
  }

  // ---------------------------------------------------------------- what never goes back

  /** Known peers stay known, and neither the tick nor any activity stamp ever goes back. */
  ghost predicate Grows(m: Manager, m': Manager) {
    && m.tick <= m'.tick
    && forall p | p in m.peers :: p in m'.peers && m.peers[p].lastActivity <= m'.peers[p].lastActivity
  }

  lemma GrowsTransitive(a: Manager, b: Manager, d: Manager)
    requires Grows(a, b) && Grows(b, d)
    ensures Grows(a, d)
  {
  }

  lemma StepGrows(c: Config, m: Manager, e: Event)
    requires Inv(c, m)
    ensures Grows(m, Next(c, m, e))
  {
    assert forall p | p in m.peers :: EntryOk(m.tick, m.peers[p]);
    if e.TimerTick? {
      TickGrows(c, m, e.order);
    }
  }

  lemma TickGrows(c: Config, m: Manager, order: seq<PeerId>)
    requires Inv(c, m)
    ensures Grows(m, Tick(c, m, order))
  {
    forall p | p in m.peers
      ensures m.peers[p].lastActivity <= Tick(c, m, order).peers[p].lastActivity
    {
      assert EntryOk(m.tick, m.peers[p]);
    }
  }

  lemma {:induction false} RunGrows(c: Config, es: seq<Event>, i: nat)
    requires c.Valid() && IsRun(c, es) && i <= |es|
    ensures Grows(After(c, es[..i]), After(c, es))
    decreases |es|
  {
    if i == |es| {
      assert es[..i] == es;
    } else {
      var init := es[..|es| - 1];
      RunGrows(c, init, i);
      assert init[..i] == es[..i];
      RunKeepsInv(c, init);
      StepGrows(c, After(c, init), es[|es| - 1]);
      GrowsTransitive(After(c, es[..i]), After(c, init), After(c, es));
    }
  }

  /** Whatever event has a peer re-added to Kademlia, the discovery event this raises changes nothing. */
  lemma ReAddedPeerIsKnown(c: Config, m: Manager, e: Event, p: PeerId)
    requires AddToKademlia(p) in CallsOf(c, m, e)
    ensures p != c.self && p in Next(c, m, e).peers
    ensures OnDiscovered(c, Next(c, m, e), p) == Next(c, m, e)
  {
    match e
    case Identified(_, _, _) =>
    case DialSucceeded(_, _, _, _) =>
    case TimerTick(order, dialable) =>
      var chosen := Chosen(c, m.peers, order);
      TickAddsNobody(c, chosen, dialable, p);
      assert false;
    case Stopped(_) =>
    case PingFailed(_) =>
    case _ =>
  }

  lemma {:induction false} TickAddsNobody(c: Config, chosen: seq<PeerId>, dialable: set<PeerId>, p: PeerId)
    ensures AddToKademlia(p) !in DialCalls(c, chosen, dialable)
    ensures AddToKademlia(p) !in DrainCalls(c, chosen)
  {
    if chosen == [] {
    } else {
      TickAddsNobody(c, chosen[..|chosen| - 1], dialable, p);
    }
  }
}
