/** Accounting over whole runs: every dial of a peer after the first is preceded by a disconnect of it. */
module PeerDials {
  import opened Outcomes
  import opened PeerModel
  import opened PeerLemmas
  import opened PeerRuns

  /** A dial of `p` that no `disconnect` of `p` has answered yet. */
  predicate Open(log: seq<Call>, p: PeerId) {
    if log == [] then false
    else
      var last := log[|log| - 1];
      last == Connect(p) || (last != Disconnect(p) && Open(log[..|log| - 1], p))
  }

  /** No dial of `p` is made while an earlier one is unanswered. */
  ghost predicate Alternates(log: seq<Call>, p: PeerId) {
    forall i :: 0 <= i < |log| && log[i] == Connect(p) ==> !Open(log[..i], p)
  }

  lemma OpenSnoc(log: seq<Call>, call: Call, p: PeerId)
    ensures Open(log + [call], p) <==> call == Connect(p) || (call != Disconnect(p) && Open(log, p))
  {
    assert (log + [call])[..|log|] == log;
  }

  lemma AlternatesSnoc(log: seq<Call>, call: Call, p: PeerId)
    requires Alternates(log, p) && (call == Connect(p) ==> !Open(log, p))
    ensures Alternates(log + [call], p)
  {
    forall i | 0 <= i < |log| + 1 && (log + [call])[i] == Connect(p)
      ensures !Open((log + [call])[..i], p)
    {
      assert (log + [call])[..i] == log[..i];
      assert i == |log| ==> log[..i] == log;
    }
  }

  /** A stretch of calls without a dial of `p` keeps the alternation; a disconnect in it closes the dial. */
  lemma {:induction false} NoDialSegment(log: seq<Call>, calls: seq<Call>, p: PeerId)
    requires Alternates(log, p) && Connect(p) !in calls
    ensures Alternates(log + calls, p)
    ensures Open(log + calls, p) <==> Open(log, p) && Disconnect(p) !in calls
  {
    if calls == [] {
      assert log + calls == log;
    } else {
      var init, last := calls[..|calls| - 1], calls[|calls| - 1];
      NoDialSegment(log, init, p);
      assert log + calls == (log + init) + [last];
      assert calls == init + [last];
      AlternatesSnoc(log + init, last, p);
      OpenSnoc(log + init, last, p);
    }
  }

  lemma {:induction false} DialSegment(c: Config, log: seq<Call>, chosen: seq<PeerId>, dialable: set<PeerId>, p: PeerId)
    requires Alternates(log, p) && Distinct(chosen) && (p in chosen ==> !Open(log, p))
    ensures Alternates(log + DialCalls(c, chosen, dialable), p)
    ensures Open(log + DialCalls(c, chosen, dialable), p) <==> Open(log, p) || p in chosen
  {
    if chosen == [] {
      assert log + DialCalls(c, chosen, dialable) == log;
    } else {
      var init, q := chosen[..|chosen| - 1], chosen[|chosen| - 1];
      DialSegment(c, log, init, dialable, p);
      assert chosen == init + [q];
      var before := log + DialCalls(c, init, dialable);
      AlternatesSnoc(before, Connect(q), p);
      OpenSnoc(before, Connect(q), p);
      var reached := if q != c.self && q in dialable then [HostConnect(q)] else [];
      NoDialSegment(before + [Connect(q)], reached, p);
      assert log + DialCalls(c, chosen, dialable) == before + [Connect(q)] + reached;
    }
  }

  lemma {:induction false} DrainCallsFacts(c: Config, chosen: seq<PeerId>, p: PeerId)
    ensures Connect(p) !in DrainCalls(c, chosen)
    ensures Disconnect(p) in DrainCalls(c, chosen) <==> p in chosen
  {
    if chosen == [] {
    } else {
      DrainCallsFacts(c, chosen[..|chosen| - 1], p);
      assert chosen == chosen[..|chosen| - 1] + [chosen[|chosen| - 1]];
    }
  }

  /** Only the tick dials, and it dials exactly the idle peers it picked. */
  lemma {:induction false} DialCallsFacts(c: Config, chosen: seq<PeerId>, dialable: set<PeerId>, p: PeerId)
    ensures Connect(p) in DialCalls(c, chosen, dialable) <==> p in chosen
    ensures Disconnect(p) !in DialCalls(c, chosen, dialable)
  {
    if chosen == [] {
    } else {
      DialCallsFacts(c, chosen[..|chosen| - 1], dialable, p);
      assert chosen == chosen[..|chosen| - 1] + [chosen[|chosen| - 1]];
    }
  }

  /** A connected peer is never dialled, and neither is one whose dial is still in progress. */
  lemma OnlyIdleDialled(c: Config, es: seq<Event>, e: Event, p: PeerId)
    requires c.Valid() && IsRun(c, es + [e])
    requires Connect(p) in CallsOf(c, After(c, es), e)
    ensures e.TimerTick? && p != c.self
    ensures p in Members(Idle, After(c, es).peers)
    ensures After(c, es + [e]).peers[p] ==
            After(c, es).peers[p].(action := Connecting, lastActivity := After(c, es).tick + 1)
  {
    assert (es + [e])[..|es|] == es;
    var m := After(c, es);
    match e {
      case TimerTick(order, dialable) =>
        var chosen := Chosen(c, m.peers, order);
        DialCallsFacts(c, chosen, dialable, p);
        DrainCallsFacts(c, chosen, p);
        ChosenFacts(c, m.peers, order);
        assert p in Elements(chosen);
        assert p in Members(Idle, m.peers);
        RunKeepsInv(c, es);
      case _ =>
    }
  }

  /** An unanswered dial means the peer is known and not idle. */
  ghost predicate DialsTracked(m: Manager, log: seq<Call>, p: PeerId) {
    Alternates(log, p) && (Open(log, p) ==> p in m.peers && !Is(Idle, m.peers[p]))
  }

  lemma TickTracks(c: Config, m: Manager, log: seq<Call>, order: seq<PeerId>, dialable: set<PeerId>, p: PeerId)
    requires c.Valid() && Enumerates(order, m.peers) && DialsTracked(m, log, p)
    ensures DialsTracked(Tick(c, m, order), log + TickCalls(c, m, order, dialable), p)
  {
    var chosen := Chosen(c, m.peers, order);
    ChosenFacts(c, m.peers, order);
    assert p in chosen <==> p in Elements(chosen);
    if Count(m.peers) < c.min {
      assert p in chosen ==> p in Members(Idle, m.peers);
      DialSegment(c, log, chosen, dialable, p);
    } else {
      assert p in chosen ==> p in Members(Live, m.peers);
      DrainCallsFacts(c, chosen, p);
      NoDialSegment(log, DrainCalls(c, chosen), p);
    }
  }

  lemma StepTracks(c: Config, m: Manager, log: seq<Call>, e: Event, p: PeerId)
    requires c.Valid() && Inv(c, m) && Enabled(m, e) && DialsTracked(m, log, p)
    ensures DialsTracked(Next(c, m, e), log + CallsOf(c, m, e), p)
  {
    if e.TimerTick? {
      TickTracks(c, m, log, e.order, e.dialable, p);
    } else {
      OnlyTicksDial(c, m, e, p);
      NoDialSegment(log, CallsOf(c, m, e), p);
      if Open(log, p) && Disconnect(p) !in CallsOf(c, m, e) {
        BusyUntilDisconnect(c, m, e, p);
      }
    }
  }

  lemma OnlyTicksDial(c: Config, m: Manager, e: Event, p: PeerId)
    requires !e.TimerTick?
    ensures Connect(p) !in CallsOf(c, m, e)
  {
  }

  /** Apart from ticks, only `disconnect` of a peer makes it idle again. */
  lemma BusyUntilDisconnect(c: Config, m: Manager, e: Event, p: PeerId)
    requires Inv(c, m) && !e.TimerTick? && p in m.peers && !Is(Idle, m.peers[p])
    requires Disconnect(p) !in CallsOf(c, m, e)
    ensures p in Next(c, m, e).peers && !Is(Idle, Next(c, m, e).peers[p])
  {
    assert EntryOk(m.tick, m.peers[p]);
    match e
    case Discovered(_) =>
    case Identified(q, hasConnection, hasAddresses) => BusyThroughConnect(c, m, q, hasConnection, hasAddresses, p);
    case DialSucceeded(q, _, hasConnection, hasAddresses) =>
      if e.remote == Some(q) {
        BusyThroughConnect(c, m, q, hasConnection, hasAddresses, p);
      }
    case DialFailed(_) =>
    case PingOk(_) =>
    case PingFailed(q) =>
      assert DisconnectCalls(c, q)[0] == Disconnect(q);
    case Stopped(_) =>
  }

  lemma BusyThroughConnect(c: Config, m: Manager, q: PeerId, hasConnection: bool, hasAddresses: bool, p: PeerId)
    requires p in m.peers && !Is(Idle, m.peers[p]) && EntryOk(m.tick, m.peers[p])
    requires Disconnect(p) !in ConnectedCalls(c, m, q, hasConnection, hasAddresses)
    ensures var m' := OnConnected(c, m, q, hasConnection);
            p in m'.peers && !Is(Idle, m'.peers[p])
  {
    assert DisconnectCalls(c, q)[0] == Disconnect(q);
  }

  lemma {:induction false} RunTracks(c: Config, es: seq<Event>, p: PeerId)
    requires c.Valid() && IsRun(c, es)
    ensures DialsTracked(After(c, es), Log(c, es), p)
  {
    if es == [] {
    } else {
      var init := es[..|es| - 1];
      RunTracks(c, init, p);
      RunKeepsInv(c, init);
      StepTracks(c, After(c, init), Log(c, init), es[|es| - 1], p);
    }
  }

  lemma {:induction false} OpenUntilDisconnect(log: seq<Call>, p: PeerId, i: nat, j: nat)
    requires i < j <= |log| && log[i] == Connect(p)
    requires forall k :: i < k < j ==> log[k] != Disconnect(p)
    ensures Open(log[..j], p)
    decreases j
  {
    assert log[..j] == log[..j - 1] + [log[j - 1]];
    OpenSnoc(log[..j - 1], log[j - 1], p);
    if i == j - 1 {
    } else {
      OpenUntilDisconnect(log, p, i, j - 1);
    }
  }

  /** Between two dials of the same peer there is a `disconnect` of that peer. */
  lemma DisconnectBetweenDials(c: Config, es: seq<Event>, p: PeerId, i: nat, j: nat)
    requires c.Valid() && IsRun(c, es)
    requires i < j < |Log(c, es)| && Log(c, es)[i] == Log(c, es)[j] == Connect(p)
    ensures exists k :: i < k < j && Log(c, es)[k] == Disconnect(p)
  {
    var log := Log(c, es);
    RunTracks(c, es, p);
    if forall k :: i < k < j ==> log[k] != Disconnect(p) {
      OpenUntilDisconnect(log, p, i, j);
      assert false;
    }
  }

  // ---------------------------------------------------------------- counting

  function Occurrences(log: seq<Call>, call: Call): nat {
    if log == [] then 0
    else Occurrences(log[..|log| - 1], call) + (if log[|log| - 1] == call then 1 else 0)
  }

  lemma {:induction false} AlternationBounds(log: seq<Call>, p: PeerId)
    requires Alternates(log, p)
    ensures Occurrences(log, Connect(p)) <= Occurrences(log, Disconnect(p)) + (if Open(log, p) then 1 else 0)
  {
    if log == [] {
    } else {
      var init := log[..|log| - 1];
      assert forall i :: 0 <= i < |init| ==> init[..i] == log[..i];
      AlternationBounds(init, p);
    }
  }

  /** A peer is dialled at most once more often than it is disconnected. */
  lemma DialsBounded(c: Config, es: seq<Event>, p: PeerId)
    requires c.Valid() && IsRun(c, es)
    ensures Occurrences(Log(c, es), Connect(p)) <= Occurrences(Log(c, es), Disconnect(p)) + 1
  {
    RunTracks(c, es, p);
    AlternationBounds(Log(c, es), p);
  }

  function Dials(log: seq<Call>): nat {
    if log == [] then 0 else Dials(log[..|log| - 1]) + (if log[|log| - 1].Connect? then 1 else 0)
  }

  function Disconnects(log: seq<Call>): nat {
    if log == [] then 0 else Disconnects(log[..|log| - 1]) + (if log[|log| - 1].Disconnect? then 1 else 0)
  }

  lemma {:induction false} CountsAdd(log: seq<Call>, calls: seq<Call>)
    ensures Dials(log + calls) == Dials(log) + Dials(calls)
    ensures Disconnects(log + calls) == Disconnects(log) + Disconnects(calls)
  {
    if calls == [] {
      assert log + calls == log;
    } else {
      CountsAdd(log, calls[..|calls| - 1]);
      assert (log + calls)[..|log + calls| - 1] == log + calls[..|calls| - 1];
    }
  }

  lemma {:induction false} DialCallsCount(c: Config, chosen: seq<PeerId>, dialable: set<PeerId>)
    ensures Dials(DialCalls(c, chosen, dialable)) == |chosen|
    ensures Disconnects(DialCalls(c, chosen, dialable)) == 0
  {
    if chosen == [] {
    } else {
      var p := chosen[|chosen| - 1];
      DialCallsCount(c, chosen[..|chosen| - 1], dialable);
      var tail := [Connect(p)] + (if p != c.self && p in dialable then [HostConnect(p)] else []);
      CountsAdd(DialCalls(c, chosen[..|chosen| - 1], dialable), tail);
      CountsAdd([Connect(p)], if p != c.self && p in dialable then [HostConnect(p)] else []);
      assert DialCalls(c, chosen, dialable) == DialCalls(c, chosen[..|chosen| - 1], dialable) + tail;
    }
  }

  lemma {:induction false} DrainCallsCount(c: Config, chosen: seq<PeerId>)
    ensures Dials(DrainCalls(c, chosen)) == 0
    ensures Disconnects(DrainCalls(c, chosen)) == |chosen|
  {
    if chosen == [] {
    } else {
      var p := chosen[|chosen| - 1];
      DrainCallsCount(c, chosen[..|chosen| - 1]);
      CountsAdd(DrainCalls(c, chosen[..|chosen| - 1]), DisconnectCalls(c, p));
      CountsAdd([Disconnect(p)], if p != c.self then [HostDisconnect(p)] else []);
    }
  }

  lemma {:induction false} NoDialsOrDisconnects(calls: seq<Call>)
    requires forall i :: 0 <= i < |calls| ==> !calls[i].Connect? && !calls[i].Disconnect?
    ensures Dials(calls) == Disconnects(calls) == 0
  {
    if calls == [] {
    } else {
      NoDialsOrDisconnects(calls[..|calls| - 1]);
    }
  }

  lemma DisconnectCallsCount(c: Config, p: PeerId)
    ensures Dials(DisconnectCalls(c, p)) == 0 && Disconnects(DisconnectCalls(c, p)) == 1
  {
    CountsAdd([Disconnect(p)], if p != c.self then [HostDisconnect(p)] else []);
  }

  lemma ResetDrops(peers: Peers, p: PeerId)
    ensures Count(Reset(peers, p)) + 1 >= Count(peers)
  {
    if p in peers {
      UpdateMembers(Counted, peers, p, peers[p].(state := Disconnected, action := NoAction));
    }
  }

  /** The potential a step must not spend twice: counted peers plus disconnects never falls behind the dials. */
  lemma StepPays(c: Config, m: Manager, e: Event)
    requires c.Valid() && Inv(c, m) && Enabled(m, e)
    ensures Count(m.peers) + Dials(CallsOf(c, m, e)) <= Count(Next(c, m, e).peers) + Disconnects(CallsOf(c, m, e))
  {
    match e
    case Discovered(p) =>
      if p != c.self && p !in m.peers {
        UpdateMembers(Counted, m.peers, p, Fresh(m.tick));
        assert p !in Members(Counted, m.peers);
      }
    case Identified(p, hasConnection, hasAddresses) => ConnectedPays(c, m, p, hasConnection, hasAddresses);
    case DialSucceeded(p, _, hasConnection, hasAddresses) => ConnectedPays(c, m, p, hasConnection, hasAddresses);
    case DialFailed(_) =>
    case PingOk(p) => PingKeepsCount(m, p, true);
    case PingFailed(p) =>
      DisconnectCallsCount(c, p);
      PingKeepsCount(m, p, false);
    case TimerTick(order, dialable) => TickPays(c, m, order, dialable);
    case Stopped(order) =>
      OnStopKeepsInv(c, m);
      NoDialsOrDisconnects(StopCalls(Filter(Live, m.peers, order)));
  }

  lemma TickPays(c: Config, m: Manager, order: seq<PeerId>, dialable: set<PeerId>)
    requires c.Valid() && Enumerates(order, m.peers)
    ensures var calls := TickCalls(c, m, order, dialable);
            Count(m.peers) + Dials(calls) == Count(Tick(c, m, order).peers) + Disconnects(calls)
  {
    TickExact(c, m, order);
    DialCallsCount(c, Chosen(c, m.peers, order), dialable);
    DrainCallsCount(c, Chosen(c, m.peers, order));
    ChosenFacts(c, m.peers, order);
  }

  lemma PingKeepsCount(m: Manager, p: PeerId, ok: bool)
    ensures Count(OnPing(m, p, ok).peers) + (if ok then 0 else 1) >= Count(m.peers)
  {
    if p in m.peers {
      var s := m.peers[p].(isPinging := ok, lastActivity := m.tick);
      UpdateMembers(Counted, m.peers, p, s);
      assert Members(Counted, m.peers[p := s]) == Members(Counted, m.peers);
      ResetDrops(m.peers[p := s], p);
    }
  }

  lemma ConnectedPays(c: Config, m: Manager, p: PeerId, hasConnection: bool, hasAddresses: bool)
    requires c.Valid() && Inv(c, m)
    ensures var calls := ConnectedCalls(c, m, p, hasConnection, hasAddresses);
            Count(m.peers) + Dials(calls) <= Count(OnConnected(c, m, p, hasConnection).peers) + Disconnects(calls)
  {
    if p == c.self {
      return;
    }
    var calls := ConnectedCalls(c, m, p, hasConnection, hasAddresses);
    WithPeerKeepsInv(c, m, p);
    var known := WithPeer(m, p);
    if known[p].state != Connected && Count(known) > c.max {
      DisconnectCallsCount(c, p);
      ResetDrops(known, p);
    } else {
      NoDialsOrDisconnects(calls);
      if known[p].state != Connected && hasConnection {
        UpdateMembers(Counted, known, p, known[p].(state := Connected));
        SubsetSize(Members(Counted, known), Members(Counted, known) + {p});
      } else if known[p].state != Connected {
        WithPeerKeepsInv(c, m, p);
        assert EntryOk(m.tick, known[p]) by {
          assert Inv(c, m.(peers := known));
        }
        assert known[p := known[p]] == known;
      }
    }
  }

  /** All dials together are covered by the known peers and the disconnects. */
  lemma {:induction false} TotalDialsBounded(c: Config, es: seq<Event>)
    requires c.Valid() && IsRun(c, es)
    ensures Dials(Log(c, es)) <= Count(After(c, es).peers) + Disconnects(Log(c, es))
    ensures Dials(Log(c, es)) <= |After(c, es).peers| + Disconnects(Log(c, es))
  {
    if es == [] {
    } else {
      var init, e := es[..|es| - 1], es[|es| - 1];
      TotalDialsBounded(c, init);
      RunKeepsInv(c, init);
      StepPays(c, After(c, init), e);
      CountsAdd(Log(c, init), CallsOf(c, After(c, init), e));
      RunKeepsInv(c, es);
      InvSplits(c, After(c, es));
    }
  }
}
