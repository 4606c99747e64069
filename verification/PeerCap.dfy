/** The cap on connections: which events take the count past `max`, and that some do. */
module PeerCap {
  import opened Outcomes
  import opened PeerModel
  import opened PeerLemmas
  import opened PeerRuns

  // ---------------------------------------------------------------- when the cap is kept

  /** The table is full to the limit and a peer not counted yet turns out to have a live connection. The check
      before connecting lets it in, being for more than `max`. */
  predicate Overshoots(c: Config, m: Manager, e: Event) {
    && Count(m.peers) == c.max
    && (e.Identified? || (e.DialSucceeded? && e.remote == Some(e.p)))
    && e.hasConnection
    && e.p != c.self
    && (e.p in m.peers ==> !Is(Counted, m.peers[e.p]))
  }

  /** From within the cap an event passes it exactly when it overshoots. */
  lemma StepPassesCapIff(c: Config, m: Manager, e: Event)
    requires c.Valid() && Inv(c, m) && Enabled(m, e) && Count(m.peers) <= c.max
    ensures Count(Next(c, m, e).peers) > c.max <==> Overshoots(c, m, e)
  {
    match e
    case Discovered(p) =>
      if p != c.self && p !in m.peers {
        DropKeepsInv(c, m, p, Fresh(m.tick));
      }
    case Identified(p, hasConnection, _) => ConnectPassesCapIff(c, m, p, hasConnection);
    case DialSucceeded(p, _, hasConnection, _) => ConnectPassesCapIff(c, m, p, hasConnection);
    case DialFailed(_) =>
    case PingOk(p) => PingAddsNobody(c, m, p, true);
    case PingFailed(p) => PingAddsNobody(c, m, p, false);
    case TimerTick(order, _) => TickRestoresCap(c, m, order);
    case Stopped(_) => OnStopKeepsInv(c, m);
  }

  lemma ConnectPassesCapIff(c: Config, m: Manager, p: PeerId, hasConnection: bool)
    requires Inv(c, m) && Count(m.peers) <= c.max
    ensures Count(OnConnected(c, m, p, hasConnection).peers) > c.max <==>
            && Count(m.peers) == c.max && hasConnection && p != c.self
            && (p in m.peers ==> !Is(Counted, m.peers[p]))
  {
    if p == c.self {
      return;
    }
    WithPeerKeepsInv(c, m, p);
    var known := WithPeer(m, p);
    if known[p].state == Connected {
    } else if hasConnection {
      JoinsOrStays(known, p, known[p].(state := Connected));
    } else {
      assert EntryOk(m.tick, known[p]) by {
        assert Inv(c, m.(peers := known));
      }
      assert known[p := known[p]] == known;
    }
  }

  /** Connecting an entry adds it to the count unless it was counted already. */
  lemma JoinsOrStays(peers: Peers, p: PeerId, s: PeerState)
    requires p in peers && Is(Counted, s)
    ensures Count(peers[p := s]) == Count(peers) + if Is(Counted, peers[p]) then 0 else 1
  {
    UpdateMembers(Counted, peers, p, s);
    if Is(Counted, peers[p]) {
      assert Members(Counted, peers) + {p} == Members(Counted, peers);
    }
  }

  lemma PingAddsNobody(c: Config, m: Manager, p: PeerId, ok: bool)
    requires Inv(c, m)
    ensures Count(OnPing(m, p, ok).peers) <= Count(m.peers)
  {
    if p in m.peers {
      var s := m.peers[p].(isPinging := ok, lastActivity := m.tick);
      UpdateMembers(Counted, m.peers, p, s);
      assert Members(Counted, m.peers[p := s]) == Members(Counted, m.peers);
      OnPingKeepsInv(c, m, p, true);
      ResetKeepsInv(c, m.(peers := m.peers[p := s]), p);
    }
  }

  /** The count has stayed within the cap at every point of the run. */
  ghost predicate StaysCapped(c: Config, es: seq<Event>) {
    forall i :: 0 <= i <= |es| ==> Count(After(c, es[..i]).peers) <= c.max
  }

  ghost predicate NeverOvershoots(c: Config, es: seq<Event>) {
    forall i :: 0 <= i < |es| ==> !Overshoots(c, After(c, es[..i]), es[i])
  }

  /** A run stays within the cap throughout exactly when none of its events overshoots. */
  lemma {:induction false} RunStaysCappedIff(c: Config, es: seq<Event>)
    requires c.Valid() && IsRun(c, es)
    ensures StaysCapped(c, es) <==> NeverOvershoots(c, es)
  {
    if es == [] {
      assert Members(Counted, INITIAL.peers) == {};
    } else {
      var init, e := es[..|es| - 1], es[|es| - 1];
      RunStaysCappedIff(c, init);
      LastCount(c, es);
      LastEvent(c, es);
      if StaysCapped(c, init) {
        assert init[..|init|] == init;
        RunKeepsInv(c, init);
        StepPassesCapIff(c, After(c, init), e);
      }
    }
  }

  lemma LastCount(c: Config, es: seq<Event>)
    requires es != []
    ensures var init, e := es[..|es| - 1], es[|es| - 1];
            StaysCapped(c, es) <==> StaysCapped(c, init) && Count(Next(c, After(c, init), e).peers) <= c.max
  {
    var init := es[..|es| - 1];
    assert es[..|es|] == es;
    Prefixes(es);
    if StaysCapped(c, es) {
      forall i | 0 <= i <= |init|
        ensures Count(After(c, init[..i]).peers) <= c.max
      {
        assert init[..i] == es[..i];
      }
    }
  }

  lemma LastEvent(c: Config, es: seq<Event>)
    requires es != []
    ensures var init, e := es[..|es| - 1], es[|es| - 1];
            NeverOvershoots(c, es) <==> NeverOvershoots(c, init) && !Overshoots(c, After(c, init), e)
  {
    Prefixes(es);
  }

  lemma Prefixes(es: seq<Event>)
    requires es != []
    ensures var init := es[..|es| - 1]; forall i :: 0 <= i <= |init| ==> init[..i] == es[..i]
  {
  }

  // ---------------------------------------------------------------- the bound is sharp

  /** A run after which exactly `ids` are known and all of them are counted. */
  ghost predicate Reaches(c: Config, es: seq<Event>, ids: set<PeerId>) {
    && IsRun(c, es)
    && After(c, es).peers.Keys == ids
    && Members(Counted, After(c, es).peers) == ids
  }

  ghost predicate Among(c: Config, ids: set<PeerId>, n: nat) {
    |ids| == n && forall p :: p in ids ==> c.self < p <= c.self + n
  }

  /** Any number of strangers up to `max + 1` can identify themselves one after the other. */
  lemma {:induction false} FloodRun(c: Config, n: nat) returns (es: seq<Event>, ids: set<PeerId>)
    requires n <= c.max + 1
    ensures Reaches(c, es, ids) && Among(c, ids, n)
  {
    if n == 0 {
      es, ids := NothingYet(c);
    } else {
      var init, known := FloodRun(c, n - 1);
      ids := NextStranger(c, known, n);
      es := FloodStep(c, init, known, ids, c.self + n);
    }
  }

  lemma NextStranger(c: Config, known: set<PeerId>, n: nat) returns (ids: set<PeerId>)
    requires n > 0 && Among(c, known, n - 1)
    ensures c.self + n !in known && ids == known + {c.self + n} && Among(c, ids, n)
  {
    ids := known + {c.self + n};
  }

  lemma NothingYet(c: Config) returns (es: seq<Event>, ids: set<PeerId>)
    ensures Reaches(c, es, ids) && Among(c, ids, 0)
  {
    es, ids := [], {};
    assert Members(Counted, INITIAL.peers) == {};
  }

  lemma FloodStep(c: Config, init: seq<Event>, known: set<PeerId>, ids: set<PeerId>, p: PeerId)
    returns (es: seq<Event>)
    requires Reaches(c, init, known) && p != c.self && p !in known && |known| <= c.max && ids == known + {p}
    ensures Reaches(c, es, ids)
  {
    es := init + [Identified(p, true, false)];
    RunExtends(c, init, Identified(p, true, false));
    NewcomerConnects(c, After(c, init), p);
  }

  lemma NewcomerConnects(c: Config, m: Manager, p: PeerId)
    requires p != c.self && p !in m.peers && Count(m.peers) <= c.max
    ensures var peers := OnConnected(c, m, p, true).peers;
            peers.Keys == m.peers.Keys + {p} && Members(Counted, peers) == Members(Counted, m.peers) + {p}
  {
    var connected := Fresh(m.tick).(state := Connected);
    NewcomerIsIdle(m, p);
    assert OnConnected(c, m, p, true).peers == m.peers[p := connected];
    UpdateMembers(Counted, m.peers, p, connected);
  }

  lemma NewcomerIsIdle(m: Manager, p: PeerId)
    requires p !in m.peers
    ensures Members(Counted, WithPeer(m, p)) == Members(Counted, m.peers)
    ensures WithPeer(m, p)[p] == Fresh(m.tick)
    ensures WithPeer(m, p)[p := Fresh(m.tick).(state := Connected)] == m.peers[p := Fresh(m.tick).(state := Connected)]
  {
    UpdateMembers(Counted, m.peers, p, Fresh(m.tick));
    assert p !in Members(Counted, m.peers);
  }

  /** The bound is sharp: some run does reach `max + 1`, because the check before connecting is for more than
      `max`, not for `max`. */
  lemma CapIsReached(c: Config)
    requires c.Valid()
    ensures exists es :: IsRun(c, es) && Count(After(c, es).peers) == c.max + 1
  {
    var es, ids := FloodRun(c, c.max + 1);
    assert IsRun(c, es) && Count(After(c, es).peers) == c.max + 1;
  }
}
