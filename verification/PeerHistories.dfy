/** What the laws about single events give for whole runs: who is known, who is told to leave and who is pinged. */
module PeerHistories {
  import opened Outcomes
  import opened PeerModel
  import opened PeerLemmas
  import opened PeerRuns
  import opened PeerEvents

  /** Something in the run has told the manager of the peer. */
  ghost predicate HeardOf(c: Config, es: seq<Event>, p: PeerId) {
    p != c.self && exists i :: 0 <= i < |es| && (es[i] == Discovered(p) || Connects(es[i], p))
  }

  lemma HeardOfSnoc(c: Config, es: seq<Event>, e: Event, p: PeerId)
    ensures HeardOf(c, es + [e], p) <==> HeardOf(c, es, p) || (p != c.self && (e == Discovered(p) || Connects(e, p)))
  {
    var es' := es + [e];
    assert es'[|es|] == e;
    if HeardOf(c, es, p) {
      var i :| 0 <= i < |es| && (es[i] == Discovered(p) || Connects(es[i], p));
      assert es'[i] == es[i];
    }
    if HeardOf(c, es', p) {
      var i :| 0 <= i < |es'| && (es'[i] == Discovered(p) || Connects(es'[i], p));
      assert i < |es| ==> es[i] == es'[i];
    }
  }

  /** In every run the known peers are exactly the others that were discovered or connected. */
  lemma {:induction false} KnownIffHeardOf(c: Config, es: seq<Event>, p: PeerId)
    requires c.Valid() && IsRun(c, es)
    ensures p in After(c, es).peers <==> HeardOf(c, es, p)
  {
    if es == [] {
    } else {
      var init, e := es[..|es| - 1], es[|es| - 1];
      KnownIffHeardOf(c, init, p);
      KnownIff(c, After(c, init), e, p);
      HeardOfSnoc(c, init, e, p);
      assert es == init + [e];
    }
  }

  /** In every run each disconnect of another peer is followed at once by the host's. */
  lemma {:induction false} RunReachesHost(c: Config, es: seq<Event>, p: PeerId)
    requires c.Valid() && IsRun(c, es) && p != c.self
    ensures Answered(Log(c, es), p)
  {
    if es == [] {
    } else {
      var init, e := es[..|es| - 1], es[|es| - 1];
      RunReachesHost(c, init, p);
      DisconnectReachesHost(c, After(c, init), e, p);
      AnsweredAppend(Log(c, init), CallsOf(c, After(c, init), e), p);
    }
  }

  lemma {:induction false} LogGrows(c: Config, es: seq<Event>, i: nat)
    requires i <= |es|
    ensures Log(c, es[..i]) <= Log(c, es)
    decreases |es|
  {
    if i == |es| {
      assert es[..i] == es;
    } else {
      var init := es[..|es| - 1];
      LogGrows(c, init, i);
      assert init[..i] == es[..i];
    }
  }

  /** A peer that was live at some point of a run and is not at its end has been disconnected by the host in
      between. */
  lemma {:induction false} LeavesOnlyWhenTold(c: Config, es: seq<Event>, i: nat, p: PeerId)
    requires c.Valid() && IsRun(c, es) && i <= |es|
    requires IsLive(After(c, es[..i]), p) && !IsLive(After(c, es), p)
    ensures Log(c, es[..i]) <= Log(c, es)
    ensures HostDisconnect(p) in Log(c, es)[|Log(c, es[..i])|..]
    decreases |es|
  {
    LogGrows(c, es, i);
    assert es[..|es|] == es;
    if i < |es| {
      var init, e := es[..|es| - 1], es[|es| - 1];
      assert init[..i] == es[..i];
      LogGrows(c, init, i);
      LogTail(Log(c, init), CallsOf(c, After(c, init), e), |Log(c, es[..i])|);
      if IsLive(After(c, init), p) {
        RunKeepsInv(c, init);
        StopsLivingIff(c, After(c, init), e, p);
      } else {
        LeavesOnlyWhenTold(c, init, i, p);
      }
    }
  }

  lemma LogTail(log: seq<Call>, calls: seq<Call>, k: nat)
    requires k <= |log|
    ensures (log + calls)[k..] == log[k..] + calls
  {
  }

  /** Every live peer has had its pinging started, unless a ping of it had been answered before. */
  lemma {:induction false} LivePeersArePinged(c: Config, es: seq<Event>, p: PeerId)
    requires c.Valid() && IsRun(c, es)
    ensures IsPinged(After(c, es), p) ==> PingOk(p) in es
    ensures IsLive(After(c, es), p) ==> StartPinging(p) in Log(c, es) || PingOk(p) in es
  {
    if es == [] {
    } else {
      var init, e := es[..|es| - 1], es[|es| - 1];
      LivePeersArePinged(c, init, p);
      PingedIff(c, After(c, init), e, p);
      StartsPingingIff(c, After(c, init), e, p);
      assert es == init + [e];
    }
  }

  /** The pinging of a peer is started only in a run in which it connected. */
  lemma {:induction false} OnlyConnectedArePinged(c: Config, es: seq<Event>, p: PeerId)
    requires c.Valid() && IsRun(c, es) && StartPinging(p) in Log(c, es)
    ensures exists i :: 0 <= i < |es| && Connects(es[i], p) && es[i].hasConnection
  {
    var init, e := es[..|es| - 1], es[|es| - 1];
    if StartPinging(p) in Log(c, init) {
      OnlyConnectedArePinged(c, init, p);
      var i :| 0 <= i < |init| && Connects(init[i], p) && init[i].hasConnection;
      assert es[i] == init[i];
    } else {
      StartsPingingIff(c, After(c, init), e, p);
      BecomesLiveIff(c, After(c, init), e, p);
      assert Connects(es[|es| - 1], p);
    }
  }

  // ---------------------------------------------------------------- each call once, in walking order

  predicate NoneTwice(calls: seq<Call>) {
    forall i, j :: 0 <= i < j < |calls| ==> calls[i] != calls[j]
  }

  lemma {:induction false} DialsAbout(c: Config, chosen: seq<PeerId>, dialable: set<PeerId>, k: nat)
    requires k < |DialCalls(c, chosen, dialable)|
    ensures DialCalls(c, chosen, dialable)[k].p in chosen
  {
    var init := chosen[..|chosen| - 1];
    assert chosen == init + [chosen[|chosen| - 1]];
    if k < |DialCalls(c, init, dialable)| {
      DialsAbout(c, init, dialable, k);
    }
  }

  lemma {:induction false} DialsOnce(c: Config, chosen: seq<PeerId>, dialable: set<PeerId>)
    requires Distinct(chosen)
    ensures NoneTwice(DialCalls(c, chosen, dialable))
  {
    if chosen == [] {
    } else {
      var init, p := chosen[..|chosen| - 1], chosen[|chosen| - 1];
      DialsOnce(c, init, dialable);
      forall k | 0 <= k < |DialCalls(c, init, dialable)|
        ensures DialCalls(c, init, dialable)[k].p != p
      {
        DialsAbout(c, init, dialable, k);
      }
    }
  }

  lemma {:induction false} DrainsAbout(c: Config, chosen: seq<PeerId>, k: nat)
    requires k < |DrainCalls(c, chosen)|
    ensures DrainCalls(c, chosen)[k].p in chosen
  {
    var init := chosen[..|chosen| - 1];
    assert chosen == init + [chosen[|chosen| - 1]];
    if k < |DrainCalls(c, init)| {
      DrainsAbout(c, init, k);
    }
  }

  lemma {:induction false} DrainsOnce(c: Config, chosen: seq<PeerId>)
    requires Distinct(chosen)
    ensures NoneTwice(DrainCalls(c, chosen))
  {
    if chosen == [] {
    } else {
      var init, p := chosen[..|chosen| - 1], chosen[|chosen| - 1];
      DrainsOnce(c, init);
      forall k | 0 <= k < |DrainCalls(c, init)|
        ensures DrainCalls(c, init)[k].p != p
      {
        DrainsAbout(c, init, k);
      }
    }
  }

  /** No event makes the same call twice. */
  lemma EachCallOnce(c: Config, m: Manager, e: Event)
    requires c.Valid() && Enabled(m, e)
    ensures NoneTwice(CallsOf(c, m, e))
  {
    match e
    case TimerTick(order, dialable) =>
      ChosenFacts(c, m.peers, order);
      DialsOnce(c, Chosen(c, m.peers, order), dialable);
      DrainsOnce(c, Chosen(c, m.peers, order));
    case Stopped(order) => FilterCovers(Live, m.peers, order);
    case _ =>
  }

  lemma {:induction false} FilterAt(k: Kind, peers: Peers, order: seq<PeerId>, i: nat)
    requires Distinct(order) && i < |order| && order[i] in peers && Is(k, peers[order[i]])
    ensures var walked := Filter(k, peers, order[..i + 1]);
            walked != [] && walked <= Filter(k, peers, order) && Filter(k, peers, order)[|walked| - 1] == order[i]
  {
    FilterPrefix(k, peers, order, i + 1);
    assert order[..i + 1][..i] == order[..i];
  }

  /** Of the peers a tick could act on, it takes the first ones of the walk. */
  lemma FirstOfTheWalk(c: Config, m: Manager, order: seq<PeerId>, dialable: set<PeerId>, i: nat, j: nat)
    requires c.Valid() && Enumerates(order, m.peers) && i < j < |order|
    ensures var e := TimerTick(order, dialable);
            && (Connect(order[j]) in CallsOf(c, m, e) && Is(Idle, m.peers[order[i]]) ==>
                  Connect(order[i]) in CallsOf(c, m, e))
            && (Disconnect(order[j]) in CallsOf(c, m, e) && Is(Live, m.peers[order[i]]) ==>
                  Disconnect(order[i]) in CallsOf(c, m, e))
  {
    assert order[i] in Elements(order) && order[j] in Elements(order);
    TickCallsFacts(c, m, order, dialable, order[i]);
    TickCallsFacts(c, m, order, dialable, order[j]);
    if order[j] in Chosen(c, m.peers, order) {
      EarlierIsChosen(c, m, order, i, j);
    }
  }

  /** The walk keeps its order when filtered. */
  lemma FilterKeepsOrder(k: Kind, peers: Peers, order: seq<PeerId>, i: nat, j: nat) returns (a: nat, b: nat)
    requires Distinct(order) && i < j < |order| && order[i] in peers && order[j] in peers
    requires Is(k, peers[order[i]]) && Is(k, peers[order[j]])
    ensures a <= b < |Filter(k, peers, order)|
    ensures Filter(k, peers, order)[a] == order[i] && Filter(k, peers, order)[b] == order[j]
  {
    a, b := |Filter(k, peers, order[..i + 1])| - 1, |Filter(k, peers, order[..j + 1])| - 1;
    FilterAt(k, peers, order, i);
    FilterAt(k, peers, order, j);
    FilterPrefix(k, peers, order[..j + 1], i + 1);
    assert order[..j + 1][..i + 1] == order[..i + 1];
  }

  lemma EarlierTaken(s: seq<PeerId>, n: nat, a: nat, b: nat)
    requires Distinct(s) && n <= |s| && a <= b < |s| && s[b] in s[..n]
    ensures s[a] in s[..n]
  {
    var i :| 0 <= i < n && s[..n][i] == s[b];
    assert s[i] == s[b];
    assert s[..n][a] == s[a];
  }

  lemma EarlierIsChosen(c: Config, m: Manager, order: seq<PeerId>, i: nat, j: nat)
    requires c.Valid() && Enumerates(order, m.peers) && i < j < |order| && order[i] in m.peers
    requires order[j] in Chosen(c, m.peers, order)
    ensures var k := if Count(m.peers) < c.min then Idle else Live;
            Is(k, m.peers[order[i]]) ==> order[i] in Chosen(c, m.peers, order)
  {
    var k := if Count(m.peers) < c.min then Idle else Live;
    if Is(k, m.peers[order[i]]) {
      var n := TakenOf(c, m.peers, order, k);
      FilterCovers(k, m.peers, order);
      assert order[j] in Elements(Filter(k, m.peers, order));
      assert order[j] in Members(k, m.peers);
      var a, b := FilterKeepsOrder(k, m.peers, order, i, j);
      EarlierTaken(Filter(k, m.peers, order), n, a, b);
    }
  }

  lemma TakenOf(c: Config, peers: Peers, order: seq<PeerId>, k: Kind) returns (n: nat)
    requires c.Valid() && Chosen(c, peers, order) != [] && k == if Count(peers) < c.min then Idle else Live
    ensures n <= |Filter(k, peers, order)| && Chosen(c, peers, order) == Filter(k, peers, order)[..n]
  {
    n := |Chosen(c, peers, order)|;
  }
}
