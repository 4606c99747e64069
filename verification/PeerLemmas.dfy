/** Facts about walks over the peer table and about how an update moves an entry between kinds. */
module PeerLemmas {
  import opened PeerModel

  lemma {:induction false} DistinctSize(s: seq<PeerId>)
    requires Distinct(s)
    ensures |Elements(s)| == |s|
  {
    if s == [] {
    } else {
      var init, last := s[..|s| - 1], s[|s| - 1];
      DistinctSize(init);
      assert Elements(s) == Elements(init) + {last};
    }
  }

  /** A filtered walk lists exactly the entries of that kind, each once. */
  lemma {:induction false} FilterExact(k: Kind, peers: Peers, order: seq<PeerId>)
    requires Distinct(order)
    ensures Distinct(Filter(k, peers, order))
    ensures Elements(Filter(k, peers, order)) == Elements(order) * Members(k, peers)
  {
    if order == [] {
    } else {
      var init := order[..|order| - 1];
      FilterExact(k, peers, init);
      var last := order[|order| - 1];
      assert Elements(order) == Elements(init) + {last};
      var tail := if last in peers && Is(k, peers[last]) then [last] else [];
      assert Elements(Filter(k, peers, order)) == Elements(Filter(k, peers, init)) + Elements(tail);
      forall i, j | 0 <= i < j < |Filter(k, peers, order)|
        ensures Filter(k, peers, order)[i] != Filter(k, peers, order)[j]
      {
        assert Filter(k, peers, init)[i] in Elements(Filter(k, peers, init));
      }
    }
  }

  lemma FilterCovers(k: Kind, peers: Peers, order: seq<PeerId>)
    requires Enumerates(order, peers)
    ensures Distinct(Filter(k, peers, order))
    ensures Elements(Filter(k, peers, order)) == Members(k, peers)
    ensures |Filter(k, peers, order)| == |Members(k, peers)|
  {
    FilterExact(k, peers, order);
    assert Members(k, peers) <= peers.Keys;
    DistinctSize(Filter(k, peers, order));
  }

  /** Cutting the walk short cuts the filtered walk short. */
  lemma {:induction false} FilterPrefix(k: Kind, peers: Peers, order: seq<PeerId>, i: nat)
    requires i <= |order|
    ensures Filter(k, peers, order[..i]) <= Filter(k, peers, order)
    decreases |order| - i
  {
    if i == |order| {
      assert order[..i] == order;
    } else {
      FilterPrefix(k, peers, order, i + 1);
      assert order[..i + 1][..i] == order[..i];
    }
  }

  /** Writing one entry moves exactly that entry in or out of a kind. */
  lemma UpdateMembers(k: Kind, peers: Peers, p: PeerId, s: PeerState)
    ensures Members(k, peers[p := s]) == if Is(k, s) then Members(k, peers) + {p} else Members(k, peers) - {p}
  {
  }

  lemma TakeElements(s: seq<PeerId>, n: nat)
    requires Distinct(s)
    ensures Distinct(Take(s, n))
    ensures Elements(Take(s, n)) <= Elements(s)
    ensures |Elements(Take(s, n))| == |Take(s, n)| == Min(n, |s|)
  {
    DistinctSize(Take(s, n));
  }

  /** The peers a tick picks: distinct, of the right kind, and as many as there are up to the quota. */
  lemma ChosenFacts(c: Config, peers: Peers, order: seq<PeerId>)
    requires c.Valid() && Enumerates(order, peers)
    ensures var chosen := Chosen(c, peers, order);
            && Distinct(chosen)
            && |Elements(chosen)| == |chosen|
            && (Count(peers) < c.min ==>
                  Elements(chosen) <= Members(Idle, peers) &&
                  |chosen| == Min(c.max - Count(peers), |Members(Idle, peers)|))
            && (Count(peers) > c.max ==>
                  Elements(chosen) <= Members(Live, peers) &&
                  |chosen| == Min(Count(peers) - c.max, |Members(Live, peers)|))
            && (c.min <= Count(peers) <= c.max ==> chosen == [])
  {
    var n := Count(peers);
    FilterCovers(Idle, peers, order);
    FilterCovers(Live, peers, order);
    if n < c.min {
      TakeElements(Filter(Idle, peers, order), c.max - n);
    } else if n > c.max {
      TakeElements(Filter(Live, peers, order), n - c.max);
    }
  }

  lemma DialledMembers(peers: Peers, chosen: set<PeerId>, tick: nat)
    requires chosen <= Members(Idle, peers)
    ensures Members(Counted, Dialled(peers, chosen, tick)) == Members(Counted, peers) + chosen
    ensures Members(Idle, Dialled(peers, chosen, tick)) == Members(Idle, peers) - chosen
    ensures Members(Live, Dialled(peers, chosen, tick)) == Members(Live, peers)
    ensures Members(Counted, peers) !! chosen
  {
    assert forall p :: p in chosen ==> p in Members(Idle, peers);
  }

  lemma DrainedMembers(peers: Peers, chosen: set<PeerId>, tick: nat)
    requires chosen <= Members(Live, peers)
    ensures Members(Counted, Drained(peers, chosen, tick)) == Members(Counted, peers) - chosen
    ensures Members(Idle, Drained(peers, chosen, tick)) == Members(Idle, peers) + chosen
    ensures Members(Live, Drained(peers, chosen, tick)) == Members(Live, peers) - chosen
    ensures chosen <= Members(Counted, peers)
  {
    assert forall p :: p in chosen ==> p in Members(Live, peers);
  }

  lemma SubsetSize(a: set<PeerId>, b: set<PeerId>)
    requires a <= b
    ensures |a| <= |b|
    ensures |b - a| == |b| - |a|
  {
    assert b == a + (b - a);
  }

  lemma MinusSize(a: set<PeerId>, b: set<PeerId>)
    requires b <= a
    ensures |a - b| == |a| - |b|
  {
    SubsetSize(b, a);
  }

  lemma DialledCounts(peers: Peers, chosen: set<PeerId>, tick: nat)
    requires chosen <= Members(Idle, peers)
    ensures var peers' := Dialled(peers, chosen, tick);
            && Members(Live, peers') == Members(Live, peers)
            && Count(peers') == Count(peers) + |chosen|
            && |Members(Idle, peers')| == |Members(Idle, peers)| - |chosen|
  {
    DialledMembers(peers, chosen, tick);
    MinusSize(Members(Idle, peers), chosen);
  }

  lemma DrainedCounts(peers: Peers, chosen: set<PeerId>, tick: nat)
    requires chosen <= Members(Live, peers)
    ensures var peers' := Drained(peers, chosen, tick);
            && Members(Live, peers') <= Members(Live, peers)
            && Count(peers') == Count(peers) - |chosen|
            && |Members(Live, peers')| == |Members(Live, peers)| - |chosen|
            && |Members(Idle, peers')| == |Members(Idle, peers)| + |chosen|
  {
    DrainedMembers(peers, chosen, tick);
    MinusSize(Members(Counted, peers), chosen);
    MinusSize(Members(Live, peers), chosen);
    assert Members(Idle, peers) !! chosen by {
      assert forall p :: p in chosen ==> p in Members(Live, peers);
    }
  }
}
