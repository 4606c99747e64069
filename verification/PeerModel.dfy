/** The peer table of the connection manager as a value, and what each event does to it.
    The closed form of a tick (`Chosen`, `Tick`) is the reference the loops of `PeerManager` are
    proved against. */
module PeerModel {
  import opened Outcomes

  /** Peer ids are only ever compared for equality. */
  type PeerId = nat

  datatype ConnectionState = Disconnected | Connected

  datatype ConnectionAction = NoAction | Connecting | Disconnecting

  datatype PeerState = PeerState(
    state: ConnectionState, action: ConnectionAction, lastActivity: nat, isPinging: bool)

  /** The limits are parameters; the program uses 10 and 20. */
  datatype Config = Config(self: PeerId, min: nat, max: nat) {
    predicate Valid() {
      0 < min <= max
    }
  }

  type Peers = map<PeerId, PeerState>

  datatype Manager = Manager(peers: Peers, tick: nat)

  const INITIAL := Manager(map[], 0)

  /** What the manager calls, in order: its own `connect` and `disconnect`, and the host behind them. */
  datatype Call =
    | Connect(p: PeerId)
    | HostConnect(p: PeerId)
    | Disconnect(p: PeerId)
    | HostDisconnect(p: PeerId)
    | StartPinging(p: PeerId)
    | AddToKademlia(p: PeerId)

  /** What the environment may do next. `order` is the order in which the unordered map is walked,
      `dialable` the peers that have addresses and can be connected to. */
  datatype Event =
    | Discovered(p: PeerId)
    | Identified(p: PeerId, hasConnection: bool, hasAddresses: bool)
    | DialSucceeded(p: PeerId, remote: Option<PeerId>, hasConnection: bool, hasAddresses: bool)
    | DialFailed(p: PeerId)
    | PingOk(p: PeerId)
    | PingFailed(p: PeerId)
    | TimerTick(order: seq<PeerId>, dialable: set<PeerId>)
    | Stopped(order: seq<PeerId>)

  /** The three ways the code classifies an entry. */
  datatype Kind = Live | Counted | Idle

  predicate Is(k: Kind, s: PeerState) {
    match k
    case Live => s.state == Connected
    case Counted => s.state == Connected || s.action == Connecting
    case Idle => s.state == Disconnected && s.action == NoAction
  }

  function Members(k: Kind, peers: Peers): set<PeerId> {
    set p | p in peers && Is(k, peers[p])
  }

  function Count(peers: Peers): nat {
    |Members(Counted, peers)|
  }

  function Fresh(tick: nat): PeerState {
    PeerState(Disconnected, NoAction, tick, false)
  }

  function Min(a: nat, b: nat): nat {
    if a < b then a else b
  }

  // ---------------------------------------------------------------- walking the map

  predicate Distinct(s: seq<PeerId>) {
    forall i, j :: 0 <= i < j < |s| ==> s[i] != s[j]
  }

  function Elements(s: seq<PeerId>): set<PeerId> {
    set p | p in s
  }

  /** `order` is one possible walk over the map: each key once. */
  predicate Enumerates(order: seq<PeerId>, peers: Peers) {
    Distinct(order) && Elements(order) == peers.Keys
  }

  /** The entries of kind `k`, in the order of the walk. */
  function Filter(k: Kind, peers: Peers, order: seq<PeerId>): seq<PeerId> {
    if order == [] then []
    else
      var last := order[|order| - 1];
      Filter(k, peers, order[..|order| - 1]) + (if last in peers && Is(k, peers[last]) then [last] else [])
  }

  function Take(s: seq<PeerId>, n: nat): seq<PeerId> {
    s[..Min(n, |s|)]
  }

  // ---------------------------------------------------------------- the events

  function OnDiscovered(c: Config, m: Manager, p: PeerId): Manager {
    if p == c.self || p in m.peers then m else m.(peers := m.peers[p := Fresh(m.tick)])
  }

  function Reset(peers: Peers, p: PeerId): Peers {
    if p in peers then peers[p := peers[p].(state := Disconnected, action := NoAction)] else peers
  }

  function DisconnectCalls(c: Config, p: PeerId): seq<Call> {
    [Disconnect(p)] + (if p != c.self then [HostDisconnect(p)] else [])
  }

  function WithPeer(m: Manager, p: PeerId): Peers {
    if p in m.peers then m.peers else m.peers[p := Fresh(m.tick)]
  }

  function OnConnected(c: Config, m: Manager, p: PeerId, hasConnection: bool): Manager {
    var known := WithPeer(m, p);
    if p == c.self || known[p].state == Connected then m
    else if Count(known) > c.max then m.(peers := Reset(known, p))
    else if hasConnection then m.(peers := known[p := known[p].(state := Connected)])
    else
      var action := if known[p].action == Disconnecting then NoAction else known[p].action;
      m.(peers := known[p := known[p].(state := Disconnected, action := action)])
  }

  function ConnectedCalls(c: Config, m: Manager, p: PeerId, hasConnection: bool, hasAddresses: bool): seq<Call> {
    var known := WithPeer(m, p);
    if p == c.self || known[p].state == Connected then []
    else if Count(known) > c.max then DisconnectCalls(c, p)
    else if hasConnection then
      (if known[p].isPinging then [] else [StartPinging(p)]) + (if hasAddresses then [AddToKademlia(p)] else [])
    else []
  }

  function OnPing(m: Manager, p: PeerId, ok: bool): Manager {
    if p !in m.peers then m
    else
      var pinged := m.peers[p := m.peers[p].(isPinging := ok, lastActivity := m.tick)];
      m.(peers := if ok then pinged else Reset(pinged, p))
  }

  /** The peers a tick acts on: below `min` idle peers up to `max`, above `max` connected ones down to it. */
  function Chosen(c: Config, peers: Peers, order: seq<PeerId>): seq<PeerId> {
    var n := Count(peers);
    if n < c.min && n < c.max then Take(Filter(Idle, peers, order), c.max - n)
    else if n > c.max then Take(Filter(Live, peers, order), n - c.max)
    else []
  }

  function Dialled(peers: Peers, chosen: set<PeerId>, tick: nat): Peers {
    map p | p in peers ::
      if p in chosen then peers[p].(action := Connecting, lastActivity := tick) else peers[p]
  }

  function Drained(peers: Peers, chosen: set<PeerId>, tick: nat): Peers {
    map p | p in peers ::
      if p in chosen then peers[p].(state := Disconnected, action := NoAction, lastActivity := tick) else peers[p]
  }

  function Tick(c: Config, m: Manager, order: seq<PeerId>): Manager {
    var chosen := Elements(Chosen(c, m.peers, order));
    var peers :=
      if Count(m.peers) < c.min then Dialled(m.peers, chosen, m.tick + 1) else Drained(m.peers, chosen, m.tick + 1);
    Manager(peers, m.tick + 1)
  }

  function DialCalls(c: Config, chosen: seq<PeerId>, dialable: set<PeerId>): seq<Call> {
    if chosen == [] then []
    else
      var p := chosen[|chosen| - 1];
      DialCalls(c, chosen[..|chosen| - 1], dialable)
      + [Connect(p)] + (if p != c.self && p in dialable then [HostConnect(p)] else [])
  }

  function DrainCalls(c: Config, chosen: seq<PeerId>): seq<Call> {
    if chosen == [] then []
    else DrainCalls(c, chosen[..|chosen| - 1]) + DisconnectCalls(c, chosen[|chosen| - 1])
  }

  function TickCalls(c: Config, m: Manager, order: seq<PeerId>, dialable: set<PeerId>): seq<Call> {
    var chosen := Chosen(c, m.peers, order);
    if Count(m.peers) < c.min then DialCalls(c, chosen, dialable) else DrainCalls(c, chosen)
  }

  function OnStop(m: Manager): Manager {
    m.(peers := map p | p in m.peers ::
         if m.peers[p].state == Connected then m.peers[p].(action := Disconnecting) else m.peers[p])
  }

  function StopCalls(live: seq<PeerId>): seq<Call> {
    seq(|live|, i requires 0 <= i < |live| => HostDisconnect(live[i]))
  }

  /** The state after one event. */
  function Next(c: Config, m: Manager, e: Event): Manager {
    match e
    case Discovered(p) => OnDiscovered(c, m, p)
    case Identified(p, hasConnection, _) => OnConnected(c, m, p, hasConnection)
    case DialSucceeded(p, remote, hasConnection, _) =>
      if remote == Some(p) then OnConnected(c, m, p, hasConnection) else m
    case DialFailed(_) => m
    case PingOk(p) => OnPing(m, p, true)
    case PingFailed(p) => OnPing(m, p, false)
    case TimerTick(order, _) => Tick(c, m, order)
    case Stopped(_) => OnStop(m)
  }

  /** The calls made while handling one event. */
  function CallsOf(c: Config, m: Manager, e: Event): seq<Call> {
    match e
    case Discovered(_) => []
    case Identified(p, hasConnection, hasAddresses) => ConnectedCalls(c, m, p, hasConnection, hasAddresses)
    case DialSucceeded(p, remote, hasConnection, hasAddresses) =>
      if remote == Some(p) then ConnectedCalls(c, m, p, hasConnection, hasAddresses) else []
    case DialFailed(_) => []
    case PingOk(_) => []
    case PingFailed(p) => DisconnectCalls(c, p)
    case TimerTick(order, dialable) => TickCalls(c, m, order, dialable)
    case Stopped(order) => StopCalls(Filter(Live, m.peers, order))
  }

  // ---------------------------------------------------------------- runs

  predicate Enabled(m: Manager, e: Event) {
    (e.TimerTick? ==> Enumerates(e.order, m.peers)) && (e.Stopped? ==> Enumerates(e.order, m.peers))
  }

  function After(c: Config, es: seq<Event>): Manager {
    if es == [] then INITIAL else Next(c, After(c, es[..|es| - 1]), es[|es| - 1])
  }

  function Log(c: Config, es: seq<Event>): seq<Call> {
    if es == [] then []
    else Log(c, es[..|es| - 1]) + CallsOf(c, After(c, es[..|es| - 1]), es[|es| - 1])
  }

  /** Every event sequence the environment can produce; only the map walks are constrained. */
  predicate IsRun(c: Config, es: seq<Event>) {
    es != [] ==> IsRun(c, es[..|es| - 1]) && Enabled(After(c, es[..|es| - 1]), es[|es| - 1])
  }
}
