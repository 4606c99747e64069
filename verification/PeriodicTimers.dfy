/** The periodic timer: a callback that re-arms itself. The timer objects share one state, which is freed when
    no object owns it and no callback holds it; objects can be moved, and the callback may do anything to them. */
module PeriodicTimers {
  import opened Outcomes

  type ObjectId = nat

  /** What can be done to timer objects, from outside or from within the user's handler. */
  datatype Op = Stop(o: ObjectId) | Destroy(o: ObjectId) | MoveTo(o: ObjectId, into: ObjectId)

  /** `owner` is the object whose `m_state` is not null; `waits` are pending on the deadline timer, `ready` and
      `aborted` are completions queued without and with an error. The last three count what happened so far. */
  datatype Timer = Timer(
    objects: set<ObjectId>, owner: Option<ObjectId>, alive: bool, running: bool,
    waits: nat, ready: nat, aborted: nat,
    calls: nat, rearms: nat, delivered: nat)

  /** Construction arms the timer once. */
  function Constructed(o: ObjectId): Timer {
    Timer({o}, Some(o), true, true, 1, 0, 0, 0, 0, 0)
  }

  datatype Event =
    | Outside(op: Op)
    | Expire
    | DeliverReady(handler: seq<Op>)
    | DeliverAborted

  function Apply(t: Timer, op: Op): Timer {
    match op
    case Stop(o) => if t.owner == Some(o) then t.(running := false) else t
    case Destroy(o) =>
      if t.owner == Some(o) then t.(running := false, owner := None, objects := t.objects - {o})
      else t.(objects := t.objects - {o})
    case MoveTo(o, into) =>
      t.(objects := t.objects + {into}, owner := if t.owner == Some(o) then Some(into) else t.owner)
  }

  function ApplyAll(t: Timer, ops: seq<Op>): Timer
    decreases |ops|
  {
    if ops == [] then t else Apply(ApplyAll(t, ops[..|ops| - 1]), ops[|ops| - 1])
  }

  /** Objects exist before they are used, and a move constructs a new one. */
  predicate OpEnabled(t: Timer, op: Op) {
    op.o in t.objects && (op.MoveTo? ==> op.into !in t.objects)
  }

  predicate AllEnabled(t: Timer, ops: seq<Op>)
    decreases |ops|
  {
    ops != [] ==> AllEnabled(t, ops[..|ops| - 1]) && OpEnabled(ApplyAll(t, ops[..|ops| - 1]), ops[|ops| - 1])
  }

  predicate Enabled(t: Timer, e: Event) {
    match e
    case Outside(op) => OpEnabled(t, op)
    case Expire => t.waits > 0
    case DeliverReady(handler) => t.ready > 0 && AllEnabled(t, handler)
    case DeliverAborted => t.aborted > 0
  }

  /** Without an owner the state goes, and with it the pending wait, which then completes with an error. */
  function Release(t: Timer): Timer {
    if t.alive && t.owner.None? then t.(alive := false, aborted := t.aborted + t.waits, waits := 0) else t
  }

  /** Setting a new expiry cancels what is pending; then one new wait starts. */
  function Rearm(t: Timer): Timer {
    t.(aborted := t.aborted + t.waits, waits := 1, rearms := t.rearms + 1)
  }

  function Next(t: Timer, e: Event): Timer {
    match e
    case Outside(op) => Release(Apply(t, op))
    case Expire => t.(ready := t.ready + t.waits, waits := 0)
    case DeliverReady(handler) =>
      if t.ready == 0 then t
      else
        var t' := t.(ready := t.ready - 1, delivered := t.delivered + 1);
        if t.alive && t.running then Release(Rearm(ApplyAll(t'.(calls := t.calls + 1), handler))) else t'
    case DeliverAborted => if t.aborted == 0 then t else t.(aborted := t.aborted - 1, delivered := t.delivered + 1)
  }

  function After(o: ObjectId, es: seq<Event>): Timer {
    if es == [] then Constructed(o) else Next(After(o, es[..|es| - 1]), es[|es| - 1])
  }

  predicate IsRun(o: ObjectId, es: seq<Event>) {
    es != [] ==> IsRun(o, es[..|es| - 1]) && Enabled(After(o, es[..|es| - 1]), es[|es| - 1])
  }

  /** The shared state and the objects that refer to it, updated in place. */
  class TimerState {
    const first: ObjectId
    var t: Timer
    ghost var history: seq<Event>

    ghost predicate Valid()
      reads this
    {
      IsRun(first, history) && t == After(first, history)
    }

    constructor (o: ObjectId)
      ensures Valid() && first == o && history == []
    {
      first := o;
      t := Timer({o}, Some(o), true, true, 1, 0, 0, 0, 0, 0);
      history := [];
    }

    method Deliver(e: Event)
      requires Valid() && Enabled(t, e)
      modifies this
      ensures Valid() && history == old(history) + [e]
      ensures t.waits + t.ready <= 1
      ensures e.Outside? && (e.op.Stop? || e.op.Destroy?) && old(t).owner == Some(e.op.o) ==> !t.running
    {
      Handle(e);
      history := history + [e];
      RunExtends(first, old(history), e);
      RunKeepsInv(first, history);
    }

    method Handle(e: Event)
      requires Enabled(t, e)
      modifies this`t
      ensures t == Next(old(t), e)
    {
      match e {
        case Outside(op) =>
          Perform(op);
          ReleaseIfUnowned();
        case Expire => t := t.(ready := t.ready + t.waits, waits := 0);
        case DeliverReady(handler) => OnExpiry(handler);
        case DeliverAborted => t := t.(aborted := t.aborted - 1, delivered := t.delivered + 1);
      }
    }

    /** The callback: if the state is still there and running, call the handler, then set a new expiry. */
    method OnExpiry(handler: seq<Op>)
      requires t.ready > 0
      modifies this`t
      ensures t == Next(old(t), DeliverReady(handler))
    {
      t := t.(ready := t.ready - 1, delivered := t.delivered + 1);
      if t.alive && t.running {
        t := t.(calls := t.calls + 1);
        ghost var start := t;
        var i := 0;
        while i < |handler|
          invariant i <= |handler| && t == ApplyAll(start, handler[..i])
        {
          assert handler[..i + 1][..i] == handler[..i];
          Perform(handler[i]);
          i := i + 1;
        }
        assert handler[..i] == handler;
        t := t.(aborted := t.aborted + t.waits, waits := 0);
        t := t.(waits := 1, rearms := t.rearms + 1);
        ReleaseIfUnowned();
      }
    }

    method Perform(op: Op)
      modifies this`t
      ensures t == Apply(old(t), op)
    {
      match op {
        case Stop(o) => StopObject(o);
        case Destroy(o) =>
          StopObject(o);
          if t.owner == Some(o) {
            t := t.(owner := None);
          }
          t := t.(objects := t.objects - {o});
        case MoveTo(o, into) =>
          t := t.(objects := t.objects + {into});
          if t.owner == Some(o) {
            t := t.(owner := Some(into));
          }
      }
    }

    /** `stop`: a moved-from object has no state to clear. */
    method StopObject(o: ObjectId)
      modifies this`t
      ensures t == if old(t).owner == Some(o) then old(t).(running := false) else old(t)
    {
      if t.owner == Some(o) {
        t := t.(running := false);
      }
    }

    method ReleaseIfUnowned()
      modifies this`t
      ensures t == Release(old(t))
    {
      if t.alive && t.owner.None? {
        t := t.(alive := false, aborted := t.aborted + t.waits, waits := 0);
      }
    }
  }

  lemma RunExtends(o: ObjectId, es: seq<Event>, e: Event)
    requires IsRun(o, es) && Enabled(After(o, es), e)
    ensures IsRun(o, es + [e]) && After(o, es + [e]) == Next(After(o, es), e)
  {
    assert (es + [e])[..|es|] == es;
  }

  // ---------------------------------------------------------------- what every run keeps

  ghost predicate Inv(t: Timer) {
    && (t.alive <==> t.owner.Some?)
    && (t.owner.Some? ==> t.owner.value in t.objects)
    && (t.running ==> t.alive)
    && t.waits + t.ready <= 1
    && (t.running ==> t.waits + t.ready == 1)
    && (!t.alive ==> t.waits == 0)
    && t.rearms == t.calls
    && 1 + t.rearms == t.waits + t.ready + t.aborted + t.delivered
  }

  /** What the handler does to the objects touches neither the waits nor the counters, and can only turn
      `running` off. */
  lemma {:induction false} HandlerEffects(t: Timer, ops: seq<Op>)
    requires t.owner.Some? ==> t.owner.value in t.objects
    requires t.running ==> t.owner.Some?
    requires AllEnabled(t, ops)
    ensures var t' := ApplyAll(t, ops);
            && t' == t.(objects := t'.objects, owner := t'.owner, running := t'.running)
            && (t'.owner.Some? ==> t'.owner.value in t'.objects)
            && (t'.running ==> t.running && t'.owner.Some?)
            && (t.owner.None? ==> t'.owner.None?)
    decreases |ops|
  {
    if ops == [] {
    } else {
      HandlerEffects(t, ops[..|ops| - 1]);
    }
  }

  lemma {:induction false} AllEnabledFrame(t: Timer, t': Timer, ops: seq<Op>)
    requires t.objects == t'.objects && t.owner == t'.owner
    ensures ApplyAll(t, ops).objects == ApplyAll(t', ops).objects && ApplyAll(t, ops).owner == ApplyAll(t', ops).owner
    ensures AllEnabled(t, ops) <==> AllEnabled(t', ops)
    decreases |ops|
  {
    if ops == [] {
    } else {
      AllEnabledFrame(t, t', ops[..|ops| - 1]);
    }
  }

  lemma StepKeepsInv(t: Timer, e: Event)
    requires Inv(t) && Enabled(t, e)
    ensures Inv(Next(t, e))
  {
    if e.DeliverReady? && t.alive && t.running {
      var called := t.(ready := t.ready - 1, delivered := t.delivered + 1, calls := t.calls + 1);
      AllEnabledFrame(t, called, e.handler);
      HandlerEffects(called, e.handler);
    }
  }

  /** At every event boundary at most one wait is pending or due, and while the timer runs exactly one is; each
      call of the handler re-armed once; and every wait ever started is pending, queued or delivered. */
  lemma {:induction false} RunKeepsInv(o: ObjectId, es: seq<Event>)
    requires IsRun(o, es)
    ensures Inv(After(o, es))
  {
    if es == [] {
    } else {
      RunKeepsInv(o, es[..|es| - 1]);
      StepKeepsInv(After(o, es[..|es| - 1]), es[|es| - 1]);
    }
  }

  /** Each error-free expiry delivered while running calls the handler once and re-arms once, whatever the
      handler does; so a timer stopped or destroyed from within its handler is re-armed once after that. */
  lemma ExpiryCallsOnce(o: ObjectId, es: seq<Event>, handler: seq<Op>)
    requires IsRun(o, es + [DeliverReady(handler)])
    ensures var t, t' := After(o, es), After(o, es + [DeliverReady(handler)]);
            if t.alive && t.running then
              t'.calls == t.calls + 1 && t'.rearms == t.rearms + 1 &&
              (t'.alive ==> t'.waits == 1) && (!t'.alive ==> t'.waits == 0 && t'.aborted == t.aborted + 1)
            else t'.calls == t.calls && t'.rearms == t.rearms
  {
    var es' := es + [DeliverReady(handler)];
    assert es'[..|es|] == es;
    var t := After(o, es);
    RunKeepsInv(o, es);
    RunKeepsInv(o, es');
    if t.alive && t.running {
      var called := t.(ready := t.ready - 1, delivered := t.delivered + 1, calls := t.calls + 1);
      AllEnabledFrame(t, called, handler);
      HandlerEffects(called, handler);
    }
  }

  /** Once the timer is not running at an event boundary, no handler call and no re-arm ever follows. */
  lemma {:induction false} StoppedForGood(o: ObjectId, es: seq<Event>, i: nat)
    requires IsRun(o, es) && i <= |es| && !After(o, es[..i]).running
    ensures !After(o, es).running
    ensures After(o, es).calls == After(o, es[..i]).calls && After(o, es).rearms == After(o, es[..i]).rearms
    decreases |es|
  {
    if i == |es| {
      assert es[..i] == es;
    } else {
      var init := es[..|es| - 1];
      assert init[..i] == es[..i];
      StoppedForGood(o, init, i);
    }
  }

  predicate Ends(op: Op, a: ObjectId) {
    op == Stop(a) || op == Destroy(a)
  }

  /** Stopping or destroying the object that owns the timer stops it. */
  lemma OwnerStops(o: ObjectId, es: seq<Event>, op: Op, a: ObjectId)
    requires IsRun(o, es) && After(o, es).owner == Some(a) && Ends(op, a)
    ensures !Next(After(o, es), Outside(op)).running
    ensures Next(After(o, es), Outside(op)).alive <==> op == Stop(a)
  {
    RunKeepsInv(o, es);
  }

  /** After a stop or the destruction of the owner, no handler call and no re-arm ever follows. */
  lemma NothingAfterStop(o: ObjectId, es: seq<Event>, i: nat, op: Op, a: ObjectId)
    requires IsRun(o, es) && i < |es| && es[i] == Outside(op) && Ends(op, a)
    requires After(o, es[..i]).owner == Some(a)
    ensures !After(o, es).running
    ensures After(o, es).calls == After(o, es[..i]).calls && After(o, es).rearms == After(o, es[..i]).rearms
  {
    RunPrefix(o, es, i);
    OwnerStops(o, es[..i], op, a);
    assert es[..i + 1][..i] == es[..i];
    StoppedForGood(o, es, i + 1);
  }

  lemma {:induction false} RunPrefix(o: ObjectId, es: seq<Event>, i: nat)
    requires IsRun(o, es) && i <= |es|
    ensures IsRun(o, es[..i]) && (i < |es| ==> Enabled(After(o, es[..i]), es[i]))
    decreases |es|
  {
    if i == |es| {
      assert es[..i] == es;
    } else {
      var init := es[..|es| - 1];
      RunPrefix(o, init, i);
      assert init[..i] == es[..i];
    }
  }

  /** Once a handler stops or destroys the owner, the timer is off, whatever else the handler does. */
  lemma {:induction false} HandlerStops(t: Timer, ops: seq<Op>, j: nat, a: ObjectId)
    requires j < |ops| && Ends(ops[j], a) && ApplyAll(t, ops[..j]).owner == Some(a)
    ensures !ApplyAll(t, ops).running
    decreases |ops|
  {
    var init := ops[..|ops| - 1];
    if j == |ops| - 1 {
      assert ops[..j] == init;
    } else {
      assert init[..j] == ops[..j];
      HandlerStops(t, init, j, a);
    }
  }

  lemma StopInsideStops(t: Timer, handler: seq<Op>, j: nat, a: ObjectId)
    requires t.ready > 0 && t.alive && t.running
    requires j < |handler| && Ends(handler[j], a) && ApplyAll(t, handler[..j]).owner == Some(a)
    ensures !Next(t, DeliverReady(handler)).running
  {
    var called := t.(ready := t.ready - 1, delivered := t.delivered + 1, calls := t.calls + 1);
    OwnersAgree(t, called, handler[..j]);
    HandlerStops(called, handler, j, a);
  }

  /** A handler that stops or destroys the owner is the last one to be called, and re-arms once more. */
  lemma NothingAfterStopInside(o: ObjectId, es: seq<Event>, i: nat, handler: seq<Op>, j: nat, a: ObjectId)
    requires IsRun(o, es) && i < |es| && es[i] == DeliverReady(handler) && After(o, es[..i]).running
    requires j < |handler| && Ends(handler[j], a) && ApplyAll(After(o, es[..i]), handler[..j]).owner == Some(a)
    ensures !After(o, es).running
    ensures After(o, es).calls == After(o, es[..i]).calls + 1 && After(o, es).rearms == After(o, es[..i]).rearms + 1
  {
    var init := es[..i];
    RunPrefix(o, es, i);
    RunKeepsInv(o, init);
    RunExtends(o, init, es[i]);
    ExpiryCallsOnce(o, init, handler);
    StopInsideStops(After(o, init), handler, j, a);
    assert es[..i + 1] == init + [es[i]];
    StoppedForGood(o, es, i + 1);
  }

  lemma {:induction false} OwnersAgree(t: Timer, t': Timer, ops: seq<Op>)
    requires t.owner == t'.owner
    ensures ApplyAll(t, ops).owner == ApplyAll(t', ops).owner
    decreases |ops|
  {
    if ops == [] {
    } else {
      OwnersAgree(t, t', ops[..|ops| - 1]);
    }
  }

  /** A timer that is left alone goes on: its wait can expire, the completion can be delivered, and then the
      handler has been called once more and the next wait is pending. */
  lemma KeepsGoing(o: ObjectId, es: seq<Event>)
    requires IsRun(o, es) && After(o, es).running
    ensures var due := if After(o, es).waits > 0 then es + [Expire] else es;
            && IsRun(o, due) && After(o, due).ready == 1
            && IsRun(o, due + [DeliverReady([])])
            && var t, t' := After(o, es), After(o, due + [DeliverReady([])]);
               t'.calls == t.calls + 1 && t'.running && t'.waits == 1 && t'.ready == 0 && t'.owner == t.owner
  {
    RunKeepsInv(o, es);
    var due := if After(o, es).waits > 0 then es + [Expire] else es;
    if After(o, es).waits > 0 {
      RunExtends(o, es, Expire);
    }
    RunExtends(o, due, DeliverReady([]));
  }

  /** The first `n` periods of a timer nobody touches. */
  function Periods(n: nat): seq<Event> {
    if n == 0 then [] else Periods(n - 1) + [Expire] + [DeliverReady([])]
  }

  /** After the run the timer has called its handler `n` times and goes on. */
  ghost predicate Ticking(o: ObjectId, es: seq<Event>, n: nat) {
    IsRun(o, es) && var t := After(o, es); t.calls == n && t.running && t.waits == 1 && t.owner == Some(o)
  }

  lemma OnePeriod(o: ObjectId, es: seq<Event>, n: nat)
    requires Ticking(o, es, n)
    ensures Ticking(o, es + [Expire] + [DeliverReady([])], n + 1)
  {
    KeepsGoing(o, es);
  }

  /** In `n` undisturbed periods the handler is called `n` times. */
  lemma {:induction false} CallsPerPeriod(o: ObjectId, n: nat)
    ensures Ticking(o, Periods(n), n)
  {
    if n == 0 {
    } else {
      CallsPerPeriod(o, n - 1);
      OnePeriod(o, Periods(n - 1), n - 1);
    }
  }

  /** A move hands the timer on: the new object owns it exactly if the old one did. */
  lemma MoveHandsOn(o: ObjectId, es: seq<Event>, a: ObjectId, b: ObjectId)
    requires IsRun(o, es) && a in After(o, es).objects && b !in After(o, es).objects
    ensures var t, moved := After(o, es), Next(After(o, es), Outside(MoveTo(a, b)));
            && (moved.owner == Some(b) <==> t.owner == Some(a)) && moved.owner != Some(a)
            && moved.objects == t.objects + {b}
            && moved.running == t.running && moved.waits == t.waits && moved.ready == t.ready
  {
    RunKeepsInv(o, es);
  }

  /** Destroying or stopping an object that was moved from leaves the timer itself as it is. */
  lemma MovedFromIsInert(o: ObjectId, es: seq<Event>, a: ObjectId, b: ObjectId)
    requires IsRun(o, es) && a in After(o, es).objects && b !in After(o, es).objects
    ensures var moved := After(o, es + [Outside(MoveTo(a, b))]);
            && IsRun(o, es + [Outside(MoveTo(a, b))])
            && moved.running == After(o, es).running
            && Next(moved, Outside(Stop(a))) == moved
            && Next(moved, Outside(Destroy(a))) == moved.(objects := moved.objects - {a})
  {
    RunKeepsInv(o, es);
    RunExtends(o, es, Outside(MoveTo(a, b)));
  }
}
