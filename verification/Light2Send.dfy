/** Sending light2 requests: each send is a coroutine that opens a stream, writes and reads, suspended
    between the steps; any number of them are in flight and their callbacks arrive in any order. */
module Light2Send {
  import opened Outcomes
  import opened Bytes
  import opened Light2

  type TaskId = nat
  type PeerId = nat
  type StreamId = nat

  type Outcome = Result<ByteSeq, Failure>

  /** Where a send is suspended. */
  datatype Phase =
    | Opening
    | Writing(stream: StreamId)
    | Reading(stream: StreamId)
    | Done(outcome: Outcome)

  /** What a completed operation hands to its callback. */
  datatype Callback =
    | Opened(stream: Result<StreamId, ErrorCode>)
    | Wrote(failure: Option<ErrorCode>)
    | Received(message: Result<ProtoResponse, ErrorCode>)

  /** What a send does to the host, its stream and its caller. */
  datatype Action =
    | OpenStream(peer: PeerId)
    | WriteRequest(stream: StreamId, message: ProtoRequest)
    | ReadFrom(stream: StreamId)
    | Complete(outcome: Outcome)

  /** `slot` is the awaiter's stored result: filled by the callback, taken when the coroutine resumes. */
  datatype SendTask = SendTask(request: Request, peer: PeerId, phase: Phase, slot: Option<Callback>)

  function KindOf(r: Request): ResponseKind {
    if r.RemoteCall? then CallKind else ReadKind
  }

  predicate Awaits(phase: Phase, cb: Callback) {
    match phase
    case Opening => cb.Opened?
    case Writing(_) => cb.Wrote?
    case Reading(_) => cb.Received?
    case Done(_) => false
  }

  function Started(request: Request, peer: PeerId): SendTask {
    SendTask(request, peer, Opening, None)
  }

  /** The phase after the awaited callback. */
  function NextPhase(t: SendTask, cb: Callback): Phase
    requires Awaits(t.phase, cb)
  {
    match t.phase
    case Opening => if cb.stream.Err? then Done(Err(Failed(cb.stream.error))) else Writing(cb.stream.value)
    case Writing(stream) => if cb.failure.None? then Reading(stream) else Done(Err(Failed(cb.failure.value)))
    case Reading(_) =>
      Done(if cb.message.Err? then Err(Failed(cb.message.error)) else FromProto(KindOf(t.request), cb.message.value))
  }

  /** The action that starts a phase. */
  function Enter(t: SendTask): Action {
    match t.phase
    case Opening => OpenStream(t.peer)
    case Writing(stream) => WriteRequest(stream, ProtoOf(t.request))
    case Reading(stream) => ReadFrom(stream)
    case Done(outcome) => Complete(outcome)
  }

  function Advance(t: SendTask, cb: Callback): SendTask
    requires Awaits(t.phase, cb)
  {
    t.(phase := NextPhase(t, cb), slot := None)
  }

  // ---------------------------------------------------------------- many sends at once

  datatype Event =
    | Send(id: TaskId, request: Request, peer: PeerId)
    | Deliver(id: TaskId, cb: Callback)

  type Tasks = map<TaskId, SendTask>

  /** A callback arrives only for an operation still awaited, hence once per operation. */
  predicate Enabled(tasks: Tasks, e: Event) {
    match e
    case Send(id, _, _) => id !in tasks
    case Deliver(id, cb) => id in tasks && Awaits(tasks[id].phase, cb)
  }

  function Next(tasks: Tasks, e: Event): Tasks
    requires Enabled(tasks, e)
  {
    match e
    case Send(id, request, peer) => tasks[id := Started(request, peer)]
    case Deliver(id, cb) => tasks[id := Advance(tasks[id], cb)]
  }

  datatype Entry = Entry(id: TaskId, action: Action)

  ghost predicate IsRun(es: seq<Event>)
    decreases |es|, 0
  {
    es != [] ==> IsRun(es[..|es| - 1]) && Enabled(After(es[..|es| - 1]), es[|es| - 1])
  }

  ghost function After(es: seq<Event>): Tasks
    requires IsRun(es)
    decreases |es|, 1
  {
    if es == [] then map[] else Next(After(es[..|es| - 1]), es[|es| - 1])
  }

  /** Every action of a run, with the send it belongs to. */
  ghost function Log(es: seq<Event>): seq<Entry>
    requires IsRun(es)
  {
    if es == [] then []
    else
      var id := es[|es| - 1].id;
      Log(es[..|es| - 1]) + [Entry(id, Enter(After(es)[id]))]
  }

  class Client {
    var tasks: Tasks
    ghost var history: seq<Event>
    ghost var log: seq<Entry>

    ghost predicate Valid()
      reads this
    {
      IsRun(history) && tasks == After(history) && log == Log(history)
    }

    constructor ()
      ensures Valid() && history == []
    {
      tasks := map[];
      history, log := [], [];
    }

    /** Starts the coroutine: it runs up to its first suspension. */
    method Start(id: TaskId, request: Request, peer: PeerId)
      requires Valid() && id !in tasks
      modifies this
      ensures Valid() && history == old(history) + [Send(id, request, peer)]
    {
      tasks := tasks[id := Started(request, peer)];
      log := log + [Entry(id, OpenStream(peer))];
      history := history + [Send(id, request, peer)];
      RunExtends(old(history), Send(id, request, peer));
    }

    /** The completion callback: store the result, then resume. */
    method OnCallback(id: TaskId, cb: Callback)
      requires Valid() && id in tasks && Awaits(tasks[id].phase, cb)
      modifies this
      ensures Valid() && history == old(history) + [Deliver(id, cb)]
    {
      tasks := tasks[id := tasks[id].(slot := Some(cb))];
      Resume(id);
      history := history + [Deliver(id, cb)];
      RunExtends(old(history), Deliver(id, cb));
      assert tasks == Next(old(tasks), Deliver(id, cb));
    }

    /** Takes the stored result and runs to the next suspension, or to the end at the first failure. */
    method Resume(id: TaskId)
      requires id in tasks && tasks[id].slot.Some? && Awaits(tasks[id].phase, tasks[id].slot.value)
      modifies this`tasks, this`log
      ensures tasks == old(tasks)[id := Advance(old(tasks)[id], old(tasks)[id].slot.value)]
      ensures log == old(log) + [Entry(id, Enter(tasks[id]))]
    {
      var cb := tasks[id].slot.value;
      tasks := tasks[id := tasks[id].(slot := None)];
      match tasks[id].phase {
        case Opening =>
          if cb.stream.Err? {
            Finish(id, Err(Failed(cb.stream.error)));
            return;
          }
          var message := ToProto(tasks[id].request);
          tasks := tasks[id := tasks[id].(phase := Writing(cb.stream.value))];
          log := log + [Entry(id, WriteRequest(cb.stream.value, message))];
        case Writing(stream) =>
          if cb.failure.Some? {
            Finish(id, Err(Failed(cb.failure.value)));
            return;
          }
          tasks := tasks[id := tasks[id].(phase := Reading(stream))];
          log := log + [Entry(id, ReadFrom(stream))];
        case Reading(stream) =>
          if cb.message.Err? {
            Finish(id, Err(Failed(cb.message.error)));
            return;
          }
          Finish(id, FromProto(KindOf(tasks[id].request), cb.message.value));
      }
    }

    method Finish(id: TaskId, outcome: Outcome)
      requires id in tasks
      modifies this`tasks, this`log
      ensures tasks == old(tasks)[id := old(tasks)[id].(phase := Done(outcome))]
      ensures log == old(log) + [Entry(id, Complete(outcome))]
    {
      tasks := tasks[id := tasks[id].(phase := Done(outcome))];
      log := log + [Entry(id, Complete(outcome))];
    }
  }

  lemma RunExtends(es: seq<Event>, e: Event)
    requires IsRun(es) && Enabled(After(es), e)
    ensures IsRun(es + [e])
    ensures After(es + [e]) == Next(After(es), e)
    ensures Log(es + [e]) == Log(es) + [Entry(e.id, Enter(Next(After(es), e)[e.id]))]
  {
    assert (es + [e])[..|es|] == es;
  }

  // ---------------------------------------------------------------- one send on its own

  /** The callbacks a run delivers to one send. */
  ghost function CallbacksOf(es: seq<Event>, id: TaskId): seq<Callback> {
    if es == [] then []
    else
      var e := es[|es| - 1];
      CallbacksOf(es[..|es| - 1], id) + (if e.Deliver? && e.id == id then [e.cb] else [])
  }

  /** The actions a run's log holds for one send. */
  ghost function ActionsOf(log: seq<Entry>, id: TaskId): seq<Action> {
    if log == [] then []
    else
      ActionsOf(log[..|log| - 1], id) + (if log[|log| - 1].id == id then [log[|log| - 1].action] else [])
  }

  /** What one send does for given callbacks, written straight from the coroutine: open, then write, then read,
      stopping at the first failure with the error of the operation that failed. */
  function Script(request: Request, peer: PeerId, cbs: seq<Callback>): seq<Action> {
    [OpenStream(peer)] +
    if cbs == [] then []
    else if !cbs[0].Opened? then []
    else if cbs[0].stream.Err? then [Complete(Err(Failed(cbs[0].stream.error)))]
    else
      [WriteRequest(cbs[0].stream.value, ProtoOf(request))] +
      if |cbs| == 1 then []
      else if !cbs[1].Wrote? then []
      else if cbs[1].failure.Some? then [Complete(Err(Failed(cbs[1].failure.value)))]
      else
        [ReadFrom(cbs[0].stream.value)] +
        if |cbs| == 2 then []
        else if !cbs[2].Received? then []
        else if cbs[2].message.Err? then [Complete(Err(Failed(cbs[2].message.error)))]
        else [Complete(FromProto(KindOf(request), cbs[2].message.value))]
  }

  /** Where a send is after given callbacks, and that they were the ones it was waiting for. */
  ghost predicate Explains(t: SendTask, cbs: seq<Callback>) {
    && t.slot == None
    && match t.phase
       case Opening => cbs == []
       case Writing(stream) => cbs == [Opened(Ok(stream))]
       case Reading(stream) => cbs == [Opened(Ok(stream)), Wrote(None)]
       case Done(outcome) =>
         || (|cbs| == 1 && cbs[0].Opened? && cbs[0].stream.Err? && outcome == Err(Failed(cbs[0].stream.error)))
         || (|cbs| == 2 && cbs[0].Opened? && cbs[0].stream.Ok? && cbs[1].Wrote? && cbs[1].failure.Some?
             && outcome == Err(Failed(cbs[1].failure.value)))
         || (|cbs| == 3 && cbs[0].Opened? && cbs[0].stream.Ok? && cbs[1] == Wrote(None) && cbs[2].Received?
             && outcome == if cbs[2].message.Err? then Err(Failed(cbs[2].message.error))
                           else FromProto(KindOf(t.request), cbs[2].message.value))
  }

  lemma AdvanceExplained(t: SendTask, cbs: seq<Callback>, cb: Callback)
    requires Explains(t, cbs) && Awaits(t.phase, cb)
    ensures Explains(Advance(t, cb), cbs + [cb])
    ensures Script(t.request, t.peer, cbs + [cb]) == Script(t.request, t.peer, cbs) + [Enter(Advance(t, cb))]
  {
  }

  lemma ActionsSnoc(log: seq<Entry>, entry: Entry, id: TaskId)
    ensures ActionsOf(log + [entry], id) == ActionsOf(log, id) + (if entry.id == id then [entry.action] else [])
  {
    assert (log + [entry])[..|log|] == log;
  }

  /** What a run has to say about one send: nothing before it was started; after that, its callbacks explain
      where it is, and its actions are its script. */
  ghost predicate Accounts(es: seq<Event>, tasks: Tasks, id: TaskId, cbs: seq<Callback>, actions: seq<Action>) {
    if id !in tasks then actions == [] && cbs == []
    else
      var t := tasks[id];
      && Send(id, t.request, t.peer) in es
      && Explains(t, cbs)
      && actions == Script(t.request, t.peer, cbs)
  }

  ghost predicate Accounted(es: seq<Event>, id: TaskId)
    requires IsRun(es)
  {
    Accounts(es, After(es), id, CallbacksOf(es, id), ActionsOf(Log(es), id))
  }

  lemma LogSnoc(es: seq<Event>, e: Event, id: TaskId)
    requires IsRun(es) && Enabled(After(es), e)
    ensures IsRun(es + [e]) && After(es + [e]) == Next(After(es), e)
    ensures ActionsOf(Log(es + [e]), id) ==
            if e.id == id then ActionsOf(Log(es), id) + [Enter(Next(After(es), e)[id])] else ActionsOf(Log(es), id)
    ensures CallbacksOf(es + [e], id) ==
            if e.Deliver? && e.id == id then CallbacksOf(es, id) + [e.cb] else CallbacksOf(es, id)
  {
    RunExtends(es, e);
    ActionsSnoc(Log(es), Entry(e.id, Enter(Next(After(es), e)[e.id])), id);
    assert (es + [e])[..|es|] == es;
  }

  lemma OtherEvent(es: seq<Event>, tasks: Tasks, e: Event, id: TaskId, cbs: seq<Callback>, actions: seq<Action>)
    requires Enabled(tasks, e) && e.id != id && Accounts(es, tasks, id, cbs, actions)
    ensures Accounts(es + [e], Next(tasks, e), id, cbs, actions)
  {
    if id in tasks {
      assert Next(tasks, e)[id] == tasks[id];
    }
  }

  lemma OwnStart(es: seq<Event>, tasks: Tasks, id: TaskId, request: Request, peer: PeerId)
    requires id !in tasks
    ensures var e, t := Send(id, request, peer), Started(request, peer);
            Accounts(es + [e], Next(tasks, e), id, [], [Enter(t)])
  {
    assert (es + [Send(id, request, peer)])[|es|] == Send(id, request, peer);
  }

  lemma OwnCallback(es: seq<Event>, tasks: Tasks, id: TaskId, cb: Callback, cbs: seq<Callback>, actions: seq<Action>)
    requires Enabled(tasks, Deliver(id, cb)) && Accounts(es, tasks, id, cbs, actions)
    ensures var e, t := Deliver(id, cb), Advance(tasks[id], cb);
            Accounts(es + [e], Next(tasks, e), id, cbs + [cb], actions + [Enter(t)])
  {
    AdvanceExplained(tasks[id], cbs, cb);
  }

  lemma StepAccounted(es: seq<Event>, e: Event, id: TaskId)
    requires IsRun(es) && Enabled(After(es), e) && Accounted(es, id)
    ensures IsRun(es + [e]) && Accounted(es + [e], id)
  {
    var tasks, cbs, actions := After(es), CallbacksOf(es, id), ActionsOf(Log(es), id);
    LogSnoc(es, e, id);
    if e.id != id {
      OtherEvent(es, tasks, e, id, cbs, actions);
    } else {
      match e
      case Send(_, request, peer) => OwnStart(es, tasks, id, request, peer);
      case Deliver(_, cb) => OwnCallback(es, tasks, id, cb, cbs, actions);
    }
  }

  /** However the callbacks of all sends interleave, what one send does depends only on its own. */
  lemma {:induction false} SendsAreIndependent(es: seq<Event>, id: TaskId)
    requires IsRun(es)
    ensures Accounted(es, id)
  {
    if es == [] {
    } else {
      var init, e := es[..|es| - 1], es[|es| - 1];
      SendsAreIndependent(init, id);
      StepAccounted(init, e, id);
      assert es == init + [e];
    }
  }

  /** Every send opens, then writes, then reads, each once and on the stream it opened, and nothing follows a
      failure; it completes exactly once and last, if it completes at all. */
  ghost predicate Ordered(t: SendTask, actions: seq<Action>) {
    && 1 <= |actions| <= 4
    && actions[0] == OpenStream(t.peer)
    && (forall i :: 0 <= i < |actions| && actions[i].OpenStream? ==> i == 0)
    && (forall i :: 0 <= i < |actions| && actions[i].WriteRequest? ==>
          i == 1 && actions[i].message == ProtoOf(t.request))
    && (forall i :: 0 <= i < |actions| && actions[i].ReadFrom? ==>
          i == 2 && actions[1] == WriteRequest(actions[2].stream, ProtoOf(t.request)))
    && (forall i :: 0 <= i < |actions| && actions[i].Complete? ==> i == |actions| - 1)
    && actions[|actions| - 1] == Enter(t)
  }

  lemma ScriptOrdered(t: SendTask, cbs: seq<Callback>)
    requires Explains(t, cbs)
    ensures Ordered(t, Script(t.request, t.peer, cbs))
  {
  }

  lemma SendIsOrdered(es: seq<Event>, id: TaskId)
    requires IsRun(es) && id in After(es)
    ensures Ordered(After(es)[id], ActionsOf(Log(es), id))
    ensures After(es)[id].phase.Done? <==> exists outcome :: Complete(outcome) in ActionsOf(Log(es), id)
  {
    SendsAreIndependent(es, id);
    ScriptOrdered(After(es)[id], CallbacksOf(es, id));
    CompletesIffDone(After(es)[id], ActionsOf(Log(es), id));
  }

  lemma CompletesIffDone(t: SendTask, actions: seq<Action>)
    requires Ordered(t, actions)
    ensures t.phase.Done? <==> exists outcome :: Complete(outcome) in actions
  {
    if t.phase.Done? {
      assert actions[|actions| - 1] == Complete(t.phase.outcome);
    }
  }

  /** A send that fails reports the very error of the operation that failed, or that the response did not hold
      the case its request calls for; the operations before that one all succeeded. */
  lemma ErrorsArePassedOn(es: seq<Event>, id: TaskId)
    requires IsRun(es) && id in After(es)
    requires After(es)[id].phase.Done? && After(es)[id].phase.outcome.Err?
    ensures var t, cbs := After(es)[id], CallbacksOf(es, id);
            && cbs != [] && (|cbs| > 1 ==> cbs[0].Opened? && cbs[0].stream.Ok?) && (|cbs| > 2 ==> cbs[1] == Wrote(None))
            && match cbs[|cbs| - 1]
               case Opened(stream) => stream.Err? && t.phase.outcome.error == Failed(stream.error)
               case Wrote(failure) => failure.Some? && t.phase.outcome.error == Failed(failure.value)
               case Received(Err(error)) => t.phase.outcome.error == Failed(error)
               case Received(Ok(response)) =>
                 t.phase.outcome.error == InvalidResponse &&
                 !(if t.request.RemoteCall? then response.CallResponse? else response.ReadResponse?)
  {
    SendsAreIndependent(es, id);
  }

  /** A send returns a value only after all three operations succeeded, and then the value is the proof of a
      response holding the case its request calls for. */
  lemma ValuesMatchRequests(es: seq<Event>, id: TaskId)
    requires IsRun(es) && id in After(es)
    requires After(es)[id].phase.Done? && After(es)[id].phase.outcome.Ok?
    ensures var t, cbs := After(es)[id], CallbacksOf(es, id);
            && |cbs| == 3 && cbs[2].Received? && cbs[2].message.Ok?
            && (if t.request.RemoteCall? then cbs[2].message.value.CallResponse?
                else cbs[2].message.value.ReadResponse?)
            && t.phase.outcome.value == cbs[2].message.value.proof
  {
    SendsAreIndependent(es, id);
  }
}
