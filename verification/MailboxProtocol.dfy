/**
 The life of mailbox requests as threads that interleave over one store.  A thread's constructor is
 its program counter and holds its local variables; a step performs one access to the store.
 */
module MailboxProtocol {
  import opened Wrappers
  import opened MailboxStore

  const POLLING := "POLLING"
  const CALLBACK := "CALLBACK"
  const CALLBACK_SYNC := "CALLBACK_SYNC"

  /** Whether the caller's thread answers the downstream call, and whether the downstream API is asynchronous. */
  datatype Kind = Async(downstream: bool) | Sync

  /** What follows the write of a state: nothing, or saving a response and perhaps handling its callback. */
  datatype Next = Stop | Then(response: Response, handle: bool)

  datatype Thread =
    // RevolverRequestResource: dispatch on the mode, duplicate check, save, downstream call, its completion
    | Submit(id: Id, mailbox: Option<string>, request: Request, downstream: bool)
    | Check(id: Id, mailbox: Option<string>, request: Request, kind: Kind)
    | Save(id: Id, mailbox: Option<string>, request: Request, kind: Kind)
    | Dispatch(id: Id, request: Request, kind: Kind)
    | Await(id: Id, request: Request, kind: Kind)
    // setRequestState, whole or as a read and a write; then the completion's saveResponse
    | SetState(id: Id, state: State, next: Next)
    | WriteSeen(id: Id, state: State, seen: State, next: Next)
    | Answer(id: Id, response: Response, handle: bool)
    // CallbackHandler.handle
    | HandleFetch(id: Id, response: Response)
    | HandleState(id: Id, response: Response, request: Request)
    | HandleSave(id: Id, response: Response)
    // RevolverCallbackResource.handleCallback
    | CallbackFetch(id: Id, response: Response)
    | CallbackSave(id: Id, response: Response, handle: bool)
    // RevolverMailboxResource: ack, persistRequest
    | AckState(id: Id)
    | AckFetch(id: Id)
    | Persist(id: Id, mailbox: Option<string>, request: Request)
    | Done

  type Tid = nat

  datatype Event =
    | Checked(t: Tid, id: Id, duplicate: bool)
    | Saved(t: Tid, id: Id, mailbox: Option<string>, request: Request)
    | Dispatched(t: Tid, id: Id)
    | Completed(t: Tid, id: Id, mode: string, kind: Kind, status: int)
    | Accepted(t: Tid, id: Id)
    | Handled(t: Tid, id: Id)

  datatype Sys = Sys(store: Store, threads: map<Tid, Thread>, log: seq<Event>)

  /** What the environment decides: the outcome of a downstream call, and whether `setRequestState` is split. */
  datatype Choice = Choice(outcome: Option<Response>, split: bool)

  /** The modes whose downstream callbacks are passed on. */
  predicate PassesOn(mode: string) {
    mode == CALLBACK || mode == CALLBACK_SYNC
  }

  function AfterSubmit(th: Thread): Thread
    requires th.Submit?
  {
    var mode := Upper(th.request.mode);
    if mode == POLLING || (mode == CALLBACK && th.request.uri != NoUri) then
      Check(th.id, th.mailbox, th.request, Async(th.downstream))
    else if mode == CALLBACK_SYNC && th.request.uri != NoUri then
      Check(th.id, th.mailbox, th.request, Sync)
    else Done
  }

  /** The states and answers a completed downstream call leads to; 202 is "accepted". */
  function AfterOutcome(id: Id, request: Request, kind: Kind, r: Response): Thread {
    if kind == Sync || r.status == 202 then SetState(id, REQUESTED, Stop)
    else if kind.downstream || r.status == 200 then SetState(id, RESPONDED, Then(r, request.mode == CALLBACK))
    else SetState(id, ERROR, Then(r, request.mode == CALLBACK))
  }

  function AfterState(id: Id, next: Next): Thread {
    match next
    case Stop => Done
    case Then(r, handle) => Answer(id, r, handle)
  }

  /** The effect of a thread's next step: the store, the thread and the events it adds to the log. */
  datatype Effect = Effect(store: Store, thread: Thread, events: seq<Event>)

  function Act(s: Store, t: Tid, th: Thread, c: Choice): Effect {
    match th
    case Submit(_, _, _, _) => Effect(s, AfterSubmit(th), [])
    case Check(id, mailbox, r, kind) =>
      Effect(s, if Exists(s, id) then Done else Save(id, mailbox, r, kind), [Checked(t, id, Exists(s, id))])
    case Save(id, mailbox, r, kind) =>
      Effect(SaveRequest(s, id, mailbox, r), Dispatch(id, r, kind), [Saved(t, id, mailbox, r)])
    case Dispatch(id, r, kind) => Effect(s, Await(id, r, kind), [Dispatched(t, id)])
    case Await(id, r, kind) =>
      if c.outcome.None? then Effect(s, Done, [])
      else Effect(s, AfterOutcome(id, r, kind, c.outcome.value),
        [Completed(t, id, r.mode, kind, c.outcome.value.status)])
    case SetState(id, state, next) =>
      if c.split then
        if s.Aerospike? && StateOf(s, id).None? then Effect(s, Done, [])
        else Effect(s, WriteSeen(id, state, StateOf(s, id).GetOr(UNKNOWN), next), [])
      else
        var r := SetRequestState(s, id, state);
        if r.Failed? then Effect(s, Done, []) else Effect(r.value, AfterState(id, next), [])
    case WriteSeen(id, state, seen, next) => Effect(WriteState(s, id, state, seen), AfterState(id, next), [])
    case Answer(id, r, handle) =>
      Effect(SaveResponse(s, id, r), if handle then HandleFetch(id, r) else Done,
        if handle then [Handled(t, id)] else [])
    case HandleFetch(id, r) =>
      var request := RequestOf(s, id);
      Effect(s, if request.None? then Done else HandleState(id, r, request.value), [])
    case HandleState(id, r, request) =>
      Effect(s, if StateOf(s, id).None? || !request.uri.Scheme? then Done else HandleSave(id, r), [])
    case HandleSave(id, r) => Effect(SaveResponse(s, id, r), Done, [])
    case CallbackFetch(id, r) =>
      var request := RequestOf(s, id);
      Effect(s, if request.None? then Done
                else CallbackSave(id, r, PassesOn(request.value.mode) && request.value.uri != NoUri), [])
    case CallbackSave(id, r, handle) =>
      Effect(SaveResponse(s, id, r), if handle then HandleFetch(id, r) else Done,
        [Accepted(t, id)] + if handle then [Handled(t, id)] else [])
    case AckState(id) =>
      var state := StateOf(s, id);
      Effect(s, if state == Some(RESPONDED) || state == Some(ERROR) then AckFetch(id) else Done, [])
    case AckFetch(id) => Effect(s, if RequestOf(s, id).None? then Done else SetState(id, READ, Stop), [])
    case Persist(id, mailbox, r) => Effect(SaveRequest(s, id, mailbox, r), Done, [Saved(t, id, mailbox, r)])
    case Done => Effect(s, Done, [])
  }

  /** One step of thread `t`; a thread that is not there stutters. */
  function Step(s: Sys, t: Tid, c: Choice): Sys {
    if t !in s.threads then s
    else
      var e := Act(s.store, t, s.threads[t], c);
      Sys(e.store, s.threads[t := e.thread], s.log + e.events)
  }

  type Schedule = seq<(Tid, Choice)>

  /** The system after the steps of a schedule. */
  function Run(s: Sys, schedule: Schedule): Sys
    decreases |schedule|
  {
    if schedule == [] then s
    else
      var k := |schedule| - 1;
      Step(Run(s, schedule[..k]), schedule[k].0, schedule[k].1)
  }

  /** A thread at its beginning; persisted requests are polled for and have no callback. */
  predicate IsStart(th: Thread) {
    || th.Submit? || th.CallbackFetch? || th.AckState?
    || (th.Persist? && th.request.mode == POLLING && th.request.verb == "POST" && th.request.uri == NoUri)
  }

  predicate IsEmpty(s: Store) {
    s == EMPTY_AEROSPIKE || s == EMPTY_IN_MEMORY
  }

  ghost predicate Init(s: Sys) {
    IsEmpty(s.store) && s.log == [] && forall t :: t in s.threads ==> IsStart(s.threads[t])
  }

  ghost predicate Quiescent(s: Sys) {
    forall t :: t in s.threads ==> s.threads[t] == Done
  }

  lemma RunFront(s: Sys, schedule: Schedule, k: nat)
    requires k < |schedule|
    ensures Run(s, schedule[..k + 1]) == Step(Run(s, schedule[..k]), schedule[k].0, schedule[k].1)
  {
    assert schedule[..k + 1][..k] == schedule[..k];
  }
}
