/** How often a mailbox request is sent downstream, and how often its callback is handled. */
module MailboxAccounting {
  import opened Wrappers
  import opened MailboxStore
  import opened MailboxProtocol
  import opened MailboxSafety

  // Duplicate suppression

  predicate CleanCheck(e: Event, t: Tid, x: Id) {
    e == Checked(t, x, false)
  }

  predicate SaveOf(e: Event, x: Id) {
    e.Saved? && e.id == x
  }

  predicate SaveBy(e: Event, t: Tid, x: Id) {
    SaveOf(e, x) && e.t == t
  }

  ghost predicate CheckedThen(log: seq<Event>, t: Tid, x: Id) {
    exists i :: 0 <= i < |log| && CleanCheck(log[i], t, x)
  }

  /** Thread `t` found the id new and saved it, in this order. */
  ghost predicate CheckedAndSaved(log: seq<Event>, t: Tid, x: Id) {
    exists i, j :: 0 <= i < j < |log| && CleanCheck(log[i], t, x) && SaveBy(log[j], t, x)
  }

  ghost predicate SavesAreKnown(s: Sys) {
    forall j :: 0 <= j < |s.log| && s.log[j].Saved? ==> Exists(s.store, s.log[j].id)
  }

  /** No save of an id comes before a check that finds it new. */
  ghost predicate ChecksAreFirst(log: seq<Event>) {
    forall i, j :: 0 <= j < i < |log| && log[i].Checked? && !log[i].duplicate && log[j].Saved? ==>
      log[j].id != log[i].id
  }

  ghost predicate DispatchesAreSaved(log: seq<Event>) {
    forall i :: 0 <= i < |log| && log[i].Dispatched? ==> CheckedAndSaved(log, log[i].t, log[i].id)
  }

  ghost predicate DispatchesDiffer(log: seq<Event>) {
    forall i, j :: 0 <= i < j < |log| && log[i].Dispatched? && log[j].Dispatched? ==> log[i].t != log[j].t
  }

  predicate BeforeDispatch(th: Thread) {
    th.Submit? || th.Check? || th.Save? || th.Dispatch?
  }

  ghost predicate ThreadsLogged(s: Sys) {
    forall t :: t in s.threads ==>
      var th := s.threads[t];
      && (th.Save? ==> CheckedThen(s.log, t, th.id))
      && (th.Dispatch? ==> CheckedAndSaved(s.log, t, th.id))
      && (BeforeDispatch(th) ==> forall i :: 0 <= i < |s.log| && s.log[i].Dispatched? ==> s.log[i].t != t)
  }

  ghost predicate DispatchInv(s: Sys) {
    && SavesAreKnown(s) && ChecksAreFirst(s.log) && DispatchesAreSaved(s.log) && DispatchesDiffer(s.log)
    && ThreadsLogged(s)
  }

  lemma LogGrows(log: seq<Event>, more: seq<Event>, t: Tid, x: Id)
    ensures CheckedThen(log, t, x) ==> CheckedThen(log + more, t, x)
    ensures CheckedAndSaved(log, t, x) ==> CheckedAndSaved(log + more, t, x)
  {
    if CheckedThen(log, t, x) {
      var i :| 0 <= i < |log| && CleanCheck(log[i], t, x);
      assert CleanCheck((log + more)[i], t, x);
    }
    if CheckedAndSaved(log, t, x) {
      var i, j :| 0 <= i < j < |log| && CleanCheck(log[i], t, x) && SaveBy(log[j], t, x);
      assert CleanCheck((log + more)[i], t, x) && SaveBy((log + more)[j], t, x);
    }
  }

  lemma SavesAreKnownStep(s: Sys, t: Tid, c: Choice)
    requires Inv(s) && SavesAreKnown(s) && t in s.threads
    ensures SavesAreKnown(Step(s, t, c))
  {
    hide Inv, Exists, RequestOf, StateOf, ResponseOf, SaveRequest, WriteState, SaveResponse, SetRequestState, Stored;
    var s', th := Step(s, t, c), s.threads[t];
    NeedsOfStep(s, t);
    forall j | 0 <= j < |s'.log| && s'.log[j].Saved? ensures Exists(s'.store, s'.log[j].id) {
      ActOnReads(s.store, t, th, c, s'.log[j].id);
    }
  }

  lemma ChecksAreFirstStep(s: Sys, t: Tid, c: Choice)
    requires SavesAreKnown(s) && ChecksAreFirst(s.log) && t in s.threads
    ensures ChecksAreFirst(Step(s, t, c).log)
  {
    hide Exists, RequestOf, StateOf, SaveRequest, WriteState, SaveResponse, SetRequestState;
  }

  /** The events of one step: at most one check, save or dispatch, and what the thread was then. */
  lemma EventsOf(s: Sys, t: Tid, c: Choice, i: nat)
    requires t in s.threads && |s.log| <= i < |Step(s, t, c).log|
    ensures var e, th := Step(s, t, c).log[i], s.threads[t];
      && e.t == t && (e.Checked? ==> th.Check? && i == |s.log| && e.id == th.id)
      && (e.Dispatched? ==> th.Dispatch? && i == |s.log| && e.id == th.id)
      && (e.Saved? ==> (th.Save? || th.Persist?) && i == |s.log| && e.id == th.id)
  {
    hide Exists, RequestOf, StateOf, SaveRequest, WriteState, SaveResponse, SetRequestState;
  }

  lemma DispatchesStep(s: Sys, t: Tid, c: Choice)
    requires DispatchInv(s) && t in s.threads
    ensures DispatchesAreSaved(Step(s, t, c).log) && DispatchesDiffer(Step(s, t, c).log)
  {
    hide Act, Exists, CheckedAndSaved, CheckedThen, SavesAreKnown, ChecksAreFirst;
    var s', th := Step(s, t, c), s.threads[t];
    var more := Act(s.store, t, th, c).events;
    forall i | 0 <= i < |s'.log| && s'.log[i].Dispatched?
      ensures CheckedAndSaved(s'.log, s'.log[i].t, s'.log[i].id)
      ensures forall j :: 0 <= j < i && s'.log[j].Dispatched? ==> s'.log[j].t != s'.log[i].t
    {
      LogGrows(s.log, more, s'.log[i].t, s'.log[i].id);
      if i >= |s.log| {
        EventsOf(s, t, c, i);
      }
    }
  }

  /** What a thread has become tells which event it has just logged. */
  lemma BecameLogged(s: Sys, t: Tid, c: Choice)
    requires t in s.threads
    ensures var e, th := Act(s.store, t, s.threads[t], c), s.threads[t];
      && (e.thread.Save? ==> th.Check? && e.events == [Checked(t, th.id, false)] && e.thread.id == th.id)
      && (e.thread.Dispatch? ==> th.Save? && |e.events| == 1 && SaveBy(e.events[0], t, th.id) && e.thread.id == th.id)
      && (BeforeDispatch(e.thread) ==>
            BeforeDispatch(th) && forall k :: 0 <= k < |e.events| ==> !e.events[k].Dispatched?)
  {
    hide Exists, RequestOf, StateOf, SaveRequest, WriteState, SaveResponse, SetRequestState;
  }

  lemma ThreadsLoggedStep(s: Sys, t: Tid, c: Choice)
    requires DispatchInv(s) && t in s.threads
    ensures ThreadsLogged(Step(s, t, c))
  {
    hide Act, Exists, CheckedAndSaved, CheckedThen, SavesAreKnown, ChecksAreFirst, DispatchesAreSaved, DispatchesDiffer,
      BeforeDispatch;
    var s', e := Step(s, t, c), Act(s.store, t, s.threads[t], c);
    BecameLogged(s, t, c);
    forall u | u in s'.threads
      ensures s'.threads[u].Save? ==> CheckedThen(s'.log, u, s'.threads[u].id)
      ensures s'.threads[u].Dispatch? ==> CheckedAndSaved(s'.log, u, s'.threads[u].id)
      ensures BeforeDispatch(s'.threads[u]) ==>
        forall i :: 0 <= i < |s'.log| && s'.log[i].Dispatched? ==> s'.log[i].t != u
    {
      var th := s'.threads[u];
      if th.Save? || th.Dispatch? {
        LogGrows(s.log, e.events, u, th.id);
        if u == t {
          NowLogged(s.log, e.events, t, th.id);
        }
      }
      if BeforeDispatch(th) {
        forall i | 0 <= i < |s'.log| && s'.log[i].Dispatched? ensures s'.log[i].t != u {
          if i >= |s.log| {
            EventsOf(s, t, c, i);
          }
        }
      }
    }
  }

  lemma NowLogged(log: seq<Event>, more: seq<Event>, t: Tid, x: Id)
    ensures more == [Checked(t, x, false)] ==> CheckedThen(log + more, t, x)
    ensures CheckedThen(log, t, x) && |more| == 1 && SaveBy(more[0], t, x) ==> CheckedAndSaved(log + more, t, x)
  {
    var all := log + more;
    if more == [Checked(t, x, false)] {
      assert CleanCheck(all[|log|], t, x);
    }
    if CheckedThen(log, t, x) && |more| == 1 && SaveBy(more[0], t, x) {
      var i :| 0 <= i < |log| && CleanCheck(log[i], t, x);
      assert CleanCheck(all[i], t, x) && SaveBy(all[|log|], t, x);
    }
  }

  lemma {:induction false} DispatchRun(s: Sys, schedule: Schedule)
    requires Init(s)
    ensures DispatchInv(Run(s, schedule))
    decreases |schedule|
  {
    hide Inv, Step;
    if schedule != [] {
      var k := |schedule| - 1;
      var before, t, c := Run(s, schedule[..k]), schedule[k].0, schedule[k].1;
      DispatchRun(s, schedule[..k]);
      InvRun(s, schedule[..k]);
      DispatchInvStep(before, t, c);
    }
  }

  lemma DispatchInvStep(s: Sys, t: Tid, c: Choice)
    requires Inv(s) && DispatchInv(s)
    ensures DispatchInv(Step(s, t, c))
  {
    hide Inv, Act, SavesAreKnown, ChecksAreFirst, DispatchesAreSaved, DispatchesDiffer, ThreadsLogged;
    if t in s.threads {
      SavesAreKnownStep(s, t, c);
      ChecksAreFirstStep(s, t, c);
      DispatchesStep(s, t, c);
      ThreadsLoggedStep(s, t, c);
    }
  }

  /** Two dispatches of an id come from two threads that both checked it before either saved it. */
  lemma TwoDispatchesRaced(s: Sys, schedule: Schedule, i: nat, j: nat)
    returns (c1: nat, s1: nat, c2: nat, s2: nat)
    requires Init(s)
    requires var log := Run(s, schedule).log;
      i < j < |log| && log[i].Dispatched? && log[j].Dispatched? && log[i].id == log[j].id
    ensures var log := Run(s, schedule).log;
      var t1, t2, x := log[i].t, log[j].t, log[i].id;
      && t1 != t2 && c1 < s1 < |log| && c2 < s2 < |log|
      && CleanCheck(log[c1], t1, x) && SaveBy(log[s1], t1, x)
      && CleanCheck(log[c2], t2, x) && SaveBy(log[s2], t2, x)
      && c1 < s2 && c2 < s1
  {
    hide Run, Init, SavesAreKnown, ThreadsLogged;
    DispatchRun(s, schedule);
    var log := Run(s, schedule).log;
    var t1, t2, x := log[i].t, log[j].t, log[i].id;
    assert CheckedAndSaved(log, t1, x) && CheckedAndSaved(log, t2, x);
    c1, s1 :| 0 <= c1 < s1 < |log| && CleanCheck(log[c1], t1, x) && SaveBy(log[s1], t1, x);
    c2, s2 :| 0 <= c2 < s2 < |log| && CleanCheck(log[c2], t2, x) && SaveBy(log[s2], t2, x);
  }

  /** Between a check that finds an id new and the save of the checking thread, no other thread checks the id. */
  ghost predicate SerialChecks(log: seq<Event>, x: Id) {
    forall i, j :: 0 <= i < j < |log| && log[i].Checked? && log[j].Checked? && log[i].id == x && log[j].id == x
      && !log[i].duplicate && log[i].t != log[j].t
      ==> exists k :: i < k < j && SaveBy(log[k], log[i].t, x)
  }

  /** Serial submissions of an id dispatch it at most once over any run. */
  lemma SerialSubmissionsDispatchOnce(s: Sys, schedule: Schedule, x: Id, i: nat, j: nat)
    requires Init(s) && SerialChecks(Run(s, schedule).log, x)
    requires var log := Run(s, schedule).log;
      i < |log| && j < |log| && log[i].Dispatched? && log[j].Dispatched? && log[i].id == x && log[j].id == x
    ensures i == j
  {
    hide Run, Init, SavesAreKnown, ThreadsLogged, DispatchesAreSaved, DispatchesDiffer;
    if i != j {
      var a, b := if i < j then i else j, if i < j then j else i;
      var c1, s1, c2, s2 := TwoDispatchesRaced(s, schedule, a, b);
      DispatchRun(s, schedule);
      assert false;
    }
  }

  // Callback accounting

  datatype Saving = Saving(mailbox: Option<string>, request: Request)

  /** The last save of an id in the log. */
  function LastSave(log: seq<Event>, x: Id): Option<Saving> {
    if log == [] then None
    else if SaveOf(log[|log| - 1], x) then Some(Saving(log[|log| - 1].mailbox, log[|log| - 1].request))
    else LastSave(log[..|log| - 1], x)
  }

  function SavedRequest(log: seq<Event>, x: Id): Option<Request> {
    if LastSave(log, x).Some? then Some(LastSave(log, x).value.request) else None
  }

  /**
   What is counted of an id: calls to `handle`, completions that are no 202, those among them in the mode CALLBACK, and
   accepted downstream callbacks.
   */
  datatype Query = Calls | Completions | Answers | Callbacks

  predicate Counts(q: Query, e: Event, x: Id) {
    match q
    case Calls => e.Handled? && e.id == x
    case Completions => e.Completed? && e.id == x && e.kind.Async? && e.status != 202
    case Answers => e.Completed? && e.id == x && e.kind.Async? && e.status != 202 && e.mode == CALLBACK
    case Callbacks => e.Accepted? && e.id == x
  }

  function Count(log: seq<Event>, q: Query, x: Id): nat {
    if log == [] then 0
    else Count(log[..|log| - 1], q, x) + if Counts(q, log[|log| - 1], x) then 1 else 0
  }

  lemma CountOne(log: seq<Event>, e: Event, q: Query, x: Id)
    ensures Count(log + [e], q, x) == Count(log, q, x) + if Counts(q, e, x) then 1 else 0
  {
    assert (log + [e])[..|log|] == log;
  }

  lemma CountMore(log: seq<Event>, more: seq<Event>, q: Query, x: Id)
    requires |more| <= 2
    ensures Count(log + more, q, x) == Count(log, q, x)
      + (if |more| > 0 && Counts(q, more[0], x) then 1 else 0) + (if |more| > 1 && Counts(q, more[1], x) then 1 else 0)
  {
    if |more| == 0 {
      assert log + more == log;
    } else {
      CountOne(log, more[0], q, x);
      if |more| == 2 {
        assert log + more == (log + [more[0]]) + [more[1]];
        CountOne(log + [more[0]], more[1], q, x);
      } else {
        assert log + more == log + [more[0]];
      }
    }
  }

  /** Completions answer to the callback handler in the mode CALLBACK, spelt so by the client. */
  predicate AnswersCallback(r: Request) {
    r.mode == CALLBACK
  }

  /** A request, as the store gives it back, whose downstream callbacks are passed on. */
  predicate IsPassedOn(r: Request) {
    PassesOn(r.mode) && r.uri != NoUri
  }

  predicate PassesCallback(s: Store, r: Request) {
    IsPassedOn(Stored(s, r))
  }

  /** A completion that will call `handle` and has not yet. */
  predicate OwesCall(th: Thread, x: Id) {
    ((th.SetState? || th.WriteSeen?) && th.id == x && th.next.Then? && th.next.handle)
    || (th.Answer? && th.id == x && th.handle)
  }

  ghost function Owing(s: Sys, x: Id): set<Tid> {
    set t | t in s.threads && OwesCall(s.threads[t], x)
  }

  /** Every save of an id is of a request that `answers` and `passes` describe. */
  ghost predicate SavesAre(s: Store, log: seq<Event>, x: Id, answers: bool, passes: bool) {
    forall i :: 0 <= i < |log| && SaveOf(log[i], x) ==>
      AnswersCallback(log[i].request) == answers && PassesCallback(s, log[i].request) == passes
  }

  /** The submissions and callbacks of an id run for such a request. */
  predicate RunsFor(th: Thread, x: Id, answers: bool, passes: bool) {
    && ((th.Dispatch? || th.Await?) && th.id == x ==> AnswersCallback(th.request) == answers)
    && (th.CallbackSave? && th.id == x ==> th.handle == passes)
  }

  ghost predicate OriginInv(s: Sys, x: Id, answers: bool, passes: bool) {
    && (RequestOf(s.store, x).Some? ==> IsPassedOn(RequestOf(s.store, x).value) == passes)
    && forall t :: t in s.threads ==> RunsFor(s.threads[t], x, answers, passes)
  }

  /** A downstream callback that is being saved and passed on. */
  predicate PassesNow(th: Thread, x: Id) {
    th.CallbackSave? && th.id == x && th.handle
  }

  /** The steps of a schedule that save a downstream callback and pass it on. */
  ghost function PassedOn(s: Sys, schedule: Schedule, x: Id): nat
    decreases |schedule|
  {
    if schedule == [] then 0
    else
      var k := |schedule| - 1;
      PassedOn(s, schedule[..k], x) + Plus(PassesNow(Actor(s, schedule, k), x))
  }

  function Plus(b: bool): nat {
    if b then 1 else 0
  }

  /** The id is not saved while it is stored already. */
  predicate SavesNew(s: Sys, t: Tid, x: Id) {
    t in s.threads && SavesRequest(s.threads[t], x) ==> !Exists(s.store, x)
  }

  lemma LastSaveMore(log: seq<Event>, more: seq<Event>, x: Id)
    requires |more| <= 2 && forall k :: 1 <= k < |more| ==> !more[k].Saved?
    ensures LastSave(log + more, x) ==
      if |more| > 0 && SaveOf(more[0], x) then Some(Saving(more[0].mailbox, more[0].request)) else LastSave(log, x)
  {
    if |more| == 0 {
      assert log + more == log;
    } else if |more| == 1 {
      assert (log + more)[..|log|] == log;
    } else {
      assert (log + more)[..|log| + 1] == log + [more[0]];
      assert (log + [more[0]])[..|log|] == log;
    }
  }

  lemma EventsAreFew(s: Store, t: Tid, th: Thread, c: Choice)
    ensures var events := Act(s, t, th, c).events;
      && |events| <= 2 && (forall k :: 1 <= k < |events| ==> !events[k].Saved?)
      && (forall x :: (|events| > 0 && SaveOf(events[0], x)) <==> SavesRequest(th, x))
      && (th.Save? || th.Persist? ==> events == [Saved(t, th.id, th.mailbox, th.request)])
  {
    hide Exists, RequestOf, StateOf, SaveRequest, WriteState, SaveResponse, SetRequestState;
  }

  lemma LastSaveStep(s: Sys, t: Tid, c: Choice, x: Id)
    requires t in s.threads
    ensures LastSave(Step(s, t, c).log, x) ==
      if SavesRequest(s.threads[t], x) then Some(Saving(s.threads[t].mailbox, s.threads[t].request))
      else LastSave(s.log, x)
  {
    hide Act;
    EventsAreFew(s.store, t, s.threads[t], c);
    LastSaveMore(s.log, Act(s.store, t, s.threads[t], c).events, x);
  }

  lemma SavedRequestStep(s: Sys, t: Tid, c: Choice, x: Id)
    requires t in s.threads
    ensures SavedRequest(Step(s, t, c).log, x) ==
      if SavesRequest(s.threads[t], x) then Some(s.threads[t].request) else SavedRequest(s.log, x)
  {
    hide Act, LastSave;
    LastSaveStep(s, t, c, x);
  }

  /** What is stored is the last request saved. */
  ghost predicate SavedIsStored(s: Sys, x: Id) {
    var saved := SavedRequest(s.log, x);
    saved.Some? == Exists(s.store, x)
    && RequestOf(s.store, x) == if saved.Some? then Some(Stored(s.store, saved.value)) else None
  }

  lemma SavedIsStoredStep(s: Sys, t: Tid, c: Choice, x: Id)
    requires Inv(s) && SavedIsStored(s, x) && t in s.threads
    ensures SavedIsStored(Step(s, t, c), x)
  {
    hide Act, Exists, RequestOf, StateOf, ResponseOf, SavedRequest, Complete, StatesFit, WellShaped, Acknowledges,
      Answered, Known;
    NeedsOfStep(s, t);
    ActOnReads(s.store, t, s.threads[t], c, x);
    SavedRequestStep(s, t, c, x);
  }

  lemma {:induction false} SavedIsStoredRun(s: Sys, schedule: Schedule, x: Id)
    requires Init(s)
    ensures SavedIsStored(Run(s, schedule), x)
    decreases |schedule|
  {
    hide Inv, Step;
    if schedule != [] {
      var k := |schedule| - 1;
      SavedIsStoredRun(s, schedule[..k], x);
      InvRun(s, schedule[..k]);
      hide Run, Init, SavedIsStored;
      if schedule[k].0 in Run(s, schedule[..k]).threads {
        SavedIsStoredStep(Run(s, schedule[..k]), schedule[k].0, schedule[k].1, x);
      } else {
        Stutter(Run(s, schedule[..k]), schedule[k].0, schedule[k].1);
      }
    }
  }

  lemma Stutter(s: Sys, t: Tid, c: Choice)
    requires t !in s.threads
    ensures Step(s, t, c) == s
  {
  }

  /** The request that a thread is about to save fits. */
  predicate SaveFits(s: Store, th: Thread, x: Id, answers: bool, passes: bool) {
    SavesRequest(th, x) ==> AnswersCallback(th.request) == answers && PassesCallback(s, th.request) == passes
  }

  /** Where the threads come from that a request is kept in. */
  lemma ThreadOrigins(s: Store, t: Tid, th: Thread, c: Choice)
    ensures var next := Act(s, t, th, c).thread;
      && (next.Dispatch? ==> th.Save? && next.id == th.id && next.request == th.request)
      && (next.Await? ==> th.Dispatch? && next.id == th.id && next.request == th.request)
      && (next.CallbackSave? ==> th.CallbackFetch? && next.id == th.id && RequestOf(s, th.id).Some?)
      && (next.CallbackSave? ==> next.handle == IsPassedOn(RequestOf(s, th.id).value))
  {
    hide Exists, RequestOf, StateOf, SaveRequest, WriteState, SaveResponse, SetRequestState, PassesOn, Upper;
  }

  /** The thread after a step still runs for a request of that kind. */
  lemma ActRunsFor(s: Store, t: Tid, th: Thread, c: Choice, x: Id, answers: bool, passes: bool)
    requires RunsFor(th, x, answers, passes) && SaveFits(s, th, x, answers, passes)
    requires RequestOf(s, x).Some? ==> IsPassedOn(RequestOf(s, x).value) == passes
    ensures RunsFor(Act(s, t, th, c).thread, x, answers, passes)
  {
    hide Act, RequestOf, AnswersCallback, PassesCallback, IsPassedOn;
    ThreadOrigins(s, t, th, c);
  }

  lemma OriginStep(s: Sys, t: Tid, c: Choice, x: Id, answers: bool, passes: bool)
    requires Inv(s) && OriginInv(s, x, answers, passes) && t in s.threads
    requires SaveFits(s.store, s.threads[t], x, answers, passes)
    ensures OriginInv(Step(s, t, c), x, answers, passes)
  {
    hide Act, Exists, RequestOf, StateOf, ResponseOf, Complete, StatesFit, WellShaped, Acknowledges, Answered,
      RunsFor, Known, IsPassedOn, Stored;
    NeedsOfStep(s, t);
    ActOnReads(s.store, t, s.threads[t], c, x);
    ActRunsFor(s.store, t, s.threads[t], c, x, answers, passes);
  }

  lemma OwingStep(s: Sys, t: Tid, c: Choice, x: Id)
    requires t in s.threads
    ensures |Owing(Step(s, t, c), x)| == |Owing(s, x)|
      - (if OwesCall(s.threads[t], x) then 1 else 0) + (if OwesCall(Step(s, t, c).threads[t], x) then 1 else 0)
  {
    hide Act, OwesCall;
    var before, after := Owing(s, x), Owing(Step(s, t, c), x);
    var rest := before - {t};
    assert before == (if OwesCall(s.threads[t], x) then rest + {t} else rest);
    assert after == (if OwesCall(Step(s, t, c).threads[t], x) then rest + {t} else rest);
  }

  /** The number of events of a kind among at most two. */
  function Few(log: seq<Event>, q: Query, x: Id): nat {
    Plus(|log| > 0 && Counts(q, log[0], x)) + Plus(|log| > 1 && Counts(q, log[1], x))
  }

  lemma CountFew(log: seq<Event>, q: Query, x: Id)
    requires |log| <= 2
    ensures Count(log, q, x) == Few(log, q, x)
  {
    hide Count, Counts;
    CountMore([], log, q, x);
    assert [] + log == log;
    CountNothing(q, x);
  }

  /** A step makes, owes and earns as many calls as it should. */
  predicate Balanced(e: Effect, th: Thread, x: Id) {
    |e.events| <= 2
    && Few(e.events, Calls, x) + Plus(OwesCall(e.thread, x))
         == Plus(OwesCall(th, x)) + Few(e.events, Answers, x) + Plus(PassesNow(th, x))
  }

  /** A downstream call that is answered earns a call, which its thread then owes. */
  lemma AwaitBalances(s: Store, t: Tid, th: Thread, c: Choice, x: Id)
    requires th.Await?
    ensures Balanced(Act(s, t, th, c), th, x)
  {
  }

  /** A downstream callback that is passed on earns a call, which is made at once. */
  lemma CallbackBalances(s: Store, t: Tid, th: Thread, c: Choice, x: Id)
    requires th.CallbackSave?
    ensures Balanced(Act(s, t, th, c), th, x)
  {
    hide SaveResponse;
  }

  /** A thread that sets a state goes on owing, and one that answers makes the call it owes. */
  lemma StateBalances(s: Store, t: Tid, th: Thread, c: Choice, x: Id)
    requires th.SetState? || th.WriteSeen? || th.Answer?
    requires th.SetState? && th.id == x ==> s.Aerospike? ==> StateOf(s, x).Some?
    ensures Balanced(Act(s, t, th, c), th, x)
  {
    hide SaveResponse, WriteState;
  }

  /** All other threads neither earn nor owe nor make a call. */
  lemma OthersBalance(s: Store, t: Tid, th: Thread, c: Choice, x: Id)
    requires !th.Await? && !th.CallbackSave? && !th.SetState? && !th.WriteSeen? && !th.Answer?
    ensures Balanced(Act(s, t, th, c), th, x)
  {
    hide Exists, RequestOf, StateOf, SaveRequest, SaveResponse, Upper, PassesOn;
  }

  /** What the events of a step, and the thread before and after it, add up to. */
  lemma ActBalances(s: Store, t: Tid, th: Thread, c: Choice, x: Id)
    requires th.SetState? && th.id == x ==> s.Aerospike? ==> StateOf(s, x).Some?
    ensures var e := Act(s, t, th, c);
      |e.events| <= 2
      && Count(e.events, Calls, x) + Plus(OwesCall(e.thread, x))
           == Plus(OwesCall(th, x)) + Count(e.events, Answers, x) + Plus(PassesNow(th, x))
  {
    hide Act, StateOf, Count, Few, OwesCall, PassesNow;
    if th.Await? {
      AwaitBalances(s, t, th, c, x);
    } else if th.CallbackSave? {
      CallbackBalances(s, t, th, c, x);
    } else if th.SetState? || th.WriteSeen? || th.Answer? {
      StateBalances(s, t, th, c, x);
    } else {
      OthersBalance(s, t, th, c, x);
    }
    CountFew(Act(s, t, th, c).events, Calls, x);
    CountFew(Act(s, t, th, c).events, Answers, x);
  }

  /** A thread that runs for such a request earns by every completion, or none, and by every callback, or none. */
  lemma ActAgrees(s: Store, t: Tid, th: Thread, c: Choice, x: Id, answers: bool, passes: bool)
    requires RunsFor(th, x, answers, passes) && |Act(s, t, th, c).events| <= 2
    ensures var events := Act(s, t, th, c).events;
      Count(events, Answers, x) == (if answers then Count(events, Completions, x) else 0)
      && Plus(PassesNow(th, x)) == if passes then Count(events, Callbacks, x) else 0
  {
    hide Exists, RequestOf, StateOf, SaveRequest, WriteState, SaveResponse, SetRequestState, Upper, PassesOn, Count;
    var events := Act(s, t, th, c).events;
    CountFew(events, Answers, x);
    CountFew(events, Completions, x);
    CountFew(events, Callbacks, x);
  }

  lemma CountNothing(q: Query, x: Id)
    ensures Count([], q, x) == 0
  {
  }

  lemma CountStep(s: Sys, t: Tid, c: Choice, q: Query, x: Id)
    requires t in s.threads && |Act(s.store, t, s.threads[t], c).events| <= 2
    ensures Count(Step(s, t, c).log, q, x) == Count(s.log, q, x) + Count(Act(s.store, t, s.threads[t], c).events, q, x)
  {
    hide Act, Counts;
    var more := Act(s.store, t, s.threads[t], c).events;
    CountMore(s.log, more, q, x);
    CountMore([], more, q, x);
    CountNothing(q, x);
    assert [] + more == more;
  }

  lemma StateKnown(s: Sys, t: Tid)
    requires Inv(s) && t in s.threads && s.threads[t].SetState?
    ensures StateOf(s.store, s.threads[t].id).Some?
  {
    hide Complete, StatesFit, Answered, WellShaped, Acknowledges;
    NeedsOfStep(s, t);
  }

  /** The balance of calls made, owed and earned is kept by every step. */
  lemma CallsStep(s: Sys, t: Tid, c: Choice, x: Id)
    requires Inv(s) && t in s.threads
    ensures var s' := Step(s, t, c);
      Count(s'.log, Calls, x) + |Owing(s', x)| + Count(s.log, Answers, x)
        == Count(s.log, Calls, x) + |Owing(s, x)| + Count(s'.log, Answers, x) + Plus(PassesNow(s.threads[t], x))
  {
    hide Inv, Act, Count, Owing, OwesCall, StateOf, PassesNow;
    if s.threads[t].SetState? {
      StateKnown(s, t);
    }
    ActBalances(s.store, t, s.threads[t], c, x);
    CountStep(s, t, c, Calls, x);
    CountStep(s, t, c, Answers, x);
    OwingStep(s, t, c, x);
  }

  lemma OriginOf(s: Sys, t: Tid, x: Id, answers: bool, passes: bool)
    requires OriginInv(s, x, answers, passes) && t in s.threads
    ensures RunsFor(s.threads[t], x, answers, passes)
  {
    hide RunsFor;
  }

  /** Over the run of a schedule, `x` is only saved while it is not stored. */
  ghost predicate SavedOnce(s: Sys, schedule: Schedule, x: Id) {
    forall k :: 0 <= k < |schedule| ==> SavesNew(Run(s, schedule[..k]), schedule[k].0, x)
  }

  lemma SavedOnceFront(s: Sys, schedule: Schedule, x: Id)
    requires schedule != [] && SavedOnce(s, schedule, x)
    ensures var k := |schedule| - 1;
      SavedOnce(s, schedule[..k], x) && SavesNew(Run(s, schedule[..k]), schedule[k].0, x)
  {
    hide Run, SavesNew;
    var front := schedule[..|schedule| - 1];
    forall k | 0 <= k < |front| ensures SavesNew(Run(s, front[..k]), front[k].0, x) {
      assert front[..k] == schedule[..k] && front[k] == schedule[k];
    }
  }

  lemma NothingCounted(s: Sys, q: Query, x: Id)
    requires Init(s)
    ensures Count(s.log, q, x) == 0 && Owing(s, x) == {}
  {
  }

  /** After every schedule: calls made and calls owed are the completions that answer and the callbacks passed on. */
  lemma {:induction false} CallsRun(s: Sys, schedule: Schedule, x: Id)
    requires Init(s)
    ensures var r := Run(s, schedule);
      Count(r.log, Calls, x) + |Owing(r, x)| == Count(r.log, Answers, x) + PassedOn(s, schedule, x)
    decreases |schedule|
  {
    hide Inv, Init, Step, Count, Owing, PassesNow;
    if schedule == [] {
      NothingCounted(s, Calls, x);
      NothingCounted(s, Answers, x);
    } else {
      var k := |schedule| - 1;
      var before, t, c := Run(s, schedule[..k]), schedule[k].0, schedule[k].1;
      CallsRun(s, schedule[..k], x);
      InvRun(s, schedule[..k]);
      if t in before.threads {
        CallsStep(before, t, c, x);
      } else {
        Stutter(before, t, c);
        DonePassesNothing(x);
      }
    }
  }

  lemma DonePassesNothing(x: Id)
    ensures !PassesNow(Done, x)
  {
  }

  /**
   At rest, over every run, the calls to `handle` for an id are its completions that were not a 202 and whose request
   had the mode CALLBACK, and the downstream callbacks that were saved and passed on.
   */
  lemma CallsByEvents(s: Sys, schedule: Schedule, x: Id)
    requires Init(s) && Quiescent(Run(s, schedule))
    ensures var log := Run(s, schedule).log;
      Count(log, Calls, x) == Count(log, Answers, x) + PassedOn(s, schedule, x)
  {
    hide Run, Init, Count, PassedOn;
    CallsRun(s, schedule, x);
    assert Owing(Run(s, schedule), x) == {};
  }

  /** A callback that is saved was fetched by the same thread, and is passed on as the request then stored says. */
  lemma {:induction false} CallbackWasFetched(s: Sys, schedule: Schedule, k: nat, t: Tid) returns (j: nat)
    requires Init(s) && k <= |schedule|
    requires var r := Run(s, schedule[..k]); t in r.threads && r.threads[t].CallbackSave?
    ensures j < k && schedule[j].0 == t
    ensures var th, store := Run(s, schedule[..k]).threads[t], Run(s, schedule[..j]).store;
      RequestOf(store, th.id).Some? && th.handle == IsPassedOn(RequestOf(store, th.id).value)
    decreases k
  {
    hide Act, RequestOf, IsPassedOn;
    assert schedule[..0] == [];
    if k > 0 {
      var before, u, c := Run(s, schedule[..k - 1]), schedule[k - 1].0, schedule[k - 1].1;
      RunFront(s, schedule, k - 1);
      hide Run, Init;
      if u == t && u in before.threads {
        ThreadOrigins(before.store, t, before.threads[t], c);
        j := k - 1;
      } else {
        j := CallbackWasFetched(s, schedule, k - 1, t);
      }
    }
  }

  /** A step only adds to the log, the request of a save among what it adds. */
  lemma SavesOfStep(s: Sys, t: Tid, c: Choice, kind: Store, x: Id, answers: bool, passes: bool)
    requires t in s.threads && SavesAre(kind, Step(s, t, c).log, x, answers, passes)
    ensures SavesAre(kind, s.log, x, answers, passes) && SaveFits(kind, s.threads[t], x, answers, passes)
  {
    hide Act, AnswersCallback, PassesCallback;
    var log, events := Step(s, t, c).log, Act(s.store, t, s.threads[t], c).events;
    assert log == s.log + events;
    EventsAreFew(s.store, t, s.threads[t], c);
    forall i | 0 <= i < |s.log| && SaveOf(s.log[i], x)
      ensures AnswersCallback(s.log[i].request) == answers && PassesCallback(kind, s.log[i].request) == passes
    {
      assert log[i] == s.log[i];
    }
    if SavesRequest(s.threads[t], x) {
      assert log[|s.log|] == events[0];
    }
  }

  lemma FitsByKind(s: Store, s': Store, th: Thread, x: Id, answers: bool, passes: bool)
    requires s.Aerospike? == s'.Aerospike? && SaveFits(s, th, x, answers, passes)
    ensures SaveFits(s', th, x, answers, passes)
  {
  }

  lemma AgreeingStart(s: Sys, x: Id, answers: bool, passes: bool)
    requires Init(s)
    ensures OriginInv(s, x, answers, passes)
  {
  }

  /**
   When all saves of an id answer callbacks alike and pass them on alike, completions and callbacks all earn, or none.
   */
  lemma {:induction false} AgreeingRun(s: Sys, schedule: Schedule, x: Id, answers: bool, passes: bool)
    requires Init(s) && SavesAre(s.store, Run(s, schedule).log, x, answers, passes)
    ensures var log := Run(s, schedule).log;
      OriginInv(Run(s, schedule), x, answers, passes)
      && Count(log, Answers, x) == (if answers then Count(log, Completions, x) else 0)
      && PassedOn(s, schedule, x) == if passes then Count(log, Callbacks, x) else 0
    decreases |schedule|
  {
    hide Inv, OriginInv, Init, SavesAre, SaveFits, Step, Count, PassesNow;
    if schedule == [] {
      AgreeingStart(s, x, answers, passes);
      NothingCounted(s, Answers, x);
      NothingCounted(s, Completions, x);
      NothingCounted(s, Callbacks, x);
    } else {
      var k := |schedule| - 1;
      var before, t, c := Run(s, schedule[..k]), schedule[k].0, schedule[k].1;
      InvRun(s, schedule[..k]);
      AerospikeRuns(s, schedule[..k]);
      if t in before.threads {
        SavesOfStep(before, t, c, s.store, x, answers, passes);
        FitsByKind(s.store, before.store, before.threads[t], x, answers, passes);
        AgreeingRun(s, schedule[..k], x, answers, passes);
        AgreeingStep(before, t, c, x, answers, passes);
      } else {
        Stutter(before, t, c);
        DonePassesNothing(x);
        AgreeingRun(s, schedule[..k], x, answers, passes);
      }
    }
  }

  lemma AgreeingStep(s: Sys, t: Tid, c: Choice, x: Id, answers: bool, passes: bool)
    requires Inv(s) && OriginInv(s, x, answers, passes) && t in s.threads
    requires SaveFits(s.store, s.threads[t], x, answers, passes)
    ensures var s' := Step(s, t, c);
      OriginInv(s', x, answers, passes)
      && Count(s'.log, Answers, x) - Count(s.log, Answers, x)
           == (if answers then Count(s'.log, Completions, x) - Count(s.log, Completions, x) else 0)
      && Plus(PassesNow(s.threads[t], x))
           == if passes then Count(s'.log, Callbacks, x) - Count(s.log, Callbacks, x) else 0
  {
    hide Inv, Act, Count, PassesNow, OriginInv, RunsFor, SaveFits;
    OriginStep(s, t, c, x, answers, passes);
    OriginOf(s, t, x, answers, passes);
    EventsAreFew(s.store, t, s.threads[t], c);
    ActAgrees(s.store, t, s.threads[t], c, x, answers, passes);
    CountStep(s, t, c, Answers, x);
    CountStep(s, t, c, Completions, x);
    CountStep(s, t, c, Callbacks, x);
  }

  /**
   At rest, when all saves of an id answer callbacks alike and pass them on alike, the calls to `handle` for it are its
   completions that were not a 202, if they answer, and its accepted downstream callbacks, if these are passed on. The
   id may be saved any number of times, by racing submissions or anew.
   */
  lemma CallsAreAccountedFor(s: Sys, schedule: Schedule, x: Id, answers: bool, passes: bool)
    requires Init(s) && Quiescent(Run(s, schedule))
    requires SavesAre(s.store, Run(s, schedule).log, x, answers, passes)
    ensures var log := Run(s, schedule).log;
      Count(log, Calls, x)
        == (if answers then Count(log, Completions, x) else 0) + (if passes then Count(log, Callbacks, x) else 0)
  {
    hide Run, Init, Count, OriginInv, SavesAre, Quiescent, PassedOn;
    CallsByEvents(s, schedule, x);
    AgreeingRun(s, schedule, x, answers, passes);
  }

  /** Every save of an id is of a request with this mode, and with a URI or without one. */
  predicate SavedWith(log: seq<Event>, x: Id, mode: string, hasUri: bool) {
    forall i :: 0 <= i < |log| && SaveOf(log[i], x) ==>
      log[i].request.mode == mode && (log[i].request.uri != NoUri) == hasUri
  }

  /** For an id whose saves agree on the mode and on whether there is a URI, the account is settled by these two. */
  lemma CallsByModeAndUri(s: Sys, schedule: Schedule, x: Id, mode: string, hasUri: bool)
    requires Init(s) && Quiescent(Run(s, schedule)) && SavedWith(Run(s, schedule).log, x, mode, hasUri)
    ensures var log, stored := Run(s, schedule).log, if s.store.Aerospike? then Upper(mode) else mode;
      Count(log, Calls, x)
        == (if mode == "CALLBACK" then Count(log, Completions, x) else 0)
           + (if stored in {"CALLBACK", "CALLBACK_SYNC"} && hasUri then Count(log, Callbacks, x) else 0)
  {
    hide Run, Init, Count, Quiescent, PassesCallback, PassesOn, Upper;
    var log := Run(s, schedule).log;
    var passes := PassesOn(if s.store.Aerospike? then Upper(mode) else mode) && hasUri;
    forall i | 0 <= i < |log| && SaveOf(log[i], x)
      ensures AnswersCallback(log[i].request) == (mode == CALLBACK) && PassesCallback(s.store, log[i].request) == passes
    {
      PassesByModeAndUri(s.store, log[i].request);
    }
    CallsAreAccountedFor(s, schedule, x, mode == CALLBACK, passes);
    PassesOnModes(if s.store.Aerospike? then Upper(mode) else mode);
  }

  lemma PassesOnModes(mode: string)
    ensures PassesOn(mode) <==> mode in {"CALLBACK", "CALLBACK_SYNC"}
  {
  }

  lemma PassesByModeAndUri(s: Store, r: Request)
    ensures PassesCallback(s, r) <==> PassesOn(if s.Aerospike? then Upper(r.mode) else r.mode) && r.uri != NoUri
  {
    hide PassesOn, Upper;
  }

  /** An id none of whose saves answers callbacks or passes them on never has `handle` called for it, over any run. */
  lemma NeverHandled(s: Sys, schedule: Schedule, x: Id)
    requires Init(s) && SavesAre(s.store, Run(s, schedule).log, x, false, false)
    ensures Count(Run(s, schedule).log, Calls, x) == 0
  {
    hide Run, Init, Count, OriginInv, SavesAre, Owing, PassedOn;
    CallsRun(s, schedule, x);
    AgreeingRun(s, schedule, x, false, false);
  }

  /** So an id saved in the mode POLLING only, in any spelling and however often, never has. */
  lemma PollingIsNeverHandled(s: Sys, schedule: Schedule, x: Id)
    requires Init(s)
    requires var log := Run(s, schedule).log;
      forall i :: 0 <= i < |log| && SaveOf(log[i], x) ==> Upper(log[i].request.mode) == "POLLING"
    ensures Count(Run(s, schedule).log, Calls, x) == 0
  {
    hide Run, Init, Count, Upper, PassesCallback, AnswersCallback;
    var log := Run(s, schedule).log;
    forall i | 0 <= i < |log| && SaveOf(log[i], x)
      ensures !AnswersCallback(log[i].request) && !PassesCallback(s.store, log[i].request)
    {
      PollingPassesNothing(s.store, log[i].request);
    }
    NeverHandled(s, schedule, x);
  }

  lemma PollingPassesNothing(s: Store, r: Request)
    requires Upper(r.mode) == POLLING
    ensures !AnswersCallback(r) && !PassesCallback(s, r)
  {
    assert Upper(r.mode)[0] == 'P';
  }
}
