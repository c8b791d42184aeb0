/** Runs that show where the promises of the mailbox end. */
module MailboxWitness {
  import opened Wrappers
  import opened MailboxStore
  import opened MailboxProtocol
  import opened MailboxSafety
  import opened MailboxAccounting
  import opened MailboxAgreement

  const GO := Choice(None, false)

  /** A run built one step at a time: the schedule so far leads from `s0` to `s`. */
  ghost predicate Reaches(s0: Sys, schedule: Schedule, s: Sys) {
    Init(s0) && Run(s0, schedule) == s && AlwaysNew(s0, schedule)
  }

  /** One more step, with what it does to the reads of `x`. */
  lemma Extend(s0: Sys, schedule: Schedule, s: Sys, t: Tid, c: Choice, x: Id) returns (longer: Schedule, s': Sys)
    requires Reaches(s0, schedule, s) && t in s.threads
    requires forall y :: SavesRequest(s.threads[t], y) ==> !Exists(s.store, y)
    ensures longer == schedule + [(t, c)] && s' == Step(s, t, c) && Reaches(s0, longer, s')
    ensures s'.threads == s.threads[t := Act(s.store, t, s.threads[t], c).thread]
    ensures s'.store == Act(s.store, t, s.threads[t], c).store && s'.store.Aerospike? == s.store.Aerospike?
    ensures Exists(s'.store, x) == (Exists(s.store, x) || SavesRequest(s.threads[t], x))
    ensures RequestOf(s'.store, x) ==
      if SavesRequest(s.threads[t], x) then Some(Stored(s.store, s.threads[t].request)) else RequestOf(s.store, x)
    ensures ResponseOf(s'.store, x) ==
      if SavesResponse(s.threads[t], x) then Some(s.threads[t].response) else ResponseOf(s.store, x)
    ensures StateOf(s.store, x).Some? || SavesRequest(s.threads[t], x) ==> StateOf(s'.store, x).Some?
    ensures SavesRequest(s.threads[t], x) ==> StateOf(s'.store, x) == Some(RECEIVED)
    ensures SavesResponse(s.threads[t], x) ==> StateOf(s'.store, x) == Some(RESPONDED)
    ensures !WritesState(s.threads[t], x) && !SavesRequest(s.threads[t], x) && !SavesResponse(s.threads[t], x)
      ==> StateOf(s'.store, x) == StateOf(s.store, x)
  {
    hide Act, Inv, Init, Exists, RequestOf, StateOf, ResponseOf, Stored, SavesResponse, WritesState, Needs, Known;
    longer := schedule + [(t, c)];
    s' := Step(s, t, c);
    assert longer[..|longer| - 1] == schedule;
    forall y, k | 0 <= k < |longer| ensures SavesNew(Run(s0, longer[..k]), longer[k].0, y) {
      if k < |schedule| {
        assert longer[..k] == schedule[..k] && longer[k] == schedule[k];
        assert SavedOnce(s0, schedule, y);
      } else {
        assert longer[..k] == schedule;
      }
    }
    InvRun(s0, schedule);
    NeedsOfStep(s, t);
    ActOnReads(s.store, t, s.threads[t], c, x);
  }

  function ThreeThreads(x: Id, q: string, r: Request, r1: Response, r2: Response): map<Tid, Thread> {
    map[0 := Submit(x, Some(q), r, false), 1 := CallbackFetch(x, r1), 2 := CallbackFetch(x, r2)]
  }

  /** A request submitted, checked, saved and sent; its downstream call has not been answered. */
  lemma Submitted(s0: Sys, x: Id, q: string, r: Request) returns (schedule: Schedule, s: Sys)
    requires Init(s0) && 0 in s0.threads && s0.threads[0] == Submit(x, Some(q), r, false)
    requires AfterSubmit(s0.threads[0]).Check?
    ensures Reaches(s0, schedule, s) && schedule == [(0, GO), (0, GO), (0, GO), (0, GO)]
    ensures Exists(s.store, x) && RequestOf(s.store, x) == Some(Stored(s0.store, r))
    ensures StateOf(s.store, x) == Some(RECEIVED)
    ensures s.threads == s0.threads[0 := Await(x, r, AfterSubmit(s0.threads[0]).kind)]
    ensures s.store.Aerospike? == s0.store.Aerospike?
  {
    hide RequestOf, StateOf, ResponseOf, Stored, SaveRequest, WriteState, SaveResponse, SetRequestState, Upper, Run,
      AlwaysNew;
    schedule, s := [], s0;
    assert Reaches(s0, schedule, s) by {
      NothingRun(s0);
    }
    assert !Exists(s.store, x);
    schedule, s := Extend(s0, schedule, s, 0, GO, x);
    schedule, s := Extend(s0, schedule, s, 0, GO, x);
    schedule, s := Extend(s0, schedule, s, 0, GO, x);
    hide Exists;
    StoredByKind(s0.store, s.store, r);
    schedule, s := Extend(s0, schedule, s, 0, GO, x);
  }

  lemma StoredByKind(s: Store, s': Store, r: Request)
    requires s.Aerospike? == s'.Aerospike?
    ensures Stored(s, r) == Stored(s', r)
  {
  }

  lemma NothingRun(s0: Sys)
    requires Init(s0)
    ensures Run(s0, []) == s0 && AlwaysNew(s0, [])
  {
  }

  /** A thread that passes its downstream callback on saves its response again at its end. */
  lemma CallbackBegins(s0: Sys, before: Schedule, s: Sys, t: Tid, x: Id, r: Request, resp: Response)
    returns (schedule: Schedule, s': Sys)
    requires Reaches(s0, before, s) && t in s.threads && s.threads[t] == CallbackFetch(x, resp)
    requires Exists(s.store, x) && RequestOf(s.store, x) == Some(r) && StateOf(s.store, x).Some?
    ensures schedule == before + [(t, GO), (t, GO)] && Reaches(s0, schedule, s')
    ensures s'.threads == s.threads[t := if PassesOn(r.mode) && r.uri != NoUri then HandleFetch(x, resp) else Done]
    ensures Exists(s'.store, x) && RequestOf(s'.store, x) == Some(r) && StateOf(s'.store, x).Some?
    ensures ResponseOf(s'.store, x) == Some(resp) && s'.store.Aerospike? == s.store.Aerospike?
    ensures StateOf(s'.store, x) == Some(RESPONDED)
  {
    hide Exists, RequestOf, StateOf, ResponseOf, Stored, SaveResponse, Reaches;
    var middle: Schedule, m;
    middle, m := Extend(s0, before, s, t, GO, x);
    schedule, s' := Extend(s0, middle, m, t, GO, x);
  }

  /** The rest of a callback: three steps, which save again when it was passed on and its URI has a scheme. */
  lemma CallbackEnds(s0: Sys, before: Schedule, s: Sys, t: Tid, x: Id, r: Request, resp: Response)
    returns (schedule: Schedule, s': Sys)
    requires Reaches(s0, before, s) && t in s.threads && (s.threads[t] == HandleFetch(x, resp) || s.threads[t] == Done)
    requires Exists(s.store, x) && RequestOf(s.store, x) == Some(r) && StateOf(s.store, x) == Some(RESPONDED)
    ensures schedule == before + [(t, GO), (t, GO), (t, GO)] && Reaches(s0, schedule, s')
    ensures s'.threads == s.threads[t := Done]
    ensures Exists(s'.store, x) && RequestOf(s'.store, x) == Some(r) && StateOf(s'.store, x) == Some(RESPONDED)
    ensures ResponseOf(s'.store, x) ==
      if s.threads[t].Done? || !r.uri.Scheme? then ResponseOf(s.store, x) else Some(resp)
    ensures s'.store.Aerospike? == s.store.Aerospike?
  {
    hide Exists, RequestOf, StateOf, ResponseOf, Stored, SaveResponse, Reaches;
    var first: Schedule, second: Schedule, a, b;
    first, a := Extend(s0, before, s, t, GO, x);
    second, b := Extend(s0, first, a, t, GO, x);
    schedule, s' := Extend(s0, second, b, t, GO, x);
  }

  /** A submission whose downstream call is never answered. */
  lemma GivenUp(s0: Sys, x: Id, q: string, r: Request) returns (schedule: Schedule, s: Sys)
    requires Init(s0) && 0 in s0.threads && s0.threads[0] == Submit(x, Some(q), r, false)
    requires AfterSubmit(s0.threads[0]).Check?
    ensures Reaches(s0, schedule, s) && schedule == [(0, GO), (0, GO), (0, GO), (0, GO), (0, GO)]
    ensures Exists(s.store, x) && RequestOf(s.store, x) == Some(Stored(s0.store, r)) && StateOf(s.store, x).Some?
    ensures s.threads == s0.threads[0 := Done] && s.store.Aerospike? == s0.store.Aerospike?
  {
    hide Exists, RequestOf, StateOf, ResponseOf, Stored, SaveResponse, WriteState, SetRequestState, Upper, Reaches,
      Init, PassesOn, AfterSubmit;
    schedule, s := Submitted(s0, x, q, r);
    schedule, s := Extend(s0, schedule, s, 0, GO, x);
  }

  /**
   One submission and two downstream callbacks: both callbacks are saved, then the second is handled to its
   end, then the first.  What is left is the first response when callbacks are passed on, else the second.
   */
  lemma TwoCallbacks(s0: Sys, x: Id, q: string, r: Request, r1: Response, r2: Response)
    returns (schedule: Schedule, s: Sys)
    requires Init(s0) && s0.threads == ThreeThreads(x, q, r, r1, r2)
    requires PassesOn(Upper(r.mode)) && r.uri.Scheme?
    ensures schedule == TwoCallbacksSchedule() && Reaches(s0, schedule, s) && Quiescent(s)
    ensures ResponseOf(s.store, x) == Some(if PassesOn(Stored(s0.store, r).mode) then r1 else r2)
    ensures RequestOf(s.store, x) == Some(Stored(s0.store, r))
  {
    hide *;
    StoredUri(s0.store, r);
    ThreadsOfThree(x, q, r, r1, r2);
    AcceptedIsChecked(s0.threads[0]);
    PassedOnIsAccepted(r);
    schedule, s := GivenUp(s0, x, q, r);
    var stored := Stored(s0.store, r);
    schedule, s := CallbackBegins(s0, schedule, s, 1, x, stored, r1);
    schedule, s := CallbackBegins(s0, schedule, s, 2, x, stored, r2);
    schedule, s := CallbackEnds(s0, schedule, s, 2, x, stored, r2);
    schedule, s := CallbackEnds(s0, schedule, s, 1, x, stored, r1);
    ScheduleOfTwo();
    AllDone(s);
  }

  lemma StoredUri(s: Store, r: Request)
    ensures Stored(s, r).uri == r.uri
  {
  }

  lemma ThreadsOfThree(x: Id, q: string, r: Request, r1: Response, r2: Response)
    ensures ThreeThreads(x, q, r, r1, r2)
      == map[0 := Submit(x, Some(q), r, false), 1 := CallbackFetch(x, r1), 2 := CallbackFetch(x, r2)]
  {
  }

  lemma PassedOnIsAccepted(r: Request)
    requires PassesOn(Upper(r.mode)) && r.uri.Scheme?
    ensures Accepted(r)
  {
    hide Upper;
  }

  lemma ScheduleOfTwo()
    ensures TwoCallbacksSchedule() ==
      [(0, GO), (0, GO), (0, GO), (0, GO), (0, GO)] + [(1, GO), (1, GO)] + [(2, GO), (2, GO)]
      + [(2, GO), (2, GO), (2, GO)] + [(1, GO), (1, GO), (1, GO)]
  {
  }

  lemma AllDone(s: Sys)
    requires s.threads.Keys == {0, 1, 2} && s.threads[0] == s.threads[1] == s.threads[2] == Done
    ensures Quiescent(s)
  {
  }

  function TwoCallbacksSchedule(): Schedule {
    [(0, GO), (0, GO), (0, GO), (0, GO), (0, GO), (1, GO), (1, GO), (2, GO), (2, GO)]
    + [(2, GO), (2, GO), (2, GO)] + [(1, GO), (1, GO), (1, GO)]
  }

  /**
   One schedule over both providers, of a submission and two downstream callbacks and without split writes, that ends at
   rest with the first response over Aerospike and with the second in memory.
   */
  ghost predicate RunsApart(a: Sys, m: Sys, schedule: Schedule, x: Id, q: string, r: Request, r1: Response,
    r2: Response)
  {
    && Init(a) && Init(m) && a.store.Aerospike? && m.store.InMemory?
    && a.threads == m.threads
         == map[0 := Submit(x, Some(q), r, false), 1 := CallbackFetch(x, r1), 2 := CallbackFetch(x, r2)]
    && AlwaysNew(a, schedule) && AlwaysNew(m, schedule) && Unsplit(schedule)
    && Quiescent(Run(a, schedule)) && Quiescent(Run(m, schedule))
    && ResponseOf(Run(a, schedule).store, x) == Some(r1) && ResponseOf(Run(m, schedule).store, x) == Some(r2)
    && RequestOf(Run(m, schedule).store, x) == Some(r)
  }

  /**
   The providers part on every mode whose upper-case spelling alone is passed on: for each such request with a
   usable callback URI and any two responses there is a run over both providers that ends with different responses.
   */
  lemma UnplainModesTellProvidersApart(x: Id, q: string, r: Request, r1: Response, r2: Response)
    returns (a: Sys, m: Sys, schedule: Schedule)
    requires !PlainMode(r.mode) && r.uri.Scheme?
    ensures RunsApart(a, m, schedule, x, q, r, r1, r2)
  {
    hide Upper, Run, AlwaysNew, Quiescent, ResponseOf, RequestOf;
    var threads := ThreeThreads(x, q, r, r1, r2);
    a, m := Sys(EMPTY_AEROSPIKE, threads, []), Sys(EMPTY_IN_MEMORY, threads, []);
    UpperOfUpper(r.mode);
    var sa, sm, sb: Schedule;
    schedule, sa := TwoCallbacks(a, x, q, r, r1, r2);
    sb, sm := TwoCallbacks(m, x, q, r, r1, r2);
  }

  /** A request whose responses the providers treat alike: its mode is plain, or its callback URI has no scheme. */
  predicate FairRequest(r: Request) {
    PlainMode(r.mode) || !r.uri.Scheme?
  }

  /**
   In every run side by side in which an id was saved with this request, the providers know the same response of it.
   */
  ghost predicate AlwaysAgree(r: Request) {
    forall a, m, schedule, x :: SideBySide(a, m, schedule) && SavedRequest(Run(m, schedule).log, x) == Some(r) ==>
      ResponseOf(Run(a, schedule).store, x) == ResponseOf(Run(m, schedule).store, x)
  }

  /** An id saved only while it is not stored is saved at most once. */
  lemma {:induction false} OnlySave(s: Sys, schedule: Schedule, x: Id, i: nat)
    requires Init(s) && SavedOnce(s, schedule, x)
    requires i < |Run(s, schedule).log| && SaveOf(Run(s, schedule).log[i], x)
    ensures SavedRequest(Run(s, schedule).log, x) == Some(Run(s, schedule).log[i].request)
    decreases |schedule|
  {
    hide Init, SavedOnce, SavedRequest, Act, Exists;
    if schedule == [] {
      NothingLogged(s);
    } else {
      var k := |schedule| - 1;
      var before, t, c := Run(s, schedule[..k]), schedule[k].0, schedule[k].1;
      SavedOnceFront(s, schedule, x);
      SavedIsStoredRun(s, schedule[..k], x);
      hide Run;
      if t !in before.threads {
        OnlySave(s, schedule[..k], x, i);
      } else {
        SavedRequestStep(before, t, c, x);
        EventsAreFew(before.store, t, before.threads[t], c);
        if i < |before.log| {
          OnlySave(s, schedule[..k], x, i);
        }
      }
    }
  }

  lemma NothingLogged(s: Sys)
    requires Init(s)
    ensures Run(s, []).log == []
  {
  }

  /** The providers always agree on the responses to a request exactly when it is fair. */
  lemma FairRequestsExactly(r: Request)
    ensures AlwaysAgree(r) <==> FairRequest(r)
  {
    hide Init, AlwaysNew, PlainMode, Run, SavedRequest, RequestOf, ResponseOf;
    if FairRequest(r) {
      forall a, m, schedule, x | SideBySide(a, m, schedule) && SavedRequest(Run(m, schedule).log, x) == Some(r)
        ensures ResponseOf(Run(a, schedule).store, x) == ResponseOf(Run(m, schedule).store, x)
      {
        FairRequestsAgree(a, m, schedule, x, r);
      }
    } else {
      var a, m, schedule := UnplainModesTellProvidersApart("x", "q", r, Response(200, 0), Response(200, 1));
      SavedIsStoredRun(m, schedule, "x");
      AerospikeRuns(m, schedule);
      InMemorySaves(Run(m, schedule), "x", r);
      assert SideBySide(a, m, schedule);
    }
  }

  lemma InMemorySaves(s: Sys, x: Id, r: Request)
    requires SavedIsStored(s, x) && s.store.InMemory? && RequestOf(s.store, x) == Some(r)
    ensures SavedRequest(s.log, x) == Some(r)
  {
    hide RequestOf, SavedRequest;
  }

  lemma FairRequestsAgree(a: Sys, m: Sys, schedule: Schedule, x: Id, r: Request)
    requires SideBySide(a, m, schedule) && SavedRequest(Run(m, schedule).log, x) == Some(r) && FairRequest(r)
    ensures ResponseOf(Run(a, schedule).store, x) == ResponseOf(Run(m, schedule).store, x)
  {
    hide Init, PlainMode, Run, SavedRequest, RequestOf, ResponseOf, AlwaysNew, LogTwin, ThreadTwin;
    var log := Run(m, schedule).log;
    TwinRun(a, m, schedule);
    AlwaysNewTwin(a, m, schedule);
    AlwaysNewAt(m, schedule, x);
    forall i | 0 <= i < |log| && SaveOf(log[i], x) ensures log[i].request == r {
      OnlySave(m, schedule, x, i);
    }
    assert FairId(log, x);
    assert StoreTwin(Run(a, schedule).store, Run(m, schedule).store, log, x);
  }

  lemma AlwaysNewAt(s: Sys, schedule: Schedule, x: Id)
    requires AlwaysNew(s, schedule)
    ensures SavedOnce(s, schedule, x)
  {
    hide SavedOnce;
  }

  /** Only the upper-case spelling of a mode can be the one that is passed on. */
  lemma UpperOfUpper(mode: string)
    requires !PlainMode(mode)
    ensures PassesOn(Upper(mode)) && !PassesOn(mode)
  {
    if mode == CALLBACK {
      UpperCallback();
    } else if mode == CALLBACK_SYNC {
      UpperCallbackSync();
    }
  }

  lemma {:induction false} UpperConcat(s: string, t: string)
    ensures Upper(s + t) == Upper(s) + Upper(t)
    decreases |s|
  {
    if s == "" {
      assert s + t == t;
    } else {
      assert (s + t)[1..] == s[1..] + t;
      UpperConcat(s[1..], t);
    }
  }

  lemma {:induction false} UpperOfCapitals(s: string)
    requires forall i :: 0 <= i < |s| ==> !('a' <= s[i] <= 'z')
    ensures Upper(s) == s
    decreases |s|
  {
    if s != "" {
      UpperOfCapitals(s[1..]);
    }
  }

  lemma UpperCallback()
    ensures Upper(CALLBACK) == CALLBACK
  {
    UpperOfCapitals(CALLBACK);
  }

  lemma UpperCallbackSync()
    ensures Upper(CALLBACK_SYNC) == CALLBACK_SYNC
  {
    hide Upper;
    UpperCallback();
    UpperOfCapitals("_SYNC");
    UpperConcat(CALLBACK, "_SYNC");
    assert CALLBACK_SYNC == CALLBACK + "_SYNC";
  }

  /** The plain modes are all but the other spellings of CALLBACK and CALLBACK_SYNC. */
  lemma PlainModesExactly(mode: string)
    ensures PlainMode(mode) <==>
      mode in {"CALLBACK", "CALLBACK_SYNC"} || Upper(mode) !in {"CALLBACK", "CALLBACK_SYNC"}
  {
    UpperCallback();
    UpperCallbackSync();
    hide Upper;
  }

  const ACCEPTED := Some(Response(202, 0))

  /**
   A downstream call answered by 202, its state not written yet, and not read yet either unless the write is split.
   */
  lemma AcceptedFirst(s0: Sys, x: Id, q: string, r: Request, split: bool) returns (schedule: Schedule, s: Sys)
    requires Init(s0) && 0 in s0.threads && s0.threads[0] == Submit(x, Some(q), r, false)
    requires AfterSubmit(s0.threads[0]).Check?
    ensures Reaches(s0, schedule, s) && (!split ==> Unsplit(schedule)) && s.store.InMemory? == s0.store.InMemory?
    ensures s.threads
      == s0.threads[0 := if split then WriteSeen(x, REQUESTED, RECEIVED, Stop) else SetState(x, REQUESTED, Stop)]
    ensures Exists(s.store, x) && RequestOf(s.store, x) == Some(Stored(s0.store, r))
    ensures StateOf(s.store, x) == Some(RECEIVED)
  {
    hide Exists, RequestOf, StateOf, ResponseOf, Stored, SaveResponse, WriteState, SetRequestState, Upper, Reaches,
      Init, PassesOn, AfterSubmit;
    schedule, s := Submitted(s0, x, q, r);
    schedule, s := Extend(s0, schedule, s, 0, Choice(ACCEPTED, false), x);
    if split {
      schedule, s := Extend(s0, schedule, s, 0, Choice(None, true), x);
    }
  }

  /** The requests that a submission sends downstream. */
  predicate Accepted(r: Request) {
    Upper(r.mode) == "POLLING" || (Upper(r.mode) in {"CALLBACK", "CALLBACK_SYNC"} && r.uri != NoUri)
  }

  lemma AcceptedIsChecked(th: Thread)
    requires th.Submit?
    ensures AfterSubmit(th).Check? <==> Accepted(th.request)
  {
    hide Upper;
  }

  lemma StartsOf(s: Sys, x: Id, q: string, r: Request, resp: Response, box: Option<string>, content: nat)
    requires s == Sys(EMPTY_AEROSPIKE, map[0 := Submit(x, Some(q), r, false), 1 := CallbackFetch(x, resp),
      2 := AckState(x), 3 := Persist(x, box, Request("POLLING", "POST", NoUri, content))], [])
    ensures Init(s) && s.store.Aerospike?
  {
  }

  /**
   Any request that is accepted in one of the three modes, and a downstream call answered by 202 whose state is written
   after the downstream callback has been saved and handled.  The late REQUESTED replaces RESPONDED in memory, and over
   Aerospike exactly when `setRequestState` is split and read the state before the callback.
   */
  lemma LateAcceptance(s0: Sys, x: Id, q: string, r: Request, resp: Response, split: bool)
    returns (schedule: Schedule, s: Sys)
    requires Init(s0) && s0.threads == map[0 := Submit(x, Some(q), r, false), 1 := CallbackFetch(x, resp)]
    requires Accepted(r)
    ensures Reaches(s0, schedule, s) && Quiescent(s) && (!split ==> Unsplit(schedule))
    ensures ResponseOf(s.store, x) == Some(resp)
    ensures StateOf(s.store, x) == Some(if s.store.InMemory? || split then REQUESTED else RESPONDED)
    ensures s.store.InMemory? == s0.store.InMemory?
  {
    hide Exists, RequestOf, StateOf, ResponseOf, Stored, SaveResponse, WriteState, SetRequestState, Upper, Reaches,
      Init, PassesOn, AfterSubmit;
    var stored := Stored(s0.store, r);
    AcceptedIsChecked(s0.threads[0]);
    schedule, s := AcceptedFirst(s0, x, q, r, split);
    schedule, s := CallbackBegins(s0, schedule, s, 1, x, stored, resp);
    schedule, s := CallbackEnds(s0, schedule, s, 1, x, stored, resp);
    LateWrite(s.store, x);
    schedule, s := Extend(s0, schedule, s, 0, GO, x);
  }

  lemma RunMore(s0: Sys, schedule: Schedule, t: Tid, c: Choice)
    ensures Run(s0, schedule + [(t, c)]) == Step(Run(s0, schedule), t, c)
  {
    assert (schedule + [(t, c)])[..|schedule|] == schedule;
  }

  /** A request whose downstream call failed and whose downstream callback was saved and handled. */
  lemma Answered(s0: Sys, x: Id, q: string, r: Request, resp: Response) returns (schedule: Schedule, s: Sys)
    requires Init(s0) && {0, 1} <= s0.threads.Keys
    requires s0.threads[0] == Submit(x, Some(q), r, false) && AfterSubmit(s0.threads[0]).Check?
    requires s0.threads[1] == CallbackFetch(x, resp)
    ensures Reaches(s0, schedule, s) && Unsplit(schedule) && s.store.Aerospike? == s0.store.Aerospike?
    ensures s.threads == s0.threads[0 := Done][1 := Done]
    ensures Exists(s.store, x) && RequestOf(s.store, x).Some? && StateOf(s.store, x) == Some(RESPONDED)
  {
    hide Exists, RequestOf, StateOf, ResponseOf, Stored, SaveResponse, WriteState, SetRequestState, Upper, Reaches,
      Init, PassesOn, AfterSubmit;
    var stored := Stored(s0.store, r);
    schedule, s := GivenUp(s0, x, q, r);
    schedule, s := CallbackBegins(s0, schedule, s, 1, x, stored, resp);
    schedule, s := CallbackEnds(s0, schedule, s, 1, x, stored, resp);
  }

  /** A request answered, and an acknowledgement that has read its state and not yet written READ. */
  lemma Acknowledging(s0: Sys, x: Id, q: string, r: Request, resp: Response) returns (schedule: Schedule, s: Sys)
    requires Init(s0) && {0, 1, 2} <= s0.threads.Keys
    requires s0.threads[0] == Submit(x, Some(q), r, false) && AfterSubmit(s0.threads[0]).Check?
    requires s0.threads[1] == CallbackFetch(x, resp) && s0.threads[2] == AckState(x)
    ensures Reaches(s0, schedule, s) && Unsplit(schedule) && s.store.Aerospike? == s0.store.Aerospike?
    ensures s.threads == s0.threads[0 := Done][1 := Done][2 := SetState(x, READ, Stop)]
    ensures Exists(s.store, x) && StateOf(s.store, x) == Some(RESPONDED)
  {
    hide Exists, RequestOf, StateOf, ResponseOf, Stored, SaveResponse, WriteState, SetRequestState, Upper, Reaches,
      Init, PassesOn, AfterSubmit;
    schedule, s := Answered(s0, x, q, r, resp);
    schedule, s := Extend(s0, schedule, s, 2, GO, x);
    schedule, s := Extend(s0, schedule, s, 2, GO, x);
  }

  /**
   That an id is saved once is needed for acknowledgements to leave no trace over Aerospike: when the request is saved
   again between the read and the write of an acknowledgement, READ is written and stays.
   */
  lemma ReadAfterAnotherSave(x: Id, q: string, r: Request, resp: Response, box: Option<string>, content: nat)
    returns (s0: Sys, schedule: Schedule)
    requires Accepted(r)
    ensures Init(s0) && s0.store.Aerospike?
    ensures s0.threads
      == map[0 := Submit(x, Some(q), r, false), 1 := CallbackFetch(x, resp), 2 := AckState(x),
             3 := Persist(x, box, Request("POLLING", "POST", NoUri, content))]
    ensures Unsplit(schedule) && Quiescent(Run(s0, schedule)) && StateOf(Run(s0, schedule).store, x) == Some(READ)
  {
    hide *;
    var again := Request("POLLING", "POST", NoUri, content);
    s0 := Sys(EMPTY_AEROSPIKE, map[0 := Submit(x, Some(q), r, false), 1 := CallbackFetch(x, resp), 2 := AckState(x),
      3 := Persist(x, box, again)], []);
    StartsOf(s0, x, q, r, resp, box, content);
    AcceptedIsChecked(s0.threads[0]);
    var before: Schedule, s;
    before, s := Acknowledging(s0, x, q, r, resp);
    RunMore(s0, before, 3, GO);
    RunMore(s0, before + [(3, GO)], 2, GO);
    schedule := before + [(3, GO)] + [(2, GO)];
    Reached(s0, before, s);
    SavedAndRead(s, x, box, again);
    UnsplitMore(before, 3);
    UnsplitMore(before + [(3, GO)], 2);
  }

  lemma Reached(s0: Sys, schedule: Schedule, s: Sys)
    requires Reaches(s0, schedule, s)
    ensures Run(s0, schedule) == s
  {
  }

  lemma UnsplitMore(schedule: Schedule, t: Tid)
    requires Unsplit(schedule)
    ensures Unsplit(schedule + [(t, GO)])
  {
  }

  /** Another save of a request between the read and the write of its acknowledgement. */
  lemma SavedAndRead(s: Sys, x: Id, box: Option<string>, again: Request)
    requires s.store.Aerospike? && Exists(s.store, x)
    requires s.threads == map[0 := Done, 1 := Done, 2 := SetState(x, READ, Stop), 3 := Persist(x, box, again)]
    ensures var u := Step(Step(s, 3, GO), 2, GO); Quiescent(u) && StateOf(u.store, x) == Some(READ)
  {
    hide Exists, RequestOf, StateOf, ResponseOf, SaveRequest, SetRequestState, Stored;
    SaveRequestEffect(s.store, x, box, again, x);
    SetUnguarded(SaveRequest(s.store, x, box, again), x);
  }

  lemma SetUnguarded(s: Store, x: Id)
    requires s.Aerospike? && Exists(s, x) && StateOf(s, x) == Some(RECEIVED)
    ensures SetRequestState(s, x, READ).Ok? && StateOf(SetRequestState(s, x, READ).value, x) == Some(READ)
  {
  }

  lemma LateWrite(s: Store, x: Id)
    requires Exists(s, x) && StateOf(s, x) == Some(RESPONDED)
    ensures SetRequestState(s, x, REQUESTED).Ok?
    ensures StateOf(SetRequestState(s, x, REQUESTED).value, x) == Some(if s.InMemory? then REQUESTED else RESPONDED)
    ensures StateOf(WriteState(s, x, REQUESTED, RECEIVED), x) == Some(REQUESTED)
  {
  }
}
