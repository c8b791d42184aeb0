/** What acknowledgements and completions come to, alone and among other threads. */
module MailboxAcks {
  import opened Wrappers
  import opened MailboxStore
  import opened MailboxProtocol
  import opened MailboxSafety
  import opened MailboxAccounting

  // Alone

  /** Three steps of one thread. */
  function Alone(s: Sys, t: Tid, c: Choice): Sys {
    Step(Step(Step(s, t, c), t, c), t, c)
  }

  /** Whether the store refuses to write a state. */
  predicate Guards(s: Store, x: Id) {
    s.Aerospike? && StateOf(s, x) == Some(RESPONDED)
  }

  /**
   A downstream call that is answered: REQUESTED after a 202 or for a caller that waits, without a response; otherwise
   the response is stored and the request RESPONDED, also when the status was an error.
   */
  lemma CompletionAlone(s: Sys, t: Tid, r: Response)
    requires Inv(s) && t in s.threads && s.threads[t].Await?
    ensures var x, kind := s.threads[t].id, s.threads[t].kind;
      var u := Alone(s, t, Choice(Some(r), false));
      if kind.Async? && r.status != 202 then
        StateOf(u.store, x) == Some(RESPONDED) && ResponseOf(u.store, x) == Some(r)
      else
        StateOf(u.store, x) == Some(if Guards(s.store, x) then RESPONDED else REQUESTED)
        && ResponseOf(u.store, x) == ResponseOf(s.store, x)
  {
    hide Inv, Known;
    NeedsOfStep(s, t);
    AwaitAlone(s.store, t, s.threads[t], r);
  }

  /** Some number of steps of one thread. */
  function AloneFor(s: Sys, t: Tid, c: Choice, n: nat): Sys {
    if n == 0 then s else Step(AloneFor(s, t, c, n - 1), t, c)
  }

  lemma {:induction false} AloneInTwo(s: Sys, t: Tid, c: Choice, m: nat, n: nat)
    ensures AloneFor(s, t, c, m + n) == AloneFor(AloneFor(s, t, c, m), t, c, n)
    decreases n
  {
    hide Step;
    if n > 0 {
      AloneInTwo(s, t, c, m, n - 1);
    }
  }

  lemma {:induction false} InvAlone(s: Sys, t: Tid, c: Choice, n: nat)
    requires Inv(s)
    ensures Inv(AloneFor(s, t, c, n))
  {
    hide Inv, Step;
    if n > 0 {
      InvAlone(s, t, c, n - 1);
      InvStep(AloneFor(s, t, c, n - 1), t, c);
    }
  }

  lemma ThreeAlone(s: Sys, t: Tid, c: Choice)
    ensures AloneFor(s, t, c, 3) == Alone(s, t, c)
  {
    hide Step;
    assert AloneFor(s, t, c, 0) == s && AloneFor(s, t, c, 1) == Step(s, t, c);
  }

  /** Whether a submission is accepted, and if so whether its downstream call is waited for, by mode and URI. */
  predicate WaitsFor(r: Request) {
    Upper(r.mode) == "CALLBACK_SYNC" && r.uri != NoUri
  }

  predicate GoesOn(r: Request) {
    Upper(r.mode) == "POLLING" || (Upper(r.mode) == "CALLBACK" && r.uri != NoUri)
  }

  /**
   The state is written before the response: of an answer to an API that is not asynchronous downstream, RESPONDED for
   a 200 and ERROR for any other but a 202.
   */
  lemma CompletionSetsStateFirst(s: Sys, t: Tid, r: Response)
    requires Inv(s) && t in s.threads && s.threads[t].Await? && !Guards(s.store, s.threads[t].id)
    ensures var x, kind := s.threads[t].id, s.threads[t].kind;
      var c := Choice(Some(r), false);
      var u := Step(Step(s, t, c), t, c);
      StateOf(u.store, x) ==
        Some(if kind.Sync? || r.status == 202 then REQUESTED
             else if r.status == 200 || kind.downstream then RESPONDED else ERROR)
      && ResponseOf(u.store, x) == ResponseOf(s.store, x)
      && (u.threads[t].Answer? <==> kind.Async? && r.status != 202)
  {
    hide Inv;
    NeedsOfStep(s, t);
    var x, c := s.threads[t].id, Choice(Some(r), false);
    var one := Step(s, t, c);
    hide Exists, RequestOf, StateOf, ResponseOf, WriteState;
    KnownIsSet(s.store, x, one.threads[t].state);
    WriteStateEffect(s.store, x, one.threads[t].state, StateOf(s.store, x).GetOr(UNKNOWN), x);
  }

  lemma AwaitAlone(s: Store, t: Tid, th: Thread, r: Response)
    requires th.Await? && Known(s, th.id)
    ensures var x, c := th.id, Choice(Some(r), false);
      var one := Act(s, t, th, c);
      var two := Act(one.store, t, one.thread, c);
      var u := Act(two.store, t, two.thread, c).store;
      if th.kind.Async? && r.status != 202 then StateOf(u, x) == Some(RESPONDED) && ResponseOf(u, x) == Some(r)
      else StateOf(u, x) == Some(if Guards(s, x) then RESPONDED else REQUESTED) && ResponseOf(u, x) == ResponseOf(s, x)
  {
    var c := Choice(Some(r), false);
    var one := Act(s, t, th, c);
    var two := Act(one.store, t, one.thread, c);
    assert one.store == s && one.thread.SetState? && Known(two.store, th.id);
    hide Exists, RequestOf, WriteState, SaveResponse;
    WriteStateEffect(s, th.id, one.thread.state, StateOf(s, th.id).GetOr(UNKNOWN), th.id);
    if two.thread.Answer? {
      SaveResponseEffect(two.store, th.id, r, th.id);
    }
  }

  /** A submission until its downstream call is out: nothing happens when it is refused or its id is stored. */
  lemma SubmitAlone(s: Sys, t: Tid, c: Choice)
    requires t in s.threads && s.threads[t].Submit?
    ensures var th := s.threads[t];
      var u, kind := AloneFor(s, t, c, 4), if WaitsFor(th.request) then Sync else Async(th.downstream);
      if !WaitsFor(th.request) && !GoesOn(th.request) then u == s.(threads := s.threads[t := Done])
      else if Exists(s.store, th.id) then
        u == Sys(s.store, s.threads[t := Done], s.log + [Checked(t, th.id, true)])
      else
        u == Sys(SaveRequest(s.store, th.id, th.mailbox, th.request),
                 s.threads[t := Await(th.id, th.request, kind)],
                 s.log + [Checked(t, th.id, false), Saved(t, th.id, th.mailbox, th.request), Dispatched(t, th.id)])
  {
    hide Upper, Exists, SaveRequest, AloneFor;
    var th := s.threads[t];
    var one := Step(s, t, c);
    FourAlone(s, t, c);
    if WaitsFor(th.request) || GoesOn(th.request) {
      var kind := if WaitsFor(th.request) then Sync else Async(th.downstream);
      assert one == s.(threads := s.threads[t := Check(th.id, th.mailbox, th.request, kind)]);
      CheckAlone(one, t, c);
    } else {
      assert one == s.(threads := s.threads[t := Done]);
      hide Step;
      DoneStays(one, t, c, 3);
      ThreeAlone(one, t, c);
    }
  }

  lemma FourAlone(s: Sys, t: Tid, c: Choice)
    ensures AloneFor(s, t, c, 4) == Alone(Step(s, t, c), t, c)
  {
    hide Step;
    ThreeAlone(s, t, c);
  }

  lemma CheckAlone(s: Sys, t: Tid, c: Choice)
    requires t in s.threads && s.threads[t].Check?
    ensures var th := s.threads[t];
      Alone(s, t, c) ==
        if Exists(s.store, th.id) then Sys(s.store, s.threads[t := Done], s.log + [Checked(t, th.id, true)])
        else
          Sys(SaveRequest(s.store, th.id, th.mailbox, th.request),
              s.threads[t := Await(th.id, th.request, th.kind)],
              s.log + [Checked(t, th.id, false), Saved(t, th.id, th.mailbox, th.request), Dispatched(t, th.id)])
  {
    hide Exists, SaveRequest;
  }

  /** What the three steps of a completion leave of its thread and log. */
  lemma CompletionLogs(s: Sys, t: Tid, r: Response)
    requires Inv(s) && t in s.threads && s.threads[t].Await?
    ensures var th, u := s.threads[t], Alone(s, t, Choice(Some(r), false));
      var answers := th.kind.Async? && r.status != 202;
      var handles := answers && th.request.mode == "CALLBACK";
      u.threads == s.threads[t := if handles then HandleFetch(th.id, r) else Done]
      && u.log == s.log + [Completed(t, th.id, th.request.mode, th.kind, r.status)]
                  + if handles then [Handled(t, th.id)] else []
  {
    hide Inv, Exists, RequestOf, StateOf, WriteState, SaveResponse;
    NeedsOfStep(s, t);
    var c := Choice(Some(r), false);
    var one := Step(s, t, c);
    KnownIsSet(one.store, s.threads[t].id, one.threads[t].state);
  }

  lemma KnownIsSet(s: Store, x: Id, state: State)
    requires Known(s, x)
    ensures SetRequestState(s, x, state).Ok?
  {
  }

  /** The handler ends after three steps and logs nothing. */
  lemma HandlerEnds(s: Sys, t: Tid, c: Choice)
    requires t in s.threads && s.threads[t].HandleFetch?
    ensures Alone(s, t, c).threads == s.threads[t := Done] && Alone(s, t, c).log == s.log
  {
    hide Exists, RequestOf, StateOf, SaveResponse;
  }

  lemma DoneStays(s: Sys, t: Tid, c: Choice, n: nat)
    requires t in s.threads && s.threads[t].Done?
    ensures AloneFor(s, t, c, n) == s
  {
    if n > 0 {
      DoneStays(s, t, c, n - 1);
      assert s.log + [] == s.log;
    }
  }

  /**
   A submission alone, with a downstream call that is answered.  In the mode POLLING, and in CALLBACK with a URI, it
   ends RESPONDED with that response, unless the answer is a 202; in CALLBACK_SYNC with a URI, and after a 202, it ends
   REQUESTED without one.  In any other mode, or for an id that is stored, nothing is sent and nothing changes.
   */
  lemma SubmissionAlone(s: Sys, t: Tid, r: Response)
    requires Inv(s) && t in s.threads && s.threads[t].Submit?
    ensures var th, u := s.threads[t], AloneFor(s, t, Choice(Some(r), false), 10);
      var x, mode, hasUri := th.id, Upper(th.request.mode), th.request.uri != NoUri;
      var goesOn, waits := mode == "POLLING" || (mode == "CALLBACK" && hasUri), mode == "CALLBACK_SYNC" && hasUri;
      u.threads == s.threads[t := Done]
      && if !goesOn && !waits then u.store == s.store && u.log == s.log
         else if Exists(s.store, x) then u.store == s.store && u.log == s.log + [Checked(t, x, true)]
         else
           RequestOf(u.store, x) == Some(Stored(s.store, th.request))
           && (if goesOn && r.status != 202
               then StateOf(u.store, x) == Some(RESPONDED) && ResponseOf(u.store, x) == Some(r)
               else StateOf(u.store, x) == Some(REQUESTED) && ResponseOf(u.store, x) == ResponseOf(s.store, x))
           && u.log == s.log
                + [Checked(t, x, false), Saved(t, x, th.mailbox, th.request), Dispatched(t, x),
                   Completed(t, x, th.request.mode, if waits then Sync else Async(th.downstream), r.status)]
                + if goesOn && r.status != 202 && th.request.mode == "CALLBACK" then [Handled(t, x)] else []
  {
    hide Inv, Step, Alone, Upper, Exists, RequestOf, StateOf, ResponseOf, SaveRequest, Stored, AloneFor;
    var th, c := s.threads[t], Choice(Some(r), false);
    var four := AloneFor(s, t, c, 4);
    AloneInTwo(s, t, c, 4, 6);
    AloneInTwo(four, t, c, 3, 3);
    SubmitAlone(s, t, c);
    if four.threads[t].Done? {
      DoneStays(four, t, c, 6);
    } else {
      var seven := AloneFor(four, t, c, 3);
      InvAlone(s, t, c, 4);
      ThreeAlone(four, t, c);
      SaveRequestEffect(s.store, th.id, th.mailbox, th.request, th.id);
      CompletionAlone(four, t, r);
      CompletionLogs(four, t, r);
      RequestKept(four, t, c);
      if seven.threads[t].Done? {
        DoneStays(seven, t, c, 3);
      } else {
        InvAlone(four, t, c, 3);
        ThreeAlone(seven, t, c);
        HandlerAlone(seven, t, c);
        HandlerEnds(seven, t, c);
        RequestKept(seven, t, c);
      }
    }
  }

  /** The request stays as it is while its completion and its handler run. */
  lemma RequestKept(s: Sys, t: Tid, c: Choice)
    requires Inv(s) && t in s.threads && (s.threads[t].Await? || s.threads[t].HandleFetch?)
    ensures var x := s.threads[t].id; RequestOf(Alone(s, t, c).store, x) == RequestOf(s.store, x)
  {
    hide Inv, RequestOf, Act;
    var x, one := s.threads[t].id, Step(s, t, c);
    var two := Step(one, t, c);
    InvStep(s, t, c);
    InvStep(one, t, c);
    SavesNoMore(s.store, t, s.threads[t], c);
    SavesNoMore(one.store, t, one.threads[t], c);
    RequestStays(s, t, c, x);
    RequestStays(one, t, c, x);
    RequestStays(two, t, c, x);
  }

  predicate PastSaving(th: Thread) {
    !th.Submit? && !th.Check? && !th.Save? && !th.Persist?
  }

  lemma SavesNoMore(s: Store, t: Tid, th: Thread, c: Choice)
    requires PastSaving(th)
    ensures PastSaving(Act(s, t, th, c).thread)
  {
    hide Exists, RequestOf, StateOf, WriteState, SetRequestState, SaveResponse;
  }

  lemma RequestStays(s: Sys, t: Tid, c: Choice, x: Id)
    requires Inv(s) && t in s.threads && PastSaving(s.threads[t])
    ensures RequestOf(Step(s, t, c).store, x) == RequestOf(s.store, x)
  {
    hide Inv, RequestOf, Act;
    NeedsOfStep(s, t);
    ActOnReads(s.store, t, s.threads[t], c, x);
  }

  /**
   An acknowledgement marks an answered request as read in memory; over Aerospike it leaves a RESPONDED one as it is.
   */
  lemma AckAlone(s: Sys, t: Tid, c: Choice)
    requires Inv(s) && t in s.threads && s.threads[t].AckState? && !c.split
    ensures var x := s.threads[t].id;
      var state, u := StateOf(s.store, x), Alone(s, t, c);
      StateOf(u.store, x) ==
        if state == Some(ERROR) || (state == Some(RESPONDED) && s.store.InMemory?) then Some(READ) else state
  {
    hide ThreadsFit, StatesFit;
  }

  /** The handler saves the response once more exactly when the callback URI has a scheme, whichever that is. */
  lemma HandlerAlone(s: Sys, t: Tid, c: Choice)
    requires Inv(s) && t in s.threads && s.threads[t].HandleFetch?
    ensures var x, r, u := s.threads[t].id, s.threads[t].response, Alone(s, t, c);
      RequestOf(s.store, x).Some?
      && if RequestOf(s.store, x).value.uri.Scheme?
         then StateOf(u.store, x) == Some(RESPONDED) && ResponseOf(u.store, x) == Some(r)
         else u.store == s.store
  {
    hide Complete, StatesFit, Answered;
    NeedsOfStep(s, t);
  }

  /** A downstream callback is stored when its request is known, whatever state that is in, and refused otherwise. */
  lemma CallbackAlone(s: Sys, t: Tid, c: Choice)
    requires Inv(s) && t in s.threads && s.threads[t].CallbackFetch?
    ensures var x, r, u := s.threads[t].id, s.threads[t].response, Step(Step(s, t, c), t, c);
      var request := RequestOf(s.store, x);
      if request.None? then u.store == s.store && u.threads[t].Done?
      else
        StateOf(u.store, x) == Some(RESPONDED) && ResponseOf(u.store, x) == Some(r)
        && (u.threads[t].HandleFetch? <==>
              request.value.mode in {"CALLBACK", "CALLBACK_SYNC"} && request.value.uri != NoUri)
  {
    hide StatesFit, ThreadsFit;
  }

  /**
   Threads that find no state of their id end there, over Aerospike also those about to set one, and so do those that
   find no request.
   */
  lemma UnknownIdsAreLeft(s: Store, t: Tid, th: Thread, c: Choice)
    requires
      || ((th.HandleState? || th.AckState? || (th.SetState? && s.Aerospike?)) && StateOf(s, th.id).None?)
      || ((th.HandleFetch? || th.AckFetch? || th.CallbackFetch?) && RequestOf(s, th.id).None?)
    ensures Act(s, t, th, c) == Effect(s, Done, [])
  {
  }

  // Among other threads

  ghost predicate Settled(s: Sys, x: Id) {
    StateOf(s.store, x) == Some(RESPONDED) || Windowed(s, x)
  }

  /** READ only occurs while a completion is about to answer; who acknowledges finds the request settled. */
  ghost predicate AckFits(s: Sys, x: Id) {
    (StateOf(s.store, x) == Some(READ) ==> Windowed(s, x))
    && forall t :: t in s.threads && Acknowledges(s.threads[t]) && s.threads[t].id == x ==> Settled(s, x)
  }

  /** Over Aerospike without split writes, a step by a thread that does not save `x` anew. */
  ghost predicate Guarded(s: Sys, t: Tid, c: Choice, x: Id) {
    Inv(s) && s.store.Aerospike? && NoneSplit(s) && !c.split && SavesNew(s, t, x)
  }

  lemma RespondedStays(s: Sys, t: Tid, c: Choice, x: Id)
    requires Guarded(s, t, c, x) && StateOf(s.store, x) == Some(RESPONDED)
    ensures StateOf(Step(s, t, c).store, x) == Some(RESPONDED)
  {
    hide Act, ThreadsFit, StatesFit, StateOf, Exists, RequestOf, ResponseOf;
    assert Exists(s.store, x);
    if StateOf(Step(s, t, c).store, x) != Some(RESPONDED) {
      GuardedStep(s, t, c, x);
    }
  }

  lemma WindowCloses(s: Sys, t: Tid, c: Choice, x: Id)
    requires Guarded(s, t, c, x) && Windowed(s, x)
    ensures Windowed(Step(s, t, c), x) || StateOf(Step(s, t, c).store, x) == Some(RESPONDED)
  {
    hide Act, StateOf, Exists, RequestOf, ResponseOf, Complete, StatesFit, Stored;
    var w :| w in s.threads && InWindow(s.threads[w], x);
    if w == t {
      NeedsOfStep(s, t);
      ActOnReads(s.store, t, s.threads[t], c, x);
    } else {
      assert InWindow(Step(s, t, c).threads[w], x);
    }
  }

  lemma SettledStays(s: Sys, t: Tid, c: Choice, x: Id)
    requires Guarded(s, t, c, x) && Settled(s, x)
    ensures Settled(Step(s, t, c), x)
  {
    hide Step, Guarded, Windowed, StateOf;
    if Windowed(s, x) {
      WindowCloses(s, t, c, x);
    } else {
      RespondedStays(s, t, c, x);
    }
  }

  /** A thread that comes to acknowledge was doing so, or has just read a final state. */
  lemma ComesToAcknowledge(s: Sys, t: Tid, c: Choice)
    requires t in s.threads && Acknowledges(Act(s.store, t, s.threads[t], c).thread)
    ensures var th, th' := s.threads[t], Act(s.store, t, s.threads[t], c).thread;
      th'.id == (if th.Done? then "" else th.id)
      && (Acknowledges(th) || (th.AckState? && StateOf(s.store, th.id) in {Some(RESPONDED), Some(ERROR)}))
  {
    hide RequestOf, StateOf, SaveRequest, WriteState, SaveResponse, SetRequestState, Exists;
  }

  lemma AckFitsStep(s: Sys, t: Tid, c: Choice, x: Id)
    requires Guarded(s, t, c, x) && AckFits(s, x) && t in s.threads
    ensures AckFits(Step(s, t, c), x)
  {
    hide Act, StateOf, Exists, RequestOf, ResponseOf, Complete, StatesFit, Stored, Settled, Windowed;
    var s', th := Step(s, t, c), s.threads[t];
    forall u | u in s'.threads && Acknowledges(s'.threads[u]) && s'.threads[u].id == x ensures Settled(s', x) {
      if u == t {
        ComesToAcknowledge(s, t, c);
        if !Acknowledges(th) {
          FinalIsSettled(s, x);
        }
      }
      SettledStays(s, t, c, x);
    }
    if StateOf(s'.store, x) == Some(READ) {
      ReadIsWindowed(s, t, c, x);
    }
  }

  lemma FinalIsSettled(s: Sys, x: Id)
    requires Inv(s) && StateOf(s.store, x) in {Some(RESPONDED), Some(ERROR)}
    ensures Settled(s, x)
  {
    hide Complete, ThreadsFit, StateOf, Windowed;
    assert StatesFit(s, x);
  }

  lemma ReadIsWindowed(s: Sys, t: Tid, c: Choice, x: Id)
    requires Guarded(s, t, c, x) && AckFits(s, x) && t in s.threads && StateOf(Step(s, t, c).store, x) == Some(READ)
    ensures Windowed(Step(s, t, c), x)
  {
    hide Act, StateOf, Exists, RequestOf, ResponseOf, Complete, StatesFit, Stored, Windowed, ThreadsFit;
    NeedsOfStep(s, t);
    ActOnReads(s.store, t, s.threads[t], c, x);
    if StateOf(s.store, x) == Some(RESPONDED) {
      RespondedStays(s, t, c, x);
    } else {
      assert Windowed(s, x);
      WindowCloses(s, t, c, x);
    }
  }

  lemma {:induction false} AckFitsRun(s: Sys, schedule: Schedule, x: Id)
    requires Init(s) && s.store.Aerospike? && Unsplit(schedule) && SavedOnce(s, schedule, x)
    ensures AckFits(Run(s, schedule), x)
    decreases |schedule|
  {
    hide Inv, Init, Step, AckFits, SavedOnce, SavesNew, NoneSplit;
    if schedule == [] {
      AckFitsInit(s, x);
    } else {
      var k := |schedule| - 1;
      var before := Run(s, schedule[..k]);
      assert Unsplit(schedule[..k]);
      SavedOnceFront(s, schedule, x);
      AckFitsRun(s, schedule[..k], x);
      InvRun(s, schedule[..k]);
      AerospikeRuns(s, schedule[..k]);
      UnsplitRun(s, schedule[..k]);
      hide Run;
      if schedule[k].0 in before.threads {
        AckFitsStep(before, schedule[k].0, schedule[k].1, x);
      } else {
        Stutter(before, schedule[k].0, schedule[k].1);
      }
    }
  }

  lemma AckFitsInit(s: Sys, x: Id)
    requires Init(s)
    ensures AckFits(s, x)
  {
  }

  /**
   Over Aerospike, with `setRequestState` taken as one step, acknowledgements leave no trace: at rest no request that
   was saved once is READ, whatever acknowledgements ran and when.
   */
  lemma AcksDoNotLast(s: Sys, schedule: Schedule, x: Id)
    requires Init(s) && s.store.Aerospike? && Unsplit(schedule) && SavedOnce(s, schedule, x)
    requires Quiescent(Run(s, schedule))
    ensures StateOf(Run(s, schedule).store, x) != Some(READ)
  {
    hide Run, Init, SavedOnce, StateOf;
    AckFitsRun(s, schedule, x);
  }
}
