/** What every step of the mailbox protocol keeps, over either provider and in every interleaving. */
module MailboxSafety {
  import opened Wrappers
  import opened MailboxStore
  import opened MailboxProtocol

  // What a step does to the reads of the store

  predicate SavesRequest(th: Thread, x: Id) {
    (th.Save? || th.Persist?) && th.id == x
  }

  predicate SavesResponse(th: Thread, x: Id) {
    (th.Answer? || th.HandleSave? || th.CallbackSave?) && th.id == x
  }

  predicate WritesState(th: Thread, x: Id) {
    (th.SetState? || th.WriteSeen?) && th.id == x
  }

  /** The threads that run for an id known to the store. */
  predicate Needs(th: Thread) {
    !th.Done? && !th.Submit? && !th.Check? && !th.Save? && !th.CallbackFetch? && !th.AckState? && !th.Persist?
  }

  predicate Known(s: Store, x: Id) {
    Exists(s, x) && RequestOf(s, x).Some? && StateOf(s, x).Some?
  }

  ghost predicate Complete(s: Store) {
    forall x ::
      (Exists(s, x) ==> Known(s, x))
      && (!Exists(s, x) ==> RequestOf(s, x).None? && StateOf(s, x).None? && ResponseOf(s, x).None?)
  }

  lemma ActOnReads(s: Store, t: Tid, th: Thread, c: Choice, x: Id)
    requires Needs(th) ==> Known(s, th.id)
    ensures var s' := Act(s, t, th, c).store;
      && s'.Aerospike? == s.Aerospike?
      && (Exists(s', x) == (Exists(s, x) || SavesRequest(th, x)))
      && (RequestOf(s', x) == if SavesRequest(th, x) then Some(Stored(s, th.request)) else RequestOf(s, x))
      && (ResponseOf(s', x) == if SavesResponse(th, x) then Some(th.response) else ResponseOf(s, x))
      && (StateOf(s', x) == StateOf(s, x)
          || (SavesRequest(th, x) && StateOf(s', x) == Some(RECEIVED))
          || (SavesResponse(th, x) && StateOf(s', x) == Some(RESPONDED))
          || (WritesState(th, x) && StateOf(s', x) == Some(th.state)
              && Act(s, t, th, c).thread == AfterState(th.id, th.next)))
      && (SavesRequest(th, x) ==> StateOf(s', x) == Some(RECEIVED))
      && (SavesResponse(th, x) ==> StateOf(s', x) == Some(RESPONDED))
  {
    hide Exists, RequestOf, StateOf, ResponseOf, SaveRequest, WriteState, SaveResponse, Stored;
    match th
    case Save(id, mailbox, r, _) => SaveRequestEffect(s, id, mailbox, r, x);
    case Persist(id, mailbox, r) => SaveRequestEffect(s, id, mailbox, r, x);
    case SetState(id, state, _) => WriteStateEffect(s, id, state, StateOf(s, id).GetOr(UNKNOWN), x);
    case WriteSeen(id, state, seen, _) => WriteStateEffect(s, id, state, seen, x);
    case Answer(id, r, _) => SaveResponseEffect(s, id, r, x);
    case HandleSave(id, r) => SaveResponseEffect(s, id, r, x);
    case CallbackSave(id, r, _) => SaveResponseEffect(s, id, r, x);
    case _ =>
  }

  // The invariant

  predicate InWindow(th: Thread, x: Id) {
    th.Answer? && th.id == x
  }

  ghost predicate Windowed(s: Sys, x: Id) {
    exists t :: t in s.threads && InWindow(s.threads[t], x)
  }

  ghost predicate Answered(s: Sys, x: Id) {
    ResponseOf(s.store, x).Some? || Windowed(s, x)
  }

  /** The threads that read a final state and are about to mark the request as read. */
  predicate Acknowledges(th: Thread) {
    th.AckFetch? || ((th.SetState? || th.WriteSeen?) && th.state == READ)
  }

  predicate WellShaped(th: Thread) {
    th.SetState? || th.WriteSeen? ==>
      if th.next.Stop? then th.state == REQUESTED || th.state == READ else th.state == RESPONDED || th.state == ERROR
  }

  ghost predicate ThreadsFit(s: Sys) {
    forall t :: t in s.threads ==>
      var th := s.threads[t];
      WellShaped(th) && (Needs(th) ==> Known(s.store, th.id)) && (Acknowledges(th) ==> Answered(s, th.id))
  }

  ghost predicate StatesFit(s: Sys, x: Id) {
    && (StateOf(s.store, x) == Some(RESPONDED) || StateOf(s.store, x) == Some(READ) ==> Answered(s, x))
    && (StateOf(s.store, x) == Some(ERROR) ==> Windowed(s, x))
  }

  ghost predicate Inv(s: Sys) {
    Complete(s.store) && ThreadsFit(s) && forall x :: StatesFit(s, x)
  }

  lemma InvInit(s: Sys)
    requires Init(s)
    ensures Inv(s)
  {
  }

  lemma CompleteStep(s: Sys, t: Tid, c: Choice)
    requires Inv(s) && t in s.threads
    ensures Complete(Step(s, t, c).store)
  {
    hide Act, Exists, RequestOf, StateOf, ResponseOf, StatesFit, Answered, Windowed, Stored;
    var s', th := Step(s, t, c), s.threads[t];
    forall x ensures Exists(s'.store, x) ==> Known(s'.store, x)
      ensures !Exists(s'.store, x) ==>
        RequestOf(s'.store, x).None? && StateOf(s'.store, x).None? && ResponseOf(s'.store, x).None?
    {
      ActOnReads(s.store, t, th, c, x);
    }
  }

  /** A response once stored, and a window once open, leave the request answered. */
  lemma AnsweredStays(s: Sys, t: Tid, c: Choice, x: Id)
    requires Inv(s) && t in s.threads && Answered(s, x)
    ensures Answered(Step(s, t, c), x)
  {
    hide Act, Exists, RequestOf, StateOf, ResponseOf, StatesFit, Stored, Complete;
    var s', th := Step(s, t, c), s.threads[t];
    ActOnReads(s.store, t, th, c, x);
    if ResponseOf(s.store, x).None? {
      var w :| w in s.threads && InWindow(s.threads[w], x);
      if w != t {
        assert InWindow(s'.threads[w], x);
      }
    }
  }

  /** The thread a step leaves behind needs no more than its id known, and acknowledges only what is answered. */
  lemma ActFits(s: Sys, t: Tid, c: Choice)
    requires Inv(s) && t in s.threads
    ensures var e := Act(s.store, t, s.threads[t], c);
      && WellShaped(e.thread)
      && (Needs(e.thread) ==> Known(s.store, e.thread.id) || SavesRequest(s.threads[t], e.thread.id))
      && (Acknowledges(e.thread) ==> Answered(s, e.thread.id))
  {
    hide RequestOf, StateOf, ResponseOf, Windowed, Stored, SaveRequest, WriteState, SaveResponse, SetRequestState;
    var th := s.threads[t];
    assert StatesFit(s, if th.Done? then "" else th.id);
  }

  lemma ThreadsFitStep(s: Sys, t: Tid, c: Choice)
    requires Inv(s) && t in s.threads
    ensures ThreadsFit(Step(s, t, c))
  {
    hide Act, Exists, RequestOf, StateOf, ResponseOf, StatesFit, Answered, Stored, Complete, WellShaped;
    var s' := Step(s, t, c);
    ActFits(s, t, c);
    forall u | u in s'.threads
      ensures WellShaped(s'.threads[u])
      ensures Needs(s'.threads[u]) ==> Known(s'.store, s'.threads[u].id)
      ensures Acknowledges(s'.threads[u]) ==> Answered(s', s'.threads[u].id)
    {
      var th := s'.threads[u];
      if Needs(th) {
        KnownStays(s, t, c, th.id);
        if Acknowledges(th) {
          AnsweredStays(s, t, c, th.id);
        }
      }
    }
  }

  lemma KnownStays(s: Sys, t: Tid, c: Choice, x: Id)
    requires Inv(s) && t in s.threads && (Known(s.store, x) || SavesRequest(s.threads[t], x))
    ensures Known(Step(s, t, c).store, x)
  {
    hide Act, Exists, RequestOf, StateOf, ResponseOf, StatesFit, Answered, Stored;
    ActOnReads(s.store, t, s.threads[t], c, x);
    CompleteStep(s, t, c);
  }

  lemma StatesFitStep(s: Sys, t: Tid, c: Choice, x: Id)
    requires Inv(s) && t in s.threads
    ensures StatesFit(Step(s, t, c), x)
  {
    hide Act, Exists, RequestOf, StateOf, ResponseOf, Stored, Complete, ThreadsFit;
    var s', th := Step(s, t, c), s.threads[t];
    assert StatesFit(s, x) && WellShaped(th) && (Acknowledges(th) ==> Answered(s, th.id)) by {
      assert forall y :: StatesFit(s, y);
      FitOf(s, t);
    }
    NeedOf(s, t);
    ActOnReads(s.store, t, th, c, x);
    if Answered(s, x) {
      AnsweredStays(s, t, c, x);
    }
    if WritesState(th, x) && s'.threads[t] == AfterState(th.id, th.next) && th.next.Then? {
      assert InWindow(s'.threads[t], x);
    }
    if StateOf(s'.store, x) == StateOf(s.store, x) == Some(ERROR) {
      var w :| w in s.threads && InWindow(s.threads[w], x);
      if w != t {
        assert InWindow(s'.threads[w], x);
      }
    }
  }

  lemma FitOf(s: Sys, t: Tid)
    requires ThreadsFit(s) && t in s.threads
    ensures WellShaped(s.threads[t]) && (Acknowledges(s.threads[t]) ==> Answered(s, s.threads[t].id))
  {
    hide WellShaped, Acknowledges, Answered, Known, Needs;
  }

  lemma NeedOf(s: Sys, t: Tid)
    requires ThreadsFit(s) && t in s.threads
    ensures Needs(s.threads[t]) ==> Known(s.store, s.threads[t].id)
  {
    hide WellShaped, Acknowledges, Answered, Known;
  }

  lemma InvStep(s: Sys, t: Tid, c: Choice)
    requires Inv(s)
    ensures Inv(Step(s, t, c))
  {
    hide Act, Complete, ThreadsFit, StatesFit;
    if t in s.threads {
      CompleteStep(s, t, c);
      ThreadsFitStep(s, t, c);
      forall x ensures StatesFit(Step(s, t, c), x) {
        StatesFitStep(s, t, c, x);
      }
    }
  }

  lemma {:induction false} InvRun(s: Sys, schedule: Schedule)
    requires Init(s)
    ensures Inv(Run(s, schedule))
    decreases |schedule|
  {
    hide Inv, Step, Init;
    if schedule == [] {
      InvInit(s);
    } else {
      var k := |schedule| - 1;
      InvRun(s, schedule[..k]);
      InvStep(Run(s, schedule[..k]), schedule[k].0, schedule[k].1);
    }
  }

  /**
   In every reachable state of either provider, a request that is RESPONDED or READ has a stored response or
   a completion between its write of the state and its `saveResponse`, and ERROR exists only in that window.
   */
  lemma FinalStatesAreAnswered(s: Sys, schedule: Schedule, x: Id)
    requires Init(s)
    ensures var r := Run(s, schedule);
      && (StateOf(r.store, x) == Some(RESPONDED) || StateOf(r.store, x) == Some(READ) ==> Answered(r, x))
      && (StateOf(r.store, x) == Some(ERROR) ==> Windowed(r, x))
  {
    hide Run, Init, StateOf, Answered, Windowed, Complete, ThreadsFit;
    InvRun(s, schedule);
    assert StatesFit(Run(s, schedule), x);
  }

  /** At rest no request is in ERROR, and every RESPONDED or READ request has its response. */
  lemma AtRestNoErrors(s: Sys, schedule: Schedule, x: Id)
    requires Init(s) && Quiescent(Run(s, schedule))
    ensures StateOf(Run(s, schedule).store, x) != Some(ERROR)
    ensures StateOf(Run(s, schedule).store, x) == Some(RESPONDED) || StateOf(Run(s, schedule).store, x) == Some(READ)
      ==> ResponseOf(Run(s, schedule).store, x).Some?
  {
    hide Run, Init, StateOf, ResponseOf;
    FinalStatesAreAnswered(s, schedule, x);
  }

  // The guarded store

  /** A write of another state than RESPONDED, decided on a read that saw another state than RESPONDED. */
  predicate WritesStale(th: Thread, x: Id) {
    th.WriteSeen? && th.id == x && th.state != RESPONDED && th.seen != RESPONDED
  }

  /** The second half of a split write in memory, or a whole write, of another state than RESPONDED. */
  predicate WritesOver(th: Thread, split: bool, x: Id) {
    (th.WriteSeen? || (th.SetState? && !split)) && th.id == x && th.state != RESPONDED
  }

  /** The steps that take a RESPONDED request out of that state. */
  predicate Loses(inMemory: bool, th: Thread, split: bool, x: Id) {
    SavesRequest(th, x) || (if inMemory then WritesOver(th, split, x) else WritesStale(th, x))
  }

  /** A step takes a request out of RESPONDED exactly when it is a losing one, over either provider. */
  lemma RespondedIsLostExactly(s: Sys, t: Tid, c: Choice, x: Id)
    requires Inv(s) && t in s.threads && StateOf(s.store, x) == Some(RESPONDED)
    ensures StateOf(Step(s, t, c).store, x) != Some(RESPONDED) <==> Loses(s.store.InMemory?, s.threads[t], c.split, x)
  {
    hide Complete, StatesFit, Answered, Windowed;
    NeedsOfStep(s, t);
  }

  lemma GuardedStep(s: Sys, t: Tid, c: Choice, x: Id)
    requires Inv(s) && s.store.Aerospike? && StateOf(s.store, x) == Some(RESPONDED)
    requires StateOf(Step(s, t, c).store, x) != Some(RESPONDED)
    ensures t in s.threads && (SavesRequest(s.threads[t], x) || WritesStale(s.threads[t], x))
  {
    hide Act, Inv, StateOf;
    if t in s.threads {
      RespondedIsLostExactly(s, t, c, x);
    }
  }

  lemma NeedsOfStep(s: Sys, t: Tid)
    requires Inv(s)
    ensures t in s.threads && Needs(s.threads[t]) ==> Known(s.store, s.threads[t].id)
  {
    hide Complete, StatesFit, Answered, Windowed, WellShaped, Acknowledges, Known;
  }

  lemma AerospikeStays(s: Sys, t: Tid, c: Choice)
    requires Inv(s)
    ensures Step(s, t, c).store.Aerospike? == s.store.Aerospike?
  {
    hide Act, Complete, StatesFit, ThreadsFit;
    if t in s.threads {
      NeedsOfStep(s, t);
      ActOnReads(s.store, t, s.threads[t], c, "");
    }
  }

  lemma {:induction false} AerospikeRuns(s: Sys, schedule: Schedule)
    requires Init(s)
    ensures Run(s, schedule).store.Aerospike? == s.store.Aerospike?
    decreases |schedule|
  {
    hide Inv, Step, Init;
    if schedule != [] {
      var k := |schedule| - 1;
      AerospikeRuns(s, schedule[..k]);
      InvRun(s, schedule[..k]);
      AerospikeStays(Run(s, schedule[..k]), schedule[k].0, schedule[k].1);
    }
  }

  /** The thread that takes step `k` of a schedule, in the state before that step. */
  ghost function Actor(s: Sys, schedule: Schedule, k: nat): Thread
    requires k < |schedule|
  {
    var before := Run(s, schedule[..k]);
    if schedule[k].0 in before.threads then before.threads[schedule[k].0] else Done
  }

  /** The state of a request before step `k` of a schedule. */
  ghost function StateAt(s: Sys, schedule: Schedule, k: nat, x: Id): Option<State>
    requires k <= |schedule|
  {
    StateOf(Run(s, schedule[..k]).store, x)
  }

  /** Step `k` of a schedule is a losing one. */
  ghost predicate LosesAt(s: Sys, schedule: Schedule, k: nat, x: Id)
    requires k < |schedule|
  {
    Loses(s.store.InMemory?, Actor(s, schedule, k), schedule[k].1.split, x)
  }

  lemma LostAtExactly(s: Sys, schedule: Schedule, k: nat, x: Id)
    requires Init(s) && k < |schedule| && StateAt(s, schedule, k, x) == Some(RESPONDED)
    ensures StateAt(s, schedule, k + 1, x) != Some(RESPONDED) <==> LosesAt(s, schedule, k, x)
  {
    hide Inv, Act, Init, StateOf, Run, Loses;
    var before := Run(s, schedule[..k]);
    InvRun(s, schedule[..k]);
    AerospikeRuns(s, schedule[..k]);
    RunFront(s, schedule, k);
    if schedule[k].0 in before.threads {
      RespondedIsLostExactly(before, schedule[k].0, schedule[k].1, x);
    } else {
      DoneLosesNothing(s.store.InMemory?, schedule[k].1.split, x);
    }
  }

  lemma DoneLosesNothing(inMemory: bool, split: bool, x: Id)
    ensures !Loses(inMemory, Done, split, x)
  {
  }

  /**
   Over either provider and any part of any schedule, a RESPONDED request stays so exactly when no step of that part is
   a losing one: no save of the request, over Aerospike no write of another state after a read of another state, in
   memory no write of another state at all.
   */
  lemma {:induction false} RespondedStaysExactly(s: Sys, schedule: Schedule, i: nat, j: nat, x: Id)
    requires Init(s) && i <= j <= |schedule| && StateAt(s, schedule, i, x) == Some(RESPONDED)
    ensures (forall n :: i <= n <= j ==> StateAt(s, schedule, n, x) == Some(RESPONDED))
      <==> (forall k :: i <= k < j ==> !LosesAt(s, schedule, k, x))
    decreases j - i
  {
    hide Init, StateAt, LosesAt;
    if i < j {
      RespondedStaysExactly(s, schedule, i, j - 1, x);
      if StateAt(s, schedule, j - 1, x) == Some(RESPONDED) {
        LostAtExactly(s, schedule, j - 1, x);
      }
    }
  }

  /**
   When RESPONDED has been lost, here is the losing step: over Aerospike a save of the request or a write whose
   `setRequestState` had read another state before, in memory a save or any write of another state.
   */
  lemma {:induction false} RespondedIsLostOnlyByStaleWrites(s: Sys, schedule: Schedule, i: nat, j: nat, x: Id)
    returns (k: nat)
    requires Init(s) && i <= j <= |schedule|
    requires StateOf(Run(s, schedule[..i]).store, x) == Some(RESPONDED)
    requires StateOf(Run(s, schedule[..j]).store, x) != Some(RESPONDED)
    ensures i <= k < j && StateOf(Run(s, schedule[..k]).store, x) == Some(RESPONDED)
    ensures SavesRequest(Actor(s, schedule, k), x)
      || if s.store.InMemory? then WritesOver(Actor(s, schedule, k), schedule[k].1.split, x)
         else WritesStale(Actor(s, schedule, k), x)
    decreases j - i
  {
    hide Init, StateOf, Run, Actor;
    if StateAt(s, schedule, j - 1, x) == Some(RESPONDED) {
      k := j - 1;
      LostAtExactly(s, schedule, k, x);
    } else {
      k := RespondedIsLostOnlyByStaleWrites(s, schedule, i, j - 1, x);
    }
  }

  /** A schedule that never splits `setRequestState`. */
  predicate Unsplit(schedule: Schedule) {
    forall k :: 0 <= k < |schedule| ==> !schedule[k].1.split
  }

  ghost predicate NoneSplit(s: Sys) {
    forall t :: t in s.threads ==> !s.threads[t].WriteSeen?
  }

  lemma UnsplitStep(s: Sys, t: Tid, c: Choice)
    requires NoneSplit(s) && !c.split
    ensures NoneSplit(Step(s, t, c))
  {
    hide SaveRequest, WriteState, SaveResponse, SetRequestState, Exists, RequestOf, StateOf;
  }

  lemma {:induction false} UnsplitRun(s: Sys, schedule: Schedule)
    requires Init(s) && Unsplit(schedule)
    ensures NoneSplit(Run(s, schedule))
    decreases |schedule|
  {
    hide Step;
    if schedule != [] {
      var k := |schedule| - 1;
      assert Unsplit(schedule[..k]);
      UnsplitRun(s, schedule[..k]);
      UnsplitStep(Run(s, schedule[..k]), schedule[k].0, schedule[k].1);
    }
  }

  /** With `setRequestState` taken as one step, a RESPONDED request stays so until it is saved again. */
  lemma RespondedStaysUntilSaved(s: Sys, schedule: Schedule, i: nat, j: nat, x: Id) returns (k: nat)
    requires Init(s) && s.store.Aerospike? && Unsplit(schedule) && i <= j <= |schedule|
    requires StateOf(Run(s, schedule[..i]).store, x) == Some(RESPONDED)
    requires StateOf(Run(s, schedule[..j]).store, x) != Some(RESPONDED)
    ensures i <= k < j && SavesRequest(Actor(s, schedule, k), x)
  {
    hide Init, StateOf, Run;
    k := RespondedIsLostOnlyByStaleWrites(s, schedule, i, j, x);
    assert Unsplit(schedule[..k]);
    UnsplitRun(s, schedule[..k]);
  }
}
