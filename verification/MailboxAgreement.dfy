/** The two providers side by side: the same threads under the same schedule over either store. */
module MailboxAgreement {
  import opened Wrappers
  import opened MailboxStore
  import opened MailboxProtocol
  import opened MailboxSafety
  import opened MailboxAccounting
  import opened MailboxListings

  // What tells the providers apart

  /** A mode that the stores' different spellings do not tell apart. */
  predicate PlainMode(mode: string) {
    PassesOn(Upper(mode)) == PassesOn(mode)
  }

  /** All saves of an id are of requests with such a mode. */
  predicate PlainId(log: seq<Event>, x: Id) {
    forall i :: 0 <= i < |log| && SaveOf(log[i], x) ==> PlainMode(log[i].request.mode)
  }

  /** No save of an id is of a request whose callback URI has a scheme, so that the handler never saves for it. */
  predicate SchemelessId(log: seq<Event>, x: Id) {
    forall i :: 0 <= i < |log| && SaveOf(log[i], x) ==> !log[i].request.uri.Scheme?
  }

  /** An id whose responses the providers treat alike. */
  predicate FairId(log: seq<Event>, x: Id) {
    PlainId(log, x) || SchemelessId(log, x)
  }

  /** The log without the calls to `handle` for some ids. */
  ghost function Drop(log: seq<Event>, ids: iset<Id>): seq<Event> {
    if log == [] then []
    else
      var last := log[|log| - 1];
      Drop(log[..|log| - 1], ids) + if last.Handled? && last.id in ids then [] else [last]
  }

  /** Logs that agree up to calls to `handle` for ids that are not plain. */
  ghost predicate LogTwin(a: seq<Event>, m: seq<Event>) {
    forall ids: iset<Id> :: (forall x :: !PlainId(m, x) ==> x in ids) ==> Drop(a, ids) == Drop(m, ids)
  }

  lemma {:induction false} DropMore(log: seq<Event>, more: seq<Event>, ids: iset<Id>)
    ensures Drop(log + more, ids) == Drop(log, ids) + Drop(more, ids)
    decreases |more|
  {
    if more == [] {
      assert log + more == log;
    } else {
      var front := more[..|more| - 1];
      DropMore(log, front, ids);
      assert (log + more)[..|log + more| - 1] == log + front;
    }
  }

  lemma {:induction false} DropNothing(log: seq<Event>)
    ensures Drop(log, iset{}) == log
  {
    if log != [] {
      DropNothing(log[..|log| - 1]);
    }
  }

  lemma {:induction false} LastSaveOfDrop(log: seq<Event>, ids: iset<Id>, x: Id)
    ensures LastSave(Drop(log, ids), x) == LastSave(log, x)
  {
    if log != [] {
      var front, last := log[..|log| - 1], log[|log| - 1];
      LastSaveOfDrop(front, ids, x);
      if !(last.Handled? && last.id in ids) {
        assert (Drop(front, ids) + [last])[..|Drop(front, ids)|] == Drop(front, ids);
      } else {
        assert Drop(front, ids) + [] == Drop(front, ids);
      }
    }
  }

  /** Twin logs name the same last saves, and are equal when all ids are plain. */
  lemma LogTwinsSaveAlike(a: seq<Event>, m: seq<Event>, x: Id)
    requires LogTwin(a, m)
    ensures LastSave(a, x) == LastSave(m, x)
    ensures (forall y :: PlainId(m, y)) ==> a == m
  {
    hide Drop, LastSave, PlainId;
    var all := iset y: Id | |y| >= 0;
    assert Drop(a, all) == Drop(m, all);
    LastSaveOfDrop(a, all, x);
    LastSaveOfDrop(m, all, x);
    if forall y :: PlainId(m, y) {
      assert Drop(a, iset{}) == Drop(m, iset{});
      DropNothing(a);
      DropNothing(m);
    }
  }

  /** What is plain, or without schemes, after more events was so before. */
  lemma LongerLogs(log: seq<Event>, more: seq<Event>, x: Id)
    ensures PlainId(log + more, x) ==> PlainId(log, x)
    ensures SchemelessId(log + more, x) ==> SchemelessId(log, x)
  {
    hide PlainMode;
    forall i | 0 <= i < |log| ensures (log + more)[i] == log[i] {
    }
  }

  // The providers in step

  predicate IsAck(th: Thread) {
    th.AckState? || th.AckFetch? || th.Done? || ((th.SetState? || th.WriteSeen?) && th.state == READ && th.next == Stop)
  }

  /** A handler, or none, of an id that is not plain; without schemes it comes to nothing. */
  predicate Slack(log: seq<Event>, th: Thread) {
    th.Done?
    || ((th.HandleFetch? || th.HandleState? || th.HandleSave?) && !PlainId(log, th.id)
        && (SchemelessId(log, th.id) ==> !th.HandleSave? && (th.HandleState? ==> !th.request.uri.Scheme?)))
  }

  function Upped(r: Option<Request>): Option<Request> {
    if r.Some? then Some(Normalized(r.value)) else None
  }

  /**
   Threads that differ at most in the spelling of a request, in a state they read, in an acknowledgement, or in the
   handling of an id that is not plain.
   */
  predicate ThreadTwin(log: seq<Event>, a: Thread, m: Thread) {
    || a == m
    || (IsAck(a) && IsAck(m))
    || (a.HandleState? && m.HandleState? && a == HandleState(m.id, m.response, Normalized(m.request)))
    || (a.WriteSeen? && m.WriteSeen? && a == WriteSeen(m.id, m.state, a.seen, m.next))
    || (a.CallbackSave? && m.CallbackSave? && a == CallbackSave(m.id, m.response, a.handle) && !PlainId(log, m.id))
    || (Slack(log, a) && Slack(log, m))
  }

  /** The stores know the same ids and requests, and of fair ids the same responses. */
  ghost predicate StoreTwin(a: Store, m: Store, log: seq<Event>, x: Id) {
    && Exists(a, x) == Exists(m, x) && RequestOf(a, x) == Upped(RequestOf(m, x))
    && (FairId(log, x) ==> ResponseOf(a, x) == ResponseOf(m, x))
  }

  ghost predicate Twin(a: Sys, m: Sys) {
    && a.store.Aerospike? && m.store.InMemory? && LogTwin(a.log, m.log) && a.threads.Keys == m.threads.Keys
    && (forall x :: StoreTwin(a.store, m.store, m.log, x))
    && (forall t :: t in a.threads ==> ThreadTwin(m.log, a.threads[t], m.threads[t]))
  }

  /** The stored request of an id is one of its saves. */
  predicate Fits(s: Store, log: seq<Event>, x: Id) {
    RequestOf(s, x).Some? ==>
      var r := RequestOf(s, x).value;
      (PlainId(log, x) ==> PlainMode(r.mode)) && (SchemelessId(log, x) ==> !r.uri.Scheme?)
  }

  lemma SavedRequestFits(s: Sys, x: Id)
    requires s.store.InMemory? && SavedIsStored(s, x)
    ensures Fits(s.store, s.log, x)
  {
    hide RequestOf, PlainMode;
    if LastSave(s.log, x).Some? {
      var i := LastSaveAt(s.log, x);
    }
  }

  lemma {:induction false} LastSaveAt(log: seq<Event>, x: Id) returns (i: nat)
    requires LastSave(log, x).Some?
    ensures i < |log| && SaveOf(log[i], x) && log[i].request == LastSave(log, x).value.request
    decreases |log|
  {
    if SaveOf(log[|log| - 1], x) {
      i := |log| - 1;
    } else {
      i := LastSaveAt(log[..|log| - 1], x);
    }
  }

  lemma TwinsSaveAlike(log: seq<Event>, a: Thread, m: Thread, x: Id)
    requires ThreadTwin(log, a, m)
    ensures SavesRequest(a, x) == SavesRequest(m, x) && (SavesRequest(a, x) ==> a.request == m.request)
    ensures FairId(log, x) ==>
      SavesResponse(a, x) == SavesResponse(m, x) && (SavesResponse(a, x) ==> a.response == m.response)
  {
    hide PlainId, SchemelessId;
  }

  lemma StoreTwinStep(a: Sys, m: Sys, t: Tid, c: Choice, x: Id)
    requires Inv(a) && Inv(m) && Twin(a, m) && t in a.threads
    ensures StoreTwin(Step(a, t, c).store, Step(m, t, c).store, Step(m, t, c).log, x)
  {
    hide Inv, Act, Exists, RequestOf, StateOf, ResponseOf, ThreadTwin, SavesRequest, SavesResponse, Needs, Known,
      LogTwin, PlainId, SchemelessId;
    assert StoreTwin(a.store, m.store, m.log, x);
    NeedsOfStep(a, t);
    NeedsOfStep(m, t);
    ActOnReads(a.store, t, a.threads[t], c, x);
    ActOnReads(m.store, t, m.threads[t], c, x);
    TwinsSaveAlike(m.log, a.threads[t], m.threads[t], x);
    LongerLogs(m.log, Act(m.store, t, m.threads[t], c).events, x);
  }

  /**
   Events that twin threads log: the same ones, or a call to `handle` more on one side for an id that is not plain.
   */
  ghost predicate EventTwin(log: seq<Event>, a: seq<Event>, m: seq<Event>) {
    a == m || exists t, x :: !PlainId(log, x) && AcceptedAs(a, t, x) && AcceptedAs(m, t, x)
  }

  /** An accepted callback, with a call to `handle` or without. */
  predicate AcceptedAs(events: seq<Event>, t: Tid, x: Id) {
    events == [Accepted(t, x)] || events == [Accepted(t, x), Handled(t, x)]
  }

  lemma SameEvents(log: seq<Event>, events: seq<Event>)
    ensures EventTwin(log, events, events)
  {
  }

  /** A slack thread stays slack and logs nothing. */
  lemma SlackStays(s: Store, log: seq<Event>, t: Tid, th: Thread, c: Choice)
    requires Slack(log, th)
    requires !th.Done? && RequestOf(s, th.id).Some? && SchemelessId(log, th.id) ==>
      !RequestOf(s, th.id).value.uri.Scheme?
    ensures Slack(log, Act(s, t, th, c).thread) && Act(s, t, th, c).events == []
  {
    hide RequestOf, StateOf, SaveResponse, PlainId, SchemelessId;
  }

  lemma AcksStayAcks(s: Store, t: Tid, th: Thread, c: Choice)
    requires IsAck(th)
    ensures IsAck(Act(s, t, th, c).thread) && Act(s, t, th, c).events == []
  {
    hide RequestOf, StateOf, WriteState, SetRequestState;
  }

  /** A callback that both sides save, and perhaps only one passes on. */
  lemma CallbackTwins(a: Store, m: Store, log: seq<Event>, t: Tid, tha: Thread, thm: Thread, c: Choice)
    requires ThreadTwin(log, tha, thm) && thm.CallbackSave?
    ensures var ea, em := Act(a, t, tha, c), Act(m, t, thm, c);
      ThreadTwin(log, ea.thread, em.thread) && EventTwin(log, ea.events, em.events)
  {
    hide SaveResponse, PlainId, SchemelessId;
    if tha == thm {
      SameEvents(log, Act(m, t, thm, c).events);
    } else {
      assert AcceptedAs(Act(a, t, tha, c).events, t, thm.id) && AcceptedAs(Act(m, t, thm, c).events, t, thm.id);
    }
  }

  predicate Unsettled(th: Thread) {
    !th.CallbackSave? && !th.CallbackFetch?
  }

  /** Threads in step outside callbacks stay in step. */
  lemma PlainTwins(a: Store, m: Store, log: seq<Event>, t: Tid, tha: Thread, thm: Thread, c: Choice)
    requires a.Aerospike? && m.InMemory? && ThreadTwin(log, tha, thm) && Unsettled(thm) && !thm.Done?
    requires !(IsAck(tha) && IsAck(thm)) && !(Slack(log, tha) && Slack(log, thm))
    requires Exists(a, thm.id) == Exists(m, thm.id) && RequestOf(a, thm.id) == Upped(RequestOf(m, thm.id))
    requires Needs(tha) ==> Known(a, tha.id)
    requires Needs(thm) ==> Known(m, thm.id)
    ensures var ea, em := Act(a, t, tha, c), Act(m, t, thm, c);
      ThreadTwin(log, ea.thread, em.thread) && ea.events == em.events
  {
    hide Exists, RequestOf, SaveRequest, WriteState, SaveResponse, Upper, PassesOn, PlainId, SchemelessId, Slack;
  }

  /** A callback is passed on alike when the id is plain. */
  lemma FetchTwins(a: Store, m: Store, log: seq<Event>, t: Tid, th: Thread, c: Choice)
    requires th.CallbackFetch? && RequestOf(a, th.id) == Upped(RequestOf(m, th.id)) && Fits(m, log, th.id)
    ensures var ea, em := Act(a, t, th, c), Act(m, t, th, c);
      ThreadTwin(log, ea.thread, em.thread) && ea.events == em.events == []
  {
    hide RequestOf, Upper, PassesOn, PlainId, SchemelessId, Slack;
  }

  /** Twin threads act alike: their next threads are twins and they log twin events. */
  lemma ActTwins(a: Store, m: Store, log: seq<Event>, t: Tid, tha: Thread, thm: Thread, c: Choice)
    requires a.Aerospike? && m.InMemory? && ThreadTwin(log, tha, thm)
    requires forall x :: StoreTwin(a, m, log, x) && Fits(m, log, x)
    requires Needs(tha) ==> Known(a, tha.id)
    requires Needs(thm) ==> Known(m, thm.id)
    ensures var ea, em := Act(a, t, tha, c), Act(m, t, thm, c);
      ThreadTwin(log, ea.thread, em.thread) && EventTwin(log, ea.events, em.events)
  {
    hide Act, EventTwin, Fits, StoreTwin, PlainId, SchemelessId, Needs, Known, Slack;
    if IsAck(tha) && IsAck(thm) {
      AcksStayAcks(a, t, tha, c);
      AcksStayAcks(m, t, thm, c);
      SameEvents(log, []);
    } else if Slack(log, tha) && Slack(log, thm) {
      SlackFits(a, m, log, tha);
      SlackFits(a, m, log, thm);
      SlackStays(a, log, t, tha, c);
      SlackStays(m, log, t, thm, c);
      SameEvents(log, []);
    } else if thm.CallbackSave? {
      CallbackTwins(a, m, log, t, tha, thm, c);
    } else {
      TwinAt(a, m, log, thm.id);
      if thm.CallbackFetch? {
        FetchTwins(a, m, log, t, thm, c);
        SameEvents(log, []);
      } else {
        PlainTwins(a, m, log, t, tha, thm, c);
        SameEvents(log, Act(m, t, thm, c).events);
      }
    }
  }

  lemma TwinAt(a: Store, m: Store, log: seq<Event>, x: Id)
    requires forall y :: StoreTwin(a, m, log, y) && Fits(m, log, y)
    ensures Exists(a, x) == Exists(m, x) && RequestOf(a, x) == Upped(RequestOf(m, x)) && Fits(m, log, x)
  {
    hide Exists, RequestOf, ResponseOf, Fits;
    assert StoreTwin(a, m, log, x);
  }

  lemma SlackFits(a: Store, m: Store, log: seq<Event>, th: Thread)
    requires Slack(log, th) && forall x :: StoreTwin(a, m, log, x) && Fits(m, log, x)
    ensures !th.Done? && SchemelessId(log, th.id) ==>
      (RequestOf(m, th.id).Some? ==> !RequestOf(m, th.id).value.uri.Scheme?)
      && (RequestOf(a, th.id).Some? ==> !RequestOf(a, th.id).value.uri.Scheme?)
  {
    hide Exists, RequestOf, ResponseOf, PlainId, SchemelessId, StoreTwin, Upper;
    if !th.Done? {
      TwinAt(a, m, log, th.id);
    }
  }

  lemma ThreadTwinStays(log: seq<Event>, more: seq<Event>, a: Thread, m: Thread)
    requires ThreadTwin(log, a, m)
    ensures ThreadTwin(log + more, a, m)
  {
    hide PlainId, SchemelessId;
    if !a.Done? {
      LongerLogs(log, more, a.id);
    }
    if !m.Done? {
      LongerLogs(log, more, m.id);
    }
  }

  lemma LogTwinStays(a: seq<Event>, m: seq<Event>, ea: seq<Event>, em: seq<Event>)
    requires LogTwin(a, m) && EventTwin(m, ea, em)
    ensures LogTwin(a + ea, m + em)
  {
    hide PlainId, Drop;
    forall ids: iset<Id> | forall x :: !PlainId(m + em, x) ==> x in ids ensures Drop(a + ea, ids) == Drop(m + em, ids) {
      forall x ensures !PlainId(m, x) ==> x in ids {
        LongerLogs(m, em, x);
      }
      DropMore(a, ea, ids);
      DropMore(m, em, ids);
      if ea != em {
        DropAccepted(m, ea, em, ids);
      }
    }
  }

  lemma DropAccepted(log: seq<Event>, ea: seq<Event>, em: seq<Event>, ids: iset<Id>)
    requires EventTwin(log, ea, em) && forall x :: !PlainId(log, x) ==> x in ids
    ensures Drop(ea, ids) == Drop(em, ids)
  {
    hide PlainId;
    if ea != em {
      var t, x :| !PlainId(log, x) && AcceptedAs(ea, t, x) && AcceptedAs(em, t, x);
      DropHandled(ea, t, x, ids);
      DropHandled(em, t, x, ids);
    }
  }

  lemma DropHandled(events: seq<Event>, t: Tid, x: Id, ids: iset<Id>)
    requires x in ids && AcceptedAs(events, t, x)
    ensures Drop(events, ids) == [Accepted(t, x)]
  {
    var one: seq<Event> := [Accepted(t, x)];
    assert one[..0] == [] && one + [] == one;
    assert Drop(one, ids) == one;
    if events != one {
      assert events[..1] == one;
    }
  }

  lemma TwinStep(a: Sys, m: Sys, t: Tid, c: Choice)
    requires Inv(a) && Inv(m) && Twin(a, m) && forall x :: SavedIsStored(m, x)
    ensures Twin(Step(a, t, c), Step(m, t, c))
  {
    hide Inv, Act, Exists, RequestOf, StateOf, ResponseOf, ThreadTwin, StoreTwin, Needs, Known, SavedIsStored, LogTwin,
      EventTwin, Fits;
    if t in a.threads {
      var ea, em := Act(a.store, t, a.threads[t], c), Act(m.store, t, m.threads[t], c);
      forall x ensures StoreTwin(Step(a, t, c).store, Step(m, t, c).store, Step(m, t, c).log, x) {
        StoreTwinStep(a, m, t, c, x);
      }
      forall x ensures Fits(m.store, m.log, x) {
        SavedRequestFits(m, x);
      }
      AerospikeStays(a, t, c);
      AerospikeStays(m, t, c);
      NeedsOfStep(a, t);
      NeedsOfStep(m, t);
      ActTwins(a.store, m.store, m.log, t, a.threads[t], m.threads[t], c);
      LogTwinStays(a.log, m.log, ea.events, em.events);
      forall u | u in Step(a, t, c).threads
        ensures ThreadTwin(Step(m, t, c).log, Step(a, t, c).threads[u], Step(m, t, c).threads[u])
      {
        ThreadTwinStays(m.log, em.events, Step(a, t, c).threads[u], Step(m, t, c).threads[u]);
      }
    }
  }

  lemma TwinInit(a: Sys, m: Sys)
    requires Init(a) && Init(m) && a.store.Aerospike? && m.store.InMemory? && a.threads == m.threads
    ensures Twin(a, m)
  {
  }

  /**
   Under any schedule the two systems stay in step: they know the same ids and requests, of fair ids the same responses,
   and their logs agree up to calls to `handle` for ids that are not plain.
   */
  lemma {:induction false} TwinRun(a: Sys, m: Sys, schedule: Schedule)
    requires Init(a) && Init(m) && a.store.Aerospike? && m.store.InMemory? && a.threads == m.threads
    ensures Twin(Run(a, schedule), Run(m, schedule))
    decreases |schedule|
  {
    hide Inv, Init, Twin, Step;
    if schedule == [] {
      TwinInit(a, m);
    } else {
      var k := |schedule| - 1;
      TwinRun(a, m, schedule[..k]);
      InvRun(a, schedule[..k]);
      InvRun(m, schedule[..k]);
      forall x ensures SavedIsStored(Run(m, schedule[..k]), x) {
        SavedIsStoredRun(m, schedule[..k], x);
      }
      TwinStep(Run(a, schedule[..k]), Run(m, schedule[..k]), schedule[k].0, schedule[k].1);
    }
  }

  /** When all ids are plain the two systems log the same events, and know the same responses of every id. */
  lemma PlainRunsAreEqual(a: Sys, m: Sys, schedule: Schedule)
    requires Init(a) && Init(m) && a.store.Aerospike? && m.store.InMemory? && a.threads == m.threads
    requires forall x :: PlainId(Run(m, schedule).log, x)
    ensures var ra, rm := Run(a, schedule), Run(m, schedule);
      ra.log == rm.log && forall x :: ResponseOf(ra.store, x) == ResponseOf(rm.store, x)
  {
    hide Run, Init, LogTwin, ThreadTwin, PlainId, SchemelessId, ResponseOf;
    var ra, rm := Run(a, schedule), Run(m, schedule);
    TwinRun(a, m, schedule);
    LogTwinsSaveAlike(ra.log, rm.log, "");
    forall x ensures ResponseOf(ra.store, x) == ResponseOf(rm.store, x) {
      assert StoreTwin(ra.store, rm.store, rm.log, x);
    }
  }

  // What each provider files under a mailbox

  function AerospikeIds(s: Store, q: string): set<Id>
    requires s.Aerospike?
  {
    set x | x in s.records && s.records[x].mailbox == Some(q)
  }

  function InMemoryIds(s: Store, q: string): seq<Id>
    requires s.InMemory?
  {
    if q in s.mailbox then s.mailbox[q] else []
  }

  function MailboxOf(log: seq<Event>, x: Id): Option<Option<string>> {
    if LastSave(log, x).Some? then Some(LastSave(log, x).value.mailbox) else None
  }

  ghost predicate AerospikeFiles(s: Sys, x: Id) {
    && s.store.Aerospike?
    && (x in s.store.records) == MailboxOf(s.log, x).Some?
    && (x in s.store.records ==> s.store.records[x].mailbox == Some(AerospikeMailbox(MailboxOf(s.log, x).value)))
  }

  ghost predicate InMemoryFiles(s: Sys, q: string) {
    && s.store.InMemory? && NoRepeats(InMemoryIds(s.store, q))
    && forall x :: x in InMemoryIds(s.store, q) <==> MailboxOf(s.log, x) == Some(Some(q)) && !IsBlank(q)
  }

  ghost predicate NewSaves(s: Sys, t: Tid) {
    forall x :: SavesNew(s, t, x)
  }

  lemma AerospikeFilesStep(s: Sys, t: Tid, c: Choice, x: Id)
    requires Inv(s) && t in s.threads && AerospikeFiles(s, x)
    ensures AerospikeFiles(Step(s, t, c), x)
  {
    hide LastSave, Complete, StatesFit, WellShaped, Acknowledges, Answered;
    NeedsOfStep(s, t);
    LastSaveStep(s, t, c, x);
    AerospikeStays(s, t, c);
  }

  /** In memory, a step changes the mailboxes only to append a saved id. */
  lemma InMemoryMailboxStep(s: Store, t: Tid, th: Thread, c: Choice)
    requires s.InMemory?
    ensures var s' := Act(s, t, th, c).store;
      s'.InMemory? && s'.mailbox ==
        if (th.Save? || th.Persist?) && th.mailbox.Some? && !IsBlank(th.mailbox.value)
        then s.mailbox[th.mailbox.value := InMemoryIds(s, th.mailbox.value) + [th.id]] else s.mailbox
  {
    hide IsBlank, StateOf, RequestOf;
  }

  lemma InMemoryFilesStep(s: Sys, t: Tid, c: Choice, q: string)
    requires Inv(s) && t in s.threads && InMemoryFiles(s, q) && NewSaves(s, t)
    requires forall x :: MailboxOf(s.log, x).Some? ==> Exists(s.store, x)
    ensures InMemoryFiles(Step(s, t, c), q)
  {
    hide Inv, Act, LastSave, IsBlank, Exists;
    var s', th := Step(s, t, c), s.threads[t];
    InMemoryMailboxStep(s.store, t, th, c);
    var before, after := InMemoryIds(s.store, q), InMemoryIds(s'.store, q);
    if th.Save? || th.Persist? {
      assert SavesNew(s, t, th.id);
    }
    assert after == before
      || (after == before + [th.id] && (th.Save? || th.Persist?) && th.mailbox == Some(q) && !IsBlank(q));
    forall x ensures x in after <==> MailboxOf(s'.log, x) == Some(Some(q)) && !IsBlank(q) {
      LastSaveStep(s, t, c, x);
    }
  }

  lemma SavedIffLogged(s: Sys, x: Id)
    requires SavedIsStored(s, x)
    ensures MailboxOf(s.log, x).Some? == Exists(s.store, x)
  {
    hide LastSave, Exists, RequestOf;
  }

  ghost predicate AlwaysNew(s: Sys, schedule: Schedule) {
    forall x :: SavedOnce(s, schedule, x)
  }

  lemma {:induction false} AerospikeFilesRun(s: Sys, schedule: Schedule, x: Id)
    requires Init(s) && s.store.Aerospike?
    ensures AerospikeFiles(Run(s, schedule), x)
    decreases |schedule|
  {
    hide Inv, Step;
    if schedule != [] {
      var k := |schedule| - 1;
      AerospikeFilesRun(s, schedule[..k], x);
      InvRun(s, schedule[..k]);
      hide Run, AerospikeFiles;
      var before, t, c := Run(s, schedule[..k]), schedule[k].0, schedule[k].1;
      if t in before.threads {
        AerospikeFilesStep(before, t, c, x);
      } else {
        Stutter(before, t, c);
      }
    }
  }

  lemma AlwaysNewFront(s: Sys, schedule: Schedule)
    requires schedule != [] && AlwaysNew(s, schedule)
    ensures var k := |schedule| - 1; AlwaysNew(s, schedule[..k]) && NewSaves(Run(s, schedule[..k]), schedule[k].0)
  {
    hide SavedOnce, SavesNew, Run;
    var k := |schedule| - 1;
    forall x ensures SavedOnce(s, schedule[..k], x) && SavesNew(Run(s, schedule[..k]), schedule[k].0, x) {
      SavedOnceFront(s, schedule, x);
    }
  }

  lemma {:induction false} InMemoryFilesRun(s: Sys, schedule: Schedule, q: string)
    requires Init(s) && s.store.InMemory? && AlwaysNew(s, schedule)
    ensures InMemoryFiles(Run(s, schedule), q)
    decreases |schedule|
  {
    hide Inv, Step, AlwaysNew, NewSaves, SavedIsStored;
    if schedule != [] {
      var k := |schedule| - 1;
      var before, t, c := Run(s, schedule[..k]), schedule[k].0, schedule[k].1;
      AlwaysNewFront(s, schedule);
      InMemoryFilesRun(s, schedule[..k], q);
      InvRun(s, schedule[..k]);
      forall x ensures MailboxOf(before.log, x).Some? ==> Exists(before.store, x) {
        SavedIsStoredRun(s, schedule[..k], x);
        SavedIffLogged(before, x);
      }
      hide Run, InMemoryFiles;
      if t in before.threads {
        InMemoryFilesStep(before, t, c, q);
      } else {
        Stutter(before, t, c);
      }
    }
  }

  /** A run that saves every id once over one provider does so over the other. */
  lemma AlwaysNewTwin(a: Sys, m: Sys, schedule: Schedule)
    requires Init(a) && Init(m) && a.store.Aerospike? && m.store.InMemory? && a.threads == m.threads
    requires AlwaysNew(a, schedule)
    ensures AlwaysNew(m, schedule)
  {
    hide Init, Run, Exists, ThreadTwin, RequestOf, ResponseOf, SavesRequest, LogTwin, FairId;
    forall x, k | 0 <= k < |schedule| ensures SavesNew(Run(m, schedule[..k]), schedule[k].0, x) {
      TwinRun(a, m, schedule[..k]);
      var ra, rm, t := Run(a, schedule[..k]), Run(m, schedule[..k]), schedule[k].0;
      assert SavedOnce(a, schedule, x);
      assert SavesNew(ra, t, x);
      assert StoreTwin(ra.store, rm.store, rm.log, x);
      if t in ra.threads {
        TwinsSaveAlike(rm.log, ra.threads[t], rm.threads[t], x);
      }
    }
  }

  // The listings agree

  function AerospikeRequests(s: Store): map<Id, Request>
    requires s.Aerospike?
  {
    map x | x in s.records && s.records[x].request.Some? :: s.records[x].request.value
  }

  /** The records listed as responses: those in ERROR or RESPONDED. */
  predicate IsListed(r: Record) {
    r.state == ERROR || r.state == RESPONDED
  }

  function AerospikeResponses(s: Store): map<Id, Response>
    requires s.Aerospike?
  {
    map x | x in s.records && IsListed(s.records[x]) && s.records[x].response.Some? :: s.records[x].response.value
  }

  function InMemoryRequests(s: Store): map<Id, Request>
    requires s.InMemory?
  {
    map x | x in s.requests :: Normalized(s.requests[x])
  }

  /** The in-memory listing with every request normalized is the listing of the normalized requests. */
  lemma {:induction false} NormalizedListing(s: Store, ids: seq<Id>)
    requires s.InMemory?
    ensures |Gather(InMemoryRequests(s), ids)| == |Gather(s.requests, ids)|
    ensures forall i :: 0 <= i < |Gather(s.requests, ids)| ==>
      Gather(InMemoryRequests(s), ids)[i] == Normalized(Gather(s.requests, ids)[i])
    decreases |ids|
  {
    hide Normalized;
    if ids != [] {
      NormalizedListing(s, ids[1..]);
    }
  }

  /** No request was saved under `q` for Aerospike that the in-memory provider did not file. */
  ghost predicate FiledAlike(log: seq<Event>, q: string) {
    forall x :: MailboxOf(log, x).Some? && AerospikeMailbox(MailboxOf(log, x).value) == q
      ==> MailboxOf(log, x) == Some(Some(q)) && !IsBlank(q)
  }

  /** Every mailbox that is not blank and not called "NONE" is filed alike. */
  lemma OrdinaryMailboxesAreFiledAlike(log: seq<Event>, q: string)
    requires !IsBlank(q) && q != "NONE"
    ensures FiledAlike(log, q)
  {
    hide IsBlank, LastSave;
  }

  /** Two runs of the same schedule over the two providers, from the same threads, saving each id once. */
  ghost predicate SideBySide(a: Sys, m: Sys, schedule: Schedule) {
    && Init(a) && Init(m) && a.store.Aerospike? && m.store.InMemory? && a.threads == m.threads && AlwaysNew(a, schedule)
  }

  lemma FilingsRelate(a: Sys, m: Sys, q: string)
    requires Twin(a, m) && InMemoryFiles(m, q) && forall x :: AerospikeFiles(a, x)
    ensures forall x :: x in InMemoryIds(m.store, q) ==> x in AerospikeIds(a.store, q)
    ensures FiledAlike(a.log, q) <==> forall x :: x in AerospikeIds(a.store, q) ==> x in InMemoryIds(m.store, q)
  {
    hide StoreTwin, ThreadTwin, LogTwin, LastSave, IsBlank;
    forall x ensures x in InMemoryIds(m.store, q) ==> x in AerospikeIds(a.store, q)
      ensures x in AerospikeIds(a.store, q) <==>
        MailboxOf(a.log, x).Some? && AerospikeMailbox(MailboxOf(a.log, x).value) == q
      ensures x in InMemoryIds(m.store, q) <==> MailboxOf(a.log, x) == Some(Some(q)) && !IsBlank(q)
    {
      assert AerospikeFiles(a, x);
      LogTwinsSaveAlike(a.log, m.log, x);
      assert MailboxOf(a.log, x) == MailboxOf(m.log, x);
    }
  }

  /** The two runs of a schedule, with all that relates them. */
  lemma Related(a: Sys, m: Sys, schedule: Schedule, q: string)
    requires SideBySide(a, m, schedule)
    ensures var ra, rm := Run(a, schedule), Run(m, schedule);
      && Twin(ra, rm) && Inv(ra) && Inv(rm)
      && (forall x :: x in InMemoryIds(rm.store, q) ==> x in AerospikeIds(ra.store, q))
      && NoRepeats(InMemoryIds(rm.store, q))
      && (FiledAlike(ra.log, q) <==> forall x :: x in AerospikeIds(ra.store, q) ==> x in InMemoryIds(rm.store, q))
  {
    hide Run, Init, AlwaysNew, Inv, AerospikeFiles, FiledAlike, Twin;
    var ra, rm := Run(a, schedule), Run(m, schedule);
    TwinRun(a, m, schedule);
    InvRun(a, schedule);
    InvRun(m, schedule);
    AlwaysNewTwin(a, m, schedule);
    InMemoryFilesRun(m, schedule, q);
    forall x ensures AerospikeFiles(ra, x) {
      AerospikeFilesRun(a, schedule, x);
    }
    FilingsRelate(ra, rm, q);
  }

  lemma RequestMapsAgree(a: Sys, m: Sys)
    requires Twin(a, m) && Complete(a.store)
    ensures AerospikeRequests(a.store) == InMemoryRequests(m.store)
    ensures AerospikeRequests(a.store).Keys == a.store.records.Keys
  {
    hide ThreadTwin, LogTwin, FairId, Normalized;
    forall x ensures x in AerospikeRequests(a.store) <==> x in InMemoryRequests(m.store)
      ensures x in AerospikeRequests(a.store) ==> AerospikeRequests(a.store)[x] == InMemoryRequests(m.store)[x]
      ensures x in a.store.records ==> x in AerospikeRequests(a.store)
    {
      assert StoreTwin(a.store, m.store, m.log, x);
      assert Exists(a.store, x) ==> Known(a.store, x);
    }
  }

  lemma RequestListings(f: map<Id, Request>, order: seq<Id>, ids: seq<Id>, x: Id)
    requires NoRepeats(order) && NoRepeats(ids) && forall y :: y in ids ==> y in order
    requires x in order && x in f && x !in ids && forall y :: y in order ==> y in f
    ensures multiset(Gather(f, order)) != multiset(Gather(f, ids))
  {
    var g := map y | y in f && y in ids :: f[y];
    GatherAgrees(f, g, ids);
    GatherIgnoresOrder(g, order, ids);
    GatherIsShorter(g, f, order, x);
    assert |multiset(Gather(f, order))| == |Gather(f, order)|;
    assert |multiset(Gather(g, order))| == |Gather(g, order)|;
  }

  /**
   At every moment both providers list the same requests of a mailbox, up to the spelling of mode and method
   and up to order, exactly when the mailbox is filed alike; `order` is the order Aerospike lists them in.
   */
  lemma RequestsAgree(a: Sys, m: Sys, schedule: Schedule, q: string, order: seq<Id>)
    requires SideBySide(a, m, schedule)
    ensures var ra, rm := Run(a, schedule), Run(m, schedule);
      && ra.store.Aerospike? && rm.store.InMemory?
      && (Enumerates(order, AerospikeIds(ra.store, q)) ==>
            (multiset(Gather(AerospikeRequests(ra.store), order))
               == multiset(Gather(InMemoryRequests(rm.store), InMemoryIds(rm.store, q)))
             <==> FiledAlike(ra.log, q)))
  {
    hide Run, SideBySide, AerospikeRequests, InMemoryRequests, FiledAlike, Gather, StoreTwin, ThreadTwin, LogTwin,
      NoRepeats, ThreadsFit, StatesFit;
    var ra, rm := Run(a, schedule), Run(m, schedule);
    Related(a, m, schedule, q);
    RequestMapsAgree(ra, rm);
    if Enumerates(order, AerospikeIds(ra.store, q)) {
      var f, ids := AerospikeRequests(ra.store), InMemoryIds(rm.store, q);
      if FiledAlike(ra.log, q) {
        GatherIgnoresOrder(f, order, ids);
      } else {
        var x :| x in AerospikeIds(ra.store, q) && x !in ids;
        RequestListings(f, order, ids, x);
      }
    }
  }

  /** Every request filed by Aerospike under `q` that has a response is in the state RESPONDED. */
  ghost predicate AllResponded(s: Store, q: string)
    requires s.Aerospike?
  {
    forall x :: x in AerospikeIds(s, q) && ResponseOf(s, x).Some? ==> StateOf(s, x) == Some(RESPONDED)
  }

  lemma ResponseMapsRelate(a: Sys, m: Sys, q: string, x: Id)
    requires Twin(a, m) && StateOf(a.store, x) != Some(ERROR) && FairId(m.log, x)
    ensures x in AerospikeResponses(a.store) <==> ResponseOf(a.store, x).Some? && StateOf(a.store, x) == Some(RESPONDED)
    ensures x in m.store.responses <==> ResponseOf(a.store, x).Some?
    ensures x in AerospikeResponses(a.store) ==> AerospikeResponses(a.store)[x] == m.store.responses[x]
  {
    hide ThreadTwin, LogTwin, FairId;
    assert StoreTwin(a.store, m.store, m.log, x);
  }

  /** Every id filed under a mailbox is fair. */
  ghost predicate FairMailbox(log: seq<Event>, q: string) {
    forall x :: MailboxOf(log, x) == Some(Some(q)) ==> FairId(log, x)
  }

  /**
   At rest both providers list the same responses of a fair mailbox that is filed alike, up to order, exactly when
   no response there has had its RESPONDED state overwritten.
   */
  lemma ResponsesAgree(a: Sys, m: Sys, schedule: Schedule, q: string, order: seq<Id>)
    requires SideBySide(a, m, schedule) && Quiescent(Run(a, schedule))
    requires FiledAlike(Run(a, schedule).log, q) && FairMailbox(Run(m, schedule).log, q)
    ensures var ra, rm := Run(a, schedule), Run(m, schedule);
      && ra.store.Aerospike? && rm.store.InMemory?
      && (Enumerates(order, AerospikeIds(ra.store, q)) ==>
            && (forall x :: x in order && IsListed(ra.store.records[x]) ==> ra.store.records[x].response.Some?)
            && (multiset(Gather(AerospikeResponses(ra.store), order))
                  == multiset(Gather(rm.store.responses, InMemoryIds(rm.store, q)))
                <==> AllResponded(ra.store, q)))
  {
    hide Run, AerospikeResponses, FiledAlike, Gather, StoreTwin, ThreadTwin, LogTwin, NoRepeats, FairId, MailboxOf,
      ThreadsFit, StatesFit, Inv, Quiescent, AlwaysNew, Init;
    var ra, rm := Run(a, schedule), Run(m, schedule);
    Related(a, m, schedule, q);
    forall x ensures StateOf(ra.store, x) != Some(ERROR)
      ensures StateOf(ra.store, x) == Some(RESPONDED) ==> ResponseOf(ra.store, x).Some?
    {
      AtRestNoErrors(a, schedule, x);
    }
    if Enumerates(order, AerospikeIds(ra.store, q)) {
      AlwaysNewTwin(a, m, schedule);
      FairIds(m, schedule, q);
      ResponseListings(ra, rm, q, order);
    }
  }

  lemma FairIds(m: Sys, schedule: Schedule, q: string)
    requires Init(m) && m.store.InMemory? && AlwaysNew(m, schedule) && FairMailbox(Run(m, schedule).log, q)
    ensures var rm := Run(m, schedule);
      rm.store.InMemory? && forall x :: x in InMemoryIds(rm.store, q) ==> FairId(rm.log, x)
  {
    hide Run, Init, AlwaysNew, FairId, MailboxOf;
    InMemoryFilesRun(m, schedule, q);
  }

  lemma ResponseListings(a: Sys, m: Sys, q: string, order: seq<Id>)
    requires Twin(a, m) && Enumerates(order, AerospikeIds(a.store, q)) && NoRepeats(InMemoryIds(m.store, q))
    requires forall x :: x in order <==> x in InMemoryIds(m.store, q)
    requires forall x :: StateOf(a.store, x) != Some(ERROR) && (x in order ==> FairId(m.log, x))
    ensures multiset(Gather(AerospikeResponses(a.store), order))
        == multiset(Gather(m.store.responses, InMemoryIds(m.store, q)))
      <==> AllResponded(a.store, q)
  {
    hide AerospikeResponses, Gather, StoreTwin, ThreadTwin, LogTwin, NoRepeats, StateOf, ResponseOf, FairId;
    var f, g, ids := AerospikeResponses(a.store), m.store.responses, InMemoryIds(m.store, q);
    forall x | x in order ensures x in f <==> ResponseOf(a.store, x).Some? && StateOf(a.store, x) == Some(RESPONDED)
      ensures x in g <==> ResponseOf(a.store, x).Some?
      ensures x in f ==> x in g && f[x] == g[x]
    {
      ResponseMapsRelate(a, m, q, x);
    }
    GatherIgnoresOrder(g, order, ids);
    if AllResponded(a.store, q) {
      GatherAgrees(f, g, order);
    } else {
      var x :| x in AerospikeIds(a.store, q) && ResponseOf(a.store, x).Some? && StateOf(a.store, x) != Some(RESPONDED);
      GatherIsShorter(f, g, order, x);
      assert |multiset(Gather(f, order))| == |Gather(f, order)|;
      assert |multiset(Gather(g, order))| == |Gather(g, order)|;
    }
  }

  // With `setRequestState` taken as one step no response loses its state

  ghost predicate RespondedFits(s: Sys, x: Id) {
    ResponseOf(s.store, x).Some? ==> StateOf(s.store, x) == Some(RESPONDED)
  }

  lemma RespondedFitsStep(s: Sys, t: Tid, c: Choice, x: Id)
    requires Inv(s) && s.store.Aerospike? && NoneSplit(s) && !c.split && SavesNew(s, t, x) && RespondedFits(s, x)
    ensures RespondedFits(Step(s, t, c), x)
  {
    hide Act, ThreadsFit, StatesFit, Exists, RequestOf, StateOf, ResponseOf, Stored, Needs;
    if t in s.threads {
      NeedsOfStep(s, t);
      ActOnReads(s.store, t, s.threads[t], c, x);
      if StateOf(s.store, x) == Some(RESPONDED) && StateOf(Step(s, t, c).store, x) != Some(RESPONDED) {
        GuardedStep(s, t, c, x);
      }
    }
  }

  lemma {:induction false} RespondedFitsRun(s: Sys, schedule: Schedule, x: Id)
    requires Init(s) && s.store.Aerospike? && Unsplit(schedule) && SavedOnce(s, schedule, x)
    ensures RespondedFits(Run(s, schedule), x)
    decreases |schedule|
  {
    hide Inv, Step, SavesNew, SavedOnce;
    if schedule != [] {
      var k := |schedule| - 1;
      SavedOnceFront(s, schedule, x);
      assert Unsplit(schedule[..k]);
      RespondedFitsRun(s, schedule[..k], x);
      InvRun(s, schedule[..k]);
      AerospikeRuns(s, schedule[..k]);
      UnsplitRun(s, schedule[..k]);
      hide Run, RespondedFits;
      RespondedFitsStep(Run(s, schedule[..k]), schedule[k].0, schedule[k].1, x);
    }
  }

  /**
   Provider agreement: at rest, with `setRequestState` taken as one step, both providers list the same requests and
   the same responses of every mailbox that is not blank and not "NONE", up to spelling and order.
   */
  lemma ProvidersAgree(a: Sys, m: Sys, schedule: Schedule, q: string, order: seq<Id>)
    requires SideBySide(a, m, schedule) && Quiescent(Run(a, schedule)) && Unsplit(schedule)
    requires !IsBlank(q) && q != "NONE" && FairMailbox(Run(m, schedule).log, q)
    ensures var ra, rm := Run(a, schedule), Run(m, schedule);
      && ra.store.Aerospike? && rm.store.InMemory?
      && (Enumerates(order, AerospikeIds(ra.store, q)) ==>
            && multiset(Gather(AerospikeRequests(ra.store), order))
                 == multiset(Gather(InMemoryRequests(rm.store), InMemoryIds(rm.store, q)))
            && multiset(Gather(AerospikeResponses(ra.store), order))
                 == multiset(Gather(rm.store.responses, InMemoryIds(rm.store, q))))
  {
    hide Run, AerospikeResponses, AerospikeRequests, InMemoryRequests, FiledAlike, FairMailbox, Gather, Quiescent, Init,
      IsBlank, Unsplit, StateOf, ResponseOf, Enumerates, SavedOnce;
    var ra := Run(a, schedule);
    OrdinaryMailboxesAreFiledAlike(ra.log, q);
    RequestsAgree(a, m, schedule, q, order);
    ResponsesAgree(a, m, schedule, q, order);
    forall x ensures ResponseOf(ra.store, x).Some? ==> StateOf(ra.store, x) == Some(RESPONDED) {
      RespondedFitsRun(a, schedule, x);
      assert RespondedFits(ra, x);
    }
  }
}
