/** The throttle: a function that runs at most once in a while, and a timer for the calls in between. */
module Throttles {
  import opened Wrappers

  datatype Options = Options(wait: int, leading: bool, trailing: bool)

  /**
   The closure's variables: the time of the last run or 0, the due time of the timer, and the arguments kept for it.
   */
  datatype State = State(previous: int, due: Option<int>, kept: Option<nat>)

  /** A call at some time with some arguments, or the timer going off. */
  datatype Event = Call(now: int, arguments: nat) | Fire(now: int)

  const IDLE := State(0, None, None)

  /** What an event does: the new state, and the arguments the function runs with, if it runs. */
  datatype Effect = Effect(state: State, ran: Option<nat>)

  function React(o: Options, s: State, event: Event): Effect {
    match event
    case Call(now, arguments) =>
      var previous := if s.previous == 0 && !o.leading then now else s.previous;
      var remaining := o.wait - (now - previous);
      if remaining <= 0 then Effect(State(now, None, None), Some(arguments))
      else if s.due.None? && o.trailing then Effect(State(previous, Some(now + remaining), Some(arguments)), None)
      else Effect(State(previous, s.due, Some(arguments)), None)
    case Fire(now) =>
      Effect(State(if o.leading then now else 0, None, None), s.kept)
  }

  class Throttle {
    const options: Options
    var previous: int
    var timeout: Option<int>
    var arguments: Option<nat>

    function Closure(): State
      reads this
    {
      State(previous, timeout, arguments)
    }

    constructor (options: Options)
      ensures this.options == options && Closure() == IDLE
    {
      this.options, previous, timeout, arguments := options, 0, None, None;
    }

    /** The returned function; `ran` is what the throttled function runs with. */
    method Invoke(now: int, given: nat) returns (ran: Option<nat>)
      modifies this
      ensures Effect(Closure(), ran) == React(options, old(Closure()), Call(now, given))
    {
      if previous == 0 && !options.leading {
        previous := now;
      }
      var remaining := options.wait - (now - previous);
      arguments := Some(given);
      ran := None;
      if remaining <= 0 {
        timeout := None;
        previous := now;
        ran := arguments;
        arguments := None;
      } else if timeout.None? && options.trailing {
        timeout := Some(now + remaining);
      }
    }

    method Later(now: int) returns (ran: Option<nat>)
      modifies this
      ensures Effect(Closure(), ran) == React(options, old(Closure()), Fire(now))
    {
      previous := if options.leading then now else 0;
      timeout := None;
      ran := arguments;
      arguments := None;
    }
  }

  // Histories

  function After(o: Options, events: seq<Event>): State {
    if events == [] then IDLE else React(o, After(o, events[..|events| - 1]), events[|events| - 1]).state
  }

  /** What the function runs with at event `k`, if it runs there. */
  function RanAt(o: Options, events: seq<Event>, k: nat): Option<nat>
    requires k < |events|
  {
    React(o, After(o, events[..k]), events[k]).ran
  }

  /** The clock is positive and never goes back, and a timer goes off when one is set and due. */
  predicate Happens(o: Options, events: seq<Event>) {
    events != [] ==>
      var earlier, last := events[..|events| - 1], events[|events| - 1];
      Happens(o, earlier) && last.now > 0 && (earlier != [] ==> earlier[|earlier| - 1].now <= last.now)
      && (last.Fire? ==> After(o, earlier).due.Some? && After(o, earlier).due.value <= last.now)
  }

  /** The arguments of the last call. */
  function LastArguments(events: seq<Event>): Option<nat> {
    if events == [] then None
    else
      var last := events[|events| - 1];
      if last.Call? then Some(last.arguments) else LastArguments(events[..|events| - 1])
  }

  lemma {:induction false} ClockIsMonotone(o: Options, events: seq<Event>, i: nat, k: nat)
    requires Happens(o, events) && i <= k < |events|
    ensures 0 < events[i].now <= events[k].now && Happens(o, events[..k])
    decreases |events|
  {
    var earlier, n := events[..|events| - 1], |events| - 1;
    hide After, React;
    if k < n {
      ClockIsMonotone(o, earlier, i, k);
      assert earlier[..k] == events[..k];
    } else if i < n {
      ClockIsMonotone(o, earlier, i, n - 1);
    }
  }

  /**
   A timer is due `wait` after the remembered time; arguments are kept for it, or for nothing when trailing is off.
   */
  lemma {:induction false} TimerIsDueAfterWait(o: Options, events: seq<Event>)
    requires Happens(o, events)
    ensures var s := After(o, events);
      (s.due.Some? ==>
         s.due.value == s.previous + o.wait && (o.leading || s.previous > 0) && s.kept.Some? && o.trailing)
      && (o.trailing ==> (s.kept.Some? <==> s.due.Some?))
      && s.previous >= 0 && (events != [] ==> s.previous <= events[|events| - 1].now)
      && (s.kept.Some? ==> s.kept == LastArguments(events))
  {
    if events != [] {
      TimerIsDueAfterWait(o, events[..|events| - 1]);
    }
  }

  /** Whenever the function runs, it runs with the arguments of the last call. */
  lemma RunsWithLastArguments(o: Options, events: seq<Event>, k: nat)
    requires Happens(o, events) && k < |events| && RanAt(o, events, k).Some?
    ensures RanAt(o, events, k) == LastArguments(events[..k + 1])
  {
    hide Happens, After;
    ClockIsMonotone(o, events, k, k);
    TimerIsDueAfterWait(o, events[..k]);
    assert events[..k + 1][..k] == events[..k];
  }

  /** A timer that goes off always runs the function. */
  lemma FiredTimersRun(o: Options, events: seq<Event>, k: nat)
    requires Happens(o, events) && k < |events| && events[k].Fire?
    ensures RanAt(o, events, k).Some?
  {
    FireIsDue(o, events, k);
    hide Happens, After;
    ClockIsMonotone(o, events, k, k);
    TimerIsDueAfterWait(o, events[..k]);
  }

  lemma {:induction false} FireIsDue(o: Options, events: seq<Event>, k: nat)
    requires Happens(o, events) && k < |events| && events[k].Fire?
    ensures After(o, events[..k]).due.Some? && After(o, events[..k]).due.value <= events[k].now
    decreases |events|
  {
    hide After;
    if k < |events| - 1 {
      FireIsDue(o, events[..|events| - 1], k);
      assert events[..|events| - 1][..k] == events[..k];
    }
  }

  /** After a run at `i` the remembered time is not before it, unless it was forgotten when leading is off. */
  lemma {:induction false} RunsAreRemembered(o: Options, events: seq<Event>, i: nat)
    requires Happens(o, events) && i < |events| && RanAt(o, events, i).Some?
    ensures var s := After(o, events); s.previous >= events[i].now || (s.previous == 0 && !o.leading && s.due.None?)
    decreases |events|
  {
    var n := |events| - 1;
    ClockIsMonotone(o, events, i, n);
    if i < n {
      assert events[..n][..i] == events[..i];
      RunsAreRemembered(o, events[..n], i);
      if events[n].Fire? {
        FireIsDue(o, events, n);
      }
    }
  }

  /** Any two runs are at least `wait` apart, whatever the calls and however late the timer goes off. */
  lemma RunsAreApart(o: Options, events: seq<Event>, i: nat, k: nat)
    requires Happens(o, events) && i < k < |events| && RanAt(o, events, i).Some? && RanAt(o, events, k).Some?
    ensures events[k].now - events[i].now >= o.wait
  {
    hide Happens, After;
    ClockIsMonotone(o, events, i, k);
    assert events[..k][..i] == events[..i];
    RunsAreRemembered(o, events[..k], i);
    TimerIsDueAfterWait(o, events[..k]);
    if events[k].Fire? {
      FireIsDue(o, events, k);
    }
  }

  /**
   With trailing on no call is lost: the function ran at it or after it, or a timer is set, due at most `wait` after the
   call, that will run the function with the arguments of the last call.
   */
  lemma {:induction false} NoCallIsLost(o: Options, events: seq<Event>, i: nat)
    requires Happens(o, events) && o.trailing && i < |events| && events[i].Call?
    ensures var s := After(o, events);
      (exists k :: i <= k < |events| && RanAt(o, events, k).Some?)
      || (s.due.Some? && s.due.value == s.previous + o.wait <= events[i].now + o.wait && s.kept == LastArguments(events)
          && s.kept.Some?)
    decreases |events|
  {
    var n := |events| - 1;
    if RanAt(o, events, n).None? {
      TimerIsDueAfterWait(o, events);
      hide Happens;
      if i < n {
        NoCallStaysLost(o, events, i);
      } else {
        hide After;
      }
    }
  }

  lemma NoCallStaysLost(o: Options, events: seq<Event>, i: nat)
    requires Happens(o, events) && o.trailing && i < |events| - 1 && events[i].Call?
    requires RanAt(o, events, |events| - 1).None?
    ensures var s := After(o, events);
      (exists k :: i <= k < |events| && RanAt(o, events, k).Some?)
      || (s.due.Some? && s.previous <= events[i].now)
    decreases |events|, 0
  {
    var n := |events| - 1;
    var earlier := events[..n];
    ClockIsMonotone(o, events, n, n);
    NoCallIsLost(o, earlier, i);
    TimerIsDueAfterWait(o, earlier);
    hide Happens;
    if exists k :: i <= k < n && RanAt(o, earlier, k).Some? {
      var k :| i <= k < n && RanAt(o, earlier, k).Some?;
      assert earlier[..k] == events[..k];
      assert RanAt(o, events, k).Some?;
    }
  }

  // Which calls run

  /**
   When the wait that is on began: at the last run, or with leading off, after a run by the timer or at the start, at
   the first call.  None when no wait is on.
   */
  function Began(o: Options, events: seq<Event>): Option<int> {
    if events == [] then None
    else
      var n := |events| - 1;
      var before := Began(o, events[..n]);
      if RanAt(o, events, n).Some? then (if events[n].Fire? && !o.leading then None else Some(events[n].now))
      else if before.None? && !o.leading then Some(events[n].now)
      else before
  }

  /** The remembered time is when the wait began, and 0 stands for none. */
  lemma {:induction false} WaitIsRemembered(o: Options, events: seq<Event>)
    requires Happens(o, events)
    ensures After(o, events).previous == Began(o, events).GetOr(0)
    ensures Began(o, events).Some? ==> Began(o, events).value > 0
    decreases |events|
  {
    if events != [] {
      var n := |events| - 1;
      WaitIsRemembered(o, events[..n]);
      if events[n].Fire? {
        FiredTimersRun(o, events, n);
      }
    }
  }

  /**
   A call runs the function at once exactly when `wait` has passed since the wait that is on began.  With none on, the
   wait is counted from time 0 when leading is on, and begins with the call when it is off.
   */
  lemma CallRunsExactly(o: Options, events: seq<Event>, k: nat)
    requires Happens(o, events) && k < |events| && events[k].Call?
    ensures RanAt(o, events, k).Some? <==>
      match Began(o, events[..k])
      case Some(t) => events[k].now - t >= o.wait
      case None => if o.leading then events[k].now >= o.wait else o.wait <= 0
  {
    ClockIsMonotone(o, events, k, k);
    WaitIsRemembered(o, events[..k]);
    hide Happens, After, Began;
  }

  /** So the very first call runs at once with leading on, the clock being past `wait`, and with it off it does not. */
  lemma FirstCallRunsExactly(o: Options, now: int, arguments: nat)
    requires now >= o.wait > 0
    ensures RanAt(o, [Call(now, arguments)], 0) == if o.leading then Some(arguments) else None
  {
    var events := [Call(now, arguments)];
    assert events[..0] == [];
    CallRunsExactly(o, events, 0);
    if o.leading {
      RunsWithLastArguments(o, events, 0);
    }
  }
}
