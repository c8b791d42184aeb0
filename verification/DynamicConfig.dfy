/** The poller that reloads the configuration when the hash of its text has changed. */
module DynamicConfigs {
  import opened Wrappers
  import opened RouteTables
  import opened RevolverBundles

  /**
   The poller's state: the hash of the text last loaded, absent when it could not be had, and the time of that load.
   */
  datatype Poller = Poller(hash: Option<string>, loadTime: int, tables: Tables)

  /** How a text is hashed, and what configuration it is read as, if any. */
  datatype Texts = Texts(hash: string -> string, parse: string -> Option<seq<ServiceConfig>>)

  /** One poll: the text fetched, if any, and the time. */
  datatype Poll = Poll(text: Option<string>, now: int)

  /** A poll passes the gate when a text is there, a hash is remembered, and the two hashes differ. */
  predicate Passes(x: Texts, p: Poller, poll: Poll) {
    poll.text.Some? && p.hash.Some? && p.hash.value != x.hash(poll.text.value)
  }

  function Refresh(x: Texts, p: Poller, poll: Poll): Poller {
    if !Passes(x, p, poll) || x.parse(poll.text.value).None? then p
    else
      var loaded := Load(p.tables, x.parse(poll.text.value).value);
      if loaded.done then Poller(Some(x.hash(poll.text.value)), poll.now, loaded.tables)
      else p.(tables := loaded.tables)
  }

  /** The answer of a poll: the hash after it, or none when it failed. */
  function Answer(x: Texts, p: Poller, poll: Poll): Option<string> {
    if poll.text.None? || p.hash.None? then None
    else if p.hash.value == x.hash(poll.text.value) then p.hash
    else if x.parse(poll.text.value).None? || !Load(p.tables, x.parse(poll.text.value).value).done then None
    else Some(x.hash(poll.text.value))
  }

  function RefreshAll(x: Texts, p: Poller, polls: seq<Poll>): Poller
    decreases |polls|
  {
    if polls == [] then p else Refresh(x, RefreshAll(x, p, polls[..|polls| - 1]), polls[|polls| - 1])
  }

  /** The configurations that polls load, in turn. */
  function LoadsOf(x: Texts, p: Poller, polls: seq<Poll>): seq<seq<ServiceConfig>>
    decreases |polls|
  {
    if polls == [] then []
    else
      var earlier, poll := polls[..|polls| - 1], polls[|polls| - 1];
      LoadsOf(x, p, earlier)
      + if Passes(x, RefreshAll(x, p, earlier), poll) && x.parse(poll.text.value).Some?
        then [x.parse(poll.text.value).value] else []
  }

  class DynamicConfigHandler {
    const bundle: RevolverBundle
    const hasSource: bool
    const texts: Texts
    var prevConfigHash: Option<string>
    var prevLoadTime: int

    function State(): Poller
      reads this, bundle
    {
      Poller(prevConfigHash, prevLoadTime, bundle.Contents())
    }

    /** The text loaded at the start is only hashed; without a source the hash is a fixed word. */
    constructor (bundle: RevolverBundle, hasSource: bool, texts: Texts, fetched: Option<string>)
      ensures this.bundle == bundle && this.hasSource == hasSource && this.texts == texts
      ensures State() == Poller(
                if !hasSource then Some("unknown") else if fetched.Some? then Some(texts.hash(fetched.value)) else None,
                0, old(bundle.Contents()))
    {
      this.bundle, this.hasSource, this.texts := bundle, hasSource, texts;
      prevLoadTime := 0;
      if !hasSource {
        prevConfigHash := Some("unknown");
      } else if fetched.Some? {
        prevConfigHash := Some(texts.hash(fetched.value));
      } else {
        prevConfigHash := None;
      }
    }

    method RefreshConfig(fetched: Option<string>, now: int) returns (r: Option<string>)
      modifies this, bundle
      ensures !hasSource ==> State() == old(State()) && r == Some("unknown")
      ensures hasSource ==> State() == Refresh(texts, old(State()), Poll(fetched, now))
      ensures hasSource ==> r == Answer(texts, old(State()), Poll(fetched, now))
    {
      hide RouteTables.Load;
      if !hasSource {
        return Some("unknown");
      }
      if fetched.None? || prevConfigHash.None? {
        return None;
      }
      var curHash := texts.hash(fetched.value);
      if prevConfigHash.value == curHash {
        return prevConfigHash;
      }
      var config := texts.parse(fetched.value);
      if config.None? {
        return None;
      }
      var done := bundle.LoadServiceConfiguration(config.value);
      if !done {
        return None;
      }
      prevConfigHash := Some(curHash);
      prevLoadTime := now;
      r := prevConfigHash;
    }
  }

  /** What polls do to the tables is to load, in turn, the configurations that pass the gate. */
  lemma {:induction false} PollsAreLoads(x: Texts, p: Poller, polls: seq<Poll>)
    ensures RefreshAll(x, p, polls).tables == LoadAll(p.tables, LoadsOf(x, p, polls))
    decreases |polls|
  {
    hide Load;
    if polls != [] {
      var earlier, poll := polls[..|polls| - 1], polls[|polls| - 1];
      PollsAreLoads(x, p, earlier);
      var loads := LoadsOf(x, p, earlier);
      if Passes(x, RefreshAll(x, p, earlier), poll) && x.parse(poll.text.value).Some? {
        var config := x.parse(poll.text.value).value;
        assert (loads + [config])[..|loads|] == loads;
      } else {
        assert loads + [] == loads;
      }
    }
  }

  /** A path once matched keeps its answer through all polls, also those whose load fails half-way. */
  lemma PollsKeepAnswers(x: Texts, p: Poller, polls: seq<Poll>, service: string, path: string)
    requires MatchPath(p.tables, service, path).Some?
    ensures MatchPath(RefreshAll(x, p, polls).tables, service, path) == MatchPath(p.tables, service, path)
  {
    hide LoadAll, MatchPath;
    PollsAreLoads(x, p, polls);
    AnswersAreKept(p.tables, LoadsOf(x, p, polls), service, path);
  }

  /** A poll loads its text to the end: it differs from the text remembered, can be read, and no entry of it fails. */
  ghost predicate LoadsToEnd(x: Texts, p: Poller, poll: Poll) {
    && poll.text.Some? && p.hash.Some? && p.hash.value != x.hash(poll.text.value)
    && x.parse(poll.text.value).Some? && forall config :: config in x.parse(poll.text.value).value ==> !Fails(config)
  }

  /** After a poll the hash and the time are those of its text exactly when it loads this to the end. */
  lemma LoadsAreRemembered(x: Texts, p: Poller, poll: Poll)
    ensures var q := Refresh(x, p, poll);
      if LoadsToEnd(x, p, poll) then
        q == Poller(Some(x.hash(poll.text.value)), poll.now, Load(p.tables, x.parse(poll.text.value).value).tables)
      else q.hash == p.hash && q.loadTime == p.loadTime
  {
    hide Load, Fails;
    if poll.text.Some? && x.parse(poll.text.value).Some? {
      LoadFinishes(p.tables, x.parse(poll.text.value).value);
    }
  }

  /**
   A poll answers nothing exactly when there is no text, no hash, or a new text that is not loaded to the end; otherwise
   it answers the hash of its text, which is then the one remembered.
   */
  lemma PollAnswersRememberedHash(x: Texts, p: Poller, poll: Poll)
    ensures var same := poll.text.Some? && p.hash == Some(x.hash(poll.text.value));
      Answer(x, p, poll) ==
        if same || LoadsToEnd(x, p, poll) then Some(x.hash(poll.text.value)) else None
    ensures Answer(x, p, poll).Some? ==> Answer(x, p, poll) == Refresh(x, p, poll).hash
  {
    hide Load, Fails;
    if poll.text.Some? && x.parse(poll.text.value).Some? {
      LoadFinishes(p.tables, x.parse(poll.text.value).value);
    }
  }

  /** While the hash of a text is remembered, polls that fetch it or nothing do nothing. */
  lemma {:induction false} LoadedTextIsNotLoadedAgain(x: Texts, p: Poller, text: string, polls: seq<Poll>)
    requires p.hash == Some(x.hash(text))
    requires forall poll :: poll in polls ==> poll.text.None? || poll.text.value == text
    ensures RefreshAll(x, p, polls) == p && LoadsOf(x, p, polls) == []
    decreases |polls|
  {
    hide Load;
    if polls != [] {
      LoadedTextIsNotLoadedAgain(x, p, text, polls[..|polls| - 1]);
      assert polls[|polls| - 1] in polls;
    }
  }

  /** A text that a poll loads to the end is loaded once, whatever number of later polls fetch it or nothing. */
  lemma NewTextIsLoadedOnce(x: Texts, p: Poller, poll: Poll, polls: seq<Poll>)
    requires LoadsToEnd(x, p, poll)
    requires forall later :: later in polls ==> later.text.None? || later.text == poll.text
    ensures LoadsOf(x, p, [poll] + polls) == [x.parse(poll.text.value).value]
    ensures RefreshAll(x, p, [poll] + polls)
      == Poller(Some(x.hash(poll.text.value)), poll.now, Load(p.tables, x.parse(poll.text.value).value).tables)
  {
    hide Load, Fails, Refresh;
    var first := Refresh(x, p, poll);
    LoadsAreRemembered(x, p, poll);
    LoadedTextIsNotLoadedAgain(x, first, poll.text.value, polls);
    PollsInTwo(x, p, poll, polls);
  }

  /** What polls do and load, the first of them before the others. */
  lemma {:induction false} PollsInTwo(x: Texts, p: Poller, poll: Poll, polls: seq<Poll>)
    ensures RefreshAll(x, p, [poll] + polls) == RefreshAll(x, Refresh(x, p, poll), polls)
    ensures LoadsOf(x, p, [poll] + polls)
      == (if Passes(x, p, poll) && x.parse(poll.text.value).Some? then [x.parse(poll.text.value).value] else [])
         + LoadsOf(x, Refresh(x, p, poll), polls)
    decreases |polls|
  {
    hide Refresh, Passes;
    var all := [poll] + polls;
    if polls == [] {
      assert all[..0] == [] && all == [poll];
    } else {
      var front := polls[..|polls| - 1];
      PollsInTwo(x, p, poll, front);
      assert all[..|all| - 1] == [poll] + front;
    }
  }

  /**
   When the text could not be fetched at the start there is no hash to compare with, and no poll ever loads anything.
   */
  lemma {:induction false} WithoutFirstHashNothingLoads(x: Texts, p: Poller, polls: seq<Poll>)
    requires p.hash.None?
    ensures RefreshAll(x, p, polls) == p && LoadsOf(x, p, polls) == []
    decreases |polls|
  {
    hide Load;
    if polls != [] {
      WithoutFirstHashNothingLoads(x, p, polls[..|polls| - 1]);
    }
  }

  function Repeated(rs: seq<Route>, n: nat): seq<Route> {
    if n == 0 then [] else Repeated(rs, n - 1) + rs
  }

  /**
   A text whose load fails is loaded again at every poll: its routes pile up, once for each poll, while from the second
   poll on no answer changes.
   */
  lemma {:induction false} FailedLoadsPileUp(x: Texts, p: Poller, text: string, polls: seq<Poll>,
    service: string, path: string)
    requires p.hash.Some? && p.hash.value != x.hash(text) && x.parse(text).Some?
    requires exists config :: config in x.parse(text).value && Fails(config)
    requires forall poll :: poll in polls ==> poll.text == Some(text)
    ensures var q := RefreshAll(x, p, polls);
      q.hash == p.hash && q.loadTime == p.loadTime
      && RoutesAt(q.tables, service)
           == RoutesAt(p.tables, service) + Repeated(Added(x.parse(text).value, service), |polls|)
      && (polls != [] ==>
            MatchPath(q.tables, service, path) == MatchPath(Load(p.tables, x.parse(text).value).tables, service, path))
    decreases |polls|
  {
    hide Load, Added, MatchPath, RoutesAt;
    if polls != [] {
      var configs := x.parse(text).value;
      var earlier, n := polls[..|polls| - 1], |polls| - 1;
      assert polls[n] in polls;
      FailedLoadsPileUp(x, p, text, earlier, service, path);
      var q := RefreshAll(x, p, earlier);
      LoadFinishes(q.tables, configs);
      assert RefreshAll(x, p, polls) == q.(tables := Load(q.tables, configs).tables);
      LoadAdds(q.tables, configs, service);
      if n > 0 {
        SecondLoad(p.tables, q.tables, configs, service, path);
      }
    }
  }

  /** Where a configuration's answers are given already, loading it changes none of them. */
  lemma SecondLoad(t: Tables, u: Tables, configs: seq<ServiceConfig>, service: string, path: string)
    requires MatchPath(u, service, path) == MatchPath(Load(t, configs).tables, service, path)
    ensures MatchPath(Load(u, configs).tables, service, path) == MatchPath(u, service, path)
  {
    hide Load, Added, MatchPath, FirstMatch;
    LoadAnswers(t, configs, service, path);
    LoadAnswers(u, configs, service, path);
  }
}
