/**
 The command a callback is made with: a cache of configurations by endpoint before the shared map of commands by name.
 */
module CallbackCommands {
  import opened Wrappers

  /** The parts of a URI that are looked at; the port is -1 when there is none. */
  datatype Uri = Uri(scheme: string, host: Option<string>, port: int)

  /** A callback request; each header is absent or a list of values. */
  datatype CallbackRequest = CallbackRequest(uri: Uri, methods: Option<seq<string>>, timeouts: Option<seq<string>>)

  /** The text `scheme://host:port` by its parts. */
  datatype Endpoint = Endpoint(scheme: string, host: string, port: int)

  datatype EndpointSpec = Simple(host: string, port: int) | Ranger(environment: string, service: string)

  /** What a command calls, and as which service and API. */
  datatype Target = Target(service: string, kind: string, secured: bool, spec: EndpointSpec, api: string)

  datatype Config = Config(target: Target, method_: string, timeout: int)

  /** A command of a configured service, or one built for a callback. */
  datatype Command = Configured(index: nat) | ForCallback(config: Config)

  const REQUEST_METHODS := {"GET", "POST", "PUT", "DELETE", "HEAD", "PATCH", "OPTIONS"}

  // Building a configuration

  /** A missing host is written as the word null. */
  function EndpointOf(uri: Uri): Endpoint {
    Endpoint(uri.scheme, uri.host.GetOr("null"), uri.port)
  }

  function ServiceName(host: string): (r: string)
    ensures |r| == |host| && forall i :: 0 <= i < |host| ==> r[i] == if host[i] == '.' then '-' else host[i]
  {
    seq(|host|, i requires 0 <= i < |host| => if host[i] == '.' then '-' else host[i])
  }

  /** The pieces between the dots, at least one. */
  function Pieces(host: string): (r: seq<string>)
    ensures r != []
  {
    if host == "" then [""]
    else
      var rest := Pieces(host[1..]);
      if host[0] == '.' then [""] + rest else [[host[0]] + rest[0]] + rest[1..]
  }

  function DropEmptyTail(pieces: seq<string>): seq<string> {
    if pieces != [] && pieces[|pieces| - 1] == "" then DropEmptyTail(pieces[..|pieces| - 1]) else pieces
  }

  /** `host.split("\\.")`: empty pieces at the end are dropped. */
  function SplitHost(host: string): seq<string> {
    DropEmptyTail(Pieces(host))
  }

  /** The target of an endpoint; a ranger host needs three parts. */
  function TargetOf(e: Endpoint): Option<Target> {
    var service := ServiceName(e.host);
    if e.scheme == "ranger" then
      var parts := SplitHost(e.host);
      if |parts| != 3 then None
      else Some(Target(service, "ranger_sharded", false, Ranger(parts[0], parts[1]), parts[2]))
    else
      var port := if e.port == 0 || e.port == -1 then 80 else e.port;
      Some(Target(service, e.scheme, e.scheme == "https", Simple(e.host, port), "callback"))
  }

  /** The first value of a header, the default when it is absent or empty; an empty list of values is an error. */
  function Header(values: Option<seq<string>>): Result<Option<string>> {
    if values.None? then Ok(None)
    else if values.value == [] then Failed
    else if values.value[0] == "" then Ok(None)
    else Ok(Some(values.value[0]))
  }

  function Digits(s: string): Option<nat> {
    if s == "" then Some(0)
    else
      var before := Digits(s[..|s| - 1]);
      var c := s[|s| - 1];
      if before.Some? && '0' <= c <= '9' then Some(10 * before.value + (c as int - '0' as int)) else None
  }

  /** `Integer.parseInt`: an optional sign and at least one digit, within 32 bits. */
  function ParseInt(s: string): Option<int> {
    var signed := s != "" && (s[0] == '-' || s[0] == '+');
    var digits := if signed then s[1..] else s;
    var n := Digits(digits);
    if digits == "" || n.None? then None
    else
      var value: int := if signed && s[0] == '-' then -(n.value as int) else n.value;
      if -0x8000_0000 <= value < 0x8000_0000 then Some(value) else None
  }

  function MethodOf(r: CallbackRequest): Option<string> {
    var header := Header(r.methods);
    if header.Failed? then None
    else
      var name := header.value.GetOr("POST");
      if name in REQUEST_METHODS then Some(name) else None
  }

  function TimeoutOf(r: CallbackRequest, default: int): Option<int> {
    var header := Header(r.timeouts);
    if header.Failed? then None
    else if header.value.None? then Some(default)
    else ParseInt(header.value.value)
  }

  function BuildConfiguration(r: CallbackRequest, e: Endpoint, default: int): Result<Config> {
    var target, name, timeout := TargetOf(e), MethodOf(r), TimeoutOf(r, default);
    if target.Some? && name.Some? && timeout.Some? then Ok(Config(target.value, name.value, timeout.value)) else Failed
  }

  // The two levels of lookup

  datatype Lookups = Lookups(cache: map<Endpoint, Config>, commands: map<string, Command>)

  /** A callback, with whether a command can be built for it; or a load that puts a command for a configured service. */
  datatype Event = Callback(request: CallbackRequest, builds: bool) | Load(service: string, index: nat)

  const NO_LOOKUPS := Lookups(map[], map[])

  function ConfigFor(l: Lookups, r: CallbackRequest, default: int): Result<Config> {
    var e := EndpointOf(r.uri);
    if e in l.cache then Ok(l.cache[e]) else BuildConfiguration(r, e, default)
  }

  /**
   After a callback; a configuration that could not be built is not cached, a command that could not be built not put.
   */
  function AfterCallback(l: Lookups, r: CallbackRequest, builds: bool, default: int): Lookups {
    var config := ConfigFor(l, r, default);
    if config.Failed? then l
    else
      var service := config.value.target.service;
      Lookups(l.cache[EndpointOf(r.uri) := config.value],
              if service in l.commands || !builds then l.commands else l.commands[service := ForCallback(config.value)])
  }

  function After(l: Lookups, event: Event, default: int): Lookups {
    match event
    case Callback(r, builds) => AfterCallback(l, r, builds, default)
    case Load(service, index) => l.(commands := l.commands[service := Configured(index)])
  }

  function Run(events: seq<Event>, default: int): Lookups {
    if events == [] then NO_LOOKUPS else After(Run(events[..|events| - 1], default), events[|events| - 1], default)
  }

  /** The command a callback gets after `events`, if any. */
  function CommandUsed(events: seq<Event>, r: CallbackRequest, builds: bool, default: int): Option<Command> {
    var l := Run(events, default);
    var config := ConfigFor(l, r, default);
    if config.Failed? then None
    else
      var after := AfterCallback(l, r, builds, default).commands;
      if config.value.target.service in after then Some(after[config.value.target.service]) else None
  }

  /**
   What becomes of the call: the API is always asked for as `callback`, and only the command's own method is allowed.
   */
  datatype Sent =
    | NotSent
    | ToConfigured(index: nat)
    | NoSuchApi
    | MethodRefused
    | Called(spec: EndpointSpec, method_: string, timeout: int)

  function Execute(command: Command, name: string): Sent {
    match command
    case Configured(index) => ToConfigured(index)
    case ForCallback(config) =>
      if config.target.api != "callback" then NoSuchApi
      else if config.method_ != name then MethodRefused
      else Called(config.target.spec, name, config.timeout)
  }

  function SendCallback(events: seq<Event>, r: CallbackRequest, builds: bool, default: int): Sent {
    var command := CommandUsed(events, r, builds, default);
    if command.None? || MethodOf(r).None? then NotSent else Execute(command.value, MethodOf(r).value)
  }

  class CallbackHandler {
    var clientLoadingCache: map<Endpoint, Config>
    /** The commands of the gateway, which configuration loads put too. */
    var httpCommands: map<string, Command>
    const callbackTimeout: int

    function State(): Lookups
      reads this
    {
      Lookups(clientLoadingCache, httpCommands)
    }

    constructor (callbackTimeout: int)
      ensures State() == NO_LOOKUPS && this.callbackTimeout == callbackTimeout
    {
      clientLoadingCache, httpCommands, this.callbackTimeout := map[], map[], callbackTimeout;
    }

    method AddHttpCommand(service: string, command: Command)
      modifies this`httpCommands
      ensures httpCommands == old(httpCommands)[service := command]
    {
      httpCommands := httpCommands[service := command];
    }

    method GetCommand(config: Config, builds: bool) returns (command: Option<Command>)
      modifies this`httpCommands
      ensures var service := config.target.service;
        httpCommands == (if service in old(httpCommands) || !builds then old(httpCommands)
                         else old(httpCommands)[service := ForCallback(config)])
        && command == (if service in httpCommands then Some(httpCommands[service]) else None)
    {
      var service := config.target.service;
      if service !in httpCommands {
        if !builds {
          return None;
        }
        AddHttpCommand(service, ForCallback(config));
      }
      command := Some(httpCommands[service]);
    }

    method MakeCallback(ghost events: seq<Event>, r: CallbackRequest, builds: bool) returns (sent: Sent)
      requires State() == Run(events, callbackTimeout)
      modifies this
      ensures State() == Run(events + [Callback(r, builds)], callbackTimeout)
      ensures sent == SendCallback(events, r, builds, callbackTimeout)
    {
      hide BuildConfiguration, Execute, MethodOf;
      assert (events + [Callback(r, builds)])[..|events|] == events;
      var e := EndpointOf(r.uri);
      if e !in clientLoadingCache {
        var built := BuildConfiguration(r, e, callbackTimeout);
        if built.Failed? {
          return NotSent;
        }
        clientLoadingCache := clientLoadingCache[e := built.value];
      }
      var config := clientLoadingCache[e];
      assert clientLoadingCache == old(clientLoadingCache)[e := config];
      var command := GetCommand(config, builds);
      var name := MethodOf(r);
      sent := if command.None? || name.None? then NotSent else Execute(command.value, name.value);
    }
  }

  // Whose command a service name stands for

  /** The configuration built by the first callback of an endpoint for which that succeeds. */
  function FirstBuild(events: seq<Event>, e: Endpoint, default: int): Option<Config> {
    if events == [] then None
    else
      var before, last := FirstBuild(events[..|events| - 1], e, default), events[|events| - 1];
      if before.Some? || last.Load? || EndpointOf(last.request.uri) != e then before
      else
        var config := BuildConfiguration(last.request, e, default);
        if config.Ok? then Some(config.value) else None
  }

  datatype Owner = ByLoad(index: nat) | ByCallback(endpoint: Endpoint)

  /** Who put the command of a service name: the last load of that name, otherwise the first callback able to. */
  function OwnerOf(events: seq<Event>, service: string, default: int): Option<Owner> {
    if events == [] then None
    else
      var last, before := events[|events| - 1], OwnerOf(events[..|events| - 1], service, default);
      match last
      case Load(s, index) => if s == service then Some(ByLoad(index)) else before
      case Callback(r, builds) =>
        var e := EndpointOf(r.uri);
        if before.None? && builds && ServiceName(e.host) == service && FirstBuild(events, e, default).Some?
        then Some(ByCallback(e))
        else before
  }

  lemma BuiltTarget(r: CallbackRequest, e: Endpoint, default: int)
    ensures var config := BuildConfiguration(r, e, default);
      config.Ok? ==> TargetOf(e) == Some(config.value.target) && config.value.target.service == ServiceName(e.host)
  {
    hide SplitHost, MethodOf, TimeoutOf;
  }

  lemma {:induction false} FirstBuildTarget(events: seq<Event>, e: Endpoint, default: int)
    ensures var config := FirstBuild(events, e, default);
      config.Some? ==> TargetOf(e) == Some(config.value.target) && config.value.target.service == ServiceName(e.host)
  {
    hide BuildConfiguration, TargetOf, ServiceName;
    if events != [] {
      var last := events[|events| - 1];
      FirstBuildTarget(events[..|events| - 1], e, default);
      if last.Callback? {
        BuiltTarget(last.request, e, default);
      }
    }
  }

  /** The cache holds what was first built for each endpoint. */
  lemma {:induction false} CacheHoldsFirstBuild(events: seq<Event>, e: Endpoint, default: int)
    ensures var cache, first := Run(events, default).cache, FirstBuild(events, e, default);
      (e in cache <==> first.Some?) && (e in cache ==> cache[e] == first.value)
  {
    hide BuildConfiguration;
    if events != [] {
      CacheHoldsFirstBuild(events[..|events| - 1], e, default);
    }
  }

  /** The command that an owner puts. */
  predicate StandsFor(command: Command, owner: Owner, events: seq<Event>, default: int) {
    match owner
    case ByLoad(index) => command == Configured(index)
    case ByCallback(e) =>
      var first := FirstBuild(events, e, default);
      first.Some? && command == ForCallback(first.value)
  }

  lemma FirstBuildStays(events: seq<Event>, e: Endpoint, default: int)
    requires events != [] && FirstBuild(events[..|events| - 1], e, default).Some?
    ensures FirstBuild(events, e, default) == FirstBuild(events[..|events| - 1], e, default)
  {
  }

  /** Over every run a service name stands for the command of its owner, and for none when it has no owner. */
  lemma {:induction false} CommandsAreTheirOwners(events: seq<Event>, service: string, default: int)
    ensures var commands, owner := Run(events, default).commands, OwnerOf(events, service, default);
      (service in commands <==> owner.Some?)
      && (owner.Some? ==> StandsFor(commands[service], owner.value, events, default))
  {
    if events != [] {
      var earlier, last := events[..|events| - 1], events[|events| - 1];
      CommandsAreTheirOwners(earlier, service, default);
      var owner := OwnerOf(earlier, service, default);
      if owner.Some? && owner.value.ByCallback? {
        FirstBuildStays(events, owner.value.endpoint, default);
      }
      if last.Callback? {
        hide TargetOf, ServiceName, FirstBuild, BuildConfiguration;
        CallbackKeepsOwners(earlier, last.request, last.builds, service, default);
        assert earlier + [last] == events;
      } else {
        hide FirstBuild;
      }
    }
  }

  lemma CallbackKeepsOwners(events: seq<Event>, r: CallbackRequest, builds: bool, service: string, default: int)
    ensures var e, all := EndpointOf(r.uri), events + [Callback(r, builds)];
      var before, after := Run(events, default).commands, Run(all, default).commands;
      var first := FirstBuild(all, e, default);
      after == if first.None? || ServiceName(e.host) in before || !builds then before
               else before[ServiceName(e.host) := ForCallback(first.value)]
  {
    hide TargetOf, ServiceName, BuildConfiguration;
    var e, all := EndpointOf(r.uri), events + [Callback(r, builds)];
    assert all[..|events|] == events;
    CacheHoldsFirstBuild(events, e, default);
    FirstBuildTarget(all, e, default);
  }

  /** The command calls what a configuration built afresh for the endpoint would. */
  predicate Fresh(command: Command, e: Endpoint) {
    command.ForCallback? && TargetOf(e) == Some(command.config.target)
  }

  /**
   A callback that gets a command gets the one built afresh for its endpoint, up to method and timeout, exactly when the
   name of its service is owned by a callback whose endpoint has the same target.
   */
  lemma CommandIsFreshExactly(events: seq<Event>, r: CallbackRequest, builds: bool, default: int)
    requires CommandUsed(events, r, builds, default).Some?
    ensures var e := EndpointOf(r.uri);
      var owner := OwnerOf(events + [Callback(r, builds)], ServiceName(e.host), default);
      owner.Some?
      && (Fresh(CommandUsed(events, r, builds, default).value, e)
          <==> owner.value.ByCallback? && TargetOf(owner.value.endpoint) == TargetOf(e))
  {
    hide TargetOf, ServiceName, BuildConfiguration, OwnerOf, FirstBuild;
    var e, all := EndpointOf(r.uri), events + [Callback(r, builds)];
    var owner := OwnerOf(all, ServiceName(e.host), default);
    UsedCommand(events, r, builds, default);
    CommandsAreTheirOwners(all, ServiceName(e.host), default);
    FirstBuildTarget(all, e, default);
    if owner.value.ByCallback? {
      FirstBuildTarget(all, owner.value.endpoint, default);
    }
  }

  lemma UsedCommand(events: seq<Event>, r: CallbackRequest, builds: bool, default: int)
    ensures var service, all := ServiceName(EndpointOf(r.uri).host), events + [Callback(r, builds)];
      var commands, first := Run(all, default).commands, FirstBuild(all, EndpointOf(r.uri), default);
      CommandUsed(events, r, builds, default)
        == if first.Some? && service in commands then Some(commands[service]) else None
  {
    hide TargetOf, ServiceName, BuildConfiguration;
    var e, all := EndpointOf(r.uri), events + [Callback(r, builds)];
    assert all[..|events|] == events;
    CacheHoldsFirstBuild(events, e, default);
    FirstBuildTarget(all, e, default);
  }

  /** No load of the run is of a service of this name. */
  predicate NoneConfigured(events: seq<Event>, service: string) {
    forall i :: 0 <= i < |events| && events[i].Load? ==> events[i].service != service
  }

  /** No other endpoint of the run has the service name of `e`. */
  predicate OwnName(events: seq<Event>, e: Endpoint) {
    forall i :: 0 <= i < |events| && events[i].Callback? ==>
      var f := EndpointOf(events[i].request.uri);
      ServiceName(f.host) == ServiceName(e.host) ==> f == e
  }

  lemma {:induction false} OwnerWithOwnName(events: seq<Event>, e: Endpoint, default: int)
    requires NoneConfigured(events, ServiceName(e.host)) && OwnName(events, e)
    ensures OwnerOf(events, ServiceName(e.host), default) in {None, Some(ByCallback(e))}
  {
    hide FirstBuild, ServiceName;
    if events != [] {
      var earlier, n := events[..|events| - 1], |events| - 1;
      assert forall i :: 0 <= i < n ==> earlier[i] == events[i];
      OwnerWithOwnName(earlier, e, default);
      assert events[n].Callback? || events[n].service != ServiceName(e.host);
    }
  }

  /**
   An endpoint with a service name of its own, which no configured service has: over every run its callbacks get the
   command built afresh, with the method and timeout of the first one. So each is called there if it has that same
   method and is refused otherwise, and ranger endpoints are only called when their API happens to be named `callback`.
   */
  lemma OwnNamesGetFreshCommands(events: seq<Event>, r: CallbackRequest, default: int)
    requires NoneConfigured(events, ServiceName(EndpointOf(r.uri).host)) && OwnName(events, EndpointOf(r.uri))
    ensures var e := EndpointOf(r.uri);
      var first := FirstBuild(events + [Callback(r, true)], e, default);
      var command, sent := CommandUsed(events, r, true, default), SendCallback(events, r, true, default);
      if first.None? then command.None? && sent == NotSent
      else
        command == Some(ForCallback(first.value)) && Fresh(command.value, e)
        && (MethodOf(r).Some? && TargetOf(e).value.api == "callback" ==>
              sent == if MethodOf(r).value == first.value.method_
                      then Called(TargetOf(e).value.spec, MethodOf(r).value, first.value.timeout) else MethodRefused)
        && (MethodOf(r).Some? && TargetOf(e).value.api != "callback" ==> sent == NoSuchApi)
  {
    hide TargetOf, ServiceName, BuildConfiguration, MethodOf, Run, CommandUsed, FirstBuild;
    var e, all := EndpointOf(r.uri), events + [Callback(r, true)];
    assert forall i :: 0 <= i < |events| ==> all[i] == events[i];
    UsedCommand(events, r, true, default);
    CommandsAreTheirOwners(all, ServiceName(e.host), default);
    OwnerWithOwnName(all, e, default);
    FirstBuildTarget(all, e, default);
    assert all[..|events|] == events;
  }

  /**
   Two endpoints of scheme http or https have one target exactly when scheme, host and port agree, 0 and none being
   80.
   */
  lemma SameTargetExactly(e: Endpoint, f: Endpoint)
    requires e.scheme != "ranger" && f.scheme != "ranger"
    ensures TargetOf(e) == TargetOf(f) <==>
      e.scheme == f.scheme && e.host == f.host
      && (e.port == f.port || (e.port in {-1, 0, 80} && f.port in {-1, 0, 80}))
  {
  }

  /** A second port of the same host: its callbacks are made to the first port. */
  lemma SecondPortGoesToFirst(host: string, default: int)
    ensures var first := CallbackRequest(Uri("http", Some(host), 8080), None, None);
      var second := CallbackRequest(Uri("http", Some(host), 9090), None, None);
      SendCallback([Callback(first, true)], second, true, default) == Called(Simple(host, 8080), "POST", default)
      && SendCallback([], second, true, default) == Called(Simple(host, 9090), "POST", default)
  {
    hide SplitHost, ParseInt;
    var first := Callback(CallbackRequest(Uri("http", Some(host), 8080), None, None), true);
    assert [first][..0] == [];
    assert Run([first], default) == After(NO_LOOKUPS, first, default);
  }

  // What a callback sends

  predicate AllDigits(s: string) {
    forall i :: 0 <= i < |s| ==> '0' <= s[i] <= '9'
  }

  function PowerOfTen(k: nat): nat {
    if k == 0 then 1 else 10 * PowerOfTen(k - 1)
  }

  /** The value of digits by their places. */
  function PlaceValue(s: string): int {
    if s == "" then 0 else (s[0] as int - '0' as int) * PowerOfTen(|s| - 1) + PlaceValue(s[1..])
  }

  lemma {:induction false} PlaceValueOfMore(s: string, c: char)
    ensures PlaceValue(s + [c]) == 10 * PlaceValue(s) + (c as int - '0' as int)
    decreases |s|
  {
    if s == "" {
      assert ("" + [c])[1..] == "" && PowerOfTen(0) == 1;
    } else {
      PlaceValueOfMore(s[1..], c);
      assert (s + [c])[1..] == s[1..] + [c];
      var d, power := s[0] as int - '0' as int, PowerOfTen(|s| - 1);
      assert PowerOfTen(|s|) == 10 * power;
      assert d * (10 * power) == 10 * (d * power);
    }
  }

  lemma {:induction false} DigitsByPlaces(s: string)
    ensures Digits(s).Some? <==> AllDigits(s)
    ensures AllDigits(s) ==> Digits(s).value == PlaceValue(s)
    decreases |s|
  {
    if s != "" {
      var front, c := s[..|s| - 1], s[|s| - 1];
      DigitsByPlaces(front);
      PlaceValueOfMore(front, c);
      assert front + [c] == s;
      assert AllDigits(s) <==> AllDigits(front) && '0' <= c <= '9';
    }
  }

  /** An integer is read off exactly a sign or none and then digits, when their value has 32 bits. */
  lemma ParseIntExactly(s: string, n: int)
    ensures ParseInt(s) == Some(n) <==>
      -0x8000_0000 <= n <= 0x7fff_ffff
      && exists sign, digits ::
           s == sign + digits && sign in {"", "+", "-"} && digits != "" && AllDigits(digits)
           && n == if sign == "-" then -PlaceValue(digits) else PlaceValue(digits)
  {
    hide Digits, PlaceValue, AllDigits;
    var signed := s != "" && (s[0] == '-' || s[0] == '+');
    var sign, digits := if signed then s[..1] else "", if signed then s[1..] else s;
    DigitsByPlaces(digits);
    assert s == sign + digits;
    forall other, rest | s == other + rest && other in {"", "+", "-"} && rest != "" && AllDigits(rest)
      ensures other == sign && rest == digits
    {
      SignIsFirst(s, other, rest);
    }
    if ParseInt(s) == Some(n) {
      assert signed ==> sign == [s[0]];
      assert sign in {"", "+", "-"} && AllDigits(digits) && s == sign + digits && digits != "";
    }
  }

  lemma SignIsFirst(s: string, sign: string, digits: string)
    requires s == sign + digits && sign in {"", "+", "-"} && digits != "" && AllDigits(digits)
    ensures var signed := s[0] == '-' || s[0] == '+';
      sign == (if signed then s[..1] else "") && digits == if signed then s[1..] else s
  {
    if sign == "" {
      assert s == digits;
    } else {
      assert s[0] == sign[0];
    }
  }

  /** The service name, kind and address of a callback to an http or https endpoint. */
  lemma TargetOfHttp(e: Endpoint)
    requires e.scheme != "ranger"
    ensures TargetOf(e).Some?
    ensures var target := TargetOf(e).value;
      target.service == ServiceName(e.host) && target.kind == e.scheme && target.api == "callback"
      && (target.secured <==> e.scheme == "https")
      && target.spec == Simple(e.host, if e.port in {-1, 0} then 80 else e.port)
  {
  }

  /** No callback of the run is to this service name. */
  predicate NoneCalled(events: seq<Event>, service: string) {
    forall i :: 0 <= i < |events| && events[i].Callback? ==>
      ServiceName(EndpointOf(events[i].request.uri).host) != service
  }

  lemma {:induction false} NothingBuiltYet(events: seq<Event>, e: Endpoint, default: int)
    requires NoneCalled(events, ServiceName(e.host))
    ensures FirstBuild(events, e, default).None?
  {
    hide BuildConfiguration, ServiceName;
    if events != [] {
      NothingBuiltYet(events[..|events| - 1], e, default);
      var last := events[|events| - 1];
      assert last.Load? || ServiceName(EndpointOf(last.request.uri).host) != ServiceName(e.host);
    }
  }

  /**
   The first callback to an http or https service name that is not configured.  It is sent to the host and port of its
   URI, with the method and timeout of its headers: POST and the default when a header is absent or its first value is
   empty.  It is not sent when a header has no values, the method is none of the seven or the timeout is no integer.
   */
  lemma FirstCallbackIsSent(events: seq<Event>, r: CallbackRequest, default: int)
    requires r.uri.scheme != "ranger"
    requires var service := ServiceName(if r.uri.host.Some? then r.uri.host.value else "null");
      NoneConfigured(events, service) && NoneCalled(events, service)
    ensures
      var host := if r.uri.host.Some? then r.uri.host.value else "null";
      var method_ := if r.methods.None? || r.methods == Some([]) || r.methods.value[0] == "" then "POST"
                     else r.methods.value[0];
      var given := r.timeouts.Some? && r.timeouts != Some([]) && r.timeouts.value[0] != "";
      SendCallback(events, r, true, default) ==
        if r.methods == Some([]) || r.timeouts == Some([])
           || method_ !in {"GET", "POST", "PUT", "DELETE", "HEAD", "PATCH", "OPTIONS"}
           || (given && ParseInt(r.timeouts.value[0]).None?)
        then NotSent
        else Called(Simple(host, if r.uri.port in {-1, 0} then 80 else r.uri.port), method_,
                    if given then ParseInt(r.timeouts.value[0]).value else default)
  {
    var e, all := EndpointOf(r.uri), events + [Callback(r, true)];
    assert all[..|events|] == events;
    hide ParseInt, SendCallback, CommandUsed, FirstBuild, ServiceName;
    NothingBuiltYet(events, e, default);
    OwnNamesGetFreshCommands(events, r, default);
    FirstBuildNow(events, r, default);
    TargetOfHttp(e);
  }

  lemma FirstBuildNow(events: seq<Event>, r: CallbackRequest, default: int)
    requires FirstBuild(events, EndpointOf(r.uri), default).None?
    ensures var config := BuildConfiguration(r, EndpointOf(r.uri), default);
      FirstBuild(events + [Callback(r, true)], EndpointOf(r.uri), default)
        == if config.Ok? then Some(config.value) else None
  {
    hide BuildConfiguration;
    assert (events + [Callback(r, true)])[..|events|] == events;
  }

  // Ranger hosts

  predicate Dotless(s: string) {
    forall i :: 0 <= i < |s| ==> s[i] != '.'
  }

  function Dots(k: nat): string {
    if k == 0 then "" else "." + Dots(k - 1)
  }

  function WithDots(pieces: seq<string>): string
    requires pieces != []
  {
    if |pieces| == 1 then pieces[0] else pieces[0] + "." + WithDots(pieces[1..])
  }

  lemma {:induction false} PiecesWithDots(host: string)
    ensures WithDots(Pieces(host)) == host && forall piece :: piece in Pieces(host) ==> Dotless(piece)
  {
    if host != "" {
      PiecesWithDots(host[1..]);
      var rest := Pieces(host[1..]);
      if host[0] == '.' {
        assert ([""] + rest)[1..] == rest;
        assert WithDots([""] + rest) == "" + "." + WithDots(rest);
      } else {
        var grown := [[host[0]] + rest[0]] + rest[1..];
        assert grown[1..] == rest[1..];
        assert WithDots(grown) == [host[0]] + WithDots(rest);
        assert rest[0] in rest && Dotless(rest[0]) && Dotless([host[0]] + rest[0]);
      }
    }
  }

  lemma {:induction false} PiecesOfDotless(a: string, rest: string)
    requires Dotless(a)
    ensures Pieces(a) == [a] && Pieces(a + "." + rest) == [a] + Pieces(rest)
    decreases |a|
  {
    var whole := a + "." + rest;
    if a == "" {
      assert whole[1..] == rest;
    } else {
      PiecesOfDotless(a[1..], rest);
      assert whole[1..] == a[1..] + "." + rest;
      assert [a[0]] + a[1..] == a;
    }
  }

  lemma {:induction false} PiecesOfDots(c: string, k: nat)
    requires Dotless(c) && c != ""
    ensures DropEmptyTail(Pieces(c + Dots(k))) == [c] && Pieces(c + Dots(k)) == [c] + seq(k, _ => "")
  {
    hide DropEmptyTail, Dotless, Pieces;
    PiecesOfDotless(c, if k == 0 then "" else Dots(k - 1));
    if k == 0 {
      assert c + Dots(0) == c && [c] + seq(0, _ => "") == [c];
    } else {
      assert c + Dots(k) == c + "." + Dots(k - 1);
      PiecesOfOnlyDots(k - 1);
      assert [c] + seq(k, _ => "") == [c] + ([""] + seq(k - 1, _ => ""));
    }
    EmptyTailDropped([c], k);
  }

  lemma {:induction false} PiecesOfOnlyDots(k: nat)
    ensures Pieces(Dots(k)) == [""] + seq(k, _ => "")
  {
    if k > 0 {
      PiecesOfOnlyDots(k - 1);
      assert Dots(k)[1..] == Dots(k - 1);
    }
  }

  lemma {:induction false} EmptyTailDropped(pieces: seq<string>, k: nat)
    requires pieces != [] && pieces[|pieces| - 1] != ""
    ensures DropEmptyTail(pieces + seq(k, _ => "")) == pieces
  {
    var all := pieces + seq(k, _ => "");
    if k == 0 {
      assert all == pieces;
    } else {
      EmptyTailDropped(pieces, k - 1);
      assert all[..|all| - 1] == pieces + seq(k - 1, _ => "");
    }
  }

  lemma {:induction false} TailIsDots(pieces: seq<string>)
    ensures var kept := DropEmptyTail(pieces);
      && kept <= pieces && (kept != [] ==> kept[|kept| - 1] != "")
      && (kept != [] ==> WithDots(pieces) == WithDots(kept) + Dots(|pieces| - |kept|))
    decreases |pieces|
  {
    if pieces != [] && pieces[|pieces| - 1] == "" {
      var front := pieces[..|pieces| - 1];
      TailIsDots(front);
      if DropEmptyTail(front) != [] {
        WithDotsMore(front, "");
        assert front + [""] == pieces;
        DotsMore(|front| - |DropEmptyTail(front)|);
      }
    }
  }

  lemma {:induction false} WithDotsMore(pieces: seq<string>, last: string)
    requires pieces != []
    ensures WithDots(pieces + [last]) == WithDots(pieces) + "." + last
    decreases |pieces|
  {
    assert (pieces + [last])[1..] == pieces[1..] + [last];
    if |pieces| > 1 {
      WithDotsMore(pieces[1..], last);
    } else {
      assert pieces[1..] == [];
    }
  }

  lemma {:induction false} DotsMore(k: nat)
    ensures Dots(k) + "." == Dots(k + 1)
  {
    if k > 0 {
      DotsMore(k - 1);
    }
  }

  /** A ranger host is an environment, a service and an API between dots, and any number of dots after them. */
  predicate IsRangerHost(host: string, environment: string, service: string, api: string, k: nat) {
    host == environment + "." + service + "." + api + Dots(k)
    && Dotless(environment) && Dotless(service) && Dotless(api) && api != ""
  }

  lemma RangerHostSplits(host: string, environment: string, service: string, api: string, k: nat)
    requires IsRangerHost(host, environment, service, api, k)
    ensures SplitHost(host) == [environment, service, api]
  {
    hide Pieces, Dots, DropEmptyTail, Dotless;
    var last := api + Dots(k);
    PiecesOfDotless(environment, service + "." + last);
    assert environment + "." + (service + "." + last) == host;
    PiecesOfDotless(service, last);
    PiecesOfDots(api, k);
    assert Pieces(host) == [environment, service, api] + seq(k, _ => "");
    EmptyTailDropped([environment, service, api], k);
  }

  lemma SplitInThree(host: string) returns (k: nat)
    requires |SplitHost(host)| == 3
    ensures IsRangerHost(host, SplitHost(host)[0], SplitHost(host)[1], SplitHost(host)[2], k)
  {
    hide Dots, DropEmptyTail, Dotless, Pieces;
    PiecesWithDots(host);
    TailIsDots(Pieces(host));
    var parts := SplitHost(host);
    assert parts[0] in Pieces(host) && parts[1] in Pieces(host) && parts[2] in Pieces(host);
    assert parts[1..] == [parts[1], parts[2]] && parts[1..][1..] == [parts[2]];
    k := |Pieces(host)| - 3;
    assert WithDots(parts[1..]) == parts[1] + "." + parts[2];
    assert host == WithDots(parts) + Dots(k);
  }

  /** A ranger endpoint has a target exactly when its host is of that form, and it is that environment and service. */
  lemma RangerTargetExactly(e: Endpoint, environment: string, service: string, api: string)
    requires e.scheme == "ranger"
    ensures TargetOf(e) == Some(Target(ServiceName(e.host), "ranger_sharded", false, Ranger(environment, service), api))
      <==> exists k :: IsRangerHost(e.host, environment, service, api, k)
    ensures TargetOf(e).Some? ==> exists a, b, c, k :: IsRangerHost(e.host, a, b, c, k)
  {
    hide SplitHost, IsRangerHost;
    forall k | IsRangerHost(e.host, environment, service, api, k)
      ensures SplitHost(e.host) == [environment, service, api]
    {
      RangerHostSplits(e.host, environment, service, api, k);
    }
    if |SplitHost(e.host)| == 3 {
      var k := SplitInThree(e.host);
    }
  }
}
