/** The route table: what a configuration load adds to it, which route a path gets, and what later loads keep. */
module RouteTables {
  import opened Wrappers
  import opened PathPatterns
  import opened StableSorts

  /** An API of a service; `settings` stands for the rest of its configuration. */
  datatype Api = Api(name: string, path: string, settings: nat)

  datatype Route = Route(api: Api, expression: string)

  /**
   How building the command of a service ends: well, with a failure that is logged, or with one that is not caught.
   */
  datatype Build = Builds | FailsExecution | Aborts

  datatype ServiceConfig = ServiceConfig(kind: string, service: string, apis: seq<Api>, build: Build)

  /** The three static maps: the routes, the command and the API states of the services. */
  datatype Tables = Tables(
    routes: map<string, seq<Route>>, commands: map<string, ServiceConfig>, status: map<string, bool>)

  const NO_TABLES := Tables(map[], map[], map[])

  // The order of the routes of one load

  /** `String.compareTo`: the difference at the first place where the two differ, otherwise of the lengths. */
  function CompareTo(a: string, b: string): int {
    if a == "" || b == "" then |a| - |b|
    else if a[0] != b[0] then a[0] as int - b[0] as int
    else CompareTo(a[1..], b[1..])
  }

  function CapturingGroups(pattern: string): nat {
    if pattern == "" then 0
    else if pattern[0] == '\\' && |pattern| > 1 then CapturingGroups(pattern[2..])
    else (if pattern[0] == '(' then 1 else 0) + CapturingGroups(pattern[1..])
  }

  const TOKEN_PATTERN := "\\{(([^/])+\\})"

  /** `matcher(expression).groupCount()`: the groups of the pattern, whatever the text it is to be matched against. */
  function GroupCount(expression: string): nat {
    CapturingGroups(TOKEN_PATTERN)
  }

  function ByGroups(a: Api, b: Api): int {
    GroupCount(GeneratePathExpression(b.path)) - GroupCount(GeneratePathExpression(a.path))
  }

  function ByPath(a: Api, b: Api): int {
    CompareTo(a.path, b.path)
  }

  function SortedApis(apis: seq<Api>): seq<Api> {
    StableSort(StableSort(apis, ByGroups), ByPath)
  }

  lemma {:induction false} CompareIsSigned(a: string, b: string)
    ensures CompareTo(a, b) == -CompareTo(b, a)
    ensures CompareTo(a, b) == 0 ==> a == b
  {
    if a != "" && b != "" && a[0] == b[0] {
      CompareIsSigned(a[1..], b[1..]);
      assert a == [a[0]] + a[1..] && b == [b[0]] + b[1..];
    }
  }

  lemma {:induction false} CompareIsTransitive(a: string, b: string, c: string)
    requires CompareTo(a, b) <= 0 && CompareTo(b, c) <= 0
    ensures CompareTo(a, c) <= 0
  {
    if a != "" && b != "" && c != "" && a[0] == b[0] == c[0] {
      CompareIsTransitive(a[1..], b[1..], c[1..]);
    }
  }

  lemma ByPathIsComparator()
    ensures IsComparator(ByPath)
  {
    hide CompareTo;
    forall a, b ensures ByPath(a, b) < 0 <==> ByPath(b, a) > 0 {
      CompareIsSigned(a.path, b.path);
    }
    forall a, b, c | ByPath(a, b) <= 0 && ByPath(b, c) <= 0 ensures ByPath(a, c) <= 0 {
      CompareIsTransitive(a.path, b.path, c.path);
    }
  }

  lemma GroupsAt(p: string, k: nat)
    requires k < |p|
    ensures CapturingGroups(p[k..]) ==
      if p[k] == '\\' && k + 1 < |p| then CapturingGroups(p[k + 2..])
      else (if p[k] == '(' then 1 else 0) + CapturingGroups(p[k + 1..])
  {
    assert p[k..][1..] == p[k + 1..];
    if k + 1 < |p| {
      assert p[k..][2..] == p[k + 2..];
    }
  }

  lemma GroupsOfPattern(p: string)
    requires |p| == 13 && p[0] == p[10] == '\\' && p[2] == p[3] == '('
    requires forall k :: 4 <= k < 13 && k != 10 ==> p[k] != '(' && p[k] != '\\'
    ensures CapturingGroups(p) == 2
  {
    hide CapturingGroups;
    assert p[0..] == p && p[13..] == "";
    GroupsAt(p, 0);
    GroupsAt(p, 2);
    GroupsAt(p, 3);
    GroupsAt(p, 4);
    GroupsAt(p, 5);
    GroupsAt(p, 6);
    GroupsAt(p, 7);
    GroupsAt(p, 8);
    GroupsAt(p, 9);
    GroupsAt(p, 10);
    GroupsAt(p, 12);
    NoGroups();
  }

  /** The pattern has two groups, so this is the count for every path. */
  lemma TwoGroups(a: Api, b: Api)
    ensures GroupCount(GeneratePathExpression(a.path)) == 2 && ByGroups(a, b) == 0
  {
    hide GeneratePathExpression, CapturingGroups;
    GroupsOfPattern(TOKEN_PATTERN);
  }

  lemma NoGroups()
    ensures CapturingGroups("") == 0
  {
  }

  /** The sort by number of groups never moves anything, since every count is that of the same pattern. */
  lemma FirstSortKeeps(apis: seq<Api>)
    ensures SortedApis(apis) == StableSort(apis, ByPath)
  {
    forall a, b ensures ByGroups(a, b) == 0 {
      TwoGroups(a, b);
    }
    hide ByGroups;
    ConstantComparatorKeeps(apis, ByGroups);
  }

  /** The APIs in path order, those of the same path in the order they came in: no other list is that. */
  lemma ApisInPathOrder(apis: seq<Api>, ys: seq<Api>)
    ensures IsStableSort(apis, ys, ByPath) <==> ys == SortedApis(apis)
    ensures multiset(SortedApis(apis)) == multiset(apis)
  {
    hide ByPath, CompareTo, StableSort, SortedApis;
    FirstSortKeeps(apis);
    ByPathIsComparator();
    SortIsStable(apis, ByPath);
    SortKeepsMembers(apis, ByPath);
    if IsStableSort(apis, ys, ByPath) {
      var zs := StableSort(apis, ByPath);
      forall x ensures Alike(ys, x, ByPath) == Alike(zs, x, ByPath) {
        assert Alike(ys, x, ByPath) == Alike(apis, x, ByPath);
      }
      StableSortIsUnique(ys, zs, ByPath);
    }
  }

  // Adding the routes of a load

  function RoutesOf(apis: seq<Api>): seq<Route> {
    seq(|apis|, i requires 0 <= i < |apis| => Route(apis[i], GeneratePathExpression(apis[i].path)))
  }

  function RoutesAt(t: Tables, service: string): seq<Route> {
    if service in t.routes then t.routes[service] else []
  }

  function AddRoute(t: Tables, service: string, route: Route): Tables {
    t.(routes := t.routes[service := RoutesAt(t, service) + [route]])
  }

  function AddRoutes(t: Tables, service: string, routes: seq<Route>): Tables {
    if routes == [] then t else t.(routes := t.routes[service := RoutesAt(t, service) + routes])
  }

  predicate DistinctNames(apis: seq<Api>) {
    forall i, j :: 0 <= i < j < |apis| ==> apis[i].name != apis[j].name
  }

  function StatusKey(service: string, api: string): string {
    service + "." + api
  }

  function Activate(status: map<string, bool>, service: string, apis: seq<Api>): map<string, bool> {
    if apis == [] then status
    else Activate(status, service, apis[..|apis| - 1])[StatusKey(service, apis[|apis| - 1].name) := true]
  }

  datatype Outcome = Outcome(tables: Tables, done: bool)

  /**
   Registering a service of type http or https: its routes are added before its API names are looked at and before its
   command is built, so they stay when either of these fails.
   */
  function Register(t: Tables, config: ServiceConfig): Outcome {
    var added := AddRoutes(t, config.service, RoutesOf(SortedApis(config.apis)));
    if !DistinctNames(config.apis) || config.build == Aborts then Outcome(added, false)
    else if config.build == FailsExecution then Outcome(added, true)
    else
      var commands := added.commands[config.service := config];
      var status := if config.kind == "http" then Activate(t.status, config.service, config.apis) else t.status;
      Outcome(added.(commands := commands, status := status), true)
  }

  predicate Supported(config: ServiceConfig) {
    config.kind == "http" || config.kind == "https"
  }

  /** Loading the services in turn, up to the first whose registration is not caught. */
  function Load(t: Tables, configs: seq<ServiceConfig>): Outcome
    decreases |configs|
  {
    if configs == [] then Outcome(t, true)
    else
      var first := if Supported(configs[0]) then Register(t, configs[0]) else Outcome(t, true);
      if first.done then Load(first.tables, configs[1..]) else first
  }

  function LoadAll(t: Tables, loads: seq<seq<ServiceConfig>>): Tables
    decreases |loads|
  {
    if loads == [] then t else Load(LoadAll(t, loads[..|loads| - 1]), loads[|loads| - 1]).tables
  }

  // What a load adds

  predicate Fails(config: ServiceConfig) {
    Supported(config) && (!DistinctNames(config.apis) || config.build == Aborts)
  }

  /** A load goes through exactly when no entry fails, whatever was there before. */
  lemma {:induction false} LoadFinishes(t: Tables, configs: seq<ServiceConfig>)
    ensures Load(t, configs).done <==> forall config :: config in configs ==> !Fails(config)
    ensures Load(t, configs).done <==>
      forall config :: config in configs && config.kind in {"http", "https"} ==>
        DistinctNames(config.apis) && config.build != Aborts
    decreases |configs|
  {
    hide Register, DistinctNames;
    if configs != [] {
      if Supported(configs[0]) {
        RegisterAdds(t, configs[0], "");
      }
      var first := if Supported(configs[0]) then Register(t, configs[0]) else Outcome(t, true);
      assert forall config :: config in configs <==> config == configs[0] || config in configs[1..];
      if first.done {
        LoadFinishes(first.tables, configs[1..]);
      } else {
        assert Fails(configs[0]);
      }
    }
  }

  /**
   The routes a load adds to a service: those of its supported entries for it, up to and with the first that fails.
   */
  function Added(configs: seq<ServiceConfig>, service: string): seq<Route> {
    if configs == [] then []
    else
      var here := if Supported(configs[0]) && configs[0].service == service
                  then RoutesOf(SortedApis(configs[0].apis)) else [];
      if Fails(configs[0]) then here else here + Added(configs[1..], service)
  }

  function AddedByAll(loads: seq<seq<ServiceConfig>>, service: string): seq<Route> {
    if loads == [] then [] else AddedByAll(loads[..|loads| - 1], service) + Added(loads[|loads| - 1], service)
  }

  lemma RegisterAdds(t: Tables, config: ServiceConfig, service: string)
    ensures RoutesAt(Register(t, config).tables, service)
      == RoutesAt(t, service) + if config.service == service then RoutesOf(SortedApis(config.apis)) else []
    ensures Register(t, config).done <==> DistinctNames(config.apis) && config.build != Aborts
  {
    hide SortedApis, RoutesOf, Activate;
  }

  lemma {:induction false} LoadAdds(t: Tables, configs: seq<ServiceConfig>, service: string)
    ensures RoutesAt(Load(t, configs).tables, service) == RoutesAt(t, service) + Added(configs, service)
    decreases |configs|
  {
    hide Register, RoutesAt, RoutesOf, SortedApis, DistinctNames;
    if configs != [] {
      var first := if Supported(configs[0]) then Register(t, configs[0]) else Outcome(t, true);
      if Supported(configs[0]) {
        RegisterAdds(t, configs[0], service);
      }
      if first.done {
        LoadAdds(first.tables, configs[1..], service);
      }
    }
  }

  /** After any loads a service's routes are those each load added, load after load. */
  lemma {:induction false} RoutesAreConcatenated(loads: seq<seq<ServiceConfig>>, service: string)
    ensures RoutesAt(LoadAll(NO_TABLES, loads), service) == AddedByAll(loads, service)
    decreases |loads|
  {
    hide Load, Added;
    if loads != [] {
      var earlier := loads[..|loads| - 1];
      RoutesAreConcatenated(earlier, service);
      LoadAdds(LoadAll(NO_TABLES, earlier), loads[|loads| - 1], service);
    }
  }

  // Matching

  /** `stream().filter(path.matches).findFirst()`. */
  function FirstMatch(routes: seq<Route>, path: string): (r: Option<Route>)
    ensures r.Some? ==> r.value in routes && PathMatches(r.value.expression, path)
    ensures r.None? ==> forall route :: route in routes ==> !PathMatches(route.expression, path)
  {
    if routes == [] then None
    else if PathMatches(routes[0].expression, path) then Some(routes[0])
    else FirstMatch(routes[1..], path)
  }

  function MatchPath(t: Tables, service: string, path: string): Option<Route> {
    if service in t.routes then FirstMatch(t.routes[service], path) else None
  }

  lemma {:induction false} FirstMatchOfJoin(a: seq<Route>, b: seq<Route>, path: string)
    ensures FirstMatch(a + b, path) == if FirstMatch(a, path).Some? then FirstMatch(a, path) else FirstMatch(b, path)
  {
    hide PathMatches;
    if a == [] {
      assert a + b == b;
    } else {
      assert (a + b)[1..] == a[1..] + b;
      FirstMatchOfJoin(a[1..], b, path);
    }
  }

  /** The answer of a load: that before it, or the first match among the routes it adds. */
  lemma LoadAnswers(t: Tables, configs: seq<ServiceConfig>, service: string, path: string)
    ensures MatchPath(Load(t, configs).tables, service, path)
      == if MatchPath(t, service, path).Some? then MatchPath(t, service, path)
         else FirstMatch(Added(configs, service), path)
  {
    hide Load, Added, PathMatches;
    LoadAdds(t, configs, service);
    FirstMatchOfJoin(RoutesAt(t, service), Added(configs, service), path);
    MatchPathOfRoutes(t, service, path);
    MatchPathOfRoutes(Load(t, configs).tables, service, path);
  }

  lemma MatchPathOfRoutes(t: Tables, service: string, path: string)
    ensures MatchPath(t, service, path) == FirstMatch(RoutesAt(t, service), path)
  {
    hide PathMatches;
  }

  /** A path once matched keeps its answer through all later loads, failed ones included. */
  lemma {:induction false} AnswersAreKept(t: Tables, loads: seq<seq<ServiceConfig>>, service: string, path: string)
    requires MatchPath(t, service, path).Some?
    ensures MatchPath(LoadAll(t, loads), service, path) == MatchPath(t, service, path)
    decreases |loads|
  {
    hide Load, MatchPath, Added;
    if loads != [] {
      var earlier := loads[..|loads| - 1];
      AnswersAreKept(t, earlier, service, path);
      LoadAnswers(LoadAll(t, earlier), loads[|loads| - 1], service, path);
    }
  }

  /** Loading a configuration again, at once or after any other loads, changes no answer. */
  lemma ReloadChangesNoAnswer(t: Tables, loads: seq<seq<ServiceConfig>>, k: nat, service: string, path: string)
    requires k < |loads|
    ensures MatchPath(Load(LoadAll(t, loads), loads[k]).tables, service, path)
      == MatchPath(LoadAll(t, loads), service, path)
  {
    hide Load, MatchPath, Added, FirstMatch;
    var upTo := LoadAll(t, loads[..k + 1]);
    assert loads[..k + 1][..k] == loads[..k];
    LoadAnswers(LoadAll(t, loads[..k]), loads[k], service, path);
    LoadAnswers(LoadAll(t, loads), loads[k], service, path);
    LoadAllInTwo(t, loads, k + 1);
    if MatchPath(upTo, service, path).Some? {
      AnswersAreKept(upTo, loads[k + 1..], service, path);
    }
  }

  lemma {:induction false} LoadAllInTwo(t: Tables, loads: seq<seq<ServiceConfig>>, k: nat)
    requires k <= |loads|
    ensures LoadAll(t, loads) == LoadAll(LoadAll(t, loads[..k]), loads[k..])
    decreases |loads|
  {
    hide Load;
    if k == |loads| {
      assert loads[..k] == loads && loads[k..] == [];
    } else {
      var n := |loads| - 1;
      LoadAllInTwo(t, loads[..n], k);
      assert loads[..n][..k] == loads[..k] && loads[..n][k..] == loads[k..][..n - k];
      assert loads[k..][n - k] == loads[n];
    }
  }

  /** With templates that are plain outside braces, the answer is the first route whose template accepts the path. */
  lemma {:induction false} FirstMatchByTemplate(apis: seq<Api>, path: string)
    requires forall api :: api in apis ==> PlainTemplate(api.path)
    ensures var r := FirstMatch(RoutesOf(apis), path);
      (r.Some? <==> exists i :: 0 <= i < |apis| && TemplateAccepts(apis[i].path, path))
      && (r.Some? ==> exists i :: 0 <= i < |apis| && r.value.api == apis[i] && TemplateAccepts(apis[i].path, path)
                        && forall j :: 0 <= j < i ==> !TemplateAccepts(apis[j].path, path))
  {
    hide PlainTemplate, TemplateAccepts, PathMatches, GeneratePathExpression;
    var routes := RoutesOf(apis);
    if apis == [] {
      assert routes == [];
    } else {
      assert routes[1..] == RoutesOf(apis[1..]);
      ExpressionMeansTemplate(apis[0].path, path);
      if !TemplateAccepts(apis[0].path, path) {
        FirstMatchByTemplate(apis[1..], path);
        var r := FirstMatch(RoutesOf(apis[1..]), path);
        if r.Some? {
          var i :| 0 <= i < |apis[1..]| && r.value.api == apis[1..][i] && TemplateAccepts(apis[1..][i].path, path)
            && forall j :: 0 <= j < i ==> !TemplateAccepts(apis[1..][j].path, path);
          FirstAfterHead(apis, path, i);
        } else {
          forall i | 0 <= i < |apis| ensures !TemplateAccepts(apis[i].path, path) {
            assert i > 0 ==> apis[i] == apis[1..][i - 1];
          }
        }
      }
    }
  }

  lemma FirstAfterHead(apis: seq<Api>, path: string, i: nat)
    requires apis != [] && i < |apis[1..]| && !TemplateAccepts(apis[0].path, path)
    requires TemplateAccepts(apis[1..][i].path, path)
    requires forall j :: 0 <= j < i ==> !TemplateAccepts(apis[1..][j].path, path)
    ensures apis[i + 1] == apis[1..][i] && TemplateAccepts(apis[i + 1].path, path)
    ensures forall j :: 0 <= j < i + 1 ==> !TemplateAccepts(apis[j].path, path)
  {
    hide TemplateAccepts;
    forall j | 0 <= j < i + 1 ensures !TemplateAccepts(apis[j].path, path) {
      assert j > 0 ==> apis[j] == apis[1..][j - 1];
    }
  }

  /** Within one load the answer has the least template of those that accept the path. */
  lemma LeastTemplateWins(apis: seq<Api>, path: string, api: Api)
    requires forall a :: a in apis ==> PlainTemplate(a.path)
    requires api in apis && TemplateAccepts(api.path, path)
    ensures var r := FirstMatch(RoutesOf(SortedApis(apis)), path);
      r.Some? && r.value.api in apis && TemplateAccepts(r.value.api.path, path)
      && CompareTo(r.value.api.path, api.path) <= 0
  {
    hide PlainTemplate, TemplateAccepts, FirstMatch, SortedApis, RoutesOf, CompareTo;
    var sorted := SortedApis(apis);
    ApisInPathOrder(apis, sorted);
    SameMembers(sorted, apis);
    FirstMatchByTemplate(sorted, path);
    var k :| 0 <= k < |sorted| && sorted[k] == api;
    var r := FirstMatch(RoutesOf(sorted), path);
    var i :| 0 <= i < |sorted| && r.value.api == sorted[i] && TemplateAccepts(sorted[i].path, path)
      && forall j :: 0 <= j < i ==> !TemplateAccepts(sorted[j].path, path);
    assert i <= k;
    CompareIsSigned(api.path, api.path);
    assert i < k ==> ByPath(sorted[i], sorted[k]) <= 0;
  }

  lemma SameMembers<T>(xs: seq<T>, ys: seq<T>)
    requires multiset(xs) == multiset(ys)
    ensures forall x :: x in xs <==> x in ys
  {
    forall x ensures x in xs <==> x in ys {
      assert x in multiset(xs) <==> x in xs;
      assert x in multiset(ys) <==> x in ys;
    }
  }

  lemma {:induction false} CompareAfterPrefix(u: string, a: string, b: string)
    ensures CompareTo(u + a, u + b) == CompareTo(a, b)
  {
    if u == "" {
      assert u + a == a && u + b == b;
    } else {
      assert (u + a)[1..] == u[1..] + a && (u + b)[1..] == u[1..] + b;
      CompareAfterPrefix(u[1..], a, b);
    }
  }

  /**
   A literal against a variable at the first difference of two templates that accept the same path: the literal wins
   exactly when its character there comes before the opening brace. All letters and digits do; `|`, `}`, `~` and all
   characters beyond ASCII do not.
   */
  lemma LiteralBeatsVariable(apis: seq<Api>, path: string, literal: Api, variable: Api,
    u: string, x: char, v: string, w: string)
    requires forall a :: a in apis ==> PlainTemplate(a.path)
    requires literal in apis && literal.path == u + [x] + v && TemplateAccepts(literal.path, path)
    requires variable in apis && variable.path == u + "{" + w && TemplateAccepts(variable.path, path)
    requires x != '{'
    ensures var r := FirstMatch(RoutesOf(SortedApis(apis)), path);
      r.Some?
      && (x < '{' ==> r.value.api.path != variable.path)
      && (x > '{' ==> r.value.api.path != literal.path)
      && (multiset(apis) == multiset{literal, variable} ==> (r.value.api == literal <==> x < '{'))
  {
    hide PlainTemplate, TemplateAccepts, FirstMatch, SortedApis, RoutesOf;
    LeastTemplateWins(apis, path, literal);
    LeastTemplateWins(apis, path, variable);
    assert literal.path == u + ([x] + v) && variable.path == u + ("{" + w);
    CompareAfterPrefix(u, [x] + v, "{" + w);
    CompareIsSigned(literal.path, variable.path);
    var r := FirstMatch(RoutesOf(SortedApis(apis)), path);
    if multiset(apis) == multiset{literal, variable} {
      assert r.value.api in multiset(apis);
    }
  }

  /** A template of one `~` against one of one variable, and a path that both accept: the variable wins. */
  lemma TildeLosesToVariable()
    ensures FirstMatch(RoutesOf(SortedApis([Api("home", "~", 0), Api("user", "{id}", 0)])), "~")
      == Some(Route(Api("user", "{id}", 0), "(([^/])+)"))
  {
    var home, user := Api("home", "~", 0), Api("user", "{id}", 0);
    assert StableSort([home], ByPath) == [home] && StableSort([user], ByPath) == [user];
    assert ByPath(home, user) > 0;
    assert [home, user][1..] == [user] && [user][1..] == [];
    FirstSortKeeps([home, user]);
    VariableSegment();
    assert SortedApis([home, user]) == [user, home] by {
      assert Insert(home, [user], ByPath) == [user, home];
    }
    hide *;
    VariableAcceptsTilde(home, user);
  }

  lemma VariableSegment()
    ensures GeneratePathExpression("{id}") == "(([^/])+)" && PlainTemplate("{id}")
  {
    var p := "{id}";
    assert SegmentLength(p[1..]) == 3 by {
      assert p[1..][1..] == "d}" && p[2..][1..] == "}" && p[3..][1..] == "";
    }
    assert LastBrace(p, 4) == 3;
    assert TokenLength(p) == 4;
    assert GeneratePathExpression(p[4..]) == "" && Tokens(p[4..]) == [];
  }

  lemma VariableAcceptsTilde(home: Api, user: Api)
    requires user == Api("user", "{id}", 0)
    ensures FirstMatch(RoutesOf([user, home]), "~") == Some(Route(user, "(([^/])+)"))
  {
    VariableSegment();
    var routes := RoutesOf([user, home]);
    ExpressionReadsAsCompiled("{id}");
    TokensMeanSegments("{id}", "~");
    ExpressionMeansTemplate("{id}", "~");
    assert TemplateAccepts("{id}", "~") by {
      TildeSegment();
    }
    hide PathMatches, TemplateAccepts, PlainTemplate, GeneratePathExpression;
    assert routes[0] == Route(user, "(([^/])+)");
  }

  lemma TildeSegment()
    ensures TemplateAccepts("{id}", "~")
  {
    var p := "{id}";
    assert SegmentLength(p[1..]) == 3 by {
      assert p[1..][1..] == "d}" && p[2..][1..] == "}" && p[3..][1..] == "";
    }
    assert SegmentLength("~") == 1;
    assert Segments(p) == [p] && Segments("~") == ["~"];
    assert FirstOpen(p) == 0 && AfterLastClose(p) == 4;
    assert p[..0] == "" && p[4..] == "";
    assert SegmentAccepts(p, "~");
  }

  // The commands and the API states

  lemma {:induction false} ActivateSets(status: map<string, bool>, service: string, apis: seq<Api>, key: string)
    ensures var after := Activate(status, service, apis);
      if exists api :: api in apis && service + "." + api.name == key then key in after && after[key]
      else (key in after <==> key in status) && (key in status ==> after[key] == status[key])
    decreases |apis|
  {
    if apis != [] {
      var n := |apis| - 1;
      ActivateSets(status, service, apis[..n], key);
      assert apis == apis[..n] + [apis[n]];
    }
  }

  /**
   The entry of a load that a service's command is built from: the last one whose command is built before the load
   ends.
   */
  function LastBuilt(configs: seq<ServiceConfig>, service: string): Option<ServiceConfig> {
    if configs == [] || Fails(configs[0]) then None
    else
      var later := LastBuilt(configs[1..], service);
      if later.Some? then later
      else if Supported(configs[0]) && configs[0].build == Builds && configs[0].service == service then Some(configs[0])
      else None
  }

  lemma RegisterBuilds(t: Tables, config: ServiceConfig)
    ensures Register(t, config).tables.commands
      == if !Fails(config.(kind := "http")) && config.build == Builds then t.commands[config.service := config]
         else t.commands
  {
    hide SortedApis, RoutesOf, Activate;
  }

  /** After a load each service runs the last command built for it; the others keep theirs. */
  lemma {:induction false} LoadBuilds(t: Tables, configs: seq<ServiceConfig>, service: string)
    ensures var after, built := Load(t, configs).tables.commands, LastBuilt(configs, service);
      if built.Some? then service in after && after[service] == built.value
      else (service in after <==> service in t.commands) && (service in after ==> after[service] == t.commands[service])
    decreases |configs|
  {
    hide Register, DistinctNames;
    if configs != [] {
      var first := if Supported(configs[0]) then Register(t, configs[0]) else Outcome(t, true);
      if Supported(configs[0]) {
        RegisterAdds(t, configs[0], service);
        RegisterBuilds(t, configs[0]);
      }
      if first.done {
        LoadBuilds(first.tables, configs[1..], service);
      }
    }
  }

  lemma RegisterStates(t: Tables, config: ServiceConfig)
    ensures Register(t, config).tables.status
      == if config.kind == "http" && !Fails(config) && config.build == Builds
         then Activate(t.status, config.service, config.apis) else t.status
  {
    hide SortedApis, RoutesOf, Activate;
  }

  /**
   Some entry of a load activates the API: it is of type http, names it, and its command is built before the load
   ends.
   */
  predicate ActivatedBy(configs: seq<ServiceConfig>, key: string) {
    configs != [] && !Fails(configs[0])
    && (ActivatedBy(configs[1..], key)
        || (configs[0].kind == "http" && configs[0].build == Builds && Names(configs[0], key)))
  }

  predicate Names(config: ServiceConfig, key: string) {
    exists api :: api in config.apis && config.service + "." + api.name == key
  }

  /**
   What a load does to the state of an API: those of the http services it builds become active, also when they had been
   deactivated; all others keep theirs, and an API of an https service alone never gets one.
   */
  lemma {:induction false} LoadStates(t: Tables, configs: seq<ServiceConfig>, key: string)
    ensures var after := Load(t, configs).tables.status;
      if ActivatedBy(configs, key) then key in after && after[key]
      else (key in after <==> key in t.status) && (key in after ==> after[key] == t.status[key])
    decreases |configs|
  {
    hide Register, DistinctNames, StatusKey, Activate;
    if configs != [] {
      var first := if Supported(configs[0]) then Register(t, configs[0]) else Outcome(t, true);
      if Supported(configs[0]) {
        RegisterAdds(t, configs[0], "");
        RegisterStates(t, configs[0]);
        ActivateSets(t.status, configs[0].service, configs[0].apis, key);
      }
      if first.done {
        LoadStates(first.tables, configs[1..], key);
      }
    }
  }
}
