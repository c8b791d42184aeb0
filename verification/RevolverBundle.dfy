/** The static state of the gateway and the poller that reloads it, as the objects they are. */
module RevolverBundles {
  import opened Wrappers
  import opened PathPatterns
  import opened RouteTables

  class RevolverBundle {
    var httpCommands: map<string, ServiceConfig>
    var serviceToPathMap: map<string, seq<Route>>
    var apiStatus: map<string, bool>

    function Contents(): Tables
      reads this
    {
      Tables(serviceToPathMap, httpCommands, apiStatus)
    }

    constructor ()
      ensures Contents() == NO_TABLES
    {
      httpCommands, serviceToPathMap, apiStatus := map[], map[], map[];
    }

    /** Adds the routes one by one, then collects the APIs by name; a name that occurs twice is refused only then. */
    method GenerateApiConfigMap(config: ServiceConfig) returns (r: Result<map<string, Api>>)
      modifies this`serviceToPathMap
      ensures Contents() == AddRoutes(old(Contents()), config.service, RoutesOf(SortedApis(config.apis)))
      ensures r.Ok? <==> DistinctNames(config.apis)
      ensures r.Ok? ==> forall api :: api in config.apis ==> api.name in r.value && r.value[api.name] == api
    {
      hide PathPatterns.GeneratePathExpression, RouteTables.SortedApis, RouteTables.AddRoutes,
        RouteTables.DistinctNames;
      var apis := SortedApis(config.apis);
      ghost var routes := RoutesOf(apis);
      var i := 0;
      AddNone(Contents(), config.service, routes);
      while i < |apis|
        invariant 0 <= i <= |apis|
        invariant Contents() == AddRoutes(old(Contents()), config.service, routes[..i])
      {
        AddOne(old(Contents()), config.service, routes, i);
        var route := Route(apis[i], GeneratePathExpression(apis[i].path));
        var there := if config.service in serviceToPathMap then serviceToPathMap[config.service] else [];
        serviceToPathMap := serviceToPathMap[config.service := there + [route]];
        i := i + 1;
      }
      assert routes[..|apis|] == routes;
      ApisInPathOrder(config.apis, apis);
      r := ByName(apis);
      SameNames(apis, config.apis);
    }

    /** Registers a service; `outcome` is how that ends. */
    method RegisterCommand(config: ServiceConfig) returns (outcome: Build)
      modifies this
      ensures Contents() == Register(old(Contents()), config).tables
      ensures outcome.Aborts? <==> !Register(old(Contents()), config).done
    {
      hide RouteTables.SortedApis, RouteTables.RoutesOf, RouteTables.DistinctNames, RouteTables.AddRoutes,
        RouteTables.Activate;
      var configMap := GenerateApiConfigMap(config);
      if configMap.Failed? {
        return Aborts;
      }
      outcome := config.build;
      if outcome == Builds {
        httpCommands := httpCommands[config.service := config];
        if config.kind == "http" {
          SetActive(config.service, config.apis);
        }
      }
    }

    method SetActive(service: string, apis: seq<Api>)
      modifies this`apiStatus
      ensures apiStatus == Activate(old(apiStatus), service, apis)
    {
      var i := 0;
      while i < |apis|
        invariant 0 <= i <= |apis|
        invariant apiStatus == Activate(old(apiStatus), service, apis[..i])
      {
        assert apis[..i + 1][..i] == apis[..i];
        apiStatus := apiStatus[StatusKey(service, apis[i].name) := true];
        i := i + 1;
      }
      assert apis[..|apis|] == apis;
    }

    /** Loads the services in turn; `done` is false when one ends it. */
    method LoadServiceConfiguration(configs: seq<ServiceConfig>) returns (done: bool)
      modifies this
      ensures Contents() == Load(old(Contents()), configs).tables
      ensures done == Load(old(Contents()), configs).done
    {
      hide RouteTables.Register;
      var i := 0;
      while i < |configs|
        invariant 0 <= i <= |configs|
        invariant Load(old(Contents()), configs) == Load(Contents(), configs[i..])
      {
        assert configs[i..][1..] == configs[i + 1..];
        if configs[i].kind == "http" || configs[i].kind == "https" {
          var outcome := RegisterCommand(configs[i]);
          if outcome.Aborts? {
            return false;
          }
        }
        i := i + 1;
      }
      done := true;
    }

    /**
     The first route of the service that matches the path; none when the service is unknown or none of its routes
     does.
     */
    method MatchPath(service: string, path: string) returns (r: Option<Route>)
      ensures r.None? <==>
        service !in serviceToPathMap
        || forall route :: route in serviceToPathMap[service] ==> !PathMatches(route.expression, path)
      ensures r.Some? ==> service in serviceToPathMap
      ensures r.Some? ==>
        var routes := serviceToPathMap[service];
        exists i :: 0 <= i < |routes| && r.value == routes[i] && PathMatches(routes[i].expression, path)
                    && forall j :: 0 <= j < i ==> !PathMatches(routes[j].expression, path)
      ensures r == RouteTables.MatchPath(Contents(), service, path)
    {
      hide PathMatches;
      if service !in serviceToPathMap {
        return None;
      }
      var routes := serviceToPathMap[service];
      var i := 0;
      while i < |routes|
        invariant 0 <= i <= |routes|
        invariant forall j :: 0 <= j < i ==> !PathMatches(routes[j].expression, path)
        invariant FirstMatch(routes, path) == FirstMatch(routes[i..], path)
      {
        assert routes[i..][0] == routes[i] && routes[i..][1..] == routes[i + 1..];
        if PathMatches(routes[i].expression, path) {
          return Some(routes[i]);
        }
        i := i + 1;
      }
      r := None;
    }
  }

  lemma AddNone(t: Tables, service: string, routes: seq<Route>)
    ensures AddRoutes(t, service, routes[..0]) == t
  {
  }

  lemma AddOne(t: Tables, service: string, routes: seq<Route>, i: nat)
    requires i < |routes|
    ensures AddRoutes(t, service, routes[..i + 1]) == AddRoute(AddRoutes(t, service, routes[..i]), service, routes[i])
  {
    var before := AddRoutes(t, service, routes[..i]);
    assert routes[..i + 1] == routes[..i] + [routes[i]];
    assert RoutesAt(t, service) + routes[..i + 1] == RoutesAt(t, service) + routes[..i] + [routes[i]];
    assert RoutesAt(before, service) == RoutesAt(t, service) + routes[..i];
    var both := RoutesAt(t, service) + routes[..i + 1];
    assert AddRoute(before, service, routes[i]).routes == before.routes[service := both] == t.routes[service := both];
  }

  /** `ImmutableMap.Builder`: entries in turn, refused as a whole when a key occurs twice. */
  function ByName(apis: seq<Api>): (r: Result<map<string, Api>>)
    ensures r.Ok? <==> DistinctNames(apis)
    ensures r.Ok? ==> forall api :: api in apis ==> api.name in r.value && r.value[api.name] == api
    ensures r.Ok? ==> forall name :: name in r.value ==> exists api :: api in apis && api.name == name
    decreases |apis|
  {
    if apis == [] then Ok(map[])
    else
      var last := apis[|apis| - 1];
      var earlier := ByName(apis[..|apis| - 1]);
      assert apis == apis[..|apis| - 1] + [last];
      if earlier.Failed? || last.name in earlier.value then
        assert !DistinctNames(apis) by {
          RepeatedName(apis);
        }
        Failed
      else Ok(earlier.value[last.name := last])
  }

  lemma RepeatedName(apis: seq<Api>)
    requires apis != []
    requires !DistinctNames(apis[..|apis| - 1])
      || exists api :: api in apis[..|apis| - 1] && api.name == apis[|apis| - 1].name
    ensures !DistinctNames(apis)
  {
    var earlier := apis[..|apis| - 1];
    if !DistinctNames(earlier) {
      var i, j :| 0 <= i < j < |earlier| && earlier[i].name == earlier[j].name;
      assert apis[i].name == apis[j].name;
    }
  }

  /** Whether all names differ depends on the APIs, not on their order. */
  lemma SameNames(xs: seq<Api>, ys: seq<Api>)
    requires multiset(xs) == multiset(ys)
    ensures DistinctNames(xs) == DistinctNames(ys)
    ensures forall api :: api in ys ==> api in xs
  {
    if DistinctNames(xs) {
      NamesFollow(xs, ys);
    }
    if DistinctNames(ys) {
      NamesFollow(ys, xs);
    }
    SameMembers(xs, ys);
  }

  lemma NamesFollow(xs: seq<Api>, ys: seq<Api>)
    requires multiset(xs) == multiset(ys) && DistinctNames(xs)
    ensures DistinctNames(ys)
  {
    SameMembers(xs, ys);
    forall i, j | 0 <= i < j < |ys| ensures ys[i].name != ys[j].name {
      if ys[i] == ys[j] {
        OccursTwice(ys, i, j);
        OccursOnce(xs, ys[i]);
      } else {
        assert ys[i] in xs && ys[j] in xs;
        var k :| 0 <= k < |xs| && xs[k] == ys[i];
        var l :| 0 <= l < |xs| && xs[l] == ys[j];
        assert k < l || l < k;
      }
    }
  }

  lemma OccursTwice(xs: seq<Api>, i: nat, j: nat)
    requires i < j < |xs| && xs[i] == xs[j]
    ensures multiset(xs)[xs[i]] >= 2
  {
    assert xs == xs[..j] + xs[j..];
    assert xs[..j][i] == xs[i] && xs[j..][0] == xs[j];
    assert xs[i] in multiset(xs[..j]) && xs[i] in multiset(xs[j..]);
  }

  lemma {:induction false} OccursOnce(xs: seq<Api>, x: Api)
    requires DistinctNames(xs)
    ensures multiset(xs)[x] <= 1
  {
    if xs != [] {
      assert xs == [xs[0]] + xs[1..];
      OccursOnce(xs[1..], x);
      if xs[0] == x {
        forall y | y in xs[1..] ensures y.name != x.name {
          var i :| 0 <= i < |xs[1..]| && xs[1..][i] == y;
          assert xs[i + 1] == y;
        }
      }
    }
  }
}
