/** Which route serves a request path, by the documented match rules over the published routes. */
module RouteMatching {
  import opened Common
  import opened Sorting
  import opened Text
  import opened SiteConfig

  /** `/api` matches `/api` and `/api/users` but not `/apix`; `/` matches every path. */
  predicate Matches(r: SiteRoute, path: string) {
    || path == r.path
    || (r.matchType.PathPrefix? && HasPrefix(path, r.path + "/"))
    || (r.matchType.PathPrefix? && r.path != [] && r.path[|r.path| - 1] == '/' && HasPrefix(path, r.path))
  }

  predicate Candidate(r: SiteRoute, path: string) {
    r.enabled && Matches(r, path)
  }

  function FirstMatch(routes: seq<SiteRoute>, path: string): (w: Option<SiteRoute>)
    ensures w.None? <==> forall r :: r in routes ==> !Candidate(r, path)
    ensures w.Some? ==> w.value in routes && Candidate(w.value, path)
  {
    if routes == [] then None
    else if Candidate(routes[0], path) then Some(routes[0])
    else FirstMatch(routes[1..], path)
  }

  /** The route that serves `path`: the first match in published order. */
  function Winner(routes: seq<SiteRoute>, path: string): Option<SiteRoute> {
    FirstMatch(Sort(routes, RouteLe), path)
  }

  predicate SameKey(a: SiteRoute, b: SiteRoute) {
    a.matchType == b.matchType && a.path == b.path && a.priority == b.priority
  }

  /** No two active routes share match type, path and priority. */
  ghost predicate UniqueKeys(routes: multiset<SiteRoute>) {
    && (forall r :: r in routes && r.enabled ==> routes[r] == 1)
    && (forall r, q :: r in routes && q in routes && r.enabled && q.enabled && SameKey(r, q) ==> r == q)
  }

  predicate DistinctKeys(routes: seq<SiteRoute>) {
    forall i, j :: 0 <= i < j < |routes| && routes[i].enabled && routes[j].enabled ==> !SameKey(routes[i], routes[j])
  }

  lemma UniqueKeyAdd(routes: multiset<SiteRoute>, route: SiteRoute)
    requires UniqueKeys(routes) && forall r :: r in routes && r.enabled && route.enabled ==> !SameKey(route, r)
    ensures UniqueKeys(multiset{route} + routes)
  {
    assert route.enabled ==> route !in routes;
  }

  lemma {:induction false} DistinctKeysAreUnique(routes: seq<SiteRoute>)
    requires DistinctKeys(routes)
    ensures UniqueKeys(multiset(routes))
  {
    if routes != [] {
      var rest := routes[1..];
      DistinctKeysAreUnique(rest);
      forall r: SiteRoute | r in multiset(rest) && r.enabled && routes[0].enabled ensures !SameKey(routes[0], r) {
        var i :| 0 <= i < |rest| && rest[i] == r;
        assert routes[i + 1] == r;
      }
      UniqueKeyAdd(multiset(rest), routes[0]);
      assert routes == [routes[0]] + rest;
    }
  }

  /** Accepted configurations publish routes with unique active keys. */
  lemma AcceptedRoutesHaveUniqueKeys(config: Json, routes: seq<Json>)
    requires ValidConfig(config) && Get(config, Routes) == Some(JArray(routes))
    ensures UniqueKeys(multiset(ParseRoutes(config)))
  {
    var names, parsed := TrimmedNames(UpstreamItems(config)), ParseAll(routes);
    NoRouteIsDropped(config, routes);
    forall i, j | 0 <= i < j < |parsed| && parsed[i].enabled && parsed[j].enabled ensures !SameKey(parsed[i], parsed[j]) {
      ValidRouteParses(routes[i], names);
      ValidRouteParses(routes[j], names);
      assert KeyOf(routes[i]) != KeyOf(routes[j]);
    }
    DistinctKeysAreUnique(parsed);
  }

  // ---------------------------------------------------------------- the winner

  /** Order of two routes when names are ignored. */
  predicate RankLe(a: SiteRoute, b: SiteRoute) {
    a.priority < b.priority ||
    (a.priority == b.priority &&
     (Utf8Len(a.path) > Utf8Len(b.path) ||
      (Utf8Len(a.path) == Utf8Len(b.path) && MatchRank(a.matchType) <= MatchRank(b.matchType))))
  }

  lemma {:induction false} FirstMatchIsLeast(routes: seq<SiteRoute>, path: string, r: SiteRoute)
    requires SortedBy(routes, RouteLe) && r in routes && Candidate(r, path)
    ensures FirstMatch(routes, path).Some? && (FirstMatch(routes, path).value == r || RouteLe(FirstMatch(routes, path).value, r))
  {
    if !Candidate(routes[0], path) {
      assert r in routes[1..];
      FirstMatchIsLeast(routes[1..], path, r);
    }
  }

  /** The winner is an active match no other active match outranks. */
  lemma WinnerIsBest(routes: seq<SiteRoute>, path: string, r: SiteRoute)
    requires r in routes && Candidate(r, path)
    ensures var w := Winner(routes, path);
      w.Some? && w.value in routes && Candidate(w.value, path) && RankLe(w.value, r)
  {
    RouteLeIsTotal();
    SortSorts(routes, RouteLe);
    SortMembers(routes, RouteLe, r);
    FirstMatchIsLeast(Sort(routes, RouteLe), path, r);
    SortMembers(routes, RouteLe, Winner(routes, path).value);
  }

  lemma MatchIsPrefix(r: SiteRoute, path: string)
    requires Matches(r, path)
    ensures r.path <= path
  {
    if HasPrefix(path, r.path + "/") {
      assert r.path <= r.path + "/";
    }
  }

  lemma ShorterPrefix(a: string, b: string, s: string)
    requires a <= s && b <= s && |a| < |b|
    ensures Utf8Len(a) < Utf8Len(b)
  {
    assert b == a + b[|a|..];
    Utf8LenConcat(a, b[|a|..]);
    Utf8LenConcat(b[|a|..], []);
  }

  lemma PrefixesOfSameLength(a: string, b: string, s: string)
    requires a <= s && b <= s && Utf8Len(a) == Utf8Len(b)
    ensures a == b
  {
    assert |a| == |b| by {
      if |a| < |b| { ShorterPrefix(a, b, s); }
      if |b| < |a| { ShorterPrefix(b, a, s); }
    }
  }

  /** Two active matches of one path that rank equally have the same key. */
  lemma EqualRankSameKey(a: SiteRoute, b: SiteRoute, path: string)
    requires Matches(a, path) && Matches(b, path) && RankLe(a, b) && RankLe(b, a)
    ensures SameKey(a, b)
  {
    MatchIsPrefix(a, path);
    MatchIsPrefix(b, path);
    PrefixesOfSameLength(a.path, b.path, path);
  }

  /** The winner strictly outranks every other active match, so names never decide. */
  lemma WinnerIsStrict(routes: seq<SiteRoute>, path: string, r: SiteRoute)
    requires UniqueKeys(multiset(routes)) && r in routes && Candidate(r, path)
    ensures Winner(routes, path).Some?
    ensures r == Winner(routes, path).value || !RankLe(r, Winner(routes, path).value)
  {
    WinnerIsBest(routes, path, r);
    var w := Winner(routes, path).value;
    if RankLe(r, w) {
      EqualRankSameKey(r, w, path);
      assert r in multiset(routes) && w in multiset(routes);
    }
  }

  function Unnamed(r: SiteRoute): SiteRoute {
    r.(name := "")
  }

  function AllUnnamed(routes: seq<SiteRoute>): seq<SiteRoute> {
    seq(|routes|, i requires 0 <= i < |routes| => Unnamed(routes[i]))
  }

  lemma Counterpart(a: seq<SiteRoute>, b: seq<SiteRoute>, r: SiteRoute) returns (q: SiteRoute)
    requires multiset(AllUnnamed(a)) == multiset(AllUnnamed(b)) && r in a
    ensures q in b && Unnamed(q) == Unnamed(r)
  {
    var i :| 0 <= i < |a| && a[i] == r;
    assert AllUnnamed(a)[i] in multiset(AllUnnamed(b));
    var j :| 0 <= j < |b| && AllUnnamed(b)[j] == Unnamed(r);
    q := b[j];
  }

  /** The winner of one listing has a counterpart in the other, no better than the winner there. */
  lemma WinnerCounterpart(a: seq<SiteRoute>, b: seq<SiteRoute>, path: string) returns (q: SiteRoute)
    requires multiset(AllUnnamed(a)) == multiset(AllUnnamed(b)) && Winner(a, path).Some?
    ensures q in b && Candidate(q, path) && Unnamed(q) == Unnamed(Winner(a, path).value)
    ensures Winner(b, path).Some? && RankLe(Winner(b, path).value, q)
  {
    SortMembers(a, RouteLe, Winner(a, path).value);
    q := Counterpart(a, b, Winner(a, path).value);
    WinnerIsBest(b, path, q);
  }

  /** Permuting or renaming the routes of an accepted configuration never changes who serves a path. */
  lemma WinnerIgnoresOrderAndNames(a: seq<SiteRoute>, b: seq<SiteRoute>, path: string)
    requires UniqueKeys(multiset(a)) && multiset(AllUnnamed(a)) == multiset(AllUnnamed(b))
    ensures Winner(a, path).Some? <==> Winner(b, path).Some?
    ensures Winner(a, path).Some? ==> Unnamed(Winner(a, path).value) == Unnamed(Winner(b, path).value)
  {
    if Winner(b, path).Some? {
      var x := WinnerCounterpart(b, a, path);
      var y := WinnerCounterpart(a, b, path);
      WinnerIsStrict(a, path, x);
    } else if Winner(a, path).Some? {
      var y := WinnerCounterpart(a, b, path);
    }
  }

  // ---------------------------------------------------------------- coverage

  predicate IsCatchAll(r: SiteRoute) {
    r.enabled && r.matchType.PathPrefix? && r.path == "/"
  }

  ghost predicate EveryPathServed(routes: seq<SiteRoute>) {
    forall path: string :: HasPrefix(path, "/") ==> Winner(routes, path).Some?
  }

  function Repeat(n: nat): string {
    seq(n, i => 'a')
  }

  /** "/" followed by more letters than any route path has characters. */
  function UnmatchedPath(routes: seq<SiteRoute>): string {
    "/" + Repeat(1 + LongestPath(routes))
  }

  function LongestPath(routes: seq<SiteRoute>): (m: nat)
    ensures forall r :: r in routes ==> |r.path| <= m
  {
    if routes == [] then 0
    else
      var m := LongestPath(routes[1..]);
      if m < |routes[0].path| then |routes[0].path| else m
  }

  lemma OnlyCatchAllMatches(routes: seq<SiteRoute>, r: SiteRoute)
    requires r in routes && HasPrefix(r.path, "/") && Candidate(r, UnmatchedPath(routes))
    ensures IsCatchAll(r)
  {
    var path := UnmatchedPath(routes);
    assert |path| == 2 + LongestPath(routes) > |r.path| >= 1;
    assert (r.path + "/")[|r.path|] == '/';
    var next := path[|r.path|];
    assert HasPrefix(path, r.path + "/") ==> next == '/';
    assert HasPrefix(path, r.path) ==> path[|r.path| - 1] == r.path[|r.path| - 1];
    assert forall i :: 1 <= i < |path| ==> path[i] == 'a';
  }

  /**
   * Every request path has a route if and only if an active prefix route for `/` exists.
   * Validation also accepts an exact default route, which serves `/` alone.
   */
  lemma EveryPathServedIff(routes: seq<SiteRoute>)
    requires forall r :: r in routes ==> HasPrefix(r.path, "/")
    ensures EveryPathServed(routes) <==> exists r :: r in routes && IsCatchAll(r)
  {
    if r :| r in routes && IsCatchAll(r) {
      forall path: string | HasPrefix(path, "/") ensures Winner(routes, path).Some? {
        assert Candidate(r, path);
        WinnerIsBest(routes, path, r);
      }
    }
    if EveryPathServed(routes) {
      var path := UnmatchedPath(routes);
      assert HasPrefix(path, "/");
      var w := Winner(routes, path).value;
      SortMembers(routes, RouteLe, w);
      OnlyCatchAllMatches(routes, w);
    }
  }

  lemma ExactRootServesRootOnly(r: SiteRoute)
    requires r.enabled && r.matchType.PathExact? && r.path == "/"
    ensures Winner([r], "/").Some? && Winner([r], "/x").None?
  {
    SortOne(r);
    assert r in [r] && Candidate(r, "/") && !Candidate(r, "/x");
  }

  lemma NamedUpstream(n: string)
    requires IsTrimmed(n) && n != []
    ensures n in TrimmedNames([JObject(map[Name := JString(n)])])
  {
    var item := JObject(map[Name := JString(n)]);
    TrimOfTrimmed(n);
    assert item in [item] && Required(item, Name) == Some(n);
  }

  /** An accepted configuration whose default route is exact serves "/" and leaves "/x" without a route. */
  lemma ExactDefaultLeavesPaths(n: string)
    requires IsTrimmed(n) && n != []
    ensures var config := SingleRouteConfig([JObject(map[Name := JString(n)])], "path_exact", n);
      && ValidConfig(config)
      && Winner(ParseRoutes(config), "/").Some? && Winner(ParseRoutes(config), "/x").None?
      && !EveryPathServed(ParseRoutes(config))
  {
    var items := [JObject(map[Name := JString(n)])];
    NamedUpstream(n);
    SingleRouteAccepted(items, "path_exact", n);
    ExactRootServesRootOnly(SiteRoute("r", true, PathExact, "/", n, 100, false));
    assert HasPrefix("/x", "/");
  }

  /** Such a configuration publishes one route, for everything, of low priority. */
  lemma LegacyRoute(config: Json)
    requires Get(config, Routes).None?
    ensures var upstreams := ParsedUpstreams(UpstreamItems(config));
      && (upstreams == [] ==> ParseRoutes(config) == [])
      && (upstreams != [] ==> ParseRoutes(config) == [SiteRoute("default", true, PathPrefix, "/", upstreams[0], 1000, false)])
  {
  }

  /** A configuration without routes sends every path to its first upstream. */
  lemma LegacyConfigServesEveryPath(config: Json, path: string)
    requires Get(config, Routes).None? && HasPrefix(path, "/")
    ensures var upstreams := ParsedUpstreams(UpstreamItems(config));
      var w := Winner(ParseRoutes(config), path);
      if upstreams == [] then w.None? else w.Some? && w.value.upstream == upstreams[0] && !w.value.stripPrefix
  {
    var routes := ParseRoutes(config);
    if routes != [] {
      assert routes[0] in routes && Candidate(routes[0], path);
      WinnerIsBest(routes, path, routes[0]);
      assert |routes| == 1 && Winner(routes, path).value == routes[0];
    }
  }

  // ---------------------------------------------------------------- the documented rules

  /** The winner by the documented rules: lowest priority value, then longest path, then exact before prefix. */
  lemma WinnerByTheRules(routes: seq<SiteRoute>, path: string, r: SiteRoute)
    requires r in routes && r.enabled && Matches(r, path)
    ensures Winner(routes, path).Some?
    ensures var w := Winner(routes, path).value;
      && w in routes && w.enabled && Matches(w, path)
      && w.priority <= r.priority
      && (w.priority == r.priority ==> |w.path| >= |r.path|)
      && (w.priority == r.priority && |w.path| == |r.path| && r.matchType == PathExact ==> w.matchType == PathExact)
  {
    WinnerIsBest(routes, path, r);
    var w := Winner(routes, path).value;
    MatchIsPrefix(w, path);
    MatchIsPrefix(r, path);
    if |w.path| < |r.path| {
      ShorterPrefix(w.path, r.path, path);
    }
    assert |w.path| == |r.path| ==> w.path == r.path;
  }

  /** An exact route matches its own path only; a prefix route also every child path, but no longer word. */
  lemma MatchRules(r: SiteRoute, path: string)
    requires r.path != [] && r.path[|r.path| - 1] != '/'
    ensures r.matchType == PathExact ==> (Matches(r, path) <==> path == r.path)
    ensures r.matchType == PathPrefix ==> (Matches(r, path) <==> path == r.path || r.path + "/" <= path)
    ensures r.matchType == PathPrefix && r.path < path && path[|r.path|] != '/' ==> !Matches(r, path)
  {
    if r.path < path && path[|r.path|] != '/' {
      assert (r.path + "/")[|r.path|] == '/';
    }
  }

  /** The documented example. */
  lemma MatchExample(r: SiteRoute)
    requires r.path == "/api" && r.matchType == PathPrefix
    ensures Matches(r, "/api") && Matches(r, "/api/users") && !Matches(r, "/apix")
  {
    assert r.path + "/" == "/api/" && "/api/users"[..5] == "/api/" && "/apix"[4] != '/';
    MatchRules(r, "/apix");
  }

  lemma ParsedRoute(route: Json, upstreams: set<string>)
    requires ValidRoute(route, upstreams) && [] !in upstreams
    ensures ParseRoute(route).Some?
    ensures ParseRoute(route).value.enabled == Enabled(route)
    ensures IsDefault(route) <==> Enabled(route) && ParseRoute(route).value.path == "/"
    ensures ParseRoute(route).value.priority == KeyOf(route).priority && Some(ParseRoute(route).value.path) == KeyOf(route).path
    ensures ParseRoute(route).value.matchType == (if KeyOf(route).matchType == Some("path_exact") then PathExact else PathPrefix)
    ensures KeyOf(route).matchType == Some("path_exact") || KeyOf(route).matchType == Some("path_prefix")
  {
    ValidRouteParses(route, upstreams);
  }

  /**
   * Validator and parser agree: of routes that are acceptable one by one, the configuration is accepted exactly
   * when no two active parsed routes share match type, path and priority, and an active parsed route has the
   * path "/" if there are upstreams.
   */
  lemma AcceptedByParsedRoutes(config: Json, routes: seq<Json>)
    requires Get(config, Routes) == Some(JArray(routes)) && AllValid(routes, TrimmedNames(UpstreamItems(config)))
    ensures |ParseAll(routes)| == |routes|
    ensures ValidConfig(config) <==>
      && DistinctKeys(ParseAll(routes))
      && (TrimmedNames(UpstreamItems(config)) != {} ==>
            exists i :: 0 <= i < |ParseAll(routes)| && ParseAll(routes)[i].enabled && ParseAll(routes)[i].path == "/")
  {
    ParsedAgree(routes, TrimmedNames(UpstreamItems(config)));
  }

  lemma ParsedAgree(routes: seq<Json>, names: set<string>)
    requires [] !in names && AllValid(routes, names)
    ensures |ParseAll(routes)| == |routes|
    ensures NoDuplicateKeys(routes) <==> DistinctKeys(ParseAll(routes))
    ensures HasDefault(routes) <==>
            exists i :: 0 <= i < |ParseAll(routes)| && ParseAll(routes)[i].enabled && ParseAll(routes)[i].path == "/"
  {
    var parsed := ParseAll(routes);
    AllValidRoutesParse(routes, names);
    forall i | 0 <= i < |routes|
      ensures parsed[i].enabled == Enabled(routes[i]) && (IsDefault(routes[i]) <==> parsed[i].enabled && parsed[i].path == "/")
    {
      ParsedRoute(routes[i], names);
    }
    forall i, j | 0 <= i < j < |routes| ensures KeyOf(routes[i]) == KeyOf(routes[j]) <==> SameKey(parsed[i], parsed[j]) {
      SameKeyParsed(routes[i], routes[j], names);
    }
    SameDefaults(routes, parsed);
    SameDuplicates(routes, parsed);
  }

  lemma SameKeyParsed(a: Json, b: Json, upstreams: set<string>)
    requires ValidRoute(a, upstreams) && ValidRoute(b, upstreams) && [] !in upstreams
    ensures ParseRoute(a).Some? && ParseRoute(b).Some?
    ensures KeyOf(a) == KeyOf(b) <==> SameKey(ParseRoute(a).value, ParseRoute(b).value)
  {
    ParsedRoute(a, upstreams);
    ParsedRoute(b, upstreams);
  }

  lemma SameDuplicates(routes: seq<Json>, parsed: seq<SiteRoute>)
    requires |parsed| == |routes| && forall i :: 0 <= i < |routes| ==> parsed[i].enabled == Enabled(routes[i])
    requires forall i, j :: 0 <= i < j < |routes| ==> (KeyOf(routes[i]) == KeyOf(routes[j]) <==> SameKey(parsed[i], parsed[j]))
    ensures NoDuplicateKeys(routes) <==> DistinctKeys(parsed)
  {
  }

  lemma SameDefaults(routes: seq<Json>, parsed: seq<SiteRoute>)
    requires |parsed| == |routes|
    requires forall i :: 0 <= i < |routes| ==> (IsDefault(routes[i]) <==> parsed[i].enabled && parsed[i].path == "/")
    ensures HasDefault(routes) <==> exists i :: 0 <= i < |parsed| && parsed[i].enabled && parsed[i].path == "/"
  {
    if HasDefault(routes) {
      var i :| 0 <= i < |routes| && IsDefault(routes[i]);
      assert parsed[i].enabled && parsed[i].path == "/";
    }
  }
}
