/** Validation and parsing of a site's JSON configuration: two separate readers that must agree. */
module SiteConfig {
  import opened Common
  import opened Sorting
  import opened Text

  /** The object keys the code looks up; every other key is one it ignores. */
  datatype Key =
    | Upstreams | Routes | Name | Path | Upstream | MatchTypeKey | PriorityKey | EnabledKey | StripPrefix
    | OtherKey(text: string)

  datatype Json =
    | JNull
    | JBool(flag: bool)
    | JInt(number: int)
    | JFloat
    | JString(text: string)
    | JArray(items: seq<Json>)
    | JObject(fields: map<Key, Json>)

  datatype MatchType = PathPrefix | PathExact

  datatype SiteRoute = SiteRoute(name: string, enabled: bool, matchType: MatchType, path: string,
                                 upstream: string, priority: int, stripPrefix: bool)

  // ---------------------------------------------------------------- JSON access

  function Get(v: Json, key: Key): Option<Json> {
    if v.JObject? && key in v.fields then Some(v.fields[key]) else None
  }

  function GetString(v: Json, key: Key): Option<string> {
    match Get(v, key)
    case Some(JString(s)) => Some(s)
    case _ => None
  }

  function GetBool(v: Json, key: Key, default: bool): bool {
    match Get(v, key)
    case Some(JBool(b)) => b
    case _ => default
  }

  /** An integer in the range of a signed 32-bit number; anything else is the default. */
  function GetI32(v: Json, key: Key, default: int): int {
    match Get(v, key)
    case Some(JInt(n)) => if -I32_MAX - 1 <= n <= I32_MAX then n else default
    case _ => default
  }

  /** `required_route_string` */
  function Required(v: Json, key: Key): Option<string> {
    match GetString(v, key)
    case Some(s) => Some(Trim(s))
    case None => None
  }

  function UpstreamItems(config: Json): seq<Json> {
    match Get(config, Upstreams)
    case Some(JArray(items)) => items
    case _ => []
  }

  // ---------------------------------------------------------------- validation

  function TrimmedNames(items: seq<Json>): (r: set<string>)
    ensures forall n :: n in r <==> n != [] && exists v :: v in items && Required(v, Name) == Some(n)
  {
    if items == [] then {}
    else
      var rest := TrimmedNames(items[1..]);
      match Required(items[0], Name)
      case Some(n) => if n == [] then rest else rest + {n}
      case None => rest
  }

  function Priority(route: Json): int {
    GetI32(route, PriorityKey, 100)
  }

  predicate Enabled(route: Json) {
    GetBool(route, EnabledKey, true)
  }

  predicate KnownMatchType(text: string) {
    text == "path_prefix" || text == "path_exact"
  }

  /** The conditions on a single route. */
  predicate ValidRoute(route: Json, upstreams: set<string>) {
    && route.JObject?
    && Required(route, Name).Some? && Required(route, Name).value != []
    && Required(route, Path).Some? && HasPrefix(Required(route, Path).value, "/")
    && Required(route, MatchTypeKey).Some? && KnownMatchType(Required(route, MatchTypeKey).value)
    && Required(route, Upstream).Some? && Required(route, Upstream).value in upstreams
  }

  datatype RouteKey = RouteKey(matchType: Option<string>, path: Option<string>, priority: int)

  function KeyOf(route: Json): RouteKey {
    RouteKey(Required(route, MatchTypeKey), Required(route, Path), Priority(route))
  }

  predicate IsDefault(route: Json) {
    Enabled(route) && Required(route, Path) == Some("/")
  }

  predicate NoDuplicateKeys(routes: seq<Json>) {
    forall i, j :: 0 <= i < j < |routes| && Enabled(routes[i]) && Enabled(routes[j]) ==> KeyOf(routes[i]) != KeyOf(routes[j])
  }

  ghost predicate AllValid(routes: seq<Json>, upstreams: set<string>) {
    forall i :: 0 <= i < |routes| ==> ValidRoute(routes[i], upstreams)
  }

  ghost predicate HasDefault(routes: seq<Json>) {
    exists i :: 0 <= i < |routes| && IsDefault(routes[i])
  }

  ghost predicate ValidRoutes(routes: seq<Json>, upstreams: set<string>) {
    && AllValid(routes, upstreams)
    && NoDuplicateKeys(routes)
    && (upstreams != {} ==> HasDefault(routes))
  }

  /** What the hub accepts, stated without the order in which it looks. */
  ghost predicate ValidConfig(config: Json) {
    match Get(config, Routes)
    case None => true
    case Some(value) => value.JArray? && ValidRoutes(value.items, TrimmedNames(UpstreamItems(config)))
  }

  /** What the validator reads of one route. */
  datatype RouteFacts = RouteFacts(valid: bool, enabled: bool, isDefault: bool, key: RouteKey)

  function FactsOf(routes: seq<Json>, upstreams: set<string>): seq<RouteFacts> {
    seq(|routes|, i requires 0 <= i < |routes| =>
      RouteFacts(ValidRoute(routes[i], upstreams), Enabled(routes[i]), IsDefault(routes[i]), KeyOf(routes[i])))
  }

  predicate FactsValid(facts: seq<RouteFacts>) {
    && (forall i :: 0 <= i < |facts| ==> facts[i].valid)
    && (forall i, j :: 0 <= i < j < |facts| && facts[i].enabled && facts[j].enabled ==> facts[i].key != facts[j].key)
  }

  predicate FactsHaveDefault(facts: seq<RouteFacts>) {
    exists i :: 0 <= i < |facts| && facts[i].enabled && facts[i].isDefault
  }

  lemma FactsAgree(routes: seq<Json>, upstreams: set<string>)
    ensures FactsValid(FactsOf(routes, upstreams)) <==> AllValid(routes, upstreams) && NoDuplicateKeys(routes)
    ensures FactsHaveDefault(FactsOf(routes, upstreams)) <==> HasDefault(routes)
  {
    var facts := FactsOf(routes, upstreams);
    forall i | 0 <= i < |routes|
      ensures facts[i] == RouteFacts(ValidRoute(routes[i], upstreams), Enabled(routes[i]), IsDefault(routes[i]), KeyOf(routes[i]))
    {
    }
    if HasDefault(routes) {
      var i :| 0 <= i < |routes| && IsDefault(routes[i]);
      assert facts[i].isDefault;
    }
  }

  /** The loop over the routes: active keys seen so far and whether a default route was seen. */
  method CheckRoutes(facts: seq<RouteFacts>) returns (ok: bool, hasDefault: bool)
    ensures ok <==> FactsValid(facts)
    ensures ok ==> (hasDefault <==> FactsHaveDefault(facts))
  {
    var activeKeys: set<RouteKey> := {};
    hasDefault := false;
    for i := 0 to |facts|
      invariant forall k :: 0 <= k < i ==> facts[k].valid
      invariant forall k, l :: 0 <= k < l < i && facts[k].enabled && facts[l].enabled ==> facts[k].key != facts[l].key
      invariant activeKeys == set k | 0 <= k < i && facts[k].enabled :: facts[k].key
      invariant hasDefault <==> exists k :: 0 <= k < i && facts[k].enabled && facts[k].isDefault
    {
      if !facts[i].valid {
        return false, hasDefault;
      }
      if facts[i].enabled {
        if facts[i].isDefault {
          hasDefault := true;
        }
        if facts[i].key in activeKeys {
          return false, hasDefault;
        }
        activeKeys := activeKeys + {facts[i].key};
      }
    }
    return true, hasDefault;
  }

  /** `validate_site_config` */
  method ValidateSiteConfig(config: Json) returns (ok: bool)
    ensures ok <==> ValidConfig(config)
  {
    var names := TrimmedNames(UpstreamItems(config));
    match Get(config, Routes) {
      case None => return true;
      case Some(value) =>
        if !value.JArray? {
          return false;
        }
        if value.items == [] && names != {} {
          assert !HasDefault(value.items);
          return false;
        }
        FactsAgree(value.items, names);
        var valid, hasDefault := CheckRoutes(FactsOf(value.items, names));
        return valid && (names == {} || hasDefault);
    }
  }

  // ---------------------------------------------------------------- parsing

  /** Names of the parsed upstreams; unlike the validator, the parser does not trim them. */
  function ParsedUpstreams(items: seq<Json>): (r: seq<string>)
    ensures forall n :: n in r <==> exists v :: v in items && GetString(v, Name) == Some(n)
  {
    if items == [] then []
    else
      (match GetString(items[0], Name)
       case Some(n) => [n]
       case None => [])
      + ParsedUpstreams(items[1..])
  }

  function ParseMatchType(raw: string): MatchType {
    if Lower(Trim(raw)) in ["path_exact", "exact", "="] then PathExact else PathPrefix
  }

  function ParseRoute(route: Json): Option<SiteRoute> {
    if !route.JObject? then None
    else
      match (Required(route, Name), Required(route, Path), Required(route, Upstream))
      case (Some(name), Some(path), Some(upstream)) =>
        if name == [] || path == [] || upstream == [] then None
        else
          Some(SiteRoute(name, Enabled(route),
                         (match GetString(route, MatchTypeKey)
                          case Some(s) => ParseMatchType(s)
                          case None => PathPrefix),
                         path, upstream, Priority(route), GetBool(route, StripPrefix, false)))
      case _ => None
  }

  function ParseAll(routes: seq<Json>): seq<SiteRoute> {
    if routes == [] then []
    else
      (match ParseRoute(routes[0])
       case Some(r) => [r]
       case None => [])
      + ParseAll(routes[1..])
  }

  function MatchRank(m: MatchType): int {
    if m.PathExact? then 0 else 1
  }

  /** Priority, then longer path, then exact before prefix, then name. */
  predicate RouteLe(a: SiteRoute, b: SiteRoute) {
    a.priority < b.priority ||
    (a.priority == b.priority &&
     (Utf8Len(a.path) > Utf8Len(b.path) ||
      (Utf8Len(a.path) == Utf8Len(b.path) &&
       (MatchRank(a.matchType) < MatchRank(b.matchType) ||
        (a.matchType == b.matchType && LexLe(a.name, b.name))))))
  }

  lemma RouteLeIsTotal()
    ensures TotalPreorder(RouteLe)
  {
    forall a: SiteRoute, b: SiteRoute ensures RouteLe(a, b) || RouteLe(b, a) {
      LexTotal(a.name, b.name);
    }
    forall a: SiteRoute, b: SiteRoute, c: SiteRoute | RouteLe(a, b) && RouteLe(b, c) ensures RouteLe(a, c) {
      if LexLe(a.name, b.name) && LexLe(b.name, c.name) {
        LexTransitive(a.name, b.name, c.name);
      }
    }
  }

  function DefaultRoutes(upstreams: seq<string>): seq<SiteRoute> {
    if upstreams == [] then [] else [SiteRoute("default", true, PathPrefix, "/", upstreams[0], 1000, false)]
  }

  function ParseRoutes(config: Json): seq<SiteRoute> {
    match Get(config, Routes)
    case Some(JArray(routes)) => Sort(ParseAll(routes), RouteLe)
    case Some(_) => []
    case None => DefaultRoutes(ParsedUpstreams(UpstreamItems(config)))
  }

  // ---------------------------------------------------------------- validator and parser agree

  lemma LowerKeepsLower(s: string)
    requires forall i :: 0 <= i < |s| ==> !('A' <= s[i] <= 'Z')
    ensures Lower(s) == s
  {
  }

  /** The parser reads an accepted match type as the validator meant it. */
  lemma KnownMatchTypesParse(raw: string)
    requires KnownMatchType(Trim(raw))
    ensures ParseMatchType(raw).PathExact? <==> Trim(raw) == "path_exact"
  {
    LowerKeepsLower("path_exact");
    LowerKeepsLower("path_prefix");
    assert "path_prefix"[5] == 'p' && "path_exact"[5] == 'e';
    assert |"path_prefix"| == 11 && |"exact"| == 5 && |"="| == 1;
  }

  /** An accepted route is parsed, and into exactly the fields it was accepted for. */
  lemma ValidRouteParses(route: Json, upstreams: set<string>)
    requires ValidRoute(route, upstreams) && [] !in upstreams
    ensures ParseRoute(route).Some?
    ensures ParseRoute(route).value == SiteRoute(
      Required(route, Name).value, Enabled(route),
      if Required(route, MatchTypeKey) == Some("path_exact") then PathExact else PathPrefix,
      Required(route, Path).value, Required(route, Upstream).value, Priority(route), GetBool(route, StripPrefix, false))
  {
    KnownMatchTypesParse(GetString(route, MatchTypeKey).value);
  }

  lemma {:induction false} AllValidRoutesParse(routes: seq<Json>, upstreams: set<string>)
    requires [] !in upstreams && AllValid(routes, upstreams)
    ensures |ParseAll(routes)| == |routes|
    ensures forall i :: 0 <= i < |routes| ==> ParseRoute(routes[i]) == Some(ParseAll(routes)[i])
  {
    if routes != [] {
      ValidRouteParses(routes[0], upstreams);
      AllValidRoutesParse(routes[1..], upstreams);
      forall i | 0 < i < |routes| ensures ParseRoute(routes[i]) == Some(ParseAll(routes)[i]) {
        assert routes[1..][i - 1] == routes[i];
      }
    }
  }

  /**
   * Publishing an accepted configuration drops no route: the parsed routes are a sorted permutation of
   * the configured ones, each parsed in place.
   */
  lemma NoRouteIsDropped(config: Json, routes: seq<Json>)
    requires ValidConfig(config) && Get(config, Routes) == Some(JArray(routes))
    ensures |ParseAll(routes)| == |routes|
    ensures forall i :: 0 <= i < |routes| ==> ParseRoute(routes[i]) == Some(ParseAll(routes)[i])
    ensures multiset(ParseRoutes(config)) == multiset(ParseAll(routes))
    ensures SortedBy(ParseRoutes(config), RouteLe)
  {
    AllValidRoutesParse(routes, TrimmedNames(UpstreamItems(config)));
    SortPermutes(ParseAll(routes), RouteLe);
    RouteLeIsTotal();
    SortSorts(ParseAll(routes), RouteLe);
  }

  // ---------------------------------------------------------------- upstreams resolve

  ghost predicate RoutesResolve(config: Json) {
    forall r :: r in ParseRoutes(config) ==> r.upstream in ParsedUpstreams(UpstreamItems(config))
  }

  /** Every non-empty trimmed upstream name is also the name of an upstream as written. */
  ghost predicate NamesClosed(items: seq<Json>) {
    forall n :: n in TrimmedNames(items) ==> n in ParsedUpstreams(items)
  }

  /** An accepted route points at a trimmed upstream name. */
  lemma ParsedUpstreamIsName(routes: seq<Json>, upstreams: set<string>, r: SiteRoute)
    requires [] !in upstreams && AllValid(routes, upstreams) && r in Sort(ParseAll(routes), RouteLe)
    ensures r.upstream in upstreams
  {
    SortMembers(ParseAll(routes), RouteLe, r);
    AllValidRoutesParse(routes, upstreams);
    var i :| 0 <= i < |routes| && ParseAll(routes)[i] == r;
    ValidRouteParses(routes[i], upstreams);
  }

  lemma ClosedNamesResolve(config: Json)
    requires ValidConfig(config) && NamesClosed(UpstreamItems(config))
    ensures RoutesResolve(config)
  {
    var names := TrimmedNames(UpstreamItems(config));
    match Get(config, Routes)
    case Some(value) =>
      forall r | r in ParseRoutes(config) ensures r.upstream in ParsedUpstreams(UpstreamItems(config)) {
        ParsedUpstreamIsName(value.items, names, r);
        assert r.upstream in names;
      }
    case None =>
  }

  /** A single default route to `target`, matched as `kind` says. */
  function SingleRoute(kind: string, target: string): Json {
    JObject(map[Name := JString("r"), Path := JString("/"), MatchTypeKey := JString(kind), Upstream := JString(target)])
  }

  /** A configuration with these upstreams and one default route to `target`. */
  function SingleRouteConfig(items: seq<Json>, kind: string, target: string): Json {
    JObject(map[Upstreams := JArray(items), Routes := JArray([SingleRoute(kind, target)])])
  }

  lemma TrimmedNameIsTrimmed(items: seq<Json>, n: string)
    requires n in TrimmedNames(items)
    ensures Trim(n) == n
  {
    var v :| v in items && Required(v, Name) == Some(n);
    TrimIsTrimmed(GetString(v, Name).value);
    TrimOfTrimmed(n);
  }

  lemma SingleRouteReads(kind: string, target: string)
    requires KnownMatchType(kind) && Trim(target) == target
    ensures var route := SingleRoute(kind, target);
      && Required(route, Name) == Some("r") && Required(route, Path) == Some("/")
      && Required(route, MatchTypeKey) == Some(kind) && Required(route, Upstream) == Some(target)
      && Enabled(route) && Priority(route) == 100 && !GetBool(route, StripPrefix, false)
  {
    TrimOfTrimmed("r");
    TrimOfTrimmed("/");
    TrimOfTrimmed(kind);
  }

  /** Such a configuration is accepted for every upstream the validator knows, and parses to that one route. */
  lemma SingleRouteValid(items: seq<Json>, kind: string, target: string)
    requires KnownMatchType(kind) && target in TrimmedNames(items)
    ensures ValidRoutes([SingleRoute(kind, target)], TrimmedNames(items))
    ensures ParseAll([SingleRoute(kind, target)])
         == [SiteRoute("r", true, if kind == "path_exact" then PathExact else PathPrefix, "/", target, 100, false)]
  {
    var route, names := SingleRoute(kind, target), TrimmedNames(items);
    TrimmedNameIsTrimmed(items, target);
    SingleRouteReads(kind, target);
    assert ValidRoute(route, names);
    assert [route][0] == route && IsDefault(route);
    assert HasDefault([route]);
    AllValidRoutesParse([route], names);
    ValidRouteParses(route, names);
  }

  lemma SingleRouteConfigReads(items: seq<Json>, kind: string, target: string)
    ensures UpstreamItems(SingleRouteConfig(items, kind, target)) == items
    ensures Get(SingleRouteConfig(items, kind, target), Routes) == Some(JArray([SingleRoute(kind, target)]))
  {
  }

  lemma SingleRouteAccepted(items: seq<Json>, kind: string, target: string)
    requires KnownMatchType(kind) && target in TrimmedNames(items)
    ensures UpstreamItems(SingleRouteConfig(items, kind, target)) == items
    ensures ValidConfig(SingleRouteConfig(items, kind, target))
    ensures ParseRoutes(SingleRouteConfig(items, kind, target))
         == [SiteRoute("r", true, if kind == "path_exact" then PathExact else PathPrefix, "/", target, 100, false)]
  {
    SingleRouteConfigReads(items, kind, target);
    SingleRouteValid(items, kind, target);
    SortOne(ParseAll([SingleRoute(kind, target)])[0]);
  }

  lemma SortOne(r: SiteRoute)
    ensures Sort([r], RouteLe) == [r]
  {
    assert [r][1..] == [];
  }

  /** An upstream reachable by its trimmed name alone gives an accepted configuration with an unresolved route. */
  lemma UnresolvedConfig(items: seq<Json>, n: string)
    requires n in TrimmedNames(items) && n !in ParsedUpstreams(items)
    ensures var config := SingleRouteConfig(items, "path_prefix", n);
      UpstreamItems(config) == items && ValidConfig(config) && !RoutesResolve(config)
  {
    SingleRouteAccepted(items, "path_prefix", n);
    var routes := ParseRoutes(SingleRouteConfig(items, "path_prefix", n));
    assert routes[0] in routes;
  }

  /**
   * With a given list of upstreams, every accepted configuration resolves all its routes if and only if
   * no upstream is reachable by its trimmed name alone.
   */
  lemma RoutesAlwaysResolveIff(items: seq<Json>)
    ensures (forall config :: ValidConfig(config) && UpstreamItems(config) == items ==> RoutesResolve(config))
       <==> NamesClosed(items)
  {
    if NamesClosed(items) {
      forall config | ValidConfig(config) && UpstreamItems(config) == items ensures RoutesResolve(config) {
        ClosedNamesResolve(config);
      }
    } else {
      var n :| n in TrimmedNames(items) && n !in ParsedUpstreams(items);
      UnresolvedConfig(items, n);
    }
  }

  /** One upstream named " a": the accepted route to "a" resolves to nothing. */
  lemma UntrimmedUpstreamIsUnresolved()
    ensures var items := [JObject(map[Name := JString(" a")])];
      var config := SingleRouteConfig(items, "path_prefix", "a");
      ValidConfig(config) && !RoutesResolve(config)
  {
    var item := JObject(map[Name := JString(" a")]);
    var items := [item];
    assert GetString(item, Name) == Some(" a");
    TrimStartOf(' ', "a");
    TrimOfTrimmed("a");
    assert Required(item, Name) == Some("a");
    assert item in items && "a" in TrimmedNames(items);
    assert forall v :: v in items ==> GetString(v, Name) == Some(" a");
    assert "a" !in ParsedUpstreams(items) by { assert |" a"| != |"a"|; }
    UnresolvedConfig(items, "a");
  }

  lemma TrimStartOf(c: char, s: string)
    requires IsWhitespace(c)
    ensures Trim([c] + s) == Trim(s)
  {
    assert ([c] + s)[1..] == s;
  }

  /** Names without surrounding whitespace are closed. */
  lemma TrimmedUpstreamsAreClosed(items: seq<Json>)
    requires forall v :: v in items && GetString(v, Name).Some? ==> IsTrimmed(GetString(v, Name).value)
    ensures NamesClosed(items)
  {
    forall n | n in TrimmedNames(items) ensures n in ParsedUpstreams(items) {
      var v :| v in items && Required(v, Name) == Some(n);
      TrimOfTrimmed(GetString(v, Name).value);
    }
  }

  // ---------------------------------------------------------------- what the fields of a route mean

  /** The object holds this text under the key, up to whitespace around it. */
  ghost predicate Holds(v: Json, key: Key, text: string) {
    exists raw :: v.JObject? && key in v.fields && v.fields[key] == JString(raw) && Trim(raw) == text
  }

  lemma HoldsIff(v: Json, key: Key, text: string)
    ensures Holds(v, key, text) <==> Required(v, key) == Some(text)
  {
    if Required(v, key) == Some(text) {
      assert v.fields[key] == JString(GetString(v, key).value);
    }
  }

  /** A route is accepted exactly when it is an object with a name, a path from the root, a known match type and a known upstream. */
  lemma RouteAcceptedIff(route: Json, upstreams: set<string>)
    ensures ValidRoute(route, upstreams) <==>
      && (exists name :: Holds(route, Name, name) && name != [])
      && (exists path :: Holds(route, Path, path) && path != [] && path[0] == '/')
      && (Holds(route, MatchTypeKey, "path_prefix") || Holds(route, MatchTypeKey, "path_exact"))
      && (exists upstream :: Holds(route, Upstream, upstream) && upstream in upstreams)
  {
    forall key, text ensures Holds(route, key, text) <==> Required(route, key) == Some(text) {
      HoldsIff(route, key, text);
    }
    if ValidRoute(route, upstreams) {
      assert Holds(route, Name, Required(route, Name).value);
      assert Holds(route, Path, Required(route, Path).value);
      assert Holds(route, Upstream, Required(route, Upstream).value);
    }
  }

  /** A priority that is a signed 32-bit integer is taken as it is, anything else is 100; a route is on unless it says otherwise. */
  lemma FieldDefaults(fields: map<Key, Json>)
    ensures var route := JObject(fields);
      && (PriorityKey in fields && fields[PriorityKey].JInt? && -0x8000_0000 <= fields[PriorityKey].number <= 0x7FFF_FFFF ==>
            Priority(route) == fields[PriorityKey].number)
      && (!(PriorityKey in fields && fields[PriorityKey].JInt? && -0x8000_0000 <= fields[PriorityKey].number <= 0x7FFF_FFFF) ==>
            Priority(route) == 100)
      && (Enabled(route) <==> !(EnabledKey in fields && fields[EnabledKey] == JBool(false)))
      && (GetBool(route, StripPrefix, false) <==> StripPrefix in fields && fields[StripPrefix] == JBool(true))
  {
  }

  /** The texts the parser reads as an exact match, whatever their case; every other text is a prefix match. */
  lemma MatchTypeTexts(raw: string)
    ensures ParseMatchType(raw).PathExact? <==>
            Lower(Trim(raw)) == "path_exact" || Lower(Trim(raw)) == "exact" || Lower(Trim(raw)) == "="
  {
  }

  /** The published order, pair by pair: priority, then the longer path, then exact before prefix, then the name. */
  lemma PublishedOrder(config: Json, i: nat, j: nat)
    requires Get(config, Routes).Some? && i < j < |ParseRoutes(config)|
    ensures var a, b := ParseRoutes(config)[i], ParseRoutes(config)[j];
      && a.priority <= b.priority
      && (a.priority == b.priority ==> Utf8Len(a.path) >= Utf8Len(b.path))
      && (a.priority == b.priority && Utf8Len(a.path) == Utf8Len(b.path) && b.matchType == PathExact ==> a.matchType == PathExact)
      && (a.priority == b.priority && Utf8Len(a.path) == Utf8Len(b.path) && a.matchType == b.matchType ==> LexLe(a.name, b.name))
  {
    var routes := Get(config, Routes).value.items;
    RouteLeIsTotal();
    SortSorts(ParseAll(routes), RouteLe);
    assert RouteLe(ParseRoutes(config)[i], ParseRoutes(config)[j]);
  }
}
