/**
 The final route table and how requests reach it: prefixedRoutes, validateExtraConflicts and
 the mount patterns (server/server.go).
 */
module RouteTable {
  import opened Wrappers
  import opened Text
  import opened Sorting
  import opened Paths
  import opened Routes
  import opened Descriptors
  import opened Surface
  import opened Mux
  import PolicySpec

  // ---- prefixes ----

  /** The prefix of the group of that name; an unknown group has none. */
  function PrefixOf(groups: seq<Group>, api: string): string {
    if groups == [] then ""
    else if groups[|groups| - 1].name == api then groups[|groups| - 1].prefix
    else PrefixOf(groups[..|groups| - 1], api)
  }

  function PrefixIn(m: map<string, string>, api: string): string {
    if api in m then m[api] else ""
  }

  /** m answers like PrefixOf. */
  ghost predicate HoldsPrefixes(m: map<string, string>, groups: seq<Group>) {
    forall api :: PrefixIn(m, api) == PrefixOf(groups, api)
  }

  method PrefixByApi(groups: seq<Group>) returns (m: map<string, string>)
    ensures HoldsPrefixes(m, groups)
  {
    m := map[];
    for i := 0 to |groups|
      invariant HoldsPrefixes(m, groups[..i])
    {
      assert groups[..i + 1][..i] == groups[..i];
      m := m[groups[i].name := groups[i].prefix];
    }
    assert groups[..|groups|] == groups;
  }

  function Prefixed(groups: seq<Group>, r: Route): Route {
    r.(path := Joined(PrefixOf(groups, r.api), r.protoPath))
  }

  method JoinTwo(prefix: string, path: string) returns (r: string)
    ensures r == Joined(prefix, path)
  {
    r := JoinPaths([prefix, path]);
    JoinPathsOfTwo(prefix, path);
  }

  method PrefixRoute(ghost groups: seq<Group>, prefixes: map<string, string>, r: Route) returns (out: Route)
    requires HoldsPrefixes(prefixes, groups)
    ensures out == Prefixed(groups, r)
  {
    var path := JoinTwo(PrefixIn(prefixes, r.api), r.protoPath);
    out := r.(path := path);
  }

  method PrefixedRoutes(groups: seq<Group>, routes: seq<Route>) returns (out: seq<Route>)
    ensures ArePrefixed(groups, routes, out)
  {
    var prefixes := PrefixByApi(groups);
    out := [];
    for i := 0 to |routes|
      invariant ArePrefixed(groups, routes[..i], out)
    {
      TakeNext(routes, i);
      var r := PrefixRoute(groups, prefixes, routes[i]);
      out := out + [r];
    }
  }

  ghost predicate ArePrefixed(groups: seq<Group>, routes: seq<Route>, out: seq<Route>) {
    |out| == |routes| && forall i :: 0 <= i < |routes| ==> out[i] == Prefixed(groups, routes[i])
  }

  // ---- uniqueness of proto routes ----

  /** Groups as buildGroups leaves them, and proto routes as the surface declares them. */
  ghost predicate Assembled(groups: seq<Group>, routes: seq<Route>) {
    && PrefixesApart(groups) && PrefixesCanonical(groups)
    && DistinctKeys(routes)
    && (forall r :: r in routes ==> Canonical(r.protoPath))
  }

  lemma {:induction false} PrefixOfIsSome(groups: seq<Group>, api: string) returns (i: nat)
    requires PrefixOf(groups, api) != ""
    ensures i < |groups| && groups[i].name == api && groups[i].prefix == PrefixOf(groups, api)
  {
    var n := |groups| - 1;
    if groups[n].name == api {
      i := n;
    } else {
      i := PrefixOfIsSome(groups[..n], api);
    }
  }

  /** Two different group prefixes are not segment prefixes of each other. */
  lemma PrefixesAreApart(groups: seq<Group>, a: string, b: string)
    requires PrefixesApart(groups) && PrefixesCanonical(groups)
    requires var p, q := PrefixOf(groups, a), PrefixOf(groups, b); p != "" && q != "" && p != q
    ensures var p, q := Segments(PrefixOf(groups, a)), Segments(PrefixOf(groups, b)); !(p <= q) && !(q <= p)
  {
    var i := PrefixOfIsSome(groups, a);
    var j := PrefixOfIsSome(groups, b);
    assert groups[i] in groups && groups[j] in groups;
    var p, q := groups[i].prefix, groups[j].prefix;
    SegmentsAreSegments(p);
    SegmentsAreSegments(q);
    BelowIsSegmentPrefix(Segments(p), Segments(q));
    BelowIsSegmentPrefix(Segments(q), Segments(p));
  }

  lemma {:induction false} SamePrefixLength<T>(p: seq<T>, x: seq<T>, q: seq<T>, y: seq<T>)
    requires p + x == q + y
    ensures p <= q || q <= p
  {
    if |p| <= |q| {
      assert p == (p + x)[..|p|] == (q + y)[..|p|] == q[..|p|];
    } else {
      assert q == (q + y)[..|q|] == (p + x)[..|q|] == p[..|q|];
    }
  }

  /** Final paths meet only under one prefix, or when one of the routes has no prefix. */
  lemma MeetingPaths(groups: seq<Group>, r: Route, s: Route)
    requires PrefixesApart(groups) && PrefixesCanonical(groups)
    requires Canonical(r.protoPath) && Canonical(s.protoPath)
    requires Prefixed(groups, r).path == Prefixed(groups, s).path
    ensures var p, q := PrefixOf(groups, r.api), PrefixOf(groups, s.api);
            (p == q && r.protoPath == s.protoPath) || (p != q && (p == "" || q == ""))
  {
    var p, q := PrefixOf(groups, r.api), PrefixOf(groups, s.api);
    var a, b := Segments(p), Segments(q);
    var x, y := Segments(r.protoPath), Segments(s.protoPath);
    SegmentsAreSegments(p);
    SegmentsAreSegments(q);
    SegmentsAreSegments(r.protoPath);
    SegmentsAreSegments(s.protoPath);
    SegmentsOfRender(a + x);
    SegmentsOfRender(b + y);
    assert a + x == b + y;
    if p == q {
      assert x == (a + x)[|a|..] && y == (b + y)[|b|..];
    } else if p != "" && q != "" {
      PrefixesAreApart(groups, r.api, s.api);
      SamePrefixLength(a, x, b, y);
    }
  }

  /** An unprefixed route whose declared path is where a prefixed one is deployed. */
  ghost predicate Clash(groups: seq<Group>, r: Route, s: Route) {
    && PrefixOf(groups, r.api) == "" && PrefixOf(groups, s.api) != ""
    && r.verb == s.verb && r.protoPath == Joined(PrefixOf(groups, s.api), s.protoPath)
  }

  ghost predicate NoDuplicates(table: seq<Route>) {
    forall i, j :: 0 <= i < j < |table| ==> !(table[i].verb == table[j].verb && table[i].path == table[j].path)
  }

  lemma UnprefixedPath(groups: seq<Group>, r: Route)
    requires PrefixOf(groups, r.api) == "" && Canonical(r.protoPath)
    ensures Prefixed(groups, r).path == r.protoPath
  {
    assert Segments("") == [] by { assert Split("", '/') == [""]; }
    assert [] + Segments(r.protoPath) == Segments(r.protoPath);
  }

  lemma DuplicateIsClash(groups: seq<Group>, routes: seq<Route>, r: Route, s: Route)
    requires Assembled(groups, routes) && r in routes && s in routes
    requires r.verb == s.verb && RouteKey(r.verb, r.protoPath) != RouteKey(s.verb, s.protoPath)
    requires Prefixed(groups, r).path == Prefixed(groups, s).path
    ensures Clash(groups, r, s) || Clash(groups, s, r)
  {
    MeetingPaths(groups, r, s);
    if PrefixOf(groups, r.api) == "" { UnprefixedPath(groups, r); } else { UnprefixedPath(groups, s); }
  }

  lemma ClashIsDuplicate(groups: seq<Group>, routes: seq<Route>, table: seq<Route>, r: Route, s: Route)
    requires Assembled(groups, routes) && ArePrefixed(groups, routes, table)
    requires r in routes && s in routes && Clash(groups, r, s)
    ensures !NoDuplicates(table)
  {
    var i :| 0 <= i < |routes| && routes[i] == r;
    var j :| 0 <= j < |routes| && routes[j] == s;
    UnprefixedPath(groups, r);
    assert table[i].path == table[j].path && table[i].verb == table[j].verb;
  }

  ghost predicate SomeClash(groups: seq<Group>, routes: seq<Route>) {
    exists r, s :: r in routes && s in routes && Clash(groups, r, s)
  }

  /**
   The proto routes keep distinct methods and paths after prefixing exactly when no route of the
   unprefixed group is declared where a prefixed route is deployed.
   */
  lemma TableHasNoDuplicates(groups: seq<Group>, routes: seq<Route>, table: seq<Route>)
    requires Assembled(groups, routes) && ArePrefixed(groups, routes, table)
    ensures NoDuplicates(table) <==> !SomeClash(groups, routes)
  {
    forall i, j | 0 <= i < j < |routes| && table[i].verb == table[j].verb && table[i].path == table[j].path
      ensures SomeClash(groups, routes)
    {
      var r, s := routes[i], routes[j];
      assert r in routes && s in routes;
      DuplicateIsClash(groups, routes, r, s);
    }
    if SomeClash(groups, routes) {
      var r, s :| r in routes && s in routes && Clash(groups, r, s);
      ClashIsDuplicate(groups, routes, table, r, s);
    }
  }

  /** No route of the unprefixed group is declared at or under another group's prefix. */
  ghost predicate UnprefixedStaysOut(groups: seq<Group>, routes: seq<Route>) {
    forall r, g :: r in routes && g in groups && PrefixOf(groups, r.api) == "" && g.prefix != "" ==>
      !(Segments(g.prefix) <= Segments(r.protoPath))
  }

  lemma StayingOutAvoidsClashes(groups: seq<Group>, routes: seq<Route>, r: Route, s: Route)
    requires Assembled(groups, routes) && UnprefixedStaysOut(groups, routes) && r in routes && s in routes
    ensures !Clash(groups, r, s)
  {
    if Clash(groups, r, s) {
      var i := PrefixOfIsSome(groups, s.api);
      assert groups[i] in groups;
      SegmentsAreSegments(groups[i].prefix);
      SegmentsAreSegments(s.protoPath);
      SegmentsOfRender(Segments(groups[i].prefix) + Segments(s.protoPath));
    }
  }

  // ---- extra routes ----

  /** A handwritten route; its operation records the upper-case method and the path. */
  datatype Extra = Extra(id: string, verb: string, path: string)

  /** The key under which conflicts are checked. */
  function ExtraKey(e: Extra): string {
    if Upper(e.verb) != "" then RouteKey(Upper(e.verb), e.path) else e.id
  }

  /** The prefix validateExtraConflicts reads from the configuration itself. */
  function ConfiguredPrefix(apis: seq<ApiConfig>, api: string): string {
    if apis == [] then ""
    else
      var a := apis[|apis| - 1];
      if a.name == api && TrimSpace(a.prefix) != "" then GroupPrefix(a.prefix)
      else ConfiguredPrefix(apis[..|apis| - 1], api)
  }

  lemma DistinctApiNamesInit(apis: seq<ApiConfig>)
    requires DistinctApiNames(apis) && apis != []
    ensures DistinctApiNames(apis[..|apis| - 1])
    ensures forall i :: 0 <= i < |apis| - 1 ==> apis[i].name != apis[|apis| - 1].name
  {
  }

  lemma {:induction false} ConfiguredPrefixLookup(apis: seq<ApiConfig>, api: string)
    requires DistinctApiNames(apis)
    ensures forall i :: 0 <= i < |apis| && apis[i].name == api ==> ConfiguredPrefix(apis, api) == GroupPrefix(apis[i].prefix)
    ensures (forall i :: 0 <= i < |apis| ==> apis[i].name != api) ==> ConfiguredPrefix(apis, api) == ""
  {
    if apis != [] {
      var n := |apis| - 1;
      DistinctApiNamesInit(apis);
      ConfiguredPrefixLookup(apis[..n], api);
      assert forall i :: 0 <= i < n ==> apis[..n][i] == apis[i];
    }
  }

  /** The conflict check and the route table use the same prefixes. */
  lemma ConfiguredPrefixIsGroupPrefix(apis: seq<ApiConfig>, regs: seq<Registration>, apiByService: map<string, string>,
                                      groups: seq<Group>, api: string)
    requires GoodGroups(apis, regs, apiByService, groups)
    ensures ConfiguredPrefix(apis, api) == PrefixOf(groups, api)
  {
    ConfiguredPrefixLookup(apis, api);
    if i :| 0 <= i < |apis| && apis[i].name == api {
      assert HasGroup(groups, apis[i].name, GroupPrefix(apis[i].prefix));
      var g :| g in groups && g.name == api && g.prefix == GroupPrefix(apis[i].prefix);
      var k :| 0 <= k < |groups| && groups[k] == g;
      PrefixOfNamed(groups, k);
    } else if PrefixOf(groups, api) != "" {
      var k := PrefixOfIsSome(groups, api);
    }
  }

  lemma {:induction false} PrefixOfNamed(groups: seq<Group>, k: nat)
    requires StrictlySorted(Map(GroupName, groups)) && k < |groups|
    ensures PrefixOf(groups, groups[k].name) == groups[k].prefix
  {
    var n := |groups| - 1;
    var names := Map(GroupName, groups);
    if k < n {
      assert Less(names[k], names[n]);
      LessAsymmetric(names[k], names[n]);
      forall i, j | 0 <= i < j < n
        ensures Less(Map(GroupName, groups[..n])[i], Map(GroupName, groups[..n])[j])
      {
        assert Less(names[i], names[j]);
      }
      PrefixOfNamed(groups[..n], k);
    }
  }

  method TableKeys(apis: seq<ApiConfig>, routes: seq<Route>) returns (seen: set<string>)
    ensures forall k :: k in seen <==> IsTableKey(apis, routes, k)
  {
    var prefixes := ConfiguredPrefixes(apis);
    seen := {};
    for i := 0 to |routes|
      invariant forall k :: k in seen <==> IsTableKey(apis, routes[..i], k)
    {
      TakeNext(routes, i);
      TableKeysSnoc(apis, routes[..i], routes[i]);
      var key := MakeTableKey(apis, prefixes, routes[i]);
      seen := seen + {key};
    }
    assert routes[..|routes|] == routes;
  }

  lemma TableKeysSnoc(apis: seq<ApiConfig>, routes: seq<Route>, r: Route)
    ensures forall k :: IsTableKey(apis, routes + [r], k) <==> IsTableKey(apis, routes, k) || k == TableKey(apis, r)
  {
    assert forall x :: x in routes + [r] <==> x in routes || x == r;
  }

  method MakeTableKey(ghost apis: seq<ApiConfig>, prefixes: map<string, string>, r: Route) returns (key: string)
    requires HoldsConfigured(prefixes, apis)
    ensures key == TableKey(apis, r)
  {
    var path := JoinTwo(PrefixIn(prefixes, r.api), r.protoPath);
    key := RouteKey(r.verb, path);
  }

  ghost predicate IsTableKey(apis: seq<ApiConfig>, routes: seq<Route>, k: string) {
    exists r :: r in routes && TableKey(apis, r) == k
  }

  /** Method and deployed path of a proto route, as the conflict check sees it. */
  function TableKey(apis: seq<ApiConfig>, r: Route): string {
    RouteKey(r.verb, Joined(ConfiguredPrefix(apis, r.api), r.protoPath))
  }

  ghost predicate HoldsConfigured(m: map<string, string>, apis: seq<ApiConfig>) {
    forall api :: PrefixIn(m, api) == ConfiguredPrefix(apis, api)
  }

  method ConfiguredPrefixes(apis: seq<ApiConfig>) returns (m: map<string, string>)
    ensures HoldsConfigured(m, apis)
  {
    m := map[];
    for i := 0 to |apis|
      invariant HoldsConfigured(m, apis[..i])
    {
      var a := apis[i];
      assert apis[..i + 1][..i] == apis[..i];
      if TrimSpace(a.prefix) == "" {
        continue;
      }
      var prefix := ComputePrefix(a.prefix);
      m := m[a.name := prefix];
    }
    assert apis[..|apis|] == apis;
  }

  ghost predicate NoConflicts(apis: seq<ApiConfig>, routes: seq<Route>, extras: seq<Extra>) {
    && (forall i, j :: 0 <= i < j < |extras| ==> ExtraKey(extras[i]) != ExtraKey(extras[j]))
    && (forall i, r :: 0 <= i < |extras| && r in routes ==> ExtraKey(extras[i]) != TableKey(apis, r))
  }

  /** Keys seen: those of the table and of the first n extra routes. */
  ghost predicate SeenAre(seen: set<string>, proto: set<string>, extras: seq<Extra>, n: nat)
    requires n <= |extras|
  {
    forall k :: k in seen <==> k in proto || exists j :: 0 <= j < n && ExtraKey(extras[j]) == k
  }

  /** The first n extra routes meet neither the table nor each other. */
  ghost predicate AreClear(proto: set<string>, extras: seq<Extra>, n: nat)
    requires n <= |extras|
  {
    && (forall a, b :: 0 <= a < b < n ==> ExtraKey(extras[a]) != ExtraKey(extras[b]))
    && (forall a :: 0 <= a < n ==> ExtraKey(extras[a]) !in proto)
  }

  lemma ConflictStep(seen: set<string>, proto: set<string>, extras: seq<Extra>, i: nat)
    requires i < |extras| && SeenAre(seen, proto, extras, i)
    requires AreClear(proto, extras, i) && ExtraKey(extras[i]) !in seen
    ensures SeenAre(seen + {ExtraKey(extras[i])}, proto, extras, i + 1) && AreClear(proto, extras, i + 1)
  {
  }

  lemma ConflictFound(apis: seq<ApiConfig>, routes: seq<Route>, extras: seq<Extra>, proto: set<string>, i: nat)
    requires forall k :: k in proto <==> IsTableKey(apis, routes, k)
    requires i < |extras|
    requires ExtraKey(extras[i]) in proto || exists j :: 0 <= j < i && ExtraKey(extras[j]) == ExtraKey(extras[i])
    ensures !NoConflicts(apis, routes, extras)
  {
    if ExtraKey(extras[i]) in proto {
      assert IsTableKey(apis, routes, ExtraKey(extras[i]));
    }
  }

  method ValidateExtraConflicts(apis: seq<ApiConfig>, routes: seq<Route>, extras: seq<Extra>) returns (ok: bool)
    ensures ok <==> NoConflicts(apis, routes, extras)
  {
    var seen := TableKeys(apis, routes);
    ghost var proto := seen;
    for i := 0 to |extras|
      invariant SeenAre(seen, proto, extras, i)
      invariant AreClear(proto, extras, i)
    {
      var key := ExtraKey(extras[i]);
      if key in seen {
        ConflictFound(apis, routes, extras, proto, i);
        return false;
      }
      ConflictStep(seen, proto, extras, i);
      seen := seen + {key};
    }
    NoConflictsFound(apis, routes, extras, proto);
    return true;
  }

  lemma NoConflictsFound(apis: seq<ApiConfig>, routes: seq<Route>, extras: seq<Extra>, proto: set<string>)
    requires forall k :: k in proto <==> IsTableKey(apis, routes, k)
    requires AreClear(proto, extras, |extras|)
    ensures NoConflicts(apis, routes, extras)
  {
    forall i, r | 0 <= i < |extras| && r in routes
      ensures ExtraKey(extras[i]) != TableKey(apis, r)
    {
      assert IsTableKey(apis, routes, TableKey(apis, r));
    }
  }

  lemma TableKeyIsDeployed(apis: seq<ApiConfig>, regs: seq<Registration>, apiByService: map<string, string>,
                           groups: seq<Group>, r: Route)
    requires GoodGroups(apis, regs, apiByService, groups)
    ensures TableKey(apis, r) == RouteKey(r.verb, Prefixed(groups, r).path)
  {
    ConfiguredPrefixIsGroupPrefix(apis, regs, apiByService, groups, r.api);
  }

  /** Checked extra routes meet each other, or a proto route, only when both have no method. */
  lemma OnlyMethodlessMeet(apis: seq<ApiConfig>, regs: seq<Registration>, apiByService: map<string, string>,
                           groups: seq<Group>, routes: seq<Route>, extras: seq<Extra>)
    requires GoodGroups(apis, regs, apiByService, groups) && NoConflicts(apis, routes, extras)
    requires forall r :: r in routes ==> Uppercase(r.verb)
    ensures forall i, j :: 0 <= i < j < |extras| && extras[i].verb == extras[j].verb && extras[i].path == extras[j].path ==>
              extras[i].verb == ""
    ensures forall i, r :: 0 <= i < |extras| && r in routes && Meet(groups, extras[i], r) ==> extras[i].verb == ""
  {
    forall i | 0 <= i < |extras| && extras[i].verb != ""
      ensures ExtraKey(extras[i]) == RouteKey(Upper(extras[i].verb), extras[i].path)
    {
      assert |Upper(extras[i].verb)| == |extras[i].verb|;
    }
    forall r | r in routes
      ensures TableKey(apis, r) == RouteKey(r.verb, Prefixed(groups, r).path)
    {
      TableKeyIsDeployed(apis, regs, apiByService, groups, r);
    }
  }

  /** e is where r is deployed. */
  ghost predicate Meet(groups: seq<Group>, e: Extra, r: Route) {
    e.verb == r.verb && e.path == Prefixed(groups, r).path
  }

  /** Two extra routes without a method share a path. */
  ghost predicate MethodlessPair(extras: seq<Extra>) {
    exists i, j :: 0 <= i < j < |extras| && extras[i].verb == extras[j].verb == "" && extras[i].path == extras[j].path
  }

  /** An extra route without a method sits where a proto route without one is deployed. */
  ghost predicate MethodlessMeet(groups: seq<Group>, routes: seq<Route>, extras: seq<Extra>) {
    exists e, r :: e in extras && r in routes && e.verb == "" && Meet(groups, e, r)
  }

  // ---- the whole table ----

  function ExtraRoute(e: Extra): Route {
    Route("extra", e.id, e.verb, e.path, e.path, "")
  }

  function MethodAndPath(r: Route): (string, string) {
    (r.verb, r.path)
  }

  /** The order of the table does not matter. */
  lemma SortingKeepsDistinct(table: seq<Route>, sorted: seq<Route>)
    requires multiset(table) == multiset(sorted) && NoDuplicates(table)
    ensures NoDuplicates(sorted)
  {
    MapPermuted(MethodAndPath, table, sorted);
    forall i, j | 0 <= i < j < |sorted|
      ensures MethodAndPath(sorted[i]) != MethodAndPath(sorted[j])
    {
      DistinctStays(Map(MethodAndPath, table), Map(MethodAndPath, sorted), i, j);
    }
  }

  ghost predicate TablesApart(a: seq<Route>, b: seq<Route>) {
    forall i, j :: 0 <= i < |a| && 0 <= j < |b| ==> MethodAndPath(a[i]) != MethodAndPath(b[j])
  }

  lemma NoDuplicatesAppend(a: seq<Route>, b: seq<Route>)
    ensures NoDuplicates(a + b) <==> NoDuplicates(a) && NoDuplicates(b) && TablesApart(a, b)
  {
    var all, n := a + b, |a|;
    assert forall i :: 0 <= i < n ==> all[i] == a[i];
    assert forall j :: 0 <= j < |b| ==> all[n + j] == b[j];
    if NoDuplicates(a) && NoDuplicates(b) && TablesApart(a, b) {
      forall i, j | 0 <= i < j < |all|
        ensures MethodAndPath(all[i]) != MethodAndPath(all[j])
      {
        if i < n <= j {
          assert MethodAndPath(a[i]) != MethodAndPath(b[j - n]);
        } else if n <= i {
          assert all[i] == b[i - n] && all[j] == b[j - n];
        }
      }
    }
  }

  lemma ExtraDuplicates(extras: seq<Extra>)
    requires forall i, j :: 0 <= i < j < |extras| && extras[i].verb == extras[j].verb && extras[i].path == extras[j].path ==>
               extras[i].verb == ""
    ensures NoDuplicates(Map(ExtraRoute, extras)) <==> !MethodlessPair(extras)
  {
    var routes := Map(ExtraRoute, extras);
    assert forall i :: 0 <= i < |extras| ==> routes[i] == ExtraRoute(extras[i]);
  }

  lemma ExtraMeets(groups: seq<Group>, routes: seq<Route>, prefixed: seq<Route>, extras: seq<Extra>)
    requires ArePrefixed(groups, routes, prefixed)
    requires forall i, r :: 0 <= i < |extras| && r in routes && Meet(groups, extras[i], r) ==> extras[i].verb == ""
    ensures TablesApart(prefixed, Map(ExtraRoute, extras)) <==> !MethodlessMeet(groups, routes, extras)
  {
    var all := Map(ExtraRoute, extras);
    if MethodlessMeet(groups, routes, extras) {
      var e, r :| e in extras && r in routes && e.verb == "" && Meet(groups, e, r);
      var i :| 0 <= i < |extras| && extras[i] == e;
      var k :| 0 <= k < |routes| && routes[k] == r;
      assert MethodAndPath(prefixed[k]) == MethodAndPath(all[i]);
    } else {
      forall k, i | 0 <= k < |prefixed| && 0 <= i < |all|
        ensures MethodAndPath(prefixed[k]) != MethodAndPath(all[i])
      {
        assert routes[k] in routes && extras[i] in extras;
        assert !(extras[i].verb == "" && Meet(groups, extras[i], routes[k]));
      }
    }
  }

  /** Duplicates of a table with extra routes, part by part. */
  lemma WholeTable(groups: seq<Group>, routes: seq<Route>, prefixed: seq<Route>, extras: seq<Extra>)
    requires ArePrefixed(groups, routes, prefixed)
    requires forall i, j :: 0 <= i < j < |extras| && extras[i].verb == extras[j].verb && extras[i].path == extras[j].path ==>
               extras[i].verb == ""
    requires forall i, r :: 0 <= i < |extras| && r in routes && Meet(groups, extras[i], r) ==> extras[i].verb == ""
    ensures NoDuplicates(prefixed + Map(ExtraRoute, extras)) <==>
              NoDuplicates(prefixed) && !MethodlessPair(extras) && !MethodlessMeet(groups, routes, extras)
  {
    NoDuplicatesAppend(prefixed, Map(ExtraRoute, extras));
    ExtraDuplicates(extras);
    ExtraMeets(groups, routes, prefixed, extras);
  }

  /** What buildHTTP has when it lists its routes: a surface, groups and extra routes that passed their checks. */
  ghost predicate Checked(services: seq<Option<Service>>, policies: map<string, PolicySpec.Operation>, ops: seq<SurfaceOp>,
                          routes: seq<Route>, apis: seq<ApiConfig>, regs: seq<Registration>,
                          apiByService: map<string, string>, groups: seq<Group>, extras: seq<Extra>) {
    && (forall id :: id in policies ==> policies[id].id == id)
    && IsSortedSurface(Endpoints(services), policies, ops) && multiset(routes) == multiset(RoutesOf(ops))
    && GoodGroups(apis, regs, apiByService, groups)
    && NoConflicts(apis, RoutesOf(ops), extras)
  }

  lemma CheckedIsAssembled(services: seq<Option<Service>>, policies: map<string, PolicySpec.Operation>, ops: seq<SurfaceOp>,
                           routes: seq<Route>, apis: seq<ApiConfig>, regs: seq<Registration>,
                           apiByService: map<string, string>, groups: seq<Group>, extras: seq<Extra>)
    requires Checked(services, policies, ops, routes, apis, regs, apiByService, groups, extras)
    ensures Assembled(groups, routes) && NoConflicts(apis, routes, extras)
    ensures forall r :: r in routes ==> Uppercase(r.verb)
  {
    SortedSurface(Endpoints(services), policies, ops);
    SurfaceRoutesAreCanonical(ops, policies);
    DistinctKeysPermuted(RoutesOf(ops), routes);
    assert forall r :: r in routes ==> r in multiset(RoutesOf(ops));
  }

  /**
   Once the surface, the groups and the extra routes pass their checks, the final table has each
   method and path once if and only if no unprefixed route is declared where a prefixed one is
   deployed, and no extra route without a method shares its path with another or with a proto route
   without one. routes is the surface's own listing, sorted; table the final one, sorted again.
   */
  lemma FinalTableHasNoDuplicates(services: seq<Option<Service>>, policies: map<string, PolicySpec.Operation>,
                                  ops: seq<SurfaceOp>, routes: seq<Route>, apis: seq<ApiConfig>, regs: seq<Registration>,
                                  apiByService: map<string, string>, groups: seq<Group>, prefixed: seq<Route>,
                                  extras: seq<Extra>, table: seq<Route>)
    requires Checked(services, policies, ops, routes, apis, regs, apiByService, groups, extras)
    requires ArePrefixed(groups, routes, prefixed) && multiset(table) == multiset(prefixed + Map(ExtraRoute, extras))
    ensures NoDuplicates(table) <==>
              !SomeClash(groups, routes) && !MethodlessPair(extras) && !MethodlessMeet(groups, routes, extras)
  {
    CheckedIsAssembled(services, policies, ops, routes, apis, regs, apiByService, groups, extras);
    OnlyMethodlessMeet(apis, regs, apiByService, groups, routes, extras);
    TableHasNoDuplicates(groups, routes, prefixed);
    WholeTable(groups, routes, prefixed, extras);
    var all := prefixed + Map(ExtraRoute, extras);
    if NoDuplicates(all) { SortingKeepsDistinct(all, table); }
    if NoDuplicates(table) { SortingKeepsDistinct(table, all); }
  }

  /**
   What the OpenAPI projection relies on: in the final table no two proto routes share method and
   declared path, whatever order it is in.
   */
  lemma FinalTableHasDistinctKeys(services: seq<Option<Service>>, policies: map<string, PolicySpec.Operation>,
                                  ops: seq<SurfaceOp>, routes: seq<Route>, apis: seq<ApiConfig>, regs: seq<Registration>,
                                  apiByService: map<string, string>, groups: seq<Group>, prefixed: seq<Route>,
                                  extras: seq<Extra>, table: seq<Route>)
    requires Checked(services, policies, ops, routes, apis, regs, apiByService, groups, extras)
    requires ArePrefixed(groups, routes, prefixed) && multiset(table) == multiset(prefixed + Map(ExtraRoute, extras))
    ensures DistinctKeys(ProtoRoutes(table))
  {
    CheckedIsAssembled(services, policies, ops, routes, apis, regs, apiByService, groups, extras);
    RoutesAreProto(ops, routes);
    assert DistinctKeys(prefixed);
    OnlyPrefixedAreProto(prefixed, extras, table);
    DistinctKeysPermuted(prefixed, ProtoRoutes(table));
  }

  lemma RoutesAreProto(ops: seq<SurfaceOp>, routes: seq<Route>)
    requires multiset(routes) == multiset(RoutesOf(ops))
    ensures forall r :: r in routes ==> r.source == "proto"
  {
    SurfaceRoutesAreProto(ops);
    SameMembers(routes, RoutesOf(ops));
  }

  lemma OnlyPrefixedAreProto(prefixed: seq<Route>, extras: seq<Extra>, table: seq<Route>)
    requires forall r :: r in prefixed ==> r.source == "proto"
    requires multiset(table) == multiset(prefixed + Map(ExtraRoute, extras))
    ensures multiset(ProtoRoutes(table)) == multiset(prefixed)
  {
    var others := Map(ExtraRoute, extras);
    forall r: Route
      ensures multiset(ProtoRoutes(table))[r] == multiset(prefixed)[r]
    {
      ProtoRoutesMembers(table, r);
      assert r in others ==> r.source == "extra";
      assert r in prefixed ==> r.source == "proto";
    }
  }

  /** No clash at all when no unprefixed route lies at or under another group's prefix. */
  lemma NoClashes(groups: seq<Group>, routes: seq<Route>)
    requires Assembled(groups, routes) && UnprefixedStaysOut(groups, routes)
    ensures !SomeClash(groups, routes)
  {
    forall r, s | r in routes && s in routes
      ensures !Clash(groups, r, s)
    {
      StayingOutAvoidsClashes(groups, routes, r, s);
    }
  }

  /** Two extra routes without a method pass the check when their ids differ, and meet in the table. */
  lemma MethodlessPairIsPossible()
    ensures var extras := [Extra("x", "", "/p"), Extra("y", "", "/p")];
            NoConflicts([], [], extras) && !NoDuplicates(Map(ExtraRoute, extras))
  {
    var extras := [Extra("x", "", "/p"), Extra("y", "", "/p")];
    assert Map(ExtraRoute, extras)[0].path == Map(ExtraRoute, extras)[1].path;
  }

  // ---- registering extra routes ----

  function PatternOf(e: Extra): Pattern {
    ParsePattern(e.verb + " " + e.path)
  }

  /** Groups, extra routes and documents are all on the mux. */
  ghost predicate AllRegistered(mux: Mux, mounts: seq<Pattern>, extras: seq<Extra>, documents: seq<Pattern>) {
    Registered(mux, mounts + Map(PatternOf, extras) + documents)
  }

  /** A mux that refuses a pattern it has leaves no two extra routes with the same method and path. */
  lemma RegisteredAreApart(mux: Mux, mounts: seq<Pattern>, extras: seq<Extra>, documents: seq<Pattern>)
    requires ObeysPrecedence(mux) && AllRegistered(mux, mounts, extras, documents)
    ensures !MethodlessPair(extras)
  {
    var all := mounts + Map(PatternOf, extras) + documents;
    forall i, j | 0 <= i < j < |extras|
      ensures !(extras[i].verb == extras[j].verb && extras[i].path == extras[j].path)
    {
      RegisteredOnce(mux, all, |mounts| + i, |mounts| + j);
      assert all[|mounts| + i] == PatternOf(extras[i]) && all[|mounts| + j] == PatternOf(extras[j]);
    }
  }

  /** So after registration duplicates come from unprefixed routes and methodless proto routes only. */
  lemma RegisteredTableHasNoDuplicates(services: seq<Option<Service>>, policies: map<string, PolicySpec.Operation>,
                                       ops: seq<SurfaceOp>, routes: seq<Route>, apis: seq<ApiConfig>, regs: seq<Registration>,
                                       apiByService: map<string, string>, groups: seq<Group>, prefixed: seq<Route>,
                                       extras: seq<Extra>, table: seq<Route>, mux: Mux, mounts: seq<Pattern>,
                                       documents: seq<Pattern>)
    requires Checked(services, policies, ops, routes, apis, regs, apiByService, groups, extras)
    requires ArePrefixed(groups, routes, prefixed) && multiset(table) == multiset(prefixed + Map(ExtraRoute, extras))
    requires ObeysPrecedence(mux) && AllRegistered(mux, mounts, extras, documents)
    ensures NoDuplicates(table) <==> !SomeClash(groups, routes) && !MethodlessMeet(groups, routes, extras)
  {
    RegisteredAreApart(mux, mounts, extras, documents);
    FinalTableHasNoDuplicates(services, policies, ops, routes, apis, regs, apiByService, groups, prefixed, extras, table);
  }
}
