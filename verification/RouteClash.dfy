/**
 A configuration that passes every check and still lists one method and path twice: a route of the
 unprefixed group declared where a route of a prefixed group is deployed.
 */
module RouteClash {
  import opened Wrappers
  import opened Text
  import opened Sorting
  import opened Paths
  import opened Descriptors
  import opened Surface
  import PolicySpec
  import opened Routes
  import opened RouteTable

  // ---- two services, each with one GET method ----

  function GetMethod(path: string): Method {
    Method("M", false, false, "", "", [], [Standard(Get, path, "", "")])
  }

  const OUTER := Service("x.X", "X", [GetMethod("/v1/notes")])
  const INNER := Service("y.Y", "Y", [GetMethod("/notes")])

  const SERVICES := [Some(OUTER), Some(INNER)]

  function PublicOperation(s: Service, api: string): PolicySpec.Operation
    requires s.methods != []
  {
    PolicySpec.Operation(FullMethod(s, s.methods[0]), PolicySpec.GrpcMethod, s.fullName, api,
                         PolicySpec.EMPTY_POLICY.(anonymous := true), PolicySpec.ExposurePublic, "", "", false,
                         PolicySpec.STREAM_AUTH_OPEN, [], map[])
  }

  const OUTER_OP := PublicOperation(OUTER, "")
  const INNER_OP := PublicOperation(INNER, "a")

  const POLICIES := map[OUTER_OP.id := OUTER_OP, INNER_OP.id := INNER_OP]

  const OUTER_BINDING := Binding("GET", "/v1/notes", "", "")
  const INNER_BINDING := Binding("GET", "/notes", "", "")

  const OPS := [SurfaceOp(OUTER_OP, "", "", [OUTER_BINDING]), SurfaceOp(INNER_OP, "", "", [INNER_BINDING])]

  const OUTER_ROUTE := Route("proto", OUTER_OP.id, "GET", "/v1/notes", "/v1/notes", "")
  const INNER_ROUTE := Route("proto", INNER_OP.id, "GET", "/notes", "/notes", "a")

  // ---- one API with a prefix, and the unprefixed group ----

  const APIS := [ApiConfig("a", "/v1", [])]
  const REGISTRATIONS := [Registration("", Some("x.X"), false), Registration("a", Some("y.Y"), false)]
  const API_BY_SERVICE := map["x.X" := "", "y.Y" := "a"]
  const GROUPS := [Group("", "", ["x.X"]), Group("a", "/v1", ["y.Y"])]

  lemma SegmentsOfLiterals()
    ensures Segments("/v1") == ["v1"] && Segments("/notes") == ["notes"] && Segments("/v1/notes") == ["v1", "notes"]
    ensures Render(["v1"]) == "/v1" && Render(["notes"]) == "/notes" && Render(["v1", "notes"]) == "/v1/notes"
  {
    var v1, notes := "v1", "notes";
    assert Render([v1]) == "/v1" && Render([notes]) == "/notes";
    assert [v1, notes][1..] == [notes];
    assert Render([v1, notes]) == "/v1/notes";
    SegmentsOfRender([v1]);
    SegmentsOfRender([notes]);
    SegmentsOfRender([v1, notes]);
  }

  // ---- the surface ----

  lemma IdsDiffer()
    ensures OUTER_OP.id != INNER_OP.id && forall id :: id in POLICIES ==> POLICIES[id].id == id
  {
    assert OUTER_OP.id[1] == 'x' && INNER_OP.id[1] == 'y';
  }

  lemma EndpointsOfServices()
    ensures Endpoints(SERVICES) == [Endpoint(OUTER, OUTER.methods[0]), Endpoint(INNER, INNER.methods[0])]
  {
    var one := SERVICES[..1];
    assert one == [Some(OUTER)] && one[..0] == [];
    assert OUTER.fullName[0] != INNER.fullName[0];
    assert !NameIn(one, INNER.fullName) && !NameIn([], OUTER.fullName);
    assert Endpoints(one) == Endpoints([]) + MethodEndpoints(OUTER, OUTER.methods);
  }

  lemma OpIsFor(s: Service, path: string, op: PolicySpec.Operation)
    requires s.methods == [GetMethod(path)] && path != "" && Normalized(path) == path
    requires op.id == FullMethod(s, s.methods[0]) && op.exposure == PolicySpec.ExposurePublic
    requires op.id in POLICIES && POLICIES[op.id] == op
    ensures OpFor(Endpoint(s, s.methods[0]), POLICIES) == Some(SurfaceOp(op, "", "", [Binding("GET", path, "", "")]))
  {
    var rules := s.methods[0].rules;
    assert BindingOf(rules[0]) == Some(Binding("GET", path, "", ""));
    assert Map(BindingOrNone, rules) == [Binding("GET", path, "", "")];
  }

  lemma RoutesOfOps()
    ensures RoutesOf(OPS) == [OUTER_ROUTE, INNER_ROUTE]
  {
    assert OPS[..1] == [OPS[0]] && OPS[..1][..0] == [];
    assert RoutesOfOp(OPS[0]) == [OUTER_ROUTE] && RoutesOfOp(OPS[1]) == [INNER_ROUTE];
    assert RoutesOf(OPS[..1]) == [] + [OUTER_ROUTE];
  }

  lemma OpsAreBuilt()
    ensures OpsOf(Endpoints(SERVICES), POLICIES, OPS)
  {
    EndpointsOfServices();
    OuterIsBuilt();
    InnerIsBuilt();
    OpsOfTwo(Endpoint(OUTER, OUTER.methods[0]), Endpoint(INNER, INNER.methods[0]), POLICIES, OPS[0], OPS[1]);
  }

  lemma OuterIsBuilt()
    ensures OpFor(Endpoint(OUTER, OUTER.methods[0]), POLICIES) == Some(OPS[0])
  {
    PoliciesHold();
    PathsAreNormal();
    OpIsFor(OUTER, "/v1/notes", OUTER_OP);
  }

  lemma PoliciesHold()
    ensures OUTER_OP.id in POLICIES && POLICIES[OUTER_OP.id] == OUTER_OP
    ensures INNER_OP.id in POLICIES && POLICIES[INNER_OP.id] == INNER_OP
  {
    IdsDiffer();
  }

  lemma InnerIsBuilt()
    ensures OpFor(Endpoint(INNER, INNER.methods[0]), POLICIES) == Some(OPS[1])
  {
    PoliciesHold();
    PathsAreNormal();
    OpIsFor(INNER, "/notes", INNER_OP);
  }

  lemma OpsOfTwo(s: Endpoint, t: Endpoint, policies: map<string, PolicySpec.Operation>, a: SurfaceOp, b: SurfaceOp)
    requires OpFor(s, policies) == Some(a) && OpFor(t, policies) == Some(b)
    ensures OpsOf([s, t], policies, [a, b])
  {
  }

  lemma PathsAreNormal()
    ensures Normalized("/v1/notes") == "/v1/notes" && Normalized("/notes") == "/notes"
  {
    SegmentsOfLiterals();
  }

  lemma KeysDiffer()
    ensures DistinctKeys([OUTER_ROUTE, INNER_ROUTE])
  {
    var a, b := RouteKey("GET", "/v1/notes"), RouteKey("GET", "/notes");
    assert |a| == 13 && |b| == 10;
  }

  lemma SurfaceIsBuilt()
    ensures IsSurface(Endpoints(SERVICES), POLICIES, OPS)
  {
    OpsAreBuilt();
    RoutesOfOps();
    KeysDiffer();
  }

  // ---- the groups ----

  lemma PrefixIsNormal()
    ensures GroupPrefix("/v1") == "/v1" && Canonical("/v1") && Segments("/v1") != []
  {
    SegmentsOfLiterals();
    assert !IsSpace('/') && !IsSpace('1');
    NothingToTrim("/v1");
  }

  lemma NothingToTrim(s: string)
    requires s != "" && !IsSpace(s[0]) && !IsSpace(s[|s| - 1])
    ensures TrimSpace(s) == s
  {
  }

  lemma GroupsAreOrdered()
    ensures StrictlySorted(Map(GroupName, GROUPS)) && PrefixesApart(GROUPS)
  {
    assert Map(GroupName, GROUPS) == ["", "a"] && Less("", "a");
  }

  lemma PrefixesAreCanonical()
    ensures PrefixesCanonical(GROUPS)
  {
    PrefixIsNormal();
    OnePrefixIsCanonical(GROUPS, "/v1");
  }

  lemma OnePrefixIsCanonical(groups: seq<Group>, p: string)
    requires Canonical(p) && Segments(p) != [] && forall g :: g in groups ==> g.prefix == "" || g.prefix == p
    ensures PrefixesCanonical(groups)
  {
  }

  lemma ServicesAreMounted()
    ensures forall i :: 0 <= i < |REGISTRATIONS| && REGISTRATIONS[i].service.Some? ==>
              Agrees(REGISTRATIONS[i], API_BY_SERVICE)
              && Mounted(GROUPS, GroupOf(REGISTRATIONS[i], API_BY_SERVICE), REGISTRATIONS[i].service.value)
  {
    var plain, prefixed := GROUPS[0], GROUPS[1];
    assert prefixed in GROUPS && plain in GROUPS;
    assert "x.X" in plain.services && "y.Y" in prefixed.services;
    assert Mounted(GROUPS, "", "x.X") && Mounted(GROUPS, "a", "y.Y");
    assert GroupOf(REGISTRATIONS[0], API_BY_SERVICE) == "" && GroupOf(REGISTRATIONS[1], API_BY_SERVICE) == "a";
  }

  lemma ApiIsConfigured()
    ensures HasGroup(GROUPS, "a", GroupPrefix("/v1"))
    ensures forall g :: g in GROUPS && g.prefix != "" ==> g.name == APIS[0].name
  {
    PrefixIsNormal();
    assert GROUPS[1] in GROUPS;
  }

  lemma GroupsMatchConfiguration()
    ensures GoodGroups(APIS, REGISTRATIONS, API_BY_SERVICE, GROUPS)
  {
    GroupsAreOrdered();
    PrefixesAreCanonical();
    ServicesAreMounted();
    ApiIsConfigured();
    NothingElseIsThere();
    assert APIS[0].name == "a" && APIS[0].prefix == "/v1" && |APIS| == 1;
  }

  lemma NothingElseIsThere()
    ensures NothingElse(APIS, REGISTRATIONS, API_BY_SERVICE, GROUPS)
  {
    assert APIS[0].name == "a" && IsConfigured(APIS, "a");
    assert REGISTRATIONS[0].service == Some("x.X") && REGISTRATIONS[1].service == Some("y.Y");
    assert PlacedBy(REGISTRATIONS, API_BY_SERVICE, "", "x.X");
    assert PlacedBy(REGISTRATIONS, API_BY_SERVICE, "a", "y.Y");
    assert IsPlaced(REGISTRATIONS, API_BY_SERVICE, "");
  }

  lemma NoOtherRegistrations()
    ensures AllRegistrations(REGISTRATIONS, APIS) == REGISTRATIONS
  {
    assert APIS[..0] == [];
    assert forall f: Registration -> Registration :: Map(f, []) == [];
  }

  lemma PrefixesOfGroups()
    ensures PrefixOf(GROUPS, "") == "" && PrefixOf(GROUPS, "a") == "/v1"
  {
    assert GROUPS[..1] == [GROUPS[0]] && GROUPS[..1][..0] == [];
  }

  lemma RoutesClash()
    ensures Clash(GROUPS, OUTER_ROUTE, INNER_ROUTE)
  {
    PrefixesOfGroups();
    DeployedPath();
  }

  lemma DeployedPath()
    ensures Joined("/v1", "/notes") == "/v1/notes"
  {
    SegmentsOfLiterals();
    JoinedIs("/v1", "/notes", ["v1"], ["notes"]);
    assert ["v1"] + ["notes"] == ["v1", "notes"];
  }

  lemma JoinedIs(p: string, q: string, a: seq<string>, b: seq<string>)
    requires Segments(p) == a && Segments(q) == b
    ensures Joined(p, q) == Render(a + b)
  {
  }

  lemma TableClashes(ops: seq<SurfaceOp>, table: seq<Route>)
    requires IsSortedSurface(Endpoints(SERVICES), POLICIES, ops)
    requires PrefixesApart(GROUPS) && PrefixesCanonical(GROUPS)
    requires OUTER_ROUTE in RoutesOf(ops) && INNER_ROUTE in RoutesOf(ops) && ArePrefixed(GROUPS, RoutesOf(ops), table)
    ensures !NoDuplicates(table)
  {
    IdsDiffer();
    RoutesClash();
    SortedSurface(Endpoints(SERVICES), POLICIES, ops);
    SurfaceRoutesAreCanonical(ops, POLICIES);
    ClashIsDuplicate(GROUPS, RoutesOf(ops), table, OUTER_ROUTE, INNER_ROUTE);
  }

  lemma SortedOps() returns (ops: seq<SurfaceOp>)
    ensures IsSortedSurface(Endpoints(SERVICES), POLICIES, ops)
    ensures OUTER_ROUTE in RoutesOf(ops) && INNER_ROUTE in RoutesOf(ops)
    ensures multiset(ops) == multiset(OPS) && forall op :: op in ops ==> op in OPS
  {
    SurfaceIsBuilt();
    ops := SortExists(OPS, OpId);
    RoutesOfPermuted(OPS, ops);
    RoutesOfOps();
    SameOps(OPS, ops);
    assert OUTER_ROUTE in multiset(RoutesOf(OPS)) && INNER_ROUTE in multiset(RoutesOf(OPS));
  }

  /** Every operation's API is the one recorded for its service. */
  ghost predicate ApisAgree(ops: seq<SurfaceOp>) {
    forall op :: op in ops ==>
      op.operation.service in API_BY_SERVICE && API_BY_SERVICE[op.operation.service] == op.operation.api
  }

  /** Surface, groups and conflict check accept this configuration, and yet the table has a duplicate. */
  lemma ClashIsPossible() returns (ops: seq<SurfaceOp>, table: seq<Route>)
    ensures IsSortedSurface(Endpoints(SERVICES), POLICIES, ops) && forall id :: id in POLICIES ==> POLICIES[id].id == id
    ensures GoodGroups(APIS, AllRegistrations(REGISTRATIONS, APIS), API_BY_SERVICE, GROUPS) && ApisAgree(ops)
    ensures NoConflicts(APIS, RoutesOf(ops), [])
    ensures ArePrefixed(GROUPS, RoutesOf(ops), table) && !NoDuplicates(table)
  {
    IdsDiffer();
    NoOtherRegistrations();
    GroupsMatchConfiguration();
    ops := SortedOps();
    OpsAgree(ops);
    table := PrefixedTable(GROUPS, RoutesOf(ops));
    TableClashes(ops, table);
  }

  lemma OpsAgree(ops: seq<SurfaceOp>)
    requires forall op :: op in ops ==> op in OPS
    ensures ApisAgree(ops)
  {
    assert OUTER.fullName == "x.X" && INNER.fullName == "y.Y";
    forall op | op in ops
      ensures op.operation.service in API_BY_SERVICE && API_BY_SERVICE[op.operation.service] == op.operation.api
    {
      assert op == OPS[0] || op == OPS[1];
    }
  }

  lemma PrefixedTable(groups: seq<Group>, routes: seq<Route>) returns (table: seq<Route>)
    ensures ArePrefixed(groups, routes, table)
  {
    table := Map(r => Prefixed(groups, r), routes);
  }
}
