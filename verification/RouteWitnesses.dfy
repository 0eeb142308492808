/**
 Configurations that pass every check and show what the checks leave open: an extra route that takes a
 proto route's requests, and one that shares method and path with it.
 */
module RouteWitnesses {
  import opened Wrappers
  import opened Sorting
  import opened Paths
  import opened Descriptors
  import opened Surface
  import opened Mux
  import opened MuxFragment
  import opened Routes
  import opened RouteTable
  import opened RouteClash
  import opened Dispatch

  // ---- an extra route takes the requests of a proto route ----

  const CATCH_ALL := Extra("x", "GET", "/v1/" + NAMED_REST)
  const CATCH_ALL_PATTERN := Pattern("GET", "/v1/" + NAMED_REST)

  lemma CatchAllPattern()
    ensures PatternOf(CATCH_ALL) == CATCH_ALL_PATTERN
  {
    var path := "/v1/" + NAMED_REST;
    GetPattern(path);
  }

  lemma GetPattern(path: string)
    requires path != "" && !IsBlank(path[0])
    ensures ParsePattern("GET" + " " + path) == Pattern("GET", path)
  {
    var s := "GET" + " " + path;
    assert s[3] == ' ' && !IsBlank('G') && !IsBlank('E') && !IsBlank('T');
    assert s[1..][1..][1..][0] == ' ';
    assert FirstBlank(s[1..][1..][1..]) == Some(0);
    assert FirstBlank(s[1..][1..]) == Some(1);
    assert FirstBlank(s[1..]) == Some(2);
    assert s[..3] == "GET" && s[4..] == path;
  }

  /** Its key is none of the table's, so the conflict check lets it pass. */
  lemma CatchAllHasNoConflict(routes: seq<Route>)
    requires forall r :: r in routes ==> r == OUTER_ROUTE || r == INNER_ROUTE
    ensures NoConflicts(APIS, routes, [CATCH_ALL])
  {
    var key := ExtraKey(CATCH_ALL);
    assert Upper("GET") == "GET";
    assert |key| == 17;
    TableKeysAreShort();
    forall i, r | 0 <= i < 1 && r in routes
      ensures ExtraKey([CATCH_ALL][i]) != TableKey(APIS, r)
    {
    }
  }

  lemma TableKeysAreShort()
    ensures |TableKey(APIS, OUTER_ROUTE)| == 13 && |TableKey(APIS, INNER_ROUTE)| == 13
  {
    GroupsMatchConfiguration();
    PrefixesOfGroups();
    ConfiguredPrefixIsGroupPrefix(APIS, REGISTRATIONS, API_BY_SERVICE, GROUPS, "");
    ConfiguredPrefixIsGroupPrefix(APIS, REGISTRATIONS, API_BY_SERVICE, GROUPS, "a");
    DeployedPath();
    OuterPath();
  }

  lemma OuterPath()
    ensures Joined("", "/v1/notes") == "/v1/notes"
  {
    SegmentsOfLiterals();
    UnprefixedJoin("/v1/notes");
  }

  lemma CatchAllIsMounted()
    ensures Mounts(FragmentMux(), GROUPS, [CATCH_ALL_PATTERN])
    ensures MoreSpecific(Fits, CATCH_ALL_PATTERN, Subtree("/v1"))
  {
    var mux := FragmentMux();
    FragmentObeysPrecedence();
    FragmentReadsSubtrees();
    GroupsAreOrdered();
    PrefixesAreCanonical();
    MethodIsMoreSpecific("GET", "/v1/", "/v1");
    MethodIsMoreSpecific("GET", "/v1/", "");
    SubtreeBelow(mux, "/v1", "");
    ThreePatterns();
    RegisteredThree(mux, Subtree(""), Subtree("/v1"), CATCH_ALL_PATTERN);
  }

  lemma ThreePatterns()
    ensures Patterns(GROUPS, [CATCH_ALL_PATTERN]) == [Subtree(""), Subtree("/v1"), CATCH_ALL_PATTERN]
  {
    PatternAt(GROUPS, [CATCH_ALL_PATTERN]);
  }

  lemma RegisteredThree(mux: Mux, a: Pattern, b: Pattern, c: Pattern)
    requires ObeysPrecedence(mux) && mux.valid(a) && mux.valid(b) && mux.valid(c)
    requires MoreSpecific(mux.matches, b, a) && MoreSpecific(mux.matches, c, a) && MoreSpecific(mux.matches, c, b)
    ensures Registered(mux, [a, b, c])
  {
  }

  /**
   Surface, groups, conflict check and registration accept an extra route "GET /v1/{rest...}", and a
   request for the deployed path of the binding "GET /notes" never reaches its group. Without the
   extra route it does.
   */
  lemma ExtraTakesRequest() returns (ops: seq<SurfaceOp>)
    ensures Checked(SERVICES, POLICIES, ops, RoutesOf(ops), APIS, REGISTRATIONS, API_BY_SERVICE, GROUPS, [CATCH_ALL])
    ensures INNER_ROUTE in RoutesOf(ops) && Mounts(FragmentMux(), GROUPS, Map(PatternOf, [CATCH_ALL]))
    ensures var r := Request("GET", Prefixed(GROUPS, INNER_ROUTE).path);
            && !Reaches(FragmentMux(), GROUPS, Map(PatternOf, [CATCH_ALL]), r, 1, "/notes")
            && Reaches(FragmentMux(), GROUPS, [], r, 1, "/notes")
  {
    ops := CheckedOps();
    CatchAllPattern();
    assert Map(PatternOf, [CATCH_ALL]) == [CATCH_ALL_PATTERN];
    CatchAllIsMounted();
    WithAndWithout();
  }

  lemma CheckedOps() returns (ops: seq<SurfaceOp>)
    ensures Checked(SERVICES, POLICIES, ops, RoutesOf(ops), APIS, REGISTRATIONS, API_BY_SERVICE, GROUPS, [CATCH_ALL])
    ensures INNER_ROUTE in RoutesOf(ops)
  {
    ops := SortedOps();
    IdsDiffer();
    GroupsMatchConfiguration();
    TwoRoutes(ops);
    CatchAllHasNoConflict(RoutesOf(ops));
  }

  lemma TwoRoutes(ops: seq<SurfaceOp>)
    requires multiset(ops) == multiset(OPS)
    ensures forall r :: r in RoutesOf(ops) ==> r == OUTER_ROUTE || r == INNER_ROUTE
  {
    RoutesOfPermuted(OPS, ops);
    RoutesOfOps();
    SameMembers(RoutesOf(OPS), RoutesOf(ops));
  }

  lemma WithAndWithout()
    ensures var r := Request("GET", Prefixed(GROUPS, INNER_ROUTE).path);
            && !Reaches(FragmentMux(), GROUPS, [CATCH_ALL_PATTERN], r, 1, "/notes")
            && Reaches(FragmentMux(), GROUPS, [], r, 1, "/notes")
  {
    CatchAllIsMounted();
    PrefixesOfGroups();
    NotesIsCanonical();
    DeployedPath();
    var r := Request("GET", Joined("/v1", "/notes"));
    PrefixedExactly(FragmentMux(), GROUPS, [CATCH_ALL_PATTERN], 1, "GET", "/notes");
    CatchAllFits();
    assert [CATCH_ALL_PATTERN][0] == CATCH_ALL_PATTERN;
    assert Taken(FragmentMux(), GROUPS, [CATCH_ALL_PATTERN], 1, r);
    NothingElseMounted();
    PrefixedExactly(FragmentMux(), GROUPS, [], 1, "GET", "/notes");
  }

  lemma NotesIsCanonical()
    ensures Canonical("/notes") && "/notes" != "/"
  {
    SegmentsOfLiterals();
  }

  lemma CatchAllFits()
    ensures Fits(CATCH_ALL_PATTERN, Request("GET", "/v1/notes"))
  {
    NamedRestStem("/v1/");
    assert "/v1/notes"[..4] == "/v1/";
  }

  lemma NothingElseMounted()
    ensures Mounts(FragmentMux(), GROUPS, [])
  {
    CatchAllIsMounted();
    PatternAt(GROUPS, [CATCH_ALL_PATTERN]);
    PatternAt(GROUPS, []);
    var more, few := Patterns(GROUPS, [CATCH_ALL_PATTERN]), Patterns(GROUPS, []);
    assert forall i :: 0 <= i < |few| ==> few[i] == more[i];
  }

  // ---- an extra route without a method meets a proto route without one ----

  const PATH := "/notes"

  const METHODLESS := Service("z.Z", "Z", [Method("M", false, false, "", "", [], [Custom("", PATH, "", "")])])
  const METHODLESS_OP := PublicOperation(METHODLESS, "")
  const METHODLESS_POLICIES := map[METHODLESS_OP.id := METHODLESS_OP]
  const METHODLESS_OPS := [SurfaceOp(METHODLESS_OP, "", "", [Binding("", PATH, "", "")])]
  const METHODLESS_ROUTE := Route("proto", METHODLESS_OP.id, "", PATH, PATH, "")
  const METHODLESS_REGS := [Registration("", Some("z.Z"), false)]
  const METHODLESS_APIS: map<string, string> := map["z.Z" := ""]
  const METHODLESS_GROUPS := [Group("", "", ["z.Z"])]
  const METHODLESS_EXTRA := Extra("x", "", PATH)

  lemma OneEndpoint()
    ensures Endpoints([Some(METHODLESS)]) == [Endpoint(METHODLESS, METHODLESS.methods[0])]
  {
    var services := [Some(METHODLESS)];
    assert services[..0] == [];
    assert !NameIn([], METHODLESS.fullName);
    assert Endpoints(services) == Endpoints([]) + MethodEndpoints(METHODLESS, METHODLESS.methods);
  }

  lemma MethodlessOp()
    ensures OpFor(Endpoint(METHODLESS, METHODLESS.methods[0]), METHODLESS_POLICIES) == Some(METHODLESS_OPS[0])
  {
    NotesIsCanonical();
    var rules := METHODLESS.methods[0].rules;
    assert Upper("") == "";
    assert BindingOf(rules[0]) == Some(Binding("", PATH, "", ""));
    assert Map(BindingOrNone, rules) == [Binding("", PATH, "", "")];
  }

  lemma MethodlessRoutes()
    ensures RoutesOf(METHODLESS_OPS) == [METHODLESS_ROUTE]
  {
    assert METHODLESS_OPS[..0] == [];
    assert RoutesOfOp(METHODLESS_OPS[0]) == [METHODLESS_ROUTE];
  }

  lemma MethodlessSurface()
    ensures IsSortedSurface(Endpoints([Some(METHODLESS)]), METHODLESS_POLICIES, METHODLESS_OPS)
  {
    OneEndpoint();
    MethodlessOp();
    MethodlessRoutes();
    assert IsSurface(Endpoints([Some(METHODLESS)]), METHODLESS_POLICIES, METHODLESS_OPS);
    assert IsSortOf(METHODLESS_OPS, OpId, METHODLESS_OPS);
  }

  lemma MethodlessGroups()
    ensures GoodGroups([], METHODLESS_REGS, METHODLESS_APIS, METHODLESS_GROUPS)
  {
    var g := METHODLESS_GROUPS[0];
    assert g in METHODLESS_GROUPS && "z.Z" in g.services;
    assert GroupOf(METHODLESS_REGS[0], METHODLESS_APIS) == "";
    assert Mounted(METHODLESS_GROUPS, "", "z.Z");
    assert METHODLESS_REGS[0].service == Some("z.Z");
    assert PlacedBy(METHODLESS_REGS, METHODLESS_APIS, "", "z.Z");
    assert IsPlaced(METHODLESS_REGS, METHODLESS_APIS, "");
  }

  lemma MethodlessKeysDiffer()
    ensures NoConflicts([], [METHODLESS_ROUTE], [METHODLESS_EXTRA])
    ensures Prefixed(METHODLESS_GROUPS, METHODLESS_ROUTE).path == PATH
  {
    NotesIsCanonical();
    UnprefixedJoin(PATH);
    assert TableKey([], METHODLESS_ROUTE)[0] == ' ' && ExtraKey(METHODLESS_EXTRA)[0] == 'x';
    assert METHODLESS_GROUPS[..0] == [];
    assert PrefixOf(METHODLESS_GROUPS, "") == "";
  }

  /**
   A custom rule that names no method, and an extra route without one at its path: all checks pass, and
   the table lists both at the same method and path.
   */
  lemma MethodlessMeetIsPossible()
    ensures Checked([Some(METHODLESS)], METHODLESS_POLICIES, METHODLESS_OPS, RoutesOf(METHODLESS_OPS), [],
                    METHODLESS_REGS, METHODLESS_APIS, METHODLESS_GROUPS, [METHODLESS_EXTRA])
    ensures MethodlessMeet(METHODLESS_GROUPS, RoutesOf(METHODLESS_OPS), [METHODLESS_EXTRA])
  {
    MethodlessSurface();
    MethodlessRoutes();
    MethodlessGroups();
    MethodlessKeysDiffer();
    var r, e := METHODLESS_ROUTE, METHODLESS_EXTRA;
    assert r in RoutesOf(METHODLESS_OPS) && e in [METHODLESS_EXTRA] && Meet(METHODLESS_GROUPS, e, r);
  }
}
