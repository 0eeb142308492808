/** Where services are mounted and routes deployed, in terms of the configuration (server/server.go). */
module GroupMeaning {
  import opened Wrappers
  import opened Text
  import opened Sorting
  import opened Paths
  import opened Surface
  import opened Routes
  import opened RouteTable

  // ---- registrations ----

  /** A registration listed under an API belongs to it unless it names another. */
  ghost predicate IsUnder(a: ApiConfig, r: Registration) {
    exists x :: x in a.services && r.service == x.service && r.allowMismatch == x.allowMismatch
      && r.api == if x.api != "" then x.api else a.name
  }

  ghost predicate IsRegistered(services: seq<Registration>, apis: seq<ApiConfig>, r: Registration) {
    r in services || exists a :: a in apis && IsUnder(a, r)
  }

  lemma ListedUnder(a: ApiConfig, r: Registration)
    ensures r in Map((x: Registration) => if x.api == "" then x.(api := a.name) else x, a.services) <==> IsUnder(a, r)
  {
    var listed := Map((x: Registration) => if x.api == "" then x.(api := a.name) else x, a.services);
    if r in listed {
      var i :| 0 <= i < |listed| && listed[i] == r;
      assert a.services[i] in a.services;
    }
    if IsUnder(a, r) {
      var x :| x in a.services && r.service == x.service && r.allowMismatch == x.allowMismatch
        && r.api == if x.api != "" then x.api else a.name;
      var i :| 0 <= i < |a.services| && a.services[i] == x;
      assert listed[i] == r;
    }
  }

  lemma {:induction false} AllRegistrationsExactly(services: seq<Registration>, apis: seq<ApiConfig>, r: Registration)
    ensures r in AllRegistrations(services, apis) <==> IsRegistered(services, apis, r)
  {
    if apis != [] {
      var n := |apis| - 1;
      AllRegistrationsExactly(services, apis[..n], r);
      ListedUnder(apis[n], r);
      assert apis == apis[..n] + [apis[n]];
    }
  }

  // ---- groups ----

  /** The group a registration is meant for: the API it names, or the one its service declares, or the unnamed one. */
  ghost predicate MeantFor(r: Registration, apiByService: map<string, string>, name: string) {
    && r.service.Some?
    && name == if r.api != "" then r.api
               else if r.service.value in apiByService then apiByService[r.service.value]
               else ""
  }

  ghost predicate Contradicts(r: Registration, apiByService: map<string, string>) {
    && r.service.Some? && r.service.value in apiByService && !r.allowMismatch
    && r.api != "" && apiByService[r.service.value] != "" && r.api != apiByService[r.service.value]
  }

  lemma MeantIsMounted(apis: seq<ApiConfig>, regs: seq<Registration>, apiByService: map<string, string>, groups: seq<Group>,
                       name: string, r: Registration)
    requires GoodGroups(apis, regs, apiByService, groups) && r in regs && MeantFor(r, apiByService, name)
    ensures exists g :: g in groups && g.name == name && r.service.value in g.services
  {
    var i :| 0 <= i < |regs| && regs[i] == r;
    assert Mounted(groups, GroupOf(regs[i], apiByService), r.service.value);
  }

  lemma MountedIsMeant(apis: seq<ApiConfig>, regs: seq<Registration>, apiByService: map<string, string>, groups: seq<Group>,
                       g: Group, service: string) returns (r: Registration)
    requires GoodGroups(apis, regs, apiByService, groups) && g in groups && service in g.services
    ensures r in regs && r.service == Some(service) && MeantFor(r, apiByService, g.name)
  {
    assert PlacedBy(regs, apiByService, g.name, service);
    var i :| 0 <= i < |regs| && regs[i].service == Some(service) && GroupOf(regs[i], apiByService) == g.name;
    r := regs[i];
  }

  /** A group has exactly the services that registrations mean for it. */
  lemma MountedExactly(apis: seq<ApiConfig>, regs: seq<Registration>, apiByService: map<string, string>, groups: seq<Group>,
                       g: Group, service: string)
    requires GoodGroups(apis, regs, apiByService, groups) && g in groups
    ensures service in g.services <==> exists r :: r in regs && r.service == Some(service) && MeantFor(r, apiByService, g.name)
  {
    if service in g.services {
      var r := MountedIsMeant(apis, regs, apiByService, groups, g, service);
    }
    if r :| r in regs && r.service == Some(service) && MeantFor(r, apiByService, g.name) {
      MeantIsMounted(apis, regs, apiByService, groups, g.name, r);
      var h :| h in groups && h.name == g.name && service in h.services;
      SameName(groups, g, h);
    }
  }

  /** No registration of a built server contradicts its proto. */
  lemma NothingContradicts(apis: seq<ApiConfig>, regs: seq<Registration>, apiByService: map<string, string>, groups: seq<Group>,
                           r: Registration)
    requires GoodGroups(apis, regs, apiByService, groups) && r in regs
    ensures !Contradicts(r, apiByService)
  {
    var i :| 0 <= i < |regs| && regs[i] == r;
    assert r.service.Some? ==> Agrees(regs[i], apiByService);
  }

  /** A configured group is mounted at the components of its trimmed prefix; any other has no prefix. */
  lemma GroupPrefixes(apis: seq<ApiConfig>, regs: seq<Registration>, apiByService: map<string, string>, groups: seq<Group>, g: Group)
    requires GoodGroups(apis, regs, apiByService, groups) && g in groups
    ensures forall a :: a in apis && a.name == g.name ==> Segments(g.prefix) == Segments(TrimSpace(a.prefix))
    ensures (forall a :: a in apis ==> a.name != g.name) ==> g.prefix == ""
  {
    forall a | a in apis && a.name == g.name
      ensures Segments(g.prefix) == Segments(TrimSpace(a.prefix))
    {
      var i :| 0 <= i < |apis| && apis[i] == a;
      assert HasGroup(groups, a.name, GroupPrefix(a.prefix));
      var h :| h in groups && h.name == a.name && h.prefix == GroupPrefix(a.prefix);
      SameName(groups, g, h);
      PrefixSegments(a.prefix);
    }
    if g.prefix != "" {
      var i :| 0 <= i < |apis| && apis[i].name == g.name;
      assert apis[i] in apis;
    }
  }

  lemma PrefixSegments(configured: string)
    ensures Segments(GroupPrefix(configured)) == Segments(TrimSpace(configured))
  {
    var p := TrimSpace(configured);
    SegmentsAreSegments(p);
    SegmentsOfRender(Segments(p));
    assert Segments("") == [] by { assert Split("", '/') == [""]; }
  }

  // ---- deployed routes ----

  /** A deployed route is the declared one, at the components of its group's prefix and then its own. */
  lemma DeployedExactly(apis: seq<ApiConfig>, regs: seq<Registration>, apiByService: map<string, string>, groups: seq<Group>,
                        routes: seq<Route>, table: seq<Route>, i: nat, g: Group)
    requires GoodGroups(apis, regs, apiByService, groups) && ArePrefixed(groups, routes, table)
    requires i < |routes| && g in groups && g.name == routes[i].api
    ensures |table| == |routes| && table[i] == routes[i].(path := table[i].path)
    ensures Canonical(table[i].path) && Segments(table[i].path) == Segments(g.prefix) + Segments(routes[i].protoPath)
  {
    var k :| 0 <= k < |groups| && groups[k] == g;
    PrefixOfNamed(groups, k);
    SegmentsAreSegments(g.prefix);
    SegmentsAreSegments(routes[i].protoPath);
    SegmentsOfRender(Segments(g.prefix) + Segments(routes[i].protoPath));
  }
}
