/**
 How a request reaches a group of the HTTP server: the mount patterns of the groups and the patterns
 of extra routes and documents on one mux, and StripPrefix (server/server.go).
 */
module Dispatch {
  import opened Wrappers
  import opened Sorting
  import opened Paths
  import opened Surface
  import Descriptors

  import PolicySpec
  import PolicySet
  import PolicyBuild
  import Presets
  import BuildMeaning
  import opened Mux
  import opened Routes
  import opened RouteTable

  // ---- the mux of the server ----

  function MountPattern(g: Group): Pattern {
    Subtree(g.prefix)
  }

  /** Everything on the mux: the groups, then extra routes and documents. */
  function Patterns(groups: seq<Group>, others: seq<Pattern>): seq<Pattern> {
    Map(MountPattern, groups) + others
  }

  /** The subtree of g holds path; that of an unprefixed group holds every rooted path. */
  predicate Matches(g: Group, path: string) {
    g.prefix + "/" <= path
  }

  /** http.StripPrefix with the group's prefix. */
  function StripGroup(g: Group, path: string): string
    requires Matches(g, path)
  {
    path[|g.prefix|..]
  }

  /** A mux that follows net/http, with all patterns registered and prefixes it reads literally. */
  ghost predicate Mounts(mux: Mux, groups: seq<Group>, others: seq<Pattern>) {
    && ObeysPrecedence(mux) && ReadsSubtrees(mux) && Registered(mux, Patterns(groups, others))
    && PrefixesApart(groups) && PrefixesCanonical(groups)
    && forall g :: g in groups ==> Literal(g.prefix)
  }

  lemma PatternAt(groups: seq<Group>, others: seq<Pattern>)
    ensures |Patterns(groups, others)| == |groups| + |others|
    ensures forall i :: 0 <= i < |groups| ==> Patterns(groups, others)[i] == Subtree(groups[i].prefix)
    ensures forall n :: 0 <= n < |others| ==> Patterns(groups, others)[|groups| + n] == others[n]
  {
  }

  lemma GroupMatches(mux: Mux, groups: seq<Group>, others: seq<Pattern>, i: nat, r: Request)
    requires Mounts(mux, groups, others) && i < |groups|
    ensures mux.matches(Patterns(groups, others)[i], r) <==> Matches(groups[i], r.path)
    ensures mux.exact(Patterns(groups, others)[i], r.path) <==> r.path == groups[i].prefix + "/"
  {
    PatternAt(groups, others);
    assert groups[i] in groups;
  }

  // ---- which group is meant ----

  /** No other group's subtree that holds path lies deeper. */
  ghost predicate Deepest(groups: seq<Group>, i: nat, path: string)
    requires i < |groups|
  {
    && Matches(groups[i], path)
    && forall j :: 0 <= j < |groups| && j != i && Matches(groups[j], path) ==> groups[j].prefix + "/" <= groups[i].prefix
  }

  /** path is a group's prefix, without the slash of its subtree. */
  ghost predicate NamesGroup(groups: seq<Group>, path: string) {
    exists g :: g in groups && g.prefix != "" && g.prefix == path
  }

  lemma CommonPath(p: string, q: string, path: string)
    requires p + "/" <= path && q + "/" <= path
    ensures p == q || p + "/" <= q || q + "/" <= p
  {
    if |p| == |q| {
      assert p == path[..|p|] == path[..|q|] == q;
    } else if |p| < |q| {
      assert p + "/" == path[..|p| + 1] == q[..|p| + 1];
    } else {
      assert q + "/" == path[..|q| + 1] == p[..|q| + 1];
    }
  }

  /** Below a non-empty prefix only the unprefixed group's subtree lies further up. */
  lemma PrefixedIsDeepest(groups: seq<Group>, i: nat, path: string)
    requires PrefixesApart(groups) && i < |groups| && groups[i].prefix != "" && Matches(groups[i], path)
    requires PrefixesCanonical(groups)
    ensures Deepest(groups, i, path)
  {
    assert groups[i] in groups;
    CanonicalShape(groups[i].prefix);
    forall j | 0 <= j < |groups| && j != i && Matches(groups[j], path)
      ensures groups[j].prefix + "/" <= groups[i].prefix
    {
      assert Apart(groups[i].prefix, groups[j].prefix) && Apart(groups[j].prefix, groups[i].prefix);
      CommonPath(groups[i].prefix, groups[j].prefix, path);
    }
  }

  // ---- what other routes can take ----

  /** Another route matches r and is more specific than group i. */
  ghost predicate Taken(mux: Mux, groups: seq<Group>, others: seq<Pattern>, i: nat, r: Request)
    requires i < |groups|
  {
    exists n :: 0 <= n < |others| && mux.matches(others[n], r) && MoreSpecific(mux.matches, others[n], Subtree(groups[i].prefix))
  }

  /** Another route is chosen for r, and for exactly its path. */
  ghost predicate OtherExactly(mux: Mux, groups: seq<Group>, others: seq<Pattern>, r: Request) {
    exists n: nat :: n < |others| && Chosen(mux, Patterns(groups, others), r, |groups| + n) && mux.exact(others[n], r.path)
  }

  /** Another route takes r from group i, itself or by a redirect to a path with a slash. */
  ghost predicate Overridden(mux: Mux, groups: seq<Group>, others: seq<Pattern>, i: nat, r: Request)
    requires i < |groups|
  {
    Taken(mux, groups, others, i, r) || (!EndsInSlash(r.path) && OtherExactly(mux, groups, others, WithSlash(r)))
  }

  /** Group i is chosen exactly when no group lies deeper and no other route takes r. */
  lemma ChosenExactly(mux: Mux, groups: seq<Group>, others: seq<Pattern>, i: nat, r: Request)
    requires Mounts(mux, groups, others) && i < |groups|
    ensures Chosen(mux, Patterns(groups, others), r, i) <==> Deepest(groups, i, r.path) && !Taken(mux, groups, others, i, r)
  {
    var patterns := Patterns(groups, others);
    PatternAt(groups, others);
    GroupMatches(mux, groups, others, i, r);
    if Chosen(mux, patterns, r, i) {
      ChosenIsDeepest(mux, groups, others, i, r);
      ChosenIsNotTaken(mux, groups, others, i, r);
    }
    if Deepest(groups, i, r.path) && !Taken(mux, groups, others, i, r) {
      forall m | 0 <= m < |patterns| && m != i && mux.matches(patterns[m], r)
        ensures MoreSpecific(mux.matches, patterns[i], patterns[m])
      {
        DeepestBeats(mux, groups, others, i, r, m);
      }
    }
  }

  lemma ChosenIsDeepest(mux: Mux, groups: seq<Group>, others: seq<Pattern>, i: nat, r: Request)
    requires Mounts(mux, groups, others) && i < |groups| && Chosen(mux, Patterns(groups, others), r, i)
    ensures Deepest(groups, i, r.path)
  {
    PatternAt(groups, others);
    GroupMatches(mux, groups, others, i, r);
    forall j | 0 <= j < |groups| && j != i && Matches(groups[j], r.path)
      ensures groups[j].prefix + "/" <= groups[i].prefix
    {
      GroupMatches(mux, groups, others, j, r);
      var p, q := groups[i].prefix, groups[j].prefix;
      assert Apart(p, q) && groups[i] in groups && groups[j] in groups;
      CommonPath(p, q, r.path);
      if p + "/" <= q {
        SubtreeBelow(mux, q, p);
        SpecificAsymmetric(mux, Subtree(q), Subtree(p));
      }
    }
  }

  lemma ChosenIsNotTaken(mux: Mux, groups: seq<Group>, others: seq<Pattern>, i: nat, r: Request)
    requires i < |groups| && Chosen(mux, Patterns(groups, others), r, i)
    ensures !Taken(mux, groups, others, i, r)
  {
    PatternAt(groups, others);
    forall n | 0 <= n < |others| && mux.matches(others[n], r)
      ensures !MoreSpecific(mux.matches, others[n], Subtree(groups[i].prefix))
    {
      var m := |groups| + n;
      assert Patterns(groups, others)[m] == others[n];
      SpecificAsymmetric(mux, Subtree(groups[i].prefix), others[n]);
    }
  }

  lemma DeepestBeats(mux: Mux, groups: seq<Group>, others: seq<Pattern>, i: nat, r: Request, m: nat)
    requires Mounts(mux, groups, others) && i < |groups| && Deepest(groups, i, r.path) && !Taken(mux, groups, others, i, r)
    requires m < |Patterns(groups, others)| && m != i && mux.matches(Patterns(groups, others)[m], r)
    ensures MoreSpecific(mux.matches, Patterns(groups, others)[i], Patterns(groups, others)[m])
  {
    PatternAt(groups, others);
    GroupMatches(mux, groups, others, i, r);
    if m < |groups| {
      GroupMatches(mux, groups, others, m, r);
      assert groups[i] in groups && groups[m] in groups;
      SubtreeBelow(mux, groups[i].prefix, groups[m].prefix);
    } else {
      assert Patterns(groups, others)[m] == others[m - |groups|];
      Comparable(mux, Patterns(groups, others), i, m, r);
    }
  }

  // ---- redirects ----

  /** Who can be meant by exactly a path: the group of that subtree, or another route. */
  lemma ExactlyTakenBy(mux: Mux, groups: seq<Group>, others: seq<Pattern>, r: Request)
    requires Mounts(mux, groups, others) && ExactlyTaken(mux, Patterns(groups, others), r)
    ensures OtherExactly(mux, groups, others, r) || exists g :: g in groups && r.path == g.prefix + "/"
  {
    PatternAt(groups, others);
    var n: nat :| Chosen(mux, Patterns(groups, others), r, n) && mux.exact(Patterns(groups, others)[n], r.path);
    if n < |groups| {
      GroupMatches(mux, groups, others, n, r);
      assert groups[n] in groups;
    } else {
      var k: nat := n - |groups|;
      assert Patterns(groups, others)[|groups| + k] == others[k];
    }
  }

  lemma OtherIsExact(mux: Mux, groups: seq<Group>, others: seq<Pattern>, r: Request)
    requires OtherExactly(mux, groups, others, r)
    ensures ExactlyTaken(mux, Patterns(groups, others), r)
  {
    PatternAt(groups, others);
    var n: nat :| n < |others| && Chosen(mux, Patterns(groups, others), r, |groups| + n) && mux.exact(others[n], r.path);
    assert mux.exact(Patterns(groups, others)[|groups| + n], r.path);
  }

  /** The root of a group's subtree is exactly taken: by the group, or by a route more specific than it. */
  lemma SubtreeRootIsTaken(mux: Mux, groups: seq<Group>, others: seq<Pattern>, j: nat, r: Request)
    requires Mounts(mux, groups, others) && j < |groups| && r.path == groups[j].prefix + "/"
    ensures ExactlyTaken(mux, Patterns(groups, others), r)
  {
    var patterns := Patterns(groups, others);
    PatternAt(groups, others);
    GroupMatches(mux, groups, others, j, r);
    var n := SomeChosen(mux, patterns, r, j);
    if n != j { assert MoreSpecific(mux.matches, patterns[n], patterns[j]); }
    assert mux.exact(patterns[n], r.path);
  }

  /** A canonical path that group i's subtree holds is not the root of that subtree, but for "/" itself. */
  lemma NotExactly(g: Group, path: string)
    requires Canonical(path) && path != "/"
    ensures path != g.prefix + "/" && !EndsInSlash(path)
  {
    CanonicalShape(path);
  }

  /**
   A group serves a path of its subtree if and only if no group lies deeper, the path names no group, and
   no other route takes it.
   */
  lemma ServesExactly(mux: Mux, groups: seq<Group>, others: seq<Pattern>, i: nat, r: Request)
    requires Mounts(mux, groups, others) && i < |groups| && Canonical(r.path)
    ensures Serves(mux, Patterns(groups, others), r, i) <==>
              && Deepest(groups, i, r.path) && !NamesGroup(groups, r.path)
              && !Overridden(mux, groups, others, i, r)
  {
    ChosenExactly(mux, groups, others, i, r);
    if r.path == "/" {
      RootNamesNoGroup(groups);
    } else {
      NotExactly(groups[i], r.path);
      if Chosen(mux, Patterns(groups, others), r, i) { RedirectsExactly(mux, groups, others, i, r); }
    }
  }

  lemma RootNamesNoGroup(groups: seq<Group>)
    requires PrefixesCanonical(groups)
    ensures !NamesGroup(groups, "/")
  {
    RootSegments();
  }

  /** When group i is chosen for a path, the mux redirects exactly if the path names a group or another route. */
  lemma RedirectsExactly(mux: Mux, groups: seq<Group>, others: seq<Pattern>, i: nat, r: Request)
    requires Mounts(mux, groups, others) && i < |groups| && Canonical(r.path) && r.path != "/"
    requires Chosen(mux, Patterns(groups, others), r, i)
    ensures Redirects(mux, Patterns(groups, others), r) <==>
              NamesGroup(groups, r.path) || OtherExactly(mux, groups, others, WithSlash(r))
  {
    var patterns := Patterns(groups, others);
    NotExactly(groups[i], r.path);
    ChosenIsNotExact(mux, groups, others, i, r);
    if ExactlyTaken(mux, patterns, WithSlash(r)) {
      ExactlyTakenBy(mux, groups, others, WithSlash(r));
      if g :| g in groups && r.path + "/" == g.prefix + "/" {
        assert g.prefix == (r.path + "/")[..|r.path|] == r.path;
        CanonicalShape(r.path);
      }
    }
    if OtherExactly(mux, groups, others, WithSlash(r)) { OtherIsExact(mux, groups, others, WithSlash(r)); }
    if NamesGroup(groups, r.path) {
      var g :| g in groups && g.prefix != "" && g.prefix == r.path;
      var j :| 0 <= j < |groups| && groups[j] == g;
      SubtreeRootIsTaken(mux, groups, others, j, WithSlash(r));
    }
  }

  lemma ChosenIsNotExact(mux: Mux, groups: seq<Group>, others: seq<Pattern>, i: nat, r: Request)
    requires Mounts(mux, groups, others) && i < |groups| && r.path != groups[i].prefix + "/"
    requires Chosen(mux, Patterns(groups, others), r, i)
    ensures !ExactlyTaken(mux, Patterns(groups, others), r)
  {
    PatternAt(groups, others);
    GroupMatches(mux, groups, others, i, r);
    forall n: nat | Chosen(mux, Patterns(groups, others), r, n)
      ensures !mux.exact(Patterns(groups, others)[n], r.path)
    {
      ChosenUnique(mux, Patterns(groups, others), r, i, n);
    }
  }

  // ---- the bare prefix ----

  /** Another route is for exactly the bare prefix, or takes the root of the subtree. */
  ghost predicate RootOverridden(mux: Mux, groups: seq<Group>, others: seq<Pattern>, i: nat, r: Request)
    requires i < |groups|
  {
    OtherExactly(mux, groups, others, r) || Taken(mux, groups, others, i, WithSlash(r))
  }

  /** A request for a group's bare prefix is redirected into its subtree and served there exactly when no other route steps in. */
  lemma BarePrefixExactly(mux: Mux, groups: seq<Group>, others: seq<Pattern>, i: nat, r: Request)
    requires Mounts(mux, groups, others) && i < |groups| && groups[i].prefix != "" && r.path == groups[i].prefix
    ensures Redirects(mux, Patterns(groups, others), r) && Serves(mux, Patterns(groups, others), WithSlash(r), i) <==>
              !RootOverridden(mux, groups, others, i, r)
  {
    var patterns := Patterns(groups, others);
    assert groups[i] in groups;
    CanonicalShape(r.path);
    SubtreeRootIsTaken(mux, groups, others, i, WithSlash(r));
    PrefixedIsDeepest(groups, i, WithSlash(r).path);
    ChosenExactly(mux, groups, others, i, WithSlash(r));
    if OtherExactly(mux, groups, others, r) { OtherIsExact(mux, groups, others, r); }
    if ExactlyTaken(mux, patterns, r) {
      ExactlyTakenBy(mux, groups, others, r);
      if g :| g in groups && r.path == g.prefix + "/" {
        PrefixIsNoRoot(g, r.path);
      }
    }
    assert EndsInSlash(WithSlash(r).path);
  }

  lemma PrefixIsNoRoot(g: Group, path: string)
    requires Canonical(path) && Segments(path) != []
    ensures path != g.prefix + "/"
  {
    CanonicalShape(path);
    RootSegments();
  }

  // ---- from the configuration to the handler ----

  /** Group i's handler gets r, directly or after the redirect, with this path. */
  ghost predicate Reaches(mux: Mux, groups: seq<Group>, others: seq<Pattern>, r: Request, i: nat, seen: string)
    requires i < |groups|
  {
    var patterns := Patterns(groups, others);
    || (Serves(mux, patterns, r, i) && Matches(groups[i], r.path) && StripGroup(groups[i], r.path) == seen)
    || (Redirects(mux, patterns, r) && Serves(mux, patterns, WithSlash(r), i)
        && Matches(groups[i], r.path + "/") && StripGroup(groups[i], r.path + "/") == seen)
  }

  /** The routes that can keep group i from serving the path it knows as rest. */
  ghost predicate StepsIn(mux: Mux, groups: seq<Group>, others: seq<Pattern>, i: nat, r: Request, rest: string)
    requires i < |groups|
  {
    if groups[i].prefix != "" && rest == "/" then RootOverridden(mux, groups, others, i, r)
    else Overridden(mux, groups, others, i, r)
  }

  /** Some group's prefix starts path, segment by segment. */
  ghost predicate UnderPrefix(groups: seq<Group>, path: string) {
    exists g :: g in groups && g.prefix != "" && Segments(g.prefix) <= Segments(path)
  }

  lemma UnderPrefixExactly(groups: seq<Group>, path: string)
    requires PrefixesCanonical(groups) && Canonical(path)
    ensures UnderPrefix(groups, path) <==>
              NamesGroup(groups, path) || exists g :: g in groups && g.prefix != "" && Matches(g, path)
  {
    forall g | g in groups && g.prefix != ""
      ensures Segments(g.prefix) <= Segments(path) <==> Matches(g, path) || g.prefix == path
    {
      SegmentsAreSegments(g.prefix);
      SegmentsAreSegments(path);
      BelowIsSegmentPrefix(Segments(g.prefix), Segments(path));
    }
  }

  lemma JoinedBelow(p: string, path: string)
    requires Canonical(p) && Segments(p) != [] && Canonical(path) && path != "/"
    ensures Joined(p, path) == p + path && Canonical(p + path) && p + "/" <= p + path && (p + path)[|p|..] == path
  {
    SegmentsAreSegments(p);
    SegmentsAreSegments(path);
    RenderAppend(Segments(p), Segments(path));
    assert Segments(path) != [];
    NormalizedJoin(p, path);
    CanonicalShape(path);
  }

  lemma NormalizedJoin(p: string, path: string)
    ensures Canonical(Joined(p, path))
  {
    SegmentsAreSegments(p);
    SegmentsAreSegments(path);
    SegmentsOfRender(Segments(p) + Segments(path));
  }

  /** For a path below a prefixed group. */
  lemma PrefixedExactly(mux: Mux, groups: seq<Group>, others: seq<Pattern>, i: nat, verb: string, rest: string)
    requires Mounts(mux, groups, others) && i < |groups| && groups[i].prefix != "" && Canonical(rest) && rest != "/"
    ensures var r := Request(verb, Joined(groups[i].prefix, rest));
            Reaches(mux, groups, others, r, i, rest) <==> !Overridden(mux, groups, others, i, r)
  {
    var p := groups[i].prefix;
    assert groups[i] in groups;
    JoinedBelow(p, rest);
    var r := Request(verb, p + rest);
    PrefixedIsDeepest(groups, i, r.path);
    ServesExactly(mux, groups, others, i, r);
    BelowNamesNoGroup(groups, i, rest);
    NotStripped(p, rest);
  }

  lemma NotStripped(p: string, rest: string)
    ensures (p + rest + "/")[|p|..] != rest
  {
    assert |(p + rest + "/")[|p|..]| == |rest| + 1;
  }

  lemma BelowNamesNoGroup(groups: seq<Group>, i: nat, rest: string)
    requires PrefixesApart(groups) && PrefixesCanonical(groups) && i < |groups| && groups[i].prefix != ""
    requires Canonical(rest) && rest != "/"
    ensures !NamesGroup(groups, groups[i].prefix + rest)
  {
    var p := groups[i].prefix;
    assert groups[i] in groups;
    JoinedBelow(p, rest);
    CanonicalShape(rest);
    forall j | 0 <= j < |groups|
      ensures groups[j].prefix != p + rest
    {
      if j == i {
        assert |p + rest| > |p|;
      } else {
        assert Apart(groups[j].prefix, p);
      }
    }
  }

  /** For a group's own root. */
  lemma RootExactly(mux: Mux, groups: seq<Group>, others: seq<Pattern>, i: nat, verb: string)
    requires Mounts(mux, groups, others) && i < |groups| && groups[i].prefix != ""
    ensures var r := Request(verb, Joined(groups[i].prefix, "/"));
            Reaches(mux, groups, others, r, i, "/") <==> !RootOverridden(mux, groups, others, i, r)
  {
    var p := groups[i].prefix;
    assert groups[i] in groups;
    JoinedRoot(p);
    BarePrefixExactly(mux, groups, others, i, Request(verb, p));
    assert !Matches(groups[i], p) by { assert |p + "/"| > |p|; }
    assert (p + "/")[|p|..] == "/";
  }

  /** For a path of the unprefixed group. */
  lemma UnprefixedExactly(mux: Mux, groups: seq<Group>, others: seq<Pattern>, i: nat, verb: string, rest: string)
    requires Mounts(mux, groups, others) && i < |groups| && groups[i].prefix == "" && Canonical(rest)
    ensures var r := Request(verb, rest);
            Reaches(mux, groups, others, r, i, rest) <==> !UnderPrefix(groups, rest) && !Overridden(mux, groups, others, i, r)
  {
    var r := Request(verb, rest);
    CanonicalShape(rest);
    ServesExactly(mux, groups, others, i, r);
    UnderPrefixExactly(groups, rest);
    UnprefixedDeepest(groups, i, rest);
    assert Matches(groups[i], rest + "/") && StripGroup(groups[i], rest + "/") != rest;
  }

  lemma UnprefixedDeepest(groups: seq<Group>, i: nat, path: string)
    requires PrefixesApart(groups) && i < |groups| && groups[i].prefix == "" && Canonical(path)
    ensures Deepest(groups, i, path) <==> !exists g :: g in groups && g.prefix != "" && Matches(g, path)
  {
    CanonicalShape(path);
    if g :| g in groups && g.prefix != "" && Matches(g, path) {
      var j :| 0 <= j < |groups| && groups[j] == g;
      assert j != i && !(groups[j].prefix + "/" <= "");
    } else {
      forall j | 0 <= j < |groups| && j != i
        ensures !Matches(groups[j], path)
      {
        assert Apart(groups[j].prefix, groups[i].prefix) && groups[j] in groups;
      }
    }
  }

  lemma GroupOfApi(apis: seq<ApiConfig>, regs: seq<Registration>, apiByService: map<string, string>,
                   groups: seq<Group>, k: nat) returns (i: nat)
    requires GoodGroups(apis, regs, apiByService, groups)
    requires k < |regs| && regs[k].service.Some? && regs[k].service.value in apiByService && !regs[k].allowMismatch
    requires regs[k].api == "" || apiByService[regs[k].service.value] != ""
    ensures i < |groups| && groups[i].name == apiByService[regs[k].service.value]
    ensures regs[k].service.value in groups[i].services && groups[i].prefix == PrefixOf(groups, groups[i].name)
  {
    var service := regs[k].service.value;
    assert Agrees(regs[k], apiByService);
    assert GroupOf(regs[k], apiByService) == apiByService[service];
    var g :| g in groups && g.name == apiByService[service] && service in g.services;
    i :| 0 <= i < |groups| && groups[i] == g;
    PrefixOfNamed(groups, i);
  }

  /**
   End to end, for a service that some registration mounts in the group its proto names. rest is the path
   of one of its bindings, or any path its templates may stand for; r requests it where the group is
   deployed. The service's group gets the request, with rest as the path its handler sees, if and only if no
   other route on the mux steps in and, for the unprefixed group, no prefix starts the path.
   */
  lemma RequestReachesService(apis: seq<ApiConfig>, regs: seq<Registration>, apiByService: map<string, string>,
                              groups: seq<Group>, mux: Mux, others: seq<Pattern>, k: nat, verb: string, rest: string)
    returns (i: nat)
    requires GoodGroups(apis, regs, apiByService, groups) && Mounts(mux, groups, others) && Canonical(rest)
    requires k < |regs| && regs[k].service.Some? && regs[k].service.value in apiByService && !regs[k].allowMismatch
    requires regs[k].api == "" || apiByService[regs[k].service.value] != ""
    ensures i < |groups| && groups[i].name == apiByService[regs[k].service.value]
    ensures regs[k].service.value in groups[i].services
    ensures var r := Request(verb, Joined(groups[i].prefix, rest));
            Reaches(mux, groups, others, r, i, rest) <==>
              !StepsIn(mux, groups, others, i, r, rest) && (groups[i].prefix == "" ==> !UnderPrefix(groups, rest))
  {
    i := GroupOfApi(apis, regs, apiByService, groups, k);
    if groups[i].prefix == "" {
      UnprefixedJoin(rest);
      UnprefixedExactly(mux, groups, others, i, verb, rest);
    } else if rest == "/" {
      RootExactly(mux, groups, others, i, verb);
    } else {
      PrefixedExactly(mux, groups, others, i, verb, rest);
    }
  }

  /** The surface of a built set: its services agree on their API. */
  lemma BuiltServiceAgrees(fs: seq<Descriptors.File>, opts: PolicyBuild.Options, ps: Presets.PresetSet,
                           built: seq<PolicySpec.Operation>, result: PolicySet.OperationSet,
                           services: seq<Option<Descriptors.Service>>, ops: seq<SurfaceOp>, service: string)
    requires PolicyBuild.IsBuild(fs, opts, ps, built, result) && BuildMeaning.ServicesDeclaredOnce(fs)
    requires IsSortedSurface(Endpoints(services), result.ops, ops)
    ensures OneApi(ops, service)
  {
    PolicySet.NewSetKeyedById(built, result.ops);
    SortedSurface(Endpoints(services), result.ops, ops);
    forall a, b | a in ops && b in ops && a.operation.service == service && b.operation.service == service
      ensures a.operation.api == b.operation.api
    {
      BuildMeaning.ServiceHasOneApi(fs, opts, ps, built, result, a.operation.id, b.operation.id);
    }
  }

  /**
   The same for the deployed path of a binding of a built surface, when the operations of its service agree
   on their API.
   */
  lemma BindingReachesService(services: seq<Option<Descriptors.Service>>, policies: map<string, PolicySpec.Operation>,
                              ops: seq<SurfaceOp>, apis: seq<ApiConfig>, regs: seq<Registration>,
                              apiByService: map<string, string>, groups: seq<Group>, mux: Mux, others: seq<Pattern>,
                              op: SurfaceOp, b: Binding, k: nat, verb: string) returns (i: nat)
    requires forall id :: id in policies ==> policies[id].id == id
    requires IsSortedSurface(Endpoints(services), policies, ops) && op in ops && b in op.bindings
    requires GoodGroups(apis, regs, apiByService, groups) && Mounts(mux, groups, others)
    requires ApisOf(ops, apiByService) && OneApi(ops, op.operation.service)
    requires k < |regs| && regs[k].service == Some(op.operation.service) && !regs[k].allowMismatch
    requires regs[k].api == "" || op.operation.api != ""
    ensures i < |groups| && groups[i].name == op.operation.api && op.operation.service in groups[i].services
    ensures var r := Request(verb, Joined(PrefixOf(groups, op.operation.api), b.path));
            Reaches(mux, groups, others, r, i, b.path) <==>
              !StepsIn(mux, groups, others, i, r, b.path) && (groups[i].prefix == "" ==> !UnderPrefix(groups, b.path))
  {
    SortedSurface(Endpoints(services), policies, ops);
    AgreedApi(ops, apiByService, op);
    i := RequestReachesService(apis, regs, apiByService, groups, mux, others, k, verb, b.path);
    var j := GroupOfApi(apis, regs, apiByService, groups, k);
    SameName(groups, groups[i], groups[j]);
  }

  lemma UnprefixedJoin(rest: string)
    requires Canonical(rest)
    ensures Joined("", rest) == rest
  {
    UnprefixedPath([], Route("proto", "", "", rest, rest, ""));
  }
}
