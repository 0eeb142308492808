/**
 From proto services to routes and groups: BuildFromServices and Routes (surface/surface.go), and
 buildGroups (server/server.go).
 */
module Routes {
  import opened Wrappers
  import opened Text
  import opened Sorting
  import opened Paths
  import opened PolicySpec
  import opened Descriptors
  import opened Surface

  // ---- the surface ----

  function VerbName(v: Verb): string {
    match v
    case Get => "GET"
    case Post => "POST"
    case Put => "PUT"
    case Delete => "DELETE"
    case Patch => "PATCH"
  }

  /** strings.ToUpper on ASCII. */
  function Upper(s: string): string {
    seq(|s|, i requires 0 <= i < |s| => if 'a' <= s[i] <= 'z' then s[i] - 'a' + 'A' else s[i])
  }

  predicate Uppercase(s: string) {
    Upper(s) == s
  }

  lemma VerbsAreUppercase(v: Verb, kind: string)
    ensures Uppercase(VerbName(v)) && Uppercase(Upper(kind))
  {
  }

  function BindingOf(rule: HttpRule): Option<Binding> {
    match rule
    case NoPattern => None
    case Standard(verb, path, body, responseBody) =>
      if path == "" then None else Some(Binding(VerbName(verb), Normalized(path), body, responseBody))
    case Custom(kind, path, body, responseBody) =>
      if path == "" then None else Some(Binding(Upper(kind), Normalized(path), body, responseBody))
  }

  method BindingsOf(rules: seq<HttpRule>) returns (r: Option<seq<Binding>>)
    ensures r.Some? <==> forall i :: 0 <= i < |rules| ==> BindingOf(rules[i]).Some?
    ensures r.Some? ==> |r.value| == |rules| && forall i :: 0 <= i < |rules| ==> Some(r.value[i]) == BindingOf(rules[i])
  {
    var out: seq<Binding> := [];
    for i := 0 to |rules|
      invariant |out| == i && forall j :: 0 <= j < i ==> Some(out[j]) == BindingOf(rules[j])
    {
      var b := BindingOf(rules[i]);
      if b.None? {
        return None;
      }
      out := out + [b.value];
    }
    return Some(out);
  }

  predicate ExposureFits(m: Method, exposure: Exposure) {
    && (match exposure
        case ExposurePublic => m.rules != []
        case ExposureDeprecated => m.rules != []
        case ExposureInternal => m.rules == []
        case ExposureHidden => true
        case ExposureUnspecified => false)
    && !(m.rules != [] && m.clientStreaming)
  }

  function RoutesOfOp(op: SurfaceOp): seq<Route> {
    Map((b: Binding) => Route("proto", op.operation.id, b.verb, b.path, b.path, op.operation.api), op.bindings)
  }

  /** Surface.Routes, before sorting. */
  function RoutesOf(ops: seq<SurfaceOp>): seq<Route> {
    if ops == [] then [] else RoutesOf(ops[..|ops| - 1]) + RoutesOfOp(ops[|ops| - 1])
  }

  ghost predicate KeysAre(routes: seq<Route>, keys: set<string>) {
    forall k :: k in keys <==> exists i :: 0 <= i < |routes| && RouteKey(routes[i].verb, routes[i].protoPath) == k
  }

  /** The operations come from the policy set and all declared paths are canonical. */
  ghost predicate FromSet(ops: seq<SurfaceOp>, policies: map<string, Operation>) {
    forall op :: op in ops ==>
      && op.operation.id in policies && op.operation == policies[op.operation.id]
      && forall b :: b in op.bindings ==> Canonical(b.path) && Uppercase(b.verb)
  }

  /** Adds the routes of one operation, failing on a key that is taken. */
  method AddRoutes(ghost sofar: seq<Route>, taken: set<string>, op: SurfaceOp) returns (r: Option<set<string>>)
    requires DistinctKeys(sofar) && KeysAre(sofar, taken)
    ensures r.Some? <==> DistinctKeys(sofar + RoutesOfOp(op))
    ensures r.Some? ==> KeysAre(sofar + RoutesOfOp(op), r.value)
  {
    var keys := taken;
    ghost var all := RoutesOfOp(op);
    assert sofar + all[..0] == sofar;
    for i := 0 to |op.bindings|
      invariant DistinctKeys(sofar + all[..i]) && KeysAre(sofar + all[..i], keys)
    {
      var b := op.bindings[i];
      var key := RouteKey(b.verb, b.path);
      ghost var before, after := sofar + all[..i], sofar + all[..i + 1];
      assert after == before + [all[i]];
      if key in keys {
        ghost var j :| 0 <= j < |before| && RouteKey(before[j].verb, before[j].protoPath) == key;
        ghost var whole := sofar + all;
        assert whole[j] == before[j] && whole[|sofar| + i] == all[i];
        return None;
      }
      AddKey(before, keys, all[i]);
      keys := keys + {key};
    }
    assert all[..|all|] == all;
    return Some(keys);
  }

  lemma AddKey(before: seq<Route>, keys: set<string>, r: Route)
    requires DistinctKeys(before) && KeysAre(before, keys) && RouteKey(r.verb, r.protoPath) !in keys
    ensures DistinctKeys(before + [r]) && KeysAre(before + [r], keys + {RouteKey(r.verb, r.protoPath)})
  {
    var after := before + [r];
    assert after[|before|] == r;
    assert forall i :: 0 <= i < |before| ==> after[i] == before[i];
  }

  // ---- building the surface ----

  datatype Endpoint = Endpoint(service: Service, method_: Method)

  function MethodEndpoints(s: Service, ms: seq<Method>): seq<Endpoint> {
    Map((m: Method) => Endpoint(s, m), ms)
  }

  /** The methods a surface is built from: those of the first service of each name. */
  function Endpoints(services: seq<Option<Service>>): seq<Endpoint> {
    if services == [] then []
    else
      var init, last := services[..|services| - 1], services[|services| - 1];
      Endpoints(init) + if last.None? || NameIn(init, last.value.fullName) then [] else MethodEndpoints(last.value, last.value.methods)
  }

  predicate NameIn(services: seq<Option<Service>>, name: string) {
    exists i :: 0 <= i < |services| && services[i].Some? && services[i].value.fullName == name
  }

  /** The operation t should have; None when it has no policy, a bad binding or the wrong exposure. */
  ghost function OpFor(t: Endpoint, policies: map<string, Operation>): Option<SurfaceOp> {
    var id := FullMethod(t.service, t.method_);
    if id in policies && (forall i :: 0 <= i < |t.method_.rules| ==> BindingOf(t.method_.rules[i]).Some?)
       && ExposureFits(t.method_, policies[id].exposure)
    then Some(SurfaceOp(policies[id], t.method_.input, t.method_.output, Map(BindingOrNone, t.method_.rules)))
    else None
  }

  function BindingOrNone(rule: HttpRule): Binding {
    match BindingOf(rule) case Some(b) => b case None => Binding("", "", "", "")
  }

  /** ops are the operations of ts, one for one. */
  ghost predicate OpsOf(ts: seq<Endpoint>, policies: map<string, Operation>, ops: seq<SurfaceOp>) {
    |ops| == |ts| && forall i :: 0 <= i < |ts| ==> OpFor(ts[i], policies) == Some(ops[i])
  }

  /** A surface: every method has its operation, and no method and path is declared twice. */
  ghost predicate IsSurface(ts: seq<Endpoint>, policies: map<string, Operation>, ops: seq<SurfaceOp>) {
    OpsOf(ts, policies, ops) && DistinctKeys(RoutesOf(ops))
  }

  lemma {:induction false} RoutesOfPrefix(a: seq<SurfaceOp>, b: seq<SurfaceOp>)
    requires a <= b
    ensures RoutesOf(a) <= RoutesOf(b)
  {
    if a != b {
      var n := |b| - 1;
      assert a <= b[..n];
      RoutesOfPrefix(a, b[..n]);
    }
  }

  /** What cannot be a surface does not become one by adding methods. */
  lemma PrefixIsSurface(done: seq<Endpoint>, all: seq<Endpoint>, policies: map<string, Operation>, ops: seq<SurfaceOp>)
    requires done <= all && IsSurface(all, policies, ops)
    ensures IsSurface(done, policies, ops[..|done|])
  {
    RoutesOfPrefix(ops[..|done|], ops);
    var few, more := RoutesOf(ops[..|done|]), RoutesOf(ops);
    assert forall i :: 0 <= i < |few| ==> few[i] == more[i];
  }

  lemma {:induction false} EndpointsPrefix(services: seq<Option<Service>>, i: nat)
    requires i <= |services|
    ensures Endpoints(services[..i]) <= Endpoints(services)
  {
    if i < |services| {
      var init := services[..|services| - 1];
      EndpointsPrefix(init, i);
      assert init[..i] == services[..i];
    } else {
      assert services[..i] == services;
    }
  }

  lemma OpsOfUnique(ts: seq<Endpoint>, policies: map<string, Operation>, a: seq<SurfaceOp>, b: seq<SurfaceOp>)
    requires OpsOf(ts, policies, a) && OpsOf(ts, policies, b)
    ensures a == b
  {
    forall i | 0 <= i < |ts| ensures a[i] == b[i] {
      assert OpFor(ts[i], policies) == Some(a[i]);
    }
  }

  lemma OpsFromSet(ts: seq<Endpoint>, policies: map<string, Operation>, ops: seq<SurfaceOp>)
    requires forall id :: id in policies ==> policies[id].id == id
    requires OpsOf(ts, policies, ops)
    ensures FromSet(ops, policies)
  {
    forall op | op in ops
      ensures FromSet([op], policies)
    {
      var i :| 0 <= i < |ops| && ops[i] == op;
      OpFromSet(ts[i], policies, op);
    }
    forall op | op in ops
      ensures op.operation.id in policies && op.operation == policies[op.operation.id]
      ensures forall b :: b in op.bindings ==> Canonical(b.path) && Uppercase(b.verb)
    {
      assert op in [op];
    }
  }

  lemma OpFromSet(t: Endpoint, policies: map<string, Operation>, op: SurfaceOp)
    requires forall id :: id in policies ==> policies[id].id == id
    requires OpFor(t, policies) == Some(op)
    ensures FromSet([op], policies)
  {
    var rules := t.method_.rules;
    forall b | b in op.bindings
      ensures Canonical(b.path) && Uppercase(b.verb)
    {
      var i :| 0 <= i < |rules| && op.bindings[i] == b;
      assert BindingOf(rules[i]) == Some(b);
      NormalizeIsIdempotent(rules[i].path);
      VerbsAreUppercase(if rules[i].Standard? then rules[i].verb else Get, if rules[i].Custom? then rules[i].kind else "");
    }
  }

  function OpId(op: SurfaceOp): string { op.operation.id }

  /** A surface in the order of operation ids. */
  ghost predicate IsSortedSurface(ts: seq<Endpoint>, policies: map<string, Operation>, sorted: seq<SurfaceOp>) {
    exists ops :: IsSurface(ts, policies, ops) && IsSortOf(ops, OpId, sorted)
  }

  /**
   Succeeds exactly when every method has a policy, well-formed bindings and a fitting exposure,
   and no method and path is declared twice.
   */
  method BuildFromServices(services: seq<Option<Service>>, policies: map<string, Operation>) returns (r: Option<seq<SurfaceOp>>)
    ensures r.Some? ==> IsSortedSurface(Endpoints(services), policies, r.value)
    ensures r.None? ==> forall ops :: !IsSurface(Endpoints(services), policies, ops)
  {
    var ops: seq<SurfaceOp> := [];
    var seen: set<string> := {};
    var keys: set<string> := {};
    for i := 0 to |services|
      invariant IsSurface(Endpoints(services[..i]), policies, ops) && KeysAre(RoutesOf(ops), keys)
      invariant forall n :: n in seen <==> NameIn(services[..i], n)
    {
      SeenStep(services, i, seen);
      EndpointsStep(services, i);
      if services[i].None? || services[i].value.fullName in seen {
        continue;
      }
      var s := services[i].value;
      seen := seen + {s.fullName};
      var more, taken := AddService(Endpoints(services[..i]), ops, keys, s, policies);
      if more.None? {
        EndpointsPrefix(services, i + 1);
        NoSurface(Endpoints(services[..i + 1]), Endpoints(services), policies);
        return None;
      }
      ops, keys := more.value, taken;
    }
    assert services[..|services|] == services;
    var sorted := SortSlice(ops, OpId);
    return Some(sorted);
  }

  lemma EndpointsStep(services: seq<Option<Service>>, i: nat)
    requires i < |services|
    ensures Endpoints(services[..i + 1]) == Endpoints(services[..i])
            + if services[i].None? || NameIn(services[..i], services[i].value.fullName) then []
              else MethodEndpoints(services[i].value, services[i].value.methods)
  {
    assert services[..i + 1][..i] == services[..i];
  }

  /** The inner loop: all methods of one service. */
  method AddService(ghost done: seq<Endpoint>, before: seq<SurfaceOp>, taken: set<string>, s: Service,
                    policies: map<string, Operation>) returns (r: Option<seq<SurfaceOp>>, keys: set<string>)
    requires IsSurface(done, policies, before) && KeysAre(RoutesOf(before), taken)
    ensures r.Some? ==> IsSurface(done + MethodEndpoints(s, s.methods), policies, r.value) && KeysAre(RoutesOf(r.value), keys)
    ensures r.None? ==> forall ops :: !IsSurface(done + MethodEndpoints(s, s.methods), policies, ops)
  {
    ghost var these := MethodEndpoints(s, s.methods);
    var ops := before;
    keys := taken;
    assert done + these[..0] == done;
    for j := 0 to |s.methods|
      invariant IsSurface(done + these[..j], policies, ops) && KeysAre(RoutesOf(ops), keys)
    {
      ghost var after := done + these[..j + 1];
      assert after == done + these[..j] + [Endpoint(s, s.methods[j])];
      var op, more := AddMethod(done + these[..j], ops, keys, Endpoint(s, s.methods[j]), policies);
      if op.None? {
        NoSurface(after, done + these, policies);
        return None, keys;
      }
      keys := more;
      ops := ops + [op.value];
    }
    assert these[..|s.methods|] == these;
    return Some(ops), keys;
  }

  lemma SeenStep(services: seq<Option<Service>>, i: nat, seen: set<string>)
    requires i < |services| && forall n :: n in seen <==> NameIn(services[..i], n)
    ensures forall n :: NameIn(services[..i + 1], n) <==>
              n in seen || (services[i].Some? && services[i].value.fullName == n)
  {
    var more := services[..i + 1];
    assert more == services[..i] + [services[i]];
    forall n
      ensures NameIn(more, n) <==> n in seen || (services[i].Some? && services[i].value.fullName == n)
    {
      if services[i].Some? && services[i].value.fullName == n { assert more[i] == services[i]; }
      if NameIn(services[..i], n) {
        var k :| 0 <= k < i && services[..i][k].Some? && services[..i][k].value.fullName == n;
        assert more[k] == services[..i][k];
      }
    }
  }

  lemma NoSurface(done: seq<Endpoint>, all: seq<Endpoint>, policies: map<string, Operation>)
    requires done <= all && forall ops :: !IsSurface(done, policies, ops)
    ensures forall ops :: !IsSurface(all, policies, ops)
  {
    forall ops ensures !IsSurface(all, policies, ops) {
      if IsSurface(all, policies, ops) { PrefixIsSurface(done, all, policies, ops); }
    }
  }

  /** One method: its operation and its routes. */
  method AddMethod(ghost before: seq<Endpoint>, ghost ops: seq<SurfaceOp>, keys: set<string>, t: Endpoint, policies: map<string, Operation>)
    returns (op: Option<SurfaceOp>, more: set<string>)
    requires IsSurface(before, policies, ops) && KeysAre(RoutesOf(ops), keys)
    ensures op.Some? ==> IsSurface(before + [t], policies, ops + [op.value]) && KeysAre(RoutesOf(ops + [op.value]), more)
    ensures op.None? ==> forall o :: !IsSurface(before + [t], policies, o)
  {
    more := keys;
    op := SurfaceOpOf(t.service, t.method_, policies);
    if op.None? {
      forall o ensures !IsSurface(before + [t], policies, o) {
        assert (before + [t])[|before|] == t;
      }
      return;
    }
    var added := AddRoutes(RoutesOf(ops), keys, op.value);
    OpsStep(before, ops, t, op.value, policies);
    if added.None? {
      return None, keys;
    }
    more := added.value;
  }

  lemma OpsStep(before: seq<Endpoint>, ops: seq<SurfaceOp>, t: Endpoint, op: SurfaceOp, policies: map<string, Operation>)
    requires OpsOf(before, policies, ops) && OpFor(t, policies) == Some(op)
    ensures RoutesOf(ops + [op]) == RoutesOf(ops) + RoutesOfOp(op)
    ensures OpsOf(before + [t], policies, ops + [op])
    ensures forall o :: OpsOf(before + [t], policies, o) ==> o == ops + [op]
  {
    assert (ops + [op])[..|ops|] == ops;
    forall o | OpsOf(before + [t], policies, o) ensures o == ops + [op] {
      OpsOfUnique(before + [t], policies, o, ops + [op]);
    }
  }

  method SurfaceOpOf(s: Service, m: Method, policies: map<string, Operation>) returns (r: Option<SurfaceOp>)
    ensures r == OpFor(Endpoint(s, m), policies)
  {
    var id := FullMethod(s, m);
    if id !in policies {
      return None;
    }
    var bindings := BindingsOf(m.rules);
    if bindings.None? || !ExposureFits(m, policies[id].exposure) {
      return None;
    }
    assert bindings.value == Map(BindingOrNone, m.rules);
    return Some(SurfaceOp(policies[id], m.input, m.output, bindings.value));
  }

  lemma {:induction false} RoutesOfAppend(a: seq<SurfaceOp>, b: seq<SurfaceOp>)
    ensures RoutesOf(a + b) == RoutesOf(a) + RoutesOf(b)
  {
    if b == [] {
      assert a + b == a;
    } else {
      var n := |b| - 1;
      RoutesOfAppend(a, b[..n]);
      assert (a + b)[..|a + b| - 1] == a + b[..n];
      Assoc(RoutesOf(a), RoutesOf(b[..n]), RoutesOfOp(b[n]));
    }
  }

  lemma RoutesOfMiddle(a: seq<SurfaceOp>, x: SurfaceOp, b: seq<SurfaceOp>)
    ensures multiset(RoutesOf(a + [x] + b)) == multiset(RoutesOf(a + b)) + multiset(RoutesOf([x]))
  {
    RoutesOfAppend(a + [x], b);
    RoutesOfAppend(a, [x]);
    RoutesOfAppend(a, b);
  }

  lemma RoutesOfRemove(t: seq<SurfaceOp>, i: nat)
    requires i < |t|
    ensures multiset(RoutesOf(t)) == multiset(RoutesOf(t[..i] + t[i + 1..])) + multiset(RoutesOf([t[i]]))
  {
    var a, x, b := t[..i], t[i], t[i + 1..];
    Reassembled(t, i);
    RoutesOfMiddle(a, x, b);
  }

  lemma Reassembled<T>(t: seq<T>, i: nat)
    requires i < |t|
    ensures t[..i] + [t[i]] + t[i + 1..] == t
  {
  }

  lemma RoutesOfHead(s: seq<SurfaceOp>)
    requires s != []
    ensures multiset(RoutesOf(s)) == multiset(RoutesOf(s[1..])) + multiset(RoutesOf([s[0]]))
  {
    RoutesOfRemove(s, 0);
    assert s[..0] + s[0 + 1..] == s[1..];
  }

  /** Reordering operations reorders their routes. */
  lemma {:induction false} RoutesOfPermuted(s: seq<SurfaceOp>, t: seq<SurfaceOp>)
    requires multiset(s) == multiset(t)
    ensures multiset(RoutesOf(s)) == multiset(RoutesOf(t))
  {
    if s == [] {
      assert |multiset(s)| == |s| && |multiset(t)| == |t|;
    } else {
      var i := MatchHead(s, t);
      RoutesOfPermuted(s[1..], t[..i] + t[i + 1..]);
      RoutesOfRemove(t, i);
      RoutesOfHead(s);
    }
  }

  function ProtoKey(r: Route): string {
    RouteKey(r.verb, r.protoPath)
  }

  lemma DistinctKeysPermuted(a: seq<Route>, b: seq<Route>)
    requires multiset(a) == multiset(b) && DistinctKeys(a)
    ensures DistinctKeys(b)
  {
    MapPermuted(ProtoKey, a, b);
    var ka, kb := Map(ProtoKey, a), Map(ProtoKey, b);
    forall i, j | 0 <= i < j < |b|
      ensures ProtoKey(b[i]) != ProtoKey(b[j])
    {
      DistinctStays(ka, kb, i, j);
    }
  }

  lemma SameOps(ops: seq<SurfaceOp>, sorted: seq<SurfaceOp>)
    requires multiset(ops) == multiset(sorted)
    ensures forall op :: op in sorted ==> op in ops
  {
    forall op | op in sorted ensures op in ops { assert op in multiset(ops); }
  }

  /** Sorting changes neither where operations come from nor that routes are distinct. */
  lemma SortedSurface(ts: seq<Endpoint>, policies: map<string, Operation>, sorted: seq<SurfaceOp>)
    requires forall id :: id in policies ==> policies[id].id == id
    requires IsSortedSurface(ts, policies, sorted)
    ensures FromSet(sorted, policies) && DistinctKeys(RoutesOf(sorted))
  {
    var ops :| IsSurface(ts, policies, ops) && IsSortOf(ops, OpId, sorted);
    OpsFromSet(ts, policies, ops);
    SameOps(ops, sorted);
    RoutesOfPermuted(ops, sorted);
    DistinctKeysPermuted(RoutesOf(ops), RoutesOf(sorted));
  }

  /** Every method of a service has its operation in the surface. */
  lemma EveryMethodIsOnSurface(services: seq<Option<Service>>, policies: map<string, Operation>, ops: seq<SurfaceOp>,
                               i: nat, m: Method)
    requires IsSortedSurface(Endpoints(services), policies, ops)
    requires i < |services| && services[i].Some? && m in services[i].value.methods
    requires !NameIn(services[..i], services[i].value.fullName)
    ensures exists op :: op in ops && OpFor(Endpoint(services[i].value, m), policies) == Some(op)
  {
    var t := Endpoint(services[i].value, m);
    EndpointListed(services, i, m);
    var k :| 0 <= k < |Endpoints(services)| && Endpoints(services)[k] == t;
    var built :| IsSurface(Endpoints(services), policies, built) && IsSortOf(built, OpId, ops);
    assert OpFor(t, policies) == Some(built[k]);
    assert built[k] in multiset(built) && built[k] in multiset(ops);
  }

  lemma EndpointListed(services: seq<Option<Service>>, i: nat, m: Method)
    requires i < |services| && services[i].Some? && m in services[i].value.methods
    requires !NameIn(services[..i], services[i].value.fullName)
    ensures Endpoint(services[i].value, m) in Endpoints(services)
  {
    var s := services[i].value;
    MethodListed(s, m);
    EndpointsStep(services, i);
    InAppend(Endpoints(services[..i]), MethodEndpoints(s, s.methods), Endpoint(s, m));
    EndpointsPrefix(services, i + 1);
    InPrefix(Endpoints(services[..i + 1]), Endpoints(services), Endpoint(s, m));
  }

  lemma MethodListed(s: Service, m: Method)
    requires m in s.methods
    ensures Endpoint(s, m) in MethodEndpoints(s, s.methods)
  {
    var j :| 0 <= j < |s.methods| && s.methods[j] == m;
    assert MethodEndpoints(s, s.methods)[j] == Endpoint(s, m);
  }

  lemma InAppend<T>(a: seq<T>, b: seq<T>, x: T)
    requires x in b
    ensures x in a + b
  {
  }

  lemma InPrefix<T>(a: seq<T>, b: seq<T>, x: T)
    requires x in a && a <= b
    ensures x in b
  {
  }

  /** Routes of a built surface are declared at canonical paths, with upper-case methods. */
  lemma {:induction false} SurfaceRoutesAreCanonical(ops: seq<SurfaceOp>, policies: map<string, Operation>)
    requires FromSet(ops, policies)
    ensures forall r :: r in RoutesOf(ops) ==> Canonical(r.protoPath) && Uppercase(r.verb)
  {
    if ops != [] {
      var n := |ops| - 1;
      assert ops[n] in ops;
      SurfaceRoutesAreCanonical(ops[..n], policies);
      var last := RoutesOfOp(ops[n]);
      forall r | r in last
        ensures Canonical(r.protoPath) && Uppercase(r.verb)
      {
        var i :| 0 <= i < |last| && last[i] == r;
        assert ops[n].bindings[i] in ops[n].bindings;
      }
    }
  }

  lemma {:induction false} SurfaceRoutesAreProto(ops: seq<SurfaceOp>)
    ensures forall r :: r in RoutesOf(ops) ==> r.source == "proto"
  {
    if ops != [] { SurfaceRoutesAreProto(ops[..|ops| - 1]); }
  }

  // ---- groups ----

  datatype Registration = Registration(api: string, service: Option<string>, allowMismatch: bool)

  datatype ApiConfig = ApiConfig(name: string, prefix: string, services: seq<Registration>)

  datatype Group = Group(name: string, prefix: string, services: seq<string>)

  /** The mounted prefix of a configured one: canonical, with the root meaning none. */
  function GroupPrefix(configured: string): string {
    var p := TrimSpace(configured);
    if p == "" || Segments(p) == [] then "" else Normalized(p)
  }

  lemma GroupPrefixShape(configured: string)
    ensures var p := GroupPrefix(configured); p == "" || (Canonical(p) && Segments(p) != [])
  {
    var p := TrimSpace(configured);
    SegmentsAreSegments(p);
    SegmentsOfRender(Segments(p));
  }

  method ComputePrefix(configured: string) returns (prefix: string)
    ensures prefix == GroupPrefix(configured)
  {
    prefix := TrimSpace(configured);
    if prefix != "" {
      SegmentsAreSegments(prefix);
      SegmentsOfRender(Segments(prefix));
      RootSegments();
      prefix := NormalizePath(prefix);
      if prefix == "/" {
        prefix := "";
      }
    }
  }

  /** Prefixes are distinct, and none of the non-empty ones lies below another. */
  ghost predicate PrefixesApart(groups: seq<Group>) {
    forall i, j :: 0 <= i < |groups| && 0 <= j < |groups| && i != j ==>
      && groups[i].prefix != groups[j].prefix
      && (groups[i].prefix != "" && groups[j].prefix != "" ==> !(groups[j].prefix + "/" <= groups[i].prefix))
  }

  ghost predicate PrefixesCanonical(groups: seq<Group>) {
    forall g :: g in groups && g.prefix != "" ==> Canonical(g.prefix) && Segments(g.prefix) != []
  }

  function GroupName(g: Group): string { g.name }

  /** Where a registration is mounted: its own API, or the one its operations declare. */
  function GroupOf(r: Registration, apiByService: map<string, string>): string
    requires r.service.Some?
  {
    if r.api != "" then r.api
    else if r.service.value in apiByService then apiByService[r.service.value]
    else ""
  }

  ghost predicate Mounted(groups: seq<Group>, name: string, service: string) {
    exists g :: g in groups && g.name == name && service in g.services
  }

  /** Groups stored under their name. */
  ghost predicate KeyedByName(groups: map<string, Group>) {
    forall n :: n in groups ==> groups[n].name == n
  }

  /** One group for each configured API, and only those with a configuration have a prefix. */
  ghost predicate Configured(apis: seq<ApiConfig>, groups: map<string, Group>) {
    && (forall i :: 0 <= i < |apis| ==> apis[i].name in groups && groups[apis[i].name].prefix == GroupPrefix(apis[i].prefix))
    && (forall n :: n in groups && groups[n].prefix != "" ==> IsConfigured(apis, n))
  }

  ghost predicate DistinctApiNames(apis: seq<ApiConfig>) {
    && (forall i :: 0 <= i < |apis| ==> apis[i].name != "")
    && (forall i, j :: 0 <= i < j < |apis| ==> apis[i].name != apis[j].name)
  }

  ghost predicate OnlyConfigured(apis: seq<ApiConfig>, groups: map<string, Group>) {
    forall n :: n in groups ==> groups[n].services == [] && IsConfigured(apis, n)
  }

  ghost predicate IsConfigured(apis: seq<ApiConfig>, name: string) {
    exists i :: 0 <= i < |apis| && apis[i].name == name
  }

  lemma ConfigureStep(apis: seq<ApiConfig>, groups: map<string, Group>, a: ApiConfig, g: Group)
    requires DistinctApiNames(apis) && KeyedByName(groups) && Configured(apis, groups) && OnlyConfigured(apis, groups)
    requires a.name != "" && a.name !in groups && g == Group(a.name, GroupPrefix(a.prefix), [])
    ensures DistinctApiNames(apis + [a]) && KeyedByName(groups[a.name := g])
    ensures Configured(apis + [a], groups[a.name := g]) && OnlyConfigured(apis + [a], groups[a.name := g])
  {
    NamesConfigured(apis, a);
    DistinctStep(apis, groups, a);
    GroupsConfigured(apis, groups, a, g);
  }

  lemma DistinctStep(apis: seq<ApiConfig>, groups: map<string, Group>, a: ApiConfig)
    requires DistinctApiNames(apis) && Configured(apis, groups) && a.name != "" && a.name !in groups
    ensures DistinctApiNames(apis + [a])
  {
  }

  lemma GroupsConfigured(apis: seq<ApiConfig>, groups: map<string, Group>, a: ApiConfig, g: Group)
    requires Configured(apis, groups) && a.name !in groups && g == Group(a.name, GroupPrefix(a.prefix), [])
    ensures Configured(apis + [a], groups[a.name := g])
  {
    NamesConfigured(apis, a);
    var more := apis + [a];
    assert forall i :: 0 <= i < |apis| ==> more[i] == apis[i];
  }

  lemma NamesConfigured(apis: seq<ApiConfig>, a: ApiConfig)
    ensures forall n :: IsConfigured(apis + [a], n) <==> IsConfigured(apis, n) || n == a.name
  {
    var more := apis + [a];
    assert more[|apis|] == a;
    forall n | IsConfigured(apis, n)
      ensures IsConfigured(more, n)
    {
      var i :| 0 <= i < |apis| && apis[i].name == n;
      assert more[i] == apis[i];
    }
  }

  method ConfigureGroups(apis: seq<ApiConfig>) returns (r: Option<map<string, Group>>)
    ensures r.Some? <==> DistinctApiNames(apis)
    ensures r.Some? ==> KeyedByName(r.value) && Configured(apis, r.value) && OnlyConfigured(apis, r.value)
  {
    var groups: map<string, Group> := map[];
    for i := 0 to |apis|
      invariant DistinctApiNames(apis[..i]) && KeyedByName(groups)
      invariant Configured(apis[..i], groups) && OnlyConfigured(apis[..i], groups)
    {
      var a := apis[i];
      assert apis[..i + 1] == apis[..i] + [a];
      if a.name == "" || a.name in groups {
        return None;
      }
      var prefix := ComputePrefix(a.prefix);
      ConfigureStep(apis[..i], groups, a, Group(a.name, prefix, []));
      groups := groups[a.name := Group(a.name, prefix, [])];
    }
    assert apis[..|apis|] == apis;
    return Some(groups);
  }

  /** Operation i is the last of its service among the first n. */
  ghost predicate LastOfService(ops: seq<SurfaceOp>, n: nat, i: nat)
    requires i < n <= |ops|
  {
    forall j :: i < j < n ==> ops[j].operation.service != ops[i].operation.service
  }

  /** m gives each service of the first n operations the API of its last operation, and no other service any. */
  ghost predicate ApisOfFirst(ops: seq<SurfaceOp>, n: nat, m: map<string, string>)
    requires n <= |ops|
  {
    && (forall i: nat :: i < n ==> ops[i].operation.service in m)
    && (forall i: nat :: i < n && LastOfService(ops, n, i) ==> m[ops[i].operation.service] == ops[i].operation.api)
    && (forall s :: s in m ==> exists i: nat :: i < n && ops[i].operation.service == s && LastOfService(ops, n, i))
  }

  ghost predicate ApisOf(ops: seq<SurfaceOp>, m: map<string, string>) {
    ApisOfFirst(ops, |ops|, m)
  }

  lemma LastStays(ops: seq<SurfaceOp>, n: nat, i: nat)
    requires i < n < |ops|
    ensures LastOfService(ops, n + 1, i) <==>
              LastOfService(ops, n, i) && ops[i].operation.service != ops[n].operation.service
  {
  }

  lemma ApisGiven(ops: seq<SurfaceOp>, n: nat, m: map<string, string>, i: nat)
    requires i <= n < |ops| && ApisOfFirst(ops, n, m) && LastOfService(ops, n + 1, i)
    ensures m[ops[n].operation.service := ops[n].operation.api][ops[i].operation.service] == ops[i].operation.api
  {
    if i < n { LastStays(ops, n, i); }
  }

  lemma ApisFound(ops: seq<SurfaceOp>, n: nat, m: map<string, string>, s: string) returns (i: nat)
    requires n < |ops| && ApisOfFirst(ops, n, m) && (s in m || s == ops[n].operation.service)
    ensures i <= n && ops[i].operation.service == s && LastOfService(ops, n + 1, i)
  {
    if s == ops[n].operation.service {
      i := n;
    } else {
      i :| i < n && ops[i].operation.service == s && LastOfService(ops, n, i);
      LastStays(ops, n, i);
    }
  }

  lemma ApisStep(ops: seq<SurfaceOp>, n: nat, m: map<string, string>)
    requires n < |ops| && ApisOfFirst(ops, n, m)
    ensures ApisOfFirst(ops, n + 1, m[ops[n].operation.service := ops[n].operation.api])
  {
    var next := m[ops[n].operation.service := ops[n].operation.api];
    forall i: nat | i < n + 1 && LastOfService(ops, n + 1, i)
      ensures next[ops[i].operation.service] == ops[i].operation.api
    {
      ApisGiven(ops, n, m, i);
    }
    forall s | s in next
      ensures exists i: nat :: i < n + 1 && ops[i].operation.service == s && LastOfService(ops, n + 1, i)
    {
      var i := ApisFound(ops, n, m, s);
    }
  }

  method ApiByService(ops: seq<SurfaceOp>) returns (m: map<string, string>)
    ensures ApisOf(ops, m)
  {
    m := map[];
    for i := 0 to |ops|
      invariant ApisOfFirst(ops, i, m)
    {
      ApisStep(ops, i, m);
      m := m[ops[i].operation.service := ops[i].operation.api];
    }
  }

  /** The operations of a service agree on their API. */
  ghost predicate OneApi(ops: seq<SurfaceOp>, service: string) {
    forall a, b :: a in ops && b in ops && a.operation.service == service && b.operation.service == service ==>
      a.operation.api == b.operation.api
  }

  /** A service whose operations agree has the API of each of them. */
  lemma AgreedApi(ops: seq<SurfaceOp>, m: map<string, string>, op: SurfaceOp)
    requires ApisOf(ops, m) && op in ops && OneApi(ops, op.operation.service)
    ensures op.operation.service in m && m[op.operation.service] == op.operation.api
  {
    var k: nat :| k < |ops| && ops[k] == op;
    var i: nat :| i < |ops| && ops[i].operation.service == op.operation.service && LastOfService(ops, |ops|, i);
    assert ops[i] in ops;
  }

  /** The source's table leaves no choice. */
  lemma ApisUnique(ops: seq<SurfaceOp>, a: map<string, string>, b: map<string, string>)
    requires ApisOf(ops, a) && ApisOf(ops, b)
    ensures a == b
  {
    forall s | s in a || s in b
      ensures s in a && s in b && a[s] == b[s]
    {
      var i: nat :| i < |ops| && ops[i].operation.service == s && LastOfService(ops, |ops|, i);
    }
  }

  /** All registrations; those under an API default to it. */
  function AllRegistrations(services: seq<Registration>, apis: seq<ApiConfig>): seq<Registration> {
    if apis == [] then services
    else
      var a := apis[|apis| - 1];
      AllRegistrations(services, apis[..|apis| - 1])
      + Map((r: Registration) => if r.api == "" then r.(api := a.name) else r, a.services)
  }

  /** A registration may not contradict its proto, unless it says so. */
  predicate Agrees(r: Registration, apiByService: map<string, string>)
    requires r.service.Some?
  {
    var derived := if r.service.value in apiByService then apiByService[r.service.value] else "";
    r.api == "" || derived == "" || r.api == derived || r.allowMismatch
  }

  /** Groups keep their prefixes; new ones have none. */
  ghost predicate SamePrefixes(before: map<string, Group>, after: map<string, Group>) {
    && before.Keys <= after.Keys
    && forall n :: n in after ==> after[n].prefix == if n in before then before[n].prefix else ""
  }

  ghost predicate Placed(regs: seq<Registration>, apiByService: map<string, string>, groups: map<string, Group>) {
    forall i :: 0 <= i < |regs| && regs[i].service.Some? ==>
      && Agrees(regs[i], apiByService)
      && GroupOf(regs[i], apiByService) in groups
      && regs[i].service.value in groups[GroupOf(regs[i], apiByService)].services
  }

  /** Some registration puts service in the group of that name. */
  ghost predicate PlacedBy(regs: seq<Registration>, apiByService: map<string, string>, name: string, service: string) {
    exists i :: 0 <= i < |regs| && regs[i].service == Some(service) && GroupOf(regs[i], apiByService) == name
  }

  ghost predicate IsPlaced(regs: seq<Registration>, apiByService: map<string, string>, name: string) {
    exists service :: PlacedBy(regs, apiByService, name, service)
  }

  /** New groups and all mounted services come from registrations. */
  ghost predicate OnlyPlaced(start: map<string, Group>, regs: seq<Registration>, apiByService: map<string, string>,
                             groups: map<string, Group>) {
    && (forall n :: n in groups && n !in start ==> IsPlaced(regs, apiByService, n))
    && (forall n, s :: n in groups && s in groups[n].services ==> PlacedBy(regs, apiByService, n, s))
  }

  lemma OnlyPlacedGrows(start: map<string, Group>, regs: seq<Registration>, apiByService: map<string, string>,
                        groups: map<string, Group>, reg: Registration)
    requires OnlyPlaced(start, regs, apiByService, groups)
    ensures OnlyPlaced(start, regs + [reg], apiByService, groups)
  {
    var more := regs + [reg];
    forall n, s | PlacedBy(regs, apiByService, n, s)
      ensures PlacedBy(more, apiByService, n, s)
    {
      var i :| 0 <= i < |regs| && regs[i].service == Some(s) && GroupOf(regs[i], apiByService) == n;
      assert more[i] == regs[i];
    }
    forall n | n in groups && n !in start
      ensures IsPlaced(more, apiByService, n)
    {
      var s :| PlacedBy(regs, apiByService, n, s);
    }
  }

  lemma OnlyPlacedStep(start: map<string, Group>, regs: seq<Registration>, apiByService: map<string, string>,
                       groups: map<string, Group>, reg: Registration, g: Group)
    requires OnlyPlaced(start, regs, apiByService, groups) && reg.service.Some?
    requires var api := GroupOf(reg, apiByService);
             g == (if api in groups then groups[api] else Group(api, "", []))
    ensures OnlyPlaced(start, regs + [reg], apiByService,
                       groups[GroupOf(reg, apiByService) := g.(services := g.services + [reg.service.value])])
  {
    var more, api := regs + [reg], GroupOf(reg, apiByService);
    OnlyPlacedGrows(start, regs, apiByService, groups, reg);
    assert more[|regs|] == reg;
    assert PlacedBy(more, apiByService, api, reg.service.value);
  }

  lemma KeyedStep(start: map<string, Group>, groups: map<string, Group>, api: string, g: Group, services: seq<string>)
    requires KeyedByName(groups) && SamePrefixes(start, groups)
    requires g == if api in groups then groups[api] else Group(api, "", [])
    ensures KeyedByName(groups[api := g.(services := services)]) && SamePrefixes(start, groups[api := g.(services := services)])
  {
  }

  lemma PlacedAlready(regs: seq<Registration>, apiByService: map<string, string>, groups: map<string, Group>, reg: Registration)
    requires Placed(regs, apiByService, groups) && reg.service.Some? && Agrees(reg, apiByService)
    ensures var api := GroupOf(reg, apiByService);
            api in groups && reg.service.value in groups[api].services ==> Placed(regs + [reg], apiByService, groups)
  {
    var more := regs + [reg];
    assert forall i :: 0 <= i < |regs| ==> more[i] == regs[i];
  }

  lemma PlacedStep(regs: seq<Registration>, apiByService: map<string, string>, groups: map<string, Group>,
                   reg: Registration, g: Group)
    requires Placed(regs, apiByService, groups) && reg.service.Some? && Agrees(reg, apiByService)
    requires var api := GroupOf(reg, apiByService);
             g == (if api in groups then groups[api] else Group(api, "", []))
    ensures Placed(regs + [reg], apiByService,
                   groups[GroupOf(reg, apiByService) := g.(services := g.services + [reg.service.value])])
  {
    var more := regs + [reg];
    assert forall i :: 0 <= i < |regs| ==> more[i] == regs[i];
  }

  /** Puts one service into its group, once. */
  method PlaceOne(ghost start: map<string, Group>, ghost regs: seq<Registration>, apiByService: map<string, string>,
                  before: map<string, Group>, reg: Registration) returns (groups: map<string, Group>)
    requires KeyedByName(before) && SamePrefixes(start, before)
    requires Placed(regs, apiByService, before) && OnlyPlaced(start, regs, apiByService, before)
    requires reg.service.Some? && Agrees(reg, apiByService)
    ensures KeyedByName(groups) && SamePrefixes(start, groups)
    ensures Placed(regs + [reg], apiByService, groups) && OnlyPlaced(start, regs + [reg], apiByService, groups)
  {
    PlacedAlready(regs, apiByService, before, reg);
    var api := GroupOf(reg, apiByService);
    var service := reg.service.value;
    var g := if api in before then before[api] else Group(api, "", []);
    OnlyPlacedGrows(start, regs, apiByService, before, reg);
    if service in g.services {
      return before;
    }
    KeyedStep(start, before, api, g, g.services + [service]);
    OnlyPlacedStep(start, regs, apiByService, before, reg, g);
    PlacedStep(regs, apiByService, before, reg, g);
    return before[api := g.(services := g.services + [service])];
  }

  method PlaceRegistrations(start: map<string, Group>, regs: seq<Registration>, apiByService: map<string, string>)
    returns (r: Option<map<string, Group>>)
    requires KeyedByName(start) && forall n :: n in start ==> start[n].services == []
    ensures r.Some? <==> forall i :: 0 <= i < |regs| && regs[i].service.Some? ==> Agrees(regs[i], apiByService)
    ensures r.Some? ==> KeyedByName(r.value) && SamePrefixes(start, r.value) && Placed(regs, apiByService, r.value)
    ensures r.Some? ==> OnlyPlaced(start, regs, apiByService, r.value)
  {
    var groups := start;
    for i := 0 to |regs|
      invariant KeyedByName(groups) && SamePrefixes(start, groups)
      invariant forall j :: 0 <= j < i && regs[j].service.Some? ==> Agrees(regs[j], apiByService)
      invariant Placed(regs[..i], apiByService, groups)
      invariant OnlyPlaced(start, regs[..i], apiByService, groups)
    {
      var reg := regs[i];
      TakeNext(regs, i);
      if reg.service.None? {
        OnlyPlacedGrows(start, regs[..i], apiByService, groups, reg);
        continue;
      }
      if !Agrees(reg, apiByService) {
        return None;
      }
      groups := PlaceOne(start, regs[..i], apiByService, groups, reg);
    }
    assert regs[..|regs|] == regs;
    return Some(groups);
  }

  method CheckPrefixes(groups: seq<Group>) returns (ok: bool)
    ensures ok <==> PrefixesApart(groups)
  {
    for i := 0 to |groups|
      invariant forall a, b :: 0 <= a < i && 0 <= b < |groups| && a != b ==> Apart(groups[a].prefix, groups[b].prefix)
    {
      for j := 0 to |groups|
        invariant forall b :: 0 <= b < j && b != i ==> Apart(groups[i].prefix, groups[b].prefix)
      {
        if i != j && !Apart(groups[i].prefix, groups[j].prefix) {
          return false;
        }
      }
    }
    return true;
  }

  predicate Apart(a: string, b: string) {
    a != b && (a != "" && b != "" ==> !(b + "/" <= a))
  }

  ghost predicate HasGroup(groups: seq<Group>, name: string, prefix: string) {
    exists g :: g in groups && g.name == name && g.prefix == prefix
  }

  /** The groups a configuration and its registrations call for. */
  ghost predicate GroupsMatch(apis: seq<ApiConfig>, regs: seq<Registration>, apiByService: map<string, string>, groups: seq<Group>) {
    && DistinctApiNames(apis) && StrictlySorted(Map(GroupName, groups)) && PrefixesCanonical(groups)
    && (forall i :: 0 <= i < |apis| ==> HasGroup(groups, apis[i].name, GroupPrefix(apis[i].prefix)))
    && (forall g :: g in groups && g.prefix != "" ==> exists i :: 0 <= i < |apis| && apis[i].name == g.name)
    && (forall i :: 0 <= i < |regs| && regs[i].service.Some? ==>
          Agrees(regs[i], apiByService) && Mounted(groups, GroupOf(regs[i], apiByService), regs[i].service.value))
    && NothingElse(apis, regs, apiByService, groups)
  }

  /** Every group is configured or needed by a registration, and so is every service in it. */
  ghost predicate NothingElse(apis: seq<ApiConfig>, regs: seq<Registration>, apiByService: map<string, string>, groups: seq<Group>) {
    && (forall g :: g in groups ==> IsConfigured(apis, g.name) || IsPlaced(regs, apiByService, g.name))
    && (forall g, s :: g in groups && s in g.services ==> PlacedBy(regs, apiByService, g.name, s))
  }

  /** What buildGroups guarantees of its groups. */
  ghost predicate GoodGroups(apis: seq<ApiConfig>, regs: seq<Registration>, apiByService: map<string, string>, groups: seq<Group>) {
    GroupsMatch(apis, regs, apiByService, groups) && PrefixesApart(groups)
  }

  method ListGroups(groups: map<string, Group>) returns (list: seq<Group>)
    requires KeyedByName(groups)
    ensures StrictlySorted(Map(GroupName, list))
    ensures forall g :: g in list <==> g.name in groups && groups[g.name] == g
  {
    var found: seq<Group> := [];
    var todo := groups.Keys;
    while todo != {}
      invariant todo <= groups.Keys
      invariant forall g :: g in found <==> g.name in groups.Keys - todo && groups[g.name] == g
      invariant forall i, j :: 0 <= i < j < |found| ==> found[i].name != found[j].name
      decreases todo
    {
      var n :| n in todo;
      todo := todo - {n};
      found := found + [groups[n]];
    }
    list := SortSlice(found, GroupName);
    SortDistinct(found, list, GroupName);
    assert forall g :: g in list <==> g in multiset(list);
    assert forall g :: g in found <==> g in multiset(found);
  }

  /** Succeeds exactly when groups meeting all requirements exist, and returns such groups. */
  method BuildGroups(apis: seq<ApiConfig>, services: seq<Registration>, ops: seq<SurfaceOp>)
    returns (r: Option<seq<Group>>, apiByService: map<string, string>)
    ensures ApisOf(ops, apiByService)
    ensures r.Some? ==> GoodGroups(apis, AllRegistrations(services, apis), apiByService, r.value)
    ensures r.None? ==> forall groups :: !GoodGroups(apis, AllRegistrations(services, apis), apiByService, groups)
  {
    apiByService := ApiByService(ops);
    var configured := ConfigureGroups(apis);
    if configured.None? {
      return None, apiByService;
    }
    var regs := AllRegistrations(services, apis);
    var placed := PlaceRegistrations(configured.value, regs, apiByService);
    if placed.None? {
      return None, apiByService;
    }
    var list := ListGroups(placed.value);
    GroupsAreListed(apis, regs, apiByService, configured.value, placed.value, list);
    var ok := CheckPrefixes(list);
    if !ok {
      forall groups ensures !GoodGroups(apis, regs, apiByService, groups) {
        if GoodGroups(apis, regs, apiByService, groups) {
          ApartIsDetermined(apis, regs, apiByService, list, groups);
        }
      }
      return None, apiByService;
    }
    return Some(list), apiByService;
  }

  lemma GroupsAreListed(apis: seq<ApiConfig>, regs: seq<Registration>, apiByService: map<string, string>,
                        configured: map<string, Group>, placed: map<string, Group>, list: seq<Group>)
    requires DistinctApiNames(apis) && OnlyConfigured(apis, configured)
    requires KeyedByName(placed) && Configured(apis, configured) && SamePrefixes(configured, placed)
    requires Placed(regs, apiByService, placed) && OnlyPlaced(configured, regs, apiByService, placed)
    requires StrictlySorted(Map(GroupName, list))
    requires forall g :: g in list <==> g.name in placed && placed[g.name] == g
    ensures GroupsMatch(apis, regs, apiByService, list)
  {
    ConfiguredGroupsListed(apis, configured, placed, list);
    PlacedGroupsListed(regs, apiByService, placed, list);
  }

  /** Matching groups agree on names and prefixes. */
  lemma Twin(apis: seq<ApiConfig>, regs: seq<Registration>, apiByService: map<string, string>,
             a: seq<Group>, b: seq<Group>, g: Group)
    requires GroupsMatch(apis, regs, apiByService, a) && GroupsMatch(apis, regs, apiByService, b) && g in a
    ensures HasGroup(b, g.name, g.prefix)
  {
    if IsConfigured(apis, g.name) {
      var i :| 0 <= i < |apis| && apis[i].name == g.name;
      assert HasGroup(a, g.name, GroupPrefix(apis[i].prefix));
      var h :| h in a && h.name == g.name && h.prefix == GroupPrefix(apis[i].prefix);
      SameName(a, g, h);
    } else {
      var s :| PlacedBy(regs, apiByService, g.name, s);
      var i :| 0 <= i < |regs| && regs[i].service == Some(s) && GroupOf(regs[i], apiByService) == g.name;
      assert Mounted(b, g.name, s);
    }
  }

  lemma SameName(groups: seq<Group>, g: Group, h: Group)
    requires StrictlySorted(Map(GroupName, groups)) && g in groups && h in groups && g.name == h.name
    ensures g == h
  {
    var names := Map(GroupName, groups);
    var i :| 0 <= i < |groups| && groups[i] == g;
    var j :| 0 <= j < |groups| && groups[j] == h;
    if i < j { LessAsymmetric(names[i], names[j]); }
    if j < i { LessAsymmetric(names[j], names[i]); }
  }

  /** So whether prefixes are apart does not depend on the listing. */
  lemma ApartIsDetermined(apis: seq<ApiConfig>, regs: seq<Registration>, apiByService: map<string, string>,
                          a: seq<Group>, b: seq<Group>)
    requires GroupsMatch(apis, regs, apiByService, a) && GroupsMatch(apis, regs, apiByService, b) && PrefixesApart(b)
    ensures PrefixesApart(a)
  {
    forall i, j | 0 <= i < |a| && 0 <= j < |a| && i != j
      ensures Apart(a[i].prefix, a[j].prefix)
    {
      Twin(apis, regs, apiByService, a, b, a[i]);
      Twin(apis, regs, apiByService, a, b, a[j]);
      var names := Map(GroupName, a);
      if a[i].name == a[j].name {
        if i < j { LessAsymmetric(names[i], names[j]); } else { LessAsymmetric(names[j], names[i]); }
      }
      var k :| 0 <= k < |b| && b[k].name == a[i].name && b[k].prefix == a[i].prefix;
      var l :| 0 <= l < |b| && b[l].name == a[j].name && b[l].prefix == a[j].prefix;
      assert k != l;
    }
  }

  lemma ConfiguredGroupsListed(apis: seq<ApiConfig>, configured: map<string, Group>, placed: map<string, Group>, list: seq<Group>)
    requires KeyedByName(placed) && Configured(apis, configured) && SamePrefixes(configured, placed)
    requires forall g :: g in list <==> g.name in placed && placed[g.name] == g
    ensures forall i :: 0 <= i < |apis| ==> HasGroup(list, apis[i].name, GroupPrefix(apis[i].prefix))
    ensures forall g :: g in list && g.prefix != "" ==> exists i :: 0 <= i < |apis| && apis[i].name == g.name
    ensures PrefixesCanonical(list)
  {
    forall i | 0 <= i < |apis|
      ensures HasGroup(list, apis[i].name, GroupPrefix(apis[i].prefix))
    {
      assert placed[apis[i].name] in list;
    }
    forall g | g in list && g.prefix != ""
      ensures exists i :: 0 <= i < |apis| && apis[i].name == g.name
      ensures Canonical(g.prefix) && Segments(g.prefix) != []
    {
      var i :| 0 <= i < |apis| && apis[i].name == g.name;
      GroupPrefixShape(apis[i].prefix);
    }
  }

  lemma PlacedGroupsListed(regs: seq<Registration>, apiByService: map<string, string>, placed: map<string, Group>, list: seq<Group>)
    requires KeyedByName(placed) && Placed(regs, apiByService, placed)
    requires forall g :: g in list <==> g.name in placed && placed[g.name] == g
    ensures forall i :: 0 <= i < |regs| && regs[i].service.Some? ==>
              Agrees(regs[i], apiByService) && Mounted(list, GroupOf(regs[i], apiByService), regs[i].service.value)
  {
    forall i | 0 <= i < |regs| && regs[i].service.Some?
      ensures Mounted(list, GroupOf(regs[i], apiByService), regs[i].service.value)
    {
      assert placed[GroupOf(regs[i], apiByService)] in list;
    }
  }
}
