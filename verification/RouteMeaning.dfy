/** What a built surface says of the methods and HTTP rules it comes from (surface/surface.go). */
module RouteMeaning {
  import opened Wrappers
  import opened Sorting
  import opened Paths
  import opened PolicySpec
  import opened Descriptors
  import opened Surface
  import opened Routes

  ghost predicate IsUpper(s: string, upper: string) {
    && |upper| == |s|
    && forall i :: 0 <= i < |s| ==>
         if 'a' <= s[i] <= 'z' then upper[i] as int == s[i] as int - 32 else upper[i] == s[i]
  }

  ghost predicate NamesVerb(v: Verb, name: string) {
    || (v.Get? && name == "GET")
    || (v.Post? && name == "POST")
    || (v.Put? && name == "PUT")
    || (v.Delete? && name == "DELETE")
    || (v.Patch? && name == "PATCH")
  }

  /** b is the rule as declared, at its normalised path. */
  ghost predicate Binds(rule: HttpRule, b: Binding) {
    match rule
    case NoPattern => false
    case Standard(verb, path, body, responseBody) =>
      NamesVerb(verb, b.verb) && path != "" && b.path == Normalized(path) && b.body == body && b.responseBody == responseBody
    case Custom(kind, path, body, responseBody) =>
      IsUpper(kind, b.verb) && path != "" && b.path == Normalized(path) && b.body == body && b.responseBody == responseBody
  }

  lemma BindingOfExactly(rule: HttpRule, b: Binding)
    ensures BindingOf(rule) == Some(b) <==> Binds(rule, b)
  {
    if rule.Custom? && IsUpper(rule.kind, b.verb) { assert b.verb == Upper(rule.kind); }
    if rule.Custom? && rule.path != "" { assert IsUpper(rule.kind, Upper(rule.kind)); }
  }

  /** A method with HTTP rules is public, deprecated or hidden and takes one message; one without is internal or hidden. */
  ghost predicate ExposureMatches(m: Method, e: Exposure) {
    if m.rules != [] then !m.clientStreaming && e in {ExposurePublic, ExposureDeprecated, ExposureHidden}
    else e in {ExposureInternal, ExposureHidden}
  }

  /** op is the method with the operation of its full name, its messages, and a binding for each rule, in order. */
  ghost predicate IsSurfaceOpOf(t: Endpoint, policies: map<string, Operation>, op: SurfaceOp) {
    var id := "/" + t.service.fullName + "/" + t.method_.name;
    && id in policies && op.operation == policies[id] && ExposureMatches(t.method_, policies[id].exposure)
    && op.input == t.method_.input && op.output == t.method_.output
    && |op.bindings| == |t.method_.rules|
    && forall i :: 0 <= i < |op.bindings| ==> Binds(t.method_.rules[i], op.bindings[i])
  }

  lemma SurfaceOpExactly(t: Endpoint, policies: map<string, Operation>, op: SurfaceOp)
    ensures OpFor(t, policies) == Some(op) <==> IsSurfaceOpOf(t, policies, op)
  {
    var rules := t.method_.rules;
    forall rule, b ensures BindingOf(rule) == Some(b) <==> Binds(rule, b) {
      BindingOfExactly(rule, b);
    }
    if IsSurfaceOpOf(t, policies, op) {
      forall i | 0 <= i < |rules| ensures BindingOf(rules[i]) == Some(op.bindings[i]) {
        assert Binds(rules[i], op.bindings[i]);
      }
      assert op.bindings == Map(BindingOrNone, rules);
    }
    if OpFor(t, policies) == Some(op) {
      forall i | 0 <= i < |rules| ensures Binds(rules[i], op.bindings[i]) {
        assert BindingOf(rules[i]).Some? && op.bindings[i] == BindingOrNone(rules[i]);
      }
    }
  }

  /** Every method of a service, the first of its name, is on a built surface as declared. */
  lemma MethodIsBound(services: seq<Option<Service>>, policies: map<string, Operation>, ops: seq<SurfaceOp>, i: nat, m: Method)
    returns (op: SurfaceOp)
    requires IsSortedSurface(Endpoints(services), policies, ops)
    requires i < |services| && services[i].Some? && m in services[i].value.methods
    requires !NameIn(services[..i], services[i].value.fullName)
    ensures op in ops && IsSurfaceOpOf(Endpoint(services[i].value, m), policies, op)
  {
    EveryMethodIsOnSurface(services, policies, ops, i, m);
    op :| op in ops && OpFor(Endpoint(services[i].value, m), policies) == Some(op);
    SurfaceOpExactly(Endpoint(services[i].value, m), policies, op);
  }

  lemma {:induction false} EndpointsAreMethods(services: seq<Option<Service>>, t: Endpoint) returns (i: nat)
    requires t in Endpoints(services)
    ensures i < |services| && services[i] == Some(t.service) && t.method_ in t.service.methods
    ensures !NameIn(services[..i], t.service.fullName)
  {
    var n := |services| - 1;
    if t in Endpoints(services[..n]) {
      i := EndpointsAreMethods(services[..n], t);
      assert services[..n][..i] == services[..i];
    } else {
      i := n;
      var k :| 0 <= k < |services[n].value.methods| && MethodEndpoints(services[n].value, services[n].value.methods)[k] == t;
    }
  }

  /** And nothing else is on it. */
  lemma OnlyMethodsAreBound(services: seq<Option<Service>>, policies: map<string, Operation>, ops: seq<SurfaceOp>, op: SurfaceOp)
    returns (i: nat, m: Method)
    requires IsSortedSurface(Endpoints(services), policies, ops) && op in ops
    ensures i < |services| && services[i].Some? && m in services[i].value.methods
    ensures !NameIn(services[..i], services[i].value.fullName)
    ensures IsSurfaceOpOf(Endpoint(services[i].value, m), policies, op)
  {
    var ts := Endpoints(services);
    var built :| IsSurface(ts, policies, built) && IsSortOf(built, OpId, ops);
    SameOps(built, ops);
    var k :| 0 <= k < |built| && built[k] == op;
    assert OpFor(ts[k], policies) == Some(op);
    i := EndpointsAreMethods(services, ts[k]);
    m := ts[k].method_;
    SurfaceOpExactly(ts[k], policies, op);
  }

  /** The route of a binding. */
  ghost predicate IsRouteOf(op: SurfaceOp, b: Binding, r: Route) {
    && r.source == "proto" && r.id == op.operation.id && r.api == op.operation.api
    && r.verb == b.verb && r.protoPath == b.path && r.path == b.path
  }

  /** The routes of a surface are exactly those of its bindings. */
  lemma {:induction false} RoutesAreBindings(ops: seq<SurfaceOp>, r: Route)
    ensures r in RoutesOf(ops) <==> exists op, b :: op in ops && b in op.bindings && IsRouteOf(op, b, r)
  {
    if ops != [] {
      var n := |ops| - 1;
      RoutesAreBindings(ops[..n], r);
      OpRoutesAreBindings(ops[n], r);
      assert ops == ops[..n] + [ops[n]];
    }
  }

  lemma OpRoutesAreBindings(op: SurfaceOp, r: Route)
    ensures r in RoutesOfOp(op) <==> exists b :: b in op.bindings && IsRouteOf(op, b, r)
  {
    if r in RoutesOfOp(op) {
      var i :| 0 <= i < |op.bindings| && RoutesOfOp(op)[i] == r;
      assert op.bindings[i] in op.bindings && IsRouteOf(op, op.bindings[i], r);
    }
    if b :| b in op.bindings && IsRouteOf(op, b, r) {
      var i :| 0 <= i < |op.bindings| && op.bindings[i] == b;
      assert RoutesOfOp(op)[i] == r;
    }
  }
}
