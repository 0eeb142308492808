/** What holds of every document that Build returns. */
module OpenApiTheorems {
  import opened Wrappers
  import opened Text
  import opened Surface
  import opened OpenApiModel
  import opened OpenApiBuilder
  import opened OpenApiDocument

  // ---- no dangling references ----

  ghost predicate OptionRefsIn(s: Option<Schema>, names: set<string>) {
    s.Some? ==> RefsIn(s.value, names)
  }

  ghost predicate OperationRefsIn(d: OperationDoc, names: set<string>) {
    && (forall i :: 0 <= i < |d.parameters| ==> RefsIn(d.parameters[i].schema, names))
    && (d.body.Some? ==> OptionRefsIn(d.body.value, names))
    && (d.response.Some? ==> OptionRefsIn(d.response.value, names))
  }

  /** Every $ref of the document, in paths or in components, resolves. */
  ghost predicate NoDanglingRefs(d: Document) {
    && (forall k :: k in d.paths ==> OperationRefsIn(d.paths[k], d.schemas.Keys))
    && (forall n :: n in d.schemas ==> RefsIn(d.schemas[n], d.schemas.Keys))
  }

  lemma SingularRefs(k: Kind, names: set<string>)
    requires KindRefs(k) <= names
    ensures RefsIn(SingularSchemaOf(k), names)
  {
    match k
    case MessageKind(m) => assert m in names && SingularSchemaOf(k).ref == REF_PREFIX + m;
    case GroupKind(m) => assert m in names && SingularSchemaOf(k).ref == REF_PREFIX + m;
    case _ =>
  }

  lemma FieldSchemaRefs(f: Field, names: set<string>)
    requires FieldRefs(f) <= names
    ensures RefsIn(FieldSchemaOf(f), names)
  {
    match f.shape
    case Singular(k) => SingularRefs(k, names);
    case Repeated(k) => SingularRefs(k, names);
    case MapOf(_, v) => SingularRefs(v, names);
  }

  lemma {:induction false} PropertiesRefs(fields: seq<Field>, names: set<string>)
    requires AllFieldRefs(fields) <= names
    ensures forall k :: k in Properties(fields) ==> RefsIn(Properties(fields)[k], names)
  {
    if fields != [] {
      var init, last := fields[..|fields| - 1], fields[|fields| - 1];
      assert last in fields;
      assert AllFieldRefs(init) <= AllFieldRefs(fields) && FieldRefs(last) <= AllFieldRefs(fields);
      PropertiesRefs(init, names);
      FieldSchemaRefs(last, names);
    }
  }

  lemma WellKnownRefs(name: string, names: set<string>)
    requires WellKnownSchema(name).Some?
    ensures RefsIn(WellKnownSchema(name).value, names)
  {
  }

  lemma ComponentRefs(u: Universe, n: string, names: set<string>)
    requires n in u && Succ(u, n) <= names
    ensures RefsIn(SchemaOf(u, n), names)
  {
    if WellKnownSchema(n).Some? {
      WellKnownRefs(n, names);
    } else {
      PropertiesRefs(u[n].fields, names);
    }
  }

  lemma PathSchemaRefs(u: Universe, input: string, path: string, names: set<string>)
    requires PathRefs(u, input, path) <= names
    ensures OptionRefsIn(PathSchemaOf(u, input, path), names)
  {
    var f := FieldAt(u, Some(input), Split(path, '.'));
    if f.Some? { FieldSchemaRefs(f.value, names); }
  }

  lemma QueryParamRefs(f: Field, names: set<string>)
    ensures RefsIn(QueryParam(f).schema, names)
  {
  }

  lemma MessageRefIn(n: string, names: set<string>)
    requires n in names
    ensures RefsIn(RefSchema(n), names)
  {
    assert RefSchema(n).ref == REF_PREFIX + n;
  }

  lemma ParameterRefs(u: Universe, op: SurfaceOp, b: Binding, path: string, d: OperationDoc, names: set<string>, i: nat)
    requires op.input in u && IsProtoDoc(u, op, b, path, d) && i < |d.parameters|
    requires VarRefs(u, op.input, VarsOf(path)) <= names
    ensures RefsIn(d.parameters[i].schema, names)
  {
    var vars := VarsOf(path);
    if i < |vars| {
      assert vars[i] in vars;
      assert PathRefs(u, op.input, vars[i]) <= VarRefs(u, op.input, vars);
      PathSchemaRefs(u, op.input, vars[i], names);
    } else {
      var query := d.parameters[|vars|..];
      assert query[i - |vars|] == d.parameters[i];
      assert IsQueryParam(u[op.input].fields, Consumed(path), query[i - |vars|]);
      var f :| f in u[op.input].fields && query[i - |vars|] == QueryParam(f);
      QueryParamRefs(f, names);
    }
  }

  lemma ProtoDocRefs(u: Universe, op: SurfaceOp, b: Binding, path: string, d: OperationDoc, names: set<string>)
    requires op.input in u && op.output in u && IsProtoDoc(u, op, b, path, d)
    requires BindingRoots(u, op, b, path) <= names
    ensures OperationRefsIn(d, names)
  {
    forall i | 0 <= i < |d.parameters|
      ensures RefsIn(d.parameters[i].schema, names)
    {
      ParameterRefs(u, op, b, path, d, names, i);
    }
    if b.responseBody == "" {
      MessageRefIn(op.output, names);
    } else {
      PathSchemaRefs(u, op.output, b.responseBody, names);
    }
    if b.body == "*" {
      MessageRefIn(op.input, names);
    } else if b.body != "" {
      PathSchemaRefs(u, op.input, b.body, names);
    }
  }

  /** Roots are reachable from themselves, so a document's roots have components. */
  lemma RootsInTable(u: Universe, ops: seq<SurfaceOp>, final: map<string, string>, op: SurfaceOp, b: Binding)
    requires Resolved(u) && forall o :: o in ops ==> o.input in u && o.output in u
    requires op in ops && b in op.bindings && Served(final, b)
    ensures BindingRoots(u, op, b, DeployedPath(final, b)) <= ReachSet(u, RequestedRoots(u, ops, final))
  {
    forall n | n in BindingRoots(u, op, b, DeployedPath(final, b))
      ensures n in ReachSet(u, RequestedRoots(u, ops, final))
    {
      assert n in RequestedRoots(u, ops, final);
      ReachableSelf(u, n);
      BindingRootsKnown(u, op, b, DeployedPath(final, b));
    }
  }

  lemma {:induction false} PathRefsKnown(u: Universe, md: Option<string>, segs: seq<string>)
    requires Resolved(u) && |segs| > 0
    ensures FieldAt(u, md, segs).Some? ==> FieldRefs(FieldAt(u, md, segs).value) <= u.Keys
    decreases segs
  {
    if md.Some? && md.value in u {
      var fd := FieldNamed(u[md.value].fields, segs[0]);
      if fd.Some? && |segs| > 1 {
        PathRefsKnown(u, FieldMessage(fd.value), segs[1..]);
      }
    }
  }

  lemma BindingRootsKnown(u: Universe, op: SurfaceOp, b: Binding, path: string)
    requires Resolved(u) && op.input in u && op.output in u
    ensures BindingRoots(u, op, b, path) <= u.Keys
  {
    PathRefsKnown(u, Some(op.output), Split(b.responseBody, '.'));
    PathRefsKnown(u, Some(op.input), Split(b.body, '.'));
    forall v | v in VarsOf(path)
      ensures PathRefs(u, op.input, v) <= u.Keys
    {
      PathRefsKnown(u, Some(op.input), Split(v, '.'));
    }
  }

  lemma ReachSetClosed(u: Universe, roots: set<string>, n: string)
    requires Resolved(u) && n in ReachSet(u, roots)
    ensures Succ(u, n) <= ReachSet(u, roots)
  {
    var r :| r in roots && Reachable(u, r, n);
    var p :| IsPath(u, p) && p[0] == r && p[|p| - 1] == n;
    forall m | m in Succ(u, n)
      ensures m in ReachSet(u, roots)
    {
      var q := p + [m];
      forall i | 0 <= i < |q| - 1
        ensures q[i] in u && q[i + 1] in Succ(u, q[i])
      {
        if i < |p| - 1 { assert q[i + 1] == p[i + 1]; }
      }
      assert IsPath(u, q) && q[0] == r && q[|q| - 1] == m;
      var f :| f in u[n].fields && m in FieldRefs(f);
      assert FieldRefs(f) <= u.Keys;
    }
  }

  /** Every $ref anywhere in a built document names a component of that document. */
  lemma BuiltDocumentHasNoDanglingRefs(u: Universe, ops: seq<SurfaceOp>, routes: seq<Route>, d: Document)
    requires Resolved(u) && forall op :: op in ops ==> op.input in u && op.output in u
    requires IsDocument(u, ops, routes, d)
    ensures NoDanglingRefs(d)
  {
    var final := FinalPaths(routes);
    var roots := RequestedRoots(u, ops, final);
    forall n | n in d.schemas
      ensures RefsIn(d.schemas[n], d.schemas.Keys)
    {
      ReachSetClosed(u, roots, n);
      ComponentRefs(u, n, d.schemas.Keys);
    }
    forall k | k in d.paths
      ensures OperationRefsIn(d.paths[k], d.schemas.Keys)
    {
      var w := LastWrite(Writes(ops, routes), k).value;
      OpWritesMembers(ops, final, w);
      ExtraWritesMembers(routes, w);
      if w.ProtoWrite? {
        var op, b := w.op, w.binding;
        RootsInTable(u, ops, final, op, b);
        ProtoDocRefs(u, op, b, k.0, d.paths[k], d.schemas.Keys);
      }
    }
  }

  // ---- order independence ----

  lemma {:induction false} FinalPathsLookup(routes: seq<Route>, key: string)
    requires DistinctKeys(ProtoRoutes(routes))
    ensures key in FinalPaths(routes) <==>
            exists r :: r in routes && r.source == "proto" && RouteKey(r.verb, r.protoPath) == key
    ensures forall r :: r in routes && r.source == "proto" && RouteKey(r.verb, r.protoPath) == key ==>
              key in FinalPaths(routes) && FinalPaths(routes)[key] == r.path
  {
    if routes != [] {
      var init, last := routes[..|routes| - 1], routes[|routes| - 1];
      DistinctKeysInit(init, last);
      assert routes == init + [last];
      FinalPathsLookup(init, key);
    }
  }

  lemma DistinctKeysInit(init: seq<Route>, last: Route)
    requires DistinctKeys(ProtoRoutes(init + [last]))
    ensures DistinctKeys(ProtoRoutes(init))
    ensures forall r :: r in init && r.source == "proto" && last.source == "proto" ==>
              RouteKey(r.verb, r.protoPath) != RouteKey(last.verb, last.protoPath)
  {
    assert (init + [last])[..|init|] == init;
    var few, more := ProtoRoutes(init), ProtoRoutes(init + [last]);
    assert forall i :: 0 <= i < |few| ==> more[i] == few[i];
    forall r | r in init && r.source == "proto" && last.source == "proto"
      ensures RouteKey(r.verb, r.protoPath) != RouteKey(last.verb, last.protoPath)
    {
      ProtoRoutesMembers(init, r);
      var i :| 0 <= i < |few| && few[i] == r;
      assert more[|few|] == last;
    }
  }

  lemma FinalPathsPermuted(r1: seq<Route>, r2: seq<Route>)
    requires DistinctKeys(ProtoRoutes(r1)) && DistinctKeys(ProtoRoutes(r2)) && multiset(r1) == multiset(r2)
    ensures FinalPaths(r1) == FinalPaths(r2)
  {
    assert forall r :: r in r1 <==> r in multiset(r1);
    assert forall r :: r in r2 <==> r in multiset(r2);
    forall key
      ensures key in FinalPaths(r1) <==> key in FinalPaths(r2)
      ensures key in FinalPaths(r1) ==> FinalPaths(r1)[key] == FinalPaths(r2)[key]
    {
      FinalPathsLookup(r1, key);
      FinalPathsLookup(r2, key);
    }
  }

  lemma TableUnique(u: Universe, roots: set<string>, t1: map<string, Schema>, t2: map<string, Schema>)
    requires IsTableOf(u, roots, t1) && IsTableOf(u, roots, t2)
    ensures t1 == t2
  {
    forall n | n in t1
      ensures n in t2 && t1[n] == t2[n]
    {
      assert n in t2.Keys;
    }
  }

  lemma RootsPermuted(u: Universe, ops1: seq<SurfaceOp>, ops2: seq<SurfaceOp>, final: map<string, string>)
    requires multiset(ops1) == multiset(ops2)
    ensures RequestedRoots(u, ops1, final) == RequestedRoots(u, ops2, final)
  {
    assert forall op :: op in ops1 <==> op in multiset(ops1);
    assert forall op :: op in ops2 <==> op in multiset(ops2);
  }

  /** The component table does not depend on the order of operations or routes. */
  lemma TableIgnoresOrder(u: Universe, ops1: seq<SurfaceOp>, ops2: seq<SurfaceOp>, r1: seq<Route>, r2: seq<Route>,
                          d1: Document, d2: Document)
    requires Resolved(u) && forall op :: op in ops1 || op in ops2 ==> op.input in u && op.output in u
    requires multiset(ops1) == multiset(ops2) && multiset(r1) == multiset(r2)
    requires DistinctKeys(ProtoRoutes(r1)) && DistinctKeys(ProtoRoutes(r2))
    requires IsDocument(u, ops1, r1, d1) && IsDocument(u, ops2, r2, d2)
    ensures d1.schemas == d2.schemas
  {
    FinalPathsPermuted(r1, r2);
    var final := FinalPaths(r1);
    RootsPermuted(u, ops1, ops2, final);
    TableUnique(u, RequestedRoots(u, ops1, final), d1.schemas, d2.schemas);
  }
}
