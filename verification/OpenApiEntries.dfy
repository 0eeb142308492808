/** What an entry of a built document says about the binding it documents. */
module OpenApiEntries {
  import opened Wrappers
  import opened Text
  import opened Surface
  import opened OpenApiModel
  import opened OpenApiBuilder
  import opened OpenApiDocument
  import OpenApiTheorems
  import PolicySpec
  import opened OpenApiMeaning

  // ---- the field a path denotes ----

  ghost predicate IsNamed(u: Universe, m: string, name: string, f: Field) {
    && m in u
    && exists i :: 0 <= i < |u[m].fields| && u[m].fields[i] == f && f.name == name && NameAbsent(u[m].fields[..i], name)
  }

  /** The message in which step i of a path is looked up. */
  ghost predicate LooksIn(input: string, fs: seq<Field>, i: nat, m: string)
    requires i <= |fs|
  {
    if i == 0 then m == input else FieldMessage(fs[i - 1]) == Some(m)
  }

  /** Each step names a field of the message of the step before. */
  ghost predicate IsFieldPath(u: Universe, input: string, segs: seq<string>, fs: seq<Field>) {
    && |fs| == |segs|
    && forall i: nat :: i < |fs| ==> StepNamed(u, input, segs, fs, i)
  }

  ghost predicate StepNamed(u: Universe, input: string, segs: seq<string>, fs: seq<Field>, i: nat)
    requires |fs| == |segs| && i < |fs|
  {
    exists m :: LooksIn(input, fs, i, m) && IsNamed(u, m, segs[i], fs[i])
  }

  lemma NamedUnique(u: Universe, m: string, name: string, f: Field)
    requires IsNamed(u, m, name, f)
    ensures FieldNamed(u[m].fields, name) == Some(f)
  {
    var fields := u[m].fields;
    var i :| 0 <= i < |fields| && fields[i] == f && f.name == name && NameAbsent(fields[..i], name);
    var g := FieldNamed(fields, name);
    assert f in fields;
    var j :| 0 <= j < |fields| && fields[j] == g.value && NameAbsent(fields[..j], name);
    if i < j { assert fields[i] in fields[..j]; }
  }

  lemma {:induction false} PathHasFields(u: Universe, input: string, segs: seq<string>) returns (fs: seq<Field>)
    requires |segs| > 0 && FieldAt(u, Some(input), segs).Some?
    ensures IsFieldPath(u, input, segs, fs) && fs[|fs| - 1] == FieldAt(u, Some(input), segs).value
    decreases segs
  {
    var fd := FieldNamed(u[input].fields, segs[0]).value;
    assert IsNamed(u, input, segs[0], fd);
    if |segs| == 1 {
      fs := [fd];
      assert LooksIn(input, fs, 0, input);
    } else {
      var m := FieldMessage(fd).value;
      var rest := PathHasFields(u, m, segs[1..]);
      fs := [fd] + rest;
      assert LooksIn(input, fs, 0, input);
      forall i: nat | i < |fs| ensures StepNamed(u, input, segs, fs, i) {
        if i > 0 {
          assert StepNamed(u, m, segs[1..], rest, i - 1);
          var x :| LooksIn(m, rest, i - 1, x) && IsNamed(u, x, segs[1..][i - 1], rest[i - 1]);
          assert LooksIn(input, fs, i, x);
        }
      }
    }
  }

  lemma {:induction false} FieldsHavePath(u: Universe, input: string, segs: seq<string>, fs: seq<Field>)
    requires |segs| > 0 && IsFieldPath(u, input, segs, fs)
    ensures FieldAt(u, Some(input), segs) == Some(fs[|fs| - 1])
    decreases segs
  {
    assert StepNamed(u, input, segs, fs, 0);
    NamedUnique(u, input, segs[0], fs[0]);
    if |segs| > 1 {
      assert StepNamed(u, input, segs, fs, 1);
      var m :| LooksIn(input, fs, 1, m) && IsNamed(u, m, segs[1], fs[1]);
      var rest := fs[1..];
      forall i: nat | i < |rest| ensures StepNamed(u, m, segs[1..], rest, i) {
        assert StepNamed(u, input, segs, fs, i + 1);
        var x :| LooksIn(input, fs, i + 1, x) && IsNamed(u, x, segs[i + 1], fs[i + 1]);
        assert LooksIn(m, rest, i, x);
      }
      FieldsHavePath(u, m, segs[1..], rest);
    }
  }

  /** f is the field that a dotted path denotes. */
  ghost predicate Denotes(u: Universe, input: string, path: string, f: Field) {
    exists fs :: IsFieldPath(u, input, Split(path, '.'), fs) && fs[|fs| - 1] == f
  }

  /** The walk along a path ends at the field it denotes, and fails exactly when it denotes none. */
  lemma FieldAtExactly(u: Universe, input: string, path: string, f: Field)
    ensures FieldAt(u, Some(input), Split(path, '.')) == Some(f) <==> Denotes(u, input, path, f)
  {
    var segs := Split(path, '.');
    if FieldAt(u, Some(input), segs) == Some(f) {
      var fs := PathHasFields(u, input, segs);
    }
    if Denotes(u, input, path, f) {
      var fs :| IsFieldPath(u, input, segs, fs) && fs[|fs| - 1] == f;
      FieldsHavePath(u, input, segs, fs);
    }
  }

  // ---- bodies ----

  /** The entry at key was last written for binding b of op. */
  ghost predicate EntryOf(u: Universe, ops: seq<SurfaceOp>, routes: seq<Route>, d: Document, key: (string, string),
                          op: SurfaceOp, b: Binding)
    requires forall o :: o in ops ==> o.input in u && o.output in u
  {
    && IsDocument(u, ops, routes, d)
    && key in d.paths && LastWrite(Writes(ops, routes), key) == Some(ProtoWrite(op, b, key.0))
  }

  /** s accepts exactly the JSON of a message of that name. */
  ghost predicate SpeaksOf(u: Universe, components: map<string, Schema>, s: Schema, name: string) {
    forall j :: Accepts(components, s, j) <==> ReadsAs(u, AsNumbers, name, j)
  }

  /** s accepts exactly the values of the field that path denotes; there is none exactly when it denotes none. */
  ghost predicate SpeaksOfPath(u: Universe, components: map<string, Schema>, s: Option<Schema>, input: string, path: string) {
    && (s.None? <==> forall f :: !Denotes(u, input, path, f))
    && (s.Some? ==> forall f, j :: Denotes(u, input, path, f) ==>
          (Accepts(components, s.value, j) <==> FieldValue(u, AsNumbers, f.shape, j)))
  }

  lemma EntryHolds(u: Universe, ops: seq<SurfaceOp>, routes: seq<Route>, d: Document, key: (string, string),
                   op: SurfaceOp, b: Binding)
    requires Resolved(u) && forall o :: o in ops ==> o.input in u && o.output in u
    requires EntryOf(u, ops, routes, d, key, op, b)
    ensures op in ops && op.input in u && op.output in u && IsProtoDoc(u, op, b, key.0, d.paths[key])
    ensures Finished(u, d.schemas) && BindingRoots(u, op, b, key.0) <= d.schemas.Keys
  {
    var final := FinalPaths(routes);
    var w := ProtoWrite(op, b, key.0);
    OpWritesMembers(ops, final, w);
    ExtraWritesMembers(routes, w);
    OpenApiTheorems.RootsInTable(u, ops, final, op, b);
    TableIsFinished(u, ops, routes, d);
  }

  lemma ReferenceSpeaks(u: Universe, table: map<string, Schema>, name: string)
    requires Finished(u, table) && name in table
    ensures SpeaksOf(u, table, RefSchema(name), name)
  {
    forall j ensures Accepts(table, RefSchema(name), j) <==> ReadsAs(u, AsNumbers, name, j) {
      ReferenceAccepts(table, name, j);
      ComponentAccepts(u, table, name, j);
    }
  }

  lemma PathSpeaks(u: Universe, table: map<string, Schema>, input: string, path: string)
    requires Finished(u, table) && PathRefs(u, input, path) <= table.Keys
    ensures SpeaksOfPath(u, table, PathSchemaOf(u, input, path), input, path)
  {
    var at := FieldAt(u, Some(input), Split(path, '.'));
    forall f ensures Denotes(u, input, path, f) <==> at == Some(f) {
      FieldAtExactly(u, input, path, f);
    }
    if at.Some? {
      assert Denotes(u, input, path, at.value);
      forall j ensures Accepts(table, FieldSchemaOf(at.value), j) <==> FieldValue(u, AsNumbers, at.value.shape, j) {
        FieldAccepts(u, table, at.value, j);
      }
    }
  }

  /** "*" sends the whole input message, another selector the field it denotes, and none sends no body. */
  lemma BodyMeaning(u: Universe, ops: seq<SurfaceOp>, routes: seq<Route>, d: Document, key: (string, string),
                    op: SurfaceOp, b: Binding)
    requires Resolved(u) && forall o :: o in ops ==> o.input in u && o.output in u
    requires EntryOf(u, ops, routes, d, key, op, b)
    ensures var body := d.paths[key].body;
            if b.body == "" then body == None
            else if b.body == "*" then body.Some? && body.value.Some? && SpeaksOf(u, d.schemas, body.value.value, op.input)
            else body.Some? && SpeaksOfPath(u, d.schemas, body.value, op.input, b.body)
  {
    EntryHolds(u, ops, routes, d, key, op, b);
    if b.body == "*" {
      ReferenceSpeaks(u, d.schemas, op.input);
    } else if b.body != "" {
      PathSpeaks(u, d.schemas, op.input, b.body);
    }
  }

  /** The response is the output message, or the field of it that the selector denotes. */
  lemma ResponseMeaning(u: Universe, ops: seq<SurfaceOp>, routes: seq<Route>, d: Document, key: (string, string),
                        op: SurfaceOp, b: Binding)
    requires Resolved(u) && forall o :: o in ops ==> o.input in u && o.output in u
    requires EntryOf(u, ops, routes, d, key, op, b)
    ensures var response := d.paths[key].response;
            && response.Some?
            && if b.responseBody == "" then response.value.Some? && SpeaksOf(u, d.schemas, response.value.value, op.output)
               else SpeaksOfPath(u, d.schemas, response.value, op.output, b.responseBody)
  {
    EntryHolds(u, ops, routes, d, key, op, b);
    if b.responseBody == "" {
      ReferenceSpeaks(u, d.schemas, op.output);
    } else {
      PathSpeaks(u, d.schemas, op.output, b.responseBody);
    }
  }

  // ---- parameters ----

  /** The variable v of a template as a required path parameter. */
  ghost predicate IsPathParameter(u: Universe, components: map<string, Schema>, input: string, v: string, p: Parameter) {
    && p.name == v && p.loc == "path" && p.required
    && if exists f :: Denotes(u, input, v, f) then SpeaksOfPath(u, components, Some(p.schema), input, v)
       else p.schema == Schema(typ := "string")
  }

  /** A top-level field as an optional query parameter: scalars by type, lists of them, and text for the rest. */
  ghost predicate IsQueryParameter(f: Field, p: Parameter) {
    && p.name == f.name && p.loc == "query" && !p.required && p.schema.ref == ""
    && match f.shape
       case Singular(k) => p.schema.typ == TypeName(k)
       case Repeated(k) => p.schema.typ == "array" && p.schema.items == Some(Schema(typ := TypeName(k)))
       case MapOf(_, _) => p.schema.typ == "string"
  }

  lemma QueryParamDescribed(f: Field)
    ensures IsQueryParameter(f, QueryParam(f))
  {
  }

  ghost predicate HasQuery(ps: seq<Parameter>, name: string) {
    exists i :: 0 <= i < |ps| && ps[i].loc == "query" && ps[i].name == name
  }

  ghost predicate HasPath(ps: seq<Parameter>, name: string) {
    exists i :: 0 <= i < |ps| && ps[i].loc == "path" && Split(ps[i].name, '.')[0] == name
  }

  lemma PathParamDescribed(u: Universe, table: map<string, Schema>, input: string, v: string)
    requires Finished(u, table) && PathRefs(u, input, v) <= table.Keys
    ensures IsPathParameter(u, table, input, v, PathParam(u, input, v))
  {
    PathSpeaks(u, table, input, v);
  }

  /** Parameters are the variables of the template, in order, then the query; each describes its field. */
  lemma ParameterMeaning(u: Universe, ops: seq<SurfaceOp>, routes: seq<Route>, d: Document, key: (string, string),
                         op: SurfaceOp, b: Binding, i: nat)
    requires Resolved(u) && forall o :: o in ops ==> o.input in u && o.output in u
    requires EntryOf(u, ops, routes, d, key, op, b) && i < |d.paths[key].parameters|
    ensures op.input in u
    ensures var p, vars := d.paths[key].parameters[i], VarsOf(key.0);
            if i < |vars| then IsPathParameter(u, d.schemas, op.input, vars[i], p)
            else exists f :: f in u[op.input].fields && IsQueryParameter(f, p)
  {
    EntryHolds(u, ops, routes, d, key, op, b);
    var ps, vars := d.paths[key].parameters, VarsOf(key.0);
    if i < |vars| {
      assert vars[i] in vars;
      assert PathRefs(u, op.input, vars[i]) <= VarRefs(u, op.input, vars);
      PathParamDescribed(u, d.schemas, op.input, vars[i]);
    } else {
      var query := ps[|vars|..];
      assert query[i - |vars|] == ps[i];
      assert IsQueryParam(u[op.input].fields, Consumed(key.0), query[i - |vars|]);
      var f :| f in u[op.input].fields && query[i - |vars|] == QueryParam(f);
      QueryParamDescribed(f);
    }
  }

  lemma PathCarries(u: Universe, op: SurfaceOp, b: Binding, path: string, e: OperationDoc, name: string)
    requires op.input in u && IsProtoDoc(u, op, b, path, e)
    ensures HasPath(e.parameters, name) <==> name in Consumed(path)
  {
    var ps, vars := e.parameters, VarsOf(path);
    if name in Consumed(path) {
      var v :| v in vars && Split(v, '.')[0] == name;
      var i :| 0 <= i < |vars| && vars[i] == v;
      assert ps[i] == PathParam(u, op.input, vars[i]);
    }
    forall i: nat | |vars| <= i < |ps| ensures ps[i].loc == "query" { QueryAt(u, op, b, path, e, i); }
    if HasPath(ps, name) {
      var i: nat :| i < |ps| && ps[i].loc == "path" && Split(ps[i].name, '.')[0] == name;
      assert ps[i] == PathParam(u, op.input, vars[i]) && vars[i] in vars;
    }
  }

  lemma Asks(fields: seq<Field>, consumed: set<string>, p: Parameter)
    requires IsQueryParam(fields, consumed, p)
    ensures p.loc == "query" && p.name !in consumed
  {
    var f :| f in fields && f.name !in consumed && p == QueryParam(f);
    QueryParamDescribed(f);
  }

  lemma AskedAt(query: seq<Parameter>, ps: seq<Parameter>, n: nat, name: string)
    requires n <= |ps| && query == ps[n..] && exists i :: 0 <= i < |query| && query[i].name == name
    requires forall i :: n <= i < |ps| ==> ps[i].loc == "query"
    ensures HasQuery(ps, name)
  {
    var i :| 0 <= i < |query| && query[i].name == name;
    assert ps[n + i] == query[i];
  }

  lemma QueryAt(u: Universe, op: SurfaceOp, b: Binding, path: string, e: OperationDoc, i: nat)
    requires op.input in u && IsProtoDoc(u, op, b, path, e) && |VarsOf(path)| <= i < |e.parameters|
    ensures e.parameters[i].loc == "query" && e.parameters[i].name !in Consumed(path)
  {
    assert e.parameters[|VarsOf(path)|..][i - |VarsOf(path)|] == e.parameters[i];
    Asks(u[op.input].fields, Consumed(path), e.parameters[i]);
  }

  lemma PathAt(u: Universe, op: SurfaceOp, b: Binding, path: string, e: OperationDoc, i: nat)
    requires op.input in u && IsProtoDoc(u, op, b, path, e) && i < |VarsOf(path)|
    ensures e.parameters[i].loc == "path"
  {
    assert e.parameters[i] == PathParam(u, op.input, VarsOf(path)[i]);
  }

  lemma QueryCarries(u: Universe, op: SurfaceOp, b: Binding, path: string, e: OperationDoc, f: Field)
    requires op.input in u && IsProtoDoc(u, op, b, path, e) && TakesQuery(b) && f in u[op.input].fields
    ensures HasQuery(e.parameters, f.name) <==> f.name !in Consumed(path)
  {
    var ps, n := e.parameters, |VarsOf(path)|;
    if f.name !in Consumed(path) {
      forall i | n <= i < |ps| ensures ps[i].loc == "query" { QueryAt(u, op, b, path, e, i); }
      AskedAt(ps[n..], ps, n, f.name);
    }
    forall i: nat | i < n ensures ps[i].loc == "path" { PathAt(u, op, b, path, e, i); }
    if HasQuery(ps, f.name) {
      var i: nat :| i < |ps| && ps[i].loc == "query" && ps[i].name == f.name;
      QueryAt(u, op, b, path, e, i);
    }
  }

  /** A GET or DELETE without body carries every field of its input exactly one way: in the path or in the query. */
  lemma InputIsCarried(u: Universe, ops: seq<SurfaceOp>, routes: seq<Route>, d: Document, key: (string, string),
                       op: SurfaceOp, b: Binding, f: Field)
    requires Resolved(u) && forall o :: o in ops ==> o.input in u && o.output in u
    requires EntryOf(u, ops, routes, d, key, op, b)
    requires b.body == "" && (b.verb == "GET" || b.verb == "DELETE")
    requires op.input in u && f in u[op.input].fields
    ensures HasQuery(d.paths[key].parameters, f.name) <==> !HasPath(d.paths[key].parameters, f.name)
  {
    EntryHolds(u, ops, routes, d, key, op, b);
    PathCarries(u, op, b, key.0, d.paths[key], f.name);
    QueryCarries(u, op, b, key.0, d.paths[key], f);
  }

  /** Without a query, or with a body, only the path carries parameters. */
  lemma OnlyPathParameters(u: Universe, ops: seq<SurfaceOp>, routes: seq<Route>, d: Document, key: (string, string),
                           op: SurfaceOp, b: Binding, i: nat)
    requires Resolved(u) && forall o :: o in ops ==> o.input in u && o.output in u
    requires EntryOf(u, ops, routes, d, key, op, b)
    requires b.body != "" || (b.verb != "GET" && b.verb != "DELETE")
    requires i < |d.paths[key].parameters|
    ensures d.paths[key].parameters[i].loc == "path"
  {
    EntryHolds(u, ops, routes, d, key, op, b);
  }

  /** The declared id, or else the full method without its slash. */
  ghost predicate NamesOperation(op: PolicySpec.Operation, name: string) {
    if op.operationId != "" then name == op.operationId
    else if op.id != "" && op.id[0] == '/' then "/" + name == op.id
    else name == op.id
  }

  lemma OperationIdNames(op: PolicySpec.Operation)
    ensures NamesOperation(op, OperationId(op))
  {
    if op.id != "" && op.id[0] == '/' { assert "/" + op.id[1..] == op.id; }
  }

  lemma EntryNamesOperation(u: Universe, ops: seq<SurfaceOp>, routes: seq<Route>, d: Document, key: (string, string),
                            op: SurfaceOp, b: Binding)
    requires Resolved(u) && forall o :: o in ops ==> o.input in u && o.output in u
    requires EntryOf(u, ops, routes, d, key, op, b)
    ensures d.paths[key].source == "proto" && NamesOperation(op.operation, d.paths[key].operationId)
  {
    EntryHolds(u, ops, routes, d, key, op, b);
    OperationIdNames(op.operation);
  }

  // ---- entries and routes ----

  ghost predicate IsLower(s: string, lower: string) {
    && |lower| == |s|
    && forall i :: 0 <= i < |s| ==>
         if 'A' <= s[i] <= 'Z' then lower[i] as int == s[i] as int + 32 else lower[i] == s[i]
  }

  lemma LowerIsLower(s: string)
    ensures IsLower(s, Lower(s))
  {
  }

  /** Every deployed binding has an entry where its route is deployed, under its method in lower case. */
  lemma BindingHasEntry(u: Universe, ops: seq<SurfaceOp>, routes: seq<Route>, d: Document, op: SurfaceOp, b: Binding, r: Route)
    requires forall o :: o in ops ==> o.input in u && o.output in u
    requires IsDocument(u, ops, routes, d) && DistinctKeys(ProtoRoutes(routes))
    requires op in ops && b in op.bindings
    requires r in routes && r.source == "proto" && r.verb == b.verb && r.protoPath == b.path
    ensures (r.path, Lower(b.verb)) in d.paths && IsLower(b.verb, Lower(b.verb))
  {
    OpenApiTheorems.FinalPathsLookup(routes, RouteKey(b.verb, b.path));
    var w := ProtoWrite(op, b, r.path);
    OpWritesMembers(ops, FinalPaths(routes), w);
    assert w in Writes(ops, routes) && WriteKey(w) == (r.path, Lower(b.verb));
    assert LastWrite(Writes(ops, routes), WriteKey(w)).Some?;
    LowerIsLower(b.verb);
  }

  /** And every entry is at the path of a deployed route. */
  lemma EntryHasRoute(u: Universe, ops: seq<SurfaceOp>, routes: seq<Route>, d: Document, key: (string, string))
    returns (r: Route)
    requires forall o :: o in ops ==> o.input in u && o.output in u
    requires IsDocument(u, ops, routes, d) && DistinctKeys(ProtoRoutes(routes)) && key in d.paths
    ensures r in routes && r.path == key.0 && (r.source == "proto" || r.source == "extra")
    ensures r.source == "extra" ==> key.1 == Lower(r.verb)
  {
    var w := LastWrite(Writes(ops, routes), key).value;
    OpWritesMembers(ops, FinalPaths(routes), w);
    ExtraWritesMembers(routes, w);
    match w
    case ExtraWrite(route) => r := route;
    case ProtoWrite(_, b, _) =>
      OpenApiTheorems.FinalPathsLookup(routes, RouteKey(b.verb, b.path));
      r :| r in routes && r.source == "proto" && RouteKey(r.verb, r.protoPath) == RouteKey(b.verb, b.path);
  }

  /** The entry of an extra route names it and says nothing of messages. */
  lemma ExtraEntry(u: Universe, ops: seq<SurfaceOp>, routes: seq<Route>, d: Document, key: (string, string), r: Route)
    requires forall o :: o in ops ==> o.input in u && o.output in u
    requires IsDocument(u, ops, routes, d) && key in d.paths && LastWrite(Writes(ops, routes), key) == Some(ExtraWrite(r))
    ensures d.paths[key] == OperationDoc(r.id, "extra", [], None, None)
    ensures r in routes && r.source == "extra" && key.0 == r.path && IsLower(r.verb, key.1)
  {
    var w := ExtraWrite(r);
    OpWritesMembers(ops, FinalPaths(routes), w);
    ExtraWritesMembers(routes, w);
    LowerIsLower(r.verb);
  }

  // ---- templates ----

  /** A part of a path template: a fixed component, or a variable in braces. */
  datatype Part = Fixed(text: string) | Variable(name: string)

  predicate GoodPart(p: Part) {
    match p
    case Fixed(text) => '/' !in text && !(text != "" && text[0] == '{' && text[|text| - 1] == '}')
    case Variable(name) => '/' !in name && '{' !in name && '}' !in name
  }

  function PartText(p: Part): string {
    match p
    case Fixed(text) => text
    case Variable(name) => "{" + name + "}"
  }

  function Texts(parts: seq<Part>): seq<string> {
    if parts == [] then [] else [PartText(parts[0])] + Texts(parts[1..])
  }

  function Variables(parts: seq<Part>): seq<string> {
    if parts == [] then []
    else (match parts[0] case Variable(name) => [name] case Fixed(_) => []) + Variables(parts[1..])
  }

  lemma VariableTrims(name: string)
    requires '{' !in name && '}' !in name
    ensures Trim("{" + name + "}", c => c == '{' || c == '}') == name
  {
    var cut := (c: char) => c == '{' || c == '}';
    var s := "{" + name + "}";
    assert s[1..] == name + "}";
    if name == "" {
      assert s[1..] == "}" && "}"[1..] == "";
      assert TrimLeft(s, cut) == TrimLeft("}", cut) == "";
    } else {
      assert (name + "}")[0] == name[0];
      assert TrimLeft(s, cut) == name + "}";
      assert (name + "}")[..|name|] == name && name[|name| - 1] in name;
      assert TrimRight(name + "}", cut) == TrimRight(name, cut) == name;
    }
  }

  lemma HeadFound(p: Part, rest: seq<string>)
    requires GoodPart(p)
    ensures PathVars([PartText(p)] + rest) == (match p case Variable(name) => [name] case Fixed(_) => []) + PathVars(rest)
    ensures '/' !in PartText(p)
  {
    var text := PartText(p);
    assert ([text] + rest)[1..] == rest;
    if p.Variable? {
      assert text[0] == '{' && text[|text| - 1] == '}';
      VariableTrims(p.name);
    }
  }

  lemma {:induction false} VariablesFound(parts: seq<Part>)
    requires forall p :: p in parts ==> GoodPart(p)
    ensures PathVars(Texts(parts)) == Variables(parts)
    ensures |Texts(parts)| == |parts| && forall i :: 0 <= i < |parts| ==> '/' !in Texts(parts)[i]
  {
    if parts != [] {
      assert parts[0] in parts;
      VariablesFound(parts[1..]);
      HeadFound(parts[0], Texts(parts[1..]));
    }
  }

  /** The variables of a path are those of the template it prints, in order. */
  lemma TemplateVariables(parts: seq<Part>)
    requires parts != [] && forall p :: p in parts ==> GoodPart(p)
    ensures VarsOf(Join(Texts(parts), "/")) == Variables(parts)
  {
    VariablesFound(parts);
    SplitJoin(Texts(parts), '/');
  }
}
