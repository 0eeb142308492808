/** Build of openapi/openapi.go: one document from a surface and the final route table. */
module OpenApiDocument {
  import opened Wrappers
  import opened Text
  import opened Sorting
  import opened OpenApiModel
  import opened OpenApiBuilder
  import opened Surface
  import PolicySpec

  datatype Parameter = Parameter(name: string, loc: string, required: bool, description: string, schema: Schema)

  /** body and response are None when absent, Some(None) when declared with a nil schema. */
  datatype OperationDoc = OperationDoc(
    operationId: string,
    source: string,
    parameters: seq<Parameter>,
    body: Option<Option<Schema>>,
    response: Option<Option<Schema>>)

  /** Paths flattened: the entry at (path, lower-case method). */
  datatype Document = Document(title: string, paths: map<(string, string), OperationDoc>, schemas: map<string, Schema>)

  // ---- parameters ----

  /** The variables of a path template ({id}, {payload.id}). */
  function PathVars(segs: seq<string>): seq<string> {
    if segs == [] then []
    else
      var seg := segs[0];
      if |seg| > 0 && seg[0] == '{' && seg[|seg| - 1] == '}'
      then [Trim(seg, c => c == '{' || c == '}')] + PathVars(segs[1..])
      else PathVars(segs[1..])
  }

  function VarsOf(path: string): seq<string> {
    PathVars(Split(path, '/'))
  }

  function PathParam(u: Universe, input: string, v: string): Parameter {
    var schema := match PathSchemaOf(u, input, v) case Some(s) => s case None => Schema(typ := "string");
    Parameter(v, "path", true, "", schema)
  }

  /** Top-level field names that path variables already carry. */
  function Consumed(path: string): set<string> {
    set v | v in VarsOf(path) :: Split(v, '.')[0]
  }

  function QueryItemSchema(k: Kind): Schema {
    match k
    case BoolKind => Schema(typ := "boolean")
    case Int32Kind | Sint32Kind | Sfixed32Kind | Int64Kind | Sint64Kind | Sfixed64Kind
       | Uint32Kind | Fixed32Kind | Uint64Kind | Fixed64Kind => Schema(typ := "integer")
    case FloatKind | DoubleKind => Schema(typ := "number")
    case _ => Schema(typ := "string")
  }

  function QueryParam(f: Field): Parameter {
    match f.shape
    case MapOf(_, _) => Parameter(f.name, "query", false, "map filter (grpc-gateway query params)", Schema(typ := "string"))
    case Repeated(k) => Parameter(f.name, "query", false, "", Schema(typ := "array", items := Some(QueryItemSchema(k))))
    case Singular(k) =>
      if k.MessageKind? || k.GroupKind?
      then Parameter(f.name, "query", false, "nested filter, dot-separated (e.g. " + f.name + ".sub)", Schema(typ := "string"))
      else Parameter(f.name, "query", false, "", QueryItemSchema(k))
  }

  ghost predicate IsQueryParam(fields: seq<Field>, consumed: set<string>, p: Parameter) {
    exists f :: f in fields && f.name !in consumed && p == QueryParam(f)
  }

  ghost predicate AreQueryParams(fields: seq<Field>, consumed: set<string>, ps: seq<Parameter>) {
    && SortedBy(ps, (p: Parameter) => p.name)
    && (forall i :: 0 <= i < |ps| ==> IsQueryParam(fields, consumed, ps[i]))
    && (forall f :: f in fields && f.name !in consumed ==> exists i :: 0 <= i < |ps| && ps[i].name == f.name)
    && (DistinctNames(fields) ==> forall i, j :: 0 <= i < j < |ps| ==> ps[i].name != ps[j].name)
  }

  ghost predicate DistinctNames(fields: seq<Field>) {
    forall i, j :: 0 <= i < j < |fields| ==> fields[i].name != fields[j].name
  }

  /** The names and the index by name that queryParams works from. */
  method IndexFields(fields: seq<Field>) returns (names: seq<string>, byName: map<string, Field>)
    ensures forall f :: f in fields ==> f.name in names
    ensures DistinctNames(fields) ==> Distinct(names)
    ensures forall n :: n in names ==> n in byName && byName[n] in fields && byName[n].name == n
  {
    names, byName := [], map[];
    for i := 0 to |fields|
      invariant forall f :: f in fields[..i] ==> f.name in names
      invariant |names| == i && forall k :: 0 <= k < i ==> names[k] == fields[k].name
      invariant forall n :: n in names ==> n in byName
      invariant forall n :: n in byName ==> byName[n] in fields && byName[n].name == n
    {
      names := names + [fields[i].name];
      byName := byName[fields[i].name := fields[i]];
    }
    assert fields[..|fields|] == fields;
  }

  method SortNames(names: seq<string>) returns (sorted: seq<string>)
    ensures SortedBy(sorted, (n: string) => n)
    ensures forall n :: n in sorted <==> n in names
    ensures Distinct(names) ==> Distinct(sorted)
  {
    sorted := SortSlice(names, (n: string) => n);
    if Distinct(names) {
      forall i, j | 0 <= i < j < |sorted| ensures sorted[i] != sorted[j] { DistinctStays(names, sorted, i, j); }
    }
    assert forall n :: n in names <==> n in multiset(names);
    assert forall n :: n in sorted <==> n in multiset(sorted);
  }

  ghost predicate NamesAre(ps: seq<Parameter>, names: seq<string>) {
    |ps| == |names| && forall k :: 0 <= k < |ps| ==> ps[k].name == names[k]
  }

  method QueryParams(fields: seq<Field>, consumed: set<string>) returns (ps: seq<Parameter>)
    ensures AreQueryParams(fields, consumed, ps)
  {
    var names, byName := IndexFields(fields);
    var sorted := SortNames(names);
    ps := [];
    ghost var kept: seq<string> := [];
    for i := 0 to |sorted|
      invariant NamesAre(ps, kept)
      invariant forall n :: n in kept <==> n in sorted[..i] && n !in consumed
      invariant forall k :: 0 <= k < |kept| ==> kept[k] in byName && ps[k] == QueryParam(byName[kept[k]])
      invariant SortedBy(kept, (n: string) => n)
      invariant Distinct(sorted) ==> Distinct(kept)
    {
      var n := sorted[i];
      assert sorted[..i + 1] == sorted[..i] + [n];
      if n in consumed {
        continue;
      }
      forall m | m in kept ensures !Less(n, m) {
        assert m in sorted[..i];
      }
      ps, kept := ps + [QueryParam(byName[n])], kept + [n];
    }
    QueryParamsComplete(fields, consumed, sorted, byName, kept, ps);
  }

  lemma QueryParamsComplete(fields: seq<Field>, consumed: set<string>, sorted: seq<string>,
                            byName: map<string, Field>, kept: seq<string>, ps: seq<Parameter>)
    requires forall f :: f in fields ==> f.name in sorted
    requires forall n :: n in sorted ==> n in byName && byName[n] in fields && byName[n].name == n
    requires forall n :: n in kept <==> n in sorted && n !in consumed
    requires NamesAre(ps, kept) && SortedBy(kept, (n: string) => n)
    requires DistinctNames(fields) ==> Distinct(kept)
    requires forall k :: 0 <= k < |kept| ==> ps[k] == QueryParam(byName[kept[k]])
    ensures AreQueryParams(fields, consumed, ps)
  {
    forall f | f in fields && f.name !in consumed
      ensures exists i :: 0 <= i < |ps| && ps[i].name == f.name
    {
      var i :| 0 <= i < |kept| && kept[i] == f.name;
      assert ps[i].name == f.name;
    }
    forall i | 0 <= i < |ps|
      ensures IsQueryParam(fields, consumed, ps[i])
    {
      assert kept[i] in kept;
      var f := byName[kept[i]];
      assert f in fields && f.name !in consumed && ps[i] == QueryParam(f);
    }
  }

  // ---- one operation ----

  function ResponseSchemaOf(u: Universe, op: SurfaceOp, b: Binding): Option<Schema> {
    if b.responseBody == "" then Some(RefSchema(op.output)) else PathSchemaOf(u, op.output, b.responseBody)
  }

  function BodyOf(u: Universe, op: SurfaceOp, b: Binding): Option<Option<Schema>> {
    if b.body == "*" then Some(Some(RefSchema(op.input)))
    else if b.body != "" then Some(PathSchemaOf(u, op.input, b.body))
    else None
  }

  predicate TakesQuery(b: Binding) {
    b.body == "" && (b.verb == "GET" || b.verb == "DELETE")
  }

  /** The declared operation id, or the full method without its leading slash. */
  function OperationId(op: PolicySpec.Operation): string {
    if op.operationId != "" then op.operationId
    else if "/" <= op.id then op.id[1..]
    else op.id
  }

  /** d documents binding b of op at the final path. */
  ghost predicate IsProtoDoc(u: Universe, op: SurfaceOp, b: Binding, path: string, d: OperationDoc)
    requires op.input in u
  {
    var vars := VarsOf(path);
    && d.operationId == OperationId(op.operation) && d.source == "proto"
    && d.response == Some(ResponseSchemaOf(u, op, b))
    && d.body == BodyOf(u, op, b)
    && |vars| <= |d.parameters|
    && (forall i :: 0 <= i < |vars| ==> d.parameters[i] == PathParam(u, op.input, vars[i]))
    && (if TakesQuery(b)
        then AreQueryParams(u[op.input].fields, Consumed(path), d.parameters[|vars|..])
        else |d.parameters| == |vars|)
  }

  function VarRefs(u: Universe, input: string, vars: seq<string>): set<string> {
    set v, n | v in vars && n in PathRefs(u, input, v) :: n
  }

  /** The messages binding b of op starts a walk from. */
  function BindingRoots(u: Universe, op: SurfaceOp, b: Binding, path: string): set<string> {
    (if b.responseBody == "" then {op.output} else PathRefs(u, op.output, b.responseBody))
    + VarRefs(u, op.input, VarsOf(path))
    + (if b.body == "*" then {op.input} else if b.body != "" then PathRefs(u, op.input, b.body) else {})
  }

  lemma VarRefsSnoc(u: Universe, input: string, vars: seq<string>, i: nat)
    requires i < |vars|
    ensures VarRefs(u, input, vars[..i + 1]) == VarRefs(u, input, vars[..i]) + PathRefs(u, input, vars[i])
  {
    assert vars[..i + 1] == vars[..i] + [vars[i]];
  }

  method PathParams(b: Builder, path: string, input: string) returns (ps: seq<Parameter>)
    requires Resolved(b.u) && input in b.u
    modifies b
    ensures |ps| == |VarsOf(path)|
    ensures forall i :: 0 <= i < |ps| ==> ps[i] == PathParam(b.u, input, VarsOf(path)[i])
    ensures Grown(b.u, old(b.schemas), b.schemas, VarRefs(b.u, input, VarsOf(path)))
  {
    var vars := VarsOf(path);
    ps := [];
    for i := 0 to |vars|
      invariant |ps| == i
      invariant forall k :: 0 <= k < i ==> ps[k] == PathParam(b.u, input, vars[k])
      invariant Grown(b.u, old(b.schemas), b.schemas, VarRefs(b.u, input, vars[..i]))
    {
      ghost var sofar := b.schemas;
      var p := OnePathParam(b, input, vars[i]);
      ps := ps + [p];
      GrownCompose(b.u, old(b.schemas), sofar, b.schemas, VarRefs(b.u, input, vars[..i]), PathRefs(b.u, input, vars[i]));
      VarRefsSnoc(b.u, input, vars, i);
    }
    assert vars[..|vars|] == vars;
  }

  method OnePathParam(b: Builder, input: string, v: string) returns (p: Parameter)
    requires Resolved(b.u) && input in b.u
    modifies b
    ensures p == PathParam(b.u, input, v)
    ensures Grown(b.u, old(b.schemas), b.schemas, PathRefs(b.u, input, v))
  {
    var found := b.FieldPathSchema(input, v);
    var schema := match found case Some(s) => s case None => Schema(typ := "string");
    p := Parameter(v, "path", true, "", schema);
  }

  method ResponseSchema(b: Builder, op: SurfaceOp, bnd: Binding) returns (s: Option<Schema>)
    requires Resolved(b.u) && op.output in b.u
    modifies b
    ensures s == ResponseSchemaOf(b.u, op, bnd)
    ensures Grown(b.u, old(b.schemas), b.schemas,
                  if bnd.responseBody == "" then {op.output} else PathRefs(b.u, op.output, bnd.responseBody))
  {
    if bnd.responseBody == "" {
      var m := b.MessageSchema(op.output);
      return Some(m);
    }
    s := b.FieldPathSchema(op.output, bnd.responseBody);
  }

  method RequestBody(b: Builder, op: SurfaceOp, bnd: Binding) returns (body: Option<Option<Schema>>)
    requires Resolved(b.u) && op.input in b.u
    modifies b
    ensures body == BodyOf(b.u, op, bnd)
    ensures Grown(b.u, old(b.schemas), b.schemas,
                  if bnd.body == "*" then {op.input} else if bnd.body != "" then PathRefs(b.u, op.input, bnd.body) else {})
  {
    if bnd.body == "*" {
      var m := b.MessageSchema(op.input);
      body := Some(Some(m));
    } else if bnd.body != "" {
      var s := b.FieldPathSchema(op.input, bnd.body);
      body := Some(s);
    } else {
      body := None;
    }
  }

  method BuildProtoOperation(b: Builder, op: SurfaceOp, bnd: Binding, path: string) returns (d: OperationDoc)
    requires Resolved(b.u) && op.input in b.u && op.output in b.u
    modifies b
    ensures IsProtoDoc(b.u, op, bnd, path, d)
    ensures Grown(b.u, old(b.schemas), b.schemas, BindingRoots(b.u, op, bnd, path))
  {
    ghost var t0 := b.schemas;
    var response := ResponseSchema(b, op, bnd);
    ghost var t1 := b.schemas;
    var pathParams := PathParams(b, path, op.input);
    ghost var t2 := b.schemas;
    GrownCompose(b.u, t0, t1, t2,
      if bnd.responseBody == "" then {op.output} else PathRefs(b.u, op.output, bnd.responseBody),
      VarRefs(b.u, op.input, VarsOf(path)));
    var body := RequestBody(b, op, bnd);
    GrownCompose(b.u, t0, t2, b.schemas,
      (if bnd.responseBody == "" then {op.output} else PathRefs(b.u, op.output, bnd.responseBody))
      + VarRefs(b.u, op.input, VarsOf(path)),
      if bnd.body == "*" then {op.input} else if bnd.body != "" then PathRefs(b.u, op.input, bnd.body) else {});
    var query: seq<Parameter> := [];
    if TakesQuery(bnd) {
      query := QueryParams(b.u[op.input].fields, Consumed(path));
    }
    var all := pathParams + query;
    assert all[|pathParams|..] == query;
    d := OperationDoc(OperationId(op.operation), "proto", all, body, Some(response));
  }

  // ---- the document ----

  /** Deployed path of each proto route, by method and declared path. */
  function FinalPaths(routes: seq<Route>): map<string, string> {
    if routes == [] then map[]
    else
      var r := routes[|routes| - 1];
      var rest := FinalPaths(routes[..|routes| - 1]);
      if r.source == "proto" then rest[RouteKey(r.verb, r.protoPath) := r.path] else rest
  }

  predicate Served(final: map<string, string>, b: Binding) {
    RouteKey(b.verb, b.path) in final
  }

  function DeployedPath(final: map<string, string>, b: Binding): string
    requires Served(final, b)
  {
    final[RouteKey(b.verb, b.path)]
  }

  /** strings.ToLower on ASCII method names. */
  function Lower(s: string): string {
    seq(|s|, i requires 0 <= i < |s| => if 'A' <= s[i] <= 'Z' then s[i] - 'A' + 'a' else s[i])
  }

  /** All walk roots of a document. */
  ghost function RequestedRoots(u: Universe, ops: seq<SurfaceOp>, final: map<string, string>): set<string> {
    set op, b, n | op in ops && b in op.bindings && Served(final, b)
                   && n in BindingRoots(u, op, b, DeployedPath(final, b)) :: n
  }

  /** The component table a document must have: what the roots reach, each with its own schema. */
  ghost predicate IsTableOf(u: Universe, roots: set<string>, table: map<string, Schema>) {
    && table.Keys == ReachSet(u, roots)
    && forall n :: n in table ==> n in u && table[n] == SchemaOf(u, n)
  }

  function ExtraDoc(r: Route): OperationDoc {
    OperationDoc(r.id, "extra", [], None, None)
  }

  // ---- which entry survives ----

  /** One assignment to the document's paths. */
  datatype Write = ProtoWrite(op: SurfaceOp, binding: Binding, path: string) | ExtraWrite(route: Route)

  function WriteKey(w: Write): (string, string) {
    match w
    case ProtoWrite(_, b, path) => (path, Lower(b.verb))
    case ExtraWrite(r) => (r.path, Lower(r.verb))
  }

  ghost predicate IsWriteDoc(u: Universe, w: Write, d: OperationDoc) {
    match w
    case ProtoWrite(op, b, path) => op.input in u && IsProtoDoc(u, op, b, path, d)
    case ExtraWrite(r) => d == ExtraDoc(r)
  }

  function BindingWrites(op: SurfaceOp, bindings: seq<Binding>, final: map<string, string>): seq<Write> {
    if bindings == [] then []
    else
      var before, b := BindingWrites(op, bindings[..|bindings| - 1], final), bindings[|bindings| - 1];
      if Served(final, b) then before + [ProtoWrite(op, b, DeployedPath(final, b))] else before
  }

  function OpWrites(ops: seq<SurfaceOp>, final: map<string, string>): seq<Write> {
    if ops == [] then []
    else
      var op := ops[|ops| - 1];
      OpWrites(ops[..|ops| - 1], final) + BindingWrites(op, op.bindings, final)
  }

  function ExtraWrites(routes: seq<Route>): seq<Write> {
    if routes == [] then []
    else
      var before, r := ExtraWrites(routes[..|routes| - 1]), routes[|routes| - 1];
      if r.source == "extra" then before + [ExtraWrite(r)] else before
  }

  /** All assignments in order: operations by id, each binding by binding, then the extra routes. */
  function Writes(ops: seq<SurfaceOp>, routes: seq<Route>): seq<Write> {
    OpWrites(ops, FinalPaths(routes)) + ExtraWrites(routes)
  }

  /** The last of ws at key. */
  function LastWrite(ws: seq<Write>, key: (string, string)): (w: Option<Write>)
    ensures w.Some? ==> w.value in ws && WriteKey(w.value) == key
    ensures w.None? ==> forall x :: x in ws ==> WriteKey(x) != key
  {
    if ws == [] then None
    else if WriteKey(ws[|ws| - 1]) == key then Some(ws[|ws| - 1])
    else LastWrite(ws[..|ws| - 1], key)
  }

  /** paths holds exactly the keys written, each as its last write left it. */
  ghost predicate Reflects(u: Universe, ws: seq<Write>, paths: map<(string, string), OperationDoc>) {
    && (forall key :: key in paths <==> LastWrite(ws, key).Some?)
    && (forall key :: key in paths ==> IsWriteDoc(u, LastWrite(ws, key).value, paths[key]))
  }

  lemma ReflectsStep(u: Universe, ws: seq<Write>, paths: map<(string, string), OperationDoc>, w: Write, d: OperationDoc)
    requires Reflects(u, ws, paths) && IsWriteDoc(u, w, d)
    ensures Reflects(u, ws + [w], paths[WriteKey(w) := d])
  {
    assert (ws + [w])[..|ws|] == ws;
    assert forall key :: LastWrite(ws + [w], key) == if key == WriteKey(w) then Some(w) else LastWrite(ws, key);
  }

  lemma {:induction false} BindingWritesMembers(op: SurfaceOp, bindings: seq<Binding>, final: map<string, string>, w: Write)
    ensures w in BindingWrites(op, bindings, final) <==>
            && w.ProtoWrite? && w.op == op && w.binding in bindings
            && Served(final, w.binding) && w.path == DeployedPath(final, w.binding)
  {
    if bindings != [] {
      var n := |bindings| - 1;
      BindingWritesMembers(op, bindings[..n], final, w);
      assert bindings == bindings[..n] + [bindings[n]];
    }
  }

  /** Every write comes from a served binding or an extra route, and each of those writes. */
  lemma {:induction false} OpWritesMembers(ops: seq<SurfaceOp>, final: map<string, string>, w: Write)
    ensures w in OpWrites(ops, final) <==>
            && w.ProtoWrite? && w.op in ops && w.binding in w.op.bindings
            && Served(final, w.binding) && w.path == DeployedPath(final, w.binding)
  {
    if ops != [] {
      var n := |ops| - 1;
      OpWritesMembers(ops[..n], final, w);
      BindingWritesMembers(ops[n], ops[n].bindings, final, w);
      assert ops == ops[..n] + [ops[n]];
    }
  }

  lemma {:induction false} ExtraWritesMembers(routes: seq<Route>, w: Write)
    ensures w in ExtraWrites(routes) <==> w.ExtraWrite? && w.route in routes && w.route.source == "extra"
  {
    if routes != [] {
      var n := |routes| - 1;
      ExtraWritesMembers(routes[..n], w);
      assert routes == routes[..n] + [routes[n]];
    }
  }

  // ---- Build ----

  method Build(u: Universe, surf: Option<seq<SurfaceOp>>, routes: seq<Route>, title: string)
    returns (r: Result<Document, string>)
    requires Resolved(u)
    requires surf.Some? ==> forall op :: op in surf.value ==> op.input in u && op.output in u
    ensures r.Success? <==> surf.Some? && title != ""
    ensures r.Success? ==> IsDocument(u, surf.value, routes, r.value) && r.value.title == title
  {
    if surf.None? {
      return Failure("openapi: surface is nil");
    }
    if title == "" {
      return Failure("openapi: Info.Title is required");
    }
    var ops := surf.value;
    var final := CollectFinalPaths(routes);
    var b := new Builder(u);
    var paths := AddOperations(b, ops, final);
    paths := AddExtras(routes, u, OpWrites(ops, final), paths);
    TableComplete(u, b.schemas, RequestedRoots(u, ops, final));
    return Success(Document(title, paths, b.schemas));
  }

  /** A walk from the empty table leaves exactly the component table of its roots. */
  lemma TableComplete(u: Universe, after: map<string, Schema>, roots: set<string>)
    requires Grown(u, map[], after, roots)
    ensures IsTableOf(u, roots, after)
  {
    WalkAddsExactlyReachable(u, map[], after, roots);
    var none: map<string, Schema> := map[];
    assert none.Keys + ReachSet(u, roots) == ReachSet(u, roots);
  }

  method CollectFinalPaths(routes: seq<Route>) returns (final: map<string, string>)
    ensures final == FinalPaths(routes)
  {
    final := map[];
    for i := 0 to |routes|
      invariant final == FinalPaths(routes[..i])
    {
      assert routes[..i + 1][..i] == routes[..i];
      if routes[i].source == "proto" {
        final := final[RouteKey(routes[i].verb, routes[i].protoPath) := routes[i].path];
      }
    }
    assert routes[..|routes|] == routes;
  }

  method AddOperations(b: Builder, ops: seq<SurfaceOp>, final: map<string, string>)
    returns (paths: map<(string, string), OperationDoc>)
    requires Resolved(b.u) && b.schemas == map[]
    requires forall op :: op in ops ==> op.input in b.u && op.output in b.u
    modifies b
    ensures Reflects(b.u, OpWrites(ops, final), paths)
    ensures Grown(b.u, map[], b.schemas, RequestedRoots(b.u, ops, final))
  {
    paths := map[];
    for i := 0 to |ops|
      invariant Grown(b.u, map[], b.schemas, RequestedRoots(b.u, ops[..i], final))
      invariant Reflects(b.u, OpWrites(ops[..i], final), paths)
    {
      assert ops[i] in ops;
      ghost var sofar := b.schemas;
      paths := AddOperation(b, ops[i], final, paths, OpWrites(ops[..i], final));
      RequestedRootsSnoc(b.u, ops, i, final);
      GrownCompose(b.u, map[], sofar, b.schemas, RequestedRoots(b.u, ops[..i], final), RequestedRoots(b.u, [ops[i]], final));
      assert ops[..i + 1][..i] == ops[..i];
    }
    assert ops[..|ops|] == ops;
  }

  lemma RequestedRootsSnoc(u: Universe, ops: seq<SurfaceOp>, i: nat, final: map<string, string>)
    requires i < |ops|
    ensures RequestedRoots(u, ops[..i + 1], final)
         == RequestedRoots(u, ops[..i], final) + RequestedRoots(u, [ops[i]], final)
  {
    assert ops[..i + 1] == ops[..i] + [ops[i]];
  }

  method AddExtras(routes: seq<Route>, ghost u: Universe, ghost ws: seq<Write>, before: map<(string, string), OperationDoc>)
    returns (paths: map<(string, string), OperationDoc>)
    requires Reflects(u, ws, before)
    ensures Reflects(u, ws + ExtraWrites(routes), paths)
  {
    paths := before;
    assert ws + ExtraWrites(routes[..0]) == ws;
    for i := 0 to |routes|
      invariant Reflects(u, ws + ExtraWrites(routes[..i]), paths)
    {
      assert routes[..i + 1][..i] == routes[..i];
      if routes[i].source != "extra" {
        continue;
      }
      var d := ExtraDoc(routes[i]);
      ReflectsStep(u, ws + ExtraWrites(routes[..i]), paths, ExtraWrite(routes[i]), d);
      Assoc(ws, ExtraWrites(routes[..i]), [ExtraWrite(routes[i])]);
      paths := paths[(routes[i].path, Lower(routes[i].verb)) := d];
    }
    assert routes[..|routes|] == routes;
  }

  /** The inner loop of Build: all bindings of one operation. */
  method AddOperation(b: Builder, op: SurfaceOp, final: map<string, string>, before: map<(string, string), OperationDoc>,
                      ghost ws: seq<Write>)
    returns (paths: map<(string, string), OperationDoc>)
    requires Resolved(b.u) && op.input in b.u && op.output in b.u
    requires Reflects(b.u, ws, before)
    modifies b
    ensures Reflects(b.u, ws + BindingWrites(op, op.bindings, final), paths)
    ensures Grown(b.u, old(b.schemas), b.schemas, RequestedRoots(b.u, [op], final))
  {
    paths := before;
    assert ws + BindingWrites(op, op.bindings[..0], final) == ws;
    for j := 0 to |op.bindings|
      invariant Reflects(b.u, ws + BindingWrites(op, op.bindings[..j], final), paths)
      invariant Grown(b.u, old(b.schemas), b.schemas, RootsOf(b.u, op, op.bindings[..j], final))
    {
      var bnd := op.bindings[j];
      assert op.bindings[..j + 1][..j] == op.bindings[..j];
      RootsSnoc(b.u, op, op.bindings, j, final);
      if !Served(final, bnd) {
        continue;
      }
      ghost var sofar := b.schemas;
      paths := AddBinding(b, op, bnd, final, paths, ws, op.bindings[..j]);
      GrownCompose(b.u, old(b.schemas), sofar, b.schemas, RootsOf(b.u, op, op.bindings[..j], final),
                   BindingRoots(b.u, op, bnd, DeployedPath(final, bnd)));
    }
    assert op.bindings[..|op.bindings|] == op.bindings;
    assert RequestedRoots(b.u, [op], final) == RootsOf(b.u, op, op.bindings, final);
  }

  method AddBinding(b: Builder, op: SurfaceOp, bnd: Binding, final: map<string, string>,
                    before: map<(string, string), OperationDoc>, ghost ws: seq<Write>, ghost done: seq<Binding>)
    returns (paths: map<(string, string), OperationDoc>)
    requires Resolved(b.u) && op.input in b.u && op.output in b.u && Served(final, bnd)
    requires Reflects(b.u, ws + BindingWrites(op, done, final), before)
    modifies b
    ensures Reflects(b.u, ws + (BindingWrites(op, done, final) + [ProtoWrite(op, bnd, DeployedPath(final, bnd))]), paths)
    ensures Grown(b.u, old(b.schemas), b.schemas, BindingRoots(b.u, op, bnd, DeployedPath(final, bnd)))
  {
    var path := DeployedPath(final, bnd);
    var d := BuildProtoOperation(b, op, bnd, path);
    ReflectsStep(b.u, ws + BindingWrites(op, done, final), before, ProtoWrite(op, bnd, path), d);
    Assoc(ws, BindingWrites(op, done, final), [ProtoWrite(op, bnd, path)]);
    paths := before[(path, Lower(bnd.verb)) := d];
  }

  lemma RootsSnoc(u: Universe, op: SurfaceOp, bindings: seq<Binding>, j: nat, final: map<string, string>)
    requires j < |bindings|
    ensures RootsOf(u, op, bindings[..j + 1], final)
         == RootsOf(u, op, bindings[..j], final)
            + if Served(final, bindings[j]) then BindingRoots(u, op, bindings[j], DeployedPath(final, bindings[j])) else {}
  {
    TakeNext(bindings, j);
  }

  ghost function RootsOf(u: Universe, op: SurfaceOp, bindings: seq<Binding>, final: map<string, string>): set<string> {
    set b, n | b in bindings && Served(final, b) && n in BindingRoots(u, op, b, DeployedPath(final, b)) :: n
  }

  /** The whole contract of Build. */
  ghost predicate IsDocument(u: Universe, ops: seq<SurfaceOp>, routes: seq<Route>, d: Document)
    requires forall op :: op in ops ==> op.input in u && op.output in u
  {
    var final := FinalPaths(routes);
    && IsTableOf(u, RequestedRoots(u, ops, final), d.schemas)
    && Reflects(u, Writes(ops, routes), d.paths)
  }
}
