/**
 The memoised schema walk of openapi/openapi.go. The table holds a placeholder for
 every message whose fields are still being visited (grey), the finished schema of
 every other entry (black); messages without an entry are white.
 */
module OpenApiBuilder {
  import opened Wrappers
  import opened Text
  import opened OpenApiModel
  import opened Sorting

  /**
   What a walk from some roots does to the table: roots have an entry, old entries stay,
   and every added entry is finished, reachable from a root, and has all its successors
   in the table (as finished entries or as older, possibly grey, ones).
   */
  ghost predicate Grown(u: Universe, before: map<string, Schema>, after: map<string, Schema>, roots: set<string>) {
    && roots <= after.Keys
    && (forall n :: n in before ==> n in after && after[n] == before[n])
    && (forall n :: n in after && n !in before ==> Added(u, after, roots, n))
  }

  ghost predicate Added(u: Universe, after: map<string, Schema>, roots: set<string>, n: string)
    requires n in after
  {
    && n in u
    && after[n] == SchemaOf(u, n)
    && Succ(u, n) <= after.Keys
    && exists r :: r in roots && Reachable(u, r, n)
  }

  /** A table without grey entries. */
  ghost predicate Finished(u: Universe, table: map<string, Schema>) {
    forall n :: n in table ==> n in u && table[n] == SchemaOf(u, n) && Succ(u, n) <= table.Keys
  }

  lemma GrownCompose(u: Universe, a: map<string, Schema>, b: map<string, Schema>, c: map<string, Schema>,
                     r1: set<string>, r2: set<string>)
    requires Grown(u, a, b, r1) && Grown(u, b, c, r2)
    ensures Grown(u, a, c, r1 + r2)
  {
    forall n | n in c && n !in a
      ensures Added(u, c, r1 + r2, n)
    {
      if n in b {
        assert Added(u, b, r1, n);
      } else {
        assert Added(u, c, r2, n);
      }
    }
  }

  /** Overwriting the grey placeholder of name finishes it. */
  lemma GreyToBlack(u: Universe, before: map<string, Schema>, after: map<string, Schema>,
                    name: string, placeholder: Schema)
    requires name in u && name !in before
    requires Grown(u, before[name := placeholder], after, Succ(u, name))
    ensures Grown(u, before, after[name := SchemaOf(u, name)], {name})
  {
    var done := after[name := SchemaOf(u, name)];
    forall n | n in done && n !in before
      ensures Added(u, done, {name}, n)
    {
      if n == name {
        ReachableSelf(u, name);
      } else {
        assert Added(u, after, Succ(u, name), n);
        var r :| r in Succ(u, name) && Reachable(u, r, n);
        ReachablePrepend(u, name, r, n);
      }
    }
  }

  /** Started on a finished table, a walk adds exactly what its roots reach. */
  lemma WalkAddsExactlyReachable(u: Universe, before: map<string, Schema>, after: map<string, Schema>, roots: set<string>)
    requires Finished(u, before) && Grown(u, before, after, roots)
    ensures Finished(u, after)
    ensures after.Keys == before.Keys + ReachSet(u, roots)
  {
    forall n | n in after
      ensures n in u && after[n] == SchemaOf(u, n) && Succ(u, n) <= after.Keys
    {
      if n !in before { assert Added(u, after, roots, n); }
    }
    forall n | n in after && n !in before
      ensures n in ReachSet(u, roots)
    {
      assert Added(u, after, roots, n);
    }
    forall n | n in ReachSet(u, roots)
      ensures n in after
    {
      var r :| r in roots && Reachable(u, r, n);
      var p :| IsPath(u, p) && p[0] == r && p[|p| - 1] == n;
      ClosedContainsPath(u, after.Keys, p);
    }
  }

  /** Rebuilds the property map name by name. */
  method CopyInOrder(props: map<string, Schema>, fieldNames: seq<string>) returns (ordered: map<string, Schema>)
    requires forall k :: k in fieldNames <==> k in props
    ensures ordered == props
  {
    var names := SortSlice(fieldNames, n => n);
    SameMembers(fieldNames, names);
    ordered := map[];
    for i := 0 to |names|
      invariant forall k :: k in ordered <==> k in names[..i]
      invariant forall k :: k in ordered ==> k in props && ordered[k] == props[k]
    {
      assert names[i] in names;
      TakeNext(names, i);
      ordered := ordered[names[i] := props[names[i]]];
    }
    assert names[..|names|] == names;
  }

  class Builder {
    const u: Universe
    var schemas: map<string, Schema>

    constructor (u: Universe)
      ensures this.u == u && schemas == map[]
    {
      this.u := u;
      schemas := map[];
    }

    method MessageSchema(name: string) returns (s: Schema)
      requires Resolved(u) && name in u
      modifies this
      ensures s == RefSchema(name)
      ensures Grown(u, old(schemas), schemas, {name})
      decreases u.Keys - schemas.Keys, 0
    {
      if name in schemas {
        return RefSchema(name);
      }
      var known := WellKnownSchema(name);
      if known.Some? {
        ReachableSelf(u, name);
        schemas := schemas[name := known.value];
        return RefSchema(name);
      }
      var placeholder := Schema(typ := "object");
      schemas := schemas[name := placeholder];
      ghost var grey := schemas;
      var fields := u[name].fields;
      var props: map<string, Schema> := map[];
      var fieldNames: seq<string> := [];
      for i := 0 to |fields|
        invariant Grown(u, grey, schemas, AllFieldRefs(fields[..i]))
        invariant props == Properties(fields[..i])
        invariant forall k :: k in fieldNames <==> k in props
      {
        assert fields[i] in u[name].fields;
        ghost var sofar := schemas;
        assert name in old(u.Keys - schemas.Keys) && name !in u.Keys - schemas.Keys;
        var fs := FieldSchema(fields[i]);
        props := props[fields[i].jsonName := fs];
        fieldNames := fieldNames + [fields[i].jsonName];
        GrownCompose(u, grey, sofar, schemas, AllFieldRefs(fields[..i]), FieldRefs(fields[i]));
        AllFieldRefsSnoc(fields, i);
        assert fields[..i + 1][..i] == fields[..i];
      }
      assert fields[..|fields|] == fields;
      var ordered := CopyInOrder(props, fieldNames);
      GreyToBlack(u, old(schemas), schemas, name, placeholder);
      schemas := schemas[name := Schema(typ := "object", properties := ordered, description := OneofNote(u[name].oneofs))];
      return RefSchema(name);
    }

    method FieldSchema(f: Field) returns (s: Schema)
      requires Resolved(u) && FieldRefs(f) <= u.Keys
      modifies this
      ensures s == FieldSchemaOf(f)
      ensures Grown(u, old(schemas), schemas, FieldRefs(f))
      decreases u.Keys - schemas.Keys, 2
    {
      match f.shape
      case MapOf(_, value) =>
        var v := SingularSchema(value);
        s := Schema(typ := "object", additional := AdditionalSchema(v));
      case Repeated(kind) =>
        var item := SingularSchema(kind);
        s := Schema(typ := "array", items := Some(item));
      case Singular(kind) =>
        s := SingularSchema(kind);
    }

    method SingularSchema(k: Kind) returns (s: Schema)
      requires Resolved(u) && KindRefs(k) <= u.Keys
      modifies this
      ensures s == SingularSchemaOf(k)
      ensures Grown(u, old(schemas), schemas, KindRefs(k))
      decreases u.Keys - schemas.Keys, 1
    {
      if k.MessageKind? || k.GroupKind? {
        MessageKindRefers(k);
        s := MessageSchema(k.message);
      } else {
        s := SingularSchemaOf(k);
      }
    }

    /** Follows a dotted field path ("payload.id"); None is the source's nil schema. */
    method FieldPathSchema(input: string, fieldPath: string) returns (s: Option<Schema>)
      requires Resolved(u) && input in u
      modifies this
      ensures s == PathSchemaOf(u, input, fieldPath)
      ensures Grown(u, old(schemas), schemas, PathRefs(u, input, fieldPath))
    {
      var segs := Split(fieldPath, '.');
      var md := Some(input);
      var last: Option<Field> := None;
      for i := 0 to |segs|
        invariant i == 0 ==> md == Some(input)
        invariant i > 0 ==> last.Some? && FieldRefs(last.value) <= u.Keys && md == FieldMessage(last.value)
        invariant md.Some? ==> md.value in u
        invariant FieldAt(u, Some(input), segs) ==
                  if i == |segs| then last else FieldAt(u, md, segs[i..])
      {
        if md.None? {
          return None;
        }
        var fd := FieldNamed(u[md.value].fields, segs[i]);
        if fd.None? {
          return None;
        }
        last := fd;
        md := FieldMessage(fd.value);
        assert segs[i..][1..] == segs[i + 1..];
      }
      var fs := FieldSchema(last.value);
      s := Some(fs);
    }
  }

  lemma MessageKindRefers(k: Kind)
    requires k.MessageKind? || k.GroupKind?
    ensures KindRefs(k) == {k.message} && SingularSchemaOf(k) == RefSchema(k.message)
  {
    match k
    case MessageKind(m) =>
    case GroupKind(m) =>
    case _ =>
  }

  lemma AllFieldRefsSnoc(fields: seq<Field>, i: nat)
    requires i < |fields|
    ensures AllFieldRefs(fields[..i + 1]) == AllFieldRefs(fields[..i]) + FieldRefs(fields[i])
  {
    assert fields[..i + 1] == fields[..i] + [fields[i]];
  }

  ghost predicate NameAbsent(fields: seq<Field>, name: string) {
    forall f :: f in fields ==> f.name != name
  }

  /** The first field of that proto name (not JSON name). */
  function FieldNamed(fields: seq<Field>, name: string): (f: Option<Field>)
    ensures f.Some? ==> f.value in fields && f.value.name == name
    ensures f.Some? ==> exists i :: 0 <= i < |fields| && fields[i] == f.value && NameAbsent(fields[..i], name)
    ensures f.None? ==> NameAbsent(fields, name)
  {
    if fields == [] then None
    else if fields[0].name == name then
      assert fields[..0] == [];
      Some(fields[0])
    else
      var f := FieldNamed(fields[1..], name);
      assert forall i :: 0 <= i < |fields| - 1 ==> fields[..i + 1] == [fields[0]] + fields[1..][..i];
      f
  }

  /** The field a path denotes, when every step but the last is a message field. */
  function FieldAt(u: Universe, md: Option<string>, segs: seq<string>): (f: Option<Field>)
    requires |segs| > 0
    decreases segs
  {
    if md.None? || md.value !in u then None
    else
      var fd := FieldNamed(u[md.value].fields, segs[0]);
      if fd.None? || |segs| == 1 then fd
      else FieldAt(u, FieldMessage(fd.value), segs[1..])
  }

  function PathSchemaOf(u: Universe, input: string, fieldPath: string): Option<Schema> {
    match FieldAt(u, Some(input), Split(fieldPath, '.'))
    case None => None
    case Some(f) => Some(FieldSchemaOf(f))
  }

  function PathRefs(u: Universe, input: string, fieldPath: string): set<string> {
    match FieldAt(u, Some(input), Split(fieldPath, '.'))
    case None => {}
    case Some(f) => FieldRefs(f)
  }
}
