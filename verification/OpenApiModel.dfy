/**
 The data the OpenAPI projection works on: message descriptors in, schemas out,
 and the schema each descriptor should get (openapi/openapi.go).
 */
module OpenApiModel {
  import opened Wrappers
  import opened Text

  // ---- descriptors ----

  datatype Kind =
    | BoolKind
    | Int32Kind | Sint32Kind | Sfixed32Kind
    | Int64Kind | Sint64Kind | Sfixed64Kind
    | Uint32Kind | Fixed32Kind
    | Uint64Kind | Fixed64Kind
    | FloatKind | DoubleKind
    | StringKind | BytesKind
    | EnumKind(values: seq<string>)
    | MessageKind(message: string)
    | GroupKind(message: string)

  /** A map field is itself of message kind: its message is the synthesised entry type. */
  datatype Shape =
    | Singular(kind: Kind)
    | Repeated(kind: Kind)
    | MapOf(entry: string, value: Kind)

  datatype Field = Field(name: string, jsonName: string, shape: Shape)

  datatype Message = Message(fields: seq<Field>, oneofs: seq<string>)

  /** All messages a descriptor pool knows, by full name. */
  type Universe = map<string, Message>

  function KindRefs(k: Kind): set<string> {
    if k.MessageKind? || k.GroupKind? then {k.message} else {}
  }

  /** The messages whose schema a field's schema mentions. */
  function FieldRefs(f: Field): set<string> {
    match f.shape
    case Singular(k) => KindRefs(k)
    case Repeated(k) => KindRefs(k)
    case MapOf(_, v) => KindRefs(v)
  }

  /** The message a field path may continue into. */
  function FieldMessage(f: Field): Option<string> {
    match f.shape
    case MapOf(entry, _) => Some(entry)
    case _ =>
      if f.shape.kind.MessageKind? || f.shape.kind.GroupKind? then Some(f.shape.kind.message) else None
  }

  /** Descriptors arrive linked: every message a field names exists. */
  ghost predicate Resolved(u: Universe) {
    forall n, f :: n in u && f in u[n].fields ==>
      FieldRefs(f) <= u.Keys && (FieldMessage(f).Some? ==> FieldMessage(f).value in u)
  }

  // ---- schemas ----

  datatype Additional = NoAdditional | AnyAdditional | AdditionalSchema(schema: Schema)

  datatype Schema = Schema(
    nameonly ref: string := "",
    nameonly typ: string := "",
    nameonly format: string := "",
    nameonly description: string := "",
    nameonly items: Option<Schema> := None,
    nameonly properties: map<string, Schema> := map[],
    nameonly additional: Additional := NoAdditional,
    nameonly enum: seq<string> := [],
    nameonly nullable: bool := false)

  const REF_PREFIX := "#/components/schemas/"

  function RefSchema(name: string): Schema {
    Schema(ref := REF_PREFIX + name)
  }

  /** Every $ref inside s, at any depth, names one of the given components. */
  ghost predicate RefsIn(s: Schema, names: set<string>) {
    && (s.ref == "" || exists n :: n in names && s.ref == REF_PREFIX + n)
    && (s.items.Some? ==> RefsIn(s.items.value, names))
    && (s.additional.AdditionalSchema? ==> RefsIn(s.additional.schema, names))
    && (forall k :: k in s.properties ==> RefsIn(s.properties[k], names))
  }

  /** The types protojson encodes specially (openapi/openapi.go, wellKnownSchema). */
  function WellKnownSchema(name: string): Option<Schema> {
    match name
    case "google.protobuf.Timestamp" => Some(Schema(typ := "string", format := "date-time"))
    case "google.protobuf.Duration" => Some(Schema(typ := "string", description := "duration string (e.g. \"30s\")"))
    case "google.protobuf.FieldMask" => Some(Schema(typ := "string"))
    case "google.protobuf.Struct" => Some(Schema(typ := "object", additional := AnyAdditional))
    case "google.protobuf.Value" => Some(ANY_JSON_VALUE)
    case "google.protobuf.ListValue" => Some(Schema(typ := "array", items := Some(ANY_JSON_VALUE)))
    case "google.protobuf.StringValue" => Some(Schema(typ := "string", nullable := true))
    case "google.protobuf.NumberValue" => Some(Schema(typ := "number", nullable := true))
    case "google.protobuf.BoolValue" => Some(Schema(typ := "boolean", nullable := true))
    case "google.protobuf.Int32Value" => Some(Schema(typ := "integer", format := "int32", nullable := true))
    case "google.protobuf.Int64Value" => Some(Schema(typ := "integer", format := "int64", nullable := true))
    case "google.protobuf.UInt32Value" => Some(Schema(typ := "integer", format := "int32", nullable := true))
    case "google.protobuf.UInt64Value" => Some(Schema(typ := "integer", format := "int64", nullable := true))
    case "google.protobuf.FloatValue" => Some(Schema(typ := "number", format := "float", nullable := true))
    case "google.protobuf.DoubleValue" => Some(Schema(typ := "number", format := "double", nullable := true))
    case "google.protobuf.BytesValue" => Some(Schema(typ := "string", format := "byte", nullable := true))
    case "google.protobuf.Empty" => Some(Schema(typ := "object"))
    case "google.protobuf.Any" => Some(Schema(typ := "object"))
    case _ => None
  }

  const ANY_JSON_VALUE := Schema(nullable := true, description := "any JSON value")

  function SingularSchemaOf(k: Kind): Schema {
    match k
    case BoolKind => Schema(typ := "boolean")
    case Int32Kind | Sint32Kind | Sfixed32Kind => Schema(typ := "integer", format := "int32")
    case Int64Kind | Sint64Kind | Sfixed64Kind => Schema(typ := "integer", format := "int64")
    case Uint32Kind | Fixed32Kind =>
      Schema(typ := "integer", format := "int32", description := "uint32 (protojson emits number)")
    case Uint64Kind | Fixed64Kind =>
      Schema(typ := "integer", format := "int64", description := "uint64 (protojson emits number)")
    case FloatKind => Schema(typ := "number", format := "float")
    case DoubleKind => Schema(typ := "number", format := "double")
    case StringKind => Schema(typ := "string")
    case BytesKind => Schema(typ := "string", format := "byte")
    case EnumKind(values) => Schema(typ := "string", enum := values)
    case MessageKind(m) => RefSchema(m)
    case GroupKind(m) => RefSchema(m)
  }

  function FieldSchemaOf(f: Field): Schema {
    match f.shape
    case Singular(k) => SingularSchemaOf(k)
    case Repeated(k) => Schema(typ := "array", items := Some(SingularSchemaOf(k)))
    case MapOf(_, v) => Schema(typ := "object", additional := AdditionalSchema(SingularSchemaOf(v)))
  }

  /** Later fields win when two share a JSON name. */
  function Properties(fields: seq<Field>): map<string, Schema> {
    if fields == [] then map[]
    else
      var last := fields[|fields| - 1];
      Properties(fields[..|fields| - 1])[last.jsonName := FieldSchemaOf(last)]
  }

  function OneofNote(oneofs: seq<string>): string {
    if oneofs == [] then ""
    else "oneof constraint: " + Join(oneofs, " / ") + " — exactly one member is set (protojson)."
  }

  /** The finished component schema of a message. */
  function SchemaOf(u: Universe, name: string): Schema
    requires name in u
  {
    match WellKnownSchema(name)
    case Some(s) => s
    case None =>
      Schema(typ := "object", properties := Properties(u[name].fields), description := OneofNote(u[name].oneofs))
  }

  // ---- the reference graph ----

  function AllFieldRefs(fields: seq<Field>): set<string> {
    set f, n | f in fields && n in FieldRefs(f) :: n
  }

  /** Messages that the schema of a message refers to; well-known types refer to none. */
  function Succ(u: Universe, name: string): set<string>
    requires name in u
  {
    if WellKnownSchema(name).Some? then {} else AllFieldRefs(u[name].fields)
  }

  ghost predicate IsPath(u: Universe, p: seq<string>) {
    && |p| > 0
    && forall i :: 0 <= i < |p| - 1 ==> p[i] in u && p[i + 1] in Succ(u, p[i])
  }

  ghost predicate Reachable(u: Universe, a: string, b: string) {
    exists p :: IsPath(u, p) && p[0] == a && p[|p| - 1] == b
  }

  ghost function ReachSet(u: Universe, roots: set<string>): set<string> {
    set n | n in u && exists r :: r in roots && Reachable(u, r, n)
  }

  lemma ReachableSelf(u: Universe, a: string)
    ensures Reachable(u, a, a)
  {
    assert IsPath(u, [a]);
  }

  lemma ReachablePrepend(u: Universe, a: string, b: string, c: string)
    requires a in u && b in Succ(u, a) && Reachable(u, b, c)
    ensures Reachable(u, a, c)
  {
    var p :| IsPath(u, p) && p[0] == b && p[|p| - 1] == c;
    var q := [a] + p;
    forall i | 0 <= i < |q| - 1
      ensures q[i] in u && q[i + 1] in Succ(u, q[i])
    {
      if i > 0 { assert q[i] == p[i - 1] && q[i + 1] == p[i]; }
    }
    assert IsPath(u, q);
  }

  /** A set closed under Succ contains everything reachable from it. */
  lemma {:induction false} ClosedContainsPath(u: Universe, closed: set<string>, p: seq<string>)
    requires closed <= u.Keys && forall n :: n in closed ==> Succ(u, n) <= closed
    requires IsPath(u, p) && p[0] in closed
    ensures p[|p| - 1] in closed
  {
    if |p| > 1 {
      assert p[0 + 1] in Succ(u, p[0]);
      var q := p[1..];
      forall i | 0 <= i < |q| - 1
        ensures q[i] in u && q[i + 1] in Succ(u, q[i])
      {
        assert q[i] == p[i + 1] && q[i + 1] == p[i + 1 + 1];
      }
      ClosedContainsPath(u, closed, q);
    }
  }
}
