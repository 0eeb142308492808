/**
 What a built document says about JSON: the values its schemas accept, as OpenAPI 3.0.3 reads their
 keywords, against the values a message descriptor calls for.
 */
module OpenApiMeaning {
  import opened Wrappers
  import opened Text
  import opened Surface
  import opened OpenApiModel
  import opened OpenApiBuilder
  import opened OpenApiDocument
  import OpenApiTheorems

  datatype Json =
    | JsonNull
    | JsonBool(b: bool)
    | JsonNumber(x: real)
    | JsonString(s: string)
    | JsonArray(elements: seq<Json>)
    | JsonObject(members: map<string, Json>)

  predicate IsWhole(j: Json) {
    j.JsonNumber? && j.x == j.x.Floor as real
  }

  // ---- what a schema accepts ----

  predicate HasType(typ: string, j: Json) {
    match typ
    case "" => true
    case "boolean" => j.JsonBool?
    case "integer" => IsWhole(j)
    case "number" => j.JsonNumber?
    case "string" => j.JsonString?
    case "array" => j.JsonArray?
    case "object" => j.JsonObject?
    case _ => false
  }

  /** Formats and descriptions are annotations; members that no keyword speaks of are ignored. */
  ghost predicate Accepts(components: map<string, Schema>, s: Schema, j: Json)
    decreases j, if s.ref == "" then 0 else 1
  {
    if s.ref != "" then
      exists n :: n in components && s.ref == REF_PREFIX + n && components[n].ref == "" && Accepts(components, components[n], j)
    else if j.JsonNull? then s.nullable || s.typ == ""
    else
      && HasType(s.typ, j)
      && (s.enum != [] ==> j.JsonString? && j.s in s.enum)
      && (j.JsonArray? && s.items.Some? ==>
            forall i :: 0 <= i < |j.elements| ==> Accepts(components, s.items.value, j.elements[i]))
      && (j.JsonObject? ==>
            forall k :: k in j.members ==>
              if k in s.properties then Accepts(components, s.properties[k], j.members[k])
              else s.additional.AdditionalSchema? ==> Accepts(components, s.additional.schema, j.members[k]))
  }

  // ---- what a message calls for ----

  predicate IsNarrow(k: Kind) {
    k.Int32Kind? || k.Sint32Kind? || k.Sfixed32Kind? || k.Uint32Kind? || k.Fixed32Kind?
  }

  predicate IsWide(k: Kind) {
    k.Int64Kind? || k.Sint64Kind? || k.Sfixed64Kind? || k.Uint64Kind? || k.Fixed64Kind?
  }

  predicate IsFloating(k: Kind) {
    k.FloatKind? || k.DoubleKind?
  }

  /** How 64-bit integers are written: as JSON numbers, or as strings, the way ProtoJSON has them. */
  datatype Form = AsNumbers | AsStrings

  predicate IsDigits(s: string) {
    s != "" && forall i :: 0 <= i < |s| ==> '0' <= s[i] <= '9'
  }

  predicate IsIntegerText(s: string) {
    IsDigits(s) || (s != "" && s[0] == '-' && IsDigits(s[1..]))
  }

  /** A value that is not a message. Ranges aside; floating-point numbers are finite, and enum values declared ones. */
  predicate ScalarValue(form: Form, k: Kind, j: Json) {
    if k.BoolKind? then j.JsonBool?
    else if IsNarrow(k) then IsWhole(j)
    else if IsWide(k) then if form.AsNumbers? then IsWhole(j) else j.JsonString? && IsIntegerText(j.s)
    else if IsFloating(k) then j.JsonNumber?
    else j.JsonString? && (k.EnumKind? && k.values != [] ==> j.s in k.values)
  }

  /** The messages ProtoJSON writes in a form of their own. */
  datatype WellKnown = TextForm | ObjectForm | ListForm | AnyForm | WrapperOf(kind: Kind)

  function WellKnownForm(name: string): Option<WellKnown> {
    match name
    case "google.protobuf.Timestamp" => Some(TextForm)
    case "google.protobuf.Duration" => Some(TextForm)
    case "google.protobuf.FieldMask" => Some(TextForm)
    case "google.protobuf.Struct" => Some(ObjectForm)
    case "google.protobuf.Value" => Some(AnyForm)
    case "google.protobuf.ListValue" => Some(ListForm)
    case "google.protobuf.StringValue" => Some(WrapperOf(StringKind))
    case "google.protobuf.NumberValue" => Some(WrapperOf(DoubleKind))
    case "google.protobuf.BoolValue" => Some(WrapperOf(BoolKind))
    case "google.protobuf.Int32Value" => Some(WrapperOf(Int32Kind))
    case "google.protobuf.Int64Value" => Some(WrapperOf(Int64Kind))
    case "google.protobuf.UInt32Value" => Some(WrapperOf(Uint32Kind))
    case "google.protobuf.UInt64Value" => Some(WrapperOf(Uint64Kind))
    case "google.protobuf.FloatValue" => Some(WrapperOf(FloatKind))
    case "google.protobuf.DoubleValue" => Some(WrapperOf(DoubleKind))
    case "google.protobuf.BytesValue" => Some(WrapperOf(BytesKind))
    case "google.protobuf.Empty" => Some(ObjectForm)
    case "google.protobuf.Any" => Some(ObjectForm)
    case _ => None
  }

  /** An absent wrapper may be written as null. */
  predicate WellKnownValue(form: Form, w: WellKnown, j: Json) {
    match w
    case TextForm => j.JsonString?
    case ObjectForm => j.JsonObject?
    case ListForm => j.JsonArray?
    case AnyForm => true
    case WrapperOf(k) => j.JsonNull? || ScalarValue(form, k, j)
  }

  /** No later field has the JSON name of fields[i]. */
  predicate LastNamed(fields: seq<Field>, i: nat)
    requires i < |fields|
  {
    forall j :: i < j < |fields| ==> fields[j].jsonName != fields[i].jsonName
  }

  /** j is a message of that name: an object whose members have the values of the fields of their JSON names. */
  ghost predicate ReadsAs(u: Universe, form: Form, name: string, j: Json)
    decreases j, 0
  {
    && name in u
    && match WellKnownForm(name)
       case Some(w) => WellKnownValue(form, w, j)
       case None =>
         var fields := u[name].fields;
         && j.JsonObject?
         && forall i: nat :: i < |fields| && LastNamed(fields, i) && fields[i].jsonName in j.members ==>
              FieldValue(u, form, fields[i].shape, j.members[fields[i].jsonName])
  }

  ghost predicate KindValue(u: Universe, form: Form, k: Kind, j: Json)
    decreases j, 1
  {
    if k.MessageKind? || k.GroupKind? then ReadsAs(u, form, k.message, j) else ScalarValue(form, k, j)
  }

  /** One value, an array of values, or an object of values under arbitrary keys. */
  ghost predicate FieldValue(u: Universe, form: Form, shape: Shape, j: Json)
    decreases j, 2
  {
    match shape
    case Singular(k) => KindValue(u, form, k, j)
    case Repeated(k) => j.JsonArray? && forall i :: 0 <= i < |j.elements| ==> KindValue(u, form, k, j.elements[i])
    case MapOf(_, v) => j.JsonObject? && forall key :: key in j.members ==> KindValue(u, form, v, j.members[key])
  }

  // ---- the two agree ----

  lemma {:induction false} PropertiesAreFields(fields: seq<Field>)
    ensures Properties(fields).Keys == set f | f in fields :: f.jsonName
    ensures forall i: nat :: i < |fields| && LastNamed(fields, i) ==>
              fields[i].jsonName in Properties(fields) && Properties(fields)[fields[i].jsonName] == FieldSchemaOf(fields[i])
  {
    if fields != [] {
      var n := |fields| - 1;
      var init := fields[..n];
      PropertiesAreFields(init);
      assert fields == init + [fields[n]];
      forall i: nat | i < n && LastNamed(fields, i)
        ensures LastNamed(init, i) && fields[i].jsonName != fields[n].jsonName
      {
      }
    }
  }

  lemma {:induction false} LastOfName(fields: seq<Field>, name: string) returns (i: nat)
    requires exists f :: f in fields && f.jsonName == name
    ensures i < |fields| && fields[i].jsonName == name && LastNamed(fields, i)
  {
    var n := |fields| - 1;
    if fields[n].jsonName == name {
      i := n;
    } else {
      assert fields == fields[..n] + [fields[n]];
      i := LastOfName(fields[..n], name);
    }
  }

  lemma ScalarAccepts(components: map<string, Schema>, k: Kind, j: Json)
    requires !k.MessageKind? && !k.GroupKind?
    ensures Accepts(components, SingularSchemaOf(k), j) <==> ScalarValue(AsNumbers, k, j)
  {
  }

  function TypeName(k: Kind): string {
    if k.BoolKind? then "boolean"
    else if IsNarrow(k) || IsWide(k) then "integer"
    else if IsFloating(k) then "number"
    else "string"
  }

  function FormType(w: WellKnown): string {
    match w
    case TextForm => "string"
    case ObjectForm => "object"
    case ListForm => "array"
    case AnyForm => ""
    case WrapperOf(k) => TypeName(k)
  }

  /** The schema of a well-known form says only a type, and that a wrapper may be null. */
  ghost predicate DescribesForm(w: WellKnown, s: Schema) {
    && s.typ == FormType(w) && (s.nullable <==> w.AnyForm? || w.WrapperOf?)
    && s.ref == "" && s.enum == [] && s.properties == map[] && !s.additional.AdditionalSchema?
    && (s.items.Some? ==> s.items.value == ANY_JSON_VALUE)
  }

  lemma WellKnownAlike(name: string)
    ensures WellKnownSchema(name).Some? <==> WellKnownForm(name).Some?
  {
  }

  lemma TextType(name: string)
    requires WellKnownForm(name) == Some(TextForm)
    ensures WellKnownSchema(name).Some? && WellKnownSchema(name).value.typ == "string"
  {
  }

  lemma ObjectType(name: string)
    requires WellKnownForm(name) == Some(ObjectForm)
    ensures WellKnownSchema(name).Some? && WellKnownSchema(name).value.typ == "object"
  {
  }

  lemma ListType(name: string)
    requires WellKnownForm(name) == Some(ListForm)
    ensures WellKnownSchema(name).Some? && WellKnownSchema(name).value.typ == "array"
  {
  }

  lemma AnyType(name: string)
    requires WellKnownForm(name) == Some(AnyForm)
    ensures WellKnownSchema(name).Some? && WellKnownSchema(name).value.typ == ""
  {
  }

  lemma WrapperType(name: string)
    requires WellKnownForm(name).Some? && WellKnownForm(name).value.WrapperOf?
    ensures WellKnownSchema(name).Some? && WellKnownSchema(name).value.typ == TypeName(WellKnownForm(name).value.kind)
  {
  }

  lemma WellKnownPlain(name: string)
    requires WellKnownSchema(name).Some?
    ensures var s := WellKnownSchema(name).value;
            && s.ref == "" && s.enum == [] && s.properties == map[] && !s.additional.AdditionalSchema?
            && (s.items.Some? ==> s.items.value == ANY_JSON_VALUE)
  {
  }

  lemma WellKnownNullable(name: string)
    requires WellKnownForm(name).Some? && WellKnownSchema(name).Some?
    ensures WellKnownSchema(name).value.nullable <==> WellKnownForm(name).value.AnyForm? || WellKnownForm(name).value.WrapperOf?
  {
  }

  lemma WellKnownDescribed(name: string)
    requires WellKnownForm(name).Some?
    ensures WellKnownSchema(name).Some? && DescribesForm(WellKnownForm(name).value, WellKnownSchema(name).value)
  {
    WellKnownAlike(name);
    WellKnownPlain(name);
    WellKnownNullable(name);
    match WellKnownForm(name).value
    case TextForm => TextType(name);
    case ObjectForm => ObjectType(name);
    case ListForm => ListType(name);
    case AnyForm => AnyType(name);
    case WrapperOf(_) => WrapperType(name);
  }

  lemma AnyAccepts(components: map<string, Schema>, j: Json)
    ensures Accepts(components, ANY_JSON_VALUE, j)
  {
  }

  lemma FormAccepts(components: map<string, Schema>, w: WellKnown, s: Schema, j: Json)
    requires DescribesForm(w, s) && (w.WrapperOf? ==> !w.kind.EnumKind?)
    ensures Accepts(components, s, j) <==> WellKnownValue(AsNumbers, w, j)
  {
    if j.JsonArray? {
      forall i | 0 <= i < |j.elements| ensures Accepts(components, ANY_JSON_VALUE, j.elements[i]) {
        AnyAccepts(components, j.elements[i]);
      }
    }
  }

  lemma WrapsNoEnum(name: string)
    requires WellKnownForm(name).Some? && WellKnownForm(name).value.WrapperOf?
    ensures !WellKnownForm(name).value.kind.EnumKind?
  {
  }

  lemma ReferenceAccepts(components: map<string, Schema>, name: string, j: Json)
    ensures Accepts(components, RefSchema(name), j) <==>
              name in components && components[name].ref == "" && Accepts(components, components[name], j)
  {
    forall n | REF_PREFIX + n == REF_PREFIX + name ensures n == name {
      assert (REF_PREFIX + n)[|REF_PREFIX|..] == n && (REF_PREFIX + name)[|REF_PREFIX|..] == name;
    }
  }

  lemma {:induction false} KindAccepts(u: Universe, table: map<string, Schema>, k: Kind, j: Json)
    requires Finished(u, table) && KindRefs(k) <= table.Keys
    ensures Accepts(table, SingularSchemaOf(k), j) <==> KindValue(u, AsNumbers, k, j)
    decreases j, 1
  {
    if k.MessageKind? || k.GroupKind? {
      MessageKindRefers(k);
      ReferenceAccepts(table, k.message, j);
      ComponentAccepts(u, table, k.message, j);
    } else {
      ScalarAccepts(table, k, j);
    }
  }

  lemma {:induction false} FieldAccepts(u: Universe, table: map<string, Schema>, f: Field, j: Json)
    requires Finished(u, table) && FieldRefs(f) <= table.Keys
    ensures Accepts(table, FieldSchemaOf(f), j) <==> FieldValue(u, AsNumbers, f.shape, j)
    decreases j, 2
  {
    match f.shape
    case Singular(k) => KindAccepts(u, table, k, j);
    case Repeated(k) =>
      if j.JsonArray? {
        forall i | 0 <= i < |j.elements|
          ensures Accepts(table, SingularSchemaOf(k), j.elements[i]) <==> KindValue(u, AsNumbers, k, j.elements[i])
        {
          KindAccepts(u, table, k, j.elements[i]);
        }
      }
    case MapOf(_, v) =>
      if j.JsonObject? {
        forall key | key in j.members
          ensures Accepts(table, SingularSchemaOf(v), j.members[key]) <==> KindValue(u, AsNumbers, v, j.members[key])
        {
          KindAccepts(u, table, v, j.members[key]);
        }
      }
  }

  /** A component that is not well-known accepts an object exactly if each property accepts the member of its name. */
  ghost predicate MembersAccepted(table: map<string, Schema>, properties: map<string, Schema>, j: Json) {
    j.JsonObject? && forall k :: k in j.members && k in properties ==> Accepts(table, properties[k], j.members[k])
  }

  lemma ObjectAccepts(table: map<string, Schema>, s: Schema, j: Json)
    requires s.typ == "object" && s.ref == "" && s.enum == [] && !s.nullable && s.additional.NoAdditional?
    ensures Accepts(table, s, j) <==> MembersAccepted(table, s.properties, j)
  {
  }

  lemma {:induction false} ComponentAccepts(u: Universe, table: map<string, Schema>, name: string, j: Json)
    requires Finished(u, table) && name in table
    ensures table[name].ref == ""
    ensures Accepts(table, table[name], j) <==> ReadsAs(u, AsNumbers, name, j)
    decreases j, 0, 1
  {
    WellKnownAlike(name);
    match WellKnownForm(name)
    case Some(w) =>
      WellKnownDescribed(name);
      if w.WrapperOf? { WrapsNoEnum(name); }
      FormAccepts(table, w, table[name], j);
    case None =>
      ObjectAccepts(table, table[name], j);
      if j.JsonObject? { MembersRead(u, table, name, j); }
  }

  lemma {:induction false} MembersRead(u: Universe, table: map<string, Schema>, name: string, j: Json)
    requires Finished(u, table) && name in table && WellKnownForm(name).None? && WellKnownSchema(name).None? && j.JsonObject?
    ensures MembersAccepted(table, Properties(u[name].fields), j) <==> ReadsAs(u, AsNumbers, name, j)
    decreases j, 0, 0
  {
    var fields := u[name].fields;
    PropertiesAreFields(fields);
    forall i: nat | i < |fields| && LastNamed(fields, i) && fields[i].jsonName in j.members
      ensures Accepts(table, Properties(fields)[fields[i].jsonName], j.members[fields[i].jsonName])
              <==> FieldValue(u, AsNumbers, fields[i].shape, j.members[fields[i].jsonName])
    {
      assert fields[i] in fields;
      FieldAccepts(u, table, fields[i], j.members[fields[i].jsonName]);
    }
    if ReadsAs(u, AsNumbers, name, j) {
      forall k | k in j.members && k in Properties(fields)
        ensures Accepts(table, Properties(fields)[k], j.members[k])
      {
        var i := LastOfName(fields, k);
      }
    }
  }

  // ---- what a built document says ----

  lemma TableIsFinished(u: Universe, ops: seq<SurfaceOp>, routes: seq<Route>, d: Document)
    requires Resolved(u) && forall op :: op in ops ==> op.input in u && op.output in u
    requires IsDocument(u, ops, routes, d)
    ensures Finished(u, d.schemas)
  {
    forall n | n in d.schemas ensures Succ(u, n) <= d.schemas.Keys {
      OpenApiTheorems.ReachSetClosed(u, RequestedRoots(u, ops, FinalPaths(routes)), n);
    }
  }

  /** A reference to a component accepts exactly the JSON of that message, with 64-bit integers as numbers. */
  lemma ComponentMeaning(u: Universe, ops: seq<SurfaceOp>, routes: seq<Route>, d: Document, name: string)
    requires Resolved(u) && forall op :: op in ops ==> op.input in u && op.output in u
    requires IsDocument(u, ops, routes, d) && name in d.schemas
    ensures forall j :: Accepts(d.schemas, RefSchema(name), j) <==> ReadsAs(u, AsNumbers, name, j)
  {
    TableIsFinished(u, ops, routes, d);
    forall j ensures Accepts(d.schemas, RefSchema(name), j) <==> ReadsAs(u, AsNumbers, name, j) {
      ReferenceAccepts(d.schemas, name, j);
      ComponentAccepts(u, d.schemas, name, j);
    }
  }

  function FormatName(k: Kind): string {
    if IsNarrow(k) then "int32"
    else if IsWide(k) then "int64"
    else if k.FloatKind? then "float"
    else if k.DoubleKind? then "double"
    else if k.BytesKind? then "byte"
    else ""
  }

  /** The schema of one value: a bare reference, or a scalar type with its format and enum values. */
  ghost predicate DescribesKind(k: Kind, s: Schema) {
    && s.items == None && s.additional == NoAdditional && s.properties == map[] && !s.nullable
    && if k.MessageKind? || k.GroupKind? then
         s.ref == "#/components/schemas/" + k.message && s.typ == "" && s.format == "" && s.enum == []
       else
         s.ref == "" && s.typ == TypeName(k) && s.format == FormatName(k) && s.enum == if k.EnumKind? then k.values else []
  }

  ghost predicate DescribesShape(shape: Shape, s: Schema) {
    match shape
    case Singular(k) => DescribesKind(k, s)
    case Repeated(k) => s.ref == "" && s.typ == "array" && s.items.Some? && DescribesKind(k, s.items.value)
    case MapOf(_, v) => s.ref == "" && s.typ == "object" && s.additional.AdditionalSchema? && DescribesKind(v, s.additional.schema)
  }

  lemma TypeIs(k: Kind)
    requires !k.MessageKind? && !k.GroupKind?
    ensures SingularSchemaOf(k).typ == TypeName(k)
  {
  }

  lemma FormatIs(k: Kind)
    requires !k.MessageKind? && !k.GroupKind?
    ensures SingularSchemaOf(k).format == FormatName(k)
  {
  }

  lemma ScalarIsPlain(k: Kind)
    requires !k.MessageKind? && !k.GroupKind?
    ensures var s := SingularSchemaOf(k);
            && s.items == None && s.additional == NoAdditional && s.properties == map[] && !s.nullable && s.ref == ""
            && s.enum == if k.EnumKind? then k.values else []
  {
  }

  lemma KindDescribed(k: Kind)
    ensures DescribesKind(k, SingularSchemaOf(k))
  {
    if k.MessageKind? || k.GroupKind? {
      MessageKindRefers(k);
    } else {
      TypeIs(k);
      FormatIs(k);
      ScalarIsPlain(k);
    }
  }

  lemma ShapeDescribed(f: Field)
    ensures DescribesShape(f.shape, FieldSchemaOf(f))
  {
    match f.shape
    case Singular(k) => KindDescribed(k);
    case Repeated(k) => KindDescribed(k);
    case MapOf(_, v) => KindDescribed(v);
  }

  lemma OneofsNoted(oneofs: seq<string>)
    ensures if oneofs == [] then OneofNote(oneofs) == ""
            else "oneof constraint: " + Join(oneofs, " / ") <= OneofNote(oneofs)
  {
  }

  /**
   The properties of a component are the JSON names of its message's fields; each has the shape of its
   field, the last one where several share the name.
   */
  lemma ComponentProperties(u: Universe, ops: seq<SurfaceOp>, routes: seq<Route>, d: Document, name: string)
    requires Resolved(u) && forall op :: op in ops ==> op.input in u && op.output in u
    requires IsDocument(u, ops, routes, d) && name in d.schemas && WellKnownForm(name).None?
    ensures name in u && d.schemas[name].typ == "object" && d.schemas[name].ref == ""
    ensures if u[name].oneofs == [] then d.schemas[name].description == ""
            else "oneof constraint: " + Join(u[name].oneofs, " / ") <= d.schemas[name].description
    ensures d.schemas[name].properties.Keys == set f | f in u[name].fields :: f.jsonName
    ensures forall i: nat :: i < |u[name].fields| && LastNamed(u[name].fields, i) ==>
              DescribesShape(u[name].fields[i].shape, d.schemas[name].properties[u[name].fields[i].jsonName])
  {
    WellKnownAlike(name);
    OneofsNoted(u[name].oneofs);
    var fields := u[name].fields;
    PropertiesAreFields(fields);
    forall i: nat | i < |fields| && LastNamed(fields, i)
      ensures DescribesShape(fields[i].shape, d.schemas[name].properties[fields[i].jsonName])
    {
      ShapeDescribed(fields[i]);
    }
  }

  /** A well-known component has the type of its form; only wrappers and arbitrary values may be null. */
  lemma WellKnownComponent(u: Universe, ops: seq<SurfaceOp>, routes: seq<Route>, d: Document, name: string)
    requires forall op :: op in ops ==> op.input in u && op.output in u
    requires IsDocument(u, ops, routes, d) && name in d.schemas && WellKnownForm(name).Some?
    ensures DescribesForm(WellKnownForm(name).value, d.schemas[name])
  {
    WellKnownDescribed(name);
  }

  // ---- against ProtoJSON ----

  function ElementKind(shape: Shape): Kind {
    match shape
    case Singular(k) => k
    case Repeated(k) => k
    case MapOf(_, v) => v
  }

  /** Some value inside a message, not counting those of other messages, is a 64-bit integer. */
  ghost predicate HoldsWide(u: Universe, name: string)
    requires name in u
  {
    match WellKnownForm(name)
    case Some(w) => w.WrapperOf? && IsWide(w.kind)
    case None => exists f :: f in u[name].fields && IsWide(ElementKind(f.shape))
  }

  /** Nothing a message can contain is a 64-bit integer. */
  ghost predicate NoWide(u: Universe, name: string) {
    forall n :: n in u && Reachable(u, name, n) ==> !HoldsWide(u, n)
  }

  lemma NoWideBelow(u: Universe, name: string, m: string)
    requires name in u && NoWide(u, name) && m in Succ(u, name)
    ensures NoWide(u, m)
  {
    forall n | n in u && Reachable(u, m, n) ensures !HoldsWide(u, n) {
      ReachablePrepend(u, name, m, n);
    }
  }

  lemma {:induction false} NoWideReadsAlike(u: Universe, name: string, j: Json)
    requires NoWide(u, name)
    ensures ReadsAs(u, AsNumbers, name, j) <==> ReadsAs(u, AsStrings, name, j)
    decreases j, 0
  {
    if name in u {
      ReachableSelf(u, name);
      WellKnownAlike(name);
      if WellKnownForm(name).None? && j.JsonObject? {
        var fields := u[name].fields;
        forall i: nat | i < |fields| && LastNamed(fields, i) && fields[i].jsonName in j.members
          ensures FieldValue(u, AsNumbers, fields[i].shape, j.members[fields[i].jsonName])
                  <==> FieldValue(u, AsStrings, fields[i].shape, j.members[fields[i].jsonName])
        {
          FieldReadsAlike(u, name, fields[i], j.members[fields[i].jsonName]);
        }
      }
    }
  }

  lemma {:induction false} FieldReadsAlike(u: Universe, name: string, f: Field, j: Json)
    requires name in u && NoWide(u, name) && WellKnownForm(name).None? && f in u[name].fields
    ensures FieldValue(u, AsNumbers, f.shape, j) <==> FieldValue(u, AsStrings, f.shape, j)
    decreases j, 2
  {
    match f.shape
    case Singular(k) => KindReadsAlike(u, name, f, j);
    case Repeated(k) =>
      if j.JsonArray? {
        forall i | 0 <= i < |j.elements|
          ensures KindValue(u, AsNumbers, k, j.elements[i]) <==> KindValue(u, AsStrings, k, j.elements[i])
        {
          KindReadsAlike(u, name, f, j.elements[i]);
        }
      }
    case MapOf(_, v) =>
      if j.JsonObject? {
        forall key | key in j.members
          ensures KindValue(u, AsNumbers, v, j.members[key]) <==> KindValue(u, AsStrings, v, j.members[key])
        {
          KindReadsAlike(u, name, f, j.members[key]);
        }
      }
  }

  lemma {:induction false} KindReadsAlike(u: Universe, name: string, f: Field, j: Json)
    requires name in u && NoWide(u, name) && WellKnownForm(name).None? && f in u[name].fields
    ensures KindValue(u, AsNumbers, ElementKind(f.shape), j) <==> KindValue(u, AsStrings, ElementKind(f.shape), j)
    decreases j, 1
  {
    var k := ElementKind(f.shape);
    ReachableSelf(u, name);
    assert !HoldsWide(u, name);
    if k.MessageKind? || k.GroupKind? {
      WellKnownAlike(name);
      FieldRefersTo(u, name, f);
      NoWideBelow(u, name, k.message);
      NoWideReadsAlike(u, k.message, j);
    }
  }

  lemma FieldRefersTo(u: Universe, name: string, f: Field)
    requires name in u && WellKnownSchema(name).None? && f in u[name].fields
    ensures ElementKind(f.shape).MessageKind? || ElementKind(f.shape).GroupKind? ==> ElementKind(f.shape).message in Succ(u, name)
  {
    assert FieldRefs(f) == KindRefs(ElementKind(f.shape));
  }

  /** As protobuf requires, no two fields of a message share a JSON name. */
  ghost predicate DistinctJsonNames(u: Universe) {
    forall n :: n in u ==> forall i, j :: 0 <= i < j < |u[n].fields| ==> u[n].fields[i].jsonName != u[n].fields[j].jsonName
  }

  /** A message with one value, in the field f. */
  function Holding(f: Field, x: Json): Json {
    JsonObject(map[f.jsonName := match f.shape case Singular(_) => x case Repeated(_) => JsonArray([x]) case MapOf(_, _) => JsonObject(map["" := x])])
  }

  lemma HoldingReads(u: Universe, form: Form, name: string, f: Field, x: Json)
    requires name in u && DistinctJsonNames(u) && WellKnownForm(name).None? && f in u[name].fields
    ensures ReadsAs(u, form, name, Holding(f, x)) <==> KindValue(u, form, ElementKind(f.shape), x)
  {
    var fields := u[name].fields;
    var k: nat :| k < |fields| && fields[k] == f;
    var j := Holding(f, x).members[f.jsonName];
    assert LastNamed(fields, k);
    assert forall i: nat :: i < |fields| && fields[i].jsonName == f.jsonName ==> i == k;
    HeldReads(u, form, f.shape, x, j);
  }

  lemma HeldReads(u: Universe, form: Form, shape: Shape, x: Json, j: Json)
    requires j == match shape case Singular(_) => x case Repeated(_) => JsonArray([x]) case MapOf(_, _) => JsonObject(map["" := x])
    ensures FieldValue(u, form, shape, j) <==> KindValue(u, form, ElementKind(shape), x)
  {
    if shape.Repeated? { assert j.elements[0] == x; }
    if shape.MapOf? { assert "" in j.members && j.members[""] == x; }
  }

  const ONE := JsonString("1")

  lemma WideScalarIsRefused(k: Kind)
    requires IsWide(k)
    ensures ScalarValue(AsStrings, k, ONE) && !ScalarValue(AsNumbers, k, ONE)
  {
    assert IsDigits("1");
  }

  lemma WideHereIsRefused(u: Universe, name: string) returns (j: Json)
    requires DistinctJsonNames(u) && name in u && HoldsWide(u, name)
    ensures ReadsAs(u, AsStrings, name, j) && !ReadsAs(u, AsNumbers, name, j)
  {
    match WellKnownForm(name)
    case Some(w) =>
      WideScalarIsRefused(w.kind);
      j := ONE;
    case None =>
      var f :| f in u[name].fields && IsWide(ElementKind(f.shape));
      WideScalarIsRefused(ElementKind(f.shape));
      HoldingReads(u, AsStrings, name, f, ONE);
      HoldingReads(u, AsNumbers, name, f, ONE);
      j := Holding(f, ONE);
  }

  /** Along a path to a message with a 64-bit integer there is a value that ProtoJSON writes and the document refuses. */
  lemma {:induction false} WideIsRefused(u: Universe, p: seq<string>) returns (j: Json)
    requires Resolved(u) && DistinctJsonNames(u) && IsPath(u, p) && p[|p| - 1] in u && HoldsWide(u, p[|p| - 1])
    ensures ReadsAs(u, AsStrings, p[0], j) && !ReadsAs(u, AsNumbers, p[0], j)
    decreases |p|, 1
  {
    var name := p[0];
    WellKnownAlike(name);
    if |p| == 1 {
      j := WideHereIsRefused(u, name);
    } else {
      var x := WideIsRefusedBelow(u, p);
      var f := RefersThrough(u, name, p[1]);
      HoldingReads(u, AsStrings, name, f, x);
      HoldingReads(u, AsNumbers, name, f, x);
      j := Holding(f, x);
    }
  }

  lemma {:induction false} WideIsRefusedBelow(u: Universe, p: seq<string>) returns (j: Json)
    requires Resolved(u) && DistinctJsonNames(u) && IsPath(u, p) && p[|p| - 1] in u && HoldsWide(u, p[|p| - 1]) && |p| > 1
    ensures p[0] in u && p[1] in Succ(u, p[0])
    ensures ReadsAs(u, AsStrings, p[1], j) && !ReadsAs(u, AsNumbers, p[1], j)
    decreases |p|, 0
  {
    var q := p[1..];
    assert p[0 + 1] in Succ(u, p[0]);
    forall i | 0 <= i < |q| - 1
      ensures q[i] in u && q[i + 1] in Succ(u, q[i])
    {
      assert q[i] == p[i + 1] && q[i + 1] == p[i + 1 + 1];
    }
    j := WideIsRefused(u, q);
  }

  lemma RefersThrough(u: Universe, name: string, m: string) returns (f: Field)
    requires name in u && m in Succ(u, name)
    ensures WellKnownForm(name).None? && f in u[name].fields
    ensures var k := ElementKind(f.shape); (k.MessageKind? || k.GroupKind?) && k.message == m
  {
    WellKnownAlike(name);
    f :| f in u[name].fields && m in FieldRefs(f);
    assert FieldRefs(f) == KindRefs(ElementKind(f.shape));
  }

  /**
   A component accepts exactly the ProtoJSON of its message if and only if no 64-bit integer can occur in
   it: those are documented as JSON integers, where ProtoJSON writes strings.
   */
  lemma DescribesProtoJsonExactly(u: Universe, ops: seq<SurfaceOp>, routes: seq<Route>, d: Document, name: string)
    requires Resolved(u) && DistinctJsonNames(u) && forall op :: op in ops ==> op.input in u && op.output in u
    requires IsDocument(u, ops, routes, d) && name in d.schemas
    ensures (forall j :: Accepts(d.schemas, RefSchema(name), j) <==> ReadsAs(u, AsStrings, name, j)) <==> NoWide(u, name)
  {
    ComponentMeaning(u, ops, routes, d, name);
    if NoWide(u, name) {
      forall j ensures Accepts(d.schemas, RefSchema(name), j) <==> ReadsAs(u, AsStrings, name, j) {
        NoWideReadsAlike(u, name, j);
      }
    } else {
      var n :| n in u && Reachable(u, name, n) && HoldsWide(u, n);
      var p :| IsPath(u, p) && p[0] == name && p[|p| - 1] == n;
      var j := WideIsRefused(u, p);
      assert Accepts(d.schemas, RefSchema(name), j) <==> ReadsAs(u, AsNumbers, name, j);
    }
  }

  /** A message with one int64 field n: its ProtoJSON {"n": "1"} is refused by its own component. */
  lemma Int64IsRefused()
    ensures var u := map["m" := Message([Field("n", "n", Singular(Int64Kind))], [])];
            var j := JsonObject(map["n" := JsonString("1")]);
            && Finished(u, map["m" := SchemaOf(u, "m")])
            && ReadsAs(u, AsStrings, "m", j) && !Accepts(map["m" := SchemaOf(u, "m")], RefSchema("m"), j)
  {
    var f := Field("n", "n", Singular(Int64Kind));
    var u := map["m" := Message([f], [])];
    var table := map["m" := SchemaOf(u, "m")];
    assert AllFieldRefs([f]) == {};
    WideScalarIsRefused(Int64Kind);
    WellKnownAlike("m");
    assert u["m"].fields[0] == f;
    HoldingReads(u, AsStrings, "m", f, ONE);
    HoldingReads(u, AsNumbers, "m", f, ONE);
    assert Holding(f, ONE) == JsonObject(map["n" := JsonString("1")]);
    ReferenceAccepts(table, "m", Holding(f, ONE));
    ComponentAccepts(u, table, "m", Holding(f, ONE));
  }
}
