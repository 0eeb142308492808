/** Where each part of a built operation comes from, in terms of what the provider declares. */
module BuildMeaning {
  import opened Wrappers
  import opened Text
  import opened Sorting
  import opened PolicySpec
  import opened Descriptors
  import opened PolicyValidation
  import opened Presets
  import opened PolicySet
  import opened PolicyBuild
  import opened BuildTheorems

  // ---- declarations ----

  /** What a lookup declares; finding nothing counts as an empty declaration. */
  predicate Declares<T(==)>(lookup: Result<Option<T>, string>, empty: T, x: T) {
    lookup == Success(Some(x)) || (lookup == Success(None) && x == empty)
  }

  ghost predicate Declared(opts: Options, t: Target, f: FileSpec, s: ServiceSpec, m: MethodSpec) {
    && Declares(opts.provider.file(t.file), FileSpec("", 0, None, ExposureUnspecified), f)
    && Declares(opts.provider.service(t.service), ServiceSpec(None, ExposureUnspecified), s)
    && Declares(opts.provider.method_(t.service, t.method_), MethodSpec(None, ExposureUnspecified, "", "", false, 0), m)
  }

  /** The default policy in force: the service's, or else the file's. */
  ghost predicate IsDefault(f: FileSpec, s: ServiceSpec, d: Option<Policy>) {
    d == if s.defaultPolicy.Some? then s.defaultPolicy else f.defaultPolicy
  }

  // ---- the policy ----

  ghost predicate SameRequirements(p: Policy, q: Policy) {
    p.require == q.require && p.anyOf == q.anyOf && p.forbid == q.forbid && p.anonymous == q.anonymous
  }

  /** Both layers' requirements, the default's first; anonymous when both layers leave it at that. */
  ghost predicate IsMerge(p: Policy, default: Policy, own: Policy) {
    && p.require == default.require + own.require
    && p.anyOf == default.anyOf + own.anyOf
    && p.forbid == default.forbid + own.forbid
    && (p.anonymous <==> default.anonymous && (own.anonymous || (own.require == [] && own.anyOf == [])))
  }

  /** What p expands to. */
  ghost predicate ExpandsTo(ps: PresetSet, p: Option<Policy>, e: Option<Policy>) {
    e == if p.Some? then Expand(ps, p.value, []) else None
  }

  /**
   p is the policy of a method declared as m under the default d: the method's own, unless it has none and
   gets the default, or inherits and gets the merge. All that is declared must expand, used or not.
   */
  ghost predicate IsPolicyOf(ps: PresetSet, d: Option<Policy>, m: MethodSpec, p: Policy) {
    && p.preset == "" && p.presetArgs == map[] && (d.Some? || m.policy.Some?)
    && (d.Some? ==> Expand(ps, d.value, []).Some?)
    && (m.policy.Some? ==> Expand(ps, m.policy.value, []).Some?)
    && (m.policy.None? ==> SameRequirements(p, Expand(ps, d.value, []).value))
    && (m.policy.Some? && (d.None? || !m.inheritDefault) ==> SameRequirements(p, Expand(ps, m.policy.value, []).value))
    && (m.policy.Some? && d.Some? && m.inheritDefault ==>
          IsMerge(p, Expand(ps, d.value, []).value, Expand(ps, m.policy.value, []).value))
  }

  lemma EffectiveExactly(ps: PresetSet, d: Option<Policy>, m: MethodSpec, p: Policy)
    ensures IsPolicyOf(ps, d, m, p) <==>
              Effective(ps, d, m).Some? && p == Effective(ps, d, m).value.(preset := "", presetArgs := map[])
  {
  }

  // ---- the other parts ----

  /** The first specified of the method's, the service's and the file's exposure. */
  ghost predicate IsExposureOf(f: FileSpec, s: ServiceSpec, m: MethodSpec, e: Exposure) {
    e == if m.exposure != ExposureUnspecified then m.exposure
         else if s.defaultExposure != ExposureUnspecified then s.defaultExposure
         else f.defaultExposure
  }

  /** The preset a label falls back on: the method's own, or else the default's. */
  ghost predicate IsPresetOf(d: Option<Policy>, m: MethodSpec, name: string) {
    name == if m.policy.Some? && m.policy.value.preset != "" then m.policy.value.preset
            else if d.Some? then d.value.preset
            else ""
  }

  ghost predicate IsApiOf(opts: Options, file: File, f: FileSpec, api: string) {
    api == if f.api != "" then f.api
           else if opts.apiResolver.Some? then opts.apiResolver.value(file)
           else ""
  }

  predicate IsStreaming(m: Method) {
    m.clientStreaming || m.serverStreaming
  }

  ghost predicate IsStreamAuthOf(m: MethodSpec, mode: StreamAuthMode) {
    mode == if m.streamAuth == 0 then STREAM_AUTH_OPEN else m.streamAuth
  }

  /** Names and labels of an operation. */
  ghost predicate IsLabelled(t: Target, d: Option<Policy>, m: MethodSpec, op: Operation) {
    exists preset :: IsPresetOf(d, m, preset)
      && op.docLabel == (if m.docLabel != "" then m.docLabel else preset)
      && op.metadata == (if preset != "" then map["preset" := preset] else map[])
      && op.operationId == (if m.operationId != "" then m.operationId else t.service.name + "_" + t.method_.name)
  }

  /** The parts that come from the descriptors alone. */
  ghost predicate Describes(t: Target, op: Operation) {
    && op.id == "/" + t.service.fullName + "/" + t.method_.name
    && op.kind == GrpcMethod && op.service == t.service.fullName
    && op.streaming == IsStreaming(t.method_)
    && multiset(op.requestFields) == multiset(t.method_.inputFields)
    && forall i, j :: 0 <= i < j < |op.requestFields| ==> !Less(op.requestFields[j], op.requestFields[i])
  }

  /** op is the operation that these declarations ask for. */
  ghost predicate IsOperationOf(opts: Options, ps: PresetSet, t: Target, f: FileSpec, s: ServiceSpec, m: MethodSpec,
                                d: Option<Policy>, op: Operation) {
    && IsPolicyOf(ps, d, m, op.policy)
    && IsExposureOf(f, s, m, op.exposure)
    && IsApiOf(opts, t.file, f, op.api)
    && IsStreamAuthOf(m, op.streamAuth)
    && IsLabelled(t, d, m, op)
    && Describes(t, op)
  }

  /** What an operation must satisfy for its method not to be a violation. */
  ghost predicate Acceptable(opts: Options, t: Target, op: Operation) {
    && ValidPolicy(op.policy, opts.kinds, opts.vocab)
    && op.exposure != ExposureUnspecified
    && (IsStreaming(t.method_) ==> !opts.disableStreaming)
    && (t.method_.clientStreaming ==> op.exposure != ExposurePublic && op.exposure != ExposureDeprecated)
    && (op.streamAuth == STREAM_AUTH_OPEN || op.streamAuth == STREAM_AUTH_PER_MESSAGE)
  }

  lemma LabelsAgree(t: Target, d: Option<Policy>, m: MethodSpec, op: Operation)
    ensures IsLabelled(t, d, m, op) <==>
              && op.docLabel == OrDefault(m.docLabel, PresetName(d, m))
              && op.metadata == (if PresetName(d, m) != "" then map["preset" := PresetName(d, m)] else map[])
              && op.operationId == OrDefault(m.operationId, t.service.name + "_" + t.method_.name)
  {
    assert IsPresetOf(d, m, PresetName(d, m));
  }

  lemma FieldsAgree(t: Target, op: Operation)
    ensures Describes(t, op) <==>
              && op.id == FullMethod(t.service, t.method_)
              && op.kind == GrpcMethod && op.service == t.service.fullName
              && op.streaming == IsStreaming(t.method_)
              && op.requestFields == SortedStrings(t.method_.inputFields)
  {
    assert SortedBy(op.requestFields, Same) <==>
           forall i, j :: 0 <= i < j < |op.requestFields| ==> !Less(op.requestFields[j], op.requestFields[i]);
    if multiset(op.requestFields) == multiset(t.method_.inputFields) && SortedBy(op.requestFields, Same) {
      SortedStringsIs(t.method_.inputFields, op.requestFields);
    }
  }

  /** The parts of a built operation are those of the declarations, and it is built exactly if they are acceptable. */
  lemma TargetOperationExactly(t: Target, opts: Options, ps: PresetSet, f: FileSpec, s: ServiceSpec, m: MethodSpec,
                               d: Option<Policy>, op: Operation)
    requires Declared(opts, t, f, s, m) && IsDefault(f, s, d)
    ensures TargetOperation(t, opts, ps) == Some(op) <==> IsOperationOf(opts, ps, t, f, s, m, d, op) && Acceptable(opts, t, op)
  {
    LookupsAre(t, opts, f, s, m, d);
    EffectiveExactly(ps, d, m, op.policy);
    LabelsAgree(t, d, m, op);
    FieldsAgree(t, op);
  }

  lemma LookupsAre(t: Target, opts: Options, f: FileSpec, s: ServiceSpec, m: MethodSpec, d: Option<Policy>)
    requires Declared(opts, t, f, s, m) && IsDefault(f, s, d)
    ensures LookupsSucceed(t, opts) && opts.provider.method_(t.service, t.method_).Success?
    ensures SpecOf(t.file, opts) == f && ServiceSpecOf(t.service, opts) == s
    ensures OrElse(opts.provider.method_(t.service, t.method_).value, NO_METHOD_SPEC) == m
    ensures DefaultPolicyOf(t.file, t.service, opts) == d
  {
  }

  // ---- what is built ----

  /** A target that can be built: everything about it is declared, and acceptable. */
  ghost predicate Buildable(opts: Options, ps: PresetSet, t: Target) {
    exists f, s, m, d, op :: Declared(opts, t, f, s, m) && IsDefault(f, s, d) && IsOperationOf(opts, ps, t, f, s, m, d, op)
      && Acceptable(opts, t, op)
  }

  function Found<T>(lookup: Result<Option<T>, string>, empty: T): (x: T)
    requires lookup.Success?
  {
    match lookup.value case Some(v) => v case None => empty
  }

  lemma DeclarationsExist(t: Target, opts: Options, ps: PresetSet) returns (f: FileSpec, s: ServiceSpec, m: MethodSpec)
    requires TargetOperation(t, opts, ps).Some?
    ensures Declared(opts, t, f, s, m)
  {
    f := Found(opts.provider.file(t.file), FileSpec("", 0, None, ExposureUnspecified));
    s := Found(opts.provider.service(t.service), ServiceSpec(None, ExposureUnspecified));
    m := Found(opts.provider.method_(t.service, t.method_), MethodSpec(None, ExposureUnspecified, "", "", false, 0));
  }

  lemma BuildableExactly(t: Target, opts: Options, ps: PresetSet)
    ensures TargetOperation(t, opts, ps).Some? <==> Buildable(opts, ps, t)
  {
    if TargetOperation(t, opts, ps).Some? {
      var f, s, m := DeclarationsExist(t, opts, ps);
      var d := if s.defaultPolicy.Some? then s.defaultPolicy else f.defaultPolicy;
      TargetOperationExactly(t, opts, ps, f, s, m, d, TargetOperation(t, opts, ps).value);
    }
    if Buildable(opts, ps, t) {
      var f, s, m, d, op :| Declared(opts, t, f, s, m) && IsDefault(f, s, d) && IsOperationOf(opts, ps, t, f, s, m, d, op)
        && Acceptable(opts, t, op);
      TargetOperationExactly(t, opts, ps, f, s, m, d, op);
    }
  }

  /** Operations can be built if and only if every selected method is buildable. */
  lemma BuildsExactly(fs: seq<File>, opts: Options, ps: PresetSet)
    ensures (exists ops :: Built(FileTargets(fs, opts), opts, ps, ops)) <==>
              forall t :: IsTarget(fs, t, opts) ==> Buildable(opts, ps, t)
  {
    var ts := FileTargets(fs, opts);
    forall t ensures t in ts <==> IsTarget(fs, t, opts) {
      FileTargetsMembers(fs, opts, t);
    }
    if ops :| Built(ts, opts, ps, ops) {
      forall t | IsTarget(fs, t, opts) ensures Buildable(opts, ps, t) {
        var i := TargetIndex(fs, opts, t);
        assert TargetOperation(ts[i], opts, ps) == Some(ops[i]);
        BuildableExactly(t, opts, ps);
      }
    }
    if forall t :: IsTarget(fs, t, opts) ==> Buildable(opts, ps, t) {
      forall i | 0 <= i < |ts| ensures TargetOperation(ts[i], opts, ps).Some? {
        assert ts[i] in ts;
        BuildableExactly(ts[i], opts, ps);
      }
      var ops := OperationsOf(ts, opts, ps);
    }
  }

  lemma OperationsOf(ts: seq<Target>, opts: Options, ps: PresetSet) returns (ops: seq<Operation>)
    requires forall i :: 0 <= i < |ts| ==> TargetOperation(ts[i], opts, ps).Some?
    ensures Built(ts, opts, ps, ops)
  {
    ops := seq(|ts|, i requires 0 <= i < |ts| => TargetOperation(ts[i], opts, ps).value);
  }

  /**
   In a built set every selected method has its operation, with the policy, exposure, API, labels and fields
   that its declarations call for.
   */
  lemma OperationAsDeclared(fs: seq<File>, opts: Options, ps: PresetSet, ops: seq<Operation>, result: OperationSet,
                            t: Target, f: FileSpec, s: ServiceSpec, m: MethodSpec, d: Option<Policy>)
    requires IsBuild(fs, opts, ps, ops, result) && IsTarget(fs, t, opts)
    requires Declared(opts, t, f, s, m) && IsDefault(f, s, d)
    ensures TargetId(t) in result.ops && IsOperationOf(opts, ps, t, f, s, m, d, result.ops[TargetId(t)])
    ensures Acceptable(opts, t, result.ops[TargetId(t)])
  {
    EveryTargetIsBuilt(fs, opts, ps, ops, result, t);
    TargetOperationExactly(t, opts, ps, f, s, m, d, result.ops[TargetId(t)]);
  }

  /** A method's own policy, not inheriting or without a default, is its policy. */
  lemma OwnPolicyWins(fs: seq<File>, opts: Options, ps: PresetSet, ops: seq<Operation>, result: OperationSet,
                      t: Target, f: FileSpec, s: ServiceSpec, m: MethodSpec, own: Policy)
    requires IsBuild(fs, opts, ps, ops, result) && IsTarget(fs, t, opts) && Declared(opts, t, f, s, m)
    requires m.policy.Some? && Expand(ps, m.policy.value, []) == Some(own)
    requires !m.inheritDefault || (s.defaultPolicy.None? && f.defaultPolicy.None?)
    ensures TargetId(t) in result.ops && result.ops[TargetId(t)].policy == own.(preset := "", presetArgs := map[])
  {
    var d := if s.defaultPolicy.Some? then s.defaultPolicy else f.defaultPolicy;
    OperationAsDeclared(fs, opts, ps, ops, result, t, f, s, m, d);
  }

  /** A method that inherits gets both policies: what it requires and forbids, and what its default does. */
  lemma InheritedPolicyIsMerged(fs: seq<File>, opts: Options, ps: PresetSet, ops: seq<Operation>, result: OperationSet,
                                t: Target, f: FileSpec, s: ServiceSpec, m: MethodSpec, d: Policy, own: Policy, base: Policy)
    requires IsBuild(fs, opts, ps, ops, result) && IsTarget(fs, t, opts) && Declared(opts, t, f, s, m)
    requires m.inheritDefault && m.policy.Some? && Expand(ps, m.policy.value, []) == Some(own)
    requires s.defaultPolicy == Some(d) || (s.defaultPolicy.None? && f.defaultPolicy == Some(d))
    requires Expand(ps, d, []) == Some(base)
    ensures TargetId(t) in result.ops && IsMerge(result.ops[TargetId(t)].policy, base, own)
    ensures result.ops[TargetId(t)].policy == AndPolicy(base, own).(preset := "", presetArgs := map[])
  {
    OperationAsDeclared(fs, opts, ps, ops, result, t, f, s, m, Some(d));
  }

  /** A method without a policy of its own has the default's. */
  lemma DefaultPolicyApplies(fs: seq<File>, opts: Options, ps: PresetSet, ops: seq<Operation>, result: OperationSet,
                             t: Target, f: FileSpec, s: ServiceSpec, m: MethodSpec, d: Policy, base: Policy)
    requires IsBuild(fs, opts, ps, ops, result) && IsTarget(fs, t, opts) && Declared(opts, t, f, s, m)
    requires m.policy.None? && Expand(ps, d, []) == Some(base)
    requires s.defaultPolicy == Some(d) || (s.defaultPolicy.None? && f.defaultPolicy == Some(d))
    ensures TargetId(t) in result.ops && result.ops[TargetId(t)].policy == base.(preset := "", presetArgs := map[])
  {
    OperationAsDeclared(fs, opts, ps, ops, result, t, f, s, m, Some(d));
  }

  // ---- which methods are built ----

  /** A package lies under a prefix at a dot, or at the dot the prefix ends in. */
  ghost predicate Covers(prefix: string, package: string) {
    prefix == "" || package == prefix || prefix + "." <= package || (prefix <= package && prefix[|prefix| - 1] == '.')
  }

  /** The selection, in terms of the options. */
  ghost predicate IsSelected(fs: seq<File>, opts: Options, t: Target) {
    && t.file in fs && t.service in t.file.services && t.method_ in t.service.methods
    && (opts.packagePrefixes != [] ==> exists p :: p in opts.packagePrefixes && Covers(p, t.file.package))
    && (opts.onlyServices != {} ==> t.service.fullName in opts.onlyServices)
    && !opts.frameworkExempt("/" + t.service.fullName + "/")
    && !opts.frameworkExempt("/" + t.service.fullName + "/" + t.method_.name)
  }

  lemma CoversExactly(prefix: string, package: string)
    ensures PolicyBuild.UnderPrefix(package, prefix) <==> Covers(prefix, package)
  {
    if prefix <= package && |package| > |prefix| && package[|prefix|] == '.' {
      assert prefix + "." == package[..|prefix| + 1];
    }
    if prefix + "." <= package {
      assert package[|prefix|] == (prefix + ".")[|prefix|] && prefix == (prefix + ".")[..|prefix|];
    }
  }

  lemma TargetsAreSelected(fs: seq<File>, opts: Options, t: Target)
    ensures IsTarget(fs, t, opts) <==> IsSelected(fs, opts, t)
  {
    forall p ensures PolicyBuild.UnderPrefix(t.file.package, p) <==> Covers(p, t.file.package) {
      CoversExactly(p, t.file.package);
    }
  }

  /** A built set holds exactly the selected methods, under their full names. */
  lemma BuildsTheSelection(fs: seq<File>, opts: Options, ps: PresetSet, ops: seq<Operation>, result: OperationSet, id: string)
    requires IsBuild(fs, opts, ps, ops, result)
    ensures id in result.ops <==> exists t :: IsSelected(fs, opts, t) && id == "/" + t.service.fullName + "/" + t.method_.name
    ensures id in result.ops ==> !opts.frameworkExempt(id)
  {
    if id in result.ops {
      var t := EveryOperationHasTarget(fs, opts, ps, ops, result, id);
      TargetsAreSelected(fs, opts, t);
    }
    if t :| IsSelected(fs, opts, t) && id == "/" + t.service.fullName + "/" + t.method_.name {
      TargetsAreSelected(fs, opts, t);
      EveryTargetIsBuilt(fs, opts, ps, ops, result, t);
    }
  }

  // ---- schema versions ----

  /** A declared version; none means 1. */
  function Version(f: FileSpec): nat {
    if f.schemaVersion == 0 then 1 else f.schemaVersion
  }

  /** All selected files declare one schema version, and it is supported. */
  lemma OneSupportedVersion(fs: seq<File>, opts: Options, ps: PresetSet, ops: seq<Operation>, result: OperationSet,
                            a: File, b: File, fa: FileSpec, fb: FileSpec)
    requires IsBuild(fs, opts, ps, ops, result)
    requires a in fs && b in fs && SelectedFile(a, opts) && SelectedFile(b, opts)
    requires Declares(opts.provider.file(a), FileSpec("", 0, None, ExposureUnspecified), fa)
    requires Declares(opts.provider.file(b), FileSpec("", 0, None, ExposureUnspecified), fb)
    ensures Version(fa) == Version(fb) <= if opts.maxSchemaVersion == 0 then 1 else opts.maxSchemaVersion
  {
    var v: nat :| VersionsAre(fs, opts, v);
    assert VersionOf(a, opts) == Version(fa) && VersionOf(b, opts) == Version(fb);
  }

  // ---- the API of a service ----

  /** As a descriptor pool guarantees, a service name is declared in one file. */
  ghost predicate ServicesDeclaredOnce(fs: seq<File>) {
    forall f, g, s, r :: f in fs && g in fs && s in f.services && r in g.services && s.fullName == r.fullName ==> f == g
  }

  /** All operations of a service are built for one API. */
  lemma ServiceHasOneApi(fs: seq<File>, opts: Options, ps: PresetSet, ops: seq<Operation>, result: OperationSet,
                         a: string, b: string)
    requires IsBuild(fs, opts, ps, ops, result) && ServicesDeclaredOnce(fs)
    requires a in result.ops && b in result.ops && result.ops[a].service == result.ops[b].service
    ensures result.ops[a].api == result.ops[b].api
  {
    var t := BuiltFrom(fs, opts, ps, ops, result, a);
    var u := BuiltFrom(fs, opts, ps, ops, result, b);
    assert t.file == u.file;
  }

  lemma BuiltFrom(fs: seq<File>, opts: Options, ps: PresetSet, ops: seq<Operation>, result: OperationSet, id: string)
    returns (t: Target)
    requires IsBuild(fs, opts, ps, ops, result) && id in result.ops
    ensures t.file in fs && t.service in t.file.services && result.ops[id].service == t.service.fullName
    ensures opts.provider.file(t.file).Success? && result.ops[id].api == ApiOf(t.file, opts)
  {
    t := EveryOperationHasTarget(fs, opts, ps, ops, result, id);
    EveryTargetIsBuilt(fs, opts, ps, ops, result, t);
  }
}
