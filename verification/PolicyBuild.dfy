/** Build of policy/build.go: from proto descriptors and declared policies to an operation set. */
module PolicyBuild {
  import opened Wrappers
  import opened Sorting
  import opened PolicySpec
  import opened Descriptors
  import opened Registry
  import opened PolicyValidation
  import opened Presets
  import opened PolicySet

  // ---- declared policies ----

  datatype FileSpec = FileSpec(api: string, schemaVersion: nat, defaultPolicy: Option<Policy>, defaultExposure: Exposure)

  datatype ServiceSpec = ServiceSpec(defaultPolicy: Option<Policy>, defaultExposure: Exposure)

  datatype MethodSpec = MethodSpec(
    policy: Option<Policy>, exposure: Exposure, docLabel: string, operationId: string,
    inheritDefault: bool, streamAuth: StreamAuthMode)

  const NO_FILE_SPEC := FileSpec("", 0, None, ExposureUnspecified)
  const NO_SERVICE_SPEC := ServiceSpec(None, ExposureUnspecified)
  const NO_METHOD_SPEC := MethodSpec(None, ExposureUnspecified, "", "", false, 0)

  /** Each lookup errs, finds no declaration, or finds one. */
  datatype Provider = Provider(
    file: File -> Result<Option<FileSpec>, string>,
    service: Service -> Result<Option<ServiceSpec>, string>,
    method_: (Service, Method) -> Result<Option<MethodSpec>, string>)

  datatype Rule = Rule(checkOperation: Operation -> bool, checkSet: OperationSet -> bool)

  datatype Options = Options(
    provider: Provider, kinds: Kinds, vocab: Vocabulary, presets: seq<Preset>,
    disableStreaming: bool, rules: seq<Rule>, frameworkExempt: string -> bool,
    apiResolver: Option<File -> string>, onlyServices: set<string>, packagePrefixes: seq<string>,
    maxSchemaVersion: nat)

  function MaxVersion(opts: Options): nat {
    if opts.maxSchemaVersion == 0 then 1 else opts.maxSchemaVersion
  }

  /** Dotted-boundary prefix match of package names. */
  predicate UnderPrefix(full: string, prefix: string) {
    || prefix == ""
    || (prefix <= full
        && (|full| == |prefix| || full[|prefix|] == '.' || prefix[|prefix| - 1] == '.'))
  }

  // ---- which methods are built ----

  predicate SelectedFile(f: File, opts: Options) {
    opts.packagePrefixes == [] || exists p :: p in opts.packagePrefixes && UnderPrefix(f.package, p)
  }

  predicate SelectedService(s: Service, opts: Options) {
    !opts.frameworkExempt("/" + s.fullName + "/") && (opts.onlyServices == {} || s.fullName in opts.onlyServices)
  }

  predicate SelectedMethod(s: Service, m: Method, opts: Options) {
    !opts.frameworkExempt(FullMethod(s, m))
  }

  datatype Target = Target(file: File, service: Service, method_: Method)

  function MethodTargets(f: File, s: Service, ms: seq<Method>, opts: Options): seq<Target> {
    if ms == [] then []
    else
      var before, m := MethodTargets(f, s, ms[..|ms| - 1], opts), ms[|ms| - 1];
      if SelectedMethod(s, m, opts) then before + [Target(f, s, m)] else before
  }

  function ServiceTargets(f: File, ss: seq<Service>, opts: Options): seq<Target> {
    if ss == [] then []
    else
      var before, s := ServiceTargets(f, ss[..|ss| - 1], opts), ss[|ss| - 1];
      if SelectedService(s, opts) then before + MethodTargets(f, s, s.methods, opts) else before
  }

  function FileTargets(fs: seq<File>, opts: Options): seq<Target> {
    if fs == [] then []
    else
      var before, f := FileTargets(fs[..|fs| - 1], opts), fs[|fs| - 1];
      if SelectedFile(f, opts) then before + ServiceTargets(f, f.services, opts) else before
  }

  // ---- one operation ----

  function OrElse<T>(r: Option<T>, default: T): T {
    match r case Some(x) => x case None => default
  }

  /** The policy a method ends up with, before validation; None on a failed expansion or no policy at all. */
  function Effective(ps: PresetSet, default: Option<Policy>, ms: MethodSpec): Option<Policy> {
    var d := if default.Some? then Expand(ps, default.value, []) else None;
    var m := if ms.policy.Some? then Expand(ps, ms.policy.value, []) else None;
    if default.Some? && d.None? then None
    else if ms.policy.Some? && m.None? then None
    else if m.Some? && d.Some? && ms.inheritDefault then Some(AndPolicy(d.value, m.value))
    else if m.Some? then m
    else d
  }

  /** The preset a label may come from: the method's own, or the default's. */
  function PresetName(default: Option<Policy>, ms: MethodSpec): string {
    if ms.policy.Some? && ms.policy.value.preset != "" then ms.policy.value.preset
    else if default.Some? then default.value.preset
    else ""
  }

  function OrDefault(s: string, default: string): string {
    if s != "" then s else default
  }

  function OrExposure(e: Exposure, default: Exposure): Exposure {
    if e != ExposureUnspecified then e else default
  }

  /** The operation of one method, if it has no violation. */
  ghost function BuiltOperation(s: Service, m: Method, api: string, default: Option<Policy>, defaultExposure: Exposure,
                                opts: Options, ps: PresetSet): Option<Operation> {
    if opts.provider.method_(s, m).Failure? then None
    else
      var ms := OrElse(opts.provider.method_(s, m).value, NO_METHOD_SPEC);
      var effective := Effective(ps, default, ms);
      var exposure := OrExposure(ms.exposure, defaultExposure);
      var streaming := m.clientStreaming || m.serverStreaming;
      var streamAuth := if ms.streamAuth == 0 then STREAM_AUTH_OPEN else ms.streamAuth;
      if effective.None? then None
      else
        var policy := effective.value.(preset := "", presetArgs := map[]);
        if && ValidPolicy(policy, opts.kinds, opts.vocab)
           && exposure != ExposureUnspecified
           && !(streaming && opts.disableStreaming)
           && !(m.clientStreaming && (exposure == ExposurePublic || exposure == ExposureDeprecated))
           && (streamAuth == STREAM_AUTH_OPEN || streamAuth == STREAM_AUTH_PER_MESSAGE)
        then Some(NewOperation(s, m, api, policy, exposure, streaming, streamAuth, PresetName(default, ms), ms,
                               SortedStrings(m.inputFields)))
        else None
  }

  function NewOperation(s: Service, m: Method, api: string, policy: Policy, exposure: Exposure, streaming: bool,
                        streamAuth: StreamAuthMode, presetName: string, ms: MethodSpec, requestFields: seq<string>): Operation {
    Operation(FullMethod(s, m), GrpcMethod, s.fullName, api, policy, exposure,
              OrDefault(ms.docLabel, presetName), OrDefault(ms.operationId, s.name + "_" + m.name),
              streaming, streamAuth, requestFields,
              if presetName != "" then map["preset" := presetName] else map[])
  }

  /** Expansion keeps the preset's name, which is what the source reads the label from. */
  lemma ExpandKeepsPreset(ps: PresetSet, p: Policy)
    ensures Expand(ps, p, []).Some? ==> Expand(ps, p, []).value.preset == p.preset
  {
  }

  /** All field names of the request message, sorted. */
  method RequestFields(m: Method) returns (names: seq<string>)
    ensures names == SortedStrings(m.inputFields)
  {
    names := SortSlice(m.inputFields, Same);
    SortedStringsIs(m.inputFields, names);
  }

  /** The switch over default and method policy: both expanded, and merged, overridden or inherited. */
  method ChoosePolicy(default: Option<Policy>, ms: MethodSpec, ps: PresetSet)
    returns (policy: Policy, presetName: string, missing: bool, expandErr: bool)
    ensures expandErr || missing <==> Effective(ps, default, ms).None?
    ensures Effective(ps, default, ms).Some? ==>
              policy == Effective(ps, default, ms).value && presetName == PresetName(default, ms)
  {
    var defaultExpanded: Option<Policy> := None;
    var methodExpanded: Option<Policy> := None;
    missing, expandErr := false, false;
    if default.Some? {
      defaultExpanded := Expand(ps, default.value, []);
      expandErr := defaultExpanded.None?;
      ExpandKeepsPreset(ps, default.value);
    }
    if ms.policy.Some? {
      methodExpanded := Expand(ps, ms.policy.value, []);
      expandErr := expandErr || methodExpanded.None?;
      ExpandKeepsPreset(ps, ms.policy.value);
    }
    policy := EMPTY_POLICY;
    if ms.policy.Some? && ms.inheritDefault && defaultExpanded.Some? && methodExpanded.Some? {
      policy := AndPolicy(defaultExpanded.value, methodExpanded.value);
    } else if ms.policy.Some? && methodExpanded.Some? {
      policy := methodExpanded.value;
    } else if defaultExpanded.Some? {
      policy := defaultExpanded.value;
    } else {
      missing := !expandErr;
    }
    presetName := "";
    if methodExpanded.Some? {
      presetName := methodExpanded.value.preset;
    }
    if presetName == "" && defaultExpanded.Some? {
      presetName := defaultExpanded.value.preset;
    }
  }

  method BuildOperation(s: Service, m: Method, api: string, default: Option<Policy>, defaultExposure: Exposure,
                        opts: Options, ps: PresetSet) returns (op: Option<Operation>)
    ensures op == BuiltOperation(s, m, api, default, defaultExposure, opts, ps)
  {
    var found := opts.provider.method_(s, m);
    if found.Failure? {
      return None;
    }
    var ms := OrElse(found.value, NO_METHOD_SPEC);
    var violations := 0;
    var policy, presetName, missing, expandErr := ChoosePolicy(default, ms, ps);
    if missing {
      violations := violations + 1;
    }
    policy := policy.(preset := "", presetArgs := map[]);
    if expandErr {
      violations := violations + 1;
    } else {
      var invalid := ValidatePolicy(policy, opts.kinds, opts.vocab);
      violations := violations + invalid;
    }
    var exposure := OrExposure(ms.exposure, defaultExposure);
    if exposure == ExposureUnspecified {
      violations := violations + 1;
    }
    var streaming := m.clientStreaming || m.serverStreaming;
    if streaming && opts.disableStreaming {
      violations := violations + 1;
    }
    if streaming && (exposure == ExposurePublic || exposure == ExposureDeprecated) && m.clientStreaming {
      violations := violations + 1;
    }
    var streamAuth := if ms.streamAuth == 0 then STREAM_AUTH_OPEN else ms.streamAuth;
    if streamAuth != STREAM_AUTH_OPEN && streamAuth != STREAM_AUTH_PER_MESSAGE {
      violations := violations + 1;
    }
    if violations > 0 {
      return None;
    }
    var fields := RequestFields(m);
    op := Some(NewOperation(s, m, api, policy, exposure, streaming, streamAuth, presetName, ms, fields));
  }

  // ---- one target ----

  predicate LookupsSucceed(t: Target, opts: Options) {
    opts.provider.file(t.file).Success? && opts.provider.service(t.service).Success?
  }

  function SpecOf(f: File, opts: Options): FileSpec
    requires opts.provider.file(f).Success?
  {
    OrElse(opts.provider.file(f).value, NO_FILE_SPEC)
  }

  function ServiceSpecOf(s: Service, opts: Options): ServiceSpec
    requires opts.provider.service(s).Success?
  {
    OrElse(opts.provider.service(s).value, NO_SERVICE_SPEC)
  }

  function ApiOf(f: File, opts: Options): string
    requires opts.provider.file(f).Success?
  {
    var api := SpecOf(f, opts).api;
    if api == "" && opts.apiResolver.Some? then opts.apiResolver.value(f) else api
  }

  /** Service defaults win over file defaults. */
  function DefaultPolicyOf(f: File, s: Service, opts: Options): Option<Policy>
    requires opts.provider.file(f).Success? && opts.provider.service(s).Success?
  {
    var d := ServiceSpecOf(s, opts).defaultPolicy;
    if d.Some? then d else SpecOf(f, opts).defaultPolicy
  }

  function DefaultExposureOf(f: File, s: Service, opts: Options): Exposure
    requires opts.provider.file(f).Success? && opts.provider.service(s).Success?
  {
    OrExposure(ServiceSpecOf(s, opts).defaultExposure, SpecOf(f, opts).defaultExposure)
  }

  /** The operation a target should get, if it and the lookups for it are free of violations. */
  ghost function TargetOperation(t: Target, opts: Options, ps: PresetSet): Option<Operation> {
    if !LookupsSucceed(t, opts) then None
    else BuiltOperation(t.service, t.method_, ApiOf(t.file, opts), DefaultPolicyOf(t.file, t.service, opts),
                        DefaultExposureOf(t.file, t.service, opts), opts, ps)
  }

  ghost predicate AllBuildable(ts: seq<Target>, opts: Options, ps: PresetSet) {
    forall i :: 0 <= i < |ts| ==> TargetOperation(ts[i], opts, ps).Some?
  }

  ghost predicate Built(ts: seq<Target>, opts: Options, ps: PresetSet, ops: seq<Operation>) {
    |ops| == |ts| && forall i :: 0 <= i < |ts| ==> TargetOperation(ts[i], opts, ps) == Some(ops[i])
  }

  // ---- the nested loops ----

  /** Built in order without violations, or with some violation because some target is not buildable. */
  ghost predicate Outcome(ts: seq<Target>, opts: Options, ps: PresetSet, ops: seq<Operation>, violations: nat) {
    && (violations == 0 <==> AllBuildable(ts, opts, ps))
    && (violations == 0 ==> Built(ts, opts, ps, ops))
  }

  lemma OutcomeAppend(a: seq<Target>, opsA: seq<Operation>, va: nat, b: seq<Target>, opsB: seq<Operation>, vb: nat,
                      opts: Options, ps: PresetSet)
    requires Outcome(a, opts, ps, opsA, va) && Outcome(b, opts, ps, opsB, vb)
    ensures Outcome(a + b, opts, ps, opsA + opsB, va + vb)
  {
    AppendTargets(a, b, opts, ps);
  }

  lemma AppendTargets(a: seq<Target>, b: seq<Target>, opts: Options, ps: PresetSet)
    ensures AllBuildable(a + b, opts, ps) <==> AllBuildable(a, opts, ps) && AllBuildable(b, opts, ps)
  {
    assert forall i :: 0 <= i < |a| ==> (a + b)[i] == a[i];
    assert forall i :: 0 <= i < |b| ==> (a + b)[|a| + i] == b[i];
  }

  method BuildTarget(t: Target, opts: Options, ps: PresetSet) returns (ops: seq<Operation>, violations: nat)
    requires LookupsSucceed(t, opts)
    ensures Outcome([t], opts, ps, ops, violations)
  {
    var op := BuildOperation(t.service, t.method_, ApiOf(t.file, opts), DefaultPolicyOf(t.file, t.service, opts),
                             DefaultExposureOf(t.file, t.service, opts), opts, ps);
    assert op == TargetOperation(t, opts, ps);
    match op
    case Some(o) => return [o], 0;
    case None =>
      assert [t][0] == t;
      return [], 1;
  }

  method BuildService(f: File, s: Service, opts: Options, ps: PresetSet) returns (ops: seq<Operation>, violations: nat)
    requires opts.provider.file(f).Success? && opts.provider.service(s).Success?
    ensures Outcome(MethodTargets(f, s, s.methods, opts), opts, ps, ops, violations)
  {
    ops, violations := [], 0;
    for j := 0 to |s.methods|
      invariant Outcome(MethodTargets(f, s, s.methods[..j], opts), opts, ps, ops, violations)
    {
      var m := s.methods[j];
      assert s.methods[..j + 1][..j] == s.methods[..j];
      if !SelectedMethod(s, m, opts) {
        continue;
      }
      var more, bad := BuildTarget(Target(f, s, m), opts, ps);
      OutcomeAppend(MethodTargets(f, s, s.methods[..j], opts), ops, violations, [Target(f, s, m)], more, bad, opts, ps);
      ops, violations := ops + more, violations + bad;
    }
    assert s.methods[..|s.methods|] == s.methods;
  }

  /** All services of a file resolve. */
  ghost predicate ServicesResolve(ss: seq<Service>, opts: Options) {
    forall s :: s in ss && SelectedService(s, opts) ==> opts.provider.service(s).Success?
  }

  method BuildFile(f: File, opts: Options, ps: PresetSet) returns (ops: seq<Operation>, unresolved: nat, violations: nat)
    requires opts.provider.file(f).Success?
    ensures unresolved == 0 <==> ServicesResolve(f.services, opts)
    ensures unresolved == 0 ==> Outcome(ServiceTargets(f, f.services, opts), opts, ps, ops, violations)
  {
    ops, unresolved, violations := [], 0, 0;
    for i := 0 to |f.services|
      invariant unresolved == 0 <==> ServicesResolve(f.services[..i], opts)
      invariant unresolved == 0 ==> Outcome(ServiceTargets(f, f.services[..i], opts), opts, ps, ops, violations)
    {
      var s := f.services[i];
      assert f.services[..i + 1][..i] == f.services[..i];
      assert f.services[..i + 1] == f.services[..i] + [s];
      if !SelectedService(s, opts) {
        continue;
      }
      if opts.provider.service(s).Failure? {
        assert s in f.services[..i + 1];
        unresolved := unresolved + 1;
        continue;
      }
      var more, bad := BuildService(f, s, opts, ps);
      if unresolved == 0 {
        OutcomeAppend(ServiceTargets(f, f.services[..i], opts), ops, violations,
                      MethodTargets(f, s, s.methods, opts), more, bad, opts, ps);
      }
      ops, violations := ops + more, violations + bad;
    }
    assert f.services[..|f.services|] == f.services;
  }

  function VersionOf(f: File, opts: Options): nat
    requires opts.provider.file(f).Success?
  {
    var v := SpecOf(f, opts).schemaVersion;
    if v == 0 then 1 else v
  }

  /** File lookups succeed with a supported schema version, and so do the lookups of selected services. */
  ghost predicate FilesResolve(fs: seq<File>, opts: Options) {
    forall f :: f in fs && SelectedFile(f, opts) ==>
      && opts.provider.file(f).Success? && VersionOf(f, opts) <= MaxVersion(opts)
      && ServicesResolve(f.services, opts)
  }

  /** All selected files declare the same schema version; 0 stands for no file seen yet. */
  ghost predicate VersionsAre(fs: seq<File>, opts: Options, seen: nat) {
    forall f :: f in fs && SelectedFile(f, opts) ==> opts.provider.file(f).Success? && VersionOf(f, opts) == seen
  }

  ghost predicate OneVersion(fs: seq<File>, opts: Options) {
    exists v: nat :: VersionsAre(fs, opts, v)
  }

  /** The file-level loop: problems counts lookups and versions, violations the targets. */
  method BuildFiles(fs: seq<File>, opts: Options, ps: PresetSet)
    returns (ops: seq<Operation>, problems: nat, violations: nat)
    ensures problems == 0 <==> FilesResolve(fs, opts) && OneVersion(fs, opts)
    ensures problems == 0 ==> Outcome(FileTargets(fs, opts), opts, ps, ops, violations)
  {
    ops, problems, violations := [], 0, 0;
    var seenVer: nat := 0;
    NoFilesResolve(opts);
    assert fs[..0] == [];
    for i := 0 to |fs|
      invariant problems == 0 <==> (FilesResolve(fs[..i], opts) && OneVersion(fs[..i], opts))
      invariant problems == 0 ==> Outcome(FileTargets(fs[..i], opts), opts, ps, ops, violations)
      invariant problems == 0 ==> SeenVersion(fs[..i], opts, seenVer)
    {
      var f := fs[i];
      assert fs[..i + 1][..i] == fs[..i];
      assert fs[..i + 1] == fs[..i] + [f];
      if !SelectedFile(f, opts) {
        SkipFile(fs[..i], f, opts);
        continue;
      }
      if opts.provider.file(f).Failure? {
        assert f in fs[..i + 1];
        problems := problems + 1;
        continue;
      }
      var ver := VersionOf(f, opts);
      FileStep(fs[..i], f, opts, seenVer, problems == 0);
      if seenVer == 0 {
        seenVer := ver;
      } else if seenVer != ver {
        problems := problems + 1;
      }
      if ver > MaxVersion(opts) {
        problems := problems + 1;
      }
      var more, unresolved, bad := BuildFile(f, opts, ps);
      problems := problems + unresolved;
      if problems == 0 {
        OutcomeAppend(FileTargets(fs[..i], opts), ops, violations,
                      ServiceTargets(f, f.services, opts), more, bad, opts, ps);
      }
      ops, violations := ops + more, violations + bad;
    }
    assert fs[..|fs|] == fs;
  }

  /** seen is the version of the selected files so far, 0 if there were none. */
  ghost predicate SeenVersion(fs: seq<File>, opts: Options, seen: nat) {
    && VersionsAre(fs, opts, seen)
    && (seen == 0 <==> forall f :: f in fs ==> !SelectedFile(f, opts))
  }

  lemma NoFilesResolve(opts: Options)
    ensures FilesResolve([], opts) && OneVersion([], opts) && SeenVersion([], opts, 0)
  {
    assert VersionsAre([], opts, 0);
  }

  lemma SkipFile(before: seq<File>, f: File, opts: Options)
    requires !SelectedFile(f, opts)
    ensures FilesResolve(before + [f], opts) <==> FilesResolve(before, opts)
    ensures OneVersion(before + [f], opts) <==> OneVersion(before, opts)
    ensures forall seen :: SeenVersion(before, opts, seen) ==> SeenVersion(before + [f], opts, seen)
  {
    assert forall v: nat :: VersionsAre(before + [f], opts, v) <==> VersionsAre(before, opts, v);
  }

  /** What adding one selected, resolved file to the processed ones does to the conditions. */
  lemma FileStep(before: seq<File>, f: File, opts: Options, seen: nat, ok: bool)
    requires SelectedFile(f, opts) && opts.provider.file(f).Success?
    requires ok ==> SeenVersion(before, opts, seen)
    ensures FilesResolve(before + [f], opts) <==>
      FilesResolve(before, opts) && VersionOf(f, opts) <= MaxVersion(opts) && ServicesResolve(f.services, opts)
    ensures OneVersion(before + [f], opts) ==> OneVersion(before, opts)
    ensures ok ==> (OneVersion(before + [f], opts) <==> seen == 0 || seen == VersionOf(f, opts))
    ensures ok && (seen == 0 || seen == VersionOf(f, opts)) ==> SeenVersion(before + [f], opts, VersionOf(f, opts))
  {
    var after, ver := before + [f], VersionOf(f, opts);
    assert f in after;
    if OneVersion(after, opts) {
      var v: nat :| VersionsAre(after, opts, v);
      assert VersionsAre(before, opts, v);
    }
    if ok && (seen == 0 || seen == ver) {
      assert VersionsAre(after, opts, ver);
    }
  }

  // ---- Build ----

  /** dedupeFiles: the first file of each path, by path. */
  ghost predicate IsDeduped(files: seq<Option<File>>, out: seq<File>) {
    && StrictlySorted(Map(PathOf, out))
    && (forall f :: f in out ==> exists i :: 0 <= i < |files| && FirstOfPath(files, i) && files[i] == Some(f))
    && (forall i :: 0 <= i < |files| && FirstOfPath(files, i) ==> files[i].value in out)
  }

  ghost predicate FirstOfPath(files: seq<Option<File>>, i: nat)
    requires i < |files|
  {
    files[i].Some? && forall j :: 0 <= j < i && files[j].Some? ==> files[j].value.path != files[i].value.path
  }

  function PathOf(f: File): string { f.path }

  method DedupeFiles(files: seq<Option<File>>) returns (out: seq<File>)
    ensures IsDeduped(files, out)
  {
    var seen: set<string> := {};
    var kept: seq<File> := [];
    for n := 0 to |files|
      invariant forall p :: p in seen <==> exists i :: 0 <= i < n && files[i].Some? && files[i].value.path == p
      invariant forall k :: 0 <= k < |kept| ==> kept[k].path in seen
      invariant forall j, k :: 0 <= j < k < |kept| ==> kept[j].path != kept[k].path
      invariant forall f :: f in kept ==> exists i :: 0 <= i < n && FirstOfPath(files, i) && files[i] == Some(f)
      invariant forall i :: 0 <= i < n && FirstOfPath(files, i) ==> files[i].value in kept
    {
      if files[n].None? {
        continue;
      }
      var f := files[n].value;
      if f.path in seen {
        continue;
      }
      assert FirstOfPath(files, n);
      seen := seen + {f.path};
      ghost var was := kept;
      kept := kept + [f];
      assert forall x :: x in was ==> x in kept;
      assert f in kept;
    }
    out := SortSlice(kept, PathOf);
    SortDistinct(kept, out, PathOf);
    assert forall f :: f in out <==> f in multiset(out);
    assert forall f :: f in kept <==> f in multiset(kept);
  }

  lemma DedupedUnique(files: seq<Option<File>>, a: seq<File>, b: seq<File>)
    requires IsDeduped(files, a) && IsDeduped(files, b)
    ensures a == b
  {
    SortedByKeyUnique(a, b, PathOf);
  }

  /** ps holds exactly the registered presets. */
  ghost predicate Registered(presets: seq<Preset>, ps: PresetSet) {
    && (forall n :: n in ps ==> exists i :: 0 <= i < |presets| && presets[i].name == n)
    && (forall i :: 0 <= i < |presets| ==> presets[i].name in ps && Some(ps[presets[i].name]) == presets[i].build)
  }

  lemma RegisteredUnique(presets: seq<Preset>, a: PresetSet, b: PresetSet)
    requires Registered(presets, a) && Registered(presets, b)
    ensures a == b
  {
    forall n | n in a
      ensures n in b && a[n] == b[n]
    {
      var i :| 0 <= i < |presets| && presets[i].name == n;
      assert Some(a[n]) == presets[i].build == Some(b[n]);
    }
    forall n | n in b
      ensures n in a
    {
      var i :| 0 <= i < |presets| && presets[i].name == n;
    }
  }

  ghost predicate RulesPass(rules: seq<Rule>, result: OperationSet) {
    forall r :: r in rules ==> r.checkSet(result) && forall id :: id in result.ops ==> r.checkOperation(result.ops[id])
  }

  method CheckRules(rules: seq<Rule>, result: OperationSet) returns (violations: nat)
    requires KeyedById(result.ops)
    ensures violations == 0 <==> RulesPass(rules, result)
  {
    violations := 0;
    for i := 0 to |rules|
      invariant violations == 0 <==> RulesPass(rules[..i], result)
    {
      var rule := rules[i];
      var bad := CheckRule(rule, result);
      assert rules[..i + 1] == rules[..i] + [rule];
      assert rule in rules[..i + 1];
      violations := violations + bad;
    }
    assert rules[..|rules|] == rules;
  }

  method CheckRule(rule: Rule, result: OperationSet) returns (violations: nat)
    requires KeyedById(result.ops)
    ensures violations == 0 <==> RulesPass([rule], result)
  {
    violations := if rule.checkSet(result) then 0 else 1;
    ghost var head := violations;
    var list := Operations(result);
    for j := 0 to |list|
      invariant head <= violations
      invariant violations == head <==> forall op :: op in list[..j] ==> rule.checkOperation(op)
    {
      assert list[..j + 1] == list[..j] + [list[j]];
      if !rule.checkOperation(list[j]) {
        violations := violations + 1;
      }
    }
    assert list[..|list|] == list;
    assert (forall op :: op in list ==> rule.checkOperation(op)) <==>
           forall id :: id in result.ops ==> rule.checkOperation(result.ops[id]) by {
      assert forall id :: id in result.ops ==> result.ops[id] in list;
    }
    assert rule in [rule];
  }

  /** result is what Build must return for these files and presets. */
  ghost predicate IsBuild(fs: seq<File>, opts: Options, ps: PresetSet, ops: seq<Operation>, result: OperationSet) {
    && FilesResolve(fs, opts) && OneVersion(fs, opts)
    && Built(FileTargets(fs, opts), opts, ps, ops)
    && DistinctIds(ops)
    && result.kinds == opts.kinds && result.vocab == opts.vocab && Extends(map[], ops, result.ops)
    && RulesPass(opts.rules, result)
  }

  lemma BuiltUnique(ts: seq<Target>, opts: Options, ps: PresetSet, a: seq<Operation>, b: seq<Operation>)
    requires Built(ts, opts, ps, a) && Built(ts, opts, ps, b)
    ensures a == b && AllBuildable(ts, opts, ps)
  {
    forall i | 0 <= i < |a| ensures a[i] == b[i] { assert Some(a[i]) == Some(b[i]); }
  }

  lemma ExtendsUnique(ops: seq<Operation>, a: map<string, Operation>, b: map<string, Operation>)
    requires Extends(map[], ops, a) && Extends(map[], ops, b)
    ensures a == b
  {
    forall id | id in a || id in b
      ensures id in a && id in b && a[id] == b[id]
    {
      var i :| 0 <= i < |ops| && ops[i].id == id;
    }
  }

  lemma BuiltIdsNonEmpty(ts: seq<Target>, opts: Options, ps: PresetSet, ops: seq<Operation>)
    requires Built(ts, opts, ps, ops)
    ensures forall i :: 0 <= i < |ops| ==> ops[i].id == FullMethod(ts[i].service, ts[i].method_) && ops[i].id != ""
  {
    forall i | 0 <= i < |ops|
      ensures ops[i].id == FullMethod(ts[i].service, ts[i].method_) && ops[i].id != ""
    {
      assert TargetOperation(ts[i], opts, ps) == Some(ops[i]);
    }
  }

  /** From the deduplicated files on: the set, exactly when there is one. */
  method BuildSet(fs: seq<File>, opts: Options, ps: PresetSet) returns (r: Option<OperationSet>)
    ensures r.Some? ==> exists ops :: IsBuild(fs, opts, ps, ops, r.value)
    ensures r.None? ==> forall ops, result :: !IsBuild(fs, opts, ps, ops, result)
  {
    var ops, problems, violations := BuildFiles(fs, opts, ps);
    var built := NewSet(opts.kinds, opts.vocab, ops);
    var ruleViolations := 0;
    if built.Some? {
      NewSetKeyedById(ops, built.value.ops);
      ruleViolations := CheckRules(opts.rules, built.value);
    }
    if built.None? || problems > 0 || violations > 0 || ruleViolations > 0 {
      forall o, s
        ensures !IsBuild(fs, opts, ps, o, s)
      {
        if IsBuild(fs, opts, ps, o, s) {
          BuildSucceeds(fs, opts, ps, ops, problems, violations, built, o, s);
        }
      }
      return None;
    }
    assert IsBuild(fs, opts, ps, ops, built.value);
    return built;
  }

  /** If a build exists, the steps of BuildSet all succeed and arrive at it. */
  lemma BuildSucceeds(fs: seq<File>, opts: Options, ps: PresetSet, ops: seq<Operation>, problems: nat, violations: nat,
                      built: Option<OperationSet>, o: seq<Operation>, s: OperationSet)
    requires problems == 0 <==> FilesResolve(fs, opts) && OneVersion(fs, opts)
    requires problems == 0 ==> Outcome(FileTargets(fs, opts), opts, ps, ops, violations)
    requires built.Some? <==> DistinctIds(ops) && forall i :: 0 <= i < |ops| ==> ops[i].id != ""
    requires built.Some? ==> built.value.kinds == opts.kinds && built.value.vocab == opts.vocab
    requires built.Some? ==> Extends(map[], ops, built.value.ops)
    requires IsBuild(fs, opts, ps, o, s)
    ensures problems == 0 && violations == 0 && built == Some(s)
  {
    var ts := FileTargets(fs, opts);
    BuiltUnique(ts, opts, ps, o, o);
    BuiltUnique(ts, opts, ps, o, ops);
    BuiltIdsNonEmpty(ts, opts, ps, ops);
    ExtendsUnique(ops, built.value.ops, s.ops);
  }

  /** Build succeeds exactly when a set meeting all requirements exists, and returns it. */
  method Build(source: Option<seq<Option<File>>>, opts: Options) returns (r: Option<OperationSet>)
    ensures r.Some? ==> source.Some? && GoodPresets(opts.presets) && exists fs, ps, ops ::
              IsDeduped(source.value, fs) && Registered(opts.presets, ps) && IsBuild(fs, opts, ps, ops, r.value)
    ensures r.None? && source.Some? && GoodPresets(opts.presets) ==>
              forall fs, ps, ops, result :: IsDeduped(source.value, fs) && Registered(opts.presets, ps) ==>
                !IsBuild(fs, opts, ps, ops, result)
  {
    var presets := NewPresetSet(opts.presets);
    if presets.None? {
      return None;
    }
    if source.None? {
      return None;
    }
    var files := DedupeFiles(source.value);
    r := BuildSet(files, opts, presets.value);
    forall fs, ps | IsDeduped(source.value, fs) && Registered(opts.presets, ps)
      ensures fs == files && ps == presets.value
    {
      DedupedUnique(source.value, fs, files);
      RegisteredUnique(opts.presets, ps, presets.value);
    }
  }
}
