/** What a successful Build guarantees. */
module BuildTheorems {
  import opened Wrappers
  import opened PolicySpec
  import opened Descriptors
  import opened Registry
  import opened Decider
  import opened PolicyValidation
  import opened Presets
  import opened PolicySet
  import opened PolicyBuild

  /** A non-exempt method of a selected service in a selected file. */
  ghost predicate IsTarget(fs: seq<File>, t: Target, opts: Options) {
    && t.file in fs && SelectedFile(t.file, opts)
    && t.service in t.file.services && SelectedService(t.service, opts)
    && t.method_ in t.service.methods && SelectedMethod(t.service, t.method_, opts)
  }

  lemma {:induction false} MethodTargetsMembers(f: File, s: Service, ms: seq<Method>, opts: Options, t: Target)
    ensures t in MethodTargets(f, s, ms, opts) <==>
            t.file == f && t.service == s && t.method_ in ms && SelectedMethod(s, t.method_, opts)
  {
    if ms != [] {
      var n := |ms| - 1;
      MethodTargetsMembers(f, s, ms[..n], opts, t);
      assert ms == ms[..n] + [ms[n]];
    }
  }

  lemma {:induction false} ServiceTargetsMembers(f: File, ss: seq<Service>, opts: Options, t: Target)
    ensures t in ServiceTargets(f, ss, opts) <==>
            && t.file == f && t.service in ss && SelectedService(t.service, opts)
            && t.method_ in t.service.methods && SelectedMethod(t.service, t.method_, opts)
  {
    if ss != [] {
      var n := |ss| - 1;
      ServiceTargetsMembers(f, ss[..n], opts, t);
      MethodTargetsMembers(f, ss[n], ss[n].methods, opts, t);
      assert ss == ss[..n] + [ss[n]];
    }
  }

  lemma {:induction false} FileTargetsMembers(fs: seq<File>, opts: Options, t: Target)
    ensures t in FileTargets(fs, opts) <==> IsTarget(fs, t, opts)
  {
    if fs != [] {
      var n := |fs| - 1;
      FileTargetsMembers(fs[..n], opts, t);
      ServiceTargetsMembers(fs[n], fs[n].services, opts, t);
      assert fs == fs[..n] + [fs[n]];
    }
  }

  function TargetId(t: Target): string {
    FullMethod(t.service, t.method_)
  }

  lemma TargetIndex(fs: seq<File>, opts: Options, t: Target) returns (i: nat)
    requires IsTarget(fs, t, opts)
    ensures i < |FileTargets(fs, opts)| && FileTargets(fs, opts)[i] == t
  {
    FileTargetsMembers(fs, opts, t);
    i :| 0 <= i < |FileTargets(fs, opts)| && FileTargets(fs, opts)[i] == t;
  }

  /** Every method of a selected, non-exempt service has the operation its declarations give it. */
  lemma EveryTargetIsBuilt(fs: seq<File>, opts: Options, ps: PresetSet, ops: seq<Operation>, result: OperationSet, t: Target)
    requires IsBuild(fs, opts, ps, ops, result) && IsTarget(fs, t, opts)
    ensures TargetId(t) in result.ops && TargetOperation(t, opts, ps) == Some(result.ops[TargetId(t)])
  {
    var i := TargetIndex(fs, opts, t);
    BuiltIdsNonEmpty(FileTargets(fs, opts), opts, ps, ops);
    assert ops[i].id == TargetId(t);
  }

  /** The set holds nothing else. */
  lemma EveryOperationHasTarget(fs: seq<File>, opts: Options, ps: PresetSet, ops: seq<Operation>, result: OperationSet,
                                id: string) returns (t: Target)
    requires IsBuild(fs, opts, ps, ops, result) && id in result.ops
    ensures IsTarget(fs, t, opts) && TargetId(t) == id
  {
    var i :| 0 <= i < |ops| && ops[i].id == id;
    BuiltIdsNonEmpty(FileTargets(fs, opts), opts, ps, ops);
    t := FileTargets(fs, opts)[i];
    FileTargetsMembers(fs, opts, t);
  }

  /** Two methods never share an operation. */
  lemma TargetsDoNotCollide(fs: seq<File>, opts: Options, ps: PresetSet, ops: seq<Operation>, result: OperationSet,
                            t: Target, u: Target)
    requires IsBuild(fs, opts, ps, ops, result) && IsTarget(fs, t, opts) && IsTarget(fs, u, opts)
    requires TargetId(t) == TargetId(u)
    ensures t == u
  {
    var i := TargetIndex(fs, opts, t);
    var j := TargetIndex(fs, opts, u);
    BuiltIdsNonEmpty(FileTargets(fs, opts), opts, ps, ops);
    assert ops[i].id == ops[j].id;
  }

  lemma TargetOperationValid(t: Target, opts: Options, ps: PresetSet)
    requires TargetOperation(t, opts, ps).Some?
    ensures ValidPolicy(TargetOperation(t, opts, ps).value.policy, opts.kinds, opts.vocab)
    ensures TargetOperation(t, opts, ps).value.exposure != ExposureUnspecified
    ensures t.method_.clientStreaming ==>
              TargetOperation(t, opts, ps).value.exposure in {ExposureInternal, ExposureHidden}
  {
  }

  /**
   Fail-closed: every built policy is valid, and once all kinds it uses can be evaluated, deciding
   any operation never yields Internal and fails only when some evaluator errs.
   */
  lemma BuildIsFailClosed(fs: seq<File>, opts: Options, ps: PresetSet, ops: seq<Operation>, result: OperationSet,
                          id: string, ec: EvalContext)
    requires IsBuild(fs, opts, ps, ops, result) && id in result.ops
    ensures ValidPolicy(result.ops[id].policy, result.kinds, result.vocab)
    ensures result.ops[id].exposure != ExposureUnspecified
    ensures Evaluable(result.ops[id].policy, result.kinds) ==>
              var d := Decide(result.ops[id].policy, ec, result.kinds);
              && (d.Success? ==> d.value.code != Internal)
              && (d.Failure? ==> SomeEvaluatorErrs(result.ops[id].policy, ec, result.kinds))
  {
    var t := EveryOperationHasTarget(fs, opts, ps, ops, result, id);
    EveryTargetIsBuilt(fs, opts, ps, ops, result, t);
    TargetOperationValid(t, opts, ps);
    if Evaluable(result.ops[id].policy, result.kinds) {
      ValidNeverInternal(result.ops[id].policy, result.kinds, result.vocab, ec);
    }
  }

  /** Every policy of a built set is valid, so none carries a preset. */
  lemma BuildMakesValidSet(fs: seq<File>, opts: Options, ps: PresetSet, ops: seq<Operation>, result: OperationSet)
    requires IsBuild(fs, opts, ps, ops, result)
    ensures ValidSet(result) && forall id :: id in result.ops ==> result.ops[id].policy.preset == ""
  {
    NewSetKeyedById(ops, result.ops);
    forall id | id in result.ops
      ensures ValidPolicy(result.ops[id].policy, result.kinds, result.vocab)
    {
      var t := EveryOperationHasTarget(fs, opts, ps, ops, result, id);
      EveryTargetIsBuilt(fs, opts, ps, ops, result, t);
      TargetOperationValid(t, opts, ps);
    }
  }

  /** Without a policy of its own or a default to fall back on, a selected method fails the build. */
  lemma MissingPolicyFailsBuild(fs: seq<File>, opts: Options, ps: PresetSet, ops: seq<Operation>, result: OperationSet, t: Target)
    requires IsTarget(fs, t, opts) && LookupsSucceed(t, opts)
    requires DefaultPolicyOf(t.file, t.service, opts) == None
    requires opts.provider.method_(t.service, t.method_).Success?
    requires OrElse(opts.provider.method_(t.service, t.method_).value, NO_METHOD_SPEC).policy == None
    ensures !IsBuild(fs, opts, ps, ops, result)
  {
    if IsBuild(fs, opts, ps, ops, result) {
      EveryTargetIsBuilt(fs, opts, ps, ops, result, t);
      assert false;
    }
  }
}
