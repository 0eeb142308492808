/** What the manifest says of a set is what the set decides. */
module ManifestMeaning {
  import opened PolicySpec
  import opened Registry
  import opened Decider
  import opened PolicySet
  import opened CanonicalMeaning
  import opened Manifest

  /**
   The policy shown in a manifest decides as the operation's own: sets hold valid policies only, which
   carry no preset. The evaluators must not err in this context and must read these values as sets.
   */
  lemma ManifestDecidesAlike(s: OperationSet, m: seq<ManifestApi>, a: ManifestApi, e: ManifestOperation, ec: EvalContext)
    requires ValidSet(s) && IsManifest(s.ops, m) && a in m && e in a.operations
    requires PolicyReadsSets(s.ops[e.id].policy, ec, s.kinds) && ErrorFree(s.ops[e.id].policy, ec, s.kinds)
    ensures DecideAlike(s.ops[e.id].policy, e.policy, ec, s.kinds)
  {
    assert IsApiEntry(s.ops, a);
    CanonicalDecidesAlike(s.ops[e.id].policy, e.policy, ec, s.kinds);
  }

  ghost predicate NamesExposure(e: Exposure, name: string) {
    || (e.ExposureInternal? && name == "internal")
    || (e.ExposurePublic? && name == "public")
    || (e.ExposureDeprecated? && name == "deprecated")
    || (e.ExposureHidden? && name == "hidden")
    || (e.ExposureUnspecified? && name == "unspecified")
  }

  ghost predicate NamesKind(k: OperationKind, name: string) {
    (k.GrpcMethod? && name == "grpc") || (k.HttpRoute? && name == "http")
  }

  /** Only a streaming operation shows how its messages are authorised. */
  ghost predicate NamesStreamAuth(op: Operation, name: string) {
    || (!op.streaming && name == "")
    || (op.streaming && op.streamAuth == STREAM_AUTH_PER_MESSAGE && name == "per_message")
    || (op.streaming && op.streamAuth != STREAM_AUTH_PER_MESSAGE && name == "open")
  }

  /** The label of a policy without one of its own: its preset, or what it plainly is, or "custom". */
  ghost predicate IsLabelOf(p: Policy, name: string) {
    if p.preset != "" then name == p.preset
    else if p.anonymous then name == "public"
    else if exists r :: IsOnly(p, r) && (r.kind in {"role", "permission", "scope"} || (r.kind == "authenticated" && r in p.require))
    then exists r :: IsOnly(p, r) && name == r.kind
    else name == "custom"
  }

  /** The policy comes down to one requirement. */
  ghost predicate IsOnly(p: Policy, r: Requirement) {
    p.forbid == [] && ((p.require == [r] && p.anyOf == []) || (p.require == [] && p.anyOf == [[r]]))
  }

  lemma LabelExactly(p: Policy)
    ensures IsLabelOf(p, Label(p))
  {
    if |p.require| == 1 && p.anyOf == [] && p.forbid == [] {
      assert p.require == [p.require[0]];
      assert IsOnly(p, p.require[0]);
      assert forall r :: IsOnly(p, r) ==> r == p.require[0];
    } else if p.require == [] && |p.anyOf| == 1 && |p.anyOf[0]| == 1 && p.forbid == [] {
      assert p.anyOf[0] == [p.anyOf[0][0]] && p.anyOf == [p.anyOf[0]];
      assert IsOnly(p, p.anyOf[0][0]);
      assert forall r :: IsOnly(p, r) ==> r == p.anyOf[0][0];
    }
  }

  /** The entry of an operation shows its exposure, kind and stream mode by their names, and its own label or that of its policy. */
  lemma EntryShowsOperation(s: OperationSet, m: seq<ManifestApi>, a: ManifestApi, e: ManifestOperation)
    requires IsManifest(s.ops, m) && a in m && e in a.operations
    ensures e.id in s.ops && a.name == s.ops[e.id].api
    ensures NamesExposure(s.ops[e.id].exposure, e.exposure)
    ensures NamesKind(s.ops[e.id].kind, e.kind)
    ensures NamesStreamAuth(s.ops[e.id], e.streamAuth)
    ensures if s.ops[e.id].docLabel != "" then e.docLabel == s.ops[e.id].docLabel else IsLabelOf(s.ops[e.id].policy, e.docLabel)
  {
    assert IsApiEntry(s.ops, a);
    var op := s.ops[e.id];
    assert e == EntryWith(op, e.policy);
    ExposureIsNamed(op.exposure);
    LabelExactly(op.policy);
  }

  lemma ExposureIsNamed(e: Exposure)
    ensures NamesExposure(e, ExposureString(e))
  {
  }
}
