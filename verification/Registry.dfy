/** Requirement kinds and their registry (policy/registry.go). */
module Registry {
  import opened Wrappers
  import opened PolicySpec
  import opened Principal

  /** What a predicate sees of a request. */
  datatype EvalContext = EvalContext(principal: Option<Principal>, request: string, metadata: map<string, seq<string>>)

  datatype Code = OK | Internal | Unauthenticated | PermissionDenied | OtherCode(number: nat)

  /** An evaluator's error: one that carries a gRPC status, or any other. */
  datatype EvalError = StatusError(code: Code) | PlainError

  type Evaluator = (EvalContext, Requirement) -> Result<bool, EvalError>

  type Validator = (Requirement, Vocabulary) -> bool

  datatype RequirementKind = RequirementKind(
    name: string, defaultMatch: Match, requiresVocabulary: bool,
    validate: Option<Validator>, evaluate: Option<Evaluator>)

  type Kinds = map<string, RequirementKind>

  class Registry {
    var kinds: Kinds

    ghost predicate Valid()
      reads this
    {
      forall k :: k in kinds ==> k != "" && kinds[k].name == k
    }

    constructor ()
      ensures Valid() && kinds == map[]
    {
      kinds := map[];
    }

    method Register(k: RequirementKind) returns (ok: bool)
      requires Valid()
      modifies this
      ensures Valid()
      ensures ok <==> k.name != "" && k.name !in old(kinds)
      ensures kinds == if ok then old(kinds)[k.name := k] else old(kinds)
    {
      if k.name == "" || k.name in kinds {
        return false;
      }
      kinds := kinds[k.name := k];
      return true;
    }

    /** Succeeds exactly on distinct non-empty names, and then holds each kind under its name. */
    static method NewRegistry(ks: seq<RequirementKind>) returns (r: Option<Registry>)
      ensures r.Some? <==> (forall i :: 0 <= i < |ks| ==> ks[i].name != "") &&
                           (forall i, j :: 0 <= i < j < |ks| ==> ks[i].name != ks[j].name)
      ensures r.Some? ==> fresh(r.value) && r.value.Valid()
      ensures r.Some? ==> forall n :: n in r.value.kinds <==> exists i :: 0 <= i < |ks| && ks[i].name == n
      ensures r.Some? ==> forall i :: 0 <= i < |ks| ==> ks[i].name in r.value.kinds && r.value.kinds[ks[i].name] == ks[i]
    {
      var reg := new Registry();
      for i := 0 to |ks|
        invariant fresh(reg) && reg.Valid()
        invariant forall j :: 0 <= j < i ==> ks[j].name != "" && ks[j].name in reg.kinds && reg.kinds[ks[j].name] == ks[j]
        invariant forall j, k :: 0 <= j < k < i ==> ks[j].name != ks[k].name
        invariant forall n :: n in reg.kinds ==> exists j :: 0 <= j < i && ks[j].name == n
      {
        var ok := reg.Register(ks[i]);
        if !ok {
          return None;
        }
      }
      return Some(reg);
    }
  }

  function EffectiveMatch(r: Requirement, default: Match): Match {
    if r.mode != MATCH_DEFAULT then r.mode
    else if default != MATCH_DEFAULT then default
    else MATCH_ANY
  }

  // ---- the built-in kinds ----

  ghost function KindAuthenticated(): RequirementKind {
    RequirementKind("authenticated", MATCH_ANY, false,
      Some((r: Requirement, _: Vocabulary) => r.values == [] && r.params == map[]),
      Some((ec: EvalContext, _: Requirement) => Success(ec.principal.Some?)))
  }

  function ParamName(r: Requirement): string {
    if "name" in r.params then r.params["name"] else ""
  }

  ghost function KindClaim(): RequirementKind {
    RequirementKind("claim", MATCH_ANY, false,
      Some((r: Requirement, vocab: Vocabulary) =>
        && ParamName(r) != "" && r.params.Keys == {"name"}
        && ValuesKnown(vocab, if r.vocabulary == "" then "claim:" + ParamName(r) else r.vocabulary, r.values)),
      Some((ec: EvalContext, r: Requirement) =>
        if ParamName(r) == "" then Failure(PlainError)
        else Success(ClaimMatches(ec.principal, ParamName(r), EffectiveMatch(r, MATCH_ANY) == MATCH_ALL, r.values))))
  }

  ghost function KindPrincipal(): RequirementKind {
    RequirementKind("principal_kind", MATCH_ANY, false,
      Some((r: Requirement, vocab: Vocabulary) =>
        && r.values != [] && r.params == map[]
        && !(r.mode == MATCH_ALL && |r.values| > 1)
        && ValuesKnown(vocab, if r.vocabulary == "" then "principal_kind" else r.vocabulary, r.values)),
      Some((ec: EvalContext, r: Requirement) => Success(KindMatches(ec.principal, r.values))))
  }

  function OrAny(m: Match): Match {
    if m == MATCH_DEFAULT then MATCH_ANY else m
  }

  ghost function ClaimKind(name: string, claim: string, default: Match): RequirementKind {
    RequirementKind(name, OrAny(default), false,
      Some((r: Requirement, vocab: Vocabulary) =>
        && r.values != [] && r.params == map[]
        && ValuesKnown(vocab, if r.vocabulary == "" then name else r.vocabulary, r.values)),
      Some((ec: EvalContext, r: Requirement) =>
        Success(ClaimMatches(ec.principal, claim, EffectiveMatch(r, OrAny(default)) == MATCH_ALL, r.values))))
  }

  /** DefaultRegistry, as the table it builds. */
  ghost function DefaultKinds(): Kinds {
    map["authenticated" := KindAuthenticated(), "claim" := KindClaim(), "principal_kind" := KindPrincipal(),
        "role" := ClaimKind("role", "roles", MATCH_ANY),
        "permission" := ClaimKind("permission", "permissions", MATCH_ALL),
        "scope" := ClaimKind("scope", "scopes", MATCH_ANY)]
  }

  // ---- reading values as a set ----

  ghost predicate SameValues(v1: seq<string>, v2: seq<string>) {
    forall v :: v in v1 <==> v in v2
  }

  /** The evaluator does not see the order or repetition of values. */
  ghost predicate ReadsValuesAsSet(eval: Evaluator) {
    forall ec: EvalContext, r: Requirement, vs: seq<string> :: SameValues(r.values, vs) ==>
      eval(ec, r) == eval(ec, r.(values := vs))
  }

  ghost predicate AllReadValuesAsSets(kinds: Kinds) {
    forall k :: k in kinds && kinds[k].evaluate.Some? ==> ReadsValuesAsSet(kinds[k].evaluate.value)
  }

  lemma ClaimKindReadsSet(name: string, claim: string, default: Match)
    ensures ReadsValuesAsSet(ClaimKind(name, claim, default).evaluate.value)
  {
    var kind := ClaimKind(name, claim, default);
    forall ec: EvalContext, r: Requirement, vs: seq<string> | SameValues(r.values, vs)
      ensures kind.evaluate.value(ec, r) == kind.evaluate.value(ec, r.(values := vs))
    {
      var all := EffectiveMatch(r, OrAny(default)) == MATCH_ALL;
      ClaimMatchesReadsSet(ec.principal, claim, all, r.values, vs);
      var r2 := r.(values := vs);
      assert EffectiveMatch(r2, OrAny(default)) == EffectiveMatch(r, OrAny(default));
    }
  }

  lemma KindClaimReadsSet()
    ensures ReadsValuesAsSet(KindClaim().evaluate.value)
  {
    forall ec: EvalContext, r: Requirement, vs: seq<string> | SameValues(r.values, vs)
      ensures KindClaim().evaluate.value(ec, r) == KindClaim().evaluate.value(ec, r.(values := vs))
    {
      ClaimMatchesReadsSet(ec.principal, ParamName(r), EffectiveMatch(r, MATCH_ANY) == MATCH_ALL, r.values, vs);
    }
  }

  lemma KindPrincipalReadsSet()
    ensures ReadsValuesAsSet(KindPrincipal().evaluate.value)
  {
    forall ec: EvalContext, r: Requirement, vs: seq<string> | SameValues(r.values, vs)
      ensures KindPrincipal().evaluate.value(ec, r) == KindPrincipal().evaluate.value(ec, r.(values := vs))
    {
    }
  }

  /** All kinds of the default registry read their values as sets. */
  lemma DefaultKindsReadSets()
    ensures AllReadValuesAsSets(DefaultKinds())
  {
    KindClaimReadsSet();
    KindPrincipalReadsSet();
    ClaimKindReadsSet("role", "roles", MATCH_ANY);
    ClaimKindReadsSet("permission", "permissions", MATCH_ALL);
    ClaimKindReadsSet("scope", "scopes", MATCH_ANY);
    assert ReadsValuesAsSet(KindAuthenticated().evaluate.value);
  }
}
