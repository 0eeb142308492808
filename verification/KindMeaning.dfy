/** What the kinds of the default registry ask of a caller and of a declaration (policy/registry.go). */
module KindMeaning {
  import opened Wrappers
  import opened PolicySpec
  import opened Principal
  import opened Registry
  import opened PolicyValidation

  /** The caller's claim of that name lists v. */
  predicate Carries(p: Option<Principal>, claim: string, v: string) {
    p.Some? && claim in p.value.claims && v in p.value.claims[claim]
  }

  ghost predicate CarriesSome(p: Option<Principal>, claim: string, values: seq<string>) {
    exists v :: v in values && Carries(p, claim, v)
  }

  ghost predicate CarriesAll(p: Option<Principal>, claim: string, values: seq<string>) {
    forall v :: v in values ==> Carries(p, claim, v)
  }

  ghost predicate HasClaim(p: Option<Principal>, claim: string) {
    exists v :: Carries(p, claim, v)
  }

  /** What a requirement over a claim asks: with values, all or some of them; without, any value at all. */
  ghost predicate Asks(p: Option<Principal>, claim: string, all: bool, values: seq<string>) {
    if values == [] then HasClaim(p, claim)
    else if all then CarriesAll(p, claim, values)
    else CarriesSome(p, claim, values)
  }

  lemma ClaimMatchesAsks(p: Option<Principal>, claim: string, all: bool, values: seq<string>)
    ensures ClaimMatches(p, claim, all, values) <==> Asks(p, claim, all, values)
  {
    if values != [] { assert values[0] in values; }
    if p.Some? {
      var have := ClaimValues(p.value, claim);
      assert forall v :: v in have <==> Carries(p, claim, v);
      if have != [] { assert have[0] in have; }
    }
  }

  ghost predicate Answers(kind: string, ec: EvalContext, r: Requirement, answer: Result<bool, EvalError>) {
    kind in DefaultKinds() && DefaultKinds()[kind].evaluate.Some? && DefaultKinds()[kind].evaluate.value(ec, r) == answer
  }

  /** Anyone, or someone of a listed kind. */
  lemma CallerKindsMean(ec: EvalContext, r: Requirement)
    ensures Answers("authenticated", ec, r, Success(ec.principal.Some?))
    ensures Answers("principal_kind", ec, r, Success(ec.principal.Some? && ec.principal.value.kind in r.values))
  {
  }

  /** Roles and scopes: some listed value unless all are asked for. Permissions: all unless some are asked for. */
  lemma ClaimKindsMean(ec: EvalContext, r: Requirement)
    ensures Answers("role", ec, r, Success(Asks(ec.principal, "roles", r.mode == MATCH_ALL, r.values)))
    ensures Answers("scope", ec, r, Success(Asks(ec.principal, "scopes", r.mode == MATCH_ALL, r.values)))
    ensures Answers("permission", ec, r,
              Success(Asks(ec.principal, "permissions", r.mode == MATCH_ALL || r.mode == MATCH_DEFAULT, r.values)))
  {
    ClaimMatchesAsks(ec.principal, "roles", r.mode == MATCH_ALL, r.values);
    ClaimMatchesAsks(ec.principal, "scopes", r.mode == MATCH_ALL, r.values);
    ClaimMatchesAsks(ec.principal, "permissions", r.mode == MATCH_ALL || r.mode == MATCH_DEFAULT, r.values);
  }

  /** The claim kind reads the claim its parameter names, and fails without one. */
  lemma ClaimKindMeans(ec: EvalContext, r: Requirement)
    ensures if "name" in r.params && r.params["name"] != ""
            then Answers("claim", ec, r, Success(Asks(ec.principal, r.params["name"], r.mode == MATCH_ALL, r.values)))
            else Answers("claim", ec, r, Failure(PlainError))
  {
    if "name" in r.params {
      ClaimMatchesAsks(ec.principal, r.params["name"], r.mode == MATCH_ALL, r.values);
    }
  }

  // ---- declarations ----

  ghost predicate Validates(kind: string, r: Requirement, vocab: Vocabulary) {
    kind in DefaultKinds() && DefaultKinds()[kind].validate.Some? && DefaultKinds()[kind].validate.value(r, vocab)
  }

  /** A registered domain lists the values; the kind's own domain is the one meant when none is named. */
  ghost predicate InDomain(vocab: Vocabulary, named: string, own: string, values: seq<string>) {
    var domain := if named != "" then named else own;
    domain in vocab ==> forall v :: v in values ==> v in vocab[domain]
  }

  lemma ClaimKindsValidate(kind: string, r: Requirement, vocab: Vocabulary)
    requires kind in {"role", "permission", "scope"}
    ensures Validates(kind, r, vocab) <==> r.values != [] && r.params == map[] && InDomain(vocab, r.vocabulary, kind, r.values)
  {
  }

  lemma CallerKindsValidate(r: Requirement, vocab: Vocabulary)
    ensures Validates("authenticated", r, vocab) <==> r.values == [] && r.params == map[]
    ensures Validates("principal_kind", r, vocab) <==>
              && r.values != [] && r.params == map[] && (r.mode == MATCH_ALL ==> |r.values| == 1)
              && InDomain(vocab, r.vocabulary, "principal_kind", r.values)
  {
  }

  lemma ClaimKindValidates(r: Requirement, vocab: Vocabulary)
    ensures Validates("claim", r, vocab) <==>
              && r.params.Keys == {"name"} && r.params["name"] != ""
              && InDomain(vocab, r.vocabulary, "claim:" + r.params["name"], r.values)
  {
    var kind := DefaultKinds()["claim"];
    assert kind == KindClaim();
    assert r.params.Keys == {"name"} ==> "name" in r.params.Keys;
    if "name" in r.params { assert ParamName(r) == r.params["name"]; }
  }

  /** What a valid requirement of a default kind declares. */
  lemma ValidClaimKinds(r: Requirement, vocab: Vocabulary)
    requires r.kind in {"role", "permission", "scope"}
    ensures ValidRequirement(r, DefaultKinds(), vocab) <==>
              && MATCH_DEFAULT <= r.mode <= MATCH_ALL
              && r.values != [] && r.params == map[] && InDomain(vocab, r.vocabulary, r.kind, r.values)
  {
    var resolved := r.(mode := EffectiveMatch(r, DefaultKinds()[r.kind].defaultMatch));
    ClaimKindsValidate(r.kind, resolved, vocab);
  }

  lemma ValidCallerKinds(r: Requirement, vocab: Vocabulary)
    ensures r.kind == "authenticated" ==>
              (ValidRequirement(r, DefaultKinds(), vocab) <==> MATCH_DEFAULT <= r.mode <= MATCH_ALL && r.values == [] && r.params == map[])
    ensures r.kind == "principal_kind" ==>
              (ValidRequirement(r, DefaultKinds(), vocab) <==>
                && MATCH_DEFAULT <= r.mode <= MATCH_ALL
                && r.values != [] && r.params == map[] && (r.mode == MATCH_ALL ==> |r.values| == 1)
                && InDomain(vocab, r.vocabulary, "principal_kind", r.values))
  {
    CallerKindsValidate(r.(mode := EffectiveMatch(r, MATCH_ANY)), vocab);
  }

  /** No requirement is valid under a kind that is not registered. */
  lemma ValidKindsAreRegistered(r: Requirement, kinds: Kinds, vocab: Vocabulary)
    requires ValidRequirement(r, kinds, vocab)
    ensures r.kind in kinds && MATCH_DEFAULT <= r.mode <= MATCH_ALL
    ensures kinds[r.kind].requiresVocabulary && r.vocabulary != "" ==> r.vocabulary in vocab
    ensures kinds[r.kind].requiresVocabulary && r.vocabulary == "" && kinds[r.kind].name != "claim" ==> kinds[r.kind].name in vocab
    ensures kinds[r.kind].validate.None? && kinds[r.kind].name != "claim" ==>
              InDomain(vocab, r.vocabulary, kinds[r.kind].name, r.values)
  {
  }
}
