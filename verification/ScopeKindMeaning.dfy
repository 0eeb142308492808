/** Which callers meet a scope requirement, in terms of the tokens they carry (policy/scope/scope.go). */
module ScopeKindMeaning {
  import opened Wrappers
  import opened PolicySpec
  import opened Registry
  import opened Principal
  import opened Scope

  /** The caller carries token in the claim the kind reads. */
  ghost predicate Carries(opts: Options, p: Principal, token: string) {
    var claim := if opts.claim == "" then "scopes" else opts.claim;
    claim in p.claims && token in p.claims[claim]
  }

  ghost predicate CarriesWildcard(opts: Options, p: Principal) {
    !opts.disallowWildcard && (Carries(opts, p, "*") || Carries(opts, p, "all"))
  }

  /** want asks for an op of a resource, or with op "" for the resource in any direction. */
  ghost predicate Wants(want: string, resource: string, op: string) {
    (op == "" && IsWhole(want) && want == resource) || (IsOp(op) && IsSpelling(want, resource, op))
  }

  /** The whole resource, or one of its ops, in either spelling; a particular op if one is wanted. */
  ghost predicate CarriesFor(opts: Options, p: Principal, resource: string, op: string) {
    exists t :: Carries(opts, p, t) && t != "*" && t != "all"
      && ((IsWhole(t) && t == resource) || exists o :: IsSpelling(t, resource, o) && (op == "" || o == op))
  }

  /** A declared wildcard asks for a wildcard; any other value for a wildcard, or a token for what it wants. */
  ghost predicate Meets(opts: Options, p: Principal, want: string) {
    || CarriesWildcard(opts, p)
    || (want != "*" && want != "all" && exists resource, op :: Wants(want, resource, op) && CarriesFor(opts, p, resource, op))
  }

  lemma TokensAreCarried(opts: Options, p: Principal)
    ensures forall t :: t in ClaimValues(p, opts.Claim()) <==> Carries(opts, p, t)
    ensures (exists t :: t in ClaimValues(p, opts.Claim()) && IsWildcard(t)) <==> Carries(opts, p, "*") || Carries(opts, p, "all")
  {
    var tokens := ClaimValues(p, opts.Claim());
    assert forall t :: t in tokens <==> Carries(opts, p, t);
    if Carries(opts, p, "*") { assert "*" in tokens && IsWildcard("*"); }
    if Carries(opts, p, "all") { assert "all" in tokens && IsWildcard("all"); }
  }

  lemma WantsExactly(want: string, resource: string, op: string)
    requires Parse(want).Some? && !IsWildcard(want)
    ensures Wants(want, resource, op) <==> Parse(want).value.resource == resource && Parse(want).value.op == op
  {
    WholeExactly(want);
    if IsOp(op) && IsSpelling(want, resource, op) { SpellingSplits(want, resource, op); }
    if !IsWhole(want) { SplitIsSpelling(want); }
  }

  lemma SatisfiedExactly(opts: Options, p: Principal, resource: string, op: string)
    ensures SetSatisfies(ClaimValues(p, opts.Claim()), resource, op, !opts.disallowWildcard) <==>
              CarriesWildcard(opts, p) || CarriesFor(opts, p, resource, op)
  {
    var tokens := ClaimValues(p, opts.Claim());
    TokensAreCarried(opts, p);
    forall t ensures Satisfies(t, resource, op, !opts.disallowWildcard) <==>
                       || (IsWildcard(t) && !opts.disallowWildcard)
                       || (!IsWildcard(t) && IsWhole(t) && t == resource)
                       || exists o :: IsSpelling(t, resource, o) && (op == "" || o == op)
    {
      SatisfyingTokens(t, resource, op, !opts.disallowWildcard);
    }
    forall t, o | IsSpelling(t, resource, o) ensures !IsWildcard(t) { SpellingSplits(t, resource, o); }
    if CarriesWildcard(opts, p) {
      var t :| t in tokens && IsWildcard(t);
      assert Satisfies(t, resource, op, !opts.disallowWildcard);
    }
    if CarriesFor(opts, p, resource, op) {
      var t :| Carries(opts, p, t) && t != "*" && t != "all"
        && ((IsWhole(t) && t == resource) || exists o :: IsSpelling(t, resource, o) && (op == "" || o == op));
      assert t in tokens && Satisfies(t, resource, op, !opts.disallowWildcard);
    }
  }

  lemma HeldExactly(opts: Options, p: Principal, want: string)
    requires Parse(want).Some?
    ensures Held(opts, ClaimValues(p, opts.Claim()), want) <==> Meets(opts, p, want)
  {
    TokensAreCarried(opts, p);
    if !IsWildcard(want) {
      var s := Parse(want).value;
      WantsExactly(want, s.resource, s.op);
      SatisfiedExactly(opts, p, s.resource, s.op);
      forall resource, op | Wants(want, resource, op) ensures resource == s.resource && op == s.op {
        WantsExactly(want, resource, op);
      }
    }
  }

  /** A requirement the scope kind validates never fails, and asks for every value or for some value. */
  lemma ScopeKindMeans(opts: Options, vocab: Vocabulary, ec: EvalContext, r: Requirement)
    requires ScopeKind(opts).validate.value(r, vocab)
    ensures ScopeKind(opts).evaluate.value(ec, r).Success?
    ensures ScopeKind(opts).evaluate.value(ec, r) == Success(true) <==>
              && ec.principal.Some?
              && if r.mode == MATCH_ALL then forall v :: v in r.values ==> Meets(opts, ec.principal.value, v)
                 else exists v :: v in r.values && Meets(opts, ec.principal.value, v)
  {
    assert ScopeValid(opts, r, vocab);
    if ec.principal.Some? {
      var tokens, all := ClaimValues(ec.principal.value, opts.Claim()), r.mode == MATCH_ALL;
      var answer := ScopeAnswer(opts, tokens, all, r.values);
      ScopeAnswerIs(opts, tokens, all, r.values, answer);
      ValidScopeMeaning(opts, vocab, r, tokens, answer);
      forall v | v in r.values ensures Held(opts, tokens, v) <==> Meets(opts, ec.principal.value, v) {
        assert ValueAccepted(opts, vocab, if r.vocabulary == "" then opts.Domain() else r.vocabulary, v);
        HeldExactly(opts, ec.principal.value, v);
      }
    }
  }

  /** A declared wildcard is met by callers with a wildcard token only, and by none where wildcards are disallowed. */
  lemma DeclaredWildcardExactly(opts: Options, ec: EvalContext, r: Requirement)
    requires r.values == ["*"] || r.values == ["all"]
    ensures ScopeKind(opts).evaluate.value(ec, r) == Success(ec.principal.Some? && CarriesWildcard(opts, ec.principal.value))
  {
    if ec.principal.Some? {
      var tokens, all := ClaimValues(ec.principal.value, opts.Claim()), r.mode == MATCH_ALL;
      HeldExactly(opts, ec.principal.value, r.values[0]);
      assert r.values[1..] == [];
      assert ScopeAnswer(opts, tokens, all, r.values[1..]) == Success(all);
    }
  }

  // ---- declarations ----

  ghost predicate InDomain(vocab: Vocabulary, named: string, own: string, value: string) {
    var domain := if named != "" then named else own;
    domain in vocab ==> value in vocab[domain]
  }

  ghost predicate HasDomain(opts: Options, vocab: Vocabulary, named: string, own: string) {
    opts.requireVocabulary ==> (if named != "" then named else own) in vocab
  }

  /** A wildcard where they are allowed, or a well-formed value whose resource the vocabulary knows. */
  ghost predicate IsDeclarable(opts: Options, vocab: Vocabulary, named: string, own: string, value: string) {
    if value == "*" || value == "all" then !opts.disallowWildcard
    else Parse(value).Some? && forall resource, op :: Wants(value, resource, op) ==> InDomain(vocab, named, own, resource)
  }

  lemma ScopeKindValidates(opts: Options, vocab: Vocabulary, r: Requirement)
    ensures var own := if opts.domain == "" then "scope" else opts.domain;
            ScopeKind(opts).validate.value(r, vocab) <==>
              && (r.mode == MATCH_ALL ==> r.values != []) && HasDomain(opts, vocab, r.vocabulary, own)
              && forall v :: v in r.values ==> IsDeclarable(opts, vocab, r.vocabulary, own, v)
  {
    var domain := if r.vocabulary == "" then opts.Domain() else r.vocabulary;
    var own := if opts.domain == "" then "scope" else opts.domain;
    assert ScopeKind(opts).validate.value(r, vocab) <==> ScopeValid(opts, r, vocab);
    forall v ensures ValueAccepted(opts, vocab, domain, v) <==> IsDeclarable(opts, vocab, r.vocabulary, own, v) {
      ValueDeclarable(opts, vocab, r.vocabulary, own, v);
    }
  }

  lemma ValueDeclarable(opts: Options, vocab: Vocabulary, named: string, own: string, value: string)
    ensures ValueAccepted(opts, vocab, if named == "" then own else named, value) <==> IsDeclarable(opts, vocab, named, own, value)
  {
    if !IsWildcard(value) && Parse(value).Some? {
      var s := Parse(value).value;
      WantsExactly(value, s.resource, s.op);
      forall resource, op | Wants(value, resource, op) ensures resource == s.resource {
        WantsExactly(value, resource, op);
      }
    }
  }

  /** An instance gate declares one resource, with or without a direction: a name with no colon, space or wildcard. */
  lemma ResourceKindValidates(opts: Options, idOf: EvalContext -> Option<string>, vocab: Vocabulary, r: Requirement)
    ensures var own := if opts.domain == "" then "resource" else opts.domain;
            ResourceKind(opts, idOf).validate.value(r, vocab) <==>
              exists resource, op :: IsGate(r.values, resource, op)
                && HasDomain(opts, vocab, r.vocabulary, own) && InDomain(vocab, r.vocabulary, own, resource)
  {
    var own := if opts.domain == "" then "resource" else opts.domain;
    assert ResourceKind(opts, idOf).validate.value(r, vocab) <==> ResourceValid(opts, r, vocab);
    if ResourceValid(opts, r, vocab) {
      var s := ParseResourceValue(r.values[0]).value;
      ResourceValueExactly(r.values[0], s);
      assert r.values == [r.values[0]];
      assert IsGate(r.values, s.resource, s.op);
    }
    if exists resource, op :: IsGate(r.values, resource, op)
         && HasDomain(opts, vocab, r.vocabulary, own) && InDomain(vocab, r.vocabulary, own, resource) {
      var resource, op :| IsGate(r.values, resource, op)
        && HasDomain(opts, vocab, r.vocabulary, own) && InDomain(vocab, r.vocabulary, own, resource);
      ResourceValueExactly(r.values[0], Scope(resource, op));
    }
  }

  ghost predicate IsGate(values: seq<string>, resource: string, op: string) {
    && (op == "" || IsOp(op))
    && values == [if op == "" then resource else resource + ":" + op]
    && resource != "" && resource != "*" && resource != "all" && ':' !in resource && ' ' !in resource
  }
}
