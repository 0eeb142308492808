/** The scope and resource kinds inside policies: validated requirements are read as sets. */
module ScopeMeaning {
  import opened Wrappers
  import opened PolicySpec
  import opened Registry
  import opened Principal
  import opened Decider
  import opened PolicyValidation
  import opened Canonical
  import opened CanonicalMeaning
  import opened Scope

  /** A kind that reads values as a set, on whatever requirements or on those it validates. */
  ghost predicate ReadsValidatedSets(k: RequirementKind) {
    || (k.evaluate.Some? ==> ReadsValuesAsSet(k.evaluate.value))
    || (exists opts :: k == ScopeKind(opts))
    || (exists opts, idOf :: k == ResourceKind(opts, idOf))
  }

  lemma ScopeReadsSet(opts: Options, ec: EvalContext, r: Requirement, kinds: Kinds, vocab: Vocabulary)
    requires r.kind in kinds && kinds[r.kind] == ScopeKind(opts) && ValidRequirement(r, kinds, vocab)
    ensures ReadsAsSet(ec, r, kinds)
  {
    var resolved := r.(mode := EffectiveMatch(r, MATCH_ANY));
    assert ScopeValid(opts, resolved, vocab);
    forall vs | SameValues(r.values, vs)
      ensures MatchRequirement(ec, r.(values := vs), kinds) == MatchRequirement(ec, r, kinds)
    {
      if ec.principal.Some? {
        var tokens, all := ClaimValues(ec.principal.value, opts.Claim()), r.mode == MATCH_ALL;
        var a, b := ScopeAnswer(opts, tokens, all, r.values), ScopeAnswer(opts, tokens, all, vs);
        ScopeAnswerIs(opts, tokens, all, r.values, a);
        ScopeAnswerIs(opts, tokens, all, vs, b);
        ValidScopeReadsSet(opts, vocab, resolved, vs, tokens, a, b);
      }
    }
  }

  lemma ResourceReadsSet(opts: Options, idOf: EvalContext -> Option<string>, ec: EvalContext, r: Requirement,
                         kinds: Kinds, vocab: Vocabulary)
    requires r.kind in kinds && kinds[r.kind] == ResourceKind(opts, idOf) && ValidRequirement(r, kinds, vocab)
    ensures ReadsAsSet(ec, r, kinds)
  {
    assert ResourceValid(opts, r.(mode := EffectiveMatch(r, MATCH_ANY)), vocab);
    forall vs | SameValues(r.values, vs)
      ensures MatchRequirement(ec, r.(values := vs), kinds) == MatchRequirement(ec, r, kinds)
    {
      assert r.values[0] in r.values && r.values[0] in vs;
      assert vs[0] in vs && vs[0] in r.values;
      assert vs[0] == r.values[0];
      var eval := kinds[r.kind].evaluate.value;
      assert eval(ec, r) == ResourceAnswer(opts, ec, r.values, idOf(ec));
      assert eval(ec, r.(values := vs)) == ResourceAnswer(opts, ec, vs, idOf(ec));
    }
  }

  /** So the policies such kinds validate decide as their canonical forms, errors aside. */
  lemma ValidPolicyReadsSets(p: Policy, ec: EvalContext, kinds: Kinds, vocab: Vocabulary)
    requires ValidPolicy(p, kinds, vocab)
    requires forall k :: k in kinds ==> ReadsValidatedSets(kinds[k])
    ensures PolicyReadsSets(p, ec, kinds)
  {
    forall r | Mentions(p, r)
      ensures ReadsAsSet(ec, r, kinds)
    {
      assert ValidRequirement(r, kinds, vocab);
      var kind := kinds[r.kind];
      assert ReadsValidatedSets(kind);
      if opts :| kind == ScopeKind(opts) {
        ScopeReadsSet(opts, ec, r, kinds, vocab);
      } else if opts, idOf :| kind == ResourceKind(opts, idOf) {
        ResourceReadsSet(opts, idOf, ec, r, kinds, vocab);
      }
    }
  }

  /** A valid policy over the built-in, scope and resource kinds and its canonical form decide alike. */
  lemma ValidPolicyDecidesAlike(p: Policy, c: Policy, ec: EvalContext, kinds: Kinds, vocab: Vocabulary)
    requires ValidPolicy(p, kinds, vocab) && IsCanonicalPolicy(p, c) && ErrorFree(p, ec, kinds)
    requires forall k :: k in kinds ==> ReadsValidatedSets(kinds[k])
    ensures DecideAlike(p, c, ec, kinds)
  {
    ValidPolicyReadsSets(p, ec, kinds, vocab);
    CanonicalDecidesAlike(p, c, ec, kinds);
  }
}
