/** Validation and inheritance of effective policies (policy/build.go). */
module PolicyValidation {
  import opened Wrappers
  import opened PolicySpec
  import opened Registry
  import opened Decider

  function VocabularyDomain(r: Requirement, kind: RequirementKind): string {
    if r.vocabulary != "" then r.vocabulary
    else if kind.name == "claim" && ParamName(r) != "" then "claim:" + ParamName(r)
    else kind.name
  }

  /** A kind validates a requirement with its match already resolved. */
  predicate ValidRequirement(r: Requirement, kinds: Kinds, vocab: Vocabulary) {
    && ValidMatch(r.mode)
    && r.kind in kinds
    && var kind := kinds[r.kind];
       var resolved := r.(mode := EffectiveMatch(r, kind.defaultMatch));
       var domain := VocabularyDomain(resolved, kind);
       && (kind.requiresVocabulary ==> domain in vocab)
       && (if kind.validate.Some? then kind.validate.value(resolved, vocab)
           else ValuesKnown(vocab, domain, resolved.values))
  }

  ghost predicate ValidPolicy(p: Policy, kinds: Kinds, vocab: Vocabulary) {
    && p.preset == ""
    && (p.anonymous <==> !p.Positive())
    && (forall g :: g in p.anyOf ==> g != [])
    && (forall r :: Mentions(p, r) ==> ValidRequirement(r, kinds, vocab))
  }

  /** The number of invalid requirements of a list. */
  method CountInvalid(rs: seq<Requirement>, kinds: Kinds, vocab: Vocabulary) returns (n: nat)
    ensures n == 0 <==> forall r :: r in rs ==> ValidRequirement(r, kinds, vocab)
  {
    n := 0;
    for i := 0 to |rs|
      invariant n == 0 <==> forall r :: r in rs[..i] ==> ValidRequirement(r, kinds, vocab)
    {
      assert rs[..i + 1] == rs[..i] + [rs[i]];
      if !ValidRequirement(rs[i], kinds, vocab) {
        n := n + 1;
      }
    }
    assert rs[..|rs|] == rs;
  }

  ghost predicate ValidGroup(g: seq<Requirement>, kinds: Kinds, vocab: Vocabulary) {
    g != [] && forall r :: r in g ==> ValidRequirement(r, kinds, vocab)
  }

  method CountInvalidGroups(groups: seq<seq<Requirement>>, kinds: Kinds, vocab: Vocabulary) returns (n: nat)
    ensures n == 0 <==> forall g :: g in groups ==> ValidGroup(g, kinds, vocab)
  {
    n := 0;
    for i := 0 to |groups|
      invariant n == 0 <==> forall g :: g in groups[..i] ==> ValidGroup(g, kinds, vocab)
    {
      var g := groups[i];
      var bad := 1;
      if |g| > 0 {
        bad := CountInvalid(g, kinds, vocab);
      }
      assert bad == 0 <==> ValidGroup(g, kinds, vocab);
      assert groups[..i + 1] == groups[..i] + [g];
      n := n + bad;
    }
    assert groups[..|groups|] == groups;
  }

  /** validatePolicy, counting violations: none exactly for the valid policies. */
  method ValidatePolicy(p: Policy, kinds: Kinds, vocab: Vocabulary) returns (violations: nat)
    ensures violations == 0 <==> ValidPolicy(p, kinds, vocab)
  {
    violations := 0;
    if p.preset != "" {
      violations := violations + 1;
    }
    if p.anonymous {
      if |p.require| > 0 || |p.anyOf| > 0 {
        violations := violations + 1;
      }
    } else if |p.require| == 0 && |p.anyOf| == 0 {
      violations := violations + 1;
    }
    var bad := CountInvalid(p.require, kinds, vocab);
    violations := violations + bad;
    bad := CountInvalidGroups(p.anyOf, kinds, vocab);
    violations := violations + bad;
    bad := CountInvalid(p.forbid, kinds, vocab);
    violations := violations + bad;
  }

  /** A valid policy is never denied as malformed. */
  lemma ValidIsWellFormed(p: Policy, kinds: Kinds, vocab: Vocabulary)
    requires ValidPolicy(p, kinds, vocab)
    ensures Malformed(p) == None
  {
  }

  ghost predicate SomeEvaluatorErrs(p: Policy, ec: EvalContext, kinds: Kinds) {
    exists r :: Mentions(p, r) && r.kind in kinds && kinds[r.kind].evaluate.Some?
      && kinds[r.kind].evaluate.value(ec, r).Failure?
  }

  /**
   A valid policy whose kinds all have evaluators never yields an Internal decision, and a
   decision fails only with an evaluator's own error.
   */
  lemma ValidNeverInternal(p: Policy, kinds: Kinds, vocab: Vocabulary, ec: EvalContext)
    requires ValidPolicy(p, kinds, vocab) && Evaluable(p, kinds)
    ensures Decide(p, ec, kinds).Success? ==> Decide(p, ec, kinds).value.code != Internal
    ensures Decide(p, ec, kinds).Failure? ==> SomeEvaluatorErrs(p, ec, kinds)
  {
    ValidIsWellFormed(p, kinds, vocab);
    if Decide(p, ec, kinds).Failure? {
      var r := AcceptedErrorsComeFromEvaluators(p, ec, kinds);
    }
  }

  // ---- inheritance ----

  /** base is the inherited default, extra the method's own policy. */
  function AndPolicy(base: Policy, extra: Policy): Policy {
    Policy(extra.preset, extra.presetArgs,
           base.anonymous && (extra.anonymous || !extra.Positive()),
           base.require + extra.require, base.anyOf + extra.anyOf, base.forbid + extra.forbid)
  }

  lemma AndMentions(p: Policy, q: Policy, r: Requirement)
    ensures Mentions(AndPolicy(p, q), r) <==> Mentions(p, r) || Mentions(q, r)
  {
  }

  /** Merging keeps validity. */
  lemma AndKeepsValid(p: Policy, q: Policy, kinds: Kinds, vocab: Vocabulary)
    requires ValidPolicy(p, kinds, vocab) && ValidPolicy(q, kinds, vocab)
    ensures ValidPolicy(AndPolicy(p, q), kinds, vocab)
  {
    forall r | Mentions(AndPolicy(p, q), r)
      ensures ValidRequirement(r, kinds, vocab)
    {
      AndMentions(p, q, r);
    }
  }

  /** What allows a valid policy, spelled out. */
  lemma ValidAllows(p: Policy, kinds: Kinds, vocab: Vocabulary, ec: EvalContext)
    requires ValidPolicy(p, kinds, vocab) && ErrorFree(p, ec, kinds)
    ensures Allows(p, ec, kinds) <==>
      && (p.anonymous || ec.principal.Some?)
      && !AnyHolds(ec, p.forbid, kinds)
      && AllHold(ec, p.require, kinds)
      && (p.anyOf == [] || SomeGroupHolds(ec, p.anyOf, kinds))
  {
    ValidIsWellFormed(p, kinds, vocab);
    DecisionMeaning(p, ec, kinds);
  }

  lemma HoldsOfAppend(ec: EvalContext, a: seq<Requirement>, b: seq<Requirement>, kinds: Kinds)
    ensures AnyHolds(ec, a + b, kinds) <==> AnyHolds(ec, a, kinds) || AnyHolds(ec, b, kinds)
    ensures AllHold(ec, a + b, kinds) <==> AllHold(ec, a, kinds) && AllHold(ec, b, kinds)
  {
  }

  /**
   The merged decision: both forbid lists and both require lists are enforced, and the
   groups of both layers are pooled as alternatives.
   */
  lemma AndDecision(p: Policy, q: Policy, kinds: Kinds, vocab: Vocabulary, ec: EvalContext)
    requires ValidPolicy(p, kinds, vocab) && ValidPolicy(q, kinds, vocab)
    requires ErrorFree(p, ec, kinds) && ErrorFree(q, ec, kinds)
    ensures Allows(AndPolicy(p, q), ec, kinds) <==>
      && ((p.anonymous && q.anonymous) || ec.principal.Some?)
      && !AnyHolds(ec, p.forbid, kinds) && !AnyHolds(ec, q.forbid, kinds)
      && AllHold(ec, p.require, kinds) && AllHold(ec, q.require, kinds)
      && ((p.anyOf == [] && q.anyOf == []) || SomeGroupHolds(ec, p.anyOf, kinds) || SomeGroupHolds(ec, q.anyOf, kinds))
  {
    var m := AndPolicy(p, q);
    AndKeepsValid(p, q, kinds, vocab);
    forall r | Mentions(m, r)
      ensures MatchRequirement(ec, r, kinds).Success?
    {
      AndMentions(p, q, r);
    }
    ValidAllows(m, kinds, vocab, ec);
    HoldsOfAppend(ec, p.forbid, q.forbid, kinds);
    HoldsOfAppend(ec, p.require, q.require, kinds);
    assert SomeGroupHolds(ec, m.anyOf, kinds) <==> SomeGroupHolds(ec, p.anyOf, kinds) || SomeGroupHolds(ec, q.anyOf, kinds);
  }

  /** With groups in one layer at most, the merge is the conjunction of the two decisions. */
  lemma AndIsConjunction(p: Policy, q: Policy, kinds: Kinds, vocab: Vocabulary, ec: EvalContext)
    requires ValidPolicy(p, kinds, vocab) && ValidPolicy(q, kinds, vocab)
    requires ErrorFree(p, ec, kinds) && ErrorFree(q, ec, kinds)
    ensures Allows(p, ec, kinds) && Allows(q, ec, kinds) ==> Allows(AndPolicy(p, q), ec, kinds)
    ensures p.anyOf == [] || q.anyOf == [] ==>
      (Allows(AndPolicy(p, q), ec, kinds) <==> Allows(p, ec, kinds) && Allows(q, ec, kinds))
  {
    AndDecision(p, q, kinds, vocab, ec);
    ValidAllows(p, kinds, vocab, ec);
    ValidAllows(q, kinds, vocab, ec);
  }

  /** Where the anonymous flags of a three-layer merge depend on the grouping. */
  predicate AssociativityGap(a: Policy, b: Policy, c: Policy) {
    a.anonymous && !b.anonymous && !b.Positive() && c.anonymous && c.Positive()
  }

  /** Merging is associative exactly outside that gap. */
  lemma AndAssociative(a: Policy, b: Policy, c: Policy)
    ensures AndPolicy(AndPolicy(a, b), c) == AndPolicy(a, AndPolicy(b, c)) <==> !AssociativityGap(a, b, c)
  {
    assert (a.require + b.require) + c.require == a.require + (b.require + c.require);
    assert (a.anyOf + b.anyOf) + c.anyOf == a.anyOf + (b.anyOf + c.anyOf);
    assert (a.forbid + b.forbid) + c.forbid == a.forbid + (b.forbid + c.forbid);
  }

  /** The gap needs an invalid layer. */
  lemma AndAssociativeOnValid(a: Policy, b: Policy, c: Policy, kinds: Kinds, vocab: Vocabulary)
    requires ValidPolicy(c, kinds, vocab) || ValidPolicy(b, kinds, vocab)
    ensures AndPolicy(AndPolicy(a, b), c) == AndPolicy(a, AndPolicy(b, c))
  {
    AndAssociative(a, b, c);
  }
}
