/** A policy and its canonical form decide alike; and what happens when keys collide. */
module CanonicalMeaning {
  import opened Wrappers
  import opened Text
  import opened Sorting
  import opened PolicySpec
  import opened Registry
  import opened Decider
  import opened RequirementKeys
  import opened Canonical

  /** r is evaluated alike for every order and repetition of its values. */
  ghost predicate ReadsAsSet(ec: EvalContext, r: Requirement, kinds: Kinds) {
    forall vs :: SameValues(r.values, vs) ==> MatchRequirement(ec, r.(values := vs), kinds) == MatchRequirement(ec, r, kinds)
  }

  /** So are all requirements of p. */
  ghost predicate PolicyReadsSets(p: Policy, ec: EvalContext, kinds: Kinds) {
    forall r :: Mentions(p, r) ==> ReadsAsSet(ec, r, kinds)
  }

  /** It holds of every policy when all registered kinds read values as sets. */
  lemma KindsReadSets(p: Policy, ec: EvalContext, kinds: Kinds)
    requires AllReadValuesAsSets(kinds)
    ensures PolicyReadsSets(p, ec, kinds)
  {
    forall r, vs | Mentions(p, r) && SameValues(r.values, vs)
      ensures MatchRequirement(ec, r.(values := vs), kinds) == MatchRequirement(ec, r, kinds)
    {
      if r.kind in kinds && kinds[r.kind].evaluate.Some? {
        assert ReadsValuesAsSet(kinds[r.kind].evaluate.value);
      }
    }
  }

  lemma NormMatches(ec: EvalContext, r: Requirement, kinds: Kinds)
    requires ReadsAsSet(ec, r, kinds)
    ensures MatchRequirement(ec, Norm(r), kinds) == MatchRequirement(ec, r, kinds)
  {
    assert SameValues(r.values, Norm(r).values);
  }

  lemma CanonicalListHolds(ec: EvalContext, rs: seq<Requirement>, out: seq<Requirement>, kinds: Kinds)
    requires IsCanonicalList(rs, out) && forall r :: r in rs ==> ReadsAsSet(ec, r, kinds)
    ensures AllHold(ec, out, kinds) == AllHold(ec, rs, kinds)
    ensures AnyHolds(ec, out, kinds) == AnyHolds(ec, rs, kinds)
  {
    CanonicalListMembers(rs, out);
    forall r | r in rs
      ensures Holds(ec, Norm(r), kinds) == Holds(ec, r, kinds)
    {
      NormMatches(ec, r, kinds);
    }
  }

  lemma CanonicalGroupsHold(ec: EvalContext, groups: seq<seq<Requirement>>, out: seq<seq<Requirement>>, kinds: Kinds)
    requires IsCanonicalGroups(groups, out) && forall g, r :: g in groups && r in g ==> ReadsAsSet(ec, r, kinds)
    ensures SomeGroupHolds(ec, out, kinds) == SomeGroupHolds(ec, groups, kinds)
  {
    CanonicalGroupsMembers(groups, out);
    forall g, l | g in groups && l in out && IsCanonicalList(g, l)
      ensures AllHold(ec, l, kinds) == AllHold(ec, g, kinds)
    {
      CanonicalListHolds(ec, g, l, kinds);
    }
  }

  /** The groups half of CanonicalMentions. */
  lemma CanonicalGroupMentions(groups: seq<seq<Requirement>>, out: seq<seq<Requirement>>)
    requires IsCanonicalGroups(groups, out)
    ensures forall g, r :: g in groups && r in g ==> exists l :: l in out && Norm(r) in l
    ensures forall l, x :: l in out && x in l ==> exists g, r :: g in groups && r in g && x == Norm(r)
  {
    CanonicalGroupsMembers(groups, out);
    forall g, r | g in groups && r in g
      ensures exists l :: l in out && Norm(r) in l
    {
      var l := FormOfMember(groups, out, g, r);
    }
    forall l, x | l in out && x in l
      ensures exists g, r :: g in groups && r in g && x == Norm(r)
    {
      var g :| g in groups && IsCanonicalList(g, l);
      CanonicalListMembers(g, l);
    }
  }

  lemma FormOfMember(groups: seq<seq<Requirement>>, out: seq<seq<Requirement>>, g: seq<Requirement>, r: Requirement)
    returns (l: seq<Requirement>)
    requires IsCanonicalGroups(groups, out) && g in groups && r in g
    ensures l in out && Norm(r) in l
  {
    CanonicalGroupsMembers(groups, out);
    l :| l in out && IsCanonicalList(g, l);
    CanonicalListMembers(g, l);
  }

  lemma CanonicalMentions(p: Policy, c: Policy)
    requires IsCanonicalPolicy(p, c)
    ensures forall r :: Mentions(p, r) ==> Mentions(c, Norm(r))
    ensures forall x :: Mentions(c, x) ==> exists r :: Mentions(p, r) && x == Norm(r)
  {
    CanonicalListMembers(p.require, c.require);
    CanonicalListMembers(p.forbid, c.forbid);
    CanonicalGroupMentions(p.anyOf, c.anyOf);
    forall x | Mentions(c, x)
      ensures exists r :: Mentions(p, r) && x == Norm(r)
    {
      var r := MentionOrigin(p, c, x);
    }
  }

  lemma MentionOrigin(p: Policy, c: Policy, x: Requirement) returns (r: Requirement)
    requires IsCanonicalPolicy(p, c) && Mentions(c, x)
    ensures Mentions(p, r) && x == Norm(r)
  {
    if x in c.require {
      r := CanonicalListOrigin(p.require, c.require, x);
    } else if x in c.forbid {
      r := CanonicalListOrigin(p.forbid, c.forbid, x);
    } else {
      CanonicalGroupMentions(p.anyOf, c.anyOf);
      var l :| l in c.anyOf && x in l;
      var g, q :| g in p.anyOf && q in g && x == Norm(q);
      r := q;
    }
  }

  lemma CanonicalPositive(p: Policy, c: Policy)
    requires IsCanonicalPolicy(p, c)
    ensures (c.require == [] <==> p.require == []) && (c.anyOf == [] <==> p.anyOf == []) && c.Positive() == p.Positive()
  {
    CanonicalListMembers(p.require, c.require);
    CanonicalGroupsMembers(p.anyOf, c.anyOf);
  }

  lemma CanonicalMalformed(p: Policy, c: Policy)
    requires p.preset == "" && IsCanonicalPolicy(p, c)
    ensures Malformed(c) == Malformed(p)
  {
    CanonicalPositive(p, c);
    EmptyGroupsStay(p.anyOf, c.anyOf);
    InvalidMatchesStay(p, c);
  }

  lemma EmptyGroupsStay(groups: seq<seq<Requirement>>, out: seq<seq<Requirement>>)
    requires IsCanonicalGroups(groups, out)
    ensures (exists g :: g in groups && g == []) <==> (exists l :: l in out && l == [])
  {
    CanonicalGroupsMembers(groups, out);
    forall g, l | g in groups && l in out && IsCanonicalList(g, l)
      ensures g == [] <==> l == []
    {
      CanonicalListMembers(g, l);
    }
  }

  lemma InvalidMatchesStay(p: Policy, c: Policy)
    requires IsCanonicalPolicy(p, c)
    ensures (exists r :: Mentions(p, r) && !ValidMatch(r.mode)) <==> (exists r :: Mentions(c, r) && !ValidMatch(r.mode))
  {
    CanonicalMentions(p, c);
    forall r | Mentions(p, r)
      ensures Mentions(c, Norm(r)) && Norm(r).mode == r.mode
    {
    }
  }

  /** Both decide, with the same Allow, Code and Reason. */
  ghost predicate DecideAlike(p: Policy, q: Policy, ec: EvalContext, kinds: Kinds) {
    && Decide(p, ec, kinds).Success? && Decide(q, ec, kinds).Success?
    && var d, e := Decide(p, ec, kinds).value, Decide(q, ec, kinds).value;
       d.allow == e.allow && d.code == e.code && d.reason == e.reason
  }

  lemma CanonicalErrorFree(p: Policy, c: Policy, ec: EvalContext, kinds: Kinds)
    requires IsCanonicalPolicy(p, c) && PolicyReadsSets(p, ec, kinds) && ErrorFree(p, ec, kinds)
    ensures ErrorFree(c, ec, kinds)
  {
    forall x | Mentions(c, x)
      ensures MatchRequirement(ec, x, kinds).Success?
    {
      var r := MentionOrigin(p, c, x);
      NormMatches(ec, r, kinds);
    }
  }

  lemma CanonicalHolds(p: Policy, c: Policy, ec: EvalContext, kinds: Kinds)
    requires IsCanonicalPolicy(p, c) && PolicyReadsSets(p, ec, kinds)
    ensures AnyHolds(ec, c.forbid, kinds) == AnyHolds(ec, p.forbid, kinds)
    ensures AllHold(ec, c.require, kinds) == AllHold(ec, p.require, kinds)
    ensures SomeGroupHolds(ec, c.anyOf, kinds) == SomeGroupHolds(ec, p.anyOf, kinds)
  {
    forall r | r in p.forbid || r in p.require ensures ReadsAsSet(ec, r, kinds) { assert Mentions(p, r); }
    forall g, r | g in p.anyOf && r in g ensures ReadsAsSet(ec, r, kinds) { assert Mentions(p, r); }
    CanonicalListHolds(ec, p.forbid, c.forbid, kinds);
    CanonicalListHolds(ec, p.require, c.require, kinds);
    CanonicalGroupsHold(ec, p.anyOf, c.anyOf, kinds);
  }

  lemma CanonicalOutcome(p: Policy, c: Policy, ec: EvalContext, kinds: Kinds)
    requires p.preset == "" && IsCanonicalPolicy(p, c) && PolicyReadsSets(p, ec, kinds)
    ensures Outcome(c, ec, kinds) == Outcome(p, ec, kinds)
  {
    CanonicalMalformed(p, c);
    CanonicalPositive(p, c);
    CanonicalHolds(p, c, ec, kinds);
  }

  /** What a preset hides: without it, only a policy with neither flag nor requirement looks empty. */
  lemma EmptyReason(c: Policy, ec: EvalContext, kinds: Kinds)
    requires c.preset == ""
    ensures Outcome(c, ec, kinds).2 == "empty or unexpanded policy" <==> !c.anonymous && !c.Positive()
  {
    assert |"empty or unexpanded policy"| == 26 && |"anonymous policy with requirements"| == 34;
    assert |"empty any_of group"| == 18 && |"invalid requirement match"| == 25 && |"missing principal"| == 17;
    assert |"forbidden"| == 9 && |"requirement not satisfied"| == 25 && |"no any_of alternative satisfied"| == 31;
  }

  /**
   For a policy whose evaluators do not err in this context and read its values as sets, the
   canonical form gives the same Allow, Code and Reason if and only if the policy carries no
   preset, or is empty apart from it.
   */
  lemma CanonicalDecidesAlike(p: Policy, c: Policy, ec: EvalContext, kinds: Kinds)
    requires IsCanonicalPolicy(p, c) && PolicyReadsSets(p, ec, kinds) && ErrorFree(p, ec, kinds)
    ensures DecideAlike(p, c, ec, kinds) <==> p.preset == "" || (!p.anonymous && !p.Positive())
  {
    CanonicalErrorFree(p, c, ec, kinds);
    DecisionMeaning(p, ec, kinds);
    DecisionMeaning(c, ec, kinds);
    CanonicalPositive(p, c);
    EmptyReason(c, ec, kinds);
    if p.preset == "" {
      CanonicalOutcome(p, c, ec, kinds);
    }
  }

  /** A preset left in a policy denies it with Internal; its canonical form drops the preset and may allow. */
  lemma PresetIsNotPreserved(kinds: Kinds, ec: EvalContext)
    ensures var p := EMPTY_POLICY.(preset := "x", anonymous := true);
            var c := EMPTY_POLICY.(anonymous := true);
            IsCanonicalPolicy(p, c) && !Allows(p, ec, kinds) && Allows(c, ec, kinds)
  {
    var p := EMPTY_POLICY.(preset := "x", anonymous := true);
    var c := EMPTY_POLICY.(anonymous := true);
    EmptyListsAreCanonical();
    assert !exists r :: Mentions(c, r);
    assert Malformed(c) == None;
  }

  lemma EmptyListsAreCanonical()
    ensures IsCanonicalList([], []) && IsCanonicalGroups([], [])
  {
    var none: seq<seq<Requirement>> := [];
    assert Map(Norm, []) == [];
    assert AreCanonicalLists(none, none) && IsSortOf(none, ListKey, none);
  }

  // ---- key collisions ----

  const WITH_VALUE := Requirement("k", "", MATCH_ANY, ["a=b"], map[])
  const WITH_PARAM := Requirement("k", "", MATCH_ANY, [], map["a" := "b"])

  lemma SingletonSortedSet(x: string)
    ensures SortedSet({x}) == [x]
    ensures SortedSet({}) == []
  {
    SortedSetUnique(SortedSet({x}), [x]);
    SortedSetUnique(SortedSet({}), []);
  }

  /** A value holding '=' and a parameter can print alike. */
  lemma KeysCollide()
    ensures Key(WITH_VALUE) == Key(WITH_PARAM) && WITH_VALUE != WITH_PARAM
    ensures Norm(WITH_VALUE) == WITH_VALUE && Norm(WITH_PARAM) == WITH_PARAM
  {
    SingletonSortedSet("a=b");
    SingletonSortedSet("a");
    assert ValueSet(["a=b"]) == {"a=b"};
    var nothing: seq<string> := [];
    assert ValueSet(nothing) == {};
    assert WITH_PARAM.params.Keys == {"a"};
    var params: map<string, string> := map[];
    assert params.Keys == {};
    assert KeyValue(WITH_PARAM.params, "a") == "a=b";
    assert ParamFields(WITH_PARAM.params, ["a"]) == ["a=b"];
    assert Fields(WITH_VALUE) == ["k", "", "any", "a=b"] == Fields(WITH_PARAM);
  }

  /** With colliding keys the unstable sort leaves two canonical forms of one policy. */
  lemma CollisionBreaksUniqueness()
    ensures var p := EMPTY_POLICY.(require := [WITH_VALUE, WITH_PARAM]);
            var q := EMPTY_POLICY.(require := [WITH_PARAM, WITH_VALUE]);
            IsCanonicalPolicy(p, p) && IsCanonicalPolicy(p, q) && p != q
  {
    KeysCollide();
    EmptyListsAreCanonical();
    BothOrdersAreCanonical(WITH_VALUE, WITH_PARAM);
  }

  lemma BothOrdersAreCanonical(a: Requirement, b: Requirement)
    requires Key(a) == Key(b) && Norm(a) == a && Norm(b) == b
    ensures IsCanonicalList([a, b], [a, b]) && IsCanonicalList([a, b], [b, a])
  {
    assert Map(Norm, [a, b]) == [a, b];
    SameKeySorted([a, b], Key(a));
    SameKeySorted([b, a], Key(a));
  }

  lemma SameKeySorted(s: seq<Requirement>, k: string)
    requires forall x :: x in s ==> Key(x) == k
    ensures SortedBy(s, Key)
  {
    LessIrreflexive(k);
  }

  lemma LessIrreflexive(k: string)
    ensures !Less(k, k)
  {
    if k != [] { LessIrreflexive(k[1..]); }
  }
}
