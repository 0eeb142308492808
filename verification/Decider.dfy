/** Policy evaluation (authz/decider.go). */
module Decider {
  import opened Wrappers
  import opened PolicySpec
  import opened Registry

  datatype Decision = Decision(allow: bool, code: Code, reason: string, failed: Option<Requirement>)

  const ALLOWED := Decision(true, OK, "", None)

  function Denied(code: Code, reason: string, failed: Option<Requirement>): Decision {
    Decision(false, code, reason, failed)
  }

  /** An evaluator error that carries status OK is no error: the requirement is just not met. */
  function MatchRequirement(ec: EvalContext, r: Requirement, kinds: Kinds): Result<bool, Code> {
    if r.kind !in kinds || kinds[r.kind].evaluate.None? then Failure(Internal)
    else match kinds[r.kind].evaluate.value(ec, r)
      case Success(matched) => Success(matched)
      case Failure(StatusError(OK)) => Success(false)
      case Failure(StatusError(code)) => Failure(code)
      case Failure(PlainError) => Failure(Internal)
  }

  // ---- the order of evaluation ----

  /** The first requirement of rs whose outcome is `stop`, unless an error comes first. */
  function FirstWith(ec: EvalContext, rs: seq<Requirement>, kinds: Kinds, stop: bool): Result<Option<Requirement>, Code> {
    if rs == [] then Success(None)
    else match MatchRequirement(ec, rs[0], kinds)
      case Failure(e) => Failure(e)
      case Success(b) => if b == stop then Success(Some(rs[0])) else FirstWith(ec, rs[1..], kinds, stop)
  }

  /** Whether some group holds, trying groups in order and each group up to its first unmet requirement. */
  function AnyGroup(ec: EvalContext, groups: seq<seq<Requirement>>, kinds: Kinds): Result<bool, Code> {
    if groups == [] then Success(false)
    else match FirstWith(ec, groups[0], kinds, false)
      case Failure(e) => Failure(e)
      case Success(None) => Success(true)
      case Success(Some(_)) => AnyGroup(ec, groups[1..], kinds)
  }

  /** Malformed policies are denied before any evaluation. */
  ghost function Malformed(p: Policy): Option<string> {
    if p.preset != "" || (!p.anonymous && !p.Positive()) then Some("empty or unexpanded policy")
    else if p.anonymous && p.Positive() then Some("anonymous policy with requirements")
    else if exists g :: g in p.anyOf && g == [] then Some("empty any_of group")
    else if exists r :: Mentions(p, r) && !ValidMatch(r.mode) then Some("invalid requirement match")
    else None
  }

  ghost function Decide(p: Policy, ec: EvalContext, kinds: Kinds): Result<Decision, Code> {
    match Malformed(p)
    case Some(reason) => Success(Denied(Internal, reason, None))
    case None =>
      if !p.anonymous && ec.principal.None? then Success(Denied(Unauthenticated, "missing principal", None))
      else match FirstWith(ec, p.forbid, kinds, true)
        case Failure(e) => Failure(e)
        case Success(Some(r)) => Success(Denied(PermissionDenied, "forbidden", Some(r)))
        case Success(None) =>
          if p.anonymous then Success(ALLOWED) else DecidePositive(p, ec, kinds)
  }

  ghost function DecidePositive(p: Policy, ec: EvalContext, kinds: Kinds): Result<Decision, Code> {
    match FirstWith(ec, p.require, kinds, false)
    case Failure(e) => Failure(e)
    case Success(Some(r)) => Success(Denied(PermissionDenied, "requirement not satisfied", Some(r)))
    case Success(None) =>
      if p.anyOf == [] then Success(ALLOWED)
      else match AnyGroup(ec, p.anyOf, kinds)
        case Failure(e) => Failure(e)
        case Success(ok) =>
          if ok then Success(ALLOWED) else Success(Denied(PermissionDenied, "no any_of alternative satisfied", None))
  }

  // ---- the loops of the source ----

  method RequirementsOf(p: Policy) returns (out: seq<Requirement>)
    ensures forall r :: r in out <==> Mentions(p, r)
  {
    out := p.require + p.forbid;
    for i := 0 to |p.anyOf|
      invariant forall r :: r in out <==> r in p.require || r in p.forbid || exists g :: g in p.anyOf[..i] && r in g
    {
      assert p.anyOf[..i + 1] == p.anyOf[..i] + [p.anyOf[i]];
      out := out + p.anyOf[i];
    }
    assert p.anyOf[..|p.anyOf|] == p.anyOf;
  }

  method MatchAny(ec: EvalContext, rs: seq<Requirement>, kinds: Kinds) returns (r: Result<Option<Requirement>, Code>)
    ensures r == FirstWith(ec, rs, kinds, true)
  {
    r := FindFirst(ec, rs, kinds, true);
  }

  /** One loop over requirements that stops at an outcome or an error. */
  method FindFirst(ec: EvalContext, rs: seq<Requirement>, kinds: Kinds, stop: bool)
    returns (r: Result<Option<Requirement>, Code>)
    ensures r == FirstWith(ec, rs, kinds, stop)
  {
    for i := 0 to |rs|
      invariant FirstWith(ec, rs, kinds, stop) == FirstWith(ec, rs[i..], kinds, stop)
    {
      assert rs[i..][1..] == rs[i + 1..];
      match MatchRequirement(ec, rs[i], kinds)
      case Failure(e) => return Failure(e);
      case Success(b) =>
        if b == stop {
          return Success(Some(rs[i]));
        }
    }
    return Success(None);
  }

  method FindGroup(ec: EvalContext, groups: seq<seq<Requirement>>, kinds: Kinds) returns (r: Result<bool, Code>)
    ensures r == AnyGroup(ec, groups, kinds)
  {
    for i := 0 to |groups|
      invariant AnyGroup(ec, groups, kinds) == AnyGroup(ec, groups[i..], kinds)
    {
      assert groups[i..][1..] == groups[i + 1..];
      var unmet := FindFirst(ec, groups[i], kinds, false);
      match unmet
      case Failure(e) => return Failure(e);
      case Success(None) => return Success(true);
      case Success(Some(_)) =>
    }
    return Success(false);
  }

  method HasEmptyGroup(groups: seq<seq<Requirement>>) returns (r: bool)
    ensures r <==> exists g :: g in groups && g == []
  {
    for i := 0 to |groups|
      invariant forall g :: g in groups[..i] ==> g != []
    {
      assert groups[..i + 1] == groups[..i] + [groups[i]];
      if |groups[i]| == 0 {
        assert groups[i] == [] && groups[i] in groups;
        return true;
      }
    }
    assert groups[..|groups|] == groups;
    return false;
  }

  method HasInvalidMatch(p: Policy) returns (r: bool)
    ensures r <==> exists q :: Mentions(p, q) && !ValidMatch(q.mode)
  {
    var all := RequirementsOf(p);
    for i := 0 to |all|
      invariant forall q :: q in all[..i] ==> ValidMatch(q.mode)
    {
      assert all[i] in all;
      if !ValidMatch(all[i].mode) {
        return true;
      }
    }
    return false;
  }

  method DecidePolicy(p: Policy, ec: EvalContext, kinds: Kinds) returns (d: Result<Decision, Code>)
    ensures d == Decide(p, ec, kinds)
  {
    if p.preset != "" || (!p.anonymous && |p.require| == 0 && |p.anyOf| == 0) {
      return Success(Denied(Internal, "empty or unexpanded policy", None));
    }
    if p.anonymous && (|p.require| > 0 || |p.anyOf| > 0) {
      return Success(Denied(Internal, "anonymous policy with requirements", None));
    }
    var empty := HasEmptyGroup(p.anyOf);
    if empty {
      return Success(Denied(Internal, "empty any_of group", None));
    }
    var invalid := HasInvalidMatch(p);
    if invalid {
      return Success(Denied(Internal, "invalid requirement match", None));
    }
    if !p.anonymous && ec.principal.None? {
      return Success(Denied(Unauthenticated, "missing principal", None));
    }
    var forbidden := MatchAny(ec, p.forbid, kinds);
    match forbidden
    case Failure(e) => return Failure(e);
    case Success(Some(r)) => return Success(Denied(PermissionDenied, "forbidden", Some(r)));
    case Success(None) =>
      if p.anonymous {
        return Success(ALLOWED);
      }
      d := DecideRequirements(p, ec, kinds);
  }

  method DecideRequirements(p: Policy, ec: EvalContext, kinds: Kinds) returns (d: Result<Decision, Code>)
    ensures d == DecidePositive(p, ec, kinds)
  {
    var unmet := FindFirst(ec, p.require, kinds, false);
    match unmet
    case Failure(e) => return Failure(e);
    case Success(Some(r)) => return Success(Denied(PermissionDenied, "requirement not satisfied", Some(r)));
    case Success(None) =>
      if |p.anyOf| > 0 {
        var found := FindGroup(ec, p.anyOf, kinds);
        match found
        case Failure(e) => return Failure(e);
        case Success(ok) =>
          if !ok {
            return Success(Denied(PermissionDenied, "no any_of alternative satisfied", None));
          }
      }
      return Success(ALLOWED);
  }

  // ---- what a decision means ----

  /** The evaluator of r's kind. */
  ghost predicate HasEvaluator(r: Requirement, kinds: Kinds) {
    r.kind in kinds && kinds[r.kind].evaluate.Some?
  }

  /** The evaluator says so. */
  ghost predicate Holds(ec: EvalContext, r: Requirement, kinds: Kinds) {
    HasEvaluator(r, kinds) && kinds[r.kind].evaluate.value(ec, r) == Success(true)
  }

  /** The evaluator says no, or returns an error that carries status OK. */
  ghost predicate Unmet(ec: EvalContext, r: Requirement, kinds: Kinds) {
    && HasEvaluator(r, kinds)
    && var answer := kinds[r.kind].evaluate.value(ec, r);
       answer == Success(false) || answer == Failure(StatusError(OK))
  }

  /** There is no evaluator, or it fails: with the status its error carries, or with Internal for any other error. */
  ghost predicate FailsWith(ec: EvalContext, r: Requirement, kinds: Kinds, code: Code) {
    if !HasEvaluator(r, kinds) then code == Internal
    else
      var answer := kinds[r.kind].evaluate.value(ec, r);
      (answer == Failure(StatusError(code)) && code != OK) || (answer == Failure(PlainError) && code == Internal)
  }

  /** A requirement holds, is unmet, or fails with one code, and only one of these. */
  lemma MatchExactly(ec: EvalContext, r: Requirement, kinds: Kinds)
    ensures MatchRequirement(ec, r, kinds) == Success(true) <==> Holds(ec, r, kinds)
    ensures MatchRequirement(ec, r, kinds) == Success(false) <==> Unmet(ec, r, kinds)
    ensures forall code :: MatchRequirement(ec, r, kinds) == Failure(code) <==> FailsWith(ec, r, kinds, code)
  {
  }

  /** No requirement of p errors in this context. */
  ghost predicate ErrorFree(p: Policy, ec: EvalContext, kinds: Kinds) {
    forall r :: Mentions(p, r) ==> Holds(ec, r, kinds) || Unmet(ec, r, kinds)
  }

  ghost predicate AllHold(ec: EvalContext, rs: seq<Requirement>, kinds: Kinds) {
    forall r :: r in rs ==> Holds(ec, r, kinds)
  }

  ghost predicate AnyHolds(ec: EvalContext, rs: seq<Requirement>, kinds: Kinds) {
    exists r :: r in rs && Holds(ec, r, kinds)
  }

  ghost predicate SomeGroupHolds(ec: EvalContext, groups: seq<seq<Requirement>>, kinds: Kinds) {
    exists g :: g in groups && AllHold(ec, g, kinds)
  }

  /** Allow, Code and Reason as a table over what holds. */
  ghost function Outcome(p: Policy, ec: EvalContext, kinds: Kinds): (bool, Code, string) {
    if Malformed(p).Some? then (false, Internal, Malformed(p).value)
    else if !p.anonymous && ec.principal.None? then (false, Unauthenticated, "missing principal")
    else if AnyHolds(ec, p.forbid, kinds) then (false, PermissionDenied, "forbidden")
    else if p.anonymous then (true, OK, "")
    else if !AllHold(ec, p.require, kinds) then (false, PermissionDenied, "requirement not satisfied")
    else if p.anyOf != [] && !SomeGroupHolds(ec, p.anyOf, kinds) then (false, PermissionDenied, "no any_of alternative satisfied")
    else (true, OK, "")
  }

  lemma {:induction false} FirstWithMeaning(ec: EvalContext, rs: seq<Requirement>, kinds: Kinds, stop: bool)
    requires forall r :: r in rs ==> MatchRequirement(ec, r, kinds).Success?
    ensures FirstWith(ec, rs, kinds, stop).Success?
    ensures FirstWith(ec, rs, kinds, stop) == Success(None)
        <==> forall r :: r in rs ==> MatchRequirement(ec, r, kinds) == Success(!stop)
  {
    if rs != [] {
      FirstWithMeaning(ec, rs[1..], kinds, stop);
      assert rs == [rs[0]] + rs[1..];
    }
  }

  lemma {:induction false} AnyGroupMeaning(ec: EvalContext, groups: seq<seq<Requirement>>, kinds: Kinds)
    requires forall g, r :: g in groups && r in g ==> MatchRequirement(ec, r, kinds).Success?
    ensures AnyGroup(ec, groups, kinds) == Success(SomeGroupHolds(ec, groups, kinds))
  {
    if groups != [] {
      assert groups[0] in groups;
      FirstWithMeaning(ec, groups[0], kinds, false);
      AnyGroupMeaning(ec, groups[1..], kinds);
      assert groups == [groups[0]] + groups[1..];
    }
  }

  lemma ErrorFreeMatches(p: Policy, ec: EvalContext, kinds: Kinds, r: Requirement)
    requires ErrorFree(p, ec, kinds) && Mentions(p, r)
    ensures MatchRequirement(ec, r, kinds) == Success(Holds(ec, r, kinds))
  {
    MatchExactly(ec, r, kinds);
  }

  lemma ForbidMeaning(p: Policy, ec: EvalContext, kinds: Kinds)
    requires ErrorFree(p, ec, kinds)
    ensures FirstWith(ec, p.forbid, kinds, true).Success?
    ensures FirstWith(ec, p.forbid, kinds, true) == Success(None) <==> !AnyHolds(ec, p.forbid, kinds)
  {
    forall r | r in p.forbid
      ensures MatchRequirement(ec, r, kinds) == Success(Holds(ec, r, kinds))
    {
      ErrorFreeMatches(p, ec, kinds, r);
    }
    FirstWithMeaning(ec, p.forbid, kinds, true);
  }

  lemma RequireMeaning(p: Policy, ec: EvalContext, kinds: Kinds)
    requires ErrorFree(p, ec, kinds)
    ensures FirstWith(ec, p.require, kinds, false).Success?
    ensures FirstWith(ec, p.require, kinds, false) == Success(None) <==> AllHold(ec, p.require, kinds)
  {
    forall r | r in p.require
      ensures MatchRequirement(ec, r, kinds) == Success(Holds(ec, r, kinds))
    {
      ErrorFreeMatches(p, ec, kinds, r);
    }
    FirstWithMeaning(ec, p.require, kinds, false);
  }

  lemma AnyOfMeaning(p: Policy, ec: EvalContext, kinds: Kinds)
    requires ErrorFree(p, ec, kinds)
    ensures AnyGroup(ec, p.anyOf, kinds) == Success(SomeGroupHolds(ec, p.anyOf, kinds))
  {
    forall g, r | g in p.anyOf && r in g
      ensures MatchRequirement(ec, r, kinds).Success?
    {
      ErrorFreeMatches(p, ec, kinds, r);
    }
    AnyGroupMeaning(ec, p.anyOf, kinds);
  }

  /** When no evaluator errs, a decision is exactly what the table says. */
  lemma DecisionMeaning(p: Policy, ec: EvalContext, kinds: Kinds)
    requires ErrorFree(p, ec, kinds)
    ensures Decide(p, ec, kinds).Success?
    ensures var d := Decide(p, ec, kinds).value; (d.allow, d.code, d.reason) == Outcome(p, ec, kinds)
  {
    ForbidMeaning(p, ec, kinds);
    RequireMeaning(p, ec, kinds);
    AnyOfMeaning(p, ec, kinds);
  }

  /** Allowed, for a well-formed policy. */
  ghost predicate Allows(p: Policy, ec: EvalContext, kinds: Kinds) {
    Decide(p, ec, kinds).Success? && Decide(p, ec, kinds).value.allow
  }

  /** An error out of a decision is an error out of some evaluator or an unknown kind. */
  lemma ErrorsComeFromRequirements(p: Policy, ec: EvalContext, kinds: Kinds) returns (r: Requirement)
    requires Decide(p, ec, kinds).Failure?
    ensures Mentions(p, r) && MatchRequirement(ec, r, kinds) == Failure(Decide(p, ec, kinds).error)
  {
    match FirstWith(ec, p.forbid, kinds, true)
    case Failure(_) => r := FirstError(ec, p.forbid, kinds, true);
    case Success(_) =>
      match FirstWith(ec, p.require, kinds, false)
      case Failure(_) => r := FirstError(ec, p.require, kinds, false);
      case Success(_) =>
        var g: seq<Requirement>;
        g, r := FirstGroupError(ec, p.anyOf, kinds);
        assert g in p.anyOf && r in g;
  }

  lemma {:induction false} FirstError(ec: EvalContext, rs: seq<Requirement>, kinds: Kinds, stop: bool) returns (r: Requirement)
    requires FirstWith(ec, rs, kinds, stop).Failure?
    ensures r in rs && MatchRequirement(ec, r, kinds) == Failure(FirstWith(ec, rs, kinds, stop).error)
  {
    if MatchRequirement(ec, rs[0], kinds).Failure? {
      r := rs[0];
    } else {
      r := FirstError(ec, rs[1..], kinds, stop);
    }
  }

  lemma {:induction false} FirstGroupError(ec: EvalContext, groups: seq<seq<Requirement>>, kinds: Kinds)
    returns (g: seq<Requirement>, r: Requirement)
    requires AnyGroup(ec, groups, kinds).Failure?
    ensures g in groups && r in g
    ensures MatchRequirement(ec, r, kinds) == Failure(AnyGroup(ec, groups, kinds).error)
  {
    if FirstWith(ec, groups[0], kinds, false).Failure? {
      g := groups[0];
      r := FirstError(ec, g, kinds, false);
    } else {
      g, r := FirstGroupError(ec, groups[1..], kinds);
    }
  }

  // ---- the startup check ----

  /** What NewRequirementDecider requires of a policy's kinds. */
  ghost predicate Evaluable(p: Policy, kinds: Kinds) {
    forall r :: Mentions(p, r) ==> r.kind in kinds && kinds[r.kind].evaluate.Some?
  }

  method NewRequirementDecider(policies: seq<Policy>, kinds: Kinds) returns (ok: bool)
    ensures ok <==> forall p :: p in policies ==> Evaluable(p, kinds)
  {
    for i := 0 to |policies|
      invariant forall p :: p in policies[..i] ==> Evaluable(p, kinds)
    {
      var p := policies[i];
      assert p in policies;
      var all := RequirementsOf(p);
      for j := 0 to |all|
        invariant forall r :: r in all[..j] ==> r.kind in kinds && kinds[r.kind].evaluate.Some?
      {
        var r := all[j];
        assert r in all && Mentions(p, r);
        if r.kind !in kinds || kinds[r.kind].evaluate.None? {
          return false;
        }
      }
      assert all[..|all|] == all;
      assert policies[..i + 1] == policies[..i] + [p];
    }
    assert policies[..|policies|] == policies;
    return true;
  }

  /** Of an accepted policy, only an evaluator's own error makes a decision fail. */
  lemma AcceptedErrorsComeFromEvaluators(p: Policy, ec: EvalContext, kinds: Kinds) returns (r: Requirement)
    requires Evaluable(p, kinds) && Decide(p, ec, kinds).Failure?
    ensures Mentions(p, r) && r.kind in kinds && kinds[r.kind].evaluate.Some?
    ensures kinds[r.kind].evaluate.value(ec, r).Failure?
  {
    r := ErrorsComeFromRequirements(p, ec, kinds);
  }
}
