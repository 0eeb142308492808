/** When a decision allows, denies or fails, in terms of what evaluators answer (authz/decider.go). */
module DeciderMeaning {
  import opened Wrappers
  import opened PolicySpec
  import opened Registry
  import opened Decider

  // ---- one list ----

  /** Evaluation goes on after r: towards the first that holds (stop), or the first that does not. */
  ghost predicate GoesOn(ec: EvalContext, r: Requirement, kinds: Kinds, stop: bool) {
    if stop then Unmet(ec, r, kinds) else Holds(ec, r, kinds)
  }

  ghost predicate Reaches(ec: EvalContext, rs: seq<Requirement>, kinds: Kinds, stop: bool, i: nat) {
    i <= |rs| && forall j :: 0 <= j < i ==> GoesOn(ec, rs[j], kinds, stop)
  }

  /** Evaluation of rs reaches x and ends there with its outcome. */
  ghost predicate StopsAt(ec: EvalContext, rs: seq<Requirement>, kinds: Kinds, stop: bool, x: Requirement) {
    exists i: nat :: i < |rs| && Reaches(ec, rs, kinds, stop, i) && rs[i] == x && GoesOn(ec, x, kinds, !stop)
  }

  /** Evaluation of rs reaches a requirement that fails with this code. */
  ghost predicate FailsIn(ec: EvalContext, rs: seq<Requirement>, kinds: Kinds, stop: bool, code: Code) {
    exists i: nat :: i < |rs| && Reaches(ec, rs, kinds, stop, i) && FailsWith(ec, rs[i], kinds, code)
  }

  lemma ReachesTail(ec: EvalContext, rs: seq<Requirement>, kinds: Kinds, stop: bool, i: nat)
    requires rs != [] && GoesOn(ec, rs[0], kinds, stop)
    ensures Reaches(ec, rs, kinds, stop, i + 1) <==> Reaches(ec, rs[1..], kinds, stop, i)
  {
    var rest := rs[1..];
    if Reaches(ec, rs, kinds, stop, i + 1) {
      forall j | 0 <= j < i ensures GoesOn(ec, rest[j], kinds, stop) { assert rest[j] == rs[j + 1]; }
    }
    if Reaches(ec, rest, kinds, stop, i) {
      forall j | 0 <= j < i + 1 ensures GoesOn(ec, rs[j], kinds, stop) {
        if j > 0 { assert rs[j] == rest[j - 1]; }
      }
    }
  }

  lemma StopsInTail(ec: EvalContext, rs: seq<Requirement>, kinds: Kinds, stop: bool, x: Requirement)
    requires rs != [] && GoesOn(ec, rs[0], kinds, stop)
    ensures StopsAt(ec, rs, kinds, stop, x) <==> StopsAt(ec, rs[1..], kinds, stop, x)
  {
    if StopsAt(ec, rs, kinds, stop, x) {
      var i: nat :| i < |rs| && Reaches(ec, rs, kinds, stop, i) && rs[i] == x && GoesOn(ec, x, kinds, !stop);
      ReachesTail(ec, rs, kinds, stop, i - 1);
      assert rs[1..][i - 1] == x;
    }
    if StopsAt(ec, rs[1..], kinds, stop, x) {
      var i: nat :| i < |rs[1..]| && Reaches(ec, rs[1..], kinds, stop, i) && rs[1..][i] == x && GoesOn(ec, x, kinds, !stop);
      ReachesTail(ec, rs, kinds, stop, i);
      assert rs[i + 1] == x;
    }
  }

  lemma FailsInTail(ec: EvalContext, rs: seq<Requirement>, kinds: Kinds, stop: bool, code: Code)
    requires rs != [] && GoesOn(ec, rs[0], kinds, stop)
    ensures FailsIn(ec, rs, kinds, stop, code) <==> FailsIn(ec, rs[1..], kinds, stop, code)
  {
    if FailsIn(ec, rs, kinds, stop, code) {
      var i: nat :| i < |rs| && Reaches(ec, rs, kinds, stop, i) && FailsWith(ec, rs[i], kinds, code);
      ReachesTail(ec, rs, kinds, stop, i - 1);
      assert rs[1..][i - 1] == rs[i];
    }
    if FailsIn(ec, rs[1..], kinds, stop, code) {
      var i: nat :| i < |rs[1..]| && Reaches(ec, rs[1..], kinds, stop, i) && FailsWith(ec, rs[1..][i], kinds, code);
      ReachesTail(ec, rs, kinds, stop, i);
      assert rs[i + 1] == rs[1..][i];
    }
  }

  /** The three ways the evaluation of a list can end. */
  lemma {:induction false} ListExactly(ec: EvalContext, rs: seq<Requirement>, kinds: Kinds, stop: bool)
    ensures FirstWith(ec, rs, kinds, stop) == Success(None) <==> forall r :: r in rs ==> GoesOn(ec, r, kinds, stop)
    ensures forall x :: FirstWith(ec, rs, kinds, stop) == Success(Some(x)) <==> StopsAt(ec, rs, kinds, stop, x)
    ensures forall code :: FirstWith(ec, rs, kinds, stop) == Failure(code) <==> FailsIn(ec, rs, kinds, stop, code)
  {
    if rs != [] {
      MatchExactly(ec, rs[0], kinds);
      assert rs == [rs[0]] + rs[1..];
      if GoesOn(ec, rs[0], kinds, stop) {
        ListExactly(ec, rs[1..], kinds, stop);
        forall x ensures StopsAt(ec, rs, kinds, stop, x) <==> StopsAt(ec, rs[1..], kinds, stop, x) {
          StopsInTail(ec, rs, kinds, stop, x);
        }
        forall code ensures FailsIn(ec, rs, kinds, stop, code) <==> FailsIn(ec, rs[1..], kinds, stop, code) {
          FailsInTail(ec, rs, kinds, stop, code);
        }
      } else {
        assert rs[0] in rs;
        EndsAtHead(ec, rs, kinds, stop);
      }
    }
  }

  lemma EndsAtHead(ec: EvalContext, rs: seq<Requirement>, kinds: Kinds, stop: bool)
    requires rs != [] && !GoesOn(ec, rs[0], kinds, stop)
    ensures forall i: nat :: Reaches(ec, rs, kinds, stop, i) ==> i == 0
    ensures forall x :: StopsAt(ec, rs, kinds, stop, x) <==> x == rs[0] && GoesOn(ec, x, kinds, !stop)
    ensures forall code :: FailsIn(ec, rs, kinds, stop, code) <==> FailsWith(ec, rs[0], kinds, code)
  {
    assert Reaches(ec, rs, kinds, stop, 0);
  }

  // ---- the groups ----

  /** Group i is tried: every group before it has an unmet requirement, reached without a failure. */
  ghost predicate Tried(ec: EvalContext, groups: seq<seq<Requirement>>, kinds: Kinds, i: nat) {
    i <= |groups| && forall j :: 0 <= j < i ==> GroupUnmet(ec, groups[j], kinds)
  }

  ghost predicate GroupUnmet(ec: EvalContext, g: seq<Requirement>, kinds: Kinds) {
    exists x :: StopsAt(ec, g, kinds, false, x)
  }

  ghost predicate SomeTriedHolds(ec: EvalContext, groups: seq<seq<Requirement>>, kinds: Kinds) {
    exists i: nat :: i < |groups| && Tried(ec, groups, kinds, i) && AllHold(ec, groups[i], kinds)
  }

  ghost predicate SomeTriedFails(ec: EvalContext, groups: seq<seq<Requirement>>, kinds: Kinds, code: Code) {
    exists i: nat :: i < |groups| && Tried(ec, groups, kinds, i) && FailsIn(ec, groups[i], kinds, false, code)
  }

  lemma TriedTail(ec: EvalContext, groups: seq<seq<Requirement>>, kinds: Kinds, i: nat)
    requires groups != [] && GroupUnmet(ec, groups[0], kinds)
    ensures Tried(ec, groups, kinds, i + 1) <==> Tried(ec, groups[1..], kinds, i)
  {
    var rest := groups[1..];
    if Tried(ec, groups, kinds, i + 1) {
      forall j | 0 <= j < i ensures GroupUnmet(ec, rest[j], kinds) { assert rest[j] == groups[j + 1]; }
    }
    if Tried(ec, rest, kinds, i) {
      forall j | 0 <= j < i + 1 ensures GroupUnmet(ec, groups[j], kinds) {
        if j > 0 { assert groups[j] == rest[j - 1]; }
      }
    }
  }

  /** What the first group settles is passed on to the rest only when it is unmet. */
  lemma HoldsInTail(ec: EvalContext, groups: seq<seq<Requirement>>, kinds: Kinds)
    requires groups != [] && GroupUnmet(ec, groups[0], kinds) && !AllHold(ec, groups[0], kinds)
    ensures SomeTriedHolds(ec, groups, kinds) <==> SomeTriedHolds(ec, groups[1..], kinds)
  {
    if SomeTriedHolds(ec, groups, kinds) {
      var i: nat :| i < |groups| && Tried(ec, groups, kinds, i) && AllHold(ec, groups[i], kinds);
      TriedTail(ec, groups, kinds, i - 1);
      assert groups[1..][i - 1] == groups[i];
    }
    if SomeTriedHolds(ec, groups[1..], kinds) {
      var i: nat :| i < |groups[1..]| && Tried(ec, groups[1..], kinds, i) && AllHold(ec, groups[1..][i], kinds);
      TriedTail(ec, groups, kinds, i);
      assert groups[i + 1] == groups[1..][i];
    }
  }

  lemma FailureInTail(ec: EvalContext, groups: seq<seq<Requirement>>, kinds: Kinds, code: Code)
    requires groups != [] && GroupUnmet(ec, groups[0], kinds) && !FailsIn(ec, groups[0], kinds, false, code)
    ensures SomeTriedFails(ec, groups, kinds, code) <==> SomeTriedFails(ec, groups[1..], kinds, code)
  {
    if SomeTriedFails(ec, groups, kinds, code) {
      var i: nat :| i < |groups| && Tried(ec, groups, kinds, i) && FailsIn(ec, groups[i], kinds, false, code);
      TriedTail(ec, groups, kinds, i - 1);
      assert groups[1..][i - 1] == groups[i];
    }
    if SomeTriedFails(ec, groups[1..], kinds, code) {
      var i: nat :| i < |groups[1..]| && Tried(ec, groups[1..], kinds, i) && FailsIn(ec, groups[1..][i], kinds, false, code);
      TriedTail(ec, groups, kinds, i);
      assert groups[i + 1] == groups[1..][i];
    }
  }

  lemma {:induction false} GroupsExactly(ec: EvalContext, groups: seq<seq<Requirement>>, kinds: Kinds)
    ensures AnyGroup(ec, groups, kinds) == Success(true) <==> SomeTriedHolds(ec, groups, kinds)
    ensures AnyGroup(ec, groups, kinds) == Success(false) <==> Tried(ec, groups, kinds, |groups|)
    ensures forall code :: AnyGroup(ec, groups, kinds) == Failure(code) <==> SomeTriedFails(ec, groups, kinds, code)
  {
    if groups != [] {
      ListExactly(ec, groups[0], kinds, false);
      if GroupUnmet(ec, groups[0], kinds) {
        var x :| StopsAt(ec, groups[0], kinds, false, x);
        assert FirstWith(ec, groups[0], kinds, false) == Success(Some(x));
        GroupsExactly(ec, groups[1..], kinds);
        TriedTail(ec, groups, kinds, |groups| - 1);
        HoldsInTail(ec, groups, kinds);
        forall code ensures SomeTriedFails(ec, groups, kinds, code) <==> SomeTriedFails(ec, groups[1..], kinds, code) {
          FailureInTail(ec, groups, kinds, code);
        }
      } else {
        SettledByFirst(ec, groups, kinds);
      }
    }
  }

  lemma SettledByFirst(ec: EvalContext, groups: seq<seq<Requirement>>, kinds: Kinds)
    requires groups != [] && !GroupUnmet(ec, groups[0], kinds)
    ensures forall i: nat :: Tried(ec, groups, kinds, i) ==> i == 0
    ensures SomeTriedHolds(ec, groups, kinds) <==> AllHold(ec, groups[0], kinds)
    ensures forall code :: SomeTriedFails(ec, groups, kinds, code) <==> FailsIn(ec, groups[0], kinds, false, code)
  {
    assert Tried(ec, groups, kinds, 0);
  }

  // ---- the decision ----

  ghost predicate WellFormed(p: Policy) {
    && p.preset == ""
    && (p.anonymous <==> p.require == [] && p.anyOf == [])
    && (forall g :: g in p.anyOf ==> g != [])
    && (forall r :: Mentions(p, r) ==> ValidMatch(r.mode))
  }

  /** The policy is well-formed, and there is a principal unless it is anonymous. */
  ghost predicate IsEvaluated(p: Policy, ec: EvalContext) {
    WellFormed(p) && (p.anonymous || ec.principal.Some?)
  }

  ghost predicate NoneHolds(ec: EvalContext, rs: seq<Requirement>, kinds: Kinds) {
    forall r :: r in rs ==> Unmet(ec, r, kinds)
  }

  lemma WellFormedExactly(p: Policy)
    ensures WellFormed(p) <==> Malformed(p) == None
  {
  }

  lemma ListsExactly(p: Policy, ec: EvalContext, kinds: Kinds)
    ensures FirstWith(ec, p.forbid, kinds, true) == Success(None) <==> NoneHolds(ec, p.forbid, kinds)
    ensures FirstWith(ec, p.require, kinds, false) == Success(None) <==> AllHold(ec, p.require, kinds)
  {
    ListExactly(ec, p.forbid, kinds, true);
    ListExactly(ec, p.require, kinds, false);
    assert forall r :: GoesOn(ec, r, kinds, true) == Unmet(ec, r, kinds) && GoesOn(ec, r, kinds, false) == Holds(ec, r, kinds);
  }

  /**
   A decision allows if and only if the policy is evaluated at all, no forbidden requirement holds or fails,
   every required one holds, and some alternative holds before one of them fails.
   */
  lemma AllowsExactly(p: Policy, ec: EvalContext, kinds: Kinds)
    ensures Allows(p, ec, kinds) <==>
              && IsEvaluated(p, ec)
              && NoneHolds(ec, p.forbid, kinds)
              && AllHold(ec, p.require, kinds)
              && (p.anyOf == [] || SomeTriedHolds(ec, p.anyOf, kinds))
  {
    WellFormedExactly(p);
    ListsExactly(p, ec, kinds);
    GroupsExactly(ec, p.anyOf, kinds);
  }

  /** A decision fails if and only if evaluation reaches a requirement that fails, and with its code. */
  lemma FailsExactly(p: Policy, ec: EvalContext, kinds: Kinds, code: Code)
    ensures Decide(p, ec, kinds) == Failure(code) <==>
              && IsEvaluated(p, ec)
              && (|| FailsIn(ec, p.forbid, kinds, true, code)
                  || (NoneHolds(ec, p.forbid, kinds) && FailsIn(ec, p.require, kinds, false, code))
                  || (NoneHolds(ec, p.forbid, kinds) && AllHold(ec, p.require, kinds) && SomeTriedFails(ec, p.anyOf, kinds, code)))
  {
    WellFormedExactly(p);
    ListsExactly(p, ec, kinds);
    ListExactly(ec, p.forbid, kinds, true);
    ListExactly(ec, p.require, kinds, false);
    GroupsExactly(ec, p.anyOf, kinds);
  }

  /** A decision forbids by a requirement if and only if evaluation ends at it: it is forbidden and holds. */
  lemma ForbidsExactly(p: Policy, ec: EvalContext, kinds: Kinds, r: Requirement)
    ensures Decide(p, ec, kinds) == Success(Decision(false, PermissionDenied, "forbidden", Some(r))) <==>
              IsEvaluated(p, ec) && StopsAt(ec, p.forbid, kinds, true, r)
  {
    WellFormedExactly(p);
    ListExactly(ec, p.forbid, kinds, true);
  }

  /** And it denies for want of a requirement if and only if evaluation ends there: it is required and does not hold. */
  lemma DeniesExactly(p: Policy, ec: EvalContext, kinds: Kinds, r: Requirement)
    ensures Decide(p, ec, kinds) == Success(Decision(false, PermissionDenied, "requirement not satisfied", Some(r))) <==>
              IsEvaluated(p, ec) && NoneHolds(ec, p.forbid, kinds) && StopsAt(ec, p.require, kinds, false, r)
  {
    WellFormedExactly(p);
    ListsExactly(p, ec, kinds);
    ListExactly(ec, p.require, kinds, false);
  }

  /** The decisions that name no requirement. */
  lemma OtherDenialsExactly(p: Policy, ec: EvalContext, kinds: Kinds)
    ensures (exists reason :: Decide(p, ec, kinds) == Success(Decision(false, Internal, reason, None))) <==> !WellFormed(p)
    ensures Decide(p, ec, kinds) == Success(Decision(false, Unauthenticated, "missing principal", None)) <==>
              WellFormed(p) && !p.anonymous && ec.principal.None?
    ensures Decide(p, ec, kinds) == Success(Decision(false, PermissionDenied, "no any_of alternative satisfied", None)) <==>
              && IsEvaluated(p, ec) && NoneHolds(ec, p.forbid, kinds) && AllHold(ec, p.require, kinds)
              && p.anyOf != [] && Tried(ec, p.anyOf, kinds, |p.anyOf|)
  {
    WellFormedExactly(p);
    ListsExactly(p, ec, kinds);
    GroupsExactly(ec, p.anyOf, kinds);
  }

  /** Fail-closed: an evaluator that fails, or is missing, for a required or forbidden requirement excludes Allow. */
  lemma FailureExcludesAllow(p: Policy, ec: EvalContext, kinds: Kinds, r: Requirement, code: Code)
    requires (r in p.require || r in p.forbid) && FailsWith(ec, r, kinds, code)
    ensures !Allows(p, ec, kinds)
  {
    AllowsExactly(p, ec, kinds);
  }

  /** A failing decision carries the code of some evaluator's failure, and only one code is possible. */
  lemma FailureHasCause(p: Policy, ec: EvalContext, kinds: Kinds) returns (r: Requirement)
    requires Decide(p, ec, kinds).Failure?
    ensures Mentions(p, r) && FailsWith(ec, r, kinds, Decide(p, ec, kinds).error)
  {
    r := ErrorsComeFromRequirements(p, ec, kinds);
    MatchExactly(ec, r, kinds);
  }
}
