/** The caller's identity and its claim matching (principal/principal.go). */
module Principal {
  import opened Wrappers

  datatype Principal = Principal(id: string, kind: string, claims: map<string, seq<string>>, attrs: map<string, string>)

  /** A missing claim reads as the empty list. */
  function ClaimValues(p: Principal, name: string): seq<string> {
    if name in p.claims then p.claims[name] else []
  }

  /** What matchClaim promises; a nil principal has no claims at all. */
  ghost predicate ClaimMatches(p: Option<Principal>, name: string, all: bool, values: seq<string>) {
    && p.Some?
    && var have := ClaimValues(p.value, name);
       if values == [] then have != []
       else if all then forall v :: v in values ==> v in have
       else exists v :: v in values && v in have
  }

  method MatchClaim(p: Option<Principal>, name: string, all: bool, values: seq<string>) returns (r: bool)
    ensures r == ClaimMatches(p, name, all, values)
  {
    if p.None? {
      return false;
    }
    var have := ClaimValues(p.value, name);
    if |values| == 0 {
      return |have| > 0;
    }
    var known: set<string> := {};
    for i := 0 to |have|
      invariant forall v :: v in known <==> v in have[..i]
    {
      known := known + {have[i]};
    }
    assert have[..|have|] == have;
    var matched := 0;
    for i := 0 to |values|
      invariant 0 <= matched <= i
      invariant matched == i <==> forall v :: v in values[..i] ==> v in have
      invariant !all ==> forall v :: v in values[..i] ==> v !in have
    {
      assert values[..i + 1] == values[..i] + [values[i]];
      if values[i] in known {
        matched := matched + 1;
        if !all {
          return true;
        }
      }
    }
    assert values[..|values|] == values;
    return all && matched == |values|;
  }

  predicate KindMatches(p: Option<Principal>, kinds: seq<string>) {
    p.Some? && p.value.kind in kinds
  }

  method HasKind(p: Option<Principal>, kinds: seq<string>) returns (r: bool)
    ensures r == KindMatches(p, kinds)
  {
    if p.None? {
      return false;
    }
    for i := 0 to |kinds|
      invariant p.value.kind !in kinds[..i]
    {
      if p.value.kind == kinds[i] {
        return true;
      }
    }
    return false;
  }

  /** Claim matching reads its values as a set: order and repetition do not matter. */
  lemma ClaimMatchesReadsSet(p: Option<Principal>, name: string, all: bool, v1: seq<string>, v2: seq<string>)
    requires forall v :: v in v1 <==> v in v2
    ensures ClaimMatches(p, name, all, v1) == ClaimMatches(p, name, all, v2)
  {
    if v1 == [] {
      if v2 != [] { assert v2[0] in v2; }
    } else {
      assert v1[0] in v1;
    }
  }
}
