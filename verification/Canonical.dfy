/**
 The canonical form of a policy (policy/manifest.go, policy/spec.go): how it is built,
 when it is unique, and that it decides as the original does.
 */
module Canonical {
  import opened Sorting
  import opened PolicySpec
  import opened RequirementKeys

  function ValueSet(values: seq<string>): set<string> {
    set v | v in values
  }

  /** A requirement with its values deduplicated and sorted. */
  ghost function Norm(r: Requirement): Requirement {
    r.(values := SortedSet(ValueSet(r.values)))
  }

  /** out is a canonical form of the list rs: normalised requirements in key order. */
  ghost predicate IsCanonicalList(rs: seq<Requirement>, out: seq<Requirement>) {
    IsSortOf(Map(Norm, rs), Key, out)
  }

  ghost predicate IsCanonicalGroups(groups: seq<seq<Requirement>>, out: seq<seq<Requirement>>) {
    exists inner :: AreCanonicalLists(groups, inner) && IsSortOf(inner, ListKey, out)
  }

  ghost predicate AreCanonicalLists(groups: seq<seq<Requirement>>, inner: seq<seq<Requirement>>) {
    |inner| == |groups| && forall i :: 0 <= i < |groups| ==> IsCanonicalList(groups[i], inner[i])
  }

  ghost predicate IsCanonicalPolicy(p: Policy, c: Policy) {
    && c.preset == "" && c.presetArgs == map[] && c.anonymous == p.anonymous
    && IsCanonicalList(p.require, c.require)
    && IsCanonicalList(p.forbid, c.forbid)
    && IsCanonicalGroups(p.anyOf, c.anyOf)
  }

  // ---- the loops of the source ----

  method CanonicalValues(values: seq<string>) returns (out: seq<string>)
    ensures out == SortedSet(ValueSet(values))
  {
    var seen: set<string> := {};
    var kept: seq<string> := [];
    for i := 0 to |values|
      invariant forall v :: v in seen <==> v in values[..i]
      invariant forall v :: v in kept <==> v in seen
      invariant forall a, b :: 0 <= a < b < |kept| ==> kept[a] != kept[b]
    {
      var v := values[i];
      assert values[..i + 1] == values[..i] + [v];
      if v in seen {
        continue;
      }
      seen := seen + {v};
      kept := kept + [v];
    }
    assert values[..|values|] == values;
    out := SortSlice(kept, (x: string) => x);
    SortedDistinctIsSortedSet(kept, out);
    assert ValueSet(kept) == ValueSet(values);
  }

  function Element<T>(x: (T, string)): T { x.0 }

  function KeyOf<T>(x: (T, string)): string { x.1 }

  /** sort.Slice by requirementKey. */
  method SortByKey(rs: seq<Requirement>) returns (out: seq<Requirement>)
    ensures IsSortOf(rs, Key, out)
  {
    var keyed: seq<(Requirement, string)> := [];
    for i := 0 to |rs|
      invariant |keyed| == i
      invariant forall k :: 0 <= k < i ==> keyed[k] == (rs[k], Key(rs[k]))
    {
      var key := RequirementKey(rs[i]);
      keyed := keyed + [(rs[i], key)];
    }
    var sorted := SortSlice(keyed, KeyOf<Requirement>);
    out := Map(Element<Requirement>, sorted);
    UnkeyedSort(rs, keyed, sorted, Key);
  }

  /** sort.Slice by requirementListKey. */
  method SortByListKey(groups: seq<seq<Requirement>>) returns (out: seq<seq<Requirement>>)
    ensures IsSortOf(groups, ListKey, out)
  {
    var keyed: seq<(seq<Requirement>, string)> := [];
    for i := 0 to |groups|
      invariant |keyed| == i
      invariant forall k :: 0 <= k < i ==> keyed[k] == (groups[k], ListKey(groups[k]))
    {
      var key := RequirementListKey(groups[i]);
      keyed := keyed + [(groups[i], key)];
    }
    var sorted := SortSlice(keyed, KeyOf<seq<Requirement>>);
    out := Map(Element<seq<Requirement>>, sorted);
    UnkeyedSort(groups, keyed, sorted, ListKey);
  }

  /** Sorting pairs by a stored key sorts their first components by that key. */
  lemma UnkeyedSort<T>(s: seq<T>, keyed: seq<(T, string)>, sorted: seq<(T, string)>, key: T -> string)
    requires |keyed| == |s| && forall k :: 0 <= k < |s| ==> keyed[k] == (s[k], key(s[k]))
    requires IsSortOf(keyed, KeyOf<T>, sorted)
    ensures IsSortOf(s, key, Map(Element<T>, sorted))
  {
    MapPermuted(Element<T>, keyed, sorted);
    assert Map(Element<T>, keyed) == s;
    forall x | x in sorted
      ensures x.1 == key(x.0)
    {
      assert x in multiset(keyed);
      var k :| 0 <= k < |keyed| && keyed[k] == x;
    }
    assert forall i :: 0 <= i < |sorted| ==> sorted[i] in sorted;
  }

  method CanonicalRequirements(rs: seq<Requirement>) returns (out: seq<Requirement>)
    ensures IsCanonicalList(rs, out)
  {
    var cleaned: seq<Requirement> := [];
    for i := 0 to |rs|
      invariant |cleaned| == i
      invariant forall k :: 0 <= k < i ==> cleaned[k] == Norm(rs[k])
    {
      var values := CanonicalValues(rs[i].values);
      cleaned := cleaned + [rs[i].(values := values)];
    }
    assert cleaned == Map(Norm, rs);
    out := SortByKey(cleaned);
  }

  method CanonicalGroups(groups: seq<seq<Requirement>>) returns (out: seq<seq<Requirement>>)
    ensures IsCanonicalGroups(groups, out)
  {
    var inner: seq<seq<Requirement>> := [];
    for i := 0 to |groups|
      invariant |inner| == i
      invariant forall k :: 0 <= k < i ==> IsCanonicalList(groups[k], inner[k])
    {
      var group := CanonicalRequirements(groups[i]);
      inner := inner + [group];
    }
    out := SortByListKey(inner);
    assert AreCanonicalLists(groups, inner);
  }

  method CanonicalPolicy(p: Policy) returns (c: Policy)
    ensures IsCanonicalPolicy(p, c)
  {
    var require := CanonicalRequirements(p.require);
    var forbid := CanonicalRequirements(p.forbid);
    var anyOf := CanonicalGroups(p.anyOf);
    c := Policy("", map[], p.anonymous, require, anyOf, forbid);
  }

  // ---- uniqueness ----

  ghost predicate CleanPolicy(p: Policy) {
    CleanList(p.require) && CleanList(p.forbid) && forall g :: g in p.anyOf ==> CleanList(g)
  }

  /** The requirements of a list up to order, and each up to order and repetition of values. */
  ghost function Bag(rs: seq<Requirement>): multiset<Requirement> {
    multiset(Map(Norm, rs))
  }

  /** Equal up to the order of require, forbid, groups, requirements in groups, and values, and repetition of values. */
  ghost predicate Equivalent(p: Policy, q: Policy) {
    && p.anonymous == q.anonymous
    && Bag(p.require) == Bag(q.require)
    && Bag(p.forbid) == Bag(q.forbid)
    && multiset(Map(Bag, p.anyOf)) == multiset(Map(Bag, q.anyOf))
  }

  lemma NormClean(r: Requirement)
    requires Clean(r)
    ensures Clean(Norm(r))
  {
  }

  lemma NormIdempotent(r: Requirement)
    ensures Norm(Norm(r)) == Norm(r)
  {
    SortedSetUnique(Norm(Norm(r)).values, Norm(r).values);
  }

  lemma CanonicalListClean(rs: seq<Requirement>, out: seq<Requirement>)
    requires CleanList(rs) && IsCanonicalList(rs, out)
    ensures CleanList(out)
  {
    forall x | x in out
      ensures Clean(x)
    {
      var r := CanonicalListOrigin(rs, out, x);
      NormClean(r);
    }
  }

  lemma CanonicalListOrigin(rs: seq<Requirement>, out: seq<Requirement>, x: Requirement) returns (r: Requirement)
    requires IsCanonicalList(rs, out) && x in out
    ensures r in rs && x == Norm(r)
  {
    assert x in multiset(out);
    assert x in multiset(Map(Norm, rs));
    var i :| 0 <= i < |rs| && Map(Norm, rs)[i] == x;
    r := rs[i];
  }

  /** A clean list has one canonical form, determined by its bag. */
  lemma CanonicalListUnique(rs: seq<Requirement>, out: seq<Requirement>, rs': seq<Requirement>, out': seq<Requirement>)
    requires IsCanonicalList(rs, out) && IsCanonicalList(rs', out')
    requires CleanList(rs) && CleanList(rs')
    ensures out == out' <==> Bag(rs) == Bag(rs')
  {
    if Bag(rs) == Bag(rs') {
      CanonicalListClean(rs, out);
      forall x, y | x in out && y in out && Key(x) == Key(y)
        ensures x == y
      {
        KeyInjective(x, y);
      }
      SortedUnique(out, out', Key);
    }
  }

  /** The canonical list of a bag, when the bag has one. */
  ghost function ListOfBag(b: multiset<Requirement>): seq<Requirement> {
    if exists l :: multiset(l) == b && SortedBy(l, Key)
    then var l :| multiset(l) == b && SortedBy(l, Key); l
    else []
  }

  lemma ListOfBagIs(rs: seq<Requirement>, out: seq<Requirement>)
    requires IsCanonicalList(rs, out) && CleanList(rs)
    ensures ListOfBag(Bag(rs)) == out
  {
    var l := ListOfBag(Bag(rs));
    assert multiset(l) == Bag(rs) && SortedBy(l, Key);
    CanonicalListUnique(rs, l, rs, out);
  }

  ghost function BagOf(l: seq<Requirement>): multiset<Requirement> {
    multiset(l)
  }

  lemma InnerLists(groups: seq<seq<Requirement>>, inner: seq<seq<Requirement>>)
    requires AreCanonicalLists(groups, inner)
    requires forall g :: g in groups ==> CleanList(g)
    ensures inner == Map(ListOfBag, Map(Bag, groups))
    ensures Map(Bag, groups) == Map(BagOf, inner)
  {
    forall i | 0 <= i < |groups|
      ensures inner[i] == ListOfBag(Bag(groups[i]))
      ensures Bag(groups[i]) == BagOf(inner[i])
    {
      assert groups[i] in groups && IsCanonicalList(groups[i], inner[i]);
      ListOfBagIs(groups[i], inner[i]);
    }
    var bags := Map(Bag, groups);
    assert forall i :: 0 <= i < |groups| ==> Map(ListOfBag, bags)[i] == inner[i];
    assert inner == Map(ListOfBag, bags);
  }

  lemma InnerClean(groups: seq<seq<Requirement>>, inner: seq<seq<Requirement>>, out: seq<seq<Requirement>>)
    requires AreCanonicalLists(groups, inner) && multiset(inner) == multiset(out)
    requires forall g :: g in groups ==> CleanList(g)
    ensures forall l :: l in out ==> CleanList(l)
  {
    forall l | l in out
      ensures CleanList(l)
    {
      assert l in multiset(inner);
      var i :| 0 <= i < |inner| && inner[i] == l;
      assert groups[i] in groups && IsCanonicalList(groups[i], inner[i]);
      CanonicalListClean(groups[i], l);
    }
  }

  lemma CanonicalGroupsUnique(g1: seq<seq<Requirement>>, o1: seq<seq<Requirement>>,
                              g2: seq<seq<Requirement>>, o2: seq<seq<Requirement>>)
    requires IsCanonicalGroups(g1, o1) && IsCanonicalGroups(g2, o2)
    requires (forall g :: g in g1 ==> CleanList(g)) && (forall g :: g in g2 ==> CleanList(g))
    ensures o1 == o2 <==> multiset(Map(Bag, g1)) == multiset(Map(Bag, g2))
  {
    var i1 :| AreCanonicalLists(g1, i1) && IsSortOf(i1, ListKey, o1);
    var i2 :| AreCanonicalLists(g2, i2) && IsSortOf(i2, ListKey, o2);
    InnerLists(g1, i1);
    InnerLists(g2, i2);
    if multiset(Map(Bag, g1)) == multiset(Map(Bag, g2)) {
      MapPermuted(ListOfBag, Map(Bag, g1), Map(Bag, g2));
      InnerClean(g1, i1, o1);
      forall x, y | x in o1 && y in o1 && ListKey(x) == ListKey(y)
        ensures x == y
      {
        ListKeyInjective(x, y);
      }
      SortedUnique(o1, o2, ListKey);
    }
    if o1 == o2 {
      MapPermuted(BagOf, i1, i2);
    }
  }

  /**
   Two clean policies have the same canonical form exactly when they differ only in the order of
   requirements, groups and values and in the repetition of values (and in preset metadata).
   */
  lemma CanonicalFormIsUnique(p: Policy, c: Policy, q: Policy, d: Policy)
    requires CleanPolicy(p) && CleanPolicy(q)
    requires IsCanonicalPolicy(p, c) && IsCanonicalPolicy(q, d)
    ensures c == d <==> Equivalent(p, q)
  {
    CanonicalListUnique(p.require, c.require, q.require, d.require);
    CanonicalListUnique(p.forbid, c.forbid, q.forbid, d.forbid);
    CanonicalGroupsUnique(p.anyOf, c.anyOf, q.anyOf, d.anyOf);
  }

  lemma CanonicalListEquivalent(rs: seq<Requirement>, out: seq<Requirement>)
    requires IsCanonicalList(rs, out)
    ensures Bag(out) == Bag(rs)
  {
    forall i | 0 <= i < |out|
      ensures Norm(out[i]) == out[i]
    {
      var r := CanonicalListOrigin(rs, out, out[i]);
      NormIdempotent(r);
    }
    assert Map(Norm, out) == out;
  }

  // ---- members ----

  /** Members of a canonical list are the normalised members of the list. */
  lemma CanonicalListMembers(rs: seq<Requirement>, out: seq<Requirement>)
    requires IsCanonicalList(rs, out)
    ensures forall r :: r in rs ==> Norm(r) in out
    ensures forall x :: x in out ==> exists r :: r in rs && x == Norm(r)
    ensures |out| == |rs|
  {
    var norms := Map(Norm, rs);
    assert |multiset(out)| == |out| && |multiset(norms)| == |norms|;
    forall r | r in rs
      ensures Norm(r) in out
    {
      var i :| 0 <= i < |rs| && rs[i] == r;
      assert norms[i] in multiset(norms);
      assert Norm(r) in multiset(out);
    }
    forall x | x in out
      ensures exists r :: r in rs && x == Norm(r)
    {
      var r := CanonicalListOrigin(rs, out, x);
    }
  }

  /** Members of canonical groups are canonical lists of the groups. */
  lemma CanonicalGroupsMembers(groups: seq<seq<Requirement>>, out: seq<seq<Requirement>>)
    requires IsCanonicalGroups(groups, out)
    ensures forall g :: g in groups ==> exists l :: l in out && IsCanonicalList(g, l)
    ensures forall l :: l in out ==> exists g :: g in groups && IsCanonicalList(g, l)
    ensures |out| == |groups|
  {
    var inner :| AreCanonicalLists(groups, inner) && IsSortOf(inner, ListKey, out);
    assert |multiset(inner)| == |inner| && |multiset(out)| == |out|;
    forall g | g in groups
      ensures exists l :: l in out && IsCanonicalList(g, l)
    {
      var i :| 0 <= i < |groups| && groups[i] == g;
      assert inner[i] in multiset(out) && IsCanonicalList(groups[i], inner[i]);
    }
    forall l | l in out
      ensures exists g :: g in groups && IsCanonicalList(g, l)
    {
      assert l in multiset(inner);
      var i :| 0 <= i < |inner| && inner[i] == l;
      assert IsCanonicalList(groups[i], inner[i]);
    }
  }
}
