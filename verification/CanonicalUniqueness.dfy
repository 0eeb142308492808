/**
 Exactly when a policy has one canonical form (policy/manifest.go, policy/spec.go): sort.Slice is
 not stable, so elements that share a key without being equal may come out in either order.
 */
module CanonicalUniqueness {
  import opened Sorting
  import opened PolicySpec
  import opened RequirementKeys
  import opened Canonical

  // ---- lists ----

  ghost predicate OneList(rs: seq<Requirement>) {
    forall a, b :: IsCanonicalList(rs, a) && IsCanonicalList(rs, b) ==> a == b
  }

  /** Requirements that share a key normalise to the same. */
  ghost predicate KeysApart(rs: seq<Requirement>) {
    forall x, y :: x in rs && y in rs && Key(Norm(x)) == Key(Norm(y)) ==> Norm(x) == Norm(y)
  }

  lemma ApartIsIdentified(rs: seq<Requirement>)
    ensures KeysApart(rs) <==> KeysIdentify(Map(Norm, rs), Key)
  {
    var norms := Map(Norm, rs);
    forall r | r in rs
      ensures Norm(r) in norms
    {
      var i :| 0 <= i < |rs| && rs[i] == r;
      assert norms[i] == Norm(r);
    }
    forall x | x in norms
      ensures exists r :: r in rs && x == Norm(r)
    {
      var i :| 0 <= i < |norms| && norms[i] == x;
      assert rs[i] in rs;
    }
  }

  /** A list has one canonical form exactly when no two of its requirements collide. */
  lemma OneListExactly(rs: seq<Requirement>)
    ensures OneList(rs) <==> KeysApart(rs)
  {
    ApartIsIdentified(rs);
    OneSortExactly(Map(Norm, rs), Key);
    OneListIsOneSort(rs);
  }

  lemma OneListIsOneSort(rs: seq<Requirement>)
    ensures OneList(rs) <==> OneSort(Map(Norm, rs), Key)
  {
    if OneList(rs) {
      forall a, b | IsSortOf(Map(Norm, rs), Key, a) && IsSortOf(Map(Norm, rs), Key, b) ensures a == b {
        assert IsCanonicalList(rs, a) && IsCanonicalList(rs, b);
      }
    }
    if OneSort(Map(Norm, rs), Key) {
      forall a, b | IsCanonicalList(rs, a) && IsCanonicalList(rs, b) ensures a == b {
        assert IsSortOf(Map(Norm, rs), Key, a) && IsSortOf(Map(Norm, rs), Key, b);
      }
    }
  }

  lemma ListFormExists(rs: seq<Requirement>) returns (l: seq<Requirement>)
    ensures IsCanonicalList(rs, l)
  {
    l := SortExists(Map(Norm, rs), Key);
  }

  /** A list key depends on the keys alone. */
  lemma {:induction false} ListKeyOfKeys(a: seq<Requirement>, b: seq<Requirement>)
    requires |a| == |b| && forall k :: 0 <= k < |a| ==> Key(a[k]) == Key(b[k])
    ensures ListKey(a) == ListKey(b)
  {
    if a != [] {
      ListKeyOfKeys(a[..|a| - 1], b[..|b| - 1]);
    }
  }

  /** Colliding requirements leave two canonical forms that share a list key. */
  lemma TwoForms(rs: seq<Requirement>) returns (a: seq<Requirement>, b: seq<Requirement>)
    requires !KeysApart(rs)
    ensures IsCanonicalList(rs, a) && IsCanonicalList(rs, b) && a != b && ListKey(a) == ListKey(b)
  {
    ApartIsIdentified(rs);
    a, b := TwoSorts(Map(Norm, rs), Key);
    ListKeyOfKeys(a, b);
  }

  // ---- groups ----

  ghost predicate OneGroups(groups: seq<seq<Requirement>>) {
    forall a, b :: IsCanonicalGroups(groups, a) && IsCanonicalGroups(groups, b) ==> a == b
  }

  /** No group has colliding requirements, and no two groups have colliding lists. */
  ghost predicate GroupsApart(groups: seq<seq<Requirement>>) {
    && (forall g :: g in groups ==> KeysApart(g))
    && (forall g, h, l, m :: g in groups && h in groups && Collide(g, h, l, m) ==> l == m)
  }

  ghost predicate Collide(g: seq<Requirement>, h: seq<Requirement>, l: seq<Requirement>, m: seq<Requirement>) {
    IsCanonicalList(g, l) && IsCanonicalList(h, m) && ListKey(l) == ListKey(m)
  }

  lemma {:induction false} InnerExists(groups: seq<seq<Requirement>>) returns (inner: seq<seq<Requirement>>)
    ensures AreCanonicalLists(groups, inner)
  {
    if groups == [] {
      inner := [];
    } else {
      var n := |groups| - 1;
      var front := InnerExists(groups[..n]);
      var last := ListFormExists(groups[n]);
      inner := front + [last];
    }
  }

  lemma InnerIsUnique(groups: seq<seq<Requirement>>, a: seq<seq<Requirement>>, b: seq<seq<Requirement>>)
    requires AreCanonicalLists(groups, a) && AreCanonicalLists(groups, b)
    requires forall g :: g in groups ==> KeysApart(g)
    ensures a == b
  {
    forall i | 0 <= i < |groups|
      ensures a[i] == b[i]
    {
      assert groups[i] in groups;
      OneListExactly(groups[i]);
    }
  }

  lemma ApartGroupsHaveOneForm(groups: seq<seq<Requirement>>, a: seq<seq<Requirement>>, b: seq<seq<Requirement>>)
    requires GroupsApart(groups) && IsCanonicalGroups(groups, a) && IsCanonicalGroups(groups, b)
    ensures a == b
  {
    var i1 :| AreCanonicalLists(groups, i1) && IsSortOf(i1, ListKey, a);
    var i2 :| AreCanonicalLists(groups, i2) && IsSortOf(i2, ListKey, b);
    InnerIsUnique(groups, i1, i2);
    forall x, y | x in i1 && y in i1 && ListKey(x) == ListKey(y)
      ensures x == y
    {
      var k :| 0 <= k < |i1| && i1[k] == x;
      var l :| 0 <= l < |i1| && i1[l] == y;
      assert groups[k] in groups && groups[l] in groups;
      assert Collide(groups[k], groups[l], x, y);
    }
    OneSortExactly(i1, ListKey);
  }

  /** A collision inside one group shows in the canonical groups. */
  lemma InnerCollision(groups: seq<seq<Requirement>>, g: seq<Requirement>)
    requires g in groups && !KeysApart(g)
    ensures !OneGroups(groups)
  {
    var l, m := TwoForms(g);
    var k :| 0 <= k < |groups| && groups[k] == g;
    var some := InnerExists(groups);
    PutForm(groups, some, k, l);
    PutForm(groups, some[k := l], k, m);
    var a, b := TwoOuterSorts(some[k := l], k, m);
    SortedIsCanonical(groups, some[k := l], a);
    SortedIsCanonical(groups, some[k := l][k := m], b);
  }

  lemma PutForm(groups: seq<seq<Requirement>>, inner: seq<seq<Requirement>>, k: nat, l: seq<Requirement>)
    requires AreCanonicalLists(groups, inner) && k < |groups| && IsCanonicalList(groups[k], l)
    ensures AreCanonicalLists(groups, inner[k := l])
  {
  }

  lemma SortedIsCanonical(groups: seq<seq<Requirement>>, inner: seq<seq<Requirement>>, out: seq<seq<Requirement>>)
    requires AreCanonicalLists(groups, inner) && IsSortOf(inner, ListKey, out)
    ensures IsCanonicalGroups(groups, out)
  {
  }

  lemma TwoOuterSorts(inner: seq<seq<Requirement>>, k: nat, m: seq<Requirement>)
    returns (a: seq<seq<Requirement>>, b: seq<seq<Requirement>>)
    requires k < |inner| && inner[k] != m && ListKey(inner[k]) == ListKey(m)
    ensures IsSortOf(inner, ListKey, a) && IsSortOf(inner[k := m], ListKey, b) && a != b
  {
    a := SortExists(inner, ListKey);
    assert inner[k] in multiset(a);
    var p :| 0 <= p < |a| && a[p] == inner[k];
    b := a[p := m];
    ReplaceKeepsSort(inner, a, k, p, m);
    assert b[p] != a[p];
  }

  lemma ReplaceKeepsSort(inner: seq<seq<Requirement>>, a: seq<seq<Requirement>>, k: nat, p: nat, m: seq<Requirement>)
    requires IsSortOf(inner, ListKey, a) && k < |inner| && p < |a| && a[p] == inner[k] && ListKey(m) == ListKey(a[p])
    ensures IsSortOf(inner[k := m], ListKey, a[p := m])
  {
    var b := a[p := m];
    assert forall i :: 0 <= i < |a| ==> ListKey(b[i]) == ListKey(a[i]);
  }

  /** A collision between two groups shows in the canonical groups. */
  lemma OuterCollision(groups: seq<seq<Requirement>>, g: seq<Requirement>, h: seq<Requirement>,
                       l: seq<Requirement>, m: seq<Requirement>)
    requires forall x :: x in groups ==> KeysApart(x)
    requires g in groups && h in groups && Collide(g, h, l, m) && l != m
    ensures !OneGroups(groups)
  {
    var inner := InnerExists(groups);
    var i :| 0 <= i < |groups| && groups[i] == g;
    var j :| 0 <= j < |groups| && groups[j] == h;
    OneListExactly(g);
    OneListExactly(h);
    assert inner[i] == l && inner[j] == m;
    assert l in inner && m in inner;
    OneSortExactly(inner, ListKey);
    var a, b :| IsSortOf(inner, ListKey, a) && IsSortOf(inner, ListKey, b) && a != b;
    assert IsCanonicalGroups(groups, a) && IsCanonicalGroups(groups, b);
  }

  /** Groups have one canonical form exactly when nothing collides, inside them or between them. */
  lemma OneGroupsExactly(groups: seq<seq<Requirement>>)
    ensures OneGroups(groups) <==> GroupsApart(groups)
  {
    if GroupsApart(groups) {
      forall a, b | IsCanonicalGroups(groups, a) && IsCanonicalGroups(groups, b)
        ensures a == b
      {
        ApartGroupsHaveOneForm(groups, a, b);
      }
    } else if g :| g in groups && !KeysApart(g) {
      InnerCollision(groups, g);
    } else {
      var g, h, l, m :| g in groups && h in groups && Collide(g, h, l, m) && l != m;
      OuterCollision(groups, g, h, l, m);
    }
  }

  // ---- policies ----

  ghost predicate OneForm(p: Policy) {
    forall c, d :: IsCanonicalPolicy(p, c) && IsCanonicalPolicy(p, d) ==> c == d
  }

  ghost predicate PolicyApart(p: Policy) {
    KeysApart(p.require) && KeysApart(p.forbid) && GroupsApart(p.anyOf)
  }

  lemma GroupsFormExists(groups: seq<seq<Requirement>>) returns (out: seq<seq<Requirement>>)
    ensures IsCanonicalGroups(groups, out)
  {
    var inner := InnerExists(groups);
    out := SortExists(inner, ListKey);
  }

  lemma FormExists(p: Policy) returns (c: Policy)
    ensures IsCanonicalPolicy(p, c)
  {
    var require := ListFormExists(p.require);
    var forbid := ListFormExists(p.forbid);
    var groups := GroupsFormExists(p.anyOf);
    c := Policy("", map[], p.anonymous, require, groups, forbid);
  }

  /** A policy has one canonical form if and only if no keys in it collide. */
  lemma OneFormExactly(p: Policy)
    ensures OneForm(p) <==> PolicyApart(p)
  {
    OneListExactly(p.require);
    OneListExactly(p.forbid);
    OneGroupsExactly(p.anyOf);
    if OneForm(p) {
      OneFormHasOneRequire(p);
      OneFormHasOneForbid(p);
      OneFormHasOneAnyOf(p);
    }
  }

  lemma OneFormHasOneRequire(p: Policy)
    requires OneForm(p)
    ensures OneList(p.require)
  {
    var c := FormExists(p);
    forall a, b | IsCanonicalList(p.require, a) && IsCanonicalList(p.require, b)
      ensures a == b
    {
      assert IsCanonicalPolicy(p, c.(require := a)) && IsCanonicalPolicy(p, c.(require := b));
      assert c.(require := a) == c.(require := b);
    }
  }

  lemma OneFormHasOneForbid(p: Policy)
    requires OneForm(p)
    ensures OneList(p.forbid)
  {
    var c := FormExists(p);
    forall a, b | IsCanonicalList(p.forbid, a) && IsCanonicalList(p.forbid, b)
      ensures a == b
    {
      assert IsCanonicalPolicy(p, c.(forbid := a)) && IsCanonicalPolicy(p, c.(forbid := b));
      assert c.(forbid := a) == c.(forbid := b);
    }
  }

  lemma OneFormHasOneAnyOf(p: Policy)
    requires OneForm(p)
    ensures OneGroups(p.anyOf)
  {
    var c := FormExists(p);
    forall a, b | IsCanonicalGroups(p.anyOf, a) && IsCanonicalGroups(p.anyOf, b)
      ensures a == b
    {
      assert IsCanonicalPolicy(p, c.(anyOf := a)) && IsCanonicalPolicy(p, c.(anyOf := b));
      assert c.(anyOf := a) == c.(anyOf := b);
    }
  }

  /** Clean strings keep all keys apart. */
  lemma CleanIsApart(p: Policy)
    requires CleanPolicy(p)
    ensures PolicyApart(p)
  {
    forall c, d | IsCanonicalPolicy(p, c) && IsCanonicalPolicy(p, d)
      ensures c == d
    {
      CanonicalFormIsUnique(p, c, p, d);
    }
    OneFormExactly(p);
  }

  // ---- idempotence ----

  /** A canonical list has the canonical forms of the list it comes from, itself among them. */
  lemma ListFormsStay(rs: seq<Requirement>, out: seq<Requirement>)
    requires IsCanonicalList(rs, out)
    ensures forall x :: IsCanonicalList(out, x) <==> IsCanonicalList(rs, x)
    ensures IsCanonicalList(out, out)
    ensures KeysApart(out) <==> KeysApart(rs)
  {
    CanonicalListEquivalent(rs, out);
    OneListExactly(rs);
    OneListExactly(out);
  }

  lemma FormOf(groups: seq<seq<Requirement>>, out: seq<seq<Requirement>>, g: seq<Requirement>) returns (l: seq<Requirement>)
    requires IsCanonicalGroups(groups, out) && g in groups
    ensures l in out && IsCanonicalList(g, l)
  {
    CanonicalGroupsMembers(groups, out);
    l :| l in out && IsCanonicalList(g, l);
  }

  lemma OriginOf(groups: seq<seq<Requirement>>, out: seq<seq<Requirement>>, l: seq<Requirement>) returns (g: seq<Requirement>)
    requires IsCanonicalGroups(groups, out) && l in out
    ensures g in groups && IsCanonicalList(g, l)
  {
    CanonicalGroupsMembers(groups, out);
    g :| g in groups && IsCanonicalList(g, l);
  }

  lemma ApartGroupsStayApart(groups: seq<seq<Requirement>>, out: seq<seq<Requirement>>)
    requires IsCanonicalGroups(groups, out) && GroupsApart(groups)
    ensures GroupsApart(out)
  {
    forall l | l in out
      ensures KeysApart(l)
    {
      var g := OriginOf(groups, out, l);
      ListFormsStay(g, l);
    }
    forall k, l, x, y | k in out && l in out && Collide(k, l, x, y)
      ensures x == y
    {
      var g := OriginOf(groups, out, k);
      var h := OriginOf(groups, out, l);
      ListFormsStay(g, k);
      ListFormsStay(h, l);
      assert Collide(g, h, x, y);
    }
  }

  lemma ApartFormsComeFromApart(groups: seq<seq<Requirement>>, out: seq<seq<Requirement>>)
    requires IsCanonicalGroups(groups, out) && GroupsApart(out)
    ensures GroupsApart(groups)
  {
    forall g | g in groups
      ensures KeysApart(g)
    {
      var l := FormOf(groups, out, g);
      ListFormsStay(g, l);
    }
    forall g, h, x, y | g in groups && h in groups && Collide(g, h, x, y)
      ensures x == y
    {
      var k := FormOf(groups, out, g);
      var l := FormOf(groups, out, h);
      ListFormsStay(g, k);
      ListFormsStay(h, l);
      assert Collide(k, l, x, y);
    }
  }

  lemma GroupsFormItself(groups: seq<seq<Requirement>>, out: seq<seq<Requirement>>)
    requires IsCanonicalGroups(groups, out)
    ensures IsCanonicalGroups(out, out)
  {
    forall i | 0 <= i < |out|
      ensures IsCanonicalList(out[i], out[i])
    {
      var g := OriginOf(groups, out, out[i]);
      ListFormsStay(g, out[i]);
    }
    assert AreCanonicalLists(out, out) && IsSortOf(out, ListKey, out);
  }

  /**
   Canonicalising a canonical form always allows leaving it as it is; it must do so if and only if no
   keys of the original policy collide.
   */
  lemma IdempotentExactly(p: Policy, c: Policy)
    requires IsCanonicalPolicy(p, c)
    ensures IsCanonicalPolicy(c, c)
    ensures (forall d :: IsCanonicalPolicy(c, d) ==> d == c) <==> PolicyApart(p)
  {
    FormOfItself(p, c);
    ApartAgrees(p, c);
    OneFormExactly(c);
    OnlyItself(c);
  }

  lemma FormOfItself(p: Policy, c: Policy)
    requires IsCanonicalPolicy(p, c)
    ensures IsCanonicalPolicy(c, c)
  {
    ListFormsStay(p.require, c.require);
    ListFormsStay(p.forbid, c.forbid);
    GroupsFormItself(p.anyOf, c.anyOf);
  }

  lemma OnlyItself(c: Policy)
    requires IsCanonicalPolicy(c, c)
    ensures (forall d :: IsCanonicalPolicy(c, d) ==> d == c) <==> OneForm(c)
  {
    if OneForm(c) {
      forall d | IsCanonicalPolicy(c, d) ensures d == c { }
    }
    if forall d :: IsCanonicalPolicy(c, d) ==> d == c {
      forall a, b | IsCanonicalPolicy(c, a) && IsCanonicalPolicy(c, b) ensures a == b { }
    }
  }

  lemma ApartAgrees(p: Policy, c: Policy)
    requires IsCanonicalPolicy(p, c)
    ensures PolicyApart(c) <==> PolicyApart(p)
  {
    ListFormsStay(p.require, c.require);
    ListFormsStay(p.forbid, c.forbid);
    if GroupsApart(p.anyOf) { ApartGroupsStayApart(p.anyOf, c.anyOf); }
    if GroupsApart(c.anyOf) { ApartFormsComeFromApart(p.anyOf, c.anyOf); }
  }
}
