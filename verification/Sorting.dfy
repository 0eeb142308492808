/**
 sort.Slice and sort.Strings. The source only relies on what the Go documentation
 promises: the result is a permutation in key order. sort.Slice is not stable, so
 nothing is said about the order of elements whose keys are equal.
 */
module Sorting {
  import opened Text

  ghost predicate SortedBy<T>(s: seq<T>, key: T -> string) {
    forall i, j :: 0 <= i < j < |s| ==> !Less(key(s[j]), key(s[i]))
  }

  ghost predicate IsSortOf<T>(s: seq<T>, key: T -> string, r: seq<T>) {
    multiset(r) == multiset(s) && SortedBy(r, key)
  }

  /** Keys that identify elements leave one sorted order only. */
  lemma {:induction false} SortedUnique<T>(s: seq<T>, t: seq<T>, key: T -> string)
    requires multiset(s) == multiset(t)
    requires SortedBy(s, key) && SortedBy(t, key)
    requires forall x, y :: x in s && y in s && key(x) == key(y) ==> x == y
    ensures s == t
  {
    if s == [] || t == [] {
      assert |multiset(s)| == |s| && |multiset(t)| == |t|;
    } else {
      SameHead(s, t, key);
      TailsAgree(s, t);
      SortedUnique(s[1..], t[1..], key);
      assert s == [s[0]] + s[1..] && t == [t[0]] + t[1..];
    }
  }

  lemma SameHead<T>(s: seq<T>, t: seq<T>, key: T -> string)
    requires multiset(s) == multiset(t) && s != [] && t != []
    requires SortedBy(s, key) && SortedBy(t, key)
    requires forall x, y :: x in s && y in s && key(x) == key(y) ==> x == y
    ensures s[0] == t[0]
  {
    assert s[0] in multiset(t) && t[0] in multiset(s);
    LessTotal(key(s[0]), key(t[0]));
  }

  lemma TailsAgree<T>(s: seq<T>, t: seq<T>)
    requires multiset(s) == multiset(t) && s != [] && t != [] && s[0] == t[0]
    ensures multiset(s[1..]) == multiset(t[1..]) && forall x :: x in s[1..] ==> x in s
  {
    assert s == [s[0]] + s[1..] && t == [t[0]] + t[1..];
    assert multiset(s[1..]) == multiset(s) - multiset{s[0]} == multiset(t[1..]);
  }

  lemma SameMembers<T>(s: seq<T>, t: seq<T>)
    requires multiset(s) == multiset(t)
    ensures forall x :: x in s <==> x in t
  {
    assert forall x :: x in s <==> x in multiset(s);
    assert forall x :: x in t <==> x in multiset(t);
  }

  /** Any algorithm does; this one inserts into a sorted prefix. */
  method SortSlice<T>(s: seq<T>, key: T -> string) returns (r: seq<T>)
    ensures IsSortOf(s, key, r)
  {
    r := [];
    for n := 0 to |s|
      invariant multiset(r) == multiset(s[..n])
      invariant SortedBy(r, key)
    {
      var x := s[n];
      var i := |r|;
      while i > 0 && Less(key(x), key(r[i - 1]))
        invariant 0 <= i <= |r|
        invariant forall j :: i <= j < |r| ==> !Less(key(r[j]), key(x))
      {
        LessAsymmetric(key(x), key(r[i - 1]));
        i := i - 1;
      }
      InsertKeepsSorted(r, x, i, key);
      InsertKeepsMembers(r, x, i);
      TakeNext(s, n);
      r := r[..i] + [x] + r[i..];
    }
    assert s[..|s|] == s;
  }

  lemma InsertKeepsMembers<T>(r: seq<T>, x: T, i: nat)
    requires i <= |r|
    ensures multiset(r[..i] + [x] + r[i..]) == multiset(r) + multiset{x}
  {
    assert r == r[..i] + r[i..];
  }

  lemma InsertKeepsSorted<T>(r: seq<T>, x: T, i: nat, key: T -> string)
    requires i <= |r| && SortedBy(r, key)
    requires i > 0 ==> !Less(key(x), key(r[i - 1]))
    requires forall j :: i <= j < |r| ==> !Less(key(r[j]), key(x))
    ensures SortedBy(r[..i] + [x] + r[i..], key)
  {
    forall j | 0 <= j < i
      ensures !Less(key(x), key(r[j]))
    {
      if Less(key(x), key(r[j])) {
        var last := key(r[i - 1]);
        LessTotal(last, key(x));
        if Less(last, key(x)) { LessTransitive(last, key(x), key(r[j])); }
      }
    }
  }

  /** Every list can be sorted. */
  lemma {:induction false} SortExists<T>(s: seq<T>, key: T -> string) returns (r: seq<T>)
    ensures IsSortOf(s, key, r)
  {
    if s == [] {
      r := [];
    } else {
      var n := |s| - 1;
      var t := SortExists(s[..n], key);
      var i := InsertionPoint(t, s[n], key);
      InsertKeepsSorted(t, s[n], i, key);
      r := t[..i] + [s[n]] + t[i..];
      assert t == t[..i] + t[i..] && s == s[..n] + [s[n]];
    }
  }

  lemma {:induction false} InsertionPoint<T>(r: seq<T>, x: T, key: T -> string) returns (i: nat)
    requires SortedBy(r, key)
    ensures i <= |r| && (i > 0 ==> !Less(key(x), key(r[i - 1])))
    ensures forall j :: i <= j < |r| ==> !Less(key(r[j]), key(x))
  {
    if r == [] || !Less(key(x), key(r[|r| - 1])) {
      i := |r|;
    } else {
      var n := |r| - 1;
      LessAsymmetric(key(x), key(r[n]));
      i := InsertionPoint(r[..n], x, key);
    }
  }

  ghost predicate Distinct(names: seq<string>) {
    forall i, j :: 0 <= i < j < |names| ==> names[i] != names[j]
  }

  // ---- when sorting has one result ----

  ghost predicate OneSort<T(!new)>(s: seq<T>, key: T -> string) {
    forall a, b :: IsSortOf(s, key, a) && IsSortOf(s, key, b) ==> a == b
  }

  ghost predicate KeysIdentify<T(!new)>(s: seq<T>, key: T -> string) {
    forall x, y :: x in s && y in s && key(x) == key(y) ==> x == y
  }

  /** Two elements with equal keys may trade places. */
  function Swapped<T>(a: seq<T>, i: nat, j: nat): (b: seq<T>)
    requires i < |a| && j < |a|
    ensures |b| == |a|
  {
    a[i := a[j]][j := a[i]]
  }

  lemma SwapKeepsSort<T>(s: seq<T>, key: T -> string, a: seq<T>, i: nat, j: nat)
    requires IsSortOf(s, key, a) && i < |a| && j < |a| && key(a[i]) == key(a[j])
    ensures IsSortOf(s, key, Swapped(a, i, j))
  {
    var b := Swapped(a, i, j);
    assert forall k :: 0 <= k < |a| ==> key(b[k]) == key(a[k]);
  }

  /** A list sorts in one way exactly when its keys identify its elements. */
  lemma OneSortExactly<T(!new)>(s: seq<T>, key: T -> string)
    ensures OneSort(s, key) <==> KeysIdentify(s, key)
  {
    if KeysIdentify(s, key) {
      forall a, b | IsSortOf(s, key, a) && IsSortOf(s, key, b)
        ensures a == b
      {
        assert forall x :: x in a ==> x in multiset(s);
        SortedUnique(a, b, key);
      }
    } else {
      var a, b := TwoSorts(s, key);
    }
  }

  /** Otherwise there are two results that differ, though not in their keys. */
  lemma TwoSorts<T(!new)>(s: seq<T>, key: T -> string) returns (a: seq<T>, b: seq<T>)
    requires !KeysIdentify(s, key)
    ensures IsSortOf(s, key, a) && IsSortOf(s, key, b) && a != b
    ensures |a| == |b| && forall k :: 0 <= k < |a| ==> key(a[k]) == key(b[k])
  {
    var x, y :| x in s && y in s && key(x) == key(y) && x != y;
    a := SortExists(s, key);
    assert x in multiset(a) && y in multiset(a);
    var i :| 0 <= i < |a| && a[i] == x;
    var j :| 0 <= j < |a| && a[j] == y;
    SwapKeepsSort(s, key, a, i, j);
    b := Swapped(a, i, j);
    assert b[i] != a[i];
  }

  // ---- the sort of strings ----

  function Same(x: string): string { x }

  /** sort.Strings has one result. */
  ghost function SortedStrings(s: seq<string>): (r: seq<string>)
    ensures IsSortOf(s, Same, r)
  {
    assert exists r :: IsSortOf(s, Same, r) by { var r := SortExists(s, Same); }
    var r :| IsSortOf(s, Same, r);
    r
  }

  lemma SortedStringsIs(s: seq<string>, r: seq<string>)
    requires IsSortOf(s, Same, r)
    ensures r == SortedStrings(s)
  {
    SortedUnique(r, SortedStrings(s), Same);
  }

  // ---- the sorted list of a set ----

  ghost predicate StrictlySorted(s: seq<string>) {
    forall i, j :: 0 <= i < j < |s| ==> Less(s[i], s[j])
  }

  ghost predicate IsSortedSet(s: seq<string>, xs: set<string>) {
    StrictlySorted(s) && forall x :: x in s <==> x in xs
  }

  /** A set of strings has exactly one strictly sorted listing. */
  ghost function SortedSet(xs: set<string>): (s: seq<string>)
    ensures IsSortedSet(s, xs)
  {
    if xs == {} then []
    else
      var x :| x in xs;
      InsertSorted(SortedSet(xs - {x}), x)
  }

  ghost function InsertSorted(s: seq<string>, x: string): (r: seq<string>)
    requires StrictlySorted(s) && x !in s
    ensures StrictlySorted(r) && forall y :: y in r <==> y == x || y in s
  {
    LessTotalHere(x);
    if s == [] then [x]
    else if Less(x, s[0]) then
      LessTransitiveHere(x);
      [x] + s
    else
      var r := InsertSorted(s[1..], x);
      assert s == [s[0]] + s[1..];
      assert forall y :: y in s[1..] ==> Less(s[0], y);
      [s[0]] + r
  }

  lemma LessTotalHere(x: string)
    ensures forall y :: Less(x, y) || x == y || Less(y, x)
  {
    forall y ensures Less(x, y) || x == y || Less(y, x) { LessTotal(x, y); }
  }

  lemma LessTransitiveHere(x: string)
    ensures forall y, z :: Less(x, y) && Less(y, z) ==> Less(x, z)
  {
    forall y, z | Less(x, y) && Less(y, z) ensures Less(x, z) { LessTransitive(x, y, z); }
  }

  lemma {:induction false} SortedSetUnique(s: seq<string>, t: seq<string>)
    requires StrictlySorted(s) && StrictlySorted(t) && forall x :: x in s <==> x in t
    ensures s == t
  {
    if s != [] { assert s[0] in t; }
    if t != [] { assert t[0] in s; }
    if s != [] {
      if s[0] != t[0] {
        assert Less(t[0], s[0]) && Less(s[0], t[0]);
        LessAsymmetric(s[0], t[0]);
      }
      StrictTail(s);
      StrictTail(t);
      SortedSetUnique(s[1..], t[1..]);
      assert s == [s[0]] + s[1..] && t == [t[0]] + t[1..];
    }
  }

  lemma StrictTail(s: seq<string>)
    requires StrictlySorted(s) && s != []
    ensures StrictlySorted(s[1..])
    ensures forall x :: x in s[1..] <==> x in s && x != s[0]
  {
    assert s == [s[0]] + s[1..];
    forall x | x in s[1..]
      ensures x != s[0]
    {
      var i :| 0 <= i < |s[1..]| && s[1..][i] == x;
      assert Less(s[0], s[i + 1]);
      LessAsymmetric(s[0], x);
    }
  }

  /** Sorting distinct strings lists their set. */
  lemma SortedDistinctIsSortedSet(s: seq<string>, r: seq<string>)
    requires IsSortOf(s, (x: string) => x, r)
    requires forall i, j :: 0 <= i < j < |s| ==> s[i] != s[j]
    ensures r == SortedSet(set x | x in s)
  {
    forall i, j | 0 <= i < j < |r|
      ensures Less(r[i], r[j])
    {
      DistinctStays(s, r, i, j);
      LessTotal(r[i], r[j]);
    }
    assert forall x :: x in r <==> x in multiset(r);
    assert forall x :: x in s <==> x in multiset(s);
    SortedSetUnique(r, SortedSet(set x | x in s));
  }

  lemma DistinctStays<T>(s: seq<T>, r: seq<T>, i: nat, j: nat)
    requires multiset(s) == multiset(r) && i < j < |r|
    requires forall a, b :: 0 <= a < b < |s| ==> s[a] != s[b]
    ensures r[i] != r[j]
  {
    DistinctCounts(s);
    var rest := r[i + 1..];
    assert r == r[..i] + [r[i]] + rest;
    assert r[i] in multiset(s);
    assert multiset(r)[r[i]] == 1;
    assert rest[j - i - 1] == r[j] && r[j] in multiset(rest);
  }

  lemma {:induction false} DistinctCounts<T>(s: seq<T>)
    requires forall a, b :: 0 <= a < b < |s| ==> s[a] != s[b]
    ensures forall x :: x in s ==> multiset(s)[x] == 1
  {
    if s != [] {
      var n := |s| - 1;
      DistinctCounts(s[..n]);
      assert s == s[..n] + [s[n]];
      forall x | x in s
        ensures multiset(s)[x] == 1
      {
        if x == s[n] { assert x !in s[..n]; assert x !in multiset(s[..n]); }
      }
    }
  }

  // ---- mapping ----

  function Map<A, B>(f: A -> B, s: seq<A>): (r: seq<B>)
    ensures |r| == |s| && forall i :: 0 <= i < |s| ==> r[i] == f(s[i])
  {
    seq(|s|, i requires 0 <= i < |s| => f(s[i]))
  }

  lemma MapRemove<A, B>(f: A -> B, t: seq<A>, i: nat)
    requires i < |t|
    ensures multiset(Map(f, t)) == multiset(Map(f, t[..i] + t[i + 1..])) + multiset{f(t[i])}
  {
    var m, rest := Map(f, t), t[..i] + t[i + 1..];
    MultisetRemove(m, i);
    var without := m[..i] + m[i + 1..];
    forall k | 0 <= k < |without|
      ensures Map(f, rest)[k] == without[k]
    {
      assert rest[k] == if k < i then t[k] else t[k + 1];
    }
    assert Map(f, rest) == without;
  }

  lemma MultisetRemove<A>(t: seq<A>, i: nat)
    requires i < |t|
    ensures multiset(t) == multiset(t[..i] + t[i + 1..]) + multiset{t[i]}
  {
    assert t == t[..i] + [t[i]] + t[i + 1..];
  }

  lemma MatchHead<A>(s: seq<A>, t: seq<A>) returns (i: nat)
    requires multiset(s) == multiset(t) && s != []
    ensures i < |t| && t[i] == s[0]
    ensures multiset(s[1..]) == multiset(t[..i] + t[i + 1..])
  {
    assert s[0] in multiset(t);
    i :| 0 <= i < |t| && t[i] == s[0];
    MultisetRemove(t, i);
    assert s == [s[0]] + s[1..];
    assert multiset(s[1..]) == multiset(s) - multiset{s[0]};
  }

  lemma MapHead<A, B>(f: A -> B, s: seq<A>)
    requires s != []
    ensures multiset(Map(f, s)) == multiset(Map(f, s[1..])) + multiset{f(s[0])}
  {
    MapRemove(f, s, 0);
    assert s[..0] + s[0 + 1..] == s[1..];
  }

  /** Mapping respects reordering. */
  lemma {:induction false} MapPermuted<A, B>(f: A -> B, s: seq<A>, t: seq<A>)
    requires multiset(s) == multiset(t)
    ensures multiset(Map(f, s)) == multiset(Map(f, t))
  {
    if s == [] {
      assert |multiset(s)| == |s| && |multiset(t)| == |t|;
    } else {
      var i := MatchHead(s, t);
      MapPermuted(f, s[1..], t[..i] + t[i + 1..]);
      MapHead(f, s);
      MapRemove(f, t, i);
    }
  }

  /** Sorting elements with distinct keys sorts strictly. */
  lemma SortDistinct<T>(found: seq<T>, list: seq<T>, key: T -> string)
    requires IsSortOf(found, key, list)
    requires forall i, j :: 0 <= i < j < |found| ==> key(found[i]) != key(found[j])
    ensures StrictlySorted(Map(key, list))
  {
    MapPermuted(key, found, list);
    var ids := Map(key, list);
    forall i, j | 0 <= i < j < |ids|
      ensures Less(ids[i], ids[j])
    {
      DistinctStays(Map(key, found), ids, i, j);
      LessTotal(ids[i], ids[j]);
    }
  }

  /** A strictly sorted listing is determined by its members. */
  lemma SortedByKeyUnique<T>(a: seq<T>, b: seq<T>, key: T -> string)
    requires StrictlySorted(Map(key, a)) && StrictlySorted(Map(key, b))
    requires forall x :: x in a ==> x in b
    requires forall x :: x in b ==> x in a
    ensures a == b
  {
    var ka, kb := Map(key, a), Map(key, b);
    forall k | k in ka
      ensures k in kb
    {
      var i :| 0 <= i < |a| && ka[i] == k;
      assert a[i] in b;
      var j :| 0 <= j < |b| && b[j] == a[i];
      assert kb[j] == k;
    }
    forall k | k in kb
      ensures k in ka
    {
      var i :| 0 <= i < |b| && kb[i] == k;
      assert b[i] in a;
      var j :| 0 <= j < |a| && a[j] == b[i];
      assert ka[j] == k;
    }
    SortedSetUnique(ka, kb);
    forall i | 0 <= i < |a|
      ensures i < |b| && a[i] == b[i]
    {
      assert |ka| == |a| && |kb| == |b| && a[i] in b;
      var j :| 0 <= j < |b| && b[j] == a[i];
      assert kb[j] == kb[i];
      if i < j { LessAsymmetric(kb[i], kb[j]); }
      if j < i { LessAsymmetric(kb[j], kb[i]); }
    }
  }
}
