/** The sort keys of policy/manifest.go and when they identify what they are keys of. */
module RequirementKeys {
  import opened Text
  import opened Sorting
  import opened PolicySpec

  const NUL := "\0"
  const SOH := "\U{1}"

  function KeyValue(params: map<string, string>, k: string): string
    requires k in params
  {
    k + "=" + params[k]
  }

  /** name=value for the given parameter names. */
  function ParamFields(params: map<string, string>, keys: seq<string>): seq<string>
    requires forall k :: k in keys ==> k in params
  {
    if keys == [] then [] else [KeyValue(params, keys[0])] + ParamFields(params, keys[1..])
  }

  ghost function Fields(r: Requirement): seq<string> {
    [r.kind, r.vocabulary, MatchString(r.mode)] + r.values + ParamFields(r.params, SortedSet(r.params.Keys))
  }

  ghost function Key(r: Requirement): string {
    Join(Fields(r), NUL)
  }

  ghost function ListKey(rs: seq<Requirement>): string {
    if rs == [] then "" else ListKey(rs[..|rs| - 1]) + Key(rs[|rs| - 1]) + SOH
  }

  // ---- the loops that build keys ----

  /** Appending one field, the form in which the source grows a key. */
  lemma {:induction false} JoinSnoc(fields: seq<string>, f: string)
    requires |fields| > 0
    ensures Join(fields + [f], NUL) == Join(fields, NUL) + NUL + f
  {
    if |fields| == 1 {
      assert (fields + [f])[1..] == [f];
    } else {
      JoinSnoc(fields[1..], f);
      assert (fields + [f])[1..] == fields[1..] + [f];
    }
  }

  lemma {:induction false} ParamFieldsSnoc(params: map<string, string>, keys: seq<string>, k: string)
    requires (forall x :: x in keys ==> x in params) && k in params
    ensures ParamFields(params, keys + [k]) == ParamFields(params, keys) + [KeyValue(params, k)]
  {
    if keys != [] {
      ParamFieldsSnoc(params, keys[1..], k);
      assert (keys + [k])[1..] == keys[1..] + [k];
    }
  }

  method SortedKeys(params: map<string, string>) returns (keys: seq<string>)
    ensures keys == SortedSet(params.Keys)
  {
    var found: seq<string> := [];
    var todo := params.Keys;
    while todo != {}
      invariant todo <= params.Keys
      invariant forall k :: k in found <==> k in params.Keys - todo
      invariant forall i, j :: 0 <= i < j < |found| ==> found[i] != found[j]
      decreases todo
    {
      var k :| k in todo;
      assert forall i :: 0 <= i < |found| ==> found[i] in found;
      todo := todo - {k};
      found := found + [k];
    }
    assert forall i :: 0 <= i < |found| ==> found[i] in found;
    keys := SortSlice(found, (x: string) => x);
    SortedDistinctIsSortedSet(found, keys);
    assert (set x | x in found) == params.Keys;
  }

  method AppendValues(key: string, ghost fields: seq<string>, values: seq<string>) returns (out: string)
    requires |fields| > 0 && key == Join(fields, NUL)
    ensures out == Join(fields + values, NUL)
  {
    out := key;
    assert fields + values[..0] == fields;
    for i := 0 to |values|
      invariant out == Join(fields + values[..i], NUL)
    {
      JoinSnoc(fields + values[..i], values[i]);
      assert fields + values[..i] + [values[i]] == fields + values[..i + 1];
      out := out + (NUL + values[i]);
    }
    assert values[..|values|] == values;
  }

  method AppendParams(key: string, ghost fields: seq<string>, params: map<string, string>, keys: seq<string>) returns (out: string)
    requires |fields| > 0 && key == Join(fields, NUL)
    requires forall k :: k in keys ==> k in params
    ensures out == Join(fields + ParamFields(params, keys), NUL)
  {
    out := key;
    assert fields + ParamFields(params, keys[..0]) == fields;
    for i := 0 to |keys|
      invariant out == Join(fields + ParamFields(params, keys[..i]), NUL)
    {
      var field := keys[i] + "=" + params[keys[i]];
      ghost var sofar := ParamFields(params, keys[..i]);
      JoinSnoc(fields + sofar, field);
      ParamFieldsSnoc(params, keys[..i], keys[i]);
      assert keys[..i + 1] == keys[..i] + [keys[i]];
      assert fields + sofar + [field] == fields + (sofar + [field]);
      out := out + (NUL + field);
    }
    assert keys[..|keys|] == keys;
  }

  lemma JoinThree(a: string, b: string, c: string)
    ensures Join([a, b, c], NUL) == a + NUL + b + NUL + c
  {
    assert [a, b, c][1..] == [b, c];
    assert [b, c][1..] == [c];
    assert Join([b, c], NUL) == b + NUL + c;
    assert a + NUL + (b + NUL + c) == a + NUL + b + NUL + c;
  }

  method RequirementKey(r: Requirement) returns (key: string)
    ensures key == Key(r)
  {
    key := r.kind + NUL + r.vocabulary + NUL + MatchString(r.mode);
    ghost var head := [r.kind, r.vocabulary, MatchString(r.mode)];
    JoinThree(r.kind, r.vocabulary, MatchString(r.mode));
    key := AppendValues(key, head, r.values);
    var keys := SortedKeys(r.params);
    key := AppendParams(key, head + r.values, r.params, keys);
  }

  method RequirementListKey(rs: seq<Requirement>) returns (key: string)
    ensures key == ListKey(rs)
  {
    key := "";
    for i := 0 to |rs|
      invariant key == ListKey(rs[..i])
    {
      var k := RequirementKey(rs[i]);
      key := key + (k + SOH);
      assert rs[..i + 1][..i] == rs[..i];
    }
    assert rs[..|rs|] == rs;
  }

  // ---- unique decoding ----

  /** Free of the two separators. */
  predicate Plain(s: string) {
    '\0' !in s && '\U{1}' !in s
  }

  predicate NoEquals(s: string) {
    '=' !in s
  }

  /** What the keys need: a valid match, no separators anywhere, no '=' in values or parameter names. */
  ghost predicate Clean(r: Requirement) {
    && ValidMatch(r.mode) && Plain(r.kind) && Plain(r.vocabulary)
    && (forall v :: v in r.values ==> Plain(v) && NoEquals(v))
    && (forall k :: k in r.params ==> Plain(k) && NoEquals(k) && Plain(r.params[k]))
  }

  lemma {:induction false} ParamFieldsPlain(params: map<string, string>, keys: seq<string>)
    requires forall k :: k in keys ==> k in params && Plain(k) && Plain(params[k])
    ensures forall i :: 0 <= i < |ParamFields(params, keys)| ==>
              Plain(ParamFields(params, keys)[i]) && '=' in ParamFields(params, keys)[i]
    ensures |ParamFields(params, keys)| == |keys|
  {
    if keys != [] {
      ParamFieldsPlain(params, keys[1..]);
      var k := keys[0];
      var field := KeyValue(params, k);
      assert field[|k|] == '=';
      assert forall c :: c in field ==> c in k || c == '=' || c in params[k];
      assert k in keys && Plain(field);
    }
  }

  lemma FieldsPlain(r: Requirement)
    requires Clean(r)
    ensures forall i :: 0 <= i < |Fields(r)| ==> Plain(Fields(r)[i])
  {
    ParamFieldsPlain(r.params, SortedSet(r.params.Keys));
  }

  /** Values carry no '=' and parameter fields do, so their concatenation splits one way. */
  lemma {:induction false} ValuesAndFieldsSplit(v1: seq<string>, p1: seq<string>, v2: seq<string>, p2: seq<string>)
    requires v1 + p1 == v2 + p2
    requires forall v :: v in v1 || v in v2 ==> NoEquals(v)
    requires forall f :: f in p1 || f in p2 ==> !NoEquals(f)
    ensures v1 == v2 && p1 == p2
  {
    var w := v1 + p1;
    assert forall i :: 0 <= i < |w| ==> w[i] == if i < |v1| then v1[i] else p1[i - |v1|];
    assert forall i :: 0 <= i < |w| ==> w[i] == if i < |v2| then v2[i] else p2[i - |v2|];
    assert forall i :: 0 <= i < |w| ==> (NoEquals(w[i]) <==> i < |v1|);
    assert forall i :: 0 <= i < |w| ==> (NoEquals(w[i]) <==> i < |v2|);
    var n := if |v1| < |v2| then |v1| else |v2|;
    if n < |w| { assert NoEquals(w[n]) <==> n < |v1|; }
    assert v1 == w[..|v1|] && v2 == w[..|v2|] && p1 == w[|v1|..] && p2 == w[|v2|..];
  }

  /** name=value with no '=' in the name decodes. */
  lemma KeyValueInjective(k1: string, x1: string, k2: string, x2: string)
    requires NoEquals(k1) && NoEquals(k2) && k1 + "=" + x1 == k2 + "=" + x2
    ensures k1 == k2 && x1 == x2
  {
    var s, t := k1 + "=" + x1, k2 + "=" + x2;
    assert s[|k1|] == '=' && t[|k2|] == '=';
    assert forall i :: 0 <= i < |k1| ==> s[i] == k1[i];
    assert forall i :: 0 <= i < |k2| ==> t[i] == k2[i];
    assert k1 == s[..|k1|] && k2 == t[..|k2|];
    assert x1 == s[|k1| + 1..] && x2 == t[|k2| + 1..];
  }

  lemma {:induction false} ParamFieldsInjective(m1: map<string, string>, keys1: seq<string>,
                                                m2: map<string, string>, keys2: seq<string>)
    requires forall k :: k in keys1 ==> k in m1 && NoEquals(k)
    requires forall k :: k in keys2 ==> k in m2 && NoEquals(k)
    requires ParamFields(m1, keys1) == ParamFields(m2, keys2)
    ensures keys1 == keys2 && forall k :: k in keys1 ==> m1[k] == m2[k]
  {
    if keys1 != [] && keys2 != [] {
      var f1, f2 := ParamFields(m1, keys1), ParamFields(m2, keys2);
      assert f1[0] == f2[0];
      KeyValueInjective(keys1[0], m1[keys1[0]], keys2[0], m2[keys2[0]]);
      assert f1[1..] == ParamFields(m1, keys1[1..]) && f2[1..] == ParamFields(m2, keys2[1..]);
      ParamFieldsInjective(m1, keys1[1..], m2, keys2[1..]);
      assert keys1 == [keys1[0]] + keys1[1..] && keys2 == [keys2[0]] + keys2[1..];
    }
  }

  lemma FieldLayout(r: Requirement)
    ensures |Fields(r)| >= 3
    ensures Fields(r)[0] == r.kind && Fields(r)[1] == r.vocabulary && Fields(r)[2] == MatchString(r.mode)
    ensures Fields(r)[3..] == r.values + ParamFields(r.params, SortedSet(r.params.Keys))
  {
    AfterThree(r.kind, r.vocabulary, MatchString(r.mode), r.values, ParamFields(r.params, SortedSet(r.params.Keys)));
  }

  lemma AfterThree<T>(a: T, b: T, c: T, x: seq<T>, y: seq<T>)
    ensures ([a, b, c] + x + y)[3..] == x + y
  {
    Assoc([a, b, c], x, y);
  }

  lemma SameParams(a: map<string, string>, b: map<string, string>)
    requires SortedSet(a.Keys) == SortedSet(b.Keys) && forall k :: k in SortedSet(a.Keys) ==> a[k] == b[k]
    ensures a == b
  {
    assert forall k :: k in a.Keys <==> k in SortedSet(a.Keys);
    assert forall k :: k in b.Keys <==> k in SortedSet(b.Keys);
  }

  lemma FieldsInjective(a: Requirement, b: Requirement)
    requires Clean(a) && Clean(b) && Fields(a) == Fields(b)
    ensures a == b
  {
    var ka, kb := SortedSet(a.params.Keys), SortedSet(b.params.Keys);
    var pa, pb := ParamFields(a.params, ka), ParamFields(b.params, kb);
    FieldLayout(a);
    FieldLayout(b);
    MatchStringInjective(a.mode, b.mode);
    ParamFieldsPlain(a.params, ka);
    ParamFieldsPlain(b.params, kb);
    ValuesAndFieldsSplit(a.values, pa, b.values, pb);
    ParamFieldsInjective(a.params, ka, b.params, kb);
    SameParams(a.params, b.params);
  }

  lemma MatchStringInjective(a: Match, b: Match)
    requires ValidMatch(a) && ValidMatch(b) && MatchString(a) == MatchString(b)
    ensures a == b
  {
    assert |MatchString(MATCH_DEFAULT)| == 7;
    assert "any"[1] == 'n' && "all"[1] == 'l';
  }

  /** requirementKey is uniquely decodable on clean requirements. */
  lemma KeyInjective(a: Requirement, b: Requirement)
    requires Clean(a) && Clean(b) && Key(a) == Key(b)
    ensures a == b
  {
    FieldsPlain(a);
    FieldsPlain(b);
    SplitJoin(Fields(a), '\0');
    SplitJoin(Fields(b), '\0');
    FieldsInjective(a, b);
  }

  lemma {:induction false} JoinPlain(fields: seq<string>)
    requires forall i :: 0 <= i < |fields| ==> Plain(fields[i])
    ensures '\U{1}' !in Join(fields, NUL)
  {
    if |fields| > 1 { JoinPlain(fields[1..]); }
  }

  ghost predicate CleanList(rs: seq<Requirement>) {
    forall r :: r in rs ==> Clean(r)
  }

  lemma FrontAndLast<T>(a: seq<T>, b: seq<T>)
    requires a != [] && b != [] && a[..|a| - 1] == b[..|b| - 1] && a[|a| - 1] == b[|b| - 1]
    ensures a == b
  {
    assert a == a[..|a| - 1] + [a[|a| - 1]] && b == b[..|b| - 1] + [b[|b| - 1]];
  }

  lemma CleanParts(rs: seq<Requirement>)
    requires rs != [] && CleanList(rs)
    ensures CleanList(rs[..|rs| - 1]) && Clean(rs[|rs| - 1])
  {
    assert rs[|rs| - 1] in rs;
  }

  lemma KeyPlain(r: Requirement)
    requires Clean(r)
    ensures '\U{1}' !in Key(r)
  {
    FieldsPlain(r);
    JoinPlain(Fields(r));
  }

  /** requirementListKey is uniquely decodable on lists of clean requirements. */
  lemma {:induction false} ListKeyInjective(a: seq<Requirement>, b: seq<Requirement>)
    requires CleanList(a) && CleanList(b) && ListKey(a) == ListKey(b)
    ensures a == b
  {
    ListKeyEnds(a);
    ListKeyEnds(b);
    if a != [] && b != [] {
      var m, n := |a| - 1, |b| - 1;
      CleanParts(a);
      CleanParts(b);
      LastKeyAgrees(a, b);
      KeyInjective(a[m], b[n]);
      ListKeyInjective(a[..m], b[..n]);
      FrontAndLast(a, b);
    }
  }

  lemma LastKeyAgrees(a: seq<Requirement>, b: seq<Requirement>)
    requires a != [] && b != [] && Clean(a[|a| - 1]) && Clean(b[|b| - 1]) && ListKey(a) == ListKey(b)
    ensures Key(a[|a| - 1]) == Key(b[|b| - 1]) && ListKey(a[..|a| - 1]) == ListKey(b[..|b| - 1])
  {
    var m, n := |a| - 1, |b| - 1;
    KeyPlain(a[m]);
    KeyPlain(b[n]);
    var p, q := ListKey(a[..m]), ListKey(b[..n]);
    ListKeyEnds(a[..m]);
    ListKeyEnds(b[..n]);
    ListKeyLast(a);
    ListKeyLast(b);
    LastField(p, Key(a[m]), q, Key(b[n]));
  }

  lemma ListKeyLast(rs: seq<Requirement>)
    requires rs != []
    ensures ListKey(rs) == ListKey(rs[..|rs| - 1]) + Key(rs[|rs| - 1]) + SOH
  {
  }

  /** Empty, or ends with the terminator. */
  predicate Ended(s: string) {
    s != "" ==> s[|s| - 1] == '\U{1}'
  }

  /** Non-empty list keys end with the terminator. */
  lemma ListKeyEnds(rs: seq<Requirement>)
    ensures Ended(ListKey(rs))
    ensures rs == [] ==> ListKey(rs) == ""
    ensures rs != [] ==> |ListKey(rs)| > 0 && ListKey(rs)[|ListKey(rs)| - 1] == '\U{1}'
  {
  }

  lemma LastField(p: string, k: string, q: string, l: string)
    requires '\U{1}' !in k && '\U{1}' !in l
    requires Ended(p) && Ended(q)
    requires p + k + SOH == q + l + SOH
    ensures p == q && k == l
  {
    var s, t := p + k, q + l;
    assert s == (p + k + SOH)[..|s|] && t == (q + l + SOH)[..|t|];
    assert s == t;
    assert forall i :: 0 <= i < |s| ==> s[i] == if i < |p| then p[i] else k[i - |p|];
    assert forall i :: 0 <= i < |t| ==> t[i] == if i < |q| then q[i] else l[i - |q|];
    assert q != "" ==> t[|q| - 1] == '\U{1}';
    assert p != "" ==> s[|p| - 1] == '\U{1}';
    assert |p| == |q|;
    assert p == s[..|p|] && q == t[..|q|] && k == s[|p|..] && l == t[|q|..];
  }
}
