/** The policy manifest (policy/manifest.go): a snapshot that does not depend on map order. */
module Manifest {
  import opened Text
  import opened Sorting
  import opened PolicySpec
  import opened Canonical
  import opened CanonicalUniqueness
  import opened PolicySet

  datatype ManifestOperation = ManifestOperation(
    id: string, kind: string, exposure: string, docLabel: string, streamAuth: string, policy: Policy)

  datatype ManifestApi = ManifestApi(name: string, operations: seq<ManifestOperation>)

  function KindString(k: OperationKind): string {
    if k.HttpRoute? then "http" else "grpc"
  }

  function StreamAuthString(op: Operation): string {
    if !op.streaming then "" else if op.streamAuth == STREAM_AUTH_PER_MESSAGE then "per_message" else "open"
  }

  /** The manifest entry of op, given a canonical form of its policy. */
  function EntryWith(op: Operation, canonical: Policy): ManifestOperation {
    ManifestOperation(op.id, KindString(op.kind), ExposureString(op.exposure), EffectiveLabel(op), StreamAuthString(op), canonical)
  }

  ghost predicate IsEntry(op: Operation, e: ManifestOperation) {
    IsCanonicalPolicy(op.policy, e.policy) && e == EntryWith(op, e.policy)
  }

  function EntryId(e: ManifestOperation): string { e.id }

  function ApiName(a: ManifestApi): string { a.name }

  /** The entries of one API, by strictly increasing id. */
  ghost predicate IsApiEntry(ops: map<string, Operation>, a: ManifestApi) {
    && StrictlySorted(Map(EntryId, a.operations))
    && (forall e :: e in a.operations ==> e.id in ops && ops[e.id].api == a.name && IsEntry(ops[e.id], e))
    && (forall id :: id in ops && ops[id].api == a.name ==> exists e :: e in a.operations && e.id == id)
  }

  ghost predicate IsManifest(ops: map<string, Operation>, apis: seq<ManifestApi>) {
    && StrictlySorted(Map(ApiName, apis))
    && (forall a :: a in apis ==> IsApiEntry(ops, a) && a.operations != [])
    && (forall id :: id in ops ==> exists a :: a in apis && a.name == ops[id].api)
  }

  // ---- building ----

  /** One API collected so far: entries for exactly the operations in done. */
  ghost predicate Collected(ops: map<string, Operation>, done: seq<Operation>, byApi: map<string, seq<ManifestOperation>>) {
    && (forall op :: op in done ==> op.api in byApi && exists e :: e in byApi[op.api] && e.id == op.id)
    && (forall api :: api in byApi ==> byApi[api] != [] && ApiEntries(ops, done, api, byApi[api]))
  }

  ghost predicate ApiEntries(ops: map<string, Operation>, done: seq<Operation>, api: string, es: seq<ManifestOperation>) {
    && (forall e :: e in es ==> e.id in ops && ops[e.id] in done && ops[e.id].api == api && IsEntry(ops[e.id], e))
    && (forall i, j :: 0 <= i < j < |es| ==> es[i].id != es[j].id)
  }

  method CollectByApi(s: OperationSet, list: seq<Operation>) returns (byApi: map<string, seq<ManifestOperation>>)
    requires forall op :: op in list ==> op.id in s.ops && s.ops[op.id] == op
    requires StrictlySorted(Map(IdOf, list))
    ensures Collected(s.ops, list, byApi)
  {
    byApi := map[];
    for i := 0 to |list|
      invariant Collected(s.ops, list[..i], byApi)
    {
      var op := list[i];
      assert op in list;
      assert list[..i + 1] == list[..i] + [op];
      var canonical := CanonicalPolicy(op.policy);
      var e := EntryWith(op, canonical);
      IdIsNew(list, i);
      byApi := AddEntry(s.ops, list[..i], op, e, byApi);
    }
    assert list[..|list|] == list;
  }

  lemma IdIsNew(list: seq<Operation>, i: nat)
    requires i < |list| && StrictlySorted(Map(IdOf, list))
    ensures forall op :: op in list[..i] ==> op.id != list[i].id
  {
    forall j | 0 <= j < i
      ensures list[j].id != list[i].id
    {
      assert Less(Map(IdOf, list)[j], Map(IdOf, list)[i]);
      LessAsymmetric(list[j].id, list[i].id);
    }
  }

  /** append to the API's list. */
  method AddEntry(ghost ops: map<string, Operation>, ghost done: seq<Operation>, op: Operation, e: ManifestOperation,
                  before: map<string, seq<ManifestOperation>>) returns (byApi: map<string, seq<ManifestOperation>>)
    requires Collected(ops, done, before) && op.id in ops && ops[op.id] == op && IsEntry(op, e)
    requires forall x :: x in done ==> x.id != op.id
    ensures Collected(ops, done + [op], byApi)
  {
    var prior := if op.api in before then before[op.api] else [];
    byApi := before[op.api := prior + [e]];
    assert e in byApi[op.api] && e.id == op.id;
    forall api | api in byApi
      ensures byApi[api] != [] && ApiEntries(ops, done + [op], api, byApi[api])
    {
      if api in before { assert ApiEntries(ops, done, api, before[api]); }
    }
    forall x | x in done
      ensures x.api in byApi && exists y :: y in byApi[x.api] && y.id == x.id
    {
      var y :| y in before[x.api] && y.id == x.id;
      assert y in byApi[x.api];
    }
  }

  method SortEntries(ghost ops: map<string, Operation>, ghost list: seq<Operation>, api: string, es: seq<ManifestOperation>)
    returns (a: ManifestApi)
    requires es != [] && ApiEntries(ops, list, api, es)
    requires forall id :: id in ops && ops[id].api == api ==> exists e :: e in es && e.id == id
    ensures a.name == api && a.operations != [] && IsApiEntry(ops, a)
  {
    var sorted := SortSlice(es, EntryId);
    SortDistinct(es, sorted, EntryId);
    assert forall e :: e in sorted <==> e in multiset(sorted);
    assert forall e :: e in es <==> e in multiset(es);
    assert |multiset(sorted)| == |sorted| && |multiset(es)| == |es|;
    a := ManifestApi(api, sorted);
  }

  ghost predicate Named(apis: seq<ManifestApi>, api: string) {
    exists a :: a in apis && a.name == api
  }

  method CollectApis(ghost ops: map<string, Operation>, ghost list: seq<Operation>, byApi: map<string, seq<ManifestOperation>>)
    returns (found: seq<ManifestApi>)
    requires KeyedById(ops) && Collected(ops, list, byApi)
    requires forall op :: op in list <==> op.id in ops && ops[op.id] == op
    ensures forall a :: a in found ==> a.operations != [] && IsApiEntry(ops, a)
    ensures forall api :: api in byApi ==> Named(found, api)
    ensures forall i, j :: 0 <= i < j < |found| ==> found[i].name != found[j].name
  {
    found := [];
    var todo := byApi.Keys;
    while todo != {}
      invariant todo <= byApi.Keys
      invariant forall a :: a in found ==> a.name in byApi.Keys - todo && a.operations != [] && IsApiEntry(ops, a)
      invariant forall api :: api in byApi && api !in todo ==> Named(found, api)
      invariant forall i, j :: 0 <= i < j < |found| ==> found[i].name != found[j].name
      decreases todo
    {
      var api :| api in todo;
      ApiIsComplete(ops, list, byApi, api);
      var a := SortEntries(ops, list, api, byApi[api]);
      todo := todo - {api};
      ghost var was := found;
      found := found + [a];
      forall k | k in byApi && k !in todo
        ensures Named(found, k)
      {
        if k == api {
          assert a in found && a.name == k;
        } else {
          var x :| x in was && x.name == k;
          assert x in found;
        }
      }
    }
  }

  method BuildManifest(s: OperationSet) returns (apis: seq<ManifestApi>)
    requires KeyedById(s.ops)
    ensures IsManifest(s.ops, apis)
  {
    var list := Operations(s);
    var byApi := CollectByApi(s, list);
    var found := CollectApis(s.ops, list, byApi);
    apis := SortSlice(found, ApiName);
    SortDistinct(found, apis, ApiName);
    assert forall a :: a in apis <==> a in multiset(apis);
    assert forall a :: a in found <==> a in multiset(found);
    forall id | id in s.ops
      ensures exists a :: a in apis && a.name == s.ops[id].api
    {
      assert s.ops[id] in list;
      assert Named(found, s.ops[id].api);
    }
  }

  lemma ApiIsComplete(ops: map<string, Operation>, list: seq<Operation>, byApi: map<string, seq<ManifestOperation>>, api: string)
    requires KeyedById(ops) && Collected(ops, list, byApi) && api in byApi
    requires forall op :: op in list <==> op.id in ops && ops[op.id] == op
    ensures byApi[api] != [] && ApiEntries(ops, list, api, byApi[api])
    ensures forall id :: id in ops && ops[id].api == api ==> exists e :: e in byApi[api] && e.id == id
  {
    forall id | id in ops && ops[id].api == api
      ensures exists e :: e in byApi[api] && e.id == id
    {
      assert ops[id] in list;
    }
  }

  // ---- one manifest per set ----

  lemma EntryUnique(op: Operation, e: ManifestOperation, f: ManifestOperation)
    requires PolicyApart(op.policy) && IsEntry(op, e) && IsEntry(op, f)
    ensures e == f
  {
    OneFormExactly(op.policy);
  }

  lemma ApiEntryUnique(ops: map<string, Operation>, a: ManifestApi, b: ManifestApi)
    requires forall id :: id in ops ==> PolicyApart(ops[id].policy)
    requires IsApiEntry(ops, a) && IsApiEntry(ops, b) && a.name == b.name
    ensures a == b
  {
    forall e | e in a.operations
      ensures e in b.operations
    {
      var f :| f in b.operations && f.id == e.id;
      EntryUnique(ops[e.id], e, f);
    }
    forall e | e in b.operations
      ensures e in a.operations
    {
      var f :| f in a.operations && f.id == e.id;
      EntryUnique(ops[e.id], e, f);
    }
    SortedByKeyUnique(a.operations, b.operations, EntryId);
  }

  lemma ManifestCovers(ops: map<string, Operation>, m: seq<ManifestApi>, n: seq<ManifestApi>, a: ManifestApi)
    requires forall id :: id in ops ==> PolicyApart(ops[id].policy)
    requires IsManifest(ops, m) && IsManifest(ops, n) && a in m
    ensures a in n
  {
    assert a.operations[0] in a.operations;
    var id := a.operations[0].id;
    var b :| b in n && b.name == ops[id].api;
    ApiEntryUnique(ops, a, b);
  }

  lemma ApartHasOneManifest(ops: map<string, Operation>, m: seq<ManifestApi>, n: seq<ManifestApi>)
    requires forall id :: id in ops ==> PolicyApart(ops[id].policy)
    requires IsManifest(ops, m) && IsManifest(ops, n)
    ensures m == n
  {
    forall a | a in m ensures a in n { ManifestCovers(ops, m, n, a); }
    forall a | a in n ensures a in m { ManifestCovers(ops, n, m, a); }
    SortedByKeyUnique(m, n, ApiName);
  }

  /** The manifest with another canonical form in one entry. */
  function Changed(m: seq<ManifestApi>, i: nat, k: nat, c: Policy): (n: seq<ManifestApi>)
    requires i < |m| && k < |m[i].operations|
    ensures |n| == |m|
  {
    m[i := m[i].(operations := m[i].operations[k := m[i].operations[k].(policy := c)])]
  }

  lemma ChangedApi(ops: map<string, Operation>, a: ManifestApi, k: nat, c: Policy)
    requires IsApiEntry(ops, a) && k < |a.operations| && IsCanonicalPolicy(ops[a.operations[k].id].policy, c)
    ensures IsApiEntry(ops, a.(operations := a.operations[k := a.operations[k].(policy := c)]))
  {
    var es := a.operations[k := a.operations[k].(policy := c)];
    assert Map(EntryId, es) == Map(EntryId, a.operations);
    assert a.operations[k] in a.operations;
    forall e | e in es
      ensures e.id in ops && ops[e.id].api == a.name && IsEntry(ops[e.id], e)
    {
      var j :| 0 <= j < |es| && es[j] == e;
      assert a.operations[j] in a.operations;
    }
    ChangedHasAllIds(ops, a, k, c);
  }

  lemma ChangedHasAllIds(ops: map<string, Operation>, a: ManifestApi, k: nat, c: Policy)
    requires IsApiEntry(ops, a) && k < |a.operations|
    ensures var es := a.operations[k := a.operations[k].(policy := c)];
            forall id :: id in ops && ops[id].api == a.name ==> exists e :: e in es && e.id == id
  {
    var es := a.operations[k := a.operations[k].(policy := c)];
    forall id | id in ops && ops[id].api == a.name
      ensures exists e :: e in es && e.id == id
    {
      var j := EntryIndex(ops, a, id);
      assert es[j] in es && es[j].id == id;
    }
  }

  lemma ChangedIsManifest(ops: map<string, Operation>, m: seq<ManifestApi>, i: nat, k: nat, c: Policy)
    requires IsManifest(ops, m) && i < |m| && k < |m[i].operations| && m[i].operations[k].id in ops
    requires IsCanonicalPolicy(ops[m[i].operations[k].id].policy, c)
    ensures IsManifest(ops, Changed(m, i, k, c))
  {
    var n := Changed(m, i, k, c);
    assert m[i] in m;
    ChangedApi(ops, m[i], k, c);
    assert Map(ApiName, n) == Map(ApiName, m);
    forall b | b in n
      ensures b.operations != [] && IsApiEntry(ops, b)
    {
      var j :| 0 <= j < |n| && n[j] == b;
      assert m[j] in m;
    }
    forall id | id in ops
      ensures exists b :: b in n && b.name == ops[id].api
    {
      var b :| b in m && b.name == ops[id].api;
      var j :| 0 <= j < |m| && m[j] == b;
      assert n[j] in n && n[j].name == b.name;
    }
  }

  /**
   Given one manifest of a set, it is the only one, whatever order the set's map is read in, if and
   only if no keys collide in any policy.
   */
  lemma ManifestIsUnique(ops: map<string, Operation>, m: seq<ManifestApi>)
    requires IsManifest(ops, m)
    ensures (forall n :: IsManifest(ops, n) ==> n == m) <==> (forall id :: id in ops ==> PolicyApart(ops[id].policy))
  {
    if forall id :: id in ops ==> PolicyApart(ops[id].policy) {
      forall n | IsManifest(ops, n) ensures n == m { ApartHasOneManifest(ops, m, n); }
    } else {
      var id :| id in ops && !PolicyApart(ops[id].policy);
      var n := AnotherManifest(ops, m, id);
    }
  }

  lemma AnotherManifest(ops: map<string, Operation>, m: seq<ManifestApi>, id: string) returns (n: seq<ManifestApi>)
    requires IsManifest(ops, m) && id in ops && !PolicyApart(ops[id].policy)
    ensures IsManifest(ops, n) && n != m
  {
    var a :| a in m && a.name == ops[id].api;
    var i :| 0 <= i < |m| && m[i] == a;
    var k := EntryIndex(ops, a, id);
    var c := OtherForm(ops[id].policy, a.operations[k].policy);
    ChangedIsManifest(ops, m, i, k, c);
    n := Changed(m, i, k, c);
    assert n[i].operations[k].policy == c;
  }

  lemma EntryIndex(ops: map<string, Operation>, a: ManifestApi, id: string) returns (k: nat)
    requires IsApiEntry(ops, a) && id in ops && ops[id].api == a.name
    ensures k < |a.operations| && a.operations[k].id == id
  {
    var e :| e in a.operations && e.id == id;
    k :| 0 <= k < |a.operations| && a.operations[k] == e;
  }

  lemma OtherForm(p: Policy, known: Policy) returns (c: Policy)
    requires !PolicyApart(p)
    ensures IsCanonicalPolicy(p, c) && c != known
  {
    OneFormExactly(p);
    var a, b :| IsCanonicalPolicy(p, a) && IsCanonicalPolicy(p, b) && a != b;
    c := if a != known then a else b;
  }
}
