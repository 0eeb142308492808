/** The immutable table of operations (policy/set.go). */
module PolicySet {
  import opened Wrappers
  import opened Text
  import opened Sorting
  import opened PolicySpec
  import opened Registry
  import opened PolicyValidation

  datatype OperationSet = OperationSet(ops: map<string, Operation>, kinds: Kinds, vocab: Vocabulary)

  ghost predicate DistinctIds(ops: seq<Operation>) {
    forall i, j :: 0 <= i < j < |ops| ==> ops[i].id != ops[j].id
  }

  /** Exactly the given operations, each under its id, on top of a base table. */
  ghost predicate Extends(base: map<string, Operation>, ops: seq<Operation>, table: map<string, Operation>) {
    && (forall id :: id in table <==> id in base || exists i :: 0 <= i < |ops| && ops[i].id == id)
    && (forall i :: 0 <= i < |ops| ==> ops[i].id in table && table[ops[i].id] == ops[i])
    && (forall id :: id in base && (forall i :: 0 <= i < |ops| ==> ops[i].id != id) ==> table[id] == base[id])
  }

  /** newSet: succeeds exactly on distinct non-empty ids. */
  method NewSet(kinds: Kinds, vocab: Vocabulary, ops: seq<Operation>) returns (r: Option<OperationSet>)
    ensures r.Some? <==> DistinctIds(ops) && forall i :: 0 <= i < |ops| ==> ops[i].id != ""
    ensures r.Some? ==> r.value.kinds == kinds && r.value.vocab == vocab && Extends(map[], ops, r.value.ops)
  {
    var table: map<string, Operation> := map[];
    for n := 0 to |ops|
      invariant DistinctIds(ops[..n]) && forall i :: 0 <= i < n ==> ops[i].id != ""
      invariant Extends(map[], ops[..n], table)
    {
      var op := ops[n];
      assert ops[..n + 1] == ops[..n] + [op];
      if op.id == "" || op.id in table {
        return None;
      }
      ExtendsStep(map[], ops[..n], table, op);
      DistinctIdsSnoc(ops[..n], op);
      table := table[op.id := op];
    }
    assert ops[..|ops|] == ops;
    return Some(OperationSet(table, kinds, vocab));
  }

  lemma DistinctIdsSnoc(ops: seq<Operation>, op: Operation)
    requires DistinctIds(ops) && forall i :: 0 <= i < |ops| ==> ops[i].id != op.id
    ensures DistinctIds(ops + [op])
  {
  }

  lemma ExtendsStep(base: map<string, Operation>, ops: seq<Operation>, table: map<string, Operation>, op: Operation)
    requires Extends(base, ops, table) && op.id !in table
    ensures Extends(base, ops + [op], table[op.id := op])
  {
    var more := ops + [op];
    assert more[|ops|] == op;
    assert forall i :: 0 <= i < |ops| ==> more[i] == ops[i];
  }

  lemma TakenId(base: map<string, Operation>, ops: seq<Operation>, n: nat, table: map<string, Operation>)
    requires n < |ops| && Extends(base, ops[..n], table)
    ensures ops[n].id in table && ops[n].id !in base ==> !DistinctIds(ops)
  {
    if ops[n].id in table && ops[n].id !in base {
      var i :| 0 <= i < n && ops[..n][i].id == ops[n].id;
      assert ops[i].id == ops[n].id;
    }
  }

  /** What holds of every set the package hands out: all policies are valid, so none carries a preset. */
  ghost predicate ValidSet(s: OperationSet) {
    && KeyedById(s.ops)
    && forall id :: id in s.ops ==> ValidPolicy(s.ops[id].policy, s.kinds, s.vocab)
  }

  lemma ExtendsKeepsValid(s: OperationSet, ops: seq<Operation>, table: map<string, Operation>)
    requires Extends(s.ops, ops, table)
    requires forall i :: 0 <= i < |ops| ==> ValidPolicy(ops[i].policy, s.kinds, s.vocab)
    ensures ValidSet(s) ==> ValidSet(s.(ops := table))
  {
    if ValidSet(s) {
      forall id | id in table
        ensures table[id].id == id && ValidPolicy(table[id].policy, s.kinds, s.vocab)
      {
        if i :| 0 <= i < |ops| && ops[i].id == id {
          assert table[id] == ops[i];
        } else {
          assert table[id] == s.ops[id];
        }
      }
    }
  }

  /** NewSetWithVocabulary, and with an empty vocabulary NewSetWithRegistry: validates, then builds. */
  method NewSetWithVocabulary(kinds: Kinds, vocab: Vocabulary, ops: seq<Operation>) returns (r: Option<OperationSet>)
    ensures r.Some? <==>
      && DistinctIds(ops)
      && forall i :: 0 <= i < |ops| ==> Addable(OperationSet(map[], kinds, vocab), ops[i])
    ensures r.Some? ==> r.value.kinds == kinds && r.value.vocab == vocab && Extends(map[], ops, r.value.ops)
    ensures r.Some? ==> ValidSet(r.value)
  {
    for n := 0 to |ops|
      invariant forall i :: 0 <= i < n ==> ValidPolicy(ops[i].policy, kinds, vocab)
    {
      var violations := ValidatePolicy(ops[n].policy, kinds, vocab);
      if violations > 0 {
        return None;
      }
    }
    r := NewSet(kinds, vocab, ops);
    if r.Some? {
      ExtendsKeepsValid(OperationSet(map[], kinds, vocab), ops, r.value.ops);
    }
  }

  /** An operation the set accepts as an addition. */
  ghost predicate Addable(s: OperationSet, op: Operation) {
    op.id != "" && op.id !in s.ops && ValidPolicy(op.policy, s.kinds, s.vocab)
  }

  /** WithOperations: additions must be valid under the set's own registry and vocabulary, and new. */
  method WithOperations(s: OperationSet, ops: seq<Operation>) returns (r: Option<OperationSet>)
    ensures r.Some? <==>
      && DistinctIds(ops)
      && forall i :: 0 <= i < |ops| ==> Addable(s, ops[i])
    ensures r.Some? ==> r.value == s.(ops := r.value.ops) && Extends(s.ops, ops, r.value.ops)
    ensures r.Some? && ValidSet(s) ==> ValidSet(r.value)
  {
    var table := s.ops;
    for n := 0 to |ops|
      invariant DistinctIds(ops[..n])
      invariant forall i :: 0 <= i < n ==> Addable(s, ops[i])
      invariant Extends(s.ops, ops[..n], table)
    {
      var op := ops[n];
      TakeNext(ops, n);
      var violations := ValidatePolicy(op.policy, s.kinds, s.vocab);
      TakenId(s.ops, ops, n, table);
      if violations > 0 || op.id == "" || op.id in table {
        return None;
      }
      ExtendsStep(s.ops, ops[..n], table, op);
      DistinctIdsSnoc(ops[..n], op);
      table := table[op.id := op];
    }
    assert ops[..|ops|] == ops;
    ExtendsKeepsValid(s, ops, table);
    return Some(s.(ops := table));
  }

  function Lookup(ops: map<string, Operation>, id: string): Option<Operation> {
    if id in ops then Some(ops[id]) else None
  }

  method Get(s: OperationSet, id: string) returns (r: Option<Operation>)
    ensures r == Lookup(s.ops, id)
  {
    if id !in s.ops {
      return None;
    }
    return Some(s.ops[id]);
  }

  /** A lookup finds every operation that was added, and under any other id what was there before. */
  lemma LookupFindsAdded(base: map<string, Operation>, ops: seq<Operation>, table: map<string, Operation>, id: string)
    requires Extends(base, ops, table)
    ensures forall op :: op in ops ==> Lookup(table, op.id) == Some(op)
    ensures (forall op :: op in ops ==> op.id != id) ==> Lookup(table, id) == Lookup(base, id)
  {
    forall op | op in ops
      ensures Lookup(table, op.id) == Some(op)
    {
      var i :| 0 <= i < |ops| && ops[i] == op;
    }
  }

  function IdOf(op: Operation): string { op.id }

  /** Operations stored under their own id. */
  ghost predicate KeyedById(ops: map<string, Operation>) {
    forall id :: id in ops ==> ops[id].id == id
  }

  lemma NewSetKeyedById(ops: seq<Operation>, table: map<string, Operation>)
    requires Extends(map[], ops, table)
    ensures KeyedById(table)
  {
  }

  method Operations(s: OperationSet) returns (list: seq<Operation>)
    requires KeyedById(s.ops)
    ensures StrictlySorted(Map(IdOf, list))
    ensures forall op :: op in list <==> op.id in s.ops && s.ops[op.id] == op
  {
    var found: seq<Operation> := [];
    var todo := s.ops.Keys;
    while todo != {}
      invariant todo <= s.ops.Keys
      invariant forall op :: op in found <==> op.id in s.ops.Keys - todo && s.ops[op.id] == op
      invariant DistinctIds(found)
      decreases todo
    {
      var id :| id in todo;
      todo := todo - {id};
      found := found + [s.ops[id]];
    }
    list := SortSlice(found, IdOf);
    SortDistinct(found, list, IdOf);
    assert forall op :: op in list <==> op in multiset(list);
    assert forall op :: op in found <==> op in multiset(found);
  }
}
