/** Reads of the JWKS cache never go back in time (authn/jwt/jwks.go). */
module JwksMonotone {
  import opened Wrappers
  import opened Jwks

  /** keys were stored by store number n - 1 or later. */
  ghost predicate StoredSince(s: State, n: nat, keys: KeySet) {
    exists m: nat :: n - 1 <= m < |s.stores| && s.stores[m].keys == keys
  }

  ghost predicate AnswersSince(s: State, pc: Pc, n: nat) {
    pc.HasAnswer() && pc.answer.Keys? ==> StoredSince(s, n, pc.answer.keys)
  }

  lemma LastStoreIsSince(interval: int, s: State, n: nat)
    requires HistoryMatches(interval, s) && s.keys != map[] && n <= |s.stores|
    ensures StoredSince(s, n, s.keys)
  {
    assert s.stores[|s.stores| - 1].keys == s.keys;
  }

  lemma SinceStays(s: State, s': State, pc: Pc, n: nat)
    requires s.stores <= s'.stores && AnswersSince(s, pc, n)
    ensures AnswersSince(s', pc, n)
  {
    if pc.HasAnswer() && pc.answer.Keys? {
      var m: nat :| n - 1 <= m < |s.stores| && s.stores[m].keys == pc.answer.keys;
      assert s'.stores[m] == s.stores[m];
    }
  }

  /** The step of a thread that reads or writes the cache. */
  lemma OwnStepIsSince(interval: int, s: State, t: Tid, n: nat)
    requires Inv(interval, s) && t < |s.threads| && ThreadStep(interval, s, t).Some?
    requires n <= |s.stores| && AnswersSince(s, s.threads[t], n)
    ensures var s' := ThreadStep(interval, s, t).value; AnswersSince(s', s'.threads[t], n)
  {
    var s' := ThreadStep(interval, s, t).value;
    match s.threads[t]
    case InFast | InCheck | InFallback =>
      if s.keys != map[] { LastStoreIsSince(interval, s, n); }
    case InStore(k) =>
      assert s'.stores[|s.stores|].keys == k;
    case _ =>
  }

  lemma NextIsSince(interval: int, s: State, a: Action, t: Tid, n: nat)
    requires Inv(interval, s) && Apply(interval, s, a).Some? && t < |s.threads|
    requires n <= |s.stores| && AnswersSince(s, s.threads[t], n)
    ensures var s' := Apply(interval, s, a).value;
            t < |s'.threads| && AnswersSince(s', s'.threads[t], n)
  {
    NextKeepsHistory(interval, s, a);
    if a.Tick? || a.t != t {
      OthersStay(interval, s, a, t);
      CacheChangesOnlyByStore(interval, s, a);
      SinceStays(s, Apply(interval, s, a).value, s.threads[t], n);
    } else if a.Step? {
      OwnStepIsSince(interval, s, t, n);
    }
  }

  /**
   Monotone reads: the keys answered to a call that begins when n stores have been made, fresh, fetched
   or stale, are those of store n - 1 or of a later one.
   */
  lemma {:induction false} ReadsAreMonotone(interval: int, run: seq<State>, b: nat, i: nat, t: Tid)
    requires IsRun(interval, run) && b <= i < |run| && t < |run[b].threads| && !run[b].threads[t].HasAnswer()
    ensures t < |run[i].threads| && AnswersSince(run[i], run[i].threads[t], |run[b].stores|)
  {
    if b < i {
      ReadsAreMonotone(interval, run, b, i - 1, t);
      HistoryGrows(interval, run, b, i - 1);
      RunIsSince(interval, run, i, t, |run[b].stores|);
    }
  }

  lemma RunIsSince(interval: int, run: seq<State>, i: nat, t: Tid, n: nat)
    requires IsRun(interval, run) && 0 < i < |run| && t < |run[i - 1].threads|
    requires n <= |run[i - 1].stores| && AnswersSince(run[i - 1], run[i - 1].threads[t], n)
    ensures t < |run[i].threads| && AnswersSince(run[i], run[i].threads[t], n)
  {
    RunStep(interval, run, i);
    var a :| Apply(interval, run[i - 1], a) == Some(run[i]);
    NextIsSince(interval, run[i - 1], a, t, n);
  }

  /** So two calls one after the other never see an older key set second. */
  lemma LaterCallsReadLaterStores(interval: int, run: seq<State>, i: nat, j: nat, k: nat, t: Tid, u: Tid)
    returns (m: nat, n: nat)
    requires IsRun(interval, run) && i <= j <= k < |run|
    requires t < |run[i].threads| && run[i].threads[t].Done? && run[i].threads[t].answer.Keys?
    requires u < |run[j].threads| && !run[j].threads[u].HasAnswer()
    requires u < |run[k].threads| && run[k].threads[u].Done? && run[k].threads[u].answer.Keys?
    ensures m <= n < |run[k].stores|
    ensures run[k].stores[m].keys == run[i].threads[t].answer.keys
    ensures run[k].stores[n].keys == run[k].threads[u].answer.keys
  {
    assert !run[0].threads[t].HasAnswer() by { HistoryGrows(interval, run, 0, i); }
    ReadsAreMonotone(interval, run, 0, i, t);
    ReadsAreMonotone(interval, run, j, k, u);
    m :| 0 <= m < |run[i].stores| && run[i].stores[m].keys == run[i].threads[t].answer.keys;
    n :| |run[j].stores| - 1 <= n < |run[k].stores| && run[k].stores[n].keys == run[k].threads[u].answer.keys;
    HistoryGrows(interval, run, i, j);
    HistoryGrows(interval, run, j, k);
  }
}
