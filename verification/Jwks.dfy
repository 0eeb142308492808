/**
 The key-set cache of authn/jwt/jwks.go: keysCached as it runs alone (class Cache), and
 as a transition system of any number of threads that call it concurrently.

 mu guards keys and fetchedAt; refreshMu serialises fetches. A critical section under mu
 is entered by one step and left by the next. The network fetch is a step with a free
 outcome: a failure, or any non-empty key set.
 */
module Jwks {
  import opened Wrappers

  type KeySet = map<string, string>

  predicate IsFresh(interval: int, keys: KeySet, fetchedAt: int, now: int) {
    keys != map[] && now - fetchedAt < interval
  }

  // ---- one call on its own ----

  datatype Sequential = Sequential(keys: KeySet, fetchedAt: int, answer: Option<KeySet>)

  /**
   A call that is not interleaved with others: the clock is read at check1, check2 and stored;
   fetched is the outcome of the fetch if one is made.
   */
  function SequentialCall(interval: int, keys: KeySet, fetchedAt: int,
                          check1: int, check2: int, fetched: Option<KeySet>, stored: int): Sequential {
    if IsFresh(interval, keys, fetchedAt, check1) then Sequential(keys, fetchedAt, Some(keys))
    else if IsFresh(interval, keys, fetchedAt, check2) then Sequential(keys, fetchedAt, Some(keys))
    else match fetched
      case None => Sequential(keys, fetchedAt, if keys != map[] then Some(keys) else None)
      case Some(k) => Sequential(k, stored, Some(k))
  }

  class Cache {
    const interval: int
    var keys: KeySet
    var fetchedAt: int

    constructor (interval: int)
      ensures this.interval == interval && keys == map[]
    {
      this.interval := interval;
      keys := map[];
      fetchedAt := 0;
    }

    method FreshKeys(now: int) returns (r: Option<KeySet>)
      ensures r == if IsFresh(interval, keys, fetchedAt, now) then Some(keys) else None
    {
      if keys != map[] && now - fetchedAt < interval {
        return Some(keys);
      }
      return None;
    }

    method CachedKeys() returns (r: Option<KeySet>)
      ensures r == if keys != map[] then Some(keys) else None
    {
      if keys != map[] {
        return Some(keys);
      }
      return None;
    }

    method KeysCached(check1: int, check2: int, fetched: Option<KeySet>, stored: int) returns (r: Option<KeySet>)
      modifies this
      ensures Sequential(keys, fetchedAt, r)
           == SequentialCall(interval, old(keys), old(fetchedAt), check1, check2, fetched, stored)
    {
      var fast := FreshKeys(check1);
      if fast.Some? {
        return fast;
      }
      var again := FreshKeys(check2);
      if again.Some? {
        return again;
      }
      if fetched.None? {
        r := CachedKeys();
        return;
      }
      keys := fetched.value;
      fetchedAt := stored;
      return Some(fetched.value);
    }
  }

  // ---- the transition system ----

  type Tid = nat

  /** How a returned key set was obtained; checked is the clock at the freshness check. */
  datatype Source = Fresh(checked: int) | Fetched | Stale

  datatype Answer = Keys(keys: KeySet, source: Source) | Error

  /** Where a thread is in keysCached. Want*: about to lock mu. In*: holds mu. */
  datatype Pc =
    | Idle
    | WantFast | InFast
    | WantRefresh
    | WantCheck | InCheck
    | Fetching
    | WantFallback | InFallback
    | WantStore(pending: KeySet) | InStore(pending: KeySet)
    | Releasing(answer: Answer)
    | Done(answer: Answer)
  {
    predicate HoldsMu() { InFast? || InCheck? || InFallback? || InStore? }

    predicate HoldsRefresh() {
      WantCheck? || InCheck? || Fetching? || WantFallback? || InFallback? || WantStore? || InStore? || Releasing?
    }

    /** Found the cache stale under refreshMu and has not finished acting on it. */
    predicate Refreshing() {
      Fetching? || WantFallback? || InFallback? || WantStore? || InStore?
    }

    predicate HasAnswer() { Releasing? || Done? }

    predicate Settled() { Idle? || Done? }
  }

  datatype Store = Store(keys: KeySet, time: int)

  /** stores and fetched are history: every store made, and every key set a fetch produced. */
  datatype State = State(
    keys: KeySet, fetchedAt: int, clock: int,
    mu: Option<Tid>, refreshMu: Option<Tid>,
    threads: seq<Pc>,
    stores: seq<Store>, fetched: set<KeySet>)

  datatype Action =
    | Tick(elapsed: nat)
    | Begin(t: Tid)
    | Step(t: Tid)
    | FetchOk(t: Tid, result: KeySet)
    | FetchFailed(t: Tid)
    | Collect(t: Tid)

  ghost predicate Init(s: State) {
    && s.keys == map[] && s.mu == None && s.refreshMu == None
    && s.stores == [] && s.fetched == {}
    && forall t :: 0 <= t < |s.threads| ==> s.threads[t] == Idle
  }

  function At(s: State, t: Tid, pc: Pc): State
    requires t < |s.threads|
  {
    s.(threads := s.threads[t := pc])
  }

  function LockMu(s: State, t: Tid, pc: Pc): Option<State>
    requires t < |s.threads|
  {
    if s.mu == None then Some(At(s, t, pc).(mu := Some(t))) else None
  }

  function UnlockMu(s: State, t: Tid, pc: Pc): Option<State>
    requires t < |s.threads|
  {
    Some(At(s, t, pc).(mu := None))
  }

  /** The next step of thread t, when it has one and is not blocked. */
  function ThreadStep(interval: int, s: State, t: Tid): Option<State>
    requires t < |s.threads|
  {
    match s.threads[t]
    case WantFast => LockMu(s, t, InFast)
    case InFast =>
      UnlockMu(s, t, if IsFresh(interval, s.keys, s.fetchedAt, s.clock) then Done(Keys(s.keys, Fresh(s.clock))) else WantRefresh)
    case WantRefresh =>
      if s.refreshMu == None then Some(At(s, t, WantCheck).(refreshMu := Some(t))) else None
    case WantCheck => LockMu(s, t, InCheck)
    case InCheck =>
      UnlockMu(s, t, if IsFresh(interval, s.keys, s.fetchedAt, s.clock) then Releasing(Keys(s.keys, Fresh(s.clock))) else Fetching)
    case WantFallback => LockMu(s, t, InFallback)
    case InFallback =>
      UnlockMu(s, t, Releasing(if s.keys != map[] then Keys(s.keys, Stale) else Error))
    case WantStore(k) => LockMu(s, t, InStore(k))
    case InStore(k) =>
      UnlockMu(s.(keys := k, fetchedAt := s.clock, stores := s.stores + [Store(k, s.clock)]), t, Releasing(Keys(k, Fetched)))
    case Releasing(a) => Some(At(s, t, Done(a)).(refreshMu := None))
    case _ => None
  }

  function Apply(interval: int, s: State, a: Action): Option<State> {
    match a
    case Tick(d) => Some(s.(clock := s.clock + d))
    case Begin(t) => if t < |s.threads| && s.threads[t] == Idle then Some(At(s, t, WantFast)) else None
    case Step(t) => if t < |s.threads| then ThreadStep(interval, s, t) else None
    case FetchOk(t, k) =>
      if t < |s.threads| && s.threads[t] == Fetching && k != map[]
      then Some(At(s, t, WantStore(k)).(fetched := s.fetched + {k})) else None
    case FetchFailed(t) =>
      if t < |s.threads| && s.threads[t] == Fetching then Some(At(s, t, WantFallback)) else None
    case Collect(t) =>
      if t < |s.threads| && s.threads[t].Done? then Some(At(s, t, Idle)) else None
  }

  ghost predicate Next(interval: int, s: State, s': State) {
    exists a :: Apply(interval, s, a) == Some(s')
  }

  /** A run: starts empty, and each state follows from the one before by some action. */
  ghost predicate IsRun(interval: int, run: seq<State>) {
    && |run| > 0 && Init(run[0])
    && forall i :: 0 <= i < |run| - 1 ==> Next(interval, run[i], run[i + 1])
  }

  // ---- the invariant ----

  ghost predicate LocksMatch(s: State) {
    && (forall t :: 0 <= t < |s.threads| ==> (s.threads[t].HoldsMu() <==> s.mu == Some(t)))
    && (forall t :: 0 <= t < |s.threads| ==> (s.threads[t].HoldsRefresh() <==> s.refreshMu == Some(t)))
    && (s.mu.Some? ==> s.mu.value < |s.threads|)
    && (s.refreshMu.Some? ==> s.refreshMu.value < |s.threads|)
  }

  ghost predicate Spaced(interval: int, stores: seq<Store>) {
    forall i :: 0 <= i < |stores| - 1 ==> stores[i + 1].time - stores[i].time >= interval
  }

  /** The cache holds the last store; nothing is stored but non-empty fetch results. */
  ghost predicate HistoryMatches(interval: int, s: State) {
    && (s.stores == [] <==> s.keys == map[])
    && (s.stores != [] ==> s.stores[|s.stores| - 1] == Store(s.keys, s.fetchedAt))
    && (forall i :: 0 <= i < |s.stores| ==> s.stores[i].time <= s.clock && s.stores[i].keys in s.fetched)
    && map[] !in s.fetched
    && Spaced(interval, s.stores)
  }

  ghost predicate GoodAnswer(interval: int, s: State, a: Answer) {
    a.Keys? ==>
      && a.keys in s.fetched
      && (a.source.Fresh? ==> CheckedFresh(interval, s.stores, a.keys, a.source.checked))
  }

  ghost predicate CheckedFresh(interval: int, stores: seq<Store>, keys: KeySet, checked: int) {
    exists i :: 0 <= i < |stores| && stores[i].keys == keys && stores[i].time <= checked < stores[i].time + interval
  }

  ghost predicate ThreadInv(interval: int, s: State, pc: Pc) {
    && (pc.Refreshing() ==> s.stores == [] || s.clock - s.fetchedAt >= interval)
    && (pc.WantStore? || pc.InStore? ==> pc.pending in s.fetched)
    && (pc.HasAnswer() ==> GoodAnswer(interval, s, pc.answer))
  }

  ghost predicate Inv(interval: int, s: State) {
    && LocksMatch(s)
    && HistoryMatches(interval, s)
    && forall t :: 0 <= t < |s.threads| ==> ThreadInv(interval, s, s.threads[t])
  }

  lemma AnswersStayGood(interval: int, s: State, s': State, a: Answer)
    requires GoodAnswer(interval, s, a) && s.fetched <= s'.fetched && s.stores <= s'.stores
    ensures GoodAnswer(interval, s', a)
  {
    if a.Keys? && a.source.Fresh? {
      var i :| 0 <= i < |s.stores| && s.stores[i].keys == a.keys
        && s.stores[i].time <= a.source.checked < s.stores[i].time + interval;
      assert s'.stores[i] == s.stores[i];
    }
  }

  /** The lock discipline of one move of thread t to pc. */
  ghost predicate MovesLocks(s: State, s': State, t: Tid, pc: Pc)
    requires t < |s.threads|
  {
    && s'.threads == s.threads[t := pc]
    && s'.mu == (if pc.HoldsMu() then Some(t) else if s.threads[t].HoldsMu() then None else s.mu)
    && (pc.HoldsMu() ==> s.mu == None)
    && s'.refreshMu == (if pc.HoldsRefresh() then Some(t) else if s.threads[t].HoldsRefresh() then None else s.refreshMu)
    && (pc.HoldsRefresh() && !s.threads[t].HoldsRefresh() ==> s.refreshMu == None)
  }

  lemma MoveKeepsLocks(s: State, s': State, t: Tid, pc: Pc)
    requires LocksMatch(s) && t < |s.threads| && MovesLocks(s, s', t, pc)
    ensures LocksMatch(s')
  {
  }

  lemma ActionMovesLocks(interval: int, s: State, a: Action)
    requires LocksMatch(s) && Apply(interval, s, a).Some? && !a.Tick?
    ensures a.t < |s.threads|
    ensures MovesLocks(s, Apply(interval, s, a).value, a.t, Apply(interval, s, a).value.threads[a.t])
  {
  }

  lemma NextKeepsLocks(interval: int, s: State, a: Action)
    requires LocksMatch(s) && Apply(interval, s, a).Some?
    ensures LocksMatch(Apply(interval, s, a).value)
  {
    if !a.Tick? {
      var s' := Apply(interval, s, a).value;
      ActionMovesLocks(interval, s, a);
      MoveKeepsLocks(s, s', a.t, s'.threads[a.t]);
    }
  }

  lemma NextKeepsHistory(interval: int, s: State, a: Action)
    requires Inv(interval, s) && Apply(interval, s, a).Some?
    ensures var s' := Apply(interval, s, a).value;
            HistoryMatches(interval, s') && s.fetched <= s'.fetched && s.stores <= s'.stores
  {
    var s' := Apply(interval, s, a).value;
    if a.Step? && s.threads[a.t].InStore? {
      assert ThreadInv(interval, s, s.threads[a.t]);
      var n := |s.stores|;
      forall i | 0 <= i < n
        ensures s'.stores[i + 1].time - s'.stores[i].time >= interval
      {
        if i < n - 1 { assert s'.stores[i + 1] == s.stores[i + 1]; }
      }
    }
  }

  /** An action moves one thread only. */
  lemma OthersStay(interval: int, s: State, a: Action, t: Tid)
    requires Apply(interval, s, a).Some? && t < |s.threads| && (a.Tick? || t != a.t)
    ensures Apply(interval, s, a).value.threads[t] == s.threads[t]
  {
  }

  /** What an action does to the cache itself. */
  lemma CacheChangesOnlyByStore(interval: int, s: State, a: Action)
    requires Apply(interval, s, a).Some?
    ensures var s' := Apply(interval, s, a).value;
            && |s'.threads| == |s.threads| && s'.clock >= s.clock
            && (!(a.Step? && a.t < |s.threads| && s.threads[a.t].InStore?) ==>
                  s'.keys == s.keys && s'.fetchedAt == s.fetchedAt && s'.stores == s.stores)
  {
  }

  lemma OtherThreadKept(interval: int, s: State, a: Action, t: Tid)
    requires Inv(interval, s) && Apply(interval, s, a).Some? && t < |s.threads| && (a.Tick? || t != a.t)
    ensures var s' := Apply(interval, s, a).value;
            t < |s'.threads| && ThreadInv(interval, s', s'.threads[t])
  {
    var s' := Apply(interval, s, a).value;
    NextKeepsHistory(interval, s, a);
    OthersStay(interval, s, a, t);
    CacheChangesOnlyByStore(interval, s, a);
    var pc := s.threads[t];
    assert ThreadInv(interval, s, pc);
    if pc.HasAnswer() {
      AnswersStayGood(interval, s, s', pc.answer);
    }
    if pc.Refreshing() && a.Step? && s.threads[a.t].InStore? {
      assert false;
    }
  }

  /** A freshness check that succeeds vouches for the last store. */
  lemma FreshCheckIsGood(interval: int, s: State)
    requires Inv(interval, s) && IsFresh(interval, s.keys, s.fetchedAt, s.clock)
    ensures GoodAnswer(interval, s, Keys(s.keys, Fresh(s.clock)))
  {
    var n := |s.stores| - 1;
    assert s.stores[n] == Store(s.keys, s.fetchedAt);
  }

  lemma FreshAnswerStaysGood(interval: int, s: State, s': State)
    requires Inv(interval, s) && s.fetched <= s'.fetched && s.stores <= s'.stores
    ensures IsFresh(interval, s.keys, s.fetchedAt, s.clock) ==> GoodAnswer(interval, s', Keys(s.keys, Fresh(s.clock)))
  {
    if IsFresh(interval, s.keys, s.fetchedAt, s.clock) {
      FreshCheckIsGood(interval, s);
      AnswersStayGood(interval, s, s', Keys(s.keys, Fresh(s.clock)));
    }
  }

  lemma MovedThreadKept(interval: int, s: State, a: Action)
    requires Inv(interval, s) && Apply(interval, s, a).Some? && !a.Tick? && a.t < |s.threads|
    ensures var s' := Apply(interval, s, a).value;
            a.t < |s'.threads| && ThreadInv(interval, s', s'.threads[a.t])
  {
    var s' := Apply(interval, s, a).value;
    var pc := s.threads[a.t];
    assert ThreadInv(interval, s, pc);
    NextKeepsHistory(interval, s, a);
    if a.Step? {
      match pc
      case InFast | InCheck =>
        FreshAnswerStaysGood(interval, s, s');
      case InFallback =>
        if s.keys != map[] { assert s.stores[|s.stores| - 1] == Store(s.keys, s.fetchedAt); }
      case Releasing(answer) => AnswersStayGood(interval, s, s', answer);
      case _ =>
    }
  }

  lemma NextKeepsInv(interval: int, s: State, s': State)
    requires Inv(interval, s) && Next(interval, s, s')
    ensures Inv(interval, s')
    ensures s.fetched <= s'.fetched && s.stores <= s'.stores && |s'.threads| == |s.threads|
  {
    var a :| Apply(interval, s, a) == Some(s');
    NextKeepsLocks(interval, s, a);
    NextKeepsHistory(interval, s, a);
    CacheChangesOnlyByStore(interval, s, a);
    forall t | 0 <= t < |s'.threads|
      ensures ThreadInv(interval, s', s'.threads[t])
    {
      if a.Tick? || t != a.t { OtherThreadKept(interval, s, a, t); } else { MovedThreadKept(interval, s, a); }
    }
  }

  lemma {:induction false} RunKeepsInv(interval: int, run: seq<State>, i: nat)
    requires IsRun(interval, run) && i < |run|
    ensures Inv(interval, run[i])
  {
    if i > 0 {
      RunKeepsInv(interval, run, i - 1);
      assert Next(interval, run[i - 1], run[i - 1 + 1]);
      NextKeepsInv(interval, run[i - 1], run[i]);
    }
  }

  // ---- safety over all interleavings ----

  /** At most one fetch is in flight. */
  lemma AtMostOneFetch(interval: int, run: seq<State>, i: nat, t1: Tid, t2: Tid)
    requires IsRun(interval, run) && i < |run|
    requires t1 < |run[i].threads| && t2 < |run[i].threads|
    requires run[i].threads[t1].Fetching? && run[i].threads[t2].Fetching?
    ensures t1 == t2
  {
    RunKeepsInv(interval, run, i);
    assert run[i].threads[t1].HoldsRefresh() && run[i].threads[t2].HoldsRefresh();
  }

  lemma {:induction false} SpacedSpan(interval: int, stores: seq<Store>, i: nat, j: nat)
    requires Spaced(interval, stores) && i <= j < |stores|
    ensures stores[j].time - stores[i].time >= (j - i) * interval
  {
    if i < j {
      SpacedSpan(interval, stores, i, j - 1);
      assert stores[j - 1 + 1].time - stores[j - 1].time >= interval;
      assert (j - i) * interval == (j - 1 - i) * interval + interval;
    }
  }

  /** Stores i and j of a run are at least (j - i) refresh intervals apart. */
  lemma StoresAreSpaced(interval: int, run: seq<State>, n: nat, i: nat, j: nat)
    requires IsRun(interval, run) && n < |run| && i <= j < |run[n].stores|
    ensures run[n].stores[j].time - run[n].stores[i].time >= (j - i) * interval
  {
    RunKeepsInv(interval, run, n);
    SpacedSpan(interval, run[n].stores, i, j);
  }

  /** History only grows along a run. */
  lemma {:induction false} HistoryGrows(interval: int, run: seq<State>, i: nat, j: nat)
    requires IsRun(interval, run) && i <= j < |run|
    ensures run[i].stores <= run[j].stores && run[i].fetched <= run[j].fetched
    ensures |run[i].threads| == |run[j].threads|
  {
    if i < j {
      HistoryGrows(interval, run, i, j - 1);
      HistoryStep(interval, run, j);
    }
  }

  lemma HistoryStep(interval: int, run: seq<State>, j: nat)
    requires IsRun(interval, run) && 0 < j < |run|
    ensures run[j - 1].stores <= run[j].stores && run[j - 1].fetched <= run[j].fetched
    ensures |run[j - 1].threads| == |run[j].threads|
  {
    RunStep(interval, run, j);
    NextKeepsInv(interval, run[j - 1], run[j]);
  }

  predicate HasError(s: State, t: Tid) {
    t < |s.threads| && s.threads[t].HasAnswer() && s.threads[t].answer.Error?
  }

  lemma ErrorsNeedEmptyCache(interval: int, s: State, s': State, t: Tid)
    requires Inv(interval, s) && Next(interval, s, s') && s.stores != []
    requires HasError(s', t)
    ensures HasError(s, t)
  {
    var a :| Apply(interval, s, a) == Some(s');
    CacheChangesOnlyByStore(interval, s, a);
    if a.Tick? || t != a.t {
      OthersStay(interval, s, a, t);
    }
  }

  lemma StoresStay(interval: int, run: seq<State>, i: nat, j: nat)
    requires IsRun(interval, run) && i <= j < |run| && run[i].stores != []
    ensures run[j].stores != []
  {
    HistoryGrows(interval, run, i, j);
  }

  lemma ErrorStep(interval: int, run: seq<State>, j: nat, t: Tid)
    requires IsRun(interval, run) && 0 < j < |run| && run[j - 1].stores != []
    requires HasError(run[j], t)
    ensures HasError(run[j - 1], t)
  {
    RunStep(interval, run, j);
    ErrorsNeedEmptyCache(interval, run[j - 1], run[j], t);
  }

  lemma RunStep(interval: int, run: seq<State>, j: nat)
    requires IsRun(interval, run) && 0 < j < |run|
    ensures Inv(interval, run[j - 1]) && Next(interval, run[j - 1], run[j])
  {
    RunKeepsInv(interval, run, j - 1);
    assert Next(interval, run[j - 1], run[j - 1 + 1]);
  }

  /** Once some fetch has been stored, no call ends in an error unless it already had. */
  lemma {:induction false} NoErrorAfterFirstStore(interval: int, run: seq<State>, i: nat, j: nat, t: Tid)
    requires IsRun(interval, run) && i <= j < |run| && run[i].stores != []
    requires HasError(run[j], t)
    ensures HasError(run[i], t)
  {
    if i < j {
      StoresStay(interval, run, i, j - 1);
      ErrorStep(interval, run, j, t);
      NoErrorAfterFirstStore(interval, run, i, j - 1, t);
    }
  }

  /**
   Every key set a caller is given came from a completed successful fetch, is not empty, and
   when returned by a freshness check was stored less than one interval before that check.
   */
  lemma AnswersComeFromFetches(interval: int, run: seq<State>, i: nat, t: Tid)
    requires IsRun(interval, run) && i < |run| && t < |run[i].threads|
    requires run[i].threads[t].Done? && run[i].threads[t].answer.Keys?
    ensures var a := run[i].threads[t].answer;
            && a.keys in run[i].fetched && a.keys != map[]
            && (a.source.Fresh? ==> CheckedFresh(interval, run[i].stores, a.keys, a.source.checked))
  {
    RunKeepsInv(interval, run, i);
    assert ThreadInv(interval, run[i], run[i].threads[t]);
  }

  // ---- progress ----

  /** A bound on the steps thread pc still takes before its call is done. */
  function Rank(pc: Pc): nat {
    match pc
    case Idle => 0
    case Done(_) => 0
    case Releasing(_) => 1
    case InStore(_) => 2
    case InFallback => 2
    case WantStore(_) => 3
    case WantFallback => 3
    case Fetching => 4
    case InCheck => 5
    case WantCheck => 6
    case WantRefresh => 7
    case InFast => 8
    case WantFast => 9
  }

  function TotalRank(threads: seq<Pc>): nat {
    if threads == [] then 0 else Rank(threads[0]) + TotalRank(threads[1..])
  }

  lemma {:induction false} TotalRankUpdate(threads: seq<Pc>, t: Tid, pc: Pc)
    requires t < |threads|
    ensures TotalRank(threads[t := pc]) == TotalRank(threads) - Rank(threads[t]) + Rank(pc)
  {
    if t == 0 {
      assert threads[0 := pc][1..] == threads[1..];
    } else {
      TotalRankUpdate(threads[1..], t - 1, pc);
      assert threads[t := pc][1..] == threads[1..][t - 1 := pc];
    }
  }

  lemma {:induction false} TotalRankZero(threads: seq<Pc>, t: Tid)
    requires t < |threads| && Rank(threads[t]) > 0
    ensures TotalRank(threads) > 0
  {
    if t > 0 { TotalRankZero(threads[1..], t - 1); }
  }

  /** Steps of the threads themselves, as opposed to the clock or new calls. */
  predicate IsThreadAction(a: Action) { a.Step? || a.FetchOk? || a.FetchFailed? }

  /** Each such step brings its call closer to the end, so a call takes at most nine of them. */
  lemma ThreadActionsProgress(interval: int, s: State, a: Action)
    requires LocksMatch(s) && IsThreadAction(a) && Apply(interval, s, a).Some?
    ensures a.t < |s.threads|
    ensures TotalRank(Apply(interval, s, a).value.threads) < TotalRank(s.threads)
  {
    ActionMovesLocks(interval, s, a);
    var pc := Apply(interval, s, a).value.threads[a.t];
    assert Rank(pc) < Rank(s.threads[a.t]);
    TotalRankUpdate(s.threads, a.t, pc);
  }

  /** No deadlock: while some call is unfinished, some thread can move. */
  lemma SomeThreadCanMove(interval: int, s: State, t: Tid) returns (a: Action)
    requires Inv(interval, s) && t < |s.threads| && !s.threads[t].Settled()
    ensures IsThreadAction(a) && Apply(interval, s, a).Some?
  {
    var who := if s.mu.Some? then s.mu.value else if s.refreshMu.Some? then s.refreshMu.value else t;
    a := if s.threads[who].Fetching? then FetchFailed(who) else Step(who);
  }

  /** The state after a list of actions, if each is enabled in turn. */
  function Exec(interval: int, s: State, acts: seq<Action>): Option<State>
    decreases acts
  {
    if acts == [] then Some(s)
    else match Apply(interval, s, acts[0])
      case None => None
      case Some(s') => Exec(interval, s', acts[1..])
  }

  ghost predicate AllSettled(s: State) {
    forall t :: 0 <= t < |s.threads| ==> s.threads[t].Settled()
  }

  /** From every reachable state, thread steps alone can finish every call. */
  lemma {:induction false} CallsCanFinish(interval: int, s: State) returns (acts: seq<Action>)
    requires Inv(interval, s)
    ensures forall i :: 0 <= i < |acts| ==> IsThreadAction(acts[i])
    ensures Exec(interval, s, acts).Some? && AllSettled(Exec(interval, s, acts).value)
    decreases TotalRank(s.threads)
  {
    if AllSettled(s) {
      return [];
    }
    var t :| 0 <= t < |s.threads| && !s.threads[t].Settled();
    var a := SomeThreadCanMove(interval, s, t);
    var s' := Apply(interval, s, a).value;
    assert Next(interval, s, s');
    NextKeepsInv(interval, s, s');
    ThreadActionsProgress(interval, s, a);
    var rest := CallsCanFinish(interval, s');
    acts := [a] + rest;
    assert acts[1..] == rest;
  }

  // ---- the method is the one-thread run ----

  lemma {:induction false} ExecAppend(interval: int, s: State, a: seq<Action>, b: seq<Action>)
    requires Exec(interval, s, a).Some?
    ensures Exec(interval, s, a + b) == Exec(interval, Exec(interval, s, a).value, b)
    decreases a
  {
    if a == [] {
      assert a + b == b;
    } else {
      assert (a + b)[1..] == a[1..] + b;
      ExecAppend(interval, Apply(interval, s, a[0]).value, a[1..], b);
    }
  }

  lemma ExecThree(interval: int, s: State, a: seq<Action>, b: seq<Action>, c: seq<Action>)
    requires Exec(interval, s, a).Some? && Exec(interval, Exec(interval, s, a).value, b).Some?
    ensures Exec(interval, s, a + (b + c)) == Exec(interval, Exec(interval, Exec(interval, s, a).value, b).value, c)
  {
    ExecAppend(interval, s, a, b + c);
    ExecAppend(interval, Exec(interval, s, a).value, b, c);
  }

  /** No call is in progress. */
  ghost predicate Quiet(s: State, t: Tid) {
    s.mu == None && s.refreshMu == None && t < |s.threads| && s.threads[t] == Idle
  }

  function FastActions(t: Tid, wait: nat): seq<Action> { [Begin(t), Step(t), Tick(wait), Step(t)] }

  function CheckActions(t: Tid, wait: nat): seq<Action> { [Step(t), Step(t), Tick(wait), Step(t)] }

  function FetchActions(t: Tid, fetched: Option<KeySet>, wait: nat): seq<Action> {
    match fetched
    case None => [FetchFailed(t), Step(t), Step(t), Step(t)]
    case Some(k) => [FetchOk(t, k), Step(t), Tick(wait), Step(t), Step(t)]
  }

  /** All actions of one uninterrupted call of thread t, clock readings as in SequentialCall. */
  function SoloCall(interval: int, s: State, t: Tid, check1: int, check2: int, fetched: Option<KeySet>, stored: int): seq<Action>
    requires s.clock <= check1 <= check2 <= stored
  {
    var rest :=
      if IsFresh(interval, s.keys, s.fetchedAt, check2) then [Step(t)]
      else FetchActions(t, fetched, stored - check2);
    var slow :=
      if IsFresh(interval, s.keys, s.fetchedAt, check1) then []
      else CheckActions(t, check2 - check1) + rest;
    FastActions(t, check1 - s.clock) + slow
  }

  lemma ExecCons(interval: int, s: State, a: Action, rest: seq<Action>)
    requires Apply(interval, s, a).Some?
    ensures Exec(interval, s, [a] + rest) == Exec(interval, Apply(interval, s, a).value, rest)
  {
    assert ([a] + rest)[1..] == rest;
  }

  lemma FastPhase(interval: int, s: State, t: Tid, check1: int)
    requires Quiet(s, t) && s.clock <= check1
    ensures Exec(interval, s, FastActions(t, check1 - s.clock)) == Some(
              At(s, t, if IsFresh(interval, s.keys, s.fetchedAt, check1) then Done(Keys(s.keys, Fresh(check1))) else WantRefresh)
                .(clock := check1))
  {
    var s1 := Apply(interval, s, Begin(t)).value;
    var s2 := Apply(interval, s1, Step(t)).value;
    var s3 := Apply(interval, s2, Tick(check1 - s.clock)).value;
    var s4 := Apply(interval, s3, Step(t)).value;
    ExecCons(interval, s, Begin(t), [Step(t), Tick(check1 - s.clock), Step(t)]);
    ExecCons(interval, s1, Step(t), [Tick(check1 - s.clock), Step(t)]);
    ExecCons(interval, s2, Tick(check1 - s.clock), [Step(t)]);
    ExecCons(interval, s3, Step(t), []);
    assert s4.threads == s.threads[t := s4.threads[t]];
  }

  lemma CheckPhase(interval: int, s: State, t: Tid, check2: int)
    requires s.mu == None && s.refreshMu == None && t < |s.threads| && s.threads[t] == WantRefresh && s.clock <= check2
    ensures Exec(interval, s, CheckActions(t, check2 - s.clock)) == Some(
              At(s, t, if IsFresh(interval, s.keys, s.fetchedAt, check2) then Releasing(Keys(s.keys, Fresh(check2))) else Fetching)
                .(clock := check2, refreshMu := Some(t)))
  {
    var s1 := Apply(interval, s, Step(t)).value;
    var s2 := Apply(interval, s1, Step(t)).value;
    var s3 := Apply(interval, s2, Tick(check2 - s.clock)).value;
    var s4 := Apply(interval, s3, Step(t)).value;
    ExecCons(interval, s, Step(t), [Step(t), Tick(check2 - s.clock), Step(t)]);
    ExecCons(interval, s1, Step(t), [Tick(check2 - s.clock), Step(t)]);
    ExecCons(interval, s2, Tick(check2 - s.clock), [Step(t)]);
    ExecCons(interval, s3, Step(t), []);
    assert s4.threads == s.threads[t := s4.threads[t]];
  }

  lemma FallbackPhase(interval: int, s: State, t: Tid)
    requires s.mu == None && s.refreshMu == Some(t) && t < |s.threads| && s.threads[t] == Fetching
    ensures Exec(interval, s, FetchActions(t, None, 0)) == Some(
              At(s, t, Done(if s.keys != map[] then Keys(s.keys, Stale) else Error)).(refreshMu := None))
  {
    var s1 := Apply(interval, s, FetchFailed(t)).value;
    var s2 := Apply(interval, s1, Step(t)).value;
    var s3 := Apply(interval, s2, Step(t)).value;
    var s4 := Apply(interval, s3, Step(t)).value;
    ExecCons(interval, s, FetchFailed(t), [Step(t), Step(t), Step(t)]);
    ExecCons(interval, s1, Step(t), [Step(t), Step(t)]);
    ExecCons(interval, s2, Step(t), [Step(t)]);
    ExecCons(interval, s3, Step(t), []);
    assert s4.threads == s.threads[t := s4.threads[t]];
  }

  lemma StorePhase(interval: int, s: State, t: Tid, k: KeySet, stored: int)
    requires s.mu == None && s.refreshMu == Some(t) && t < |s.threads| && s.threads[t] == Fetching
    requires k != map[] && s.clock <= stored
    ensures Exec(interval, s, FetchActions(t, Some(k), stored - s.clock)) == Some(
              At(s, t, Done(Keys(k, Fetched)))
                .(clock := stored, refreshMu := None, keys := k, fetchedAt := stored,
                  stores := s.stores + [Store(k, stored)], fetched := s.fetched + {k}))
  {
    var s1 := Apply(interval, s, FetchOk(t, k)).value;
    var s2 := Apply(interval, s1, Step(t)).value;
    var s3 := Apply(interval, s2, Tick(stored - s.clock)).value;
    var s4 := Apply(interval, s3, Step(t)).value;
    var s5 := Apply(interval, s4, Step(t)).value;
    ExecCons(interval, s, FetchOk(t, k), [Step(t), Tick(stored - s.clock), Step(t), Step(t)]);
    ExecCons(interval, s1, Step(t), [Tick(stored - s.clock), Step(t), Step(t)]);
    ExecCons(interval, s2, Tick(stored - s.clock), [Step(t), Step(t)]);
    ExecCons(interval, s3, Step(t), [Step(t)]);
    ExecCons(interval, s4, Step(t), []);
    assert s5.threads == s.threads[t := s5.threads[t]];
  }

  function AnswerKeys(pc: Pc): Option<KeySet>
    requires pc.Done?
  {
    if pc.answer.Keys? then Some(pc.answer.keys) else None
  }

  /** The method KeysCached is what the protocol does when one call runs uninterrupted. */
  lemma SoloCallMatchesMethod(interval: int, s: State, t: Tid, check1: int, check2: int,
                              fetched: Option<KeySet>, stored: int)
    requires Quiet(s, t) && s.clock <= check1 <= check2 <= stored && fetched != Some(map[])
    ensures var end := Exec(interval, s, SoloCall(interval, s, t, check1, check2, fetched, stored));
            && end.Some? && end.value.mu == None && end.value.refreshMu == None
            && t < |end.value.threads| && end.value.threads[t].Done?
            && Sequential(end.value.keys, end.value.fetchedAt, AnswerKeys(end.value.threads[t]))
               == SequentialCall(interval, s.keys, s.fetchedAt, check1, check2, fetched, stored)
  {
    var fast := FastActions(t, check1 - s.clock);
    FastPhase(interval, s, t, check1);
    var s1 := Exec(interval, s, fast).value;
    if IsFresh(interval, s.keys, s.fetchedAt, check1) {
      assert fast + [] == fast;
      return;
    }
    var check := CheckActions(t, check2 - check1);
    CheckPhase(interval, s1, t, check2);
    var s2 := Exec(interval, s1, check).value;
    if IsFresh(interval, s.keys, s.fetchedAt, check2) {
      ExecThree(interval, s, fast, check, [Step(t)]);
      ExecCons(interval, s2, Step(t), []);
    } else {
      ExecThree(interval, s, fast, check, FetchActions(t, fetched, stored - check2));
      match fetched
      case None => FallbackPhase(interval, s2, t);
      case Some(k) => StorePhase(interval, s2, t, k, stored);
    }
  }
}
