/**
 What the sweep does when clock readings are not in lock order: Allow reads the clock before it
 takes the mutex (ratelimit/ratelimit.go), so a later call may carry an earlier reading.
 */
module RateLimitSkew {
  import opened Wrappers
  import opened Sorting
  import opened RateLimit

  function NowOf(c: Call): int { c.now }

  /** Clock readings of calls in lock order. */
  function Clock(calls: seq<Call>): seq<int> {
    Map(NowOf, calls)
  }

  /** Time of the latest sweep. */
  function LastSweep(window: int, start: int, times: seq<int>): int {
    if times == [] then start
    else
      var before, now := LastSweep(window, start, times[..|times| - 1]), times[|times| - 1];
      if now - before >= window then now else before
  }

  /** Call j sweeps; which calls do depends on the clock readings alone. */
  predicate Sweeps(window: int, start: int, times: seq<int>, j: nat)
    requires j < |times|
  {
    times[j] - LastSweep(window, start, times[..j]) >= window
  }

  /** The sweep of call j removes a window opened at call i that would still bind call k. */
  predicate Harms(window: int, start: int, times: seq<int>, i: nat, j: nat, k: nat) {
    && i < j < k < |times| && Sweeps(window, start, times, j)
    && times[j] - times[i] >= window && times[k] - times[i] < window
  }

  ghost predicate SomeHarm(window: int, start: int, times: seq<int>) {
    exists i: nat, j: nat, k: nat :: Harms(window, start, times, i, j, k)
  }

  /** For some limit and some keys at these readings, the sweep changes an answer. */
  ghost predicate Observable(window: int, start: int, times: seq<int>) {
    exists limit, calls, k: nat :: Differs(Config(limit, window), start, times, calls, k)
  }

  ghost predicate Differs(cfg: Config, start: int, times: seq<int>, calls: seq<Call>, k: nat) {
    && cfg.Valid() && Clock(calls) == times && k < |calls|
    && Answer(cfg, start, calls, k) != PlainAnswer(cfg, calls, k)
  }

  lemma ClockPrefix(calls: seq<Call>, n: nat)
    requires n <= |calls|
    ensures Clock(calls[..n]) == Clock(calls)[..n]
  {
  }

  lemma {:induction false} LastSweepOfRun(cfg: Config, start: int, calls: seq<Call>)
    ensures Run(cfg, start, calls).lastSweep == LastSweep(cfg.window, start, Clock(calls))
  {
    if calls != [] {
      LastSweepOfRun(cfg, start, calls[..|calls| - 1]);
      ClockPrefix(calls, |calls| - 1);
    }
  }

  // ---- without harm the sweep is unobservable ----

  /** A window opened at time s was removed by some sweep so far. */
  ghost predicate Dropped(window: int, start: int, times: seq<int>, s: int) {
    exists i: nat, j: nat :: DroppedBy(window, start, times, s, i, j)
  }

  ghost predicate DroppedBy(window: int, start: int, times: seq<int>, s: int, i: nat, j: nat) {
    i < j < |times| && times[i] == s && Sweeps(window, start, times, j) && times[j] - s >= window
  }

  /** The two tables agree, but for windows that some sweep removed. */
  ghost predicate SweptApart(cfg: Config, start: int, times: seq<int>, swept: map<string, Window>, plain: map<string, Window>) {
    && (forall key :: key in swept ==> key in plain && swept[key] == plain[key])
    && (forall key :: key in plain ==> plain[key].start in times)
    && (forall key :: key in plain && key !in swept ==> Dropped(cfg.window, start, times, plain[key].start))
  }

  lemma DroppedStays(window: int, start: int, times: seq<int>, t: int, s: int)
    requires Dropped(window, start, times, s)
    ensures Dropped(window, start, times + [t], s)
  {
    var i: nat, j: nat :| DroppedBy(window, start, times, s, i, j);
    assert (times + [t])[..j] == times[..j];
    assert DroppedBy(window, start, times + [t], s, i, j);
  }

  lemma DroppedNow(window: int, start: int, times: seq<int>, t: int, s: int)
    requires s in times && t - s >= window && t - LastSweep(window, start, times) >= window
    ensures Dropped(window, start, times + [t], s)
  {
    var i: nat :| i < |times| && times[i] == s;
    assert (times + [t])[..|times|] == times;
    assert DroppedBy(window, start, times + [t], s, i, |times|);
  }

  /** A window that was dropped binds no later call, unless that is harm. */
  lemma DroppedHasExpired(window: int, start: int, times: seq<int>, t: int, s: int)
    requires !SomeHarm(window, start, times + [t]) && Dropped(window, start, times, s)
    ensures t - s >= window
  {
    var i: nat, j: nat :| DroppedBy(window, start, times, s, i, j);
    var more := times + [t];
    assert more[..j] == times[..j];
    assert !Harms(window, start, more, i, j, |times|);
  }

  /** What one call sees of its own key. */
  lemma SameAnswer(cfg: Config, start: int, times: seq<int>, st: State, plain: map<string, Window>, key: string, t: int)
    requires cfg.Valid() && SweptApart(cfg, start, times, st.windows, plain)
    requires !SomeHarm(cfg.window, start, times + [t])
    ensures KeyStep(cfg, Lookup(Sweep(cfg, st, t).windows, key), t) == KeyStep(cfg, Lookup(plain, key), t)
  {
    if key in plain && key !in st.windows {
      DroppedHasExpired(cfg.window, start, times, t, plain[key].start);
    }
  }

  lemma SweptStep(cfg: Config, start: int, times: seq<int>, st: State, plain: map<string, Window>, key: string, t: int)
    requires cfg.Valid() && SweptApart(cfg, start, times, st.windows, plain)
    requires st.lastSweep == LastSweep(cfg.window, start, times)
    requires !SomeHarm(cfg.window, start, times + [t])
    ensures SweptApart(cfg, start, times + [t], Step(cfg, st, key, t).0.windows,
                       plain[key := KeyStep(cfg, Lookup(plain, key), t).0])
  {
    SameAnswer(cfg, start, times, st, plain, key, t);
    var swept := Sweep(cfg, st, t).windows;
    var more := times + [t];
    assert t == more[|times|] && forall x :: x in times ==> x in more;
    forall k | k in plain && k !in swept
      ensures Dropped(cfg.window, start, more, plain[k].start)
    {
      if k in st.windows {
        DroppedNow(cfg.window, start, times, t, plain[k].start);
      } else {
        DroppedStays(cfg.window, start, times, t, plain[k].start);
      }
    }
  }

  lemma PrefixHarmless(window: int, start: int, times: seq<int>, n: nat)
    requires n <= |times| && !SomeHarm(window, start, times)
    ensures !SomeHarm(window, start, times[..n])
  {
    forall i: nat, j: nat, k: nat | Harms(window, start, times[..n], i, j, k)
      ensures Harms(window, start, times, i, j, k)
    {
      assert times[..n][..j] == times[..j];
    }
  }

  lemma {:induction false} RunIsSweptApart(cfg: Config, start: int, calls: seq<Call>)
    requires cfg.Valid() && !SomeHarm(cfg.window, start, Clock(calls))
    ensures SweptApart(cfg, start, Clock(calls), Run(cfg, start, calls).windows, PlainRun(cfg, calls))
  {
    if calls != [] {
      var n := |calls| - 1;
      var init, last := calls[..n], calls[n];
      ClockPrefix(calls, n);
      PrefixHarmless(cfg.window, start, Clock(calls), n);
      RunIsSweptApart(cfg, start, init);
      LastSweepOfRun(cfg, start, init);
      assert Clock(calls) == Clock(init) + [last.now];
      SweptStep(cfg, start, Clock(init), Run(cfg, start, init), PlainRun(cfg, init), last.key, last.now);
    }
  }

  lemma HarmlessIsUnobservable(cfg: Config, start: int, calls: seq<Call>, k: nat)
    requires cfg.Valid() && k < |calls| && !SomeHarm(cfg.window, start, Clock(calls))
    ensures Answer(cfg, start, calls, k) == PlainAnswer(cfg, calls, k)
  {
    PrefixHarmless(cfg.window, start, Clock(calls), k);
    PrefixHarmless(cfg.window, start, Clock(calls), k + 1);
    ClockPrefix(calls, k);
    assert Clock(calls)[..k + 1] == Clock(calls)[..k] + [calls[k].now];
    RunIsSweptApart(cfg, start, calls[..k]);
    SameAnswer(cfg, start, Clock(calls[..k]), Run(cfg, start, calls[..k]), PlainRun(cfg, calls[..k]), calls[k].key, calls[k].now);
  }

  // ---- harm is observable ----

  /** One key at calls i and k, another at all others. */
  function TwoKeys(times: seq<int>, i: nat, k: nat): seq<Call> {
    seq(|times|, m requires 0 <= m < |times| => Call(if m == i || m == k then "a" else "b", times[m]))
  }

  lemma {:induction false} PlainKeepsWindow(cfg: Config, times: seq<int>, i: nat, k: nat, m: nat)
    requires cfg.limit == 1 && i < k < |times| && m <= k
    ensures Lookup(PlainRun(cfg, TwoKeys(times, i, k)[..m]), "a") == if m <= i then None else Some(Window(times[i], 1))
  {
    if m > 0 {
      PlainKeepsWindow(cfg, times, i, k, m - 1);
      assert TwoKeys(times, i, k)[..m][..m - 1] == TwoKeys(times, i, k)[..m - 1];
    }
  }

  lemma {:induction false} SweepDropsWindow(cfg: Config, start: int, times: seq<int>, i: nat, j: nat, k: nat, m: nat)
    requires cfg.limit == 1 && Harms(cfg.window, start, times, i, j, k) && m <= k
    ensures var w := Lookup(Run(cfg, start, TwoKeys(times, i, k)[..m]).windows, "a");
            if m <= i || m > j then w == None else w == None || w == Some(Window(times[i], 1))
  {
    if m > 0 {
      var calls := TwoKeys(times, i, k);
      var before := calls[..m - 1];
      SweepDropsWindow(cfg, start, times, i, j, k, m - 1);
      assert calls[..m][..m - 1] == before;
      LastSweepOfRun(cfg, start, before);
      assert Clock(before) == times[..m - 1];
    }
  }

  lemma HarmIsObservable(window: int, start: int, times: seq<int>, i: nat, j: nat, k: nat)
    requires window > 0 && Harms(window, start, times, i, j, k)
    ensures Observable(window, start, times)
  {
    var cfg, calls := Config(1, window), TwoKeys(times, i, k);
    PlainKeepsWindow(cfg, times, i, k, k);
    SweepDropsWindow(cfg, start, times, i, j, k, k);
    assert Clock(calls) == times;
    assert Answer(cfg, start, calls, k).ok && !PlainAnswer(cfg, calls, k).ok;
    assert Differs(cfg, start, times, calls, k);
  }

  // ---- the exact condition ----

  /**
   Readings let a sweep change some answer, for some limit and keys, exactly when a call that sweeps
   lies between one it is a window ahead of and a later one that is not.
   */
  lemma SweepIsObservableExactly(window: int, start: int, times: seq<int>)
    requires window > 0
    ensures Observable(window, start, times) <==> SomeHarm(window, start, times)
  {
    if SomeHarm(window, start, times) {
      var i: nat, j: nat, k: nat :| Harms(window, start, times, i, j, k);
      HarmIsObservable(window, start, times, i, j, k);
    }
    if Observable(window, start, times) {
      var limit, calls, k: nat :| Differs(Config(limit, window), start, times, calls, k);
      if !SomeHarm(window, start, times) {
        HarmlessIsUnobservable(Config(limit, window), start, calls, k);
        assert false;
      }
    }
  }

  /** Readings in lock order do no harm. */
  lemma OrderedClockIsHarmless(window: int, start: int, times: seq<int>)
    requires NonDecreasing(times)
    ensures !SomeHarm(window, start, times)
  {
  }
}
