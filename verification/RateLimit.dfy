/**
 The fixed-window limiter of ratelimit/ratelimit.go. Times and durations are integers
 (nanoseconds); the clock reading of each call is a parameter.
 */
module RateLimit {
  import opened Wrappers
  import opened Text

  const SECOND := 1_000_000_000
  const MINUTE := 60 * SECOND

  datatype Window = Window(start: int, count: int)

  /** What Allow answers: admitted, or denied with a suggested delay. */
  datatype Verdict = Verdict(ok: bool, retryAfter: int)

  datatype Config = Config(limit: int, window: int) {
    predicate Valid() { limit > 0 && window > 0 }
  }

  // ---- one key ----

  /** Effect of a call at time now on the window of its key, if it has one. */
  function KeyStep(cfg: Config, w: Option<Window>, now: int): (Window, Verdict) {
    if w.None? || now - w.value.start >= cfg.window then (Window(now, 1), Verdict(true, 0))
    else if w.value.count >= cfg.limit then (w.value, Verdict(false, cfg.window - (now - w.value.start)))
    else (Window(w.value.start, w.value.count + 1), Verdict(true, 0))
  }

  // ---- all keys ----

  datatype State = State(windows: map<string, Window>, lastSweep: int)

  function Lookup(windows: map<string, Window>, key: string): Option<Window> {
    if key in windows then Some(windows[key]) else None
  }

  /** Expired windows go, but at most once per window length. */
  function Sweep(cfg: Config, st: State, now: int): State {
    if now - st.lastSweep < cfg.window then st
    else State(map k | k in st.windows && now - st.windows[k].start < cfg.window :: st.windows[k], now)
  }

  function Step(cfg: Config, st: State, key: string, now: int): (State, Verdict) {
    var swept := Sweep(cfg, st, now);
    var (w, v) := KeyStep(cfg, Lookup(swept.windows, key), now);
    (swept.(windows := swept.windows[key := w]), v)
  }

  class Limiter {
    const cfg: Config
    var windows: map<string, Window>
    var lastSweep: int

    ghost predicate Valid()
      reads this
    {
      cfg.Valid()
    }

    function Current(): State
      reads this
    {
      State(windows, lastSweep)
    }

    constructor (cfg: Config, now: int)
      requires cfg.Valid()
      ensures Valid() && this.cfg == cfg && Current() == State(map[], now)
    {
      this.cfg := cfg;
      windows := map[];
      lastSweep := now;
    }

    /** A non-positive limit is refused; a non-positive window means one minute. */
    static method New(limit: int, window: int, now: int) returns (r: Result<Limiter, string>)
      ensures r.Success? <==> limit > 0
      ensures r.Success? ==> fresh(r.value) && r.value.Valid() && r.value.Current() == State(map[], now)
      ensures r.Success? ==> r.value.cfg == Config(limit, if window <= 0 then MINUTE else window)
    {
      if limit <= 0 {
        return Failure("ratelimit: Limit must be > 0");
      }
      var l := new Limiter(Config(limit, if window <= 0 then MINUTE else window), now);
      return Success(l);
    }

    method Allow(key: string, now: int) returns (v: Verdict)
      requires Valid()
      modifies this
      ensures Valid()
      ensures (Current(), v) == Step(cfg, old(Current()), key, now)
    {
      SweepLocked(now);
      if key !in windows || now - windows[key].start >= cfg.window {
        windows := windows[key := Window(now, 1)];
        return Verdict(true, 0);
      }
      var w := windows[key];
      if w.count >= cfg.limit {
        assert windows[key := w] == windows;
        return Verdict(false, cfg.window - (now - w.start));
      }
      windows := windows[key := Window(w.start, w.count + 1)];
      return Verdict(true, 0);
    }

    method SweepLocked(now: int)
      requires Valid()
      modifies this
      ensures Valid()
      ensures Current() == Sweep(cfg, old(Current()), now)
    {
      if now - lastSweep < cfg.window {
        return;
      }
      lastSweep := now;
      var todo := windows.Keys;
      while todo != {}
        invariant lastSweep == now && todo <= windows.Keys
        invariant windows.Keys <= old(windows).Keys
        invariant forall k :: k in windows ==> windows[k] == old(windows)[k]
        invariant forall k :: k in windows && k !in todo ==> now - windows[k].start < cfg.window
        invariant forall k :: k in old(windows) && now - old(windows)[k].start < cfg.window ==> k in windows
        decreases todo
      {
        var k :| k in todo;
        todo := todo - {k};
        if now - windows[k].start >= cfg.window {
          windows := windows - {k};
        }
      }
    }
  }

  // ---- whole runs ----

  datatype Call = Call(key: string, now: int)

  /** Clock readings do not decrease in lock order, starting from start. */
  ghost predicate Monotone(start: int, calls: seq<Call>) {
    && (|calls| > 0 ==> start <= calls[0].now)
    && forall i, j :: 0 <= i < j < |calls| ==> calls[i].now <= calls[j].now
  }

  /** State of a limiter created at start, after all calls. */
  function Run(cfg: Config, start: int, calls: seq<Call>): State {
    if calls == [] then State(map[], start)
    else
      var last := calls[|calls| - 1];
      Step(cfg, Run(cfg, start, calls[..|calls| - 1]), last.key, last.now).0
  }

  /** The answer to call i of a run. */
  function Answer(cfg: Config, start: int, calls: seq<Call>, i: nat): Verdict
    requires i < |calls|
  {
    Step(cfg, Run(cfg, start, calls[..i]), calls[i].key, calls[i].now).1
  }

  /** Clock reading of the latest call. */
  function Latest(start: int, calls: seq<Call>): int {
    if calls == [] then start else calls[|calls| - 1].now
  }

  /** The limiter without its sweep: the specification the sweep must not change. */
  function PlainRun(cfg: Config, calls: seq<Call>): map<string, Window> {
    if calls == [] then map[]
    else
      var last := calls[|calls| - 1];
      var before := PlainRun(cfg, calls[..|calls| - 1]);
      before[last.key := KeyStep(cfg, Lookup(before, last.key), last.now).0]
  }

  function PlainAnswer(cfg: Config, calls: seq<Call>, i: nat): Verdict
    requires i < |calls|
  {
    KeyStep(cfg, Lookup(PlainRun(cfg, calls[..i]), calls[i].key), calls[i].now).1
  }

  /** The calls on one key, as clock readings. */
  function Times(calls: seq<Call>, key: string): seq<int> {
    if calls == [] then []
    else
      var last := calls[|calls| - 1];
      Times(calls[..|calls| - 1], key) + if last.key == key then [last.now] else []
  }

  /** The window of a single key after calls at these times. */
  function KeyRun(cfg: Config, times: seq<int>): Option<Window> {
    if times == [] then None
    else Some(KeyStep(cfg, KeyRun(cfg, times[..|times| - 1]), times[|times| - 1]).0)
  }

  function KeyAnswer(cfg: Config, times: seq<int>, i: nat): Verdict
    requires i < |times|
  {
    KeyStep(cfg, KeyRun(cfg, times[..i]), times[i]).1
  }

  // ---- the sweep is unobservable ----

  /** A swept table lacks only windows that have expired by now. */
  ghost predicate SweptOf(cfg: Config, swept: map<string, Window>, plain: map<string, Window>, now: int) {
    && (forall k :: k in swept ==> k in plain && swept[k] == plain[k])
    && (forall k :: k in plain && k !in swept ==> now - plain[k].start >= cfg.window)
  }

  lemma {:induction false} RunIsSwept(cfg: Config, start: int, calls: seq<Call>)
    requires cfg.Valid() && Monotone(start, calls)
    ensures SweptOf(cfg, Run(cfg, start, calls).windows, PlainRun(cfg, calls), Latest(start, calls))
  {
    if calls != [] {
      RunIsSwept(cfg, start, calls[..|calls| - 1]);
    }
  }

  /** On every run with a non-decreasing clock the limiter answers as one that never sweeps. */
  lemma SweepIsUnobservable(cfg: Config, start: int, calls: seq<Call>, i: nat)
    requires cfg.Valid() && Monotone(start, calls) && i < |calls|
    ensures Answer(cfg, start, calls, i) == PlainAnswer(cfg, calls, i)
  {
    RunIsSwept(cfg, start, calls[..i]);
  }

  lemma {:induction false} PlainRunIsPerKey(cfg: Config, calls: seq<Call>, key: string)
    ensures Lookup(PlainRun(cfg, calls), key) == KeyRun(cfg, Times(calls, key))
  {
    if calls != [] {
      var init, last := calls[..|calls| - 1], calls[|calls| - 1];
      PlainRunIsPerKey(cfg, init, key);
      if last.key == key {
        assert Times(calls, key)[..|Times(init, key)|] == Times(init, key);
      } else {
        assert Times(calls, key) == Times(init, key);
      }
    }
  }

  /** The answer to a call depends only on the earlier calls with the same key. */
  lemma AnswersArePerKey(cfg: Config, start: int, calls: seq<Call>, i: nat)
    requires cfg.Valid() && Monotone(start, calls) && i < |calls|
    ensures Answer(cfg, start, calls, i)
         == KeyStep(cfg, KeyRun(cfg, Times(calls[..i], calls[i].key)), calls[i].now).1
  {
    SweepIsUnobservable(cfg, start, calls, i);
    PlainRunIsPerKey(cfg, calls[..i], calls[i].key);
  }

  // ---- memory ----

  ghost predicate Recent(cfg: Config, st: State, now: int) {
    && 0 <= now - st.lastSweep < cfg.window
    && forall k :: k in st.windows ==> st.lastSweep - st.windows[k].start < cfg.window
  }

  lemma {:induction false} StaysRecent(cfg: Config, start: int, calls: seq<Call>)
    requires cfg.Valid() && Monotone(start, calls)
    ensures Recent(cfg, Run(cfg, start, calls), Latest(start, calls))
  {
    if calls != [] {
      var n := |calls| - 1;
      StaysRecent(cfg, start, calls[..n]);
      if n > 0 { assert calls[n - 1].now <= calls[n].now; }
    }
  }

  lemma {:induction false} WindowsAreOpenedByCalls(cfg: Config, start: int, calls: seq<Call>)
    ensures forall k :: k in Run(cfg, start, calls).windows ==> Call(k, Run(cfg, start, calls).windows[k].start) in calls
  {
    if calls != [] {
      var init, last := calls[..|calls| - 1], calls[|calls| - 1];
      WindowsAreOpenedByCalls(cfg, start, init);
      assert calls == init + [last];
      var before, after := Run(cfg, start, init), Run(cfg, start, calls);
      forall k | k in after.windows
        ensures Call(k, after.windows[k].start) in calls
      {
        if k in before.windows { assert Call(k, before.windows[k].start) in init; }
      }
    }
  }

  /** Every stored window was opened by a call on its key less than two windows ago. */
  lemma MemoryBound(cfg: Config, start: int, calls: seq<Call>, key: string)
    requires cfg.Valid() && Monotone(start, calls)
    requires key in Run(cfg, start, calls).windows
    ensures var w := Run(cfg, start, calls).windows[key];
            Call(key, w.start) in calls && Latest(start, calls) - w.start < 2 * cfg.window
  {
    StaysRecent(cfg, start, calls);
    WindowsAreOpenedByCalls(cfg, start, calls);
  }

  // ---- the burst bound ----

  function B2N(b: bool): nat { if b then 1 else 0 }

  /** Admissions among the calls at times, within [from, from + length). */
  function Admitted(cfg: Config, times: seq<int>, from: int, length: int): nat {
    if times == [] then 0
    else
      var n := |times| - 1;
      Admitted(cfg, times[..n], from, length)
      + B2N(KeyAnswer(cfg, times, n).ok && from <= times[n] < from + length)
  }

  ghost predicate NonDecreasing(times: seq<int>) {
    forall i, j :: 0 <= i < j < |times| ==> times[i] <= times[j]
  }

  /** n window lengths. */
  function Windows(cfg: Config, n: nat): int {
    if n == 0 then 0 else Windows(cfg, n - 1) + cfg.window
  }

  /** n times the limit. */
  function Limits(cfg: Config, n: nat): int {
    if n == 0 then 0 else Limits(cfg, n - 1) + cfg.limit
  }

  lemma {:induction false} Multiples(cfg: Config, n: nat)
    ensures Windows(cfg, n) == n * cfg.window && Limits(cfg, n) == n * cfg.limit
  {
    if n > 0 { Multiples(cfg, n - 1); }
  }

  lemma {:induction false} MultiplesGrow(cfg: Config, m: nat, n: nat)
    requires cfg.Valid()
    ensures Windows(cfg, m) < Windows(cfg, n) ==> m < n
    ensures m <= n ==> Limits(cfg, m) <= Limits(cfg, n) && Windows(cfg, m) <= Windows(cfg, n)
    decreases m + n
  {
    if n > m {
      MultiplesGrow(cfg, m, n - 1);
    } else if m > n {
      MultiplesGrow(cfg, n, m - 1);
    }
  }

  /**
   How many admissions an interval of n windows from a can hold while the current window opened at
   w.start: none before a is reached; at most the rest of a window that opened before a; that rest,
   k full windows opened since and the current window's count; or a total that can no longer grow.
   */
  ghost predicate BurstInvariant(cfg: Config, w: Option<Window>, last: int, a: int, n: nat, k: nat, admitted: nat) {
    match w
    case None => admitted == 0
    case Some(w) =>
      && 1 <= w.count <= cfg.limit && w.start <= last
      && (last < a ==> admitted == 0)
      && (if w.start < a then admitted <= w.count - 1
          else if w.start < a + Windows(cfg, n)
          then Windows(cfg, k) <= w.start - a && admitted <= Limits(cfg, k + 1) - 1 + w.count
          else admitted <= Limits(cfg, n + 1) - 1)
  }

  lemma {:induction false} BurstInvariantHolds(cfg: Config, times: seq<int>, a: int, n: nat) returns (k: nat)
    requires cfg.Valid() && NonDecreasing(times)
    ensures BurstInvariant(cfg, KeyRun(cfg, times), if times == [] then a else times[|times| - 1], a, n, k,
                           Admitted(cfg, times, a, Windows(cfg, n)))
  {
    k := 0;
    if times != [] {
      var m := |times| - 1;
      var last := times[m];
      var before := BurstInvariantHolds(cfg, times[..m], a, n);
      if m > 0 { assert times[m - 1] <= last; }
      k := BurstStep(cfg, KeyRun(cfg, times[..m]), if m == 0 then last else times[m - 1], last, a, n, before,
                     Admitted(cfg, times[..m], a, Windows(cfg, n)));
    }
  }

  /** One more call at time t. */
  lemma BurstStep(cfg: Config, w: Option<Window>, last: int, t: int, a: int, n: nat, before: nat, admitted: nat)
    returns (k: nat)
    requires cfg.Valid() && last <= t && BurstInvariant(cfg, w, last, a, n, before, admitted)
    ensures var (next, v) := KeyStep(cfg, w, t);
            BurstInvariant(cfg, Some(next), t, a, n, k, admitted + B2N(v.ok && a <= t < a + Windows(cfg, n)))
  {
    MultiplesGrow(cfg, before, n);
    MultiplesGrow(cfg, before + 2, n + 1);
    MultiplesGrow(cfg, 1, n + 1);
    assert Limits(cfg, before + 2) == Limits(cfg, before + 1) + cfg.limit;
    k := if w.None? || w.value.start < a then 0
         else if t - w.value.start >= cfg.window then before + 1
         else before;
  }

  /** No half-open interval of n window lengths sees more than (n + 1) * limit - 1 admissions of a key. */
  lemma BurstBound(cfg: Config, times: seq<int>, a: int, n: nat)
    requires cfg.Valid() && NonDecreasing(times)
    ensures Admitted(cfg, times, a, n * cfg.window) <= (n + 1) * cfg.limit - 1
  {
    var k := BurstInvariantHolds(cfg, times, a, n);
    Multiples(cfg, n);
    Multiples(cfg, n + 1);
    MultiplesGrow(cfg, k, n);
    MultiplesGrow(cfg, k + 2, n + 1);
    MultiplesGrow(cfg, 1, n + 1);
    assert Limits(cfg, k + 2) == Limits(cfg, k + 1) + cfg.limit;
  }

  /** Admissions of a key in a run of the limiter, within [from, from + length). */
  function RunAdmitted(cfg: Config, start: int, calls: seq<Call>, key: string, from: int, length: int): nat {
    if calls == [] then 0
    else
      var n := |calls| - 1;
      RunAdmitted(cfg, start, calls[..n], key, from, length)
      + B2N(calls[n].key == key && Answer(cfg, start, calls, n).ok && from <= calls[n].now < from + length)
  }

  lemma TimesSnoc(calls: seq<Call>, key: string)
    requires calls != []
    ensures var n := |calls| - 1; var before := Times(calls[..n], key);
            if calls[n].key == key then Times(calls, key) == before + [calls[n].now] && Times(calls, key)[..|before|] == before
            else Times(calls, key) == before
  {
  }

  lemma {:induction false} TimesInOrder(start: int, calls: seq<Call>, key: string)
    requires Monotone(start, calls)
    ensures NonDecreasing(Times(calls, key))
    ensures forall t :: t in Times(calls, key) ==> t <= Latest(start, calls)
  {
    if calls != [] {
      var n := |calls| - 1;
      TimesInOrder(start, calls[..n], key);
      if n > 0 { assert calls[n - 1].now <= calls[n].now; }
      var before := Times(calls[..n], key);
      TimesSnoc(calls, key);
      InOrderSnoc(before, calls[n].now);
    }
  }

  lemma InOrderSnoc(before: seq<int>, t: int)
    requires NonDecreasing(before) && forall x :: x in before ==> x <= t
    ensures NonDecreasing(before + [t]) && forall x :: x in before + [t] ==> x <= t
  {
    assert forall i :: 0 <= i < |before| ==> before[i] in before;
  }

  lemma {:induction false} RunAdmittedIsPerKey(cfg: Config, start: int, calls: seq<Call>, key: string, from: int, length: int)
    requires cfg.Valid() && Monotone(start, calls)
    ensures RunAdmitted(cfg, start, calls, key, from, length) == Admitted(cfg, Times(calls, key), from, length)
    ensures NonDecreasing(Times(calls, key))
    ensures forall t :: t in Times(calls, key) ==> t <= Latest(start, calls)
  {
    TimesInOrder(start, calls, key);
    if calls != [] {
      var n := |calls| - 1;
      RunAdmittedIsPerKey(cfg, start, calls[..n], key, from, length);
      AnswersArePerKey(cfg, start, calls, n);
      TimesSnoc(calls, key);
    }
  }

  /** The burst bound for every key of every run with a non-decreasing clock. */
  lemma RunBurstBound(cfg: Config, start: int, calls: seq<Call>, key: string, a: int, n: nat)
    requires cfg.Valid() && Monotone(start, calls)
    ensures RunAdmitted(cfg, start, calls, key, a, n * cfg.window) <= (n + 1) * cfg.limit - 1
  {
    RunAdmittedIsPerKey(cfg, start, calls, key, a, n * cfg.window);
    BurstBound(cfg, Times(calls, key), a, n);
  }

  // ---- the bound is attained ----

  function Repeat(t: int, n: nat): seq<int> {
    if n == 0 then [] else Repeat(t, n - 1) + [t]
  }

  lemma OneMoreAdmitted(cfg: Config, before: seq<int>, t: int, from: int, length: int)
    requires cfg.Valid() && from <= t < from + length && KeyRun(cfg, before).Some?
    requires var w := KeyRun(cfg, before).value; t - w.start < cfg.window && w.count < cfg.limit
    ensures var w := KeyRun(cfg, before).value; KeyRun(cfg, before + [t]) == Some(Window(w.start, w.count + 1))
    ensures Admitted(cfg, before + [t], from, length) == Admitted(cfg, before, from, length) + 1
  {
    assert (before + [t])[..|before|] == before;
  }

  /** Calls at one instant are all admitted while the window has room. */
  lemma {:induction false} RepeatAdmitted(cfg: Config, times: seq<int>, t: int, n: nat, from: int, length: int)
    requires cfg.Valid() && from <= t < from + length
    requires KeyRun(cfg, times).Some?
    requires var w := KeyRun(cfg, times).value; t - w.start < cfg.window && w.count + n <= cfg.limit
    ensures var w := KeyRun(cfg, times).value;
            KeyRun(cfg, times + Repeat(t, n)) == Some(Window(w.start, w.count + n))
    ensures Admitted(cfg, times + Repeat(t, n), from, length) == Admitted(cfg, times, from, length) + n
  {
    if n == 0 {
      assert times + [] == times;
    } else {
      RepeatAdmitted(cfg, times, t, n - 1, from, length);
      Assoc(times, Repeat(t, n - 1), [t]);
      OneMoreAdmitted(cfg, times + Repeat(t, n - 1), t, from, length);
    }
  }

  /** One early call, the rest of its window at its end, then n full windows. */
  function Burst(cfg: Config, n: nat): seq<int>
    requires cfg.Valid()
  {
    if n == 0 then [0] + Repeat(cfg.window - 1, cfg.limit - 1)
    else Burst(cfg, n - 1) + [Windows(cfg, n)] + Repeat(Windows(cfg, n), cfg.limit - 1)
  }

  /** Every bound is reached, for windows longer than one tick. */
  lemma BurstBoundIsAttained(cfg: Config, n: nat)
    requires cfg.Valid() && cfg.window > 1
    ensures NonDecreasing(Burst(cfg, n))
    ensures Admitted(cfg, Burst(cfg, n), cfg.window - 1, n * cfg.window) == if n == 0 then 0 else (n + 1) * cfg.limit - 1
  {
    BurstInOrder(cfg, n);
    Multiples(cfg, n);
    Multiples(cfg, n + 1);
    if n == 0 {
      NothingInEmpty(cfg, Burst(cfg, 0), cfg.window - 1);
    } else {
      BurstAdmits(cfg, n, n);
    }
  }

  lemma {:induction false} NothingInEmpty(cfg: Config, times: seq<int>, from: int)
    ensures Admitted(cfg, times, from, 0) == 0
  {
    if times != [] { NothingInEmpty(cfg, times[..|times| - 1], from); }
  }

  lemma {:induction false} BurstInOrder(cfg: Config, n: nat)
    requires cfg.Valid() && cfg.window > 1
    ensures NonDecreasing(Burst(cfg, n)) && forall t :: t in Burst(cfg, n) ==> t < Windows(cfg, n + 1)
  {
    if n == 0 {
      RepeatConstant(cfg.window - 1, cfg.limit - 1);
    } else {
      BurstInOrder(cfg, n - 1);
      RepeatConstant(Windows(cfg, n), cfg.limit - 1);
      var before := Burst(cfg, n - 1);
      assert forall i :: 0 <= i < |before| ==> before[i] in before;
    }
  }

  lemma {:induction false} BurstAdmits(cfg: Config, m: nat, n: nat)
    requires cfg.Valid() && cfg.window > 1 && m <= n && n > 0
    ensures KeyRun(cfg, Burst(cfg, m)) == Some(Window(Windows(cfg, m), cfg.limit))
    ensures Admitted(cfg, Burst(cfg, m), cfg.window - 1, Windows(cfg, n)) == Limits(cfg, m + 1) - 1
  {
    var from, length := cfg.window - 1, Windows(cfg, n);
    MultiplesGrow(cfg, m, n);
    MultiplesGrow(cfg, 1, n);
    if m == 0 {
      FirstCall(cfg, from, length);
      RepeatAdmitted(cfg, [0], from, cfg.limit - 1, from, length);
    } else {
      BurstAdmits(cfg, m - 1, n);
      MultiplesGrow(cfg, 1, m);
      var before, t := Burst(cfg, m - 1), Windows(cfg, m);
      NewWindow(cfg, before, t, from, length);
      RepeatAdmitted(cfg, before + [t], t, cfg.limit - 1, from, length);
    }
  }

  lemma FirstCall(cfg: Config, from: int, length: int)
    requires cfg.Valid() && from > 0
    ensures KeyRun(cfg, [0]) == Some(Window(0, 1)) && Admitted(cfg, [0], from, length) == 0
  {
    assert [0][..0] == [];
  }

  lemma NewWindow(cfg: Config, before: seq<int>, t: int, from: int, length: int)
    requires cfg.Valid() && from <= t < from + length
    requires KeyRun(cfg, before).Some? && t - KeyRun(cfg, before).value.start >= cfg.window
    ensures KeyRun(cfg, before + [t]) == Some(Window(t, 1))
    ensures Admitted(cfg, before + [t], from, length) == Admitted(cfg, before, from, length) + 1
  {
    assert (before + [t])[..|before|] == before;
  }

  lemma {:induction false} RepeatConstant(t: int, n: nat)
    ensures |Repeat(t, n)| == n && forall i :: 0 <= i < n ==> Repeat(t, n)[i] == t
  {
    if n > 0 { RepeatConstant(t, n - 1); }
  }

  // ---- retry advice ----

  /** The count of the current window is the number of admissions since it opened. */
  lemma {:induction false} WindowCountsAdmissions(cfg: Config, times: seq<int>)
    requires cfg.Valid() && NonDecreasing(times) && times != []
    ensures var w := KeyRun(cfg, times).value;
            && w.count <= cfg.limit && w.start <= times[|times| - 1] < w.start + cfg.window
            && Admitted(cfg, times, w.start, cfg.window) == w.count
            && forall from :: from >= w.start + cfg.window ==> Admitted(cfg, times, from, cfg.window) == 0
  {
    var n := |times| - 1;
    if n > 0 {
      assert times[n - 1] <= times[n];
      WindowCountsAdmissions(cfg, times[..n]);
    }
  }

  /**
   A denial happens only when exactly limit calls of the key were admitted since its live
   window opened at s, and the delay runs to the end of that window.
   */
  lemma DenialIsJustified(cfg: Config, start: int, calls: seq<Call>, i: nat) returns (s: int)
    requires cfg.Valid() && Monotone(start, calls) && i < |calls|
    requires !Answer(cfg, start, calls, i).ok
    ensures RunAdmitted(cfg, start, calls[..i], calls[i].key, s, cfg.window) == cfg.limit
    ensures s <= calls[i].now < s + cfg.window
    ensures Answer(cfg, start, calls, i).retryAfter == s + cfg.window - calls[i].now
    ensures Lookup(PlainRun(cfg, calls[..i]), calls[i].key) == Some(Window(s, cfg.limit))
  {
    var key, before := calls[i].key, calls[..i];
    var times := Times(before, key);
    AnswersArePerKey(cfg, start, calls, i);
    PlainRunIsPerKey(cfg, before, key);
    s := KeyRun(cfg, times).value.start;
    RunAdmittedIsPerKey(cfg, start, before, key, s, cfg.window);
    WindowCountsAdmissions(cfg, times);
    if i > 0 { assert before[i - 1].now <= calls[i].now; }
    assert times[|times| - 1] in times;
  }

  /** The floor the interceptor puts under the delay (ratelimit/ratelimit.go, check). */
  function RetryInfo(delay: int): int {
    if delay < SECOND then SECOND else delay
  }

  /** The whole seconds of the Retry-After header: the delay rounded up, at least one. */
  function CeilSeconds(delay: int): int {
    var secs := (delay + SECOND - 1) / SECOND;
    if secs < 1 then 1 else secs
  }

  /** While no call of the key is admitted, its window does not move. */
  lemma {:induction false} DenialsKeepWindow(cfg: Config, calls: seq<Call>, key: string, i: nat, j: nat)
    requires i <= j <= |calls|
    requires forall m :: i <= m < j && calls[m].key == key ==> !PlainAnswer(cfg, calls, m).ok
    ensures Lookup(PlainRun(cfg, calls[..j]), key) == Lookup(PlainRun(cfg, calls[..i]), key)
  {
    if i < j {
      DenialsKeepWindow(cfg, calls, key, i, j - 1);
      assert calls[..j][..j - 1] == calls[..j - 1];
    }
  }

  /**
   After a denial, a call on the key at or after the advertised whole-second delay is
   admitted unless another call on the key was admitted in between.
   */
  lemma RetryAdviceIsSound(cfg: Config, start: int, calls: seq<Call>, i: nat, j: nat)
    requires cfg.Valid() && Monotone(start, calls) && i < j < |calls| && calls[i].key == calls[j].key
    requires !Answer(cfg, start, calls, i).ok
    requires calls[j].now >= calls[i].now + CeilSeconds(RetryInfo(Answer(cfg, start, calls, i).retryAfter)) * SECOND
    requires forall m :: i < m < j && calls[m].key == calls[i].key ==> !Answer(cfg, start, calls, m).ok
    ensures Answer(cfg, start, calls, j).ok
  {
    var key := calls[i].key;
    var s := DenialIsJustified(cfg, start, calls, i);
    forall m | i <= m < j && calls[m].key == key
      ensures !PlainAnswer(cfg, calls, m).ok
    {
      SweepIsUnobservable(cfg, start, calls, m);
      assert !Answer(cfg, start, calls, m).ok;
    }
    DenialsKeepWindow(cfg, calls, key, i, j);
    SweepIsUnobservable(cfg, start, calls, j);
  }

  /** The details of a denial's status: a retry delay, or something else. */
  datatype Detail = RetryDelay(delay: int) | OtherDetail

  ghost predicate FirstDelay(details: seq<Detail>, i: nat) {
    && i < |details| && details[i].RetryDelay? && details[i].delay > 0
    && forall k :: 0 <= k < i && details[k].RetryDelay? ==> details[k].delay <= 0
  }

  predicate RoundsUp(delay: int, secs: int) {
    (secs - 1) * SECOND < delay <= secs * SECOND
  }

  /** math.Ceil. */
  function Ceil(x: real): int {
    -((-x).Floor)
  }

  function AtLeastOne(secs: int): int {
    if secs < 1 then 1 else secs
  }

  /**
   retryAfterSeconds of gateway/errors.go: the first positive retry delay, rounded up. seconds is
   time.Duration.Seconds, a float64.
   */
  method RetryAfterSeconds(details: seq<Detail>, seconds: int -> real) returns (r: Option<int>)
    ensures r.None? <==> forall d :: d in details && d.RetryDelay? ==> d.delay <= 0
    ensures r.Some? ==> exists i :: 0 <= i < |details| && FirstDelay(details, i)
                                    && r.value == AtLeastOne(Ceil(seconds(details[i].delay)))
  {
    for i := 0 to |details|
      invariant forall k :: 0 <= k < i && details[k].RetryDelay? ==> details[k].delay <= 0
    {
      var d := details[i];
      if d.RetryDelay? && d.delay > 0 {
        var secs := Ceil(seconds(d.delay));
        if secs < 1 {
          secs := 1;
        }
        assert FirstDelay(details, i);
        return Some(secs);
      }
    }
    return None;
  }

  // ---- the float64 seconds ----

  const SECOND_REAL := 1000000000.0

  /** Off by less than a nanosecond, and exact on whole seconds. */
  ghost predicate NearSeconds(delay: int, x: real) {
    && delay as real - 1.0 < x * SECOND_REAL < delay as real + 1.0
    && (delay % SECOND == 0 ==> x == (delay / SECOND) as real)
  }

  /** Then rounding up gives the exact whole seconds, whatever the error. */
  lemma NearSecondsRoundUp(delay: int, x: real)
    requires delay > 0 && NearSeconds(delay, x)
    ensures AtLeastOne(Ceil(x)) == CeilSeconds(delay) && RoundsUp(delay, CeilSeconds(delay))
  {
    var whole, rest := delay / SECOND, delay % SECOND;
    if rest == 0 {
      assert Ceil(x) == whole;
    } else {
      assert whole as real < x < whole as real + 1.0;
      assert Ceil(x) == whole + 1;
    }
  }

  /** Zero, and numbers far from underflow and overflow: what the conversion below produces. */
  predicate InRange(y: real) {
    y == 0.0 || 0.0000000001 <= y <= 16777216.0
  }

  /** Rounding to a 53-bit significand: small relative error in that range, exact on integers it can hold. */
  ghost predicate RoundsTo53Bits(rnd: real -> real) {
    && (forall y :: InRange(y) ==> -y <= (rnd(y) - y) * 9007199254740992.0 <= y)
    && (forall n: nat :: n < 0x20_0000_0000_0000 ==> ExactOn(rnd, n))
  }

  ghost predicate ExactOn(rnd: real -> real, n: nat) {
    rnd(n as real) == n as real
  }

  /** time.Duration.Seconds: whole seconds plus the rest over 1e9, each step rounded. */
  function FloatSeconds(rnd: real -> real, delay: nat): real {
    rnd((delay / SECOND) as real + rnd((delay % SECOND) as real / SECOND_REAL))
  }

  /** So for delays below 2^23 - 4 seconds (97 days) the float64 detour changes nothing. */
  lemma FloatSecondsAreNear(rnd: real -> real, delay: nat)
    requires RoundsTo53Bits(rnd) && delay / SECOND < 0x80_0000 - 4
    ensures NearSeconds(delay, FloatSeconds(rnd, delay))
  {
    var whole, part := (delay / SECOND) as real, (delay % SECOND) as real / SECOND_REAL;
    var q := rnd(part);
    var x := rnd(whole + q);
    assert 0.0 <= part < 1.0;
    assert part * SECOND_REAL == (delay % SECOND) as real;
    assert InRange(part);
    assert -part <= (q - part) * 9007199254740992.0 <= part;
    assert 0.0 <= q < 2.0;
    assert InRange(whole + q);
    assert -(whole + q) <= (x - (whole + q)) * 9007199254740992.0 <= whole + q;
    assert delay as real == whole * SECOND_REAL + part * SECOND_REAL;
    assert -1.0 < (x - whole - part) * SECOND_REAL < 1.0;
    if delay % SECOND == 0 {
      assert part == 0.0 && q == 0.0;
      assert whole + q == (delay / SECOND) as real;
      assert ExactOn(rnd, delay / SECOND);
    }
  }
}
