/** The fixed-window rate limiter, and how it compares with an exact sliding window. */
module RateLimiter {
  import opened Ledger

  datatype RateLimitConfig = RateLimitConfig(
    admin: Address,
    maxPerWindow: U32,
    windowDuration: U64,
    minAmount: I128,
    maxAmount: I128)

  datatype PayerStats = PayerStats(windowStart: U64, count: U32)

  type Stats = map<Address, PayerStats>

  function SaturatingAdd(a: nat, b: nat, max: nat): (r: nat)
    ensures r <= max && r <= a + b
  {
    if a + b > max then max else a + b
  }

  /** One call: the new stats and whether it is admitted. A rejected call stores nothing. */
  function Check(stats: Stats, payer: Address, config: RateLimitConfig, now: U64): (Stats, bool) {
    var stored := if payer in stats then stats[payer] else PayerStats(now, 0);
    var elapsed := now >= SaturatingAdd(stored.windowStart, config.windowDuration, U64_MAX);
    var current := if elapsed then PayerStats(now, 0) else stored;
    if current.count >= config.maxPerWindow then (stats, false)
    else (stats[payer := PayerStats(current.windowStart, SaturatingAdd(current.count, 1, U32_MAX))], true)
  }

  class Limiter {
    var stats: Stats

    constructor ()
      ensures stats == map[]
    {
      stats := map[];
    }

    method CheckAndUpdate(payer: Address, config: RateLimitConfig, now: U64) returns (admitted: bool)
      modifies this
      ensures (stats, admitted) == Check(old(stats), payer, config, now)
    {
      var current := PayerStats(now, 0);
      if payer in stats { current := stats[payer]; }
      if now >= SaturatingAdd(current.windowStart, config.windowDuration, U64_MAX) {
        current := PayerStats(now, 0);
      }
      if current.count >= config.maxPerWindow { return false; }
      current := current.(count := SaturatingAdd(current.count, 1, U32_MAX));
      stats := stats[payer := current];
      return true;
    }
  }

  // ---------------------------------------------------------------------------------------------
  // Traces under one config

  datatype Attempt = Attempt(payer: Address, now: U64)

  /** Ledger time never goes back. */
  predicate Ordered(calls: seq<Attempt>) {
    forall i | 0 < i < |calls| :: calls[i - 1].now <= calls[i].now
  }

  predicate NotBefore(calls: seq<Attempt>, now: int) {
    calls != [] ==> calls[|calls| - 1].now <= now
  }

  function After(config: RateLimitConfig, calls: seq<Attempt>): Stats {
    if calls == [] then map[]
    else
      var n := |calls| - 1;
      Check(After(config, calls[..n]), calls[n].payer, config, calls[n].now).0
  }

  predicate Admits(config: RateLimitConfig, calls: seq<Attempt>, next: Attempt) {
    Check(After(config, calls), next.payer, config, next.now).1
  }

  /** The times of one payer's admitted calls. */
  function AdmittedTimes(config: RateLimitConfig, calls: seq<Attempt>, p: Address): seq<U64> {
    if calls == [] then []
    else
      var n := |calls| - 1;
      var before := AdmittedTimes(config, calls[..n], p);
      if calls[n].payer == p && Admits(config, calls[..n], calls[n]) then before + [calls[n].now] else before
  }

  /** How many of the times lie in [a, b). */
  function CountIn(times: seq<U64>, a: int, b: int): nat {
    if times == [] then 0
    else CountIn(times[..|times| - 1], a, b) + if a <= times[|times| - 1] < b then 1 else 0
  }

  lemma {:induction false} CountInSnoc(times: seq<U64>, t: U64, a: int, b: int)
    ensures CountIn(times + [t], a, b) == CountIn(times, a, b) + if a <= t < b then 1 else 0
  {
    assert (times + [t])[..|times|] == times;
  }

  lemma {:induction false} CountInAll(times: seq<U64>, a: int, b: int)
    ensures CountIn(times, a, b) <= |times|
    ensures (forall i | 0 <= i < |times| :: a <= times[i] < b) ==> CountIn(times, a, b) == |times|
    ensures (forall i | 0 <= i < |times| :: !(a <= times[i] < b)) ==> CountIn(times, a, b) == 0
  {
    if times != [] {
      var n := |times| - 1;
      assert forall i | 0 <= i < n :: times[..n][i] == times[i];
      CountInAll(times[..n], a, b);
    }
  }

  // ---------------------------------------------------------------------------------------------
  // The admitted times, cut into the limiter's own windows

  datatype Window = Window(start: U64, times: seq<U64>)

  function Last(ws: seq<Window>): Window
    requires ws != []
  {
    ws[|ws| - 1]
  }

  /** An admitted call opens a new window if the last one has ended, and otherwise joins it. */
  function Extend(config: RateLimitConfig, ws: seq<Window>, now: U64): seq<Window> {
    if ws == [] || now >= SaturatingAdd(Last(ws).start, config.windowDuration, U64_MAX)
    then ws + [Window(now, [now])]
    else ws[..|ws| - 1] + [Last(ws).(times := Last(ws).times + [now])]
  }

  function Windows(config: RateLimitConfig, calls: seq<Attempt>, p: Address): seq<Window> {
    if calls == [] then []
    else
      var n := |calls| - 1;
      var before := Windows(config, calls[..n], p);
      if calls[n].payer == p && Admits(config, calls[..n], calls[n])
      then Extend(config, before, calls[n].now) else before
  }

  /** A window holds at least one and at most `max` times, none before its start or after `now`, and
      all before its end unless at its very start. */
  ghost predicate GoodWindow(config: RateLimitConfig, w: Window, now: int) {
    && 0 < |w.times| <= config.maxPerWindow
    && forall i | 0 <= i < |w.times| ::
         w.start <= w.times[i] <= now && (w.times[i] == w.start || w.times[i] < w.start + config.windowDuration)
  }

  ghost predicate GoodWindows(config: RateLimitConfig, ws: seq<Window>, now: int) {
    forall i | 0 <= i < |ws| :: GoodWindow(config, ws[i], now)
  }

  /** The last window is the stored one. */
  ghost predicate Mirrors(ws: seq<Window>, stats: Stats, p: Address) {
    && (p in stats <==> ws != [])
    && (ws != [] ==> stats[p].windowStart == Last(ws).start && stats[p].count == |Last(ws).times|)
  }

  lemma {:induction false} LaterIsFine(config: RateLimitConfig, ws: seq<Window>, now: int, later: int)
    requires GoodWindows(config, ws, now) && now <= later
    ensures GoodWindows(config, ws, later)
  {
    forall i | 0 <= i < |ws| ensures GoodWindow(config, ws[i], later) {
      assert GoodWindow(config, ws[i], now);
    }
  }

  lemma {:induction false} ExtendTracks(config: RateLimitConfig, ws: seq<Window>, stats: Stats, p: Address, now: U64)
    requires GoodWindows(config, ws, now) && Mirrors(ws, stats, p) && Check(stats, p, config, now).1
    ensures GoodWindows(config, Extend(config, ws, now), now)
    ensures Mirrors(Extend(config, ws, now), Check(stats, p, config, now).0, p)
  {
    var more := Extend(config, ws, now);
    if |more| == |ws| {
      var w, v := Last(ws), Last(more);
      assert GoodWindow(config, w, now) && w.start <= w.times[0] <= now;
      assert now < w.start + config.windowDuration;
      assert forall k | 0 <= k < |w.times| :: v.times[k] == w.times[k];
      assert GoodWindow(config, v, now);
    }
    forall i | 0 <= i < |more| ensures GoodWindow(config, more[i], now) {
      if i < |more| - 1 { assert more[i] == ws[i]; }
    }
  }

  lemma {:induction false} WindowsTrack(config: RateLimitConfig, calls: seq<Attempt>, p: Address, now: int)
    requires Ordered(calls) && NotBefore(calls, now)
    ensures GoodWindows(config, Windows(config, calls, p), now)
    ensures Mirrors(Windows(config, calls, p), After(config, calls), p)
  {
    if calls != [] {
      var n := |calls| - 1;
      WindowsTrack(config, calls[..n], p, calls[n].now);
      if calls[n].payer == p && Admits(config, calls[..n], calls[n]) {
        ExtendTracks(config, Windows(config, calls[..n], p), After(config, calls[..n]), p, calls[n].now);
      }
      LaterIsFine(config, Windows(config, calls, p), calls[n].now, now);
    }
  }

  ghost predicate SpacedWindows(config: RateLimitConfig, ws: seq<Window>) {
    forall i | 0 < i < |ws| :: ws[i].start >= ws[i - 1].start + config.windowDuration
  }

  /** Windows start at least one duration apart, as long as nobody calls in the last representable
      second, where the saturated end of a window makes it end early. */
  lemma {:induction false} WindowsAreApart(config: RateLimitConfig, calls: seq<Attempt>, p: Address)
    requires forall c <- calls :: c.now < U64_MAX
    ensures SpacedWindows(config, Windows(config, calls, p))
  {
    if calls != [] {
      var n := |calls| - 1;
      assert calls[n] in calls;
      WindowsAreApart(config, calls[..n], p);
      ExtendKeepsApart(config, Windows(config, calls[..n], p), calls[n].now);
    }
  }

  lemma {:induction false} ExtendKeepsApart(config: RateLimitConfig, ws: seq<Window>, now: U64)
    requires SpacedWindows(config, ws) && now < U64_MAX
    ensures SpacedWindows(config, Extend(config, ws, now))
  {
    var more := Extend(config, ws, now);
    forall i | 0 < i < |more| ensures more[i].start >= more[i - 1].start + config.windowDuration {
      if i < |ws| { assert ws[i].start >= ws[i - 1].start + config.windowDuration; }
    }
  }

  function CountInWindows(ws: seq<Window>, a: int, b: int): nat {
    if ws == [] then 0 else CountInWindows(ws[..|ws| - 1], a, b) + CountIn(Last(ws).times, a, b)
  }

  lemma {:induction false} CountAfterExtend(config: RateLimitConfig, ws: seq<Window>, now: U64, a: int, b: int)
    ensures CountInWindows(Extend(config, ws, now), a, b) == CountInWindows(ws, a, b) + if a <= now < b then 1 else 0
  {
    var more := Extend(config, ws, now);
    if |more| > |ws| {
      assert more[..|more| - 1] == ws;
      CountInSnoc([], now, a, b);
      assert [] + [now] == [now];
    } else {
      assert more[..|more| - 1] == ws[..|ws| - 1];
      CountInSnoc(Last(ws).times, now, a, b);
    }
  }

  /** The windows hold exactly the admitted times. */
  lemma {:induction false} WindowsHoldTheAdmitted(config: RateLimitConfig, calls: seq<Attempt>, p: Address,
                                                  a: int, b: int)
    ensures CountIn(AdmittedTimes(config, calls, p), a, b) == CountInWindows(Windows(config, calls, p), a, b)
  {
    if calls != [] {
      var n := |calls| - 1;
      WindowsHoldTheAdmitted(config, calls[..n], p, a, b);
      if calls[n].payer == p && Admits(config, calls[..n], calls[n]) {
        CountInSnoc(AdmittedTimes(config, calls[..n], p), calls[n].now, a, b);
        CountAfterExtend(config, Windows(config, calls[..n], p), calls[n].now, a, b);
      }
    }
  }

  /** One payer's history: good windows that hold the admitted times, the last one stored. */
  lemma {:induction false} History(config: RateLimitConfig, calls: seq<Attempt>, p: Address, now: int, a: int, b: int)
    returns (ws: seq<Window>)
    requires Ordered(calls) && NotBefore(calls, now)
    ensures ws == Windows(config, calls, p)
    ensures GoodWindows(config, ws, now) && Mirrors(ws, After(config, calls), p)
    ensures CountIn(AdmittedTimes(config, calls, p), a, b) == CountInWindows(ws, a, b)
  {
    ws := Windows(config, calls, p);
    WindowsTrack(config, calls, p, now);
    WindowsHoldTheAdmitted(config, calls, p, a, b);
  }

  // ---------------------------------------------------------------------------------------------
  // Upper bound

  /** How many points at least `d` apart fit into `span` consecutive integers. */
  function Fit(span: int, d: int): nat
    requires d > 0
    decreases span
  {
    if span <= 0 then 0 else 1 + Fit(span - d, d)
  }

  lemma {:induction false} FitIsMonotone(less: int, more: int, d: int)
    requires d > 0 && less <= more
    ensures Fit(less, d) <= Fit(more, d)
    decreases more
  {
    if less > 0 { FitIsMonotone(less - d, more - d, d); }
  }

  lemma {:induction false} MulGrows(k: int, d: int)
    requires d > 0
    ensures k >= 1 ==> k * d >= d
    ensures k <= -1 ==> k * d <= -d
  {
    if k >= 1 {
      assert (k - 1) * d >= 0;
    } else if k <= -1 {
      assert (-1 - k) * d >= 0;
    }
  }

  lemma {:induction false} QuotientIsUnique(x: int, d: int, q: int, r: int)
    requires d > 0 && x == q * d + r && 0 <= r < d
    ensures x / d == q
  {
    var p := x / d;
    assert x == p * d + x % d;
    assert (p - q) * d == p * d - q * d;
    MulGrows(p - q, d);
  }

  /** In closed form: one more than the quotient. */
  lemma {:induction false} FitIsAQuotient(span: int, d: int)
    requires d > 0 && span > 0
    ensures Fit(span, d) == (span - 1) / d + 1
    decreases span
  {
    if span <= d {
      QuotientIsUnique(span - 1, d, 0, span - 1);
    } else {
      FitIsAQuotient(span - d, d);
      var q, r := (span - d - 1) / d, (span - d - 1) % d;
      assert (q + 1) * d == q * d + d;
      QuotientIsUnique(span - 1, d, q + 1, r);
    }
  }

  /** The number of windows that can hold a time at `a` or later. */
  function Reaching(config: RateLimitConfig, ws: seq<Window>, a: int): nat {
    if ws == [] then 0
    else Reaching(config, ws[..|ws| - 1], a) + if Last(ws).start > a - config.windowDuration then 1 else 0
  }

  /** Only windows starting in (a - D, hi] can, so few do. */
  lemma {:induction false} FewReach(config: RateLimitConfig, ws: seq<Window>, a: int, hi: int)
    requires config.windowDuration > 0 && SpacedWindows(config, ws)
    requires ws != [] ==> Last(ws).start <= hi
    ensures Reaching(config, ws, a) <= Fit(hi - a + config.windowDuration, config.windowDuration)
  {
    if ws != [] {
      var d, s := config.windowDuration, Last(ws).start;
      FewReach(config, ws[..|ws| - 1], a, s - d);
      FitIsMonotone(s - a, hi - a + d, d);
      if s > a - d { FitIsMonotone(s - a + d, hi - a + d, d); }
    }
  }

  /** `n` batches of `max`. */
  function Batches(max: nat, n: nat): nat { if n == 0 then 0 else max + Batches(max, n - 1) }

  lemma {:induction false} BatchesIsAProduct(max: nat, n: nat)
    ensures Batches(max, n) == max * n
  {
    if n > 0 {
      BatchesIsAProduct(max, n - 1);
      assert max * n == max * (n - 1) + max;
    }
  }

  lemma {:induction false} BatchesIsMonotone(max: nat, few: nat, more: nat)
    requires few <= more
    ensures Batches(max, few) <= Batches(max, more)
  {
    if few < more { BatchesIsMonotone(max, few, more - 1); }
  }

  /** At most `max` times for each of them. */
  lemma {:induction false} EachHoldsMax(config: RateLimitConfig, ws: seq<Window>, a: int, b: int, now: int)
    requires config.windowDuration > 0 && GoodWindows(config, ws, now)
    ensures CountInWindows(ws, a, b) <= Batches(config.maxPerWindow, Reaching(config, ws, a))
  {
    if ws != [] {
      EachHoldsMax(config, ws[..|ws| - 1], a, b, now);
      assert GoodWindow(config, Last(ws), now);
      CountInAll(Last(ws).times, a, b);
    }
  }

  /** Windows starting at `b` or later hold nothing before `b`. */
  lemma {:induction false} WindowsBefore(config: RateLimitConfig, ws: seq<Window>, a: int, b: int, now: int)
    returns (k: nat)
    requires GoodWindows(config, ws, now)
    ensures k <= |ws| && CountInWindows(ws[..k], a, b) == CountInWindows(ws, a, b)
    ensures k > 0 ==> ws[k - 1].start < b
  {
    if ws != [] && Last(ws).start >= b {
      assert GoodWindow(config, Last(ws), now);
      CountInAll(Last(ws).times, a, b);
      k := WindowsBefore(config, ws[..|ws| - 1], a, b, now);
      assert ws[..|ws| - 1][..k] == ws[..k];
    } else {
      k := |ws|;
      assert ws[..k] == ws;
    }
  }

  /** In windows good and apart, at most `max` times for each window that fits. */
  lemma {:induction false} WindowsHoldWhatFits(config: RateLimitConfig, ws: seq<Window>, a: int, length: int, now: int)
    requires config.windowDuration > 0 && GoodWindows(config, ws, now) && SpacedWindows(config, ws)
    ensures CountInWindows(ws, a, a + length)
              <= Batches(config.maxPerWindow, Fit(length - 1 + config.windowDuration, config.windowDuration))
  {
    var k := WindowsBefore(config, ws, a, a + length, now);
    FewReach(config, ws[..k], a, a + length - 1);
    EachHoldsMax(config, ws[..k], a, a + length, now);
    BatchesIsMonotone(config.maxPerWindow, Reaching(config, ws[..k], a),
                      Fit(length - 1 + config.windowDuration, config.windowDuration));
  }

  lemma {:induction false} AdmitsWhatFits(config: RateLimitConfig, calls: seq<Attempt>, p: Address, a: int, length: int)
    requires Ordered(calls) && (forall c <- calls :: c.now < U64_MAX)
    requires config.windowDuration >= 1
    ensures CountIn(AdmittedTimes(config, calls, p), a, a + length)
              <= Batches(config.maxPerWindow, Fit(length - 1 + config.windowDuration, config.windowDuration))
  {
    var now: int := if calls == [] then 0 else calls[|calls| - 1].now;
    var ws := History(config, calls, p, now, a, a + length);
    WindowsAreApart(config, calls, p);
    WindowsHoldWhatFits(config, ws, a, length, now);
  }

  /** Upper bound: in any interval of `length` time units the limiter admits at most `max` calls for
      each window that can reach it, (length + D - 2) / D + 1 of them; hence never more than twice
      `max` in one duration, and never more than `max` in one instant. */
  lemma {:induction false} AdmitsAtMost(config: RateLimitConfig, calls: seq<Attempt>, p: Address, a: int, length: int)
    requires Ordered(calls) && (forall c <- calls :: c.now < U64_MAX)
    requires config.windowDuration >= 1 && length >= 1
    ensures var d, max := config.windowDuration, config.maxPerWindow;
      var count := CountIn(AdmittedTimes(config, calls, p), a, a + length);
      && count <= max * ((length + d - 2) / d + 1)
      && (length == d ==> count <= max * 2)
      && (length == 1 ==> count <= max)
  {
    AdmitsWhatFits(config, calls, p, a, length);
    FewFit(config.maxPerWindow, length, config.windowDuration);
  }

  lemma {:induction false} FewFit(max: nat, length: int, d: int)
    requires d >= 1 && length >= 1
    ensures var n := Fit(length - 1 + d, d);
      && n == (length + d - 2) / d + 1
      && Batches(max, n) == max * n
      && (length == d ==> Batches(max, n) <= max * 2)
      && (length == 1 ==> Batches(max, n) == max)
  {
    FitIsAQuotient(length - 1 + d, d);
    BatchesIsAProduct(max, Fit(length - 1 + d, d));
    FitIsMonotone(d - 1 + d, 2 * d, d);
    assert Fit(2 * d, d) == 2 && Fit(d, d) == 1;
    BatchesIsMonotone(max, Fit(d - 1 + d, d), 2);
    BatchesIsAProduct(max, 2);
  }

  // ---------------------------------------------------------------------------------------------
  // Rejections

  /** An exact sliding-window limiter of the same size: admits if fewer than `max` calls were admitted
      in the last `D` time units, the present one included. */
  predicate SlidingAdmits(config: RateLimitConfig, times: seq<U64>, now: U64) {
    CountIn(times, now - config.windowDuration + 1, now + 1) < config.maxPerWindow
  }

  /** When a call is rejected, the last window is full and lies in the last `D` time units. */
  lemma {:induction false} FullWindow(config: RateLimitConfig, ws: seq<Window>, stats: Stats, p: Address,
                                      now: U64, from: int, to: int)
    requires GoodWindows(config, ws, now) && Mirrors(ws, stats, p) && !Check(stats, p, config, now).1
    requires from == now - config.windowDuration + 1 && to == now + 1
    ensures CountInWindows(ws, from, to) >= config.maxPerWindow
  {
    if config.maxPerWindow > 0 {
      var w := Last(ws);
      assert GoodWindow(config, w, now);
      assert now < w.start + config.windowDuration;
      CountInAll(w.times, from, to);
    }
  }

  /** A call is rejected only if `max` calls of that payer were already admitted in the last `D` time
      units: the limiter never rejects where an exact sliding window would admit. No bound on time
      is needed here. */
  lemma {:induction false} RejectsOnlyWhenJustified(config: RateLimitConfig, calls: seq<Attempt>, next: Attempt)
    requires Ordered(calls) && NotBefore(calls, next.now) && !Admits(config, calls, next)
    ensures !SlidingAdmits(config, AdmittedTimes(config, calls, next.payer), next.now)
  {
    var from: int, to: int := next.now - config.windowDuration + 1, next.now + 1;
    var ws := History(config, calls, next.payer, next.now, from, to);
    FullWindow(config, ws, After(config, calls), next.payer, next.now, from, to);
  }

  /** Why the bound excludes a zero duration and the last representable second: there a window has
      always ended already (in the last second because its end saturates), so that any number of
      calls is admitted. */
  lemma {:induction false} UnlimitedAtTheEdges(config: RateLimitConfig, calls: seq<Attempt>, next: Attempt)
    requires Ordered(calls) && NotBefore(calls, next.now) && config.maxPerWindow >= 1
    requires config.windowDuration == 0 || next.now == U64_MAX
    ensures Admits(config, calls, next)
  {
    if config.windowDuration == 0 && !Admits(config, calls, next) {
      RejectsOnlyWhenJustified(config, calls, next);
      CountInAll(AdmittedTimes(config, calls, next.payer), next.now + 1, next.now + 1);
    }
  }

  // ---------------------------------------------------------------------------------------------
  // Isolation

  function CallsOf(calls: seq<Attempt>, p: Address): seq<Attempt> {
    if calls == [] then []
    else CallsOf(calls[..|calls| - 1], p) + if calls[|calls| - 1].payer == p then [calls[|calls| - 1]] else []
  }

  lemma {:induction false} StatsOfOnePayer(config: RateLimitConfig, calls: seq<Attempt>, p: Address)
    ensures var all, own := After(config, calls), After(config, CallsOf(calls, p));
      (p in all <==> p in own) && (p in all ==> all[p] == own[p])
    ensures AdmittedTimes(config, calls, p) == AdmittedTimes(config, CallsOf(calls, p), p)
  {
    if calls != [] {
      var n := |calls| - 1;
      var own := CallsOf(calls[..n], p);
      StatsOfOnePayer(config, calls[..n], p);
      if calls[n].payer == p {
        assert (own + [calls[n]])[..|own|] == own;
      } else {
        assert CallsOf(calls, p) == own;
      }
    }
  }

  /** Other payers' calls never affect the outcome. */
  lemma {:induction false} PayersAreIsolated(config: RateLimitConfig, calls: seq<Attempt>, next: Attempt)
    ensures Admits(config, calls, next) == Admits(config, CallsOf(calls, next.payer), next)
  {
    StatsOfOnePayer(config, calls, next.payer);
  }
}
