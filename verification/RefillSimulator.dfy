/**
 * The refill simulator of soko_refill_simulator.c: one server that refills a token queue in
 * batches, and requests at a fixed rate. Times are exact real numbers.
 */
module RefillSimulator {

  // ---------------------------------------------------------------------
  // Configuration and threshold
  // ---------------------------------------------------------------------

  datatype Config = Config(capacity: nat, batch: nat, threshold: int, seconds: real, rate: nat)

  /** What the command line and the clamp of a negative duration guarantee. */
  ghost predicate ValidConfig(c: Config) {
    c.capacity >= 2 && c.batch >= 1 && 1 <= c.threshold < c.capacity && c.seconds >= 0.0 && c.rate >= 1
  }

  /** (int)ceil(x) */
  function Ceil(x: real): (k: int)
    ensures x <= k as real < x + 1.0
  {
    0 - (0.0 - x).Floor
  }

  /** rate_based_refill_threshold */
  function RateBasedThreshold(seconds: real, rate: nat, capacity: nat): (h: int)
    requires capacity >= 2
    ensures 1 <= h < capacity
    ensures h < capacity - 1 ==> h as real >= 1.2 * seconds * rate as real
    ensures h > 1 ==> (h - 1) as real < 1.2 * seconds * rate as real
  {
    var h := Ceil(1.2 * seconds * rate as real);
    var h1 := if h < 1 then 1 else h;
    if h1 >= capacity then capacity - 1 else h1
  }

  // ---------------------------------------------------------------------
  // The refill state
  // ---------------------------------------------------------------------

  datatype Refill = Refill(queued: int, inFlight: bool, size: int, complete: real, produced: nat)

  /** maybe_start_refill */
  function MaybeStart(c: Config, s: Refill, now: real): Refill {
    if s.inFlight || s.queued > c.threshold || c.capacity - s.queued <= 0 then s else
    var want := if c.batch > c.capacity - s.queued then c.capacity - s.queued else c.batch;
    if want <= 0 then s else s.(inFlight := true, size := want, complete := now + c.seconds)
  }

  /** One turn of the loop in settle_refills: the batch arrives, and the next one may start. */
  function Complete(c: Config, s: Refill): Refill
    requires s.size >= 0
  {
    MaybeStart(c, s.(queued := s.queued + s.size, produced := s.produced + s.size, inFlight := false, size := 0), s.complete)
  }

  /** The queue and the batch under way fit, and the server is idle exactly above the threshold. */
  ghost predicate Sane(c: Config, s: Refill) {
    ValidConfig(c) && 0 <= s.queued && 0 <= s.size && s.queued + s.size <= c.capacity &&
    (s.inFlight <==> s.size > 0) && (s.inFlight <==> s.queued <= c.threshold)
  }

  lemma CompleteSane(c: Config, s: Refill)
    requires Sane(c, s) && s.inFlight
    ensures Sane(c, Complete(c, s)) && Complete(c, s).queued > s.queued
  {
  }

  /** settle_refills: terminates for every duration, also zero, because the queue grows in each turn. */
  ghost function Settle(c: Config, s: Refill, now: real): (t: Refill)
    requires Sane(c, s)
    ensures Sane(c, t) && (t.inFlight ==> t.complete > now)
    decreases c.capacity - s.queued
  {
    if s.inFlight && s.complete <= now then
      CompleteSane(c, s);
      Settle(c, Complete(c, s), now)
    else s
  }

  // ---------------------------------------------------------------------
  // Runs
  // ---------------------------------------------------------------------

  datatype Run = Run(refill: Refill, served: nat, starved: nat)

  /** The time of arrival k. */
  function Arrival(c: Config, k: nat): real
    requires c.rate >= 1
  {
    k as real / c.rate as real
  }

  /** One turn of the arrival loop, at time now. */
  ghost function Serve(c: Config, r: Run, now: real): Run
    requires Sane(c, r.refill)
  {
    var s := Settle(c, r.refill, now);
    if s.queued > 0 then Run(MaybeStart(c, s.(queued := s.queued - 1), now), r.served + 1, r.starved)
    else Run(MaybeStart(c, s, now), r.served, r.starved + 1)
  }

  lemma ServeSane(c: Config, r: Run, now: real)
    requires Sane(c, r.refill)
    ensures Sane(c, Serve(c, r, now).refill)
  {
  }

  /** The state after k arrivals, starting from a full queue. */
  ghost function After(c: Config, k: nat): (r: Run)
    requires ValidConfig(c)
    ensures Sane(c, r.refill) && r.served + r.starved == k
  {
    if k == 0 then Run(Refill(c.capacity, false, 0, 0.0, 0), 0, 0) else
    ServeSane(c, After(c, k - 1), Arrival(c, k - 1));
    Serve(c, After(c, k - 1), Arrival(c, k - 1))
  }

  // ---------------------------------------------------------------------
  // Conservation
  // ---------------------------------------------------------------------

  lemma {:induction false} SettleConserves(c: Config, s: Refill, now: real)
    requires Sane(c, s)
    ensures Settle(c, s, now).queued - Settle(c, s, now).produced == s.queued - s.produced
    decreases c.capacity - s.queued
  {
    if s.inFlight && s.complete <= now {
      CompleteSane(c, s);
      SettleConserves(c, Complete(c, s), now);
    }
  }

  /** No token is lost or made up: the initial stock and the production are served or queued. */
  lemma {:induction false} Conservation(c: Config, k: nat)
    requires ValidConfig(c)
    ensures c.capacity + After(c, k).refill.produced == After(c, k).served + After(c, k).refill.queued
  {
    if k > 0 {
      Conservation(c, k - 1);
      SettleConserves(c, After(c, k - 1).refill, Arrival(c, k - 1));
    }
  }

  // ---------------------------------------------------------------------
  // Throughput
  // ---------------------------------------------------------------------

  /** The time that the production of n tokens counts for, times the batch size. */
  ghost function Load(c: Config, n: nat): real {
    n as real * c.seconds
  }

  /** What the server can produce by time t, times the duration of a batch. */
  ghost function Supply(c: Config, t: real): real {
    c.batch as real * t
  }

  /** Production so far took its time: one batch at a time, `seconds` each. */
  ghost predicate Paced(c: Config, s: Refill, now: real) {
    if s.inFlight then Load(c, s.produced) <= Supply(c, s.complete - c.seconds) && s.complete - c.seconds <= now
    else Load(c, s.produced) <= Supply(c, now)
  }

  lemma RealMono(a: real, b: real, c: real)
    requires a <= b && c >= 0.0
    ensures a * c <= b * c
  {
  }

  lemma SupplyGrows(c: Config, t: real, u: real)
    requires t <= u
    ensures Supply(c, t) <= Supply(c, u)
  {
    RealMono(t, u, c.batch as real);
  }

  lemma OneMoreBatch(c: Config, p: nat, z: nat, complete: real)
    requires z <= c.batch && c.seconds >= 0.0 && Load(c, p) <= Supply(c, complete - c.seconds)
    ensures Load(c, p + z) <= Supply(c, complete)
  {
    var b := c.batch as real;
    RealMono(z as real, b, c.seconds);
    LoadSum(p as real, z as real, c.seconds);
    SupplyShift(b, complete, c.seconds);
  }

  lemma LoadSum(p: real, z: real, s: real)
    ensures (p + z) * s == p * s + z * s
  {
  }

  lemma SupplyShift(b: real, t: real, s: real)
    ensures b * (t - s) + b * s == b * t
  {
  }

  lemma CompletePaced(c: Config, s: Refill, now: real)
    requires Sane(c, s) && s.inFlight && s.size <= c.batch && s.complete <= now && Paced(c, s, now)
    ensures Paced(c, Complete(c, s), now)
  {
    hide Load, Supply;
    OneMoreBatch(c, s.produced, s.size, s.complete);
    SupplyGrows(c, s.complete, now);
    var t := Complete(c, s);
    if t.inFlight {
      assert t.complete - c.seconds == s.complete;
    }
  }

  lemma {:induction false} SettlePaced(c: Config, s: Refill, now: real)
    requires Sane(c, s) && s.size <= c.batch && Paced(c, s, now)
    ensures Settle(c, s, now).size <= c.batch && Paced(c, Settle(c, s, now), now)
    decreases c.capacity - s.queued
  {
    hide Paced, Load, Supply;
    if s.inFlight && s.complete <= now {
      CompletePaced(c, s, now);
      CompleteSane(c, s);
      SettlePaced(c, Complete(c, s), now);
    }
  }

  lemma LaterPaced(c: Config, s: Refill, now: real, later: real)
    requires Paced(c, s, now) && now <= later
    ensures Paced(c, s, later)
  {
    hide Load, Supply;
    SupplyGrows(c, now, later);
  }

  lemma StartPaced(c: Config, s: Refill, now: real, q: int)
    requires Paced(c, s, now) && s.size <= c.batch
    ensures Paced(c, MaybeStart(c, s.(queued := q), now), now) && MaybeStart(c, s.(queued := q), now).size <= c.batch
  {
    hide Load, Supply;
  }

  lemma ArrivalsAdvance(c: Config, k: nat)
    requires c.rate >= 1
    ensures Arrival(c, k + 1) == Arrival(c, k) + 1.0 / c.rate as real && Arrival(c, k + 1) > Arrival(c, k) >= 0.0
    ensures c.rate as real * Arrival(c, k) == k as real
  {
  }

  lemma {:induction false} PacedAfter(c: Config, k: nat)
    requires ValidConfig(c) && k > 0
    ensures After(c, k).refill.size <= c.batch && Paced(c, After(c, k).refill, Arrival(c, k - 1))
  {
    hide Paced, Settle, Arrival, Load, Supply;
    ArrivalsAdvance(c, k - 1);
    var r := After(c, k - 1);
    var now := Arrival(c, k - 1);
    if k == 1 {
      FirstPaced(c, now);
    } else {
      PacedAfter(c, k - 1);
      ArrivalsAdvance(c, k - 2);
      LaterPaced(c, r.refill, Arrival(c, k - 2), now);
    }
    SettlePaced(c, r.refill, now);
    var s := Settle(c, r.refill, now);
    StartPaced(c, s, now, s.queued);
    StartPaced(c, s, now, s.queued - 1);
    assert s.(queued := s.queued) == s;
  }

  lemma FirstPaced(c: Config, now: real)
    requires ValidConfig(c) && now >= 0.0
    ensures Paced(c, Refill(c.capacity, false, 0, 0.0, 0), now)
  {
    RealMono(0.0, now, c.batch as real);
  }

  lemma PacedBound(c: Config, s: Refill, now: real)
    requires Paced(c, s, now)
    ensures Load(c, s.produced) <= Supply(c, now)
  {
    hide Load, Supply;
    if s.inFlight {
      SupplyGrows(c, s.complete - c.seconds, now);
    }
  }

  /**
   * Production never outruns the server: after the last arrival and the final settling,
   * produced * seconds <= batch * elapsed.
   */
  lemma ProductionBounded(c: Config, k: nat)
    requires ValidConfig(c) && k > 0
    ensures var t := Settle(c, After(c, k).refill, Arrival(c, k - 1));
      Load(c, t.produced) <= Supply(c, Arrival(c, k - 1))
  {
    hide Settle, Paced, After, Arrival, Load, Supply;
    PacedAfter(c, k);
    var now := Arrival(c, k - 1);
    SettlePaced(c, After(c, k).refill, now);
    PacedBound(c, Settle(c, After(c, k).refill, now), now);
  }

  // ---------------------------------------------------------------------
  // No starvation
  // ---------------------------------------------------------------------

  /** The number of tokens that one refill duration can consume, at least one. */
  function PerRefill(c: Config): (m: nat)
    ensures m >= 1 && m as real >= c.seconds * c.rate as real
  {
    var d := Ceil(c.seconds * c.rate as real);
    if d < 1 then 1 else d
  }

  /** The threshold that the program computes, large batches, and room for two refills. */
  ghost predicate WellProvisioned(c: Config) {
    ValidConfig(c) && c.threshold == RateBasedThreshold(c.seconds, c.rate, c.capacity) &&
    c.batch >= PerRefill(c) && c.capacity >= 2 * PerRefill(c)
  }

  /**
   * Since the refill under way started, `a` tokens were taken, no faster than the rate allows;
   * the stock at its start and the stock it brings are each enough for one refill duration.
   */
  ghost predicate Held(c: Config, s: Refill, next: real, m: nat, a: nat) {
    a <= m && a as real <= c.rate as real * (next - s.complete + c.seconds) &&
    s.queued + a >= m && (s.size >= m || s.queued + a + s.size == c.capacity)
  }

  ghost predicate Stocked(c: Config, s: Refill, next: real, m: nat) {
    s.inFlight ==> exists a: nat :: Held(c, s, next, m, a)
  }

  /** The threshold is at least one refill duration's consumption. */
  lemma ThresholdSuffices(c: Config)
    requires WellProvisioned(c)
    ensures c.threshold >= PerRefill(c)
  {
    var d := c.seconds * c.rate as real;
    assert 1.2 * c.seconds * c.rate as real == 1.2 * d;
    RealMono(0.0, c.seconds, c.rate as real);
    if c.threshold < c.capacity - 1 {
      assert c.threshold as real >= 1.2 * d >= d;
      CeilLeast(d, c.threshold);
    }
  }

  lemma CeilLeast(x: real, k: int)
    requires k as real >= x
    ensures Ceil(x) <= k
  {
  }

  /** A start from a stock of at least m. */
  lemma StartStocked(c: Config, s: Refill, now: real, next: real, m: nat)
    requires WellProvisioned(c) && m == PerRefill(c) && !s.inFlight && m <= s.queued && next >= now
    ensures Stocked(c, MaybeStart(c, s, now), next, m)
  {
    var t := MaybeStart(c, s, now);
    if t.inFlight {
      RealMono(0.0, next - now, c.rate as real);
      assert c.rate as real * (next - t.complete + c.seconds) == (next - now) * c.rate as real;
      assert Held(c, t, next, m, 0);
    }
  }

  /** The batch that arrives lifts the stock to m or more, whatever was taken meanwhile. */
  lemma CompleteStocked(c: Config, s: Refill, now: real, m: nat)
    requires WellProvisioned(c) && m == PerRefill(c) && Sane(c, s) && s.inFlight && s.complete <= now && Stocked(c, s, now, m)
    ensures Stocked(c, Complete(c, s), now, m)
  {
    hide MaybeStart, RateBasedThreshold, PerRefill;
    var a: nat :| Held(c, s, now, m, a);
    var t := s.(queued := s.queued + s.size, produced := s.produced + s.size, inFlight := false, size := 0);
    assert t.queued >= m;
    StartStocked(c, t, s.complete, now, m);
  }

  lemma {:induction false} SettleStocked(c: Config, s: Refill, now: real, m: nat)
    requires WellProvisioned(c) && m == PerRefill(c) && Sane(c, s) && Stocked(c, s, now, m)
    ensures Stocked(c, Settle(c, s, now), now, m)
    decreases c.capacity - s.queued
  {
    hide Stocked, WellProvisioned, PerRefill;
    if s.inFlight && s.complete <= now {
      CompleteStocked(c, s, now, m);
      CompleteSane(c, s);
      SettleStocked(c, Complete(c, s), now, m);
    }
  }

  lemma EarlyProduct(f: real, g: real, s: real)
    requires f < 0.0 && g > 0.0
    ensures g * (f + s) < s * g
  {
    assert g * (f + s) == g * f + s * g;
    assert g * f < 0.0;
  }

  /** A settled stock has a token, also while a refill is under way. */
  lemma TokenThere(c: Config, s: Refill, now: real, m: nat, a: nat)
    requires WellProvisioned(c) && m == PerRefill(c) && s.complete > now && Held(c, s, now, m, a)
    ensures a < m && s.queued > 0
  {
    hide RateBasedThreshold;
    var f, g := now - s.complete, c.rate as real;
    EarlyProduct(f, g, c.seconds);
    assert f + c.seconds == now - s.complete + c.seconds;
    BelowBound(a, g * (f + c.seconds), c.seconds * g, m);
  }

  lemma BelowBound(a: nat, x: real, y: real, m: nat)
    requires a as real <= x < y <= m as real
    ensures a < m
  {
  }

  /** One more token taken, one more interval passed. */
  lemma TakeStocked(c: Config, s: Refill, now: real, m: nat, a: nat)
    requires c.rate >= 1 && Held(c, s, now, m, a) && a < m
    ensures Held(c, s.(queued := s.queued - 1), now + 1.0 / c.rate as real, m, a + 1)
  {
    var g := c.rate as real;
    var x := now - s.complete + c.seconds;
    assert g * (x + 1.0 / g) == g * x + 1.0;
    assert now + 1.0 / g - s.complete + c.seconds == x + 1.0 / g;
  }

  lemma ServeStocked(c: Config, r: Run, now: real, m: nat)
    requires WellProvisioned(c) && m == PerRefill(c) && Sane(c, r.refill) && Stocked(c, r.refill, now, m)
    ensures Serve(c, r, now).starved == r.starved
    ensures Stocked(c, Serve(c, r, now).refill, now + 1.0 / c.rate as real, m)
  {
    hide Settle, PerRefill, RateBasedThreshold;
    SettleStocked(c, r.refill, now, m);
    var s := Settle(c, r.refill, now);
    if s.inFlight {
      var a: nat :| Held(c, s, now, m, a);
      TokenThere(c, s, now, m, a);
      TakeStocked(c, s, now, m, a);
    } else {
      ThresholdSuffices(c);
      var t := s.(queued := s.queued - 1);
      assert 1.0 / c.rate as real > 0.0;
      if t.queued <= c.threshold {
        StartStocked(c, t, now, now + 1.0 / c.rate as real, m);
      }
    }
  }

  lemma {:induction false} StockedAfter(c: Config, k: nat)
    requires WellProvisioned(c)
    ensures After(c, k).starved == 0 && Stocked(c, After(c, k).refill, Arrival(c, k), PerRefill(c))
  {
    hide Stocked, Serve, Settle, PerRefill, RateBasedThreshold;
    if k == 0 {
      NothingHeld(c);
    } else {
      StockedAfter(c, k - 1);
      ServeStocked(c, After(c, k - 1), Arrival(c, k - 1), PerRefill(c));
      ArrivalsAdvance(c, k - 1);
    }
  }

  lemma NothingHeld(c: Config)
    requires ValidConfig(c)
    ensures Stocked(c, After(c, 0).refill, Arrival(c, 0), PerRefill(c))
  {
  }

  /** With batches of at least one refill duration's consumption and room for two, no request starves. */
  lemma NoStarvation(c: Config, k: nat)
    requires WellProvisioned(c)
    ensures After(c, k).starved == 0 && After(c, k).served == k
  {
    hide After, WellProvisioned, Stocked;
    StockedAfter(c, k);
  }

  // ---------------------------------------------------------------------
  // What a run is, without its steps: the refills that were started and the requests served
  // ---------------------------------------------------------------------

  /** A refill: when it started, after how many requests, at which stock, and its size. */
  datatype Start = Start(time: real, after: nat, level: int, size: int)

  ghost function Sizes(log: seq<Start>): int {
    if |log| == 0 then 0 else Sizes(log[..|log| - 1]) + log[|log| - 1].size
  }

  /** The tokens of the refills started by request j that have arrived by time t. */
  ghost function Arrived(c: Config, log: seq<Start>, j: nat, t: real): int {
    if |log| == 0 then 0 else
    var e := log[|log| - 1];
    Arrived(c, log[..|log| - 1], j, t) + if e.after <= j && e.time + c.seconds <= t then e.size else 0
  }

  /**
   * Refill i: it starts at or below the threshold and fills the free slots, up to the batch size; no other one
   * is under way; and it starts at the first such moment: when the one before it arrives, or with the
   * request that takes the stock down to the threshold. served[j] counts the requests served of the first j.
   */
  ghost predicate StartLaw(c: Config, log: seq<Start>, served: seq<int>, i: nat)
    requires c.rate >= 1 && i < |log|
  {
    var e := log[i];
    e.after < |served| && 0 <= e.level <= c.threshold &&
    e.level == c.capacity + Sizes(log[..i]) - served[e.after] &&
    e.size == (if c.batch < c.capacity - e.level then c.batch else c.capacity - e.level) &&
    (e.after > 0 ==> Arrival(c, e.after - 1) <= e.time) && e.time <= Arrival(c, e.after) &&
    (i > 0 ==> log[i - 1].time + c.seconds <= e.time) &&
    ((i > 0 && e.time == log[i - 1].time + c.seconds) ||
     (e.after > 0 && e.time == Arrival(c, e.after - 1) && e.level == c.threshold && served[e.after] == served[e.after - 1] + 1))
  }

  /** Request j is served exactly when the stock at its time is not empty. */
  ghost predicate RequestLaw(c: Config, log: seq<Start>, served: seq<int>, j: nat)
    requires c.rate >= 1 && j + 1 < |served|
  {
    served[j + 1] == served[j] + if c.capacity + Arrived(c, log, j, Arrival(c, j)) - served[j] > 0 then 1 else 0
  }

  /** The refills and the services of the first k requests, with the refills that follow up to time t. */
  ghost predicate Describes(c: Config, log: seq<Start>, served: seq<int>, k: nat, t: real)
    requires c.rate >= 1
  {
    |served| == k + 1 && served[0] == 0 &&
    (forall j :: 0 <= j < k ==> RequestLaw(c, log, served, j)) &&
    (forall i :: 0 <= i < |log| ==> StartLaw(c, log, served, i) && log[i].after <= k && log[i].time <= t)
  }

  /** Nothing is left out: with no refill under way at time t, the stock is above the threshold. */
  ghost predicate NoneMissing(c: Config, log: seq<Start>, served: seq<int>, t: real)
    requires |served| > 0
  {
    (|log| == 0 || log[|log| - 1].time + c.seconds <= t) ==> c.capacity + Sizes(log) - served[|served| - 1] > c.threshold
  }

  /** The state s after k requests, at time t, as the timeline has it. */
  ghost predicate Matches(c: Config, s: Refill, log: seq<Start>, served: seq<int>, k: nat, t: real)
    requires c.rate >= 1
  {
    Describes(c, log, served, k, t) && s.queued == c.capacity + s.produced - served[k] &&
    (s.inFlight ==>
      |log| > 0 && s.size == log[|log| - 1].size && s.complete == log[|log| - 1].time + c.seconds &&
      s.produced == Sizes(log) - s.size && (k > 0 ==> Arrival(c, k - 1) <= s.complete)) &&
    (!s.inFlight ==> s.produced == Sizes(log) && (|log| > 0 ==> log[|log| - 1].time + c.seconds <= t))
  }

  /** One more refill at the end keeps the laws of the others. */
  lemma OneMoreStart(c: Config, log: seq<Start>, served: seq<int>, k: nat, t: real, u: real, e: Start)
    requires c.rate >= 1 && Describes(c, log, served, k, t) && t <= u && e.after == k && e.time <= u
    requires StartLaw(c, log + [e], served, |log|)
    ensures Describes(c, log + [e], served, k, u) && Sizes(log + [e]) == Sizes(log) + e.size
  {
    hide Arrival, StartLaw, RequestLaw;
    var m := log + [e];
    assert m[..|log|] == log;
    forall i | 0 <= i < |m|
      ensures StartLaw(c, m, served, i) && m[i].after <= k && m[i].time <= u
    {
      if i < |log| {
        assert StartLaw(c, log, served, i);
        StartKept(c, log, m, served, i);
      }
    }
    forall j | 0 <= j < k
      ensures RequestLaw(c, m, served, j)
    {
      assert RequestLaw(c, log, served, j);
      RequestKept(c, log, e, served, j);
    }
  }

  lemma StartKept(c: Config, log: seq<Start>, m: seq<Start>, served: seq<int>, i: nat)
    requires c.rate >= 1 && i < |log| <= |m| && m[..|log|] == log
    ensures StartLaw(c, m, served, i) <==> StartLaw(c, log, served, i)
  {
    hide Arrival;
    assert m[..i] == log[..i];
    assert m[i] == log[i] && (i > 0 ==> m[i - 1] == log[i - 1]);
  }

  lemma RequestKept(c: Config, log: seq<Start>, e: Start, served: seq<int>, j: nat)
    requires c.rate >= 1 && j + 1 < |served| && j < e.after && RequestLaw(c, log, served, j)
    ensures RequestLaw(c, log + [e], served, j)
  {
    hide Arrival;
    assert (log + [e])[..|log|] == log;
  }

  /** The batch arrives, and the next refill may start at that moment. */
  lemma CompleteMatches(c: Config, s: Refill, log: seq<Start>, served: seq<int>, k: nat, t: real, now: real) returns (m: seq<Start>)
    requires Sane(c, s) && s.inFlight && s.complete <= now <= Arrival(c, k) && t <= now && Matches(c, s, log, served, k, t)
    ensures Matches(c, Complete(c, s), m, served, k, now)
  {
    hide Arrival, RequestLaw;
    var r := Complete(c, s);
    if r.inFlight {
      var e := Start(s.complete, k, r.queued, r.size);
      m := log + [e];
      assert m[..|log|] == log;
      OneMoreStart(c, log, served, k, t, now, e);
    } else {
      m := log;
    }
  }

  lemma {:induction false} SettleMatches(c: Config, s: Refill, log: seq<Start>, served: seq<int>, k: nat, t: real, now: real) returns (m: seq<Start>)
    requires Sane(c, s) && t <= now <= Arrival(c, k) && Matches(c, s, log, served, k, t)
    ensures Matches(c, Settle(c, s, now), m, served, k, now)
    decreases c.capacity - s.queued
  {
    hide Matches, Arrival, Complete, StartLaw, RequestLaw;
    if s.inFlight && s.complete <= now {
      CompleteSane(c, s);
      var n := CompleteMatches(c, s, log, served, k, t, now);
      m := SettleMatches(c, Complete(c, s), n, served, k, now, now);
    } else {
      m := log;
      LaterMatches(c, s, log, served, k, t, now);
    }
  }

  lemma LaterMatches(c: Config, s: Refill, log: seq<Start>, served: seq<int>, k: nat, t: real, now: real)
    requires c.rate >= 1 && t <= now && Matches(c, s, log, served, k, t)
    ensures Matches(c, s, log, served, k, now)
  {
    hide Arrival, StartLaw, RequestLaw;
  }

  /** All refills that are not under way have arrived. */
  lemma {:induction false} AllArrived(c: Config, log: seq<Start>, served: seq<int>, k: nat, t: real)
    requires c.rate >= 1 && forall i :: 0 <= i < |log| ==> StartLaw(c, log, served, i) && log[i].after <= k && log[i].time <= t
    requires |log| > 0 ==> log[|log| - 1].time + c.seconds <= t
    ensures Arrived(c, log, k, t) == Sizes(log)
  {
    hide StartLaw;
    if |log| > 0 {
      var n := |log| - 1;
      FewerStarts(c, log, served, n);
      if n > 0 {
        OneAtATime(c, log, served, n);
      }
      AllArrived(c, log[..n], served, k, t);
    }
  }

  lemma OneAtATime(c: Config, log: seq<Start>, served: seq<int>, i: nat)
    requires c.rate >= 1 && 0 < i < |log| && StartLaw(c, log, served, i)
    ensures log[i - 1].time + c.seconds <= log[i].time
  {
    hide Arrival;
  }

  lemma FewerStarts(c: Config, log: seq<Start>, served: seq<int>, n: nat)
    requires c.rate >= 1 && n <= |log| && forall i :: 0 <= i < |log| ==> StartLaw(c, log, served, i)
    ensures forall i :: 0 <= i < n ==> StartLaw(c, log[..n], served, i)
  {
    hide StartLaw;
    forall i | 0 <= i < n
      ensures StartLaw(c, log[..n], served, i)
    {
      assert StartLaw(c, log, served, i);
      StartKept(c, log[..n], log, served, i);
    }
  }

  /** What has been produced, once settled. */
  lemma ProducedArrived(c: Config, s: Refill, log: seq<Start>, served: seq<int>, k: nat, t: real)
    requires c.rate >= 1 && Matches(c, s, log, served, k, t) && (s.inFlight ==> s.complete > t)
    ensures s.produced == Arrived(c, log, k, t)
  {
    hide Arrival, RequestLaw;
    if s.inFlight {
      var n := |log| - 1;
      FewerStarts(c, log, served, n);
      assert StartLaw(c, log, served, n);
      if n > 0 {
        OneAtATime(c, log, served, n);
      }
      AllArrived(c, log[..n], served, k, t);
    } else {
      AllArrived(c, log, served, k, t);
    }
  }

  /** Starting a refill after request k keeps what was arrived before it. */
  lemma ServedMatches(c: Config, s: Refill, log: seq<Start>, served: seq<int>, k: nat) returns (m: seq<Start>, v: seq<int>)
    requires Sane(c, s) && (s.inFlight ==> s.complete > Arrival(c, k)) && Matches(c, s, log, served, k, Arrival(c, k))
    ensures var q := if s.queued > 0 then s.queued - 1 else 0;
      Matches(c, MaybeStart(c, s.(queued := q), Arrival(c, k)), m, v, k + 1, Arrival(c, k)) &&
      v == served + [served[k] + if s.queued > 0 then 1 else 0]
  {
    hide Arrival;
    var now := Arrival(c, k);
    ArrivalsAdvance(c, k);
    ProducedArrived(c, s, log, served, k, now);
    v := served + [served[k] + if s.queued > 0 then 1 else 0];
    RequestAdded(c, log, served, v, k, now);
    var q := if s.queued > 0 then s.queued - 1 else 0;
    var r := MaybeStart(c, s.(queued := q), now);
    if !s.inFlight && r.inFlight {
      var e := Start(now, k + 1, r.queued, r.size);
      m := log + [e];
      assert m[..|log|] == log;
      OneMoreStart(c, log, v, k + 1, now, now, e);
    } else {
      m := log;
    }
  }

  lemma RequestAdded(c: Config, log: seq<Start>, served: seq<int>, v: seq<int>, k: nat, t: real)
    requires c.rate >= 1 && Describes(c, log, served, k, t) && t == Arrival(c, k)
    requires v == served + [served[k] + if c.capacity + Arrived(c, log, k, t) - served[k] > 0 then 1 else 0]
    ensures Describes(c, log, v, k + 1, t)
  {
    hide Arrival;
    forall j | 0 <= j < k + 1
      ensures RequestLaw(c, log, v, j)
    {
      if j < k {
        assert RequestLaw(c, log, served, j);
      }
    }
    forall i | 0 <= i < |log|
      ensures StartLaw(c, log, v, i)
    {
      assert StartLaw(c, log, served, i);
    }
  }

  lemma {:induction false} TimelineAfter(c: Config, k: nat) returns (log: seq<Start>, served: seq<int>)
    requires ValidConfig(c)
    ensures Matches(c, After(c, k).refill, log, served, k, if k > 0 then Arrival(c, k - 1) else 0.0)
    ensures forall j :: 0 <= j <= k ==> served[j] == After(c, j).served
  {
    hide Matches, Arrival, Settle, MaybeStart;
    if k == 0 {
      log, served := [], [0];
      TimelineStart(c);
    } else {
      var now := Arrival(c, k - 1);
      var l, v := TimelineAfter(c, k - 1);
      if k > 1 {
        ArrivalsAdvance(c, k - 2);
      } else {
        FirstArrival(c);
      }
      var n := SettleMatches(c, After(c, k - 1).refill, l, v, k - 1, if k > 1 then Arrival(c, k - 2) else 0.0, now);
      var s := Settle(c, After(c, k - 1).refill, now);
      assert |v| == k by { MatchesWidth(c, s, n, v, k - 1, now); }
      log, served := ServedMatches(c, s, n, v, k - 1);
      assert s.queued <= 0 ==> s.(queued := 0) == s;
    }
  }

  lemma MatchesWidth(c: Config, s: Refill, log: seq<Start>, served: seq<int>, k: nat, t: real)
    requires c.rate >= 1 && Matches(c, s, log, served, k, t)
    ensures |served| == k + 1
  {
  }

  lemma TimelineStart(c: Config)
    requires ValidConfig(c)
    ensures Matches(c, After(c, 0).refill, [], [0], 0, 0.0)
  {
  }

  /** The whole run with its final settling: its production is that of the timeline. */
  lemma TimelineOfRun(c: Config, k: nat) returns (log: seq<Start>, served: seq<int>)
    requires ValidConfig(c) && k > 0
    ensures Describes(c, log, served, k, Arrival(c, k - 1)) && NoneMissing(c, log, served, Arrival(c, k - 1))
    ensures forall j :: 0 <= j <= k ==> served[j] == After(c, j).served
    ensures Settle(c, After(c, k).refill, Arrival(c, k - 1)).produced == Arrived(c, log, k, Arrival(c, k - 1))
  {
    hide Arrival, MaybeStart, StartLaw, RequestLaw;
    var t := Arrival(c, k - 1);
    ArrivalsAdvance(c, k - 1);
    var l;
    l, served := TimelineAfter(c, k);
    log := SettleMatches(c, After(c, k).refill, l, served, k, t, t);
    var s := Settle(c, After(c, k).refill, t);
    ProducedArrived(c, s, log, served, k, t);
  }

  // ---------------------------------------------------------------------
  // The program
  // ---------------------------------------------------------------------

  /** The variables that the refill functions update through pointers. */
  class RefillState {
    var queuedTokens: int
    var refillInFlight: bool
    var refillBatchSize: int
    var refillCompleteTime: real
    var producedTokens: nat

    function State(): Refill
      reads this
    {
      Refill(queuedTokens, refillInFlight, refillBatchSize, refillCompleteTime, producedTokens)
    }

    constructor (capacity: nat)
      ensures State() == Refill(capacity, false, 0, 0.0, 0)
    {
      queuedTokens := capacity;
      refillInFlight := false;
      refillBatchSize := 0;
      refillCompleteTime := 0.0;
      producedTokens := 0;
    }

    method MaybeStartRefill(c: Config, now: real)
      modifies this
      ensures State() == MaybeStart(c, old(State()), now)
    {
      if refillInFlight || queuedTokens > c.threshold {
        return;
      }
      var freeSlots := c.capacity - queuedTokens;
      if freeSlots <= 0 {
        return;
      }
      var want := c.batch;
      if want > freeSlots {
        want := freeSlots;
      }
      if want <= 0 {
        return;
      }
      refillInFlight := true;
      refillBatchSize := want;
      refillCompleteTime := now + c.seconds;
    }

    method SettleRefills(c: Config, now: real)
      requires Sane(c, State())
      modifies this
      ensures State() == Settle(c, old(State()), now)
    {
      hide MaybeStart;
      while refillInFlight && refillCompleteTime <= now
        invariant Sane(c, State()) && Settle(c, State(), now) == Settle(c, old(State()), now)
        decreases c.capacity - queuedTokens
      {
        CompleteSane(c, State());
        queuedTokens := queuedTokens + refillBatchSize;
        producedTokens := producedTokens + refillBatchSize;
        refillInFlight := false;
        refillBatchSize := 0;
        MaybeStartRefill(c, refillCompleteTime);
      }
    }
  }

  /** When nothing is queued after settling, the refill under way is still the same one, and not due. */
  lemma StarvedUnchanged(c: Config, s: Refill, now: real)
    requires Sane(c, s) && Settle(c, s, now).queued == 0
    ensures Settle(c, s, now) == s && s.inFlight && s.complete > now
  {
    if s.inFlight && s.complete <= now {
      CompleteSane(c, s);
      SettleGrows(c, Complete(c, s), now);
    }
  }

  lemma {:induction false} SettleGrows(c: Config, s: Refill, now: real)
    requires Sane(c, s)
    ensures Settle(c, s, now).queued >= s.queued
    decreases c.capacity - s.queued
  {
    if s.inFlight && s.complete <= now {
      CompleteSane(c, s);
      SettleGrows(c, Complete(c, s), now);
    }
  }

  /** How many more arrivals the refill under way can make wait. */
  ghost function Delay(c: Config, s: Refill, next: real): nat {
    var x := (c.rate as real * (s.complete - next)).Floor;
    if s.inFlight && x >= 0 then x + 1 else 0
  }

  lemma DelayFalls(c: Config, s: Refill, now: real)
    requires c.rate >= 1 && s.inFlight && s.complete > now
    ensures Delay(c, s, now + 1.0 / c.rate as real) < Delay(c, s, now)
  {
    var g, x := c.rate as real, s.complete - now;
    assert g * (x - 1.0 / g) == g * x - 1.0;
    assert s.complete - (now + 1.0 / g) == x - 1.0 / g;
    assert g * x > 0.0;
  }

  datatype Result = Result(arrivals: nat, threshold: int, measuredSeconds: real, produced: nat, served: nat, starved: nat)

  /**
   * The accounting part of run_simulation_case. Every run reaches its target; `arrivals` counts the
   * turns of the loop. The report is that of the timeline of refills and services that the laws describe.
   */
  method RunSimulationCase(capacity: nat, target: nat, rate: nat, batch: nat, measured: real) returns (out: Result)
    requires capacity >= 2 && target >= 1 && rate >= 1 && batch >= 1
    ensures var c := Config(capacity, batch, RateBasedThreshold(measured, rate, capacity), if measured < 0.0 then 0.0 else measured, rate);
      ValidConfig(c) && out.arrivals > 0 && out.measuredSeconds == Arrival(c, out.arrivals - 1) &&
      out.threshold == c.threshold && out.served == target == After(c, out.arrivals).served && out.starved == out.arrivals - target &&
      out.produced == Settle(c, After(c, out.arrivals).refill, out.measuredSeconds).produced &&
      (exists log, served :: Describes(c, log, served, out.arrivals, out.measuredSeconds) && NoneMissing(c, log, served, out.measuredSeconds) &&
         served[out.arrivals] == target > served[out.arrivals - 1] &&
         out.produced == Arrived(c, log, out.arrivals, out.measuredSeconds)) &&
      Load(c, out.produced) <= Supply(c, out.measuredSeconds) &&
      (measured >= 0.0 && batch >= PerRefill(c) && capacity >= 2 * PerRefill(c) ==> out.starved == 0)
  {
    hide Settle, MaybeStart, Sane, Delay, RateBasedThreshold, Arrival, PerRefill, Load, Supply, StartLaw, RequestLaw, Arrived, NoneMissing;
    var threshold := RateBasedThreshold(measured, rate, capacity);
    var seconds := if measured < 0.0 then 0.0 else measured;
    var c := Config(capacity, batch, threshold, seconds, rate);
    var interval := 1.0 / rate as real;
    var q := new RefillState(capacity);
    var nextArrivalTime, simulatedEndTime := 0.0, 0.0;
    var served, starved := 0, 0;
    ghost var k := 0;
    FirstArrival(c);
    while served < target
      invariant Run(q.State(), served, starved) == After(c, k) && nextArrivalTime == Arrival(c, k) && served <= target
      invariant k > 0 ==> simulatedEndTime == Arrival(c, k - 1) && After(c, k - 1).served < target
      invariant fresh(q)
      decreases target - served, Delay(c, q.State(), nextArrivalTime)
    {
      var attemptTime := nextArrivalTime;
      ghost var before := q.State();
      q.SettleRefills(c, attemptTime);
      if q.queuedTokens > 0 {
        q.queuedTokens := q.queuedTokens - 1;
        served := served + 1;
        q.MaybeStartRefill(c, attemptTime);
        simulatedEndTime := attemptTime;
      } else {
        QueuedNotNegative(c, before, attemptTime);
        StarvedUnchanged(c, before, attemptTime);
        NoRestart(c, before, attemptTime);
        DelayFalls(c, before, attemptTime);
        starved := starved + 1;
        q.MaybeStartRefill(c, attemptTime);
        simulatedEndTime := attemptTime;
      }
      nextArrivalTime := nextArrivalTime + interval;
      ArrivalsAdvance(c, k);
      k := k + 1;
    }
    q.SettleRefills(c, simulatedEndTime);
    ProductionBounded(c, k);
    ghost var log, services := TimelineOfRun(c, k);
    if measured >= 0.0 && batch >= PerRefill(c) && capacity >= 2 * PerRefill(c) {
      NoStarvation(c, k);
    }
    out := Result(served + starved, threshold, simulatedEndTime, q.producedTokens, served, starved);
  }

  lemma FirstArrival(c: Config)
    requires c.rate >= 1
    ensures Arrival(c, 0) == 0.0
  {
  }

  lemma QueuedNotNegative(c: Config, s: Refill, now: real)
    requires Sane(c, s)
    ensures Settle(c, s, now).queued >= 0
  {
  }

  lemma NoRestart(c: Config, s: Refill, now: real)
    requires s.inFlight
    ensures MaybeStart(c, s, now) == s
  {
  }
}
