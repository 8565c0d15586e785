/**
 * The dashboard's numeric smoothing (static/app.js): the percentage clamp,
 * one step of the CPU/RAM exponential moving average, and one step of the
 * network-rate computation with its running peak. These are the pure rules;
 * the maps they read and write live in the Dashboard module.
 */
module Smoothing {
  import opened Wrappers

  // ---------------------------------------------------------------------
  // JavaScript numbers
  // ---------------------------------------------------------------------

  /** A JavaScript value where a number is expected: finite, NaN, or an infinity. */
  datatype Num = Finite(x: real) | NaN | Inf(negative: bool)

  /** `clampPct`: NaN and infinities give 0, everything else is clamped to [0, 100]. */
  function ClampPct(n: Num): (r: real)
    ensures 0.0 <= r <= 100.0
    ensures n.Finite? && 0.0 <= n.x <= 100.0 ==> r == n.x
    ensures n.Finite? && n.x > 100.0 ==> r == 100.0
    ensures !n.Finite? || n.x <= 0.0 ==> r == 0.0
  {
    match n
    case Finite(x) => if x < 0.0 then 0.0 else if x > 100.0 then 100.0 else x
    case _ => 0.0
  }

  /** Clamping a clamped value changes nothing. */
  lemma ClampIdempotent(n: Num)
    ensures ClampPct(Finite(ClampPct(n))) == ClampPct(n)
  {
  }

  // ---------------------------------------------------------------------
  // Exponential moving average
  // ---------------------------------------------------------------------

  /** The default smoothing factor of `emaUpdate`. */
  const Alpha: real := 0.3

  /** The next average: the raw value on a first observation, else `0.3 v + 0.7 prev`. */
  function EmaNext(prev: Option<real>, v: real): real {
    match prev
    case None => v
    case Some(p) => Alpha * v + (1.0 - Alpha) * p
  }

  /** The average never leaves an interval that holds both the old average and the new value. */
  lemma EmaBetween(prev: real, v: real, lo: real, hi: real)
    requires lo <= prev <= hi && lo <= v <= hi
    ensures lo <= EmaNext(Some(prev), v) <= hi
  {
  }

  /** In particular smoothed percentages of clamped inputs stay percentages. */
  lemma EmaStaysPercent(prev: Option<real>, v: Num)
    requires prev.Some? ==> 0.0 <= prev.value <= 100.0
    ensures 0.0 <= EmaNext(prev, ClampPct(v)) <= 100.0
  {
    if prev.Some? {
      EmaBetween(prev.value, ClampPct(v), 0.0, 100.0);
    }
  }

  /** The gap to the new value shrinks by the factor 0.7 at every step. */
  lemma EmaContracts(prev: real, v: real)
    ensures EmaNext(Some(prev), v) - v == (1.0 - Alpha) * (prev - v)
  {
  }

  function Pow(b: real, n: nat): real {
    if n == 0 then 1.0 else b * Pow(b, n - 1)
  }

  /** The average after `n` further observations of the same value `v`. */
  function EmaIter(prev: real, v: real, n: nat): real {
    if n == 0 then prev else EmaNext(Some(EmaIter(prev, v, n - 1)), v)
  }

  /** Fed a constant value, the average approaches it geometrically: the gap is `0.7^n` of the first gap. */
  lemma {:induction false} EmaConverges(prev: real, v: real, n: nat)
    ensures EmaIter(prev, v, n) - v == Pow(1.0 - Alpha, n) * (prev - v)
  {
    if n > 0 {
      EmaConverges(prev, v, n - 1);
      EmaContracts(EmaIter(prev, v, n - 1), v);
    }
  }

  // ---------------------------------------------------------------------
  // Network rates
  // ---------------------------------------------------------------------

  /** The stored network sample: time in milliseconds and cumulative byte counters. */
  datatype NetSample = NetSample(t: int, rx: real, tx: real)

  /** Receive and transmit rates in bytes per second, and the elapsed seconds. */
  datatype NetRate = NetRate(rxps: real, txps: real, dt: real)

  const ZeroRate: NetRate := NetRate(0.0, 0.0, 0.0)

  /** The peak never drops below 1 MiB/s; it starts at 2 MiB/s. */
  const PeakFloor: real := 1048576.0
  const InitialPeak: real := 2097152.0

  function Max(a: real, b: real): real {
    if a >= b then a else b
  }

  /** Elapsed seconds since the stored sample, `(now - prev.t) / 1000`. */
  function Elapsed(prev: NetSample, now: int): real {
    (now - prev.t) as real / 1000.0
  }

  /** Whether `computeNetRate` computes rates: a prior sample with a non-zero time, and time has passed. */
  predicate Measurable(prev: Option<NetSample>, now: int) {
    prev.Some? && prev.value.t != 0 && Elapsed(prev.value, now) > 0.0
  }

  /** The rates `computeNetRate` returns for the sample `cur` taken at `cur.t`. */
  function NetRateOf(prev: Option<NetSample>, cur: NetSample): (r: NetRate)
    ensures r.rxps >= 0.0 && r.txps >= 0.0 && r.dt >= 0.0
    ensures !Measurable(prev, cur.t) ==> r == ZeroRate
    ensures Measurable(prev, cur.t) ==> r.dt == Elapsed(prev.value, cur.t)
    ensures Measurable(prev, cur.t) && cur.rx >= prev.value.rx ==> r.rxps * r.dt == cur.rx - prev.value.rx
    ensures Measurable(prev, cur.t) && cur.rx < prev.value.rx ==> r.rxps == 0.0
    ensures Measurable(prev, cur.t) && cur.tx >= prev.value.tx ==> r.txps * r.dt == cur.tx - prev.value.tx
    ensures Measurable(prev, cur.t) && cur.tx < prev.value.tx ==> r.txps == 0.0
  {
    if !Measurable(prev, cur.t) then ZeroRate
    else
      var dt := Elapsed(prev.value, cur.t);
      NetRate(Max(0.0, (cur.rx - prev.value.rx) / dt), Max(0.0, (cur.tx - prev.value.tx) / dt), dt)
  }

  /** The running peak after a measurement: `max(peak, 1.2 (rxps + txps), 1 MiB)`, only when rates were measured. */
  function PeakAfter(prev: Option<NetSample>, cur: NetSample, peak: real): (p: real)
    ensures p >= peak
    ensures Measurable(prev, cur.t) ==> p >= PeakFloor
    ensures Measurable(prev, cur.t) ==> 1.2 * (NetRateOf(prev, cur).rxps + NetRateOf(prev, cur).txps) <= p
    ensures !Measurable(prev, cur.t) ==> p == peak
    ensures p == peak || p == 1.2 * (NetRateOf(prev, cur).rxps + NetRateOf(prev, cur).txps) || p == PeakFloor
  {
    if !Measurable(prev, cur.t) then peak
    else
      var r := NetRateOf(prev, cur);
      Max(Max(peak, (r.rxps + r.txps) * 1.2), PeakFloor)
  }

  /** Starting from 2 MiB/s, the peak is at least 1 MiB/s whatever samples follow. */
  lemma PeakStaysAboveFloor(prev: Option<NetSample>, cur: NetSample, peak: real)
    requires peak >= PeakFloor
    ensures PeakAfter(prev, cur, peak) >= PeakFloor
  {
  }

  /** The fill of the network bar: the summed rate as a percentage of the peak. */
  function NetPct(rate: NetRate, peak: real): (pct: real)
    ensures 0.0 <= pct <= 100.0
    ensures var v := (rate.rxps + rate.txps) / Max(peak, 1.0) * 100.0;
            && (0.0 <= v <= 100.0 ==> pct == v)
            && (v > 100.0 ==> pct == 100.0)
            && (v < 0.0 ==> pct == 0.0)
    ensures pct < 100.0 && 0.0 < pct ==> pct * Max(peak, 1.0) == (rate.rxps + rate.txps) * 100.0
  {
    ClampPct(Finite((rate.rxps + rate.txps) / Max(peak, 1.0) * 100.0))
  }

  /**
   * Right after a measurement the bar is never full: the peak is at least
   * 1.2 times the summed rate, so the bar shows at most 100/1.2 percent.
   */
  lemma NetBarHasHeadroom(prev: Option<NetSample>, cur: NetSample, peak: real)
    requires peak >= 1.0
    ensures NetPct(NetRateOf(prev, cur), PeakAfter(prev, cur, peak)) * 1.2 <= 100.0
  {
    var r := NetRateOf(prev, cur);
    var p := PeakAfter(prev, cur, peak);
    var sum := r.rxps + r.txps;
    if Measurable(prev, cur.t) {
      assert 1.2 * sum <= p && p >= PeakFloor;
      ShareOfPeak(sum, p);
      assert Max(p, 1.0) == p;
    } else {
      assert sum == 0.0;
    }
  }

  lemma ShareOfPeak(a: real, p: real)
    requires p > 0.0 && 0.0 <= 1.2 * a <= p
    ensures a / p * 100.0 * 1.2 <= 100.0
  {
    var d := a / p;
    assert d * p == a;
    assert (1.2 * d) * p <= 1.0 * p;
  }
}
