/** The shared fan policy: the hysteresis curve and the reading of one temperature. */
module FanPolicy {
  import opened Results
  import opened Digits

  datatype Curve = Curve(low: int, medium: int, high: int, hysteresis: nat)

  const CPU: Curve := Curve(60000, 65000, 75000, 4000)
  const PHY: Curve := Curve(55000, 65000, 75000, 4000)
  const DISK: Curve := Curve(36000, 42000, 48000, 2000)

  predicate Ordered(c: Curve) {
    c.low <= c.medium <= c.high
  }

  /** One level on its own: on from the threshold, and once on, until the temperature is `hysteresis` below it. */
  predicate Triggered(t: int, was: bool, threshold: int, hysteresis: nat) {
    t >= threshold || (was && t >= threshold - hysteresis)
  }

  function Threshold(c: Curve, k: nat): int
    requires 1 <= k <= 3
  {
    if k == 1 then c.low else if k == 2 then c.medium else c.high
  }

  predicate LevelOn(t: int, previous: nat, c: Curve, k: nat)
    requires 1 <= k <= 3
  {
    Triggered(t, previous >= k, Threshold(c, k), c.hysteresis)
  }

  /** The highest level that is on. */
  function Demand(t: int, previous: nat, c: Curve): (r: nat)
    ensures r <= 3
  {
    if LevelOn(t, previous, c, 3) then 3
    else if LevelOn(t, previous, c, 2) then 2
    else if LevelOn(t, previous, c, 1) then 1
    else 0
  }

  method FanCurve(t: int, previous: nat, c: Curve) returns (state: nat)
    ensures state == Demand(t, previous, c)
  {
    state := 0;
    if t >= c.low { state := 1; }
    if t >= c.medium { state := 2; }
    if t >= c.high { state := 3; }
    if !(previous < 1 || t < c.low - c.hysteresis || state >= 1) { state := 1; }
    if !(previous < 2 || t < c.medium - c.hysteresis || state >= 2) { state := 2; }
    if !(previous < 3 || t < c.high - c.hysteresis || state >= 3) { state := 3; }
  }

  /** With ordered thresholds the curve is three independent two-threshold triggers. */
  lemma {:induction false} DemandIsThreeTriggers(t: int, previous: nat, c: Curve)
    requires Ordered(c)
    ensures forall k | 1 <= k <= 3 :: Demand(t, previous, c) >= k <==> LevelOn(t, previous, c, k)
  {
    forall k | 1 <= k <= 3 ensures Demand(t, previous, c) >= k <==> LevelOn(t, previous, c, k) {
      assert k == 1 || k == 2 || k == 3;
    }
  }

  /** Hotter, or higher before, never means lower now. */
  lemma {:induction false} DemandMonotone(t: int, u: int, previous: nat, earlier: nat, c: Curve)
    requires t <= u && previous <= earlier
    ensures Demand(t, previous, c) <= Demand(u, earlier, c)
  {
  }

  lemma {:induction false} DemandIdempotent(t: int, previous: nat, c: Curve)
    requires Ordered(c)
    ensures Demand(t, Demand(t, previous, c), c) == Demand(t, previous, c)
  {
    DemandIsThreeTriggers(t, previous, c);
  }

  // ----- runs: how often a level is crossed while the temperature stays in a narrow window

  /** How often level `k` is switched on or off along a run. */
  function Crossings(ts: seq<int>, previous: nat, c: Curve, k: nat): nat {
    if ts == [] then 0
    else
      var next := Demand(ts[0], previous, c);
      (if (previous >= k) != (next >= k) then 1 else 0) + Crossings(ts[1..], next, c, k)
  }

  /** How often the state changes along a run. */
  function Changes(ts: seq<int>, previous: nat, c: Curve): nat {
    if ts == [] then 0
    else
      var next := Demand(ts[0], previous, c);
      (if previous != next then 1 else 0) + Changes(ts[1..], next, c)
  }

  ghost predicate Within(ts: seq<int>, low: int, high: int) {
    forall i | 0 <= i < |ts| :: low <= ts[i] <= high
  }

  /** A level that no temperature of the window can switch any more is never crossed again. */
  lemma {:induction false} Settled(ts: seq<int>, previous: nat, c: Curve, k: nat, low: int, high: int)
    requires Ordered(c) && 1 <= k <= 3 && Within(ts, low, high)
    requires if previous >= k then low >= Threshold(c, k) - c.hysteresis else high < Threshold(c, k)
    ensures Crossings(ts, previous, c, k) == 0
    decreases |ts|
  {
    if ts != [] {
      DemandIsThreeTriggers(ts[0], previous, c);
      Settled(ts[1..], Demand(ts[0], previous, c), c, k, low, high);
    }
  }

  /** While the temperature moves no further than the hysteresis, each level is crossed at most once. */
  lemma {:induction false} CrossedAtMostOnce(ts: seq<int>, previous: nat, c: Curve, k: nat, low: int, high: int)
    requires Ordered(c) && 1 <= k <= 3 && Within(ts, low, high) && high - low <= c.hysteresis
    ensures Crossings(ts, previous, c, k) <= 1
    decreases |ts|
  {
    if ts != [] {
      var next := Demand(ts[0], previous, c);
      DemandIsThreeTriggers(ts[0], previous, c);
      if (previous >= k) != (next >= k) {
        Settled(ts[1..], next, c, k, low, high);
      } else {
        CrossedAtMostOnce(ts[1..], next, c, k, low, high);
      }
    }
  }

  lemma {:induction false} ChangesAreCrossings(ts: seq<int>, previous: nat, c: Curve)
    requires previous <= 3
    ensures Changes(ts, previous, c) <=
            Crossings(ts, previous, c, 1) + Crossings(ts, previous, c, 2) + Crossings(ts, previous, c, 3)
    decreases |ts|
  {
    if ts != [] {
      ChangesAreCrossings(ts[1..], Demand(ts[0], previous, c), c);
    }
  }

  /** Hence the state changes at most three times, however long the run. */
  lemma {:induction false} AtMostThreeChanges(ts: seq<int>, previous: nat, c: Curve, low: int, high: int)
    requires Ordered(c) && previous <= 3 && Within(ts, low, high) && high - low <= c.hysteresis
    ensures Changes(ts, previous, c) <= 3
  {
    ChangesAreCrossings(ts, previous, c);
    CrossedAtMostOnce(ts, previous, c, 1, low, high);
    CrossedAtMostOnce(ts, previous, c, 2, low, high);
    CrossedAtMostOnce(ts, previous, c, 3, low, high);
  }

  // ----- reading one temperature

  /** `None` stands for a file that cannot be read. */
  function Temperature(contents: Option<string>): (r: Option<nat>)
    ensures r.Some? <==> contents.Some? && Numeric(contents.value) && 1000 <= Number(contents.value) <= 150000
    ensures r.Some? ==> r.value == Number(contents.value)
  {
    match contents
    case None => None
    case Some(s) =>
      if !Numeric(s) then None
      else if 1000 <= Number(s) <= 150000 then Some(Number(s))
      else None
  }

  /** A printed temperature is read back exactly if it is plausible, and rejected otherwise. */
  lemma {:induction false} TemperatureReadsBack(t: nat)
    ensures Temperature(Some(Decimal(t))) == if 1000 <= t <= 150000 then Some(t) else None
  {
    DecimalReadsBack(t);
  }
}
