/**
  What the worker's few variables mean over a whole run: which stretch of past cycles each
  shutdown, each fault and each reduction of the fan level depends on.
 */
module FanHistory {
  import opened Results
  import opened FanPolicy
  import opened FanWorker
  import T = SinceTimers

  /** The uptime does not run backwards. */
  ghost predicate Clock(rs: seq<Readings>) {
    forall i, j | 0 <= i <= j < |rs| :: rs[i].now <= rs[j].now
  }

  // ----- logs and their prefixes

  lemma {:induction false} LogPrefix(rs: seq<Readings>, n: nat)
    requires n <= |rs|
    ensures Log(rs)[..n] == Log(rs[..n])
    decreases |rs|
  {
    hide Sense, Step;
    if n == |rs| {
      assert rs[..n] == rs;
    } else {
      var front := rs[..|rs| - 1];
      LogPrefix(front, n);
      assert front[..n] == rs[..n];
      assert Log(rs)[..n] == Log(front)[..n];
    }
  }

  lemma {:induction false} LogAt(rs: seq<Readings>, n: nat)
    requires n < |rs|
    ensures Log(rs)[n] == Entry(rs[n].now, Sense(After(rs[..n]), rs[n]).1)
    ensures Log(rs[..n + 1]) == Log(rs[..n]) + [Log(rs)[n]]
  {
    hide Sense, Step;
    LogPrefix(rs, n + 1);
    var upTo := rs[..n + 1];
    assert upTo[..n] == rs[..n];
    assert Log(rs)[n] == Log(rs)[..n + 1][n];
  }

  lemma {:induction false} AfterNext(rs: seq<Readings>, n: nat)
    requires n < |rs|
    ensures After(rs[..n + 1]) == Step(After(rs[..n]), rs[n])
  {
    hide Step;
    assert rs[..n + 1][..n] == rs[..n];
  }

  /** Each cycle starts from the level at which the previous one ended. */
  lemma {:induction false} HeldChain(rs: seq<Readings>, n: nat)
    requires n < |rs|
    ensures Log(rs)[n].d.held == After(rs[..n]).level
    ensures Log(rs)[n].d.level == After(rs[..n + 1]).level
    ensures n > 0 ==> Log(rs)[n].d.held == Log(rs)[n - 1].d.level
    ensures n == 0 ==> Log(rs)[n].d.held == 3
  {
    hide Scanned, AtaCount, Assess, Waiting, SinceWhile, Log, After;
    LogAt(rs, n);
    AfterNext(rs, n);
    if n > 0 {
      LogAt(rs, n - 1);
      AfterNext(rs, n - 1);
    } else {
      assert rs[..0] == [];
      Beginning();
    }
  }

  lemma {:induction false} Beginning()
    ensures After([]) == Initial()
  {
  }

  lemma {:induction false} LastIsLevel(rs: seq<Readings>)
    ensures After(rs).last == After(rs).level <= 3
    decreases |rs|
  {
    hide Sense;
    if rs != [] {
      LastIsLevel(rs[..|rs| - 1]);
      LevelCoversDemand(After(rs[..|rs| - 1]), rs[|rs| - 1]);
    }
  }

  // ----- the level is never below the demand

  /** The level of a cycle covers all three sensor demands, and is 3 in a faulty or critical cycle. */
  lemma {:induction false} LevelCoversDemand(s: State, r: Readings)
    requires s.level <= 3
    ensures var d := Sense(s, r).1;
            && d.cpuDemand <= d.level <= 3 && d.phyDemand <= d.level && d.diskDemand <= d.level
            && (d.bad || d.critical ==> d.level == 3)
            && Sense(s, r).0.level == d.level
  {
    hide Scanned, AtaCount, SinceWhile, Since, LevelOn;
  }

  // ----- the two shutdowns

  function Sample(on: bool, now: nat): T.Sample {
    if on then T.On(now) else T.Off
  }

  /** What a timer may watch: faulty cycles, critical ones, or those that hold a level above their target. */
  datatype Condition = Faulty | Critical | Low(at: nat)

  predicate Holds(c: Condition, d: Decision) {
    match c
    case Faulty => d.bad
    case Critical => d.critical
    case Low(at) => d.held == at && d.level == at && d.target < at
  }

  function Samples(log: seq<Entry>, c: Condition): (h: seq<T.Sample>)
    ensures |h| == |log| && forall k | 0 <= k < |log| :: h[k] == Sample(Holds(c, log[k].d), log[k].now)
    decreases |log|
  {
    if log == [] then []
    else
      var x := log[|log| - 1];
      Samples(log[..|log| - 1], c) + [Sample(Holds(c, x.d), x.now)]
  }

  lemma {:induction false} SamplesSnoc(log: seq<Entry>, c: Condition)
    requires log != []
    ensures var n := |log| - 1;
            T.Since(Samples(log, c)) == T.Next(T.Since(Samples(log[..n], c)), Sample(Holds(c, log[n].d), log[n].now))
  {
    var n := |log| - 1;
    assert Samples(log, c)[..n] == Samples(log[..n], c);
  }

  /** In all cycles from `i` to `n` the condition held. */
  ghost predicate Lasting(log: seq<Entry>, c: Condition, i: nat, n: nat) {
    i <= n < |log| && forall k | i <= k <= n :: Holds(c, log[k].d)
  }

  /** The timer's streaks are the log's. */
  lemma {:induction false} StreaksLast(log: seq<Entry>, c: Condition, h: seq<T.Sample>, n: nat)
    requires n < |log| && |h| == n + 1 && forall k | 0 <= k <= n :: h[k] == Sample(Holds(c, log[k].d), log[k].now)
    ensures forall i: nat :: T.Streak(h, i) <==> Lasting(log, c, i, n)
    ensures forall i: nat | T.Streak(h, i) :: i <= n && h[i].On? && h[i].now == log[i].now
    ensures forall i: nat | Lasting(log, c, i, n) :: Holds(c, log[n].d)
  {
    hide Holds;
    forall i: nat ensures T.Streak(h, i) <==> Lasting(log, c, i, n) {
      if T.Streak(h, i) {
        forall k | i <= k <= n ensures Holds(c, log[k].d) {
          assert !h[k].Off?;
        }
      }
    }
  }

  lemma {:induction false} SenseTimers(s: State, r: Readings)
    ensures var (next, d) := Sense(s, r);
            && next.faultSince == T.Next(s.faultSince, Sample(d.bad, r.now))
            && next.hotSince == T.Next(s.hotSince, Sample(d.critical, r.now))
            && d.faultShutdown == (d.bad && r.now - next.faultSince >= 120)
            && d.thermalShutdown == (d.critical && (d.cpu >= 95000 || r.now - next.hotSince >= 10))
  {
    hide Scanned, AtaCount, Assess, Waiting;
  }

  lemma {:induction false} LogSnoc(rs: seq<Readings>)
    requires rs != []
    ensures var n := |rs| - 1;
            && Log(rs) != [] && Log(rs)[..n] == Log(rs[..n])
            && Log(rs)[n] == Entry(rs[n].now, Sense(After(rs[..n]), rs[n]).1)
            && After(rs) == Commit(Sense(After(rs[..n]), rs[n]).0)
  {
    hide Sense;
  }

  lemma {:induction false} ShutdownTimers(rs: seq<Readings>)
    ensures After(rs).faultSince == T.Since(Samples(Log(rs), Faulty))
    ensures After(rs).hotSince == T.Since(Samples(Log(rs), Critical))
    decreases |rs|
  {
    hide Sense, Log, After, Sample;
    if rs == [] {
      NoCycles();
    } else {
      var n := |rs| - 1;
      LogSnoc(rs);
      ShutdownTimers(rs[..n]);
      SenseTimers(After(rs[..n]), rs[n]);
      SamplesSnoc(Log(rs), Faulty);
      SamplesSnoc(Log(rs), Critical);
    }
  }

  lemma {:induction false} NoCycles()
    ensures Log([]) == [] && After([]) == Initial()
  {
  }

  /** The log as a whole, up to and including cycle `n`. */
  lemma {:induction false} UpTo(rs: seq<Readings>, n: nat)
    requires n < |rs| && Clock(rs)
    ensures var log := Log(rs[..n + 1]);
            && |log| == n + 1 && log == Log(rs)[..n + 1]
            && (forall i, j | 0 <= i <= j < |log| :: log[i].now <= log[j].now)
            && forall k | 0 <= k <= n :: log[k] == Log(rs)[k] && log[k].now == rs[k].now
  {
    hide Log;
    LogPrefix(rs, n + 1);
    forall k | 0 <= k <= n ensures Log(rs)[k].now == rs[k].now {
      LogAt(rs, k);
    }
  }

  /** The fault shutdown is due exactly when an unbroken streak of faulty cycles spans 120 seconds. */
  lemma {:induction false} FaultShutdown(rs: seq<Readings>, n: nat)
    requires n < |rs| && Clock(rs)
    ensures var log := Log(rs);
            log[n].d.faultShutdown <==>
            exists i: nat :: Lasting(log, Faulty, i, n) && log[i].now > 0 && log[n].now - log[i].now >= 120
  {
    hide Sense, Step, Log, After, Lasting, T.Streak, T.Since;
    var log, h := Log(rs), Samples(Log(rs[..n + 1]), Faulty);
    UpTo(rs, n);
    LogAt(rs, n);
    AfterNext(rs, n);
    CommitTimers(rs, n);
    ShutdownTimers(rs[..n + 1]);
    StreaksLast(log, Faulty, h, n);
    if log[n].d.bad {
      T.Expired(h, 120);
    }
  }

  lemma {:induction false} CommitTimers(rs: seq<Readings>, n: nat)
    requires n < |rs|
    ensures var next, d := Step(After(rs[..n]), rs[n]), Sense(After(rs[..n]), rs[n]).1;
            && d.faultShutdown == (d.bad && rs[n].now - next.faultSince >= 120)
            && d.thermalShutdown == (d.critical && (d.cpu >= 95000 || rs[n].now - next.hotSince >= 10))
  {
    hide Sense;
    SenseTimers(After(rs[..n]), rs[n]);
  }

  /**
    The thermal shutdown is due exactly when the cycle is critical and either the CPU is at
    95 degrees or the critical streak spans 10 seconds.
   */
  lemma {:induction false} ThermalShutdown(rs: seq<Readings>, n: nat)
    requires n < |rs| && Clock(rs)
    ensures var log := Log(rs);
            log[n].d.thermalShutdown <==>
            log[n].d.critical &&
            (log[n].d.cpu >= 95000 ||
             exists i: nat :: Lasting(log, Critical, i, n) && log[i].now > 0 && log[n].now - log[i].now >= 10)
  {
    hide Sense, Step, Log, After, Lasting, T.Streak, T.Since;
    var log, h := Log(rs), Samples(Log(rs[..n + 1]), Critical);
    UpTo(rs, n);
    LogAt(rs, n);
    AfterNext(rs, n);
    CommitTimers(rs, n);
    ShutdownTimers(rs[..n + 1]);
    StreaksLast(log, Critical, h, n);
    if log[n].d.critical {
      T.Expired(h, 10);
    }
  }

  // ----- reductions of the level

  lemma {:induction false} SenseReduction(s: State, r: Readings)
    ensures var (next, d) := Sense(s, r);
            && d.held == s.level && next.level == d.level
            && d.level == (if d.target < s.level && r.now - Since(s.lowSince, r.now) < 60 then s.level else d.target)
            && next.lowSince == (if Holds(Low(s.level), d) then Since(s.lowSince, r.now) else 0)
  {
    hide Scanned, AtaCount, Assess, SinceWhile;
  }

  lemma {:induction false} ReductionTimer(rs: seq<Readings>)
    ensures After(rs).lowSince == T.Since(Samples(Log(rs), Low(After(rs).level)))
    decreases |rs|
  {
    hide Sense, Log, After;
    if rs == [] {
      NoCycles();
    } else {
      var n := |rs| - 1;
      LogSnoc(rs);
      ReductionTimer(rs[..n]);
      SenseReduction(After(rs[..n]), rs[n]);
      SamplesSnoc(Log(rs), Low(After(rs).level));
    }
  }

  /** From cycle `i` to `n` the same level was held on entry and every target was below it. */
  ghost predicate LowStreak(log: seq<Entry>, i: nat, n: nat) {
    i <= n < |log| && forall k | i <= k <= n :: log[k].d.held == log[n].d.held && log[k].d.target < log[k].d.held
  }

  /** A reduction goes straight to the target of its own cycle. */
  lemma {:induction false} ReductionReachesTarget(s: State, r: Readings)
    ensures var d := Sense(s, r).1; d.level < d.held ==> d.level == d.target
  {
    hide Scanned, AtaCount, Assess, SinceWhile;
  }

  /**
    The level drops at a cycle exactly when an earlier cycle, at least 60 seconds before, began
    a stretch up to here in which the level was held and every target was below it.
   */
  lemma {:induction false} ReductionExactly(rs: seq<Readings>, n: nat)
    requires n < |rs| && Clock(rs)
    ensures var log := Log(rs);
            log[n].d.level < log[n].d.held <==>
            exists i: nat :: LowStreak(log, i, n) && log[i].now > 0 && log[n].now - log[i].now >= 60
  {
    hide Sense, Step, Log, After, Samples;
    var log, at := Log(rs), Log(rs)[n].d.held;
    LogAt(rs, n);
    SenseReduction(After(rs[..n]), rs[n]);
    if log[n].d.target < at {
      var h := Samples(Log(rs)[..n], Low(at)) + [T.On(rs[n].now)];
      LowTimer(rs, n, h);
      StreaksAgree(rs, n, h);
      T.Expired(h, 60);
    }
  }

  lemma {:induction false} LowTimer(rs: seq<Readings>, n: nat, h: seq<T.Sample>)
    requires n < |rs| && Clock(rs)
    requires h == Samples(Log(rs)[..n], Low(After(rs[..n]).level)) + [T.On(rs[n].now)]
    ensures T.Since(h) == Since(After(rs[..n]).lowSince, rs[n].now) && T.Monotone(h)
  {
    hide Sense, Step, Log, After, Holds;
    LogPrefix(rs, n);
    ReductionTimer(rs[..n]);
    assert h[..n] == Samples(Log(rs)[..n], Low(After(rs[..n]).level));
    LowMonotone(rs, n, h);
  }

  lemma {:induction false} LowMonotone(rs: seq<Readings>, n: nat, h: seq<T.Sample>)
    requires n < |rs| && Clock(rs)
    requires h == Samples(Log(rs)[..n], Low(After(rs[..n]).level)) + [T.On(rs[n].now)]
    ensures T.Monotone(h)
  {
    hide Sense, Step, Log, After, Holds;
    UpTo(rs, n);
    forall k | 0 <= k <= n && h[k].On? ensures h[k].now == rs[k].now {
      assert Log(rs)[k].now == rs[k].now;
    }
  }

  /** The variable's streaks are the log's: a level once left is not held any more. */
  lemma {:induction false} StreaksAgree(rs: seq<Readings>, n: nat, h: seq<T.Sample>)
    requires n < |rs| && Clock(rs) && Log(rs)[n].d.target < Log(rs)[n].d.held
    requires h == Samples(Log(rs)[..n], Low(Log(rs)[n].d.held)) + [T.On(rs[n].now)]
    ensures forall i: nat :: T.Streak(h, i) <==> LowStreak(Log(rs), i, n)
    ensures forall i: nat | T.Streak(h, i) :: h[i].now == Log(rs)[i].now
  {
    hide Log, Sense, Step, After;
    var log, at := Log(rs), Log(rs)[n].d.held;
    LogAt(rs, n);
    forall i: nat | T.Streak(h, i) ensures LowStreak(log, i, n) {
      forall k | i <= k <= n ensures log[k].d.held == at && log[k].d.target < log[k].d.held {
        assert !h[k].Off?;
      }
    }
    forall i: nat | LowStreak(log, i, n) ensures T.Streak(h, i) {
      forall k | i <= k < n ensures h[k].On? {
        HeldChain(rs, k + 1);
        assert log[k + 1].d.held == at;
      }
    }
  }

  function Drops(log: seq<Entry>): nat {
    if log == [] then 0
    else
      var last := log[|log| - 1];
      Drops(log[..|log| - 1]) + if last.d.level < last.d.held then 1 else 0
  }

  lemma {:induction false} NoDropsWithin(log: seq<Entry>, i: nat, n: nat)
    requires i <= n <= |log| && forall k | i <= k < n :: log[k].d.level >= log[k].d.held
    ensures Drops(log[..n]) == Drops(log[..i])
    decreases n
  {
    if i < n {
      assert log[..n][..n - 1] == log[..n - 1];
      NoDropsWithin(log, i, n - 1);
    }
  }

  /**
    A run has at most one reduction for every 60 seconds that it spans, and so none in its
    first 60 seconds.
   */
  lemma {:induction false} ReductionsAreRare(rs: seq<Readings>, n: nat)
    requires n < |rs| && Clock(rs)
    ensures 60 * Drops(Log(rs)[..n + 1]) <= Log(rs)[n].now - Log(rs)[0].now
    decreases n
  {
    hide Log, After, Sense, Step, Drops;
    var log := Log(rs);
    UpTo(rs, n);
    DropsSnoc(log, n);
    if log[n].d.level < log[n].d.held {
      ReductionExactly(rs, n);
      var i: nat :| LowStreak(log, i, n) && log[i].now > 0 && log[n].now - log[i].now >= 60;
      StreakHasNoDrops(rs, i, n);
      if i > 0 {
        ReductionsAreRare(rs, i - 1);
        assert log[i - 1].now <= log[i].now;
      }
    } else if n > 0 {
      ReductionsAreRare(rs, n - 1);
      assert log[n - 1].now <= log[n].now;
    }
  }

  lemma {:induction false} DropsSnoc(log: seq<Entry>, n: nat)
    requires n < |log|
    ensures Drops(log[..n + 1]) == Drops(log[..n]) + if log[n].d.level < log[n].d.held then 1 else 0
    ensures Drops(log[..0]) == 0
  {
    assert log[..n + 1][..n] == log[..n] && log[..0] == [];
  }

  lemma {:induction false} StreakHasNoDrops(rs: seq<Readings>, i: nat, n: nat)
    requires n < |rs| && LowStreak(Log(rs), i, n)
    ensures Drops(Log(rs)[..n]) == Drops(Log(rs)[..i])
  {
    hide Log, After, Drops;
    var log := Log(rs);
    forall k | i <= k < n ensures log[k].d.level >= log[k].d.held {
      HeldChain(rs, k + 1);
      assert log[k + 1].d.held == log[n].d.held && log[k].d.held == log[n].d.held;
    }
    NoDropsWithin(log, i, n);
  }

  // ----- the alarm

  /** The text of the last gpio_fan entry, or nothing. */
  function AlarmText(hs: seq<Hwmon>): Option<string> {
    if hs == [] then None
    else if hs[|hs| - 1].name == "gpio_fan" then Some(hs[|hs| - 1].alarm)
    else AlarmText(hs[..|hs| - 1])
  }

  lemma {:induction false} ScanAppend(sc: Scan, hs: seq<Hwmon>, h: Hwmon, due: bool)
    ensures ScanAll(sc, hs + [h], due) == ScanOne(ScanAll(sc, hs, due), h, due)
    decreases |hs|
  {
    hide ScanOne;
    if hs == [] {
      assert ([] + [h])[1..] == [];
      ScanLast(ScanOne(sc, h, due), due);
    } else {
      assert (hs + [h])[1..] == hs[1..] + [h];
      ScanAppend(ScanOne(sc, hs[0], due), hs[1..], h, due);
    }
  }

  lemma {:induction false} ScanLast(sc: Scan, due: bool)
    ensures ScanAll(sc, [], due) == sc
  {
  }

  lemma {:induction false} ScanFindsAlarm(sc: Scan, hs: seq<Hwmon>, due: bool)
    requires sc.alarm == None
    ensures ScanAll(sc, hs, due).alarm == AlarmText(hs)
    decreases |hs|
  {
    hide Temperature;
    if hs != [] {
      var n := |hs| - 1;
      assert hs == hs[..n] + [hs[n]];
      ScanAppend(sc, hs[..n], hs[n], due);
      ScanFindsAlarm(sc, hs[..n], due);
    }
  }

  /** A cycle is alarmed when the fan was running before it and the alarm reads anything but "0". */
  lemma {:induction false} Alarmed(rs: seq<Readings>, n: nat)
    requires n < |rs|
    ensures var d := Log(rs)[n].d; d.alarmed <==> d.held > 0 && AlarmText(rs[n].hwmon) != Some("0")
  {
    hide ScanAll, AtaCount, Waiting, SinceWhile, Log, After, Demand;
    LogAt(rs, n);
    LastIsLevel(rs[..n]);
    var s, due := After(rs[..n]), Due(After(rs[..n]), rs[n].now);
    ScanFindsAlarm(Scan(0, 0, if due then 0 else s.diskCached, if due then 0 else s.disksCached, false,
                        if due then false else s.diskBad, None), rs[n].hwmon, due);
  }

  lemma {:induction false} AlarmRun(rs: seq<Readings>)
    ensures var log, m := Log(rs), After(rs).alarmBad;
            && m <= |log| && (forall k | |log| - m <= k < |log| :: log[k].d.alarmed)
            && (m < |log| ==> !log[|log| - m - 1].d.alarmed)
    decreases |rs|
  {
    hide Sense, Log, After;
    if rs == [] {
      NoCycles();
    } else {
      LogSnoc(rs);
      AlarmRun(rs[..|rs| - 1]);
      SenseAlarm(After(rs[..|rs| - 1]), rs[|rs| - 1]);
    }
  }

  lemma {:induction false} SenseAlarm(s: State, r: Readings)
    ensures var (next, d) := Sense(s, r);
            && next.alarmBad == (if d.alarmed then s.alarmBad + 1 else 0)
            && d.alarmFault == (next.alarmBad >= 3)
  {
    hide Scanned, AtaCount, Waiting, SinceWhile, Demand;
  }

  /** The alarm is a fault exactly from the third alarmed cycle in a row. */
  lemma {:induction false} AlarmFault(rs: seq<Readings>, n: nat)
    requires n < |rs|
    ensures var log := Log(rs);
            log[n].d.alarmFault <==>
            n >= 2 && log[n - 2].d.alarmed && log[n - 1].d.alarmed && log[n].d.alarmed
    ensures Log(rs)[n].d.alarmFault ==> Log(rs)[n].d.bad && Log(rs)[n].d.level == 3
  {
    hide Scanned, AtaCount, Waiting, SinceWhile, Log, After, Demand;
    LastIsLevel(rs[..n]);
    LevelCoversDemand(After(rs[..n]), rs[n]);
    LogAt(rs, n);
    AfterNext(rs, n);
    LogPrefix(rs, n + 1);
    AlarmRun(rs[..n + 1]);
    var log, m := Log(rs), After(rs[..n + 1]).alarmBad;
    assert forall k | 0 <= k <= n :: Log(rs[..n + 1])[k] == log[k];
  }

  // ----- the temperature sensors

  const CPU_SENSOR: string := "d0018300.thermal"
  const PHY_SENSOR: string := "d0072004mdiomii00"

  predicate Reads(h: Hwmon, name: string, t: nat) {
    h.name == name && Temperature(h.temperature) == Some(t)
  }

  predicate Fails(h: Hwmon) {
    (h.name == CPU_SENSOR || h.name == PHY_SENSOR) && Temperature(h.temperature) == None
  }

  /** The last valid reading under a name; 0 if there is none. */
  ghost predicate LastReading(hs: seq<Hwmon>, name: string, t: nat) {
    if t == 0 then forall i, u | 0 <= i < |hs| :: !Reads(hs[i], name, u)
    else exists i :: 0 <= i < |hs| && Reads(hs[i], name, t) && forall j, u | i < j < |hs| :: !Reads(hs[j], name, u)
  }

  /** A scan finds the last valid reading of each sensor, and is bad exactly if some reading fails. */
  lemma {:induction false} ScanFindsSensors(sc: Scan, hs: seq<Hwmon>, due: bool)
    requires sc.cpu == sc.phy == 0 && !sc.bad
    ensures var r := ScanAll(sc, hs, due);
            && LastReading(hs, CPU_SENSOR, r.cpu) && LastReading(hs, PHY_SENSOR, r.phy)
            && (r.bad <==> exists h | h in hs :: Fails(h))
    decreases |hs|
  {
    hide Temperature, LastReading;
    if hs == [] {
      ScanLast(sc, due);
      assert LastReading([], CPU_SENSOR, 0) && LastReading([], PHY_SENSOR, 0) by { NoReading(); }
    } else {
      var n := |hs| - 1;
      assert hs == hs[..n] + [hs[n]];
      ScanAppend(sc, hs[..n], hs[n], due);
      ScanFindsSensors(sc, hs[..n], due);
      var before := ScanAll(sc, hs[..n], due);
      LastReadingStep(hs, CPU_SENSOR, before.cpu);
      LastReadingStep(hs, PHY_SENSOR, before.phy);
      OneSensor(before, hs[n], due);
      assert forall h :: h in hs <==> h in hs[..n] || h == hs[n];
    }
  }

  lemma {:induction false} NoReading()
    ensures LastReading([], CPU_SENSOR, 0) && LastReading([], PHY_SENSOR, 0)
  {
  }

  lemma {:induction false} OneSensor(sc: Scan, h: Hwmon, due: bool)
    ensures var r := ScanOne(sc, h, due);
            && (if h.name == CPU_SENSOR && Temperature(h.temperature).Some? then Reads(h, CPU_SENSOR, r.cpu)
                else r.cpu == sc.cpu)
            && (if h.name == PHY_SENSOR && Temperature(h.temperature).Some? then Reads(h, PHY_SENSOR, r.phy)
                else r.phy == sc.phy)
            && (r.bad <==> sc.bad || Fails(h))
  {
    hide Temperature;
  }

  lemma {:induction false} LastReadingStep(hs: seq<Hwmon>, name: string, t: nat)
    requires hs != [] && LastReading(hs[..|hs| - 1], name, t)
    ensures var h := hs[|hs| - 1];
            if h.name == name && Temperature(h.temperature).Some? then
              forall u | Reads(h, name, u) :: LastReading(hs, name, u)
            else LastReading(hs, name, t)
  {
    var n := |hs| - 1;
    var front, h := hs[..n], hs[n];
    if h.name == name && Temperature(h.temperature).Some? {
      assert Reads(hs[n], name, Temperature(h.temperature).value);
    } else if t != 0 {
      var i :| 0 <= i < n && Reads(front[i], name, t) && forall j, u | i < j < n :: !Reads(front[j], name, u);
      assert Reads(hs[i], name, t);
      forall j, u | i < j < |hs| ensures !Reads(hs[j], name, u) {
        if j < n {
          assert !Reads(front[j], name, u);
        }
      }
    } else {
      forall i, u | 0 <= i < |hs| ensures !Reads(hs[i], name, u) {
        if i < n {
          assert !Reads(front[i], name, u);
        }
      }
    }
  }

  /** Every cycle works with the last valid CPU and PHY readings, and is faulty if a reading fails or one is missing. */
  lemma {:induction false} SensorsAreRead(rs: seq<Readings>, n: nat)
    requires n < |rs|
    ensures var d, hs := Log(rs)[n].d, rs[n].hwmon;
            && LastReading(hs, CPU_SENSOR, d.cpu) && LastReading(hs, PHY_SENSOR, d.phy)
            && ((exists h | h in hs :: Fails(h)) || d.cpu == 0 || d.phy == 0 ==> d.bad)
  {
    hide ScanAll, AtaCount, Waiting, SinceWhile, Log, After, Demand, LastReading, Fails;
    LogAt(rs, n);
    var s, due := After(rs[..n]), Due(After(rs[..n]), rs[n].now);
    ScanFindsSensors(Scan(0, 0, if due then 0 else s.diskCached, if due then 0 else s.disksCached, false,
                          if due then false else s.diskBad, None), rs[n].hwmon, due);
  }

  // ----- the disks

  /** What one complete scan of the drive sensors finds: maximum, count, and whether one failed. */
  datatype Disks = Disks(max: nat, count: nat, failed: bool)

  function DisksOf(sc: Scan): Disks {
    Disks(sc.disk, sc.disks, sc.diskBad)
  }

  function FullScan(r: Readings): Scan {
    ScanAll(Scan(0, 0, 0, 0, false, false, None), r.hwmon, true)
  }

  predicate Drive(h: Hwmon) {
    h.name == "drivetemp"
  }

  ghost predicate IsDiskScan(hs: seq<Hwmon>, x: Disks) {
    && x.count == |DriveEntries(hs)|
    && (x.failed <==> exists h | h in DriveEntries(hs) :: !h.asleep && Temperature(h.temperature).None?)
    && (forall h | h in DriveEntries(hs) && !h.asleep && Temperature(h.temperature).Some? ::
          Temperature(h.temperature).value <= x.max)
    && (x.max == 0 || exists h | h in DriveEntries(hs) :: !h.asleep && Temperature(h.temperature) == Some(x.max))
  }

  function DriveEntries(hs: seq<Hwmon>): seq<Hwmon> {
    if hs == [] then []
    else DriveEntries(hs[..|hs| - 1]) + if Drive(hs[|hs| - 1]) then [hs[|hs| - 1]] else []
  }

  /** A full scan counts every drive and takes the maximum and the failures over the drives awake. */
  lemma {:induction false} FullScanMeaning(sc: Scan, hs: seq<Hwmon>)
    requires DisksOf(sc) == Disks(0, 0, false)
    ensures IsDiskScan(hs, DisksOf(ScanAll(sc, hs, true)))
    decreases |hs|
  {
    hide Temperature;
    if hs != [] {
      var n := |hs| - 1;
      assert hs == hs[..n] + [hs[n]];
      ScanAppend(sc, hs[..n], hs[n], true);
      FullScanMeaning(sc, hs[..n]);
      DiskScanStep(hs, ScanAll(sc, hs[..n], true));
    }
  }

  lemma {:induction false} EntriesSnoc(hs: seq<Hwmon>)
    requires hs != []
    ensures var h, before := hs[|hs| - 1], DriveEntries(hs[..|hs| - 1]);
            && (forall x :: x in DriveEntries(hs) <==> x in before || (Drive(h) && x == h))
            && |DriveEntries(hs)| == |before| + if Drive(h) then 1 else 0
  {
  }

  lemma {:induction false} DiskScanStep(hs: seq<Hwmon>, sc: Scan)
    requires hs != [] && IsDiskScan(hs[..|hs| - 1], DisksOf(sc))
    ensures IsDiskScan(hs, DisksOf(ScanOne(sc, hs[|hs| - 1], true)))
  {
    hide Temperature, DriveEntries;
    EntriesSnoc(hs);
    var h, before := hs[|hs| - 1], DriveEntries(hs[..|hs| - 1]);
    if sc.disk != 0 {
      var x :| x in before && !x.asleep && Temperature(x.temperature) == Some(sc.disk);
      assert x in DriveEntries(hs);
    }
    if Drive(h) {
      assert h in DriveEntries(hs);
    }
  }

  /** Between scans the cached disk data passes through unchanged. */
  lemma {:induction false} NotDueKeepsDisks(sc: Scan, hs: seq<Hwmon>)
    ensures DisksOf(ScanAll(sc, hs, false)) == DisksOf(sc)
    decreases |hs|
  {
    hide Temperature;
    if hs != [] {
      NotDueKeepsDisks(ScanOne(sc, hs[0], false), hs[1..]);
    }
  }

  /** The disk data of cycle `n` comes from the scan of cycle `j`, less than 20 seconds before. */
  ghost predicate FromScan(rs: seq<Readings>, n: nat, j: nat, x: Disks) {
    j <= n < |rs| && rs[n].now - rs[j].now < 20 && x == DisksOf(FullScan(rs[j]))
  }

  ghost predicate CacheOk(rs: seq<Readings>, s: State) {
    var x := Disks(s.diskCached, s.disksCached, s.diskBad);
    (s.diskTime == 0 && x == Disks(0, 0, false)) ||
    exists j: nat :: j < |rs| && s.diskTime == rs[j].now && x == DisksOf(FullScan(rs[j]))
  }

  lemma {:induction false} CacheIsScan(rs: seq<Readings>)
    ensures CacheOk(rs, After(rs))
    decreases |rs|
  {
    hide ScanAll, AtaCount, Assess, Waiting, SinceWhile, Log;
    if rs != [] {
      var n := |rs| - 1;
      var s := After(rs[..n]);
      CacheIsScan(rs[..n]);
      if !Due(s, rs[n].now) {
        NotDueKeepsDisks(Scan(0, 0, s.diskCached, s.disksCached, false, s.diskBad, None), rs[n].hwmon);
        if s.diskTime != 0 || Disks(s.diskCached, s.disksCached, s.diskBad) != Disks(0, 0, false) {
          var j: nat :| j < n && s.diskTime == rs[..n][j].now
                     && Disks(s.diskCached, s.disksCached, s.diskBad) == DisksOf(FullScan(rs[..n][j]));
          assert rs[..n][j] == rs[j];
        }
      }
    }
  }

  /**
    In every cycle the disk maximum, count and error flag come from one complete scan made less
    than 20 seconds earlier, or are the initial zeros while the uptime is below 20 seconds.
   */
  lemma {:induction false} DiskDataIsFresh(rs: seq<Readings>, n: nat)
    requires n < |rs| && Clock(rs)
    ensures var x := DisksOf(Scanned(After(rs[..n]), rs[n]));
            && Log(rs)[n].d.disk == x.max && Log(rs)[n].d.disks == x.count
            && ((rs[n].now < 20 && x == Disks(0, 0, false)) || exists j: nat :: FromScan(rs, n, j, x))
  {
    hide ScanAll, AtaCount, Assess, Waiting, SinceWhile, Log, After;
    LogAt(rs, n);
    CacheIsScan(rs[..n]);
    var s, x := After(rs[..n]), DisksOf(Scanned(After(rs[..n]), rs[n]));
    if Due(s, rs[n].now) {
      assert FromScan(rs, n, n, x);
    } else {
      NotDueKeepsDisks(Scan(0, 0, s.diskCached, s.disksCached, false, s.diskBad, None), rs[n].hwmon);
      if s.diskTime != 0 || x != Disks(0, 0, false) {
        var j: nat :| j < n && s.diskTime == rs[..n][j].now && x == DisksOf(FullScan(rs[..n][j]));
        assert rs[..n][j] == rs[j];
        assert FromScan(rs, n, j, x);
      }
    }
  }

  /** The largest count of drive sensors or ATA devices in a log. */
  function MostDisks(log: seq<Entry>): nat {
    if log == [] then 0
    else Max(MostDisks(log[..|log| - 1]), Max(log[|log| - 1].d.disks, log[|log| - 1].d.present))
  }

  lemma {:induction false} SenseExpected(s: State, r: Readings)
    ensures var (next, d) := Sense(s, r); next.expected == Max(s.expected, Max(d.disks, d.present))
  {
    hide Scanned, AtaCount, Waiting, SinceWhile, Demand;
  }

  lemma {:induction false} ExpectedIsMost(rs: seq<Readings>)
    ensures After(rs).expected == MostDisks(Log(rs))
    decreases |rs|
  {
    hide Sense, Log, After;
    if rs == [] {
      NoCycles();
    } else {
      var n := |rs| - 1;
      ExpectedIsMost(rs[..n]);
      LogSnoc(rs);
      SenseExpected(After(rs[..n]), rs[n]);
    }
  }

  lemma {:induction false} MostIsUpperBound(log: seq<Entry>, k: nat)
    requires k < |log|
    ensures log[k].d.disks <= MostDisks(log) && log[k].d.present <= MostDisks(log)
    decreases |log|
  {
    if k < |log| - 1 {
      MostIsUpperBound(log[..|log| - 1], k);
    }
  }

  /** A cycle that counts fewer disks than were ever seen is faulty and runs the fan at full speed. */
  lemma {:induction false} MissingDiskIsFault(rs: seq<Readings>, k: nat, n: nat)
    requires k <= n < |rs|
    requires Log(rs)[n].d.disks < Log(rs)[k].d.disks || Log(rs)[n].d.disks < Log(rs)[k].d.present
    ensures Log(rs)[n].d.bad && Log(rs)[n].d.level == 3
  {
    hide Scanned, AtaCount, Waiting, SinceWhile, Log, After, Demand;
    LogAt(rs, n);
    AfterNext(rs, n);
    ExpectedIsMost(rs[..n + 1]);
    LogPrefix(rs, n + 1);
    assert Log(rs[..n + 1])[k] == Log(rs)[k];
    MostIsUpperBound(Log(rs[..n + 1]), k);
    LastIsLevel(rs[..n]);
    LevelCoversDemand(After(rs[..n]), rs[n]);
  }
}
