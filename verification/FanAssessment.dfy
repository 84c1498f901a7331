/**
  What a cycle makes of its readings, over whole runs and in the script's own numbers: the demand of
  each sensor, the faults, the critical limits, and the level that follows.
 */
module FanAssessment {
  import opened Results
  import opened FanPolicy
  import opened FanWorker
  import opened FanHistory

  // ----- a cycle's decision is the assessment of its scan

  /** The state before cycle `n`, and what its scan has found. */
  lemma {:induction false} DecisionIsAssessed(rs: seq<Readings>, n: nat)
    requires n < |rs|
    ensures var d, s := Log(rs)[n].d, After(rs[..n]);
            var sc := Scanned(s, rs[n]);
            var a := Assess(s, sc, d.present);
            && d.cpu == sc.cpu && d.phy == sc.phy && d.disk == sc.disk && d.disks == sc.disks
            && d.cpuDemand == a.cpuDemand && d.phyDemand == a.phyDemand && d.diskDemand == a.diskDemand
            && d.bad == a.bad && d.critical == a.critical && d.target == a.target
            && d.alarmFault == (a.alarmBad >= 3) && After(rs[..n + 1]).expected == a.expected
            && d.present == AtaCount(rs[n].vendors)
  {
    hide Scanned, AtaCount, Assess, Waiting, SinceWhile, Log, After;
    LogAt(rs, n);
    AfterNext(rs, n);
  }

  // ----- the critical limits

  /** A cycle is critical exactly at 90 degrees of the CPU, 60 of a disk, or 100 of the network chip. */
  lemma {:induction false} CriticalExactly(rs: seq<Readings>, n: nat)
    requires n < |rs|
    ensures var d := Log(rs)[n].d; d.critical <==> d.cpu >= 90000 || d.disk >= 60000 || d.phy >= 100000
  {
    hide Scanned, AtaCount, Log, After, Demand;
    DecisionIsAssessed(rs, n);
  }

  // ----- the demands

  /** On from `at`, and once on, until the reading falls below `below`. */
  predicate Switches(on: bool, was: bool, t: nat, at: nat, below: nat) {
    on <==> t >= at || (was && t >= below)
  }

  datatype Demands = Demands(cpu: nat, phy: nat, disk: nat)

  function DemandsOf(d: Decision): Demands {
    Demands(d.cpuDemand, d.phyDemand, d.diskDemand)
  }

  /** The demands of the cycle before cycle `n`. */
  function Before(rs: seq<Readings>, n: nat): Demands
    requires n <= |rs|
  {
    if n == 0 then Demands(0, 0, 0) else DemandsOf(Log(rs)[n - 1].d)
  }

  lemma {:induction false} StateHasDemands(rs: seq<Readings>, n: nat)
    requires n <= |rs|
    ensures var s := After(rs[..n]); Before(rs, n) == Demands(s.cpuState, s.phyState, s.diskState)
  {
    hide Scanned, AtaCount, Assess, Waiting, SinceWhile, Log, After;
    if n > 0 {
      LogAt(rs, n - 1);
      AfterNext(rs, n - 1);
    } else {
      assert rs[..0] == [];
      Beginning();
    }
  }

  /** Each of the nine levels switches on its own thresholds, from what it was in the cycle before. */
  lemma {:induction false} DemandsExactly(rs: seq<Readings>, n: nat)
    requires n < |rs|
    ensures var d, was := Log(rs)[n].d, Before(rs, n);
            && d.cpuDemand <= 3 && d.phyDemand <= 3 && d.diskDemand <= 3
            && Switches(d.cpuDemand >= 1, was.cpu >= 1, d.cpu, 60000, 56000)
            && Switches(d.cpuDemand >= 2, was.cpu >= 2, d.cpu, 65000, 61000)
            && Switches(d.cpuDemand >= 3, was.cpu >= 3, d.cpu, 75000, 71000)
            && Switches(d.phyDemand >= 1, was.phy >= 1, d.phy, 55000, 51000)
            && Switches(d.phyDemand >= 2, was.phy >= 2, d.phy, 65000, 61000)
            && Switches(d.phyDemand >= 3, was.phy >= 3, d.phy, 75000, 71000)
            && Switches(d.diskDemand >= 1, was.disk >= 1, d.disk, 36000, 34000)
            && Switches(d.diskDemand >= 2, was.disk >= 2, d.disk, 42000, 40000)
            && Switches(d.diskDemand >= 3, was.disk >= 3, d.disk, 48000, 46000)
  {
    hide Scanned, AtaCount, Log, After, Before;
    DecisionIsAssessed(rs, n);
    StateHasDemands(rs, n);
  }

  // ----- the target and the level

  /** A faulty or critical cycle aims at 3, any other at the highest of the three demands. */
  lemma {:induction false} TargetExactly(rs: seq<Readings>, n: nat)
    requires n < |rs|
    ensures var d := Log(rs)[n].d;
            if d.bad || d.critical then d.target == 3
            else
              && d.target >= d.cpuDemand && d.target >= d.phyDemand && d.target >= d.diskDemand
              && (d.target == d.cpuDemand || d.target == d.phyDemand || d.target == d.diskDemand)
  {
    hide Scanned, AtaCount, Log, After, Demand;
    DecisionIsAssessed(rs, n);
  }

  /**
    The level follows the target up at once; it follows it down in one step or not at all. The fan
    gets a starting pulse exactly when it leaves standstill.
   */
  lemma {:induction false} LevelFollowsTarget(rs: seq<Readings>, n: nat)
    requires n < |rs|
    ensures var d := Log(rs)[n].d;
            && (d.target >= d.held ==> d.level == d.target)
            && (d.target < d.held ==> d.level == d.held || d.level == d.target)
            && (d.pulse <==> d.held == 0 && d.level > 0)
  {
    hide Scanned, AtaCount, Assess, SinceWhile, Log, After;
    LogAt(rs, n);
    LastIsLevel(rs[..n]);
  }

  // ----- the scan whose disk data a cycle works with

  /** The latest cycle up to `n` that scanned the disks: 20 seconds after the one before it, or after the start. */
  function ScanInUse(rs: seq<Readings>, n: nat): (j: Option<nat>)
    requires n <= |rs|
    ensures j.Some? ==> j.value < n
  {
    if n == 0 then None
    else
      var before := ScanInUse(rs, n - 1);
      var since := if before.Some? then rs[before.value].now else 0;
      if rs[n - 1].now - since >= 20 then Some(n - 1) else before
  }

  function DisksInUse(rs: seq<Readings>, n: nat): Disks
    requires n <= |rs|
  {
    match ScanInUse(rs, n)
    case None => Disks(0, 0, false)
    case Some(j) => DisksOf(FullScan(rs[j]))
  }

  /** What the state after a cycle keeps of its scan. */
  lemma {:induction false} KeepsScan(s: State, r: Readings)
    ensures var next, x := Step(s, r), DisksOf(Scanned(s, r));
            && next.diskTime == (if Due(s, r.now) then r.now else s.diskTime)
            && (Due(s, r.now) ==> Disks(next.diskCached, next.disksCached, next.diskBad) == x)
            && (!Due(s, r.now) ==> next.diskCached == s.diskCached && next.disksCached == s.disksCached)
            && next.diskBad == x.failed
  {
    hide Scanned, AtaCount, Assess, Waiting, SinceWhile;
  }

  lemma {:induction false} ScannedDisks(s: State, r: Readings)
    ensures DisksOf(Scanned(s, r)) ==
            if Due(s, r.now) then DisksOf(FullScan(r)) else Disks(s.diskCached, s.disksCached, s.diskBad)
  {
    hide ScanAll;
    if !Due(s, r.now) {
      NotDueKeepsDisks(Scan(0, 0, s.diskCached, s.disksCached, false, s.diskBad, None), r.hwmon);
    }
  }

  lemma {:induction false} CacheIsInUse(rs: seq<Readings>, n: nat)
    requires n <= |rs|
    ensures var s, j := After(rs[..n]), ScanInUse(rs, n);
            && s.diskTime == (if j.Some? then rs[j.value].now else 0)
            && Disks(s.diskCached, s.disksCached, s.diskBad) == DisksInUse(rs, n)
    decreases n
  {
    hide Scanned, FullScan, Step, After;
    if n == 0 {
      assert rs[..0] == [];
      Beginning();
    } else {
      CacheIsInUse(rs, n - 1);
      AfterNext(rs, n - 1);
      KeepsScan(After(rs[..n - 1]), rs[n - 1]);
      ScannedDisks(After(rs[..n - 1]), rs[n - 1]);
    }
  }

  /** Every cycle works with the disks of the scan in use. */
  lemma {:induction false} WorksWithScanInUse(rs: seq<Readings>, n: nat)
    requires n < |rs|
    ensures DisksOf(Scanned(After(rs[..n]), rs[n])) == DisksInUse(rs, n + 1)
    ensures Log(rs)[n].d.disk == DisksInUse(rs, n + 1).max && Log(rs)[n].d.disks == DisksInUse(rs, n + 1).count
  {
    hide Scanned, FullScan, Step, After, Log, Assess, AtaCount;
    CacheIsInUse(rs, n);
    ScannedDisks(After(rs[..n]), rs[n]);
    DecisionIsAssessed(rs, n);
  }

  // ----- the faults

  /** No reading of the sensor is valid. */
  ghost predicate Silent(hs: seq<Hwmon>, name: string) {
    forall i, t | 0 <= i < |hs| :: !Reads(hs[i], name, t)
  }

  /** A drive awake in the scan in use could not be read. */
  ghost predicate DriveFailed(rs: seq<Readings>, n: nat)
    requires n <= |rs|
  {
    var j := ScanInUse(rs, n);
    j.Some? && exists h | h in DriveEntries(rs[j.value].hwmon) :: !h.asleep && Temperature(h.temperature).None?
  }

  lemma {:induction false} FailedInUse(rs: seq<Readings>, n: nat)
    requires n <= |rs|
    ensures DisksInUse(rs, n).failed <==> DriveFailed(rs, n)
  {
    hide Temperature, ScanAll, ScanInUse;
    var j := ScanInUse(rs, n);
    if j.Some? {
      FullScanMeaning(Scan(0, 0, 0, 0, false, false, None), rs[j.value].hwmon);
    }
  }

  lemma {:induction false} SilentIsZero(hs: seq<Hwmon>, name: string, t: nat)
    requires LastReading(hs, name, t)
    ensures t == 0 <==> Silent(hs, name)
  {
    hide Temperature;
  }

  lemma {:induction false} NoAlarmText(hs: seq<Hwmon>)
    ensures AlarmText(hs) == None <==> forall h | h in hs :: h.name != "gpio_fan"
    decreases |hs|
  {
    if hs != [] {
      var n := |hs| - 1;
      NoAlarmText(hs[..n]);
      assert forall h :: h in hs <==> h in hs[..n] || h == hs[n];
    }
  }

  /** What a scan leaves of the sensors other than the disks. */
  lemma {:induction false} ScannedSensors(s: State, r: Readings)
    ensures var sc := Scanned(s, r);
            && LastReading(r.hwmon, CPU_SENSOR, sc.cpu) && LastReading(r.hwmon, PHY_SENSOR, sc.phy)
            && (sc.bad <==> exists h | h in r.hwmon :: Fails(h)) && sc.alarm == AlarmText(r.hwmon)
  {
    hide ScanAll, LastReading, Fails;
    var due := Due(s, r.now);
    var start := Scan(0, 0, if due then 0 else s.diskCached, if due then 0 else s.disksCached, false,
                      if due then false else s.diskBad, None);
    ScanFindsSensors(start, r.hwmon, due);
    ScanFindsAlarm(start, r.hwmon, due);
  }

  lemma {:induction false} BadIs(rs: seq<Readings>, n: nat)
    requires n < |rs|
    ensures var d, sc := Log(rs)[n].d, Scanned(After(rs[..n]), rs[n]);
            d.bad <==> sc.bad || sc.cpu == 0 || sc.phy == 0 || sc.alarm == None
                       || d.disks < After(rs[..n + 1]).expected || sc.diskBad || d.alarmFault
  {
    hide Scanned, AtaCount, Log, After, Demand;
    DecisionIsAssessed(rs, n);
  }

  /**
    A cycle is faulty exactly if a CPU or network reading fails or none is valid, if there is no fan
    sensor, if fewer disks are counted than in any cycle so far, if a drive awake in the scan in use
    could not be read, or if it is the third alarmed cycle in a row.
   */
  lemma {:induction false} FaultExactly(rs: seq<Readings>, n: nat)
    requires n < |rs|
    ensures var log, hs := Log(rs), rs[n].hwmon;
            log[n].d.bad <==>
            || (exists h | h in hs :: Fails(h))
            || Silent(hs, CPU_SENSOR) || Silent(hs, PHY_SENSOR)
            || (forall h | h in hs :: h.name != "gpio_fan")
            || (exists k :: 0 <= k <= n && (log[n].d.disks < log[k].d.disks || log[n].d.disks < log[k].d.present))
            || DriveFailed(rs, n + 1)
            || (n >= 2 && log[n - 2].d.alarmed && log[n - 1].d.alarmed && log[n].d.alarmed)
  {
    hide Log, After, Scanned, LastReading, Fails, Silent, DriveFailed, ScanInUse, DisksInUse;
    var s, hs := After(rs[..n]), rs[n].hwmon;
    var sc := Scanned(s, rs[n]);
    BadIs(rs, n);
    ScannedSensors(s, rs[n]);
    SilentIsZero(hs, CPU_SENSOR, sc.cpu);
    SilentIsZero(hs, PHY_SENSOR, sc.phy);
    NoAlarmText(hs);
    WorksWithScanInUse(rs, n);
    FailedInUse(rs, n + 1);
    AlarmFault(rs, n);
    MissingExactly(rs, n);
  }

  /** The expected count is that of some cycle, unless it is 0. */
  lemma {:induction false} MostIsReached(log: seq<Entry>)
    requires MostDisks(log) > 0
    ensures exists k :: 0 <= k < |log| && (MostDisks(log) == log[k].d.disks || MostDisks(log) == log[k].d.present)
    decreases |log|
  {
    var n := |log| - 1;
    if MostDisks(log) != log[n].d.disks && MostDisks(log) != log[n].d.present {
      MostIsReached(log[..n]);
      var front := log[..n];
      var k :| 0 <= k < n && (MostDisks(front) == front[k].d.disks || MostDisks(front) == front[k].d.present);
      assert log[..n][k] == log[k];
    }
  }

  lemma {:induction false} MissingExactly(rs: seq<Readings>, n: nat)
    requires n < |rs|
    ensures var log := Log(rs);
            log[n].d.disks < After(rs[..n + 1]).expected <==>
            exists k :: 0 <= k <= n && (log[n].d.disks < log[k].d.disks || log[n].d.disks < log[k].d.present)
  {
    hide Log, After, MostDisks;
    var log := Log(rs);
    LogPrefix(rs, n + 1);
    ExpectedIsMost(rs[..n + 1]);
    var upTo := Log(rs[..n + 1]);
    assert forall k | 0 <= k <= n :: upTo[k] == log[k];
    if log[n].d.disks < MostDisks(upTo) {
      MostIsReached(upTo);
      var k :| 0 <= k < |upTo| && (MostDisks(upTo) == upTo[k].d.disks || MostDisks(upTo) == upTo[k].d.present);
      assert log[n].d.disks < log[k].d.disks || log[n].d.disks < log[k].d.present;
    }
    if k :| 0 <= k <= n && (log[n].d.disks < log[k].d.disks || log[n].d.disks < log[k].d.present) {
      MostIsUpperBound(upTo, k);
    }
  }

  // ----- the block devices

  /** The devices counted are those whose vendor contains "ATA". */
  lemma {:induction false} AtaIsContained(vendor: string)
    ensures IsAta(vendor) <==> exists front: string, back: string :: vendor == front + "ATA" + back
  {
    if IsAta(vendor) {
      var i: nat :| i + 3 <= |vendor| && AtaAt(vendor, i);
      assert vendor == vendor[..i] + "ATA" + vendor[i + 3..];
    }
    if front: string, back: string :| vendor == front + "ATA" + back {
      assert AtaAt(vendor, |front|);
    }
  }

  function Ata(vendors: seq<string>): set<nat> {
    set i: nat | i < |vendors| && IsAta(vendors[i])
  }

  function Later(s: set<nat>): set<nat> {
    set i | i in s :: i + 1
  }

  lemma {:induction false} LaterIn(s: set<nat>, k: nat)
    ensures k in Later(s) <==> k > 0 && k - 1 in s
  {
    assert k > 0 && k - 1 in s ==> k - 1 + 1 in Later(s);
  }

  lemma {:induction false} AsManyLater(s: set<nat>)
    ensures |Later(s)| == |s|
    decreases |s|
  {
    if s != {} {
      var x :| x in s;
      AsManyLater(s - {x});
      forall k: nat ensures k in Later(s) <==> k in Later(s - {x}) + {x + 1} {
        LaterIn(s, k);
        LaterIn(s - {x}, k);
      }
      assert Later(s) == Later(s - {x}) + {x + 1};
      LaterIn(s - {x}, x + 1);
    }
  }

  lemma {:induction false} AtaCounted(vendors: seq<string>)
    ensures AtaCount(vendors) == |Ata(vendors)|
    decreases |vendors|
  {
    hide IsAta, Later;
    if vendors != [] {
      var first := if IsAta(vendors[0]) then {0} else {};
      AtaCounted(vendors[1..]);
      AsManyLater(Ata(vendors[1..]));
      forall k: nat ensures k in Ata(vendors) <==> k in Later(Ata(vendors[1..])) + first {
        LaterIn(Ata(vendors[1..]), k);
        assert 0 < k < |vendors| ==> vendors[1..][k - 1] == vendors[k];
      }
      LaterIn(Ata(vendors[1..]), 0);
      assert Ata(vendors) == Later(Ata(vendors[1..])) + first;
    }
  }
}
