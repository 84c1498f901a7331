/**
  What every careless kill makes possible: two workers drive the fan, a warm reading in one and a
  cool reading in the other, and the fan is started from standstill directly at level 1.
 */
module FanLowStart {
  import opened Results
  import opened Digits
  import opened FanPolicy
  import opened FanSystem
  import opened FanReach
  import F = FanWorker
  import O = FanOwnership
  import C = FanCycle
  import W = FanWatchdog
  import S = FanSupervisor

  // ----- readings that ask for a given level, whatever came before

  /** A CPU temperature that is level `want` for every previous state. */
  function Heat(want: nat): nat
    requires want <= 3
  {
    if want == 0 then 40000 else if want == 1 then 60500 else if want == 2 then 66000 else 80000
  }

  function Drives(n: nat): seq<F.Hwmon> {
    if n == 0 then [] else [F.Hwmon("drivetemp", None, true, "")] + Drives(n - 1)
  }

  /** Healthy sensors, a quiet fan, and `n` drives in standby. */
  function Reading(want: nat, n: nat, now: nat): F.Readings
    requires want <= 3
  {
    F.Readings(now, [F.Hwmon("d0018300.thermal", Some(Decimal(Heat(want))), false, ""),
                     F.Hwmon("d0072004mdiomii00", Some(Decimal(40000)), false, ""),
                     F.Hwmon("gpio_fan", None, false, "0")] + Drives(n), [])
  }

  lemma {:induction false} ScanDrives(sc: F.Scan, n: nat)
    ensures F.ScanAll(sc, Drives(n), true) == sc.(disks := sc.disks + n)
    decreases n
  {
    if n > 0 {
      assert Drives(n)[1..] == Drives(n - 1);
      ScanDrives(sc.(disks := sc.disks + 1), n - 1);
    }
  }

  lemma {:induction false} ScanStep(sc: F.Scan, hs: seq<F.Hwmon>)
    requires hs != []
    ensures F.ScanAll(sc, hs, true) == F.ScanAll(F.ScanOne(sc, hs[0], true), hs[1..], true)
  {
    hide F.ScanOne;
  }

  lemma {:induction false} ScanReading(s: F.State, want: nat, now: nat)
    requires want <= 3 && F.Due(s, now)
    ensures F.Scanned(s, Reading(want, s.expected, now)) ==
            F.Scan(Heat(want), 40000, 0, s.expected, false, false, Some("0"))
  {
    hide Temperature, Heat;
    HeatIsPlausible(want);
    TemperatureReadsBack(40000);
    var drives := Drives(s.expected);
    var hs := Reading(want, s.expected, now).hwmon;
    var a := F.Scan(0, 0, 0, 0, false, false, None);
    var b := F.ScanOne(a, hs[0], true);
    var c := F.ScanOne(b, hs[1], true);
    var d := F.ScanOne(c, hs[2], true);
    assert hs[1..][0] == hs[1] && hs[1..][1..][0] == hs[2] && hs[1..][1..][1..] == drives;
    ScanStep(a, hs);
    ScanStep(b, hs[1..]);
    ScanStep(c, hs[1..][1..]);
    ScanDrives(d, s.expected);
  }

  lemma {:induction false} HeatIsPlausible(want: nat)
    requires want <= 3
    ensures Temperature(Some(Decimal(Heat(want)))) == Some(Heat(want)) && 0 < Heat(want) < 90000
    ensures forall previous: nat :: Demand(Heat(want), previous, CPU) == want
    ensures forall previous: nat :: Demand(40000, previous, PHY) == 0 && Demand(0, previous, DISK) == 0
  {
    hide Temperature;
    TemperatureReadsBack(Heat(want));
  }

  /** With such a reading and a due disk scan, a cycle is healthy and its target is `want`. */
  lemma {:induction false} SteadyCycle(s: F.State, want: nat, now: nat)
    requires want <= 3 && F.Due(s, now)
    ensures var (next, d) := F.Sense(s, Reading(want, s.expected, now));
            && !d.faultShutdown && !d.thermalShutdown
            && next.expected == s.expected && next.diskTime == now && next.last == s.last
            && d.level == next.level == (if F.Waiting(s, want, now) then s.level else want)
            && next.lowSince == (if F.Waiting(s, want, now) then F.Since(s.lowSince, now) else 0)
            && d.pulse == (s.last == 0 && d.level > 0)
  {
    hide Temperature, Heat, F.Scanned, F.Waiting, F.Since, Demand;
    ScanReading(s, want, now);
    HeatIsPlausible(want);
    assert F.AtaCount(Reading(want, s.expected, now).vendors) == 0;
  }

  // ----- bringing a worker to a level

  /** Two cycles, a minute apart, bring a worker to any level. */
  lemma {:induction false} Settles(base: seq<Event>, s: System, p: nat, want: nat) returns (t: System)
    requires want <= 3 && Leads(base, s) && Alive(s, p) && s.workers[p].phase == Ready
    ensures Leads(base, t) && t.sup == s.sup && |t.workers| == |s.workers|
    ensures Alive(t, p) && t.workers[p].phase == Ready && t.workers[p].st.level == t.workers[p].st.last == want
    ensures forall q: nat | q < |s.workers| && q != p :: t.workers[q] == s.workers[q]
    ensures Last(t.writes) == Some(want)
  {
    hide Leads, F.Sense, F.Due;
    var st := s.workers[p].st;
    var s1 := Ticks(base, s, st.diskTime + st.lowSince + 20);
    assert F.Due(st, s1.clock) by { LongAgo(st, s1.clock); }
    SteadyCycle(st, want, s1.clock);
    var s2 := Completes(base, s1, p, Reading(want, st.expected, s1.clock));
    var mid := s2.workers[p].st;
    var s3 := Ticks(base, s2, 60);
    assert F.Due(mid, s3.clock) by { LongAgo(mid, s3.clock); }
    SteadyCycle(mid, want, s3.clock);
    t := Completes(base, s3, p, Reading(want, mid.expected, s3.clock));
  }

  lemma {:induction false} LongAgo(s: F.State, now: nat)
    requires now >= s.diskTime + 20
    ensures F.Due(s, now)
  {
  }

  /** A settled worker decides for its level once more and stands before the write. */
  lemma {:induction false} ReadiesWrite(base: seq<Event>, s: System, p: nat, want: nat)
    returns (t: System, d: F.Decision)
    requires want <= 3 && Leads(base, s) && Alive(s, p) && s.workers[p].phase == Ready
    requires s.workers[p].st.level == s.workers[p].st.last == want
    ensures Leads(base, t) && C.Commanded(t, p, Write, d) && d.level == want && |t.workers| == |s.workers|
    ensures forall q: nat | q < |s.workers| && q != p :: t.workers[q] == s.workers[q]
  {
    hide Leads, F.Sense, F.Due;
    var st := s.workers[p].st;
    var s1 := Ticks(base, s, st.diskTime + 20);
    assert F.Due(st, s1.clock) by { LongAgo(st, s1.clock); }
    SteadyCycle(st, want, s1.clock);
    var s2;
    s2, d := Decides(base, s1, p, Reading(want, st.expected, s1.clock));
    Goes(base, s2, Work(p, Act(true)));
    t := Next(s2, Work(p, Act(true)));
  }

  lemma {:induction false} Writes(base: seq<Event>, s: System, p: nat, d: F.Decision) returns (t: System)
    requires Leads(base, s) && C.Commanded(s, p, Write, d)
    ensures Leads(base, t) && t.writes == s.writes + [d.level] && |t.workers| == |s.workers|
    ensures forall q: nat | q < |s.workers| && q != p :: t.workers[q] == s.workers[q]
  {
    hide Leads;
    Goes(base, s, Work(p, Act(true)));
    t := Next(s, Work(p, Act(true)));
  }

  // ----- two workers

  /** The fan has just been started from standstill at level 1. */
  predicate LowStart(writes: seq<nat>) {
    |writes| >= 2 && writes[|writes| - 2] == 0 && writes[|writes| - 1] == 1
  }

  /** Two workers at the head of their loops, in whatever state. */
  lemma {:induction false} TwoStartLow(base: seq<Event>, s: System, p: nat, q: nat) returns (t: System)
    requires Leads(base, s) && Alive(s, p) && Alive(s, q) && p != q
    requires s.workers[p].phase == Ready && s.workers[q].phase == Ready
    ensures Leads(base, t) && LowStart(t.writes)
  {
    hide Leads, F.Sense, Next;
    var s1 := Settles(base, s, p, 1);
    var s2 := Settles(base, s1, q, 0);
    var s3, d := ReadiesWrite(base, s2, p, 1);
    var s4, e := ReadiesWrite(base, s3, q, 0);
    var s5 := Writes(base, s4, q, e);
    t := Writes(base, s5, p, d);
  }

  /**
    A worker at any point of its program, even if it is asleep, gets to the head of its loop; if it
    is about to read back a level that has since been overwritten, the other worker first sets that
    level again.
   */
  lemma {:induction false} GetsReady(base: seq<Event>, s: System, p: nat, q: nat) returns (t: System)
    requires Leads(base, s) && Alive(s, p) && Alive(s, q) && p != q && s.workers[q].phase == Ready
    requires W.Sound(s.workers[p], s.clock)
    ensures Leads(base, t) && Alive(t, p) && Alive(t, q) && t.sup == s.sup
    ensures t.workers[p].phase == Ready && t.workers[q].phase == Ready
  {
    var u := Ticks(base, s, 2);
    t := Wakes(base, u, p, q);
  }

  lemma {:induction false} Wakes(base: seq<Event>, s: System, p: nat, q: nat) returns (t: System)
    requires Leads(base, s) && Alive(s, p) && Alive(s, q) && p != q && s.workers[q].phase == Ready
    requires W.Sound(s.workers[p], s.clock)
    ensures Leads(base, t) && Alive(t, p) && Alive(t, q) && t.sup == s.sup
    ensures t.workers[p].phase == Ready && t.workers[q].phase == Ready
  {
    hide Leads, F.Sense, Next, F.Commit;
    var w := s.workers[p];
    match w.phase
    case Forked => t := Opens(base, s, p);
    case Opening => t := Opens(base, s, p);
    case Ready => t := s;
    case Begun(begin) =>
      var r := Reading(0, 0, begin);
      var d := F.Sense(w.st, r).1;
      var u := Next(s, Work(p, Decide(r)));
      Goes(base, s, Work(p, Decide(r)));
      assert C.Commanded(u, p, First(d), d) && Alive(u, q) && u.workers[q] == s.workers[q] && u.sup == s.sup by {
        DecidesNow(s, p, q, r);
      }
      t := Finishes(base, u, p, First(d), d);
    case Acting(begin, d, at, seen) =>
      if at.Beat? {
        Goes(base, s, Work(p, Report(false)));
        t := Next(s, Work(p, Report(false)));
        ReportsNow(s, p, q);
      } else {
        var u := s;
        if at.ReadBack? {
          u := Settles(base, s, q, d.level);
        }
        t := Finishes(base, u, p, at, d);
      }
  }

  lemma {:induction false} DecidesNow(s: System, p: nat, q: nat, r: F.Readings)
    requires Alive(s, p) && Alive(s, q) && p != q && s.workers[p].phase.Begun? && s.workers[p].phase.begin == r.now
    ensures var d, t := F.Sense(s.workers[p].st, r).1, Next(s, Work(p, Decide(r)));
            && C.Commanded(t, p, First(d), d) && |t.workers| == |s.workers|
            && t.workers[q] == s.workers[q] && t.sup == s.sup
  {
    hide F.Sense;
  }

  lemma {:induction false} ReportsNow(s: System, p: nat, q: nat)
    requires Alive(s, p) && Alive(s, q) && p != q && s.workers[p].phase.Acting? && s.workers[p].phase.at.Beat?
    ensures var t := Next(s, Work(p, Report(false)));
            && |t.workers| == |s.workers| && t.workers[q] == s.workers[q] && t.sup == s.sup
            && Alive(t, p) && t.workers[p].phase == Ready
  {
  }

  // ----- the theorem

  /**
    After every careless kill, wherever its worker stands, the run can go on so that the fan is
    started from standstill directly at level 1. In careful runs it never is.
   */
  lemma {:induction false} CarelessKillStartsLow(es: seq<Event>)
    requires O.Careless(Run(es), Supervise(Leave(false)))
    ensures exists more :: Calm(more) && LowStart(Run(es + [Supervise(Leave(false))] + more).writes)
  {
    hide Run, Next, F.Sense, S.After;
    var base := es + [Supervise(Leave(false))];
    var s := Run(base);
    var p := Run(es).sup.child;
    O.RunThen(es, Supervise(Leave(false)));
    assert s.sup.stage.Down? && s.workers == Run(es).workers && s.pidFile == Run(es).pidFile by { Leaves(Run(es)); }
    W.AlwaysTruthful(base);
    LeadsNowhere(base);
    var s1 := Restarts(base, s);
    assert s1.workers[p] == s.workers[p];
    var q := |s.workers|;
    var s2 := Opens(base, s1, q);
    var s3 := GetsReady(base, s2, p, q);
    var t := TwoStartLow(base, s3, p, q);
    var more :| Calm(more) && Run(base + more) == t;
  }

  lemma {:induction false} Leaves(s: System)
    requires CanMove(s, Leave(false))
    ensures var t := Next(s, Supervise(Leave(false)));
            t.sup.stage.Down? && t.workers == s.workers && t.pidFile == s.pidFile
  {
  }

  /** Careless kills do occur: a careful run can reach the point of one. */
  lemma {:induction false} CarelessKillIsPossible()
    ensures exists es :: O.Careful(es) && O.Careless(Run(es), Supervise(Leave(false)))
  {
    hide Run, Next, O.Careful;
    LeadsNowhere([]);
    assert Run([]) == Boot() by { NothingYet(); }
    var t := Restarts([], Boot());
    var more :| Calm(more) && Run([] + more) == t;
    assert O.Careful([]) by { NothingYet(); }
    CalmIsCareful([], more);
    assert O.Careless(t, Supervise(Leave(false)));
  }
}
