/** One control cycle of the fan worker: sensor scan, demand, timers, and the writes that follow. */
module FanWorker {
  import opened Results
  import opened FanPolicy

  /** A directory below /sys/class/hwmon, as one cycle finds it. */
  datatype Hwmon = Hwmon(name: string, temperature: Option<string>, asleep: bool, alarm: string)

  /** What one cycle reads: the uptime, the sensors in directory order, the vendors of the block devices. */
  datatype Readings = Readings(now: nat, hwmon: seq<Hwmon>, vendors: seq<string>)

  /** The worker's local variables that live across cycles. */
  datatype State = State(
    expected: nat, cpuState: nat, phyState: nat, diskState: nat, level: nat, last: nat,
    lowSince: nat, faultSince: nat, hotSince: nat, alarmBad: nat,
    diskTime: nat, diskBad: bool, diskCached: nat, disksCached: nat)

  function Initial(): State {
    State(0, 0, 0, 0, 3, 3, 0, 0, 0, 0, 0, false, 0, 0)
  }

  /** The outcome of a cycle's computation. `held` is the level before the cycle. */
  datatype Decision = Decision(
    cpu: nat, phy: nat, disk: nat, disks: nat, present: nat,
    cpuDemand: nat, phyDemand: nat, diskDemand: nat,
    alarmed: bool, alarmFault: bool, bad: bool, critical: bool,
    held: nat, target: nat, level: nat, pulse: bool, faultShutdown: bool, thermalShutdown: bool)

  // ----- the sensor scan

  datatype Scan = Scan(cpu: nat, phy: nat, disk: nat, disks: nat, bad: bool, diskBad: bool, alarm: Option<string>)

  function ScanOne(sc: Scan, h: Hwmon, due: bool): Scan {
    if h.name == "d0018300.thermal" then
      match Temperature(h.temperature)
      case None => sc.(bad := true)
      case Some(t) => sc.(cpu := t)
    else if h.name == "d0072004mdiomii00" then
      match Temperature(h.temperature)
      case None => sc.(bad := true)
      case Some(t) => sc.(phy := t)
    else if h.name == "drivetemp" then
      if !due then sc
      else if h.asleep then sc.(disks := sc.disks + 1)
      else
        match Temperature(h.temperature)
        case None => sc.(disks := sc.disks + 1, diskBad := true)
        case Some(t) => sc.(disks := sc.disks + 1, disk := if t <= sc.disk then sc.disk else t)
    else if h.name == "gpio_fan" then sc.(alarm := Some(h.alarm))
    else sc
  }

  function ScanAll(sc: Scan, hs: seq<Hwmon>, due: bool): Scan
    decreases |hs|
  {
    if hs == [] then sc else ScanAll(ScanOne(sc, hs[0], due), hs[1..], due)
  }

  predicate AtaAt(vendor: string, i: nat)
    requires i + 3 <= |vendor|
  {
    vendor[i..i + 3] == "ATA"
  }

  predicate IsAta(vendor: string) {
    exists i: nat | i + 3 <= |vendor| :: AtaAt(vendor, i)
  }

  function AtaCount(vendors: seq<string>): nat {
    if vendors == [] then 0 else (if IsAta(vendors[0]) then 1 else 0) + AtaCount(vendors[1..])
  }

  predicate Due(s: State, now: nat) {
    now - s.diskTime >= 20
  }

  function Scanned(s: State, r: Readings): Scan {
    var due := Due(s, r.now);
    ScanAll(Scan(0, 0, if due then 0 else s.diskCached, if due then 0 else s.disksCached, false,
                 if due then false else s.diskBad, None), r.hwmon, due)
  }

  // ----- the computation of a cycle

  function Max(a: nat, b: nat): nat {
    if a <= b then b else a
  }

  /** A time that is already set stays. */
  function Since(since: nat, now: nat): nat {
    if since != 0 then since else now
  }

  /** The demand of a cycle, and whether the cycle is faulty or critical. */
  datatype Assessment = Assessment(
    expected: nat, cpuDemand: nat, phyDemand: nat, diskDemand: nat,
    alarmed: bool, alarmBad: nat, bad: bool, critical: bool, target: nat)

  function Assess(s: State, sc: Scan, present: nat): Assessment {
    var expected := Max(Max(s.expected, sc.disks), present);
    var cpuDemand := Demand(sc.cpu, s.cpuState, CPU);
    var phyDemand := Demand(sc.phy, s.phyState, PHY);
    var diskDemand := Demand(sc.disk, s.diskState, DISK);
    var alarmed := s.last > 0 && sc.alarm != Some("0");
    var alarmBad := if alarmed then s.alarmBad + 1 else 0;
    var bad := || sc.bad || sc.cpu == 0 || sc.phy == 0 || sc.alarm.None?
               || sc.disks < expected || sc.diskBad || alarmBad >= 3;
    var critical := sc.cpu >= 90000 || sc.disk >= 60000 || sc.phy >= 100000;
    Assessment(expected, cpuDemand, phyDemand, diskDemand, alarmed, alarmBad, bad, critical,
               if bad || critical then 3 else Max(Max(cpuDemand, phyDemand), diskDemand))
  }

  /** The time since when a condition has held, as far as the cycle at `now` knows. */
  function SinceWhile(condition: bool, since: nat, now: nat): nat {
    if condition then Since(since, now) else 0
  }

  /** A reduction waits until the target has been lower for 60 seconds. */
  predicate Waiting(s: State, target: nat, now: nat) {
    target < s.level && now - Since(s.lowSince, now) < 60
  }

  /** Everything but `last`, which changes only when the cycle completes. */
  function Sense(s: State, r: Readings): (State, Decision) {
    var sc, now := Scanned(s, r), r.now;
    var present := AtaCount(r.vendors);
    var a := Assess(s, sc, present);
    var faultSince := SinceWhile(a.bad, s.faultSince, now);
    var hotSince := SinceWhile(a.critical, s.hotSince, now);
    var waiting := Waiting(s, a.target, now);
    var level := if waiting then s.level else a.target;
    var due := Due(s, now);
    (State(a.expected, a.cpuDemand, a.phyDemand, a.diskDemand, level, s.last,
           if waiting then Since(s.lowSince, now) else 0, faultSince, hotSince, a.alarmBad,
           if due then now else s.diskTime, sc.diskBad,
           if due then sc.disk else s.diskCached, if due then sc.disks else s.disksCached),
     Decision(sc.cpu, sc.phy, sc.disk, sc.disks, present, a.cpuDemand, a.phyDemand, a.diskDemand,
              a.alarmed, a.alarmBad >= 3, a.bad, a.critical, s.level, a.target, level, s.last == 0 && level > 0,
              a.bad && now - faultSince >= 120,
              a.critical && (sc.cpu >= 95000 || now - hotSince >= 10)))
  }

  function Commit(s: State): State {
    s.(last := s.level)
  }

  /** A completed cycle. */
  function Step(s: State, r: Readings): State {
    Commit(Sense(s, r).0)
  }

  // ----- the writes of a cycle

  /**
    How the device behaves in one cycle: whether full speed can be set in the two emergencies,
    whether control can be taken, whether the pulse and the level can be written, and what
    reading the level back gives.
   */
  datatype Io = Io(faultFull: bool, thermalFull: bool, control: bool, pulse: bool, write: bool, readBack: Option<nat>)

  function EmergencyWrites(d: Decision, io: Io): seq<nat> {
    (if d.faultShutdown && io.faultFull then [3] else []) + (if d.thermalShutdown && io.thermalFull then [3] else [])
  }

  /** Without a successful starting pulse the level is not written. */
  function ControlWrites(d: Decision, io: Io): seq<nat> {
    if !io.control || (d.pulse && !io.pulse) then []
    else (if d.pulse then [3] else []) + (if io.write then [d.level] else [])
  }

  function Written(d: Decision, io: Io): seq<nat> {
    EmergencyWrites(d, io) + ControlWrites(d, io)
  }

  /** The cycle reaches its heartbeat; otherwise the worker ends. */
  predicate Completed(d: Decision, io: Io) {
    io.control && (d.pulse ==> io.pulse) && io.write && io.readBack == Some(d.level)
  }

  // ----- runs

  /** The worker's state after completed cycles with the given readings. */
  function After(rs: seq<Readings>): State {
    if rs == [] then Initial() else Step(After(rs[..|rs| - 1]), rs[|rs| - 1])
  }

  lemma {:induction false} AfterSnoc(rs: seq<Readings>, r: Readings)
    ensures After(rs + [r]) == Step(After(rs), r)
  {
    hide Step;
    assert (rs + [r])[..|rs|] == rs;
  }

  lemma {:induction false} LastStays(s: State, r: Readings)
    ensures Sense(s, r).0.last == s.last
  {
    hide Scanned, AtaCount, Assess, Waiting, SinceWhile;
  }

  datatype Entry = Entry(now: nat, d: Decision)

  /** What those cycles decided. */
  function Log(rs: seq<Readings>): (r: seq<Entry>)
    ensures |r| == |rs|
  {
    if rs == [] then []
    else
      var front, last := rs[..|rs| - 1], rs[|rs| - 1];
      Log(front) + [Entry(last.now, Sense(After(front), last).1)]
  }

  // ----- the loops and reassignments of the program, proved against the functions above

  method ScanSensors(s: State, r: Readings) returns (sc: Scan)
    ensures sc == Scanned(s, r)
  {
    hide Temperature;
    var cpu, phy, bad, diskBad := 0, 0, false, s.diskBad;
    var disk, disks := s.diskCached, s.disksCached;
    var alarm: Option<string> := None;
    var due := r.now - s.diskTime >= 20;
    if due {
      disk, disks, diskBad := 0, 0, false;
    }
    ghost var start := Scan(cpu, phy, disk, disks, bad, diskBad, alarm);
    assert r.hwmon[0..] == r.hwmon;
    for i := 0 to |r.hwmon|
      invariant ScanAll(start, r.hwmon, due)
             == ScanAll(Scan(cpu, phy, disk, disks, bad, diskBad, alarm), r.hwmon[i..], due)
    {
      var h := r.hwmon[i];
      assert r.hwmon[i..][0] == h && r.hwmon[i..][1..] == r.hwmon[i + 1..];
      if h.name == "d0018300.thermal" {
        match Temperature(h.temperature) {
          case None => bad := true;
          case Some(t) => cpu := t;
        }
      } else if h.name == "d0072004mdiomii00" {
        match Temperature(h.temperature) {
          case None => bad := true;
          case Some(t) => phy := t;
        }
      } else if h.name == "drivetemp" {
        if due {
          disks := disks + 1;
          if !h.asleep {
            match Temperature(h.temperature) {
              case None => diskBad := true;
              case Some(t) => if t > disk { disk := t; }
            }
          }
        }
      } else if h.name == "gpio_fan" {
        alarm := Some(h.alarm);
      }
    }
    sc := Scan(cpu, phy, disk, disks, bad, diskBad, alarm);
  }

  method CountAta(vendors: seq<string>) returns (present: nat)
    ensures present == AtaCount(vendors)
  {
    hide IsAta;
    present := 0;
    assert vendors[0..] == vendors;
    for i := 0 to |vendors|
      invariant AtaCount(vendors) == present + AtaCount(vendors[i..])
    {
      assert vendors[i..][0] == vendors[i] && vendors[i..][1..] == vendors[i + 1..];
      if IsAta(vendors[i]) {
        present := present + 1;
      }
    }
  }

  /** Sensor completeness, the three curves, the alarm, the critical limits. */
  method Evaluate(s: State, sc: Scan, present: nat) returns (a: Assessment)
    ensures a == Assess(s, sc, present)
  {
    hide Demand;
    var bad, expected := sc.bad, s.expected;
    if sc.disks > expected { expected := sc.disks; }
    if present > expected { expected := present; }
    if !(sc.cpu > 0 && sc.phy > 0 && sc.alarm.Some?) { bad := true; }
    if !(sc.disks >= expected && !sc.diskBad) { bad := true; }
    var cpuState := FanCurve(sc.cpu, s.cpuState, CPU);
    var phyState := FanCurve(sc.phy, s.phyState, PHY);
    var diskState := FanCurve(sc.disk, s.diskState, DISK);
    var target := cpuState;
    if phyState > target { target := phyState; }
    if diskState > target { target := diskState; }
    // A missing gpio_fan leaves the alarm text empty, which counts as an alarm.
    var alarmed, alarmBad := s.last > 0 && sc.alarm != Some("0"), s.alarmBad;
    if alarmed { alarmBad := alarmBad + 1; } else { alarmBad := 0; }
    if alarmBad >= 3 { bad := true; }
    var critical := sc.cpu >= 90000 || sc.disk >= 60000 || sc.phy >= 100000;
    if bad { target := 3; }
    if critical { target := 3; }
    a := Assessment(expected, cpuState, phyState, diskState, alarmed, alarmBad, bad, critical, target);
  }

  /** The three timers and the new level; true for each shutdown that is due. */
  method Advance(s: State, now: nat, cpu: nat, bad: bool, critical: bool, target: nat)
    returns (faultSince: nat, hotSince: nat, lowSince: nat, level: nat, faultShutdown: bool, thermalShutdown: bool)
    ensures faultSince == SinceWhile(bad, s.faultSince, now) && hotSince == SinceWhile(critical, s.hotSince, now)
    ensures level == if Waiting(s, target, now) then s.level else target
    ensures lowSince == if Waiting(s, target, now) then Since(s.lowSince, now) else 0
    ensures faultShutdown == (bad && now - faultSince >= 120)
    ensures thermalShutdown == (critical && (cpu >= 95000 || now - hotSince >= 10))
  {
    faultSince, hotSince, lowSince, level := s.faultSince, s.hotSince, s.lowSince, s.level;
    faultShutdown, thermalShutdown := false, false;
    if bad {
      if faultSince == 0 { faultSince := now; }
      if now - faultSince >= 120 { faultShutdown := true; }
    } else {
      faultSince := 0;
    }
    if critical {
      if hotSince == 0 { hotSince := now; }
      if cpu >= 95000 || now - hotSince >= 10 { thermalShutdown := true; }
    } else {
      hotSince := 0;
    }
    if target < level {
      if lowSince == 0 { lowSince := now; }
      if !(now - lowSince < 60) { level, lowSince := target, 0; }
    } else {
      level, lowSince := target, 0;
    }
  }

  /** The computation of one cycle, up to the first write. */
  method Compute(s: State, r: Readings) returns (next: State, d: Decision)
    ensures (next, d) == Sense(s, r)
  {
    hide Scanned, AtaCount, Assess, Waiting, SinceWhile, Due, Since;
    var sc := ScanSensors(s, r);
    var present := CountAta(r.vendors);
    var a := Evaluate(s, sc, present);
    var faultSince, hotSince, lowSince, level, faultShutdown, thermalShutdown :=
      Advance(s, r.now, sc.cpu, a.bad, a.critical, a.target);
    var diskTime, diskCached, disksCached := s.diskTime, s.diskCached, s.disksCached;
    if Due(s, r.now) {
      diskCached, disksCached, diskTime := sc.disk, sc.disks, r.now;
    }
    next := State(a.expected, a.cpuDemand, a.phyDemand, a.diskDemand, level, s.last, lowSince, faultSince, hotSince,
                  a.alarmBad, diskTime, sc.diskBad, diskCached, disksCached);
    d := Decision(sc.cpu, sc.phy, sc.disk, sc.disks, present, a.cpuDemand, a.phyDemand, a.diskDemand,
                  a.alarmed, a.alarmBad >= 3, a.bad, a.critical, s.level, a.target, level, s.last == 0 && level > 0,
                  faultShutdown, thermalShutdown);
  }

  // ----- the worker with its variables and the cooling device

  /** The cooling device: its current state, and every value written to it so far. */
  class Fan {
    var current: nat
    ghost var writes: seq<nat>

    constructor ()
      ensures writes == [] && current == 0
    {
      current, writes := 0, [];
    }

    /** A write that the device accepts, or not. */
    method Write(value: nat, accepted: bool)
      modifies this
      ensures writes == old(writes) + (if accepted then [value] else [])
      ensures current == if accepted then value else old(current)
    {
      if accepted {
        current := value;
        writes := writes + [value];
      }
    }
  }

  class Worker {
    /** The largest disk count so far, the three demands, the level, and the level of the last completed cycle. */
    var expected: nat
    var cpuState: nat
    var phyState: nat
    var diskState: nat
    var state: nat
    var last: nat
    /** Times since when, and the alarmed cycles in a row. */
    var lowSince: nat
    var faultSince: nat
    var hotSince: nat
    var alarmBad: nat
    /** The latest disk scan. */
    var diskTime: nat
    var diskBad: bool
    var diskCached: nat
    var disksCached: nat
    /** The readings of the completed cycles. */
    ghost var history: seq<Readings>

    function Locals(): State
      reads this
    {
      State(expected, cpuState, phyState, diskState, state, last, lowSince, faultSince, hotSince, alarmBad,
            diskTime, diskBad, diskCached, disksCached)
    }

    ghost predicate Valid()
      reads this
    {
      Locals() == After(history)
    }

    constructor ()
      ensures Valid() && history == []
    {
      expected, cpuState, phyState, diskState, state, last := 0, 0, 0, 0, 3, 3;
      lowSince, faultSince, hotSince, alarmBad := 0, 0, 0, 0;
      diskTime, diskBad, diskCached, disksCached := 0, false, 0, 0;
      history := [];
    }

    /** The variables after a cycle's computation; `last` keeps its value. */
    method Store(s: State)
      requires s.last == last
      modifies this
      ensures Locals() == s && history == old(history)
    {
      expected, cpuState, phyState, diskState, state := s.expected, s.cpuState, s.phyState, s.diskState, s.level;
      StoreTimers(s);
      StoreScan(s);
    }

    method StoreTimers(s: State)
      modifies `lowSince, `faultSince, `hotSince, `alarmBad
      ensures lowSince == s.lowSince && faultSince == s.faultSince && hotSince == s.hotSince && alarmBad == s.alarmBad
    {
      lowSince, faultSince, hotSince, alarmBad := s.lowSince, s.faultSince, s.hotSince, s.alarmBad;
    }

    method StoreScan(s: State)
      modifies `diskTime, `diskBad, `diskCached, `disksCached
      ensures diskTime == s.diskTime && diskBad == s.diskBad
      ensures diskCached == s.diskCached && disksCached == s.disksCached
    {
      diskTime, diskBad, diskCached, disksCached := s.diskTime, s.diskBad, s.diskCached, s.disksCached;
    }

    /** One pass of the worker's loop; false means that the worker ends without a heartbeat. */
    method Cycle(r: Readings, io: Io, fan: Fan) returns (beat: bool, d: Decision)
      requires Valid()
      modifies this, fan
      ensures d == Sense(old(Locals()), r).1
      ensures fan.writes == old(fan.writes) + Written(d, io)
      ensures beat == Completed(d, io)
      ensures beat ==> Valid() && history == old(history) + [r] && Locals() == Step(old(Locals()), r)
      ensures beat ==> fan.current == d.level
    {
      hide Written, Completed, Sense, After;
      LastStays(Locals(), r);
      var next;
      next, d := Compute(Locals(), r);
      Store(next);
      beat := Drive(io, fan, d);
      if beat {
        last := state;
        history := history + [r];
        AfterSnoc(old(history), r);
      }
    }

    /** The emergencies, taking control, the starting pulse, the level and its read-back. */
    method Drive(io: Io, fan: Fan, d: Decision) returns (beat: bool)
      modifies fan
      ensures fan.writes == old(fan.writes) + Written(d, io)
      ensures beat == Completed(d, io)
      ensures beat ==> fan.current == d.level
    {
      Emergencies(io, fan, d);
      beat := Control(io, fan, d);
      assert old(fan.writes) + EmergencyWrites(d, io) + ControlWrites(d, io) == old(fan.writes) + Written(d, io);
    }

    method Emergencies(io: Io, fan: Fan, d: Decision)
      modifies fan
      ensures fan.writes == old(fan.writes) + EmergencyWrites(d, io)
    {
      if d.faultShutdown { fan.Write(3, io.faultFull); }
      if d.thermalShutdown { fan.Write(3, io.thermalFull); }
    }

    method Control(io: Io, fan: Fan, d: Decision) returns (beat: bool)
      modifies fan
      ensures fan.writes == old(fan.writes) + ControlWrites(d, io)
      ensures beat == Completed(d, io)
      ensures beat ==> fan.current == d.level
    {
      if !io.control { return false; }
      if d.pulse {
        fan.Write(3, io.pulse);
        if !io.pulse { return false; }
      }
      fan.Write(d.level, io.write);
      if !io.write { return false; }
      return io.readBack == Some(d.level);
    }
  }
}
