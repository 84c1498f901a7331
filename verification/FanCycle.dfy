/**
  A worker's cycle that no other process disturbs, command by command, is exactly the cycle of
  `FanWorker.Worker.Cycle`: the same writes, the same ending, the same next state.
 */
module FanCycle {
  import opened Results
  import opened FanSystem
  import F = FanWorker

  /** Whether a command succeeds, given how the device behaves in this cycle. */
  function Succeeds(c: Command, d: F.Decision, io: F.Io): bool {
    match c
    case FaultEmergency => io.faultFull
    case ThermalEmergency => io.thermalFull
    case Control => io.control
    case Pulse => io.pulse
    case Write => io.write
    case ReadBack => io.readBack == Some(d.level)
    case _ => true
  }

  function Rank(c: Command): nat {
    match c
    case FaultEmergency => 6
    case ThermalEmergency => 5
    case Control => 4
    case Pulse => 3
    case Write => 2
    case ReadBack => 1
    case _ => 0
  }

  /** Process `p` carries out the command at `c`. */
  predicate Commanded(s: System, p: nat, c: Command, d: F.Decision) {
    && p < |s.workers| && s.workers[p].live
    && s.workers[p].phase.Acting? && s.workers[p].phase.at == c && s.workers[p].phase.d == d
  }

  /** The starting pulse is given two seconds. */
  function Sleep(c: Command, ok: bool): nat {
    if c.Pulse? && ok then 2 else 0
  }

  /** Process `p` carries out one command and sleeps behind it, if the program does. */
  function Obey(s: System, p: nat, c: Command, ok: bool): System {
    var t := Next(s, Work(p, Act(ok)));
    if Sleep(c, ok) > 0 then Next(t, Tick(Sleep(c, ok))) else t
  }

  /** The commands from `c` up to the heartbeat's, or to the one that ends the worker. */
  function Drive(s: System, p: nat, c: Command, d: F.Decision, io: F.Io): System
    decreases Rank(c)
  {
    if Rank(c) == 0 then s
    else
      var ok := Succeeds(c, d, io);
      var t := Obey(s, p, c, ok);
      if Survives(c, ok) then Drive(t, p, Following(c, d), d, io) else t
  }

  /** What one command writes. */
  function Did(c: Command, d: F.Decision, ok: bool): seq<nat> {
    if !ok || c.Control? || c.ReadBack? then [] else if c.Write? then [d.level] else [3]
  }

  /** What the commands from `c` write. */
  function Rest(c: Command, d: F.Decision, io: F.Io): seq<nat>
    decreases Rank(c)
  {
    if Rank(c) == 0 then []
    else
      var ok := Succeeds(c, d, io);
      Did(c, d, ok) + if Survives(c, ok) then Rest(Following(c, d), d, io) else []
  }

  /** How long the commands from `c` sleep. */
  function Sleeps(c: Command, d: F.Decision, io: F.Io): nat
    decreases Rank(c)
  {
    if Rank(c) == 0 then 0
    else
      var ok := Succeeds(c, d, io);
      Sleep(c, ok) + if Survives(c, ok) then Sleeps(Following(c, d), d, io) else 0
  }

  /** From `c` on, no command fails that would end the worker. */
  predicate Through(c: Command, d: F.Decision, io: F.Io)
    decreases Rank(c)
  {
    Rank(c) == 0 || (Survives(c, Succeeds(c, d, io)) && Through(Following(c, d), d, io))
  }

  lemma {:induction false} RestIsWritten(d: F.Decision, io: F.Io)
    ensures Rest(First(d), d, io) == F.Written(d, io)
  {
    hide Rest, F.ControlWrites;
    FromControl(d, io);
    FromEmergency(FaultEmergency, d, io);
    FromEmergency(ThermalEmergency, d, io);
  }

  lemma {:induction false} FromEmergency(c: Command, d: F.Decision, io: F.Io)
    requires c.FaultEmergency? || c.ThermalEmergency?
    ensures Rest(c, d, io) == (if Succeeds(c, d, io) then [3] else []) + Rest(Following(c, d), d, io)
  {
  }

  lemma {:induction false} FromControl(d: F.Decision, io: F.Io)
    ensures Rest(Control, d, io) == F.ControlWrites(d, io)
  {
    assert Rest(ReadBack, d, io) == [];
    assert Rest(Write, d, io) == if io.write then [d.level] else [];
    assert Rest(Pulse, d, io) == if io.pulse then [3] + Rest(Write, d, io) else [];
  }

  lemma {:induction false} ThroughIsCompleted(d: F.Decision, io: F.Io)
    ensures Through(First(d), d, io) <==> F.Completed(d, io)
  {
    assert Through(Write, d, io) <==> io.write && io.readBack == Some(d.level) by {
      assert Through(ReadBack, d, io) <==> io.readBack == Some(d.level);
    }
    assert Through(Control, d, io) <==> io.control && (d.pulse ==> io.pulse) && Through(Write, d, io);
    assert Through(ThermalEmergency, d, io) == Through(Control, d, io);
  }

  lemma {:induction false} SleepsForPulse(d: F.Decision, io: F.Io)
    ensures Sleeps(First(d), d, io) == if io.control && d.pulse && io.pulse then 2 else 0
  {
    assert Sleeps(Write, d, io) == 0 by {
      assert Sleeps(ReadBack, d, io) == 0;
    }
    assert Sleeps(Control, d, io) == if io.control && d.pulse && io.pulse then 2 else 0;
    assert Sleeps(ThermalEmergency, d, io) == Sleeps(Control, d, io);
  }

  /** Only the clock, the fan's trace and the command at which process `p` stands have changed, or it has ended. */
  predicate Driven(s: System, p: nat, through: bool, t: System)
    requires p < |s.workers| && s.workers[p].phase.Acting?
  {
    && |t.workers| == |s.workers|
    && t.workers[p].phase.Acting? && t.workers[p].phase.begin == s.workers[p].phase.begin
    && t.workers[p] == s.workers[p].(live := through, phase := t.workers[p].phase)
    && t == s.(clock := t.clock, writes := t.writes, workers := s.workers[p := t.workers[p]])
  }

  lemma {:induction false} OneCommand(s: System, p: nat, c: Command, d: F.Decision, ok: bool)
    requires Commanded(s, p, c, d) && Rank(c) > 0 && (c.ReadBack? ==> Last(s.writes) == Some(d.level))
    ensures var t := Obey(s, p, c, ok);
            && t.writes == s.writes + Did(c, d, ok) && t.clock == s.clock + Sleep(c, ok)
            && Driven(s, p, Survives(c, ok), t)
            && (Survives(c, ok) ==> Commanded(t, p, Following(c, d), d))
            && (Survives(c, ok) && c.Write? ==> Last(t.writes) == Some(d.level))
            && (Survives(c, ok) && c.ReadBack? ==> t.workers[p].phase.seen == Some(d.level))
  {
    hide Following;
  }

  lemma {:induction false} DriveWrites(s: System, p: nat, c: Command, d: F.Decision, io: F.Io)
    requires Commanded(s, p, c, d) && !c.Beat? && (c.ReadBack? ==> Last(s.writes) == Some(d.level))
    requires c.Note? ==> s.workers[p].phase.seen == Some(d.level)
    ensures var t := Drive(s, p, c, d, io);
            && t.writes == s.writes + Rest(c, d, io) && t.clock == s.clock + Sleeps(c, d, io)
            && Driven(s, p, Through(c, d, io), t)
            && (Through(c, d, io) ==> Commanded(t, p, Note, d) && t.workers[p].phase.seen == Some(d.level))
    decreases Rank(c)
  {
    hide Obey, Did, Sleep, Succeeds;
    if Rank(c) > 0 {
      var ok := Succeeds(c, d, io);
      OneCommand(s, p, c, d, ok);
      var t := Obey(s, p, c, ok);
      if Survives(c, ok) {
        DriveWrites(t, p, Following(c, d), d, io);
        assert s.writes + Did(c, d, ok) + Rest(Following(c, d), d, io) == s.writes + Rest(c, d, io);
      }
    }
  }

  /** The state in which a worker that begins its cycle now will act. */
  function Decided(s: System, p: nat, r: F.Readings): System {
    Next(Next(s, Work(p, Begin)), Work(p, Decide(r)))
  }

  /** A worker that has read its level back reports and is ready for the next cycle. */
  lemma {:induction false} Reports(t: System, p: nat, d: F.Decision)
    requires Commanded(t, p, Note, d) && t.workers[p].phase.seen == Some(d.level)
    ensures var w := t.workers[p];
            Next(Next(t, Work(p, Draft(Stored))), Work(p, Report(true)))
            == t.(draft := None, beat := Some(w.phase.begin),
                  workers := t.workers[p := w.(phase := Ready, st := F.Commit(w.st))],
                  cycles := t.cycles + [Cycle(p, w.phase.begin, d, d.level)])
  {
    hide F.Commit;
    var w := t.workers[p];
    var u := Next(t, Work(p, Draft(Stored)));
    assert u.workers[p] == w.(phase := w.phase.(at := Beat));
    assert u.draft == Some(Some(w.phase.begin)) && u.writes == t.writes + [];
    assert t.writes + [] == t.writes;
  }

  /** The undisturbed cycle, with two seconds for a starting pulse. */
  lemma {:induction false} UndisturbedCycle(s: System, p: nat, r: F.Readings, io: F.Io)
    requires Alive(s, p) && s.workers[p].phase == Ready && r.now == s.clock
    ensures var (st, d) := F.Sense(s.workers[p].st, r);
            var t := Drive(Decided(s, p, r), p, First(d), d, io);
            && t.writes == s.writes + F.Written(d, io)
            && t.clock == s.clock + (if io.control && d.pulse && io.pulse then 2 else 0)
            && (Alive(t, p) <==> F.Completed(d, io))
            && (Alive(t, p) ==>
                  var done := Next(Next(t, Work(p, Draft(Stored))), Work(p, Report(true)));
                  done == s.(clock := t.clock, writes := t.writes, draft := None, beat := Some(r.now),
                             workers := s.workers[p := s.workers[p].(st := F.Step(s.workers[p].st, r))],
                             cycles := s.cycles + [Cycle(p, r.now, d, d.level)]))
  {
    hide F.Sense, F.Written, F.Completed, Rest, Sleeps, Drive, Through, F.Commit;
    var (st, d) := F.Sense(s.workers[p].st, r);
    var a := Decided(s, p, r);
    assert Commanded(a, p, First(d), d);
    DriveWrites(a, p, First(d), d, io);
    RestIsWritten(d, io);
    SleepsForPulse(d, io);
    ThroughIsCompleted(d, io);
    var t := Drive(a, p, First(d), d, io);
    if Alive(t, p) {
      Reports(t, p, d);
      assert s.workers[p := t.workers[p]][p := s.workers[p].(st := F.Step(s.workers[p].st, r))]
          == s.workers[p := s.workers[p].(st := F.Step(s.workers[p].st, r))];
    }
  }
}
