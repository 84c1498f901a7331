/** How runs can go on: what a worker left to itself does next, and what a restarted supervisor does. */
module FanReach {
  import opened Results
  import opened FanSystem
  import F = FanWorker
  import O = FanOwnership
  import C = FanCycle
  import W = FanWatchdog

  predicate IsLeave(e: Event) {
    e.Supervise? && e.m.Leave?
  }

  predicate Calm(es: seq<Event>) {
    forall e | e in es :: !IsLeave(e)
  }

  /** After `base` the run can go on to `s` without any supervisor leaving. */
  ghost predicate Leads(base: seq<Event>, s: System) {
    exists more :: Calm(more) && Run(base + more) == s
  }

  lemma {:induction false} LeadsNowhere(base: seq<Event>)
    ensures Leads(base, Run(base))
  {
    assert base + [] == base && Calm([]);
  }

  lemma {:induction false} Goes(base: seq<Event>, s: System, e: Event)
    requires Leads(base, s) && !IsLeave(e)
    ensures Leads(base, Next(s, e))
  {
    hide Run, Next;
    var more :| Calm(more) && Run(base + more) == s;
    O.RunThen(base + more, e);
    assert base + (more + [e]) == base + more + [e];
    assert Calm(more + [e]);
  }

  lemma {:induction false} CalmIsCareful(base: seq<Event>, more: seq<Event>)
    requires O.Careful(base) && Calm(more)
    ensures O.Careful(base + more)
    decreases |more|
  {
    hide Run;
    if more == [] {
      assert base + more == base;
    } else {
      var n := |more| - 1;
      assert (base + more)[..|base + more| - 1] == base + more[..n];
      assert more[n] in more && forall e | e in more[..n] :: e in more;
      CalmIsCareful(base, more[..n]);
    }
  }

  lemma {:induction false} Ticks(base: seq<Event>, s: System, n: nat) returns (t: System)
    requires Leads(base, s)
    ensures Leads(base, t) && t == s.(clock := s.clock + n)
  {
    hide Leads;
    Goes(base, s, Tick(n));
    t := Next(s, Tick(n));
  }

  lemma {:induction false} Drives(base: seq<Event>, s: System, p: nat, c: Command, d: F.Decision, io: F.Io)
    requires Leads(base, s)
    ensures Leads(base, C.Drive(s, p, c, d, io))
    decreases C.Rank(c)
  {
    hide Next, Leads, C.Succeeds, C.Sleep, Survives;
    if C.Rank(c) > 0 {
      var ok := C.Succeeds(c, d, io);
      var t := C.Obey(s, p, c, ok);
      Goes(base, s, Work(p, Act(ok)));
      Goes(base, Next(s, Work(p, Act(ok))), Tick(C.Sleep(c, ok)));
      if Survives(c, ok) {
        Drives(base, t, p, Following(c, d), d, io);
      }
    }
  }

  function Fine(d: F.Decision): F.Io {
    F.Io(true, true, true, true, true, Some(d.level))
  }

  lemma {:induction false} FineIsThrough(c: Command, d: F.Decision)
    ensures C.Through(c, d, Fine(d))
    decreases C.Rank(c)
  {
    if C.Rank(c) > 0 {
      FineIsThrough(Following(c, d), d);
    }
  }

  /** The last thing that a fine cycle writes is its level. */
  lemma {:induction false} RestEnds(c: Command, d: F.Decision)
    requires C.Rank(c) >= 2
    ensures Last(C.Rest(c, d, Fine(d))) == Some(d.level)
    decreases C.Rank(c)
  {
    hide C.Succeeds, Survives;
    FineSucceeds(c, d);
    if c.Write? {
      assert C.Rest(ReadBack, d, Fine(d)) == [] by { NothingAfterWrite(d); }
    } else {
      RestEnds(Following(c, d), d);
    }
  }

  lemma {:induction false} FineSleeps(c: Command, d: F.Decision)
    ensures C.Sleeps(c, d, Fine(d)) <= 2
    decreases C.Rank(c)
  {
    if C.Rank(c) > 0 {
      FineSleeps(Following(c, d), d);
    }
  }

  lemma {:induction false} FineSucceeds(c: Command, d: F.Decision)
    ensures C.Succeeds(c, d, Fine(d)) && Survives(c, true)
  {
  }

  lemma {:induction false} NothingAfterWrite(d: F.Decision)
    ensures C.Rest(ReadBack, d, Fine(d)) == []
  {
  }

  /** Worker `p`, acting at `c`, carries its cycle to the end. */
  lemma {:induction false} Finishes(base: seq<Event>, s: System, p: nat, c: Command, d: F.Decision) returns (t: System)
    requires Leads(base, s) && C.Commanded(s, p, c, d) && !c.Beat?
    requires c.ReadBack? ==> Last(s.writes) == Some(d.level)
    requires c.Note? ==> s.workers[p].phase.seen == Some(d.level)
    ensures Leads(base, t) && s.clock <= t.clock <= s.clock + 2 && t.sup == s.sup
    ensures t.workers == s.workers[p := s.workers[p].(phase := Ready, st := F.Commit(s.workers[p].st))]
    ensures C.Rank(c) >= 2 ==> Last(t.writes) == Some(d.level)
    ensures t.beat == Some(s.workers[p].phase.begin)
    ensures t.cycles == s.cycles + [Cycle(p, s.workers[p].phase.begin, d, d.level)]
  {
    hide Next, Leads, C.Drive, C.Rest, C.Sleeps, C.Through, F.Commit;
    FineSleeps(c, d);
    Drives(base, s, p, c, d, Fine(d));
    C.DriveWrites(s, p, c, d, Fine(d));
    FineIsThrough(c, d);
    var u := C.Drive(s, p, c, d, Fine(d));
    C.Reports(u, p, d);
    Goes(base, u, Work(p, Draft(Stored)));
    Goes(base, Next(u, Work(p, Draft(Stored))), Work(p, Report(true)));
    t := Next(Next(u, Work(p, Draft(Stored))), Work(p, Report(true)));
    if C.Rank(c) >= 2 {
      RestEnds(c, d);
    }
  }

  /** Worker `p` begins a cycle and decides. */
  lemma {:induction false} Decides(base: seq<Event>, s: System, p: nat, r: F.Readings)
    returns (t: System, d: F.Decision)
    requires Leads(base, s) && Alive(s, p) && s.workers[p].phase == Ready && r.now == s.clock
    ensures Leads(base, t) && d == F.Sense(s.workers[p].st, r).1
    ensures t == s.(workers := s.workers[p := s.workers[p].(phase := Acting(s.clock, d, First(d), None),
                                                            st := F.Sense(s.workers[p].st, r).0)])
  {
    hide Leads, F.Sense;
    Goes(base, s, Work(p, Begin));
    var s1 := Next(s, Work(p, Begin));
    Goes(base, s1, Work(p, Decide(r)));
    t := Next(s1, Work(p, Decide(r)));
    d := F.Sense(s.workers[p].st, r).1;
    assert s.writes + [] == s.writes;
  }

  /** Worker `p` goes through a whole cycle, with nothing failing and two seconds for a starting pulse. */
  lemma {:induction false} Completes(base: seq<Event>, s: System, p: nat, r: F.Readings) returns (t: System)
    requires Leads(base, s) && Alive(s, p) && s.workers[p].phase == Ready && r.now == s.clock
    ensures Leads(base, t) && s.clock <= t.clock <= s.clock + 2 && t.sup == s.sup
    ensures t.workers == s.workers[p := s.workers[p].(st := F.Step(s.workers[p].st, r))]
    ensures Last(t.writes) == Some(F.Sense(s.workers[p].st, r).1.level)
    ensures t.beat == Some(s.clock)
    ensures var d := F.Sense(s.workers[p].st, r).1; t.cycles == s.cycles + [Cycle(p, s.clock, d, d.level)]
  {
    hide Next, Leads, F.Sense, F.Commit;
    var u, d := Decides(base, s, p, r);
    t := Finishes(base, u, p, First(d), d);
  }

  /** A freshly forked worker takes over the fan. */
  lemma {:induction false} Opens(base: seq<Event>, s: System, p: nat) returns (t: System)
    requires Leads(base, s) && Alive(s, p) && (s.workers[p].phase == Forked || s.workers[p].phase == Opening)
    ensures Leads(base, t) && t.clock == s.clock && t.sup == s.sup
    ensures t.workers == s.workers[p := s.workers[p].(phase := Ready, st := F.Initial())]
  {
    hide Leads;
    var s1 := s;
    if s.workers[p].phase == Forked {
      Goes(base, s, Work(p, Exec));
      s1 := Next(s, Work(p, Exec));
    }
    Goes(base, s1, Work(p, Open(true)));
    t := Next(s1, Work(p, Open(true)));
  }

  /**
    Two seconds after the last one ended a supervisor starts, retires the recorded worker if it
    recognises it, and forks a new one.
   */
  lemma {:induction false} Restarts(base: seq<Event>, s: System) returns (t: System)
    requires Leads(base, s) && s.sup.stage.Down?
    ensures Leads(base, t) && t.clock == s.clock + 2 && |t.workers| == |s.workers| + 1
    ensures t.sup.stage == Recording && t.sup.child == |s.workers|
    ensures t.workers[|s.workers|] == Worker(true, s.clock + 2, Forked, F.Initial())
    ensures forall p: nat | Alive(s, p) && !(s.pidFile == Some(p) && Recognised(s, p)) :: t.workers[p] == s.workers[p]
  {
    hide Leads, Next, Recognised;
    Goes(base, s, Tick(2));
    O.JustLater(s);
    var s0 := Next(s, Tick(2));
    var s1 := Next(s0, Supervise(Start));
    var s2 := Next(s1, Supervise(Full(true)));
    var s3 := Next(s2, Supervise(Retire));
    var s4 := Next(s3, Supervise(Full(true)));
    var s5 := Next(s4, Supervise(ReadStart));
    var s6 := Next(s5, Supervise(Stamp(Stored)));
    t := Next(s6, Supervise(Fork));
    Goes(base, s0, Supervise(Start));
    Goes(base, s1, Supervise(Full(true)));
    Goes(base, s2, Supervise(Retire));
    Goes(base, s3, Supervise(Full(true)));
    Goes(base, s4, Supervise(ReadStart));
    Goes(base, s5, Supervise(Stamp(Stored)));
    Goes(base, s6, Supervise(Fork));
    O.RetireSpares(s0, s1, s2, s3);
    O.ThenForks(s3, s4, s5, s6);
    assert s3.clock == s0.clock by { SameClock(s0, s1, s2, s3); }
  }

  lemma {:induction false} SameClock(s: System, s1: System, s2: System, s3: System)
    requires s1 == Next(s, Supervise(Start)) && s2 == Next(s1, Supervise(Full(true)))
    requires s3 == Next(s2, Supervise(Retire))
    ensures s3.clock == s.clock
  {
  }

  lemma {:induction false} NothingYet()
    ensures Run([]) == Boot() && O.Careful([])
  {
  }

  lemma {:induction false} Records(s: System)
    requires s.sup.stage == Recording
    ensures var t := Next(s, Supervise(Record(Stored)));
            t.sup == s.sup.(stage := Watching) && t.workers == s.workers && t.clock == s.clock
  {
  }
}
