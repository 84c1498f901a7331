/**
  When the watchdog kills a worker that has just reported: the supervisor reads the clock before it
  reads the heartbeat, and a heartbeat that is newer than the clock reading counts as stalled.
 */
module FanRace {
  import opened Results
  import opened FanSystem
  import opened FanReach
  import F = FanWorker
  import O = FanOwnership
  import S = FanSupervisor
  import W = FanWatchdog

  /** A cycle of process `p` that began at `b` and left the fan seen covering its demand. */
  predicate OwnGood(c: Cycle, p: nat, b: nat) {
    c.pid == p && c.begin == b && c.seen == c.d.level && W.Covers(c.d)
  }

  /** The start of the current worker lies before the clock reading of the poll. */
  lemma {:induction false} StartedBefore(log: seq<S.Observation>, now: nat)
    requires W.NoLater(log, now)
    ensures S.After(log).started <= now
    decreases |log|
  {
    if log != [] {
      assert forall k | 0 <= k < |log| - 1 :: log[..|log| - 1][k] == log[k];
      StartedBefore(log[..|log| - 1], now);
    }
  }

  /**
    In a careful run, a poll that finds a heartbeat begun in the last 12 seconds kills the worker
    exactly when that heartbeat is newer than the poll's clock reading; and then the worker itself
    has begun a cycle since that reading and finished it with the fan covering the demand.
   */
  lemma {:induction false} FreshHeartbeatKilledExactly(es: seq<Event>, now: nat, b: nat)
    requires O.Careful(es) && Run(es).sup.stage == Polling(now)
    requires Run(es).beat == Some(b) && Run(es).clock <= b + 12
    ensures Next(Run(es), Supervise(Poll)).sup.stage == Stalling <==> now < b
    ensures now < b ==> b <= Run(es).clock &&
                        exists k :: 0 <= k < |Run(es).cycles| && OwnGood(Run(es).cycles[k], Run(es).sup.child, b)
  {
    hide Run, O.Careful, S.After, W.Covers, W.Sound;
    W.AlwaysTruthful(es);
    W.AlwaysChronicled(es);
    O.AlwaysOwnBeat(es);
    var s := Run(es);
    StartedBefore(s.sup.observed, now);
    if now < b {
      var k :| 0 <= k < |s.cycles| && O.By(s.cycles[k], s.sup.child, b);
      assert W.Good(s.cycles[k], s.clock);
      assert OwnGood(s.cycles[k], s.sup.child, b);
    }
  }

  /** The poll kills a worker whose latest cycle began after `now` and at most two seconds ago. */
  predicate KillsHealthy(t: System, now: nat) {
    && t.sup.stage == Polling(now) && Alive(t, t.sup.child)
    && t.beat.Some? && now < t.beat.value <= t.clock <= t.beat.value + 2
    && t.cycles != [] && OwnGood(t.cycles[|t.cycles| - 1], t.sup.child, t.beat.value)
    && Next(t, Supervise(Poll)).sup.stage == Stalling
  }

  /**
    This can happen to every worker: from every careful run in which the supervisor watches a
    worker at the head of its loop, and whatever the sensors read, the run can go on so that the
    worker completes its cycle without any failure and is killed for it. Both processes get the
    five and two seconds of their loops, and the worker two more for a starting pulse.
   */
  lemma {:induction false} RaceKillsHealthyWorker(es: seq<Event>, r: F.Readings)
    requires O.Careful(es) && Run(es).sup.stage == Watching
    requires Alive(Run(es), Run(es).sup.child) && Run(es).workers[Run(es).sup.child].phase == Ready
    requires r.now == Run(es).clock + 6
    ensures exists more :: Calm(more) && O.Careful(es + more) && KillsHealthy(Run(es + more), Run(es).clock + 5)
  {
    hide Run, Next, O.Careful, F.Sense, Leads;
    LeadsNowhere(es);
    var s := Ticks(es, Run(es), 5);
    var p := s.sup.child;
    Goes(es, s, Supervise(Look));
    var s1 := Next(s, Supervise(Look));
    Looks(s);
    var s2 := Ticks(es, s1, 1);
    var t := Completes(es, s2, p, r);
    PollStalls(t, s.clock);
    Ends(es, t, s.clock, p);
  }

  lemma {:induction false} Looks(s: System)
    requires s.sup.stage == Watching
    ensures Next(s, Supervise(Look)) == s.(sup := s.sup.(stage := Polling(s.clock)))
  {
  }

  lemma {:induction false} PollStalls(t: System, now: nat)
    requires t.sup.stage == Polling(now) && t.beat.Some? && t.beat.value > now
    ensures Next(t, Supervise(Poll)).sup.stage == Stalling
  {
    hide S.After;
  }

  lemma {:induction false} Ends(es: seq<Event>, t: System, now: nat, p: nat)
    requires O.Careful(es) && Leads(es, t)
    requires t.sup.stage == Polling(now) && t.sup.child == p && Alive(t, p)
    requires t.beat == Some(now + 1) && now + 1 <= t.clock <= now + 3
    requires t.cycles != [] && t.cycles[|t.cycles| - 1].pid == p && t.cycles[|t.cycles| - 1].begin == now + 1
    requires Next(t, Supervise(Poll)).sup.stage == Stalling
    ensures exists more :: Calm(more) && O.Careful(es + more) && KillsHealthy(Run(es + more), now)
  {
    hide Run, Next, O.Careful, W.Covers;
    var more :| Calm(more) && Run(es + more) == t;
    CalmIsCareful(es, more);
    W.AlwaysTruthful(es + more);
    assert W.Good(t.cycles[|t.cycles| - 1], t.clock);
  }

  /** And there are such runs. */
  lemma {:induction false} WatchedAtItsLoop()
    ensures exists es :: O.Careful(es) && Run(es).sup.stage == Watching && Alive(Run(es), Run(es).sup.child)
                         && Run(es).workers[Run(es).sup.child].phase == Ready
  {
    hide Run, Next, O.Careful, Leads;
    assert Run([]) == Boot() && O.Careful([]) by { NothingYet(); }
    LeadsNowhere([]);
    var s1 := Restarts([], Boot());
    Goes([], s1, Supervise(Record(Stored)));
    var s2 := Next(s1, Supervise(Record(Stored)));
    Records(s1);
    var t := Opens([], s2, 0);
    Watches(t);
  }

  lemma {:induction false} Watches(t: System)
    requires Leads([], t) && t.sup.stage == Watching && Alive(t, t.sup.child) && t.workers[t.sup.child].phase == Ready
    ensures exists es :: O.Careful(es) && Run(es).sup.stage == Watching && Alive(Run(es), Run(es).sup.child)
                         && Run(es).workers[Run(es).sup.child].phase == Ready
  {
    hide Run, O.Careful;
    NothingYet();
    var more :| Calm(more) && Run([] + more) == t;
    CalmIsCareful([], more);
  }
}
