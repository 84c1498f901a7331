/**
  What the heartbeat proves: whenever the supervisor leaves a worker alone, the fan was recently
  brought to a level that covers the demand, or the worker has only just been started.
 */
module FanWatchdog {
  import opened Results
  import opened FanSystem
  import F = FanWorker
  import H = FanHistory
  import S = FanSupervisor

  predicate Covers(d: F.Decision) {
    && d.cpuDemand <= d.level <= 3 && d.phyDemand <= d.level && d.diskDemand <= d.level
    && (d.bad || d.critical ==> d.level == 3)
  }

  // ----- the invariant

  predicate Sound(w: Worker, clock: nat) {
    && w.spawned <= clock && w.st.level <= 3
    && (w.phase.Begun? ==> w.phase.begin <= clock)
    && (w.phase.Acting? ==>
          && w.phase.begin <= clock && Covers(w.phase.d) && w.st.level == w.phase.d.level
          && (w.phase.at.Note? || w.phase.at.Beat? ==> w.phase.seen == Some(w.phase.d.level)))
  }

  /** The cycle ended with the fan seen at a level that covers its demand. */
  predicate Good(c: Cycle, clock: nat) {
    c.begin <= clock && c.seen == c.d.level && Covers(c.d)
  }

  predicate Attending(stage: Stage) {
    stage.Recording? || stage.Watching? || stage.Polling?
  }

  predicate Guarding(stage: Stage) {
    Attending(stage) || stage.Stalling? || stage.Killing?
  }

  predicate BegunAt(c: Cycle, b: nat) {
    c.begin == b
  }

  ghost predicate BegunInCycle(s: System, b: nat) {
    b <= s.clock && exists k :: 0 <= k < |s.cycles| && BegunAt(s.cycles[k], b)
  }

  /** What a worker has put into the new heartbeat file is the start of a cycle that read its level back. */
  ghost predicate DraftOk(s: System) {
    s.draft.Some? && s.draft.value.Some? ==> BegunInCycle(s, s.draft.value.value)
  }

  ghost predicate BeatOk(s: System) {
    s.beat.Some? ==>
      var b := s.beat.value;
      && b <= s.clock
      && ((exists k :: 0 <= k < |s.cycles| && BegunAt(s.cycles[k], b)) ||
          (Attending(s.sup.stage) && s.sup.child < |s.workers| ==> b <= s.workers[s.sup.child].spawned))
  }

  predicate SupOk(s: System) {
    && (Guarding(s.sup.stage) ==> s.sup.child < |s.workers|)
    && (s.sup.stage.Polling? ==> s.sup.stage.now <= s.clock)
    && S.After(s.sup.observed).started <= s.clock
  }

  ghost predicate Truthful(s: System) {
    && (forall p | 0 <= p < |s.workers| :: Sound(s.workers[p], s.clock))
    && (forall k | 0 <= k < |s.cycles| :: Good(s.cycles[k], s.clock))
    && DraftOk(s) && BeatOk(s) && SupOk(s)
  }

  lemma {:induction false} SoundLater(w: Worker, clock: nat, later: nat)
    requires Sound(w, clock) && clock <= later
    ensures Sound(w, later)
  {
  }

  lemma {:induction false} WorkedIsSound(w: Worker, a: Action, current: Option<nat>, clock: nat)
    requires CanWork(w, a, current) && Sound(w, clock)
    ensures Sound(Worked(w, a, current, clock), clock)
  {
    hide F.Sense;
    if a.Decide? {
      H.LevelCoversDemand(w.st, a.r);
    }
  }

  lemma {:induction false} TickKeeps(s: System, n: nat)
    requires Truthful(s)
    ensures Truthful(Next(s, Tick(n)))
  {
    hide S.After, Sound;
    forall p | 0 <= p < |s.workers| ensures Sound(s.workers[p], s.clock + n) {
      SoundLater(s.workers[p], s.clock, s.clock + n);
    }
  }

  lemma {:induction false} WorkKeeps(s: System, p: nat, a: Action)
    requires Truthful(s) && Enabled(s, Work(p, a))
    ensures Truthful(Next(s, Work(p, a)))
  {
    hide S.After, Covers, Put, F.Sense, DraftOk, BeatOk, Worked;
    var t := Next(s, Work(p, a));
    WorkedIsSound(s.workers[p], a, Last(s.writes), s.clock);
    WorkKeepsFiles(s, p, a);
    SameSpawn(s.workers[p], a, Last(s.writes), s.clock);
  }

  lemma {:induction false} SameSpawn(w: Worker, a: Action, current: Option<nat>, clock: nat)
    requires CanWork(w, a, current)
    ensures Worked(w, a, current, clock).spawned == w.spawned
  {
    hide F.Sense;
  }

  lemma {:induction false} WorkKeepsFiles(s: System, p: nat, a: Action)
    requires Truthful(s) && Enabled(s, Work(p, a))
    ensures var t := Next(s, Work(p, a)); DraftOk(t) && BeatOk(t)
  {
    hide S.After, Covers, Put, F.Sense, Good, SupOk, CanWork, Worked, S.Stalled;
    var t := Next(s, Work(p, a));
    SameSpawn(s.workers[p], a, Last(s.writes), s.clock);
    if a.Draft? {
      DraftPhase(s.workers[p], a, Last(s.writes), s.clock);
      assert BegunAt(t.cycles[|s.cycles|], s.workers[p].phase.begin);
    }
    if s.beat.Some? && exists k :: 0 <= k < |s.cycles| && BegunAt(s.cycles[k], s.beat.value) {
      var k :| 0 <= k < |s.cycles| && BegunAt(s.cycles[k], s.beat.value);
      assert BegunAt(t.cycles[k], s.beat.value);
    }
    if s.draft.Some? && s.draft.value.Some? {
      var b := s.draft.value.value;
      var k :| 0 <= k < |s.cycles| && BegunAt(s.cycles[k], b);
      assert BegunAt(t.cycles[k], b);
    }
  }

  lemma {:induction false} DraftPhase(w: Worker, a: Action, current: Option<nat>, clock: nat)
    requires CanWork(w, a, current) && a.Draft? && Sound(w, clock)
    ensures w.phase.Acting? && w.phase.begin <= clock && Covers(w.phase.d) && w.phase.seen == Some(w.phase.d.level)
  {
  }

  lemma {:induction false} Observing(log: seq<S.Observation>, x: S.Observation)
    ensures S.After(log + [x]) == S.Next(S.After(log), x)
  {
    assert (log + [x])[..|log|] == log;
  }

  lemma {:induction false} SupervisorBooks(s: System, m: Move)
    requires SupOk(s) && CanMove(s, m)
    ensures SupOk(Moved(s, m))
  {
    hide S.After, S.Stalled;
    assert S.After([]) == S.State(0, 0) by { FreshBooks(); }
    match m
    case ReadStart => Observing(s.sup.observed, S.Spawned(s.clock));
    case Poll => Observing(s.sup.observed, S.Polled(s.sup.stage.now, BeatOf(s)));
    case Account(_) => Observing(s.sup.observed, S.Ended(s.clock));
    case _ =>
  }

  lemma {:induction false} FreshBooks()
    ensures S.After([]) == S.State(0, 0)
  {
  }

  lemma {:induction false} MoveKeeps(s: System, m: Move)
    requires Truthful(s) && CanMove(s, m)
    ensures Truthful(Moved(s, m))
  {
    hide S.After, Covers, SupOk, S.Stalled, AccountShutdown;
    SupervisorBooks(s, m);
    var t := Moved(s, m);
    assert SupOk(s) && SupOk(t);
    MoveKeepsWorkers(s, m);
    MoveKeepsBeat(s, m);
  }

  lemma {:induction false} MoveKeepsWorkers(s: System, m: Move)
    requires Truthful(s) && CanMove(s, m)
    ensures var t := Moved(s, m);
            && t.clock == s.clock && t.cycles == s.cycles && |s.workers| <= |t.workers|
            && (forall p | 0 <= p < |t.workers| :: Sound(t.workers[p], t.clock))
            && (forall p | 0 <= p < |s.workers| :: t.workers[p].spawned == s.workers[p].spawned)
  {
    hide S.After, Covers, BeatOk, Good, S.Stalled, AccountShutdown;
  }

  lemma {:induction false} StartedIsPast(s: System)
    requires SupOk(s)
    ensures S.After(s.sup.observed).started <= s.clock
  {
  }

  lemma {:induction false} MoveKeepsBeat(s: System, m: Move)
    requires Truthful(s) && CanMove(s, m)
    ensures BeatOk(Moved(s, m))
  {
    hide S.After, Covers, Good, Sound, S.Stalled, AccountShutdown;
    StartedIsPast(s);
    var t := Moved(s, m);
    if t.beat == s.beat && s.beat.Some? && exists k :: 0 <= k < |s.cycles| && BegunAt(s.cycles[k], s.beat.value) {
      var k :| 0 <= k < |s.cycles| && BegunAt(s.cycles[k], s.beat.value);
      assert BegunAt(t.cycles[k], s.beat.value);
    }
  }

  lemma {:induction false} AlwaysTruthful(es: seq<Event>)
    ensures Truthful(Run(es))
    decreases |es|
  {
    hide Truthful, Next, Moved, Labour;
    if es == [] {
      BootIsTruthful();
    } else {
      var s, e := Run(es[..|es| - 1]), es[|es| - 1];
      AlwaysTruthful(es[..|es| - 1]);
      NextKeeps(s, e);
    }
  }

  lemma {:induction false} BootIsTruthful()
    ensures Truthful(Boot())
  {
    FreshBooks();
  }

  lemma {:induction false} NextKeeps(s: System, e: Event)
    requires Truthful(s)
    ensures Truthful(Next(s, e))
  {
    hide Truthful, Moved, Labour, CanMove, CanWork;
    if Enabled(s, e) {
      match e
      case Tick(n) => TickKeeps(s, n);
      case Work(p, a) => WorkKeeps(s, p, a);
      case Supervise(m) => MoveKeeps(s, m);
    }
  }

  // ----- the theorem

  /** A completed cycle began in the 12 seconds up to `now`, and left the fan covering its demand. */
  ghost predicate Covered(s: System, now: nat) {
    exists k :: 0 <= k < |s.cycles| && Recent(s.cycles[k], now)
  }

  predicate Recent(c: Cycle, now: nat) {
    c.begin <= now <= c.begin + 12 && c.seen == c.d.level && Covers(c.d)
  }

  /**
    In every interleaving: a poll that does not intervene happens only if the current worker was
    spawned at most 12 seconds before the poll's clock reading, or some cycle begun in those 12
    seconds finished with the fan seen at or above all three demands, and at 3 if it was faulty
    or critical.
   */
  lemma {:induction false} QuietPollIsSafe(es: seq<Event>, now: nat)
    requires Run(es).sup.stage == Polling(now)
    requires Next(Run(es), Supervise(Poll)).sup.stage == Watching
    ensures var s := Run(es);
            s.sup.child < |s.workers| && (now <= s.workers[s.sup.child].spawned + 12 || Covered(s, now))
  {
    AlwaysTruthful(es);
    QuietPoll(Run(es), now);
  }

  lemma {:induction false} QuietPoll(s: System, now: nat)
    requires Truthful(s) && s.sup.stage == Polling(now)
    requires Next(s, Supervise(Poll)).sup.stage == Watching
    ensures s.sup.child < |s.workers| && (now <= s.workers[s.sup.child].spawned + 12 || Covered(s, now))
  {
    hide S.After, Covers, Sound;
    if s.beat.Some? && exists k :: 0 <= k < |s.cycles| && BegunAt(s.cycles[k], s.beat.value) {
      var k :| 0 <= k < |s.cycles| && BegunAt(s.cycles[k], s.beat.value);
      assert Recent(s.cycles[k], now);
    }
  }

  // ----- the supervisor's shutdown, in every run

  predicate NoLater(log: seq<S.Observation>, now: nat) {
    forall k | 0 <= k < |log| :: log[k].now <= now
  }

  ghost predicate Chronicled(s: System) {
    && S.Clock(s.sup.observed) && NoLater(s.sup.observed, s.clock)
    && (s.sup.stage.Polling? ==> NoLater(s.sup.observed, s.sup.stage.now) && s.sup.stage.now <= s.clock)
  }

  lemma {:induction false} NextKeepsChronicle(s: System, e: Event)
    requires Chronicled(s)
    ensures Chronicled(Next(s, e))
  {
    hide Chronicled, Moved, Labour, CanMove, CanWork;
    if Enabled(s, e) {
      match e
      case Tick(n) => TickKeepsChronicle(s, n);
      case Work(p, a) => assert Chronicled(Labour(s, p, a)) by { WorkKeepsChronicle(s, p, a); }
      case Supervise(m) => MoveKeepsChronicle(s, m);
    }
  }

  lemma {:induction false} TickKeepsChronicle(s: System, n: nat)
    requires Chronicled(s)
    ensures Chronicled(s.(clock := s.clock + n))
  {
  }

  lemma {:induction false} WorkKeepsChronicle(s: System, p: nat, a: Action)
    requires Chronicled(s) && Enabled(s, Work(p, a))
    ensures Chronicled(Labour(s, p, a))
  {
    hide Put, Worked;
  }

  lemma {:induction false} MoveKeepsChronicle(s: System, m: Move)
    requires Chronicled(s) && CanMove(s, m)
    ensures Chronicled(Moved(s, m))
  {
    hide S.After, S.Stalled, AccountShutdown;
  }

  lemma {:induction false} AlwaysChronicled(es: seq<Event>)
    ensures Chronicled(Run(es))
    decreases |es|
  {
    hide Chronicled, Next;
    if es == [] {
      assert Chronicled(Boot()) by { EmptyChronicle(); }
    } else {
      AlwaysChronicled(es[..|es| - 1]);
      NextKeepsChronicle(Run(es[..|es| - 1]), es[|es| - 1]);
    }
  }

  lemma {:induction false} EmptyChronicle()
    ensures Chronicled(Boot())
  {
  }

  /**
    When a worker has ended, the supervisor shuts the machine down exactly when some worker of
    its life ended at least 120 seconds earlier and no poll since has seen a fresh heartbeat.
   */
  lemma {:induction false} ShutdownExactly(es: seq<Event>)
    requires Run(es).sup.stage.Accounting?
    ensures var s := Run(es);
            var log, n := s.sup.observed + [S.Ended(s.clock)], |s.sup.observed|;
            AccountShutdown(s) <==>
            exists i: nat :: S.FailingSince(log, i, n) && log[i].now > 0 && s.clock - log[i].now >= 120
  {
    hide Run, S.After, S.FailingSince, S.ShutdownDue;
    AlwaysChronicled(es);
    var s := Run(es);
    var log, n := s.sup.observed + [S.Ended(s.clock)], |s.sup.observed|;
    assert log[..n + 1] == log;
    S.ShutdownExactly(log, n);
  }
}
