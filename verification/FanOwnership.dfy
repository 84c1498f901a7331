/**
  Who may drive the fan: at most one worker at a time, hence never a low level straight from
  standstill, and full cooling before every spawn. All of this holds as long as no supervisor is
  killed while its worker could not be found again; after such a kill it does not.
 */
module FanOwnership {
  import opened Results
  import opened FanSystem
  import F = FanWorker
  import S = FanSupervisor
  import W = FanWatchdog

  // ----- runs in which no supervisor leaves an unrecorded worker behind

  /** The supervisor's live worker is not in the pid file, or its command line does not show it yet. */
  predicate Exposed(s: System) {
    && W.Guarding(s.sup.stage) && Alive(s, s.sup.child)
    && !(s.pidFile == Some(s.sup.child) && Recognised(s, s.sup.child))
  }

  predicate Careless(s: System, e: Event) {
    e.Supervise? && e.m.Leave? && Enabled(s, e) && Exposed(s)
  }

  predicate Careful(es: seq<Event>) {
    es == [] || (Careful(es[..|es| - 1]) && !Careless(Run(es[..|es| - 1]), es[|es| - 1]))
  }

  // ----- at most one live worker

  predicate Orphaned(stage: Stage) {
    stage.Down? || stage.Booting? || stage.Retiring?
  }

  /** The only process that may be a live worker. */
  predicate Owner(s: System, p: nat) {
    || (W.Guarding(s.sup.stage) && p == s.sup.child)
    || (Orphaned(s.sup.stage) && s.pidFile == Some(p) && Recognised(s, p))
  }

  predicate Owned(s: System) {
    forall p: nat | p < |s.workers| && s.workers[p].live :: Owner(s, p)
  }

  lemma {:induction false} WorkKeepsOwner(s: System, p: nat, a: Action)
    requires Owned(s) && Enabled(s, Work(p, a))
    ensures Owned(Next(s, Work(p, a)))
  {
    hide F.Sense, Put;
    var t := Next(s, Work(p, a));
    forall q: nat | q < |t.workers| && t.workers[q].live ensures Owner(t, q) {
      assert s.workers[q].live && Owner(s, q);
    }
  }

  lemma {:induction false} MoveKeepsOwner(s: System, m: Move)
    requires Owned(s) && CanMove(s, m) && !Careless(s, Supervise(m))
    ensures Owned(Moved(s, m))
  {
    hide S.After, S.Stalled, AccountShutdown;
    var t := Moved(s, m);
    forall q: nat | q < |t.workers| && t.workers[q].live ensures Owner(t, q) {
      if q < |s.workers| {
        assert s.workers[q].live && Owner(s, q);
      }
    }
  }

  lemma {:induction false} AlwaysOwned(es: seq<Event>)
    requires Careful(es)
    ensures Owned(Run(es))
    decreases |es|
  {
    hide Owned, Moved, Labour, Careless, CanMove, CanWork;
    if es == [] {
      assert Owned(Boot()) by { NobodyAtBoot(); }
    } else {
      var s, e := Run(es[..|es| - 1]), es[|es| - 1];
      AlwaysOwned(es[..|es| - 1]);
      if Enabled(s, e) {
        match e
        case Tick(n) => TickKeepsOwner(s, n);
        case Work(p, a) => WorkKeepsOwner(s, p, a);
        case Supervise(m) => MoveKeepsOwner(s, m);
      }
    }
  }

  lemma {:induction false} NobodyAtBoot()
    ensures Owned(Boot())
  {
  }

  lemma {:induction false} TickKeepsOwner(s: System, n: nat)
    requires Owned(s)
    ensures Owned(Next(s, Tick(n)))
  {
    var t := Next(s, Tick(n));
    forall q: nat | q < |t.workers| && t.workers[q].live ensures Owner(t, q) {
      assert s.workers[q].live && Owner(s, q);
    }
  }

  /** In a careful run no two workers are ever live, across all lives of the supervisor. */
  lemma {:induction false} OneWorker(es: seq<Event>, p: nat, q: nat)
    requires Careful(es) && Alive(Run(es), p) && Alive(Run(es), q)
    ensures p == q
  {
    hide Run, Careful, S.After;
    AlwaysOwned(es);
    var s := Run(es);
    assert Owner(s, p) && Owner(s, q);
  }

  /** A supervisor's life, two seconds after the last one, up to its first spawn, with nothing failing. */
  function Restarted(es: seq<Event>): seq<Event> {
    es + [Tick(2)] + [Supervise(Start)] + [Supervise(Full(true))] + [Supervise(Retire)] + [Supervise(Full(true))]
       + [Supervise(ReadStart)] + [Supervise(Stamp(Stored))] + [Supervise(Fork)]
  }

  lemma {:induction false} RunThen(es: seq<Event>, e: Event)
    ensures Run(es + [e]) == Next(Run(es), e)
  {
    hide Next;
    assert (es + [e])[..|es|] == es;
  }

  lemma {:induction false} RestartForks(es: seq<Event>)
    requires Run(es).sup.stage.Down?
    ensures var s, t := Run(es), Run(Restarted(es));
            && Alive(t, |s.workers|)
            && forall p: nat | Alive(s, p) && !(s.pidFile == Some(p) && Recognised(s, p)) :: Alive(t, p)
  {
    hide Run, Next, Recognised;
    var e0 := es + [Tick(2)];
    var e1 := e0 + [Supervise(Start)];
    var e2 := e1 + [Supervise(Full(true))];
    var e3 := e2 + [Supervise(Retire)];
    var e4 := e3 + [Supervise(Full(true))];
    var e5 := e4 + [Supervise(ReadStart)];
    var e6 := e5 + [Supervise(Stamp(Stored))];
    RunThen(es, Tick(2));
    RunThen(e0, Supervise(Start));
    RunThen(e1, Supervise(Full(true)));
    RunThen(e2, Supervise(Retire));
    RunThen(e3, Supervise(Full(true)));
    RunThen(e4, Supervise(ReadStart));
    RunThen(e5, Supervise(Stamp(Stored)));
    RunThen(e6, Supervise(Fork));
    JustLater(Run(es));
    RetireSpares(Run(e0), Run(e1), Run(e2), Run(e3));
    ThenForks(Run(e3), Run(e4), Run(e5), Run(e6));
    assert Restarted(es) == e6 + [Supervise(Fork)];
  }

  lemma {:induction false} JustLater(s: System)
    ensures var t := Next(s, Tick(2));
            t == s.(clock := s.clock + 2) && forall p: nat :: Recognised(t, p) == Recognised(s, p)
  {
  }

  /** Retiring kills the recorded worker, if it can be recognised, and nothing else. */
  lemma {:induction false} RetireSpares(s: System, s1: System, s2: System, s3: System)
    requires s.sup.stage.Down?
    requires s1 == Next(s, Supervise(Start)) && s2 == Next(s1, Supervise(Full(true)))
    requires s3 == Next(s2, Supervise(Retire))
    ensures s3.sup.stage == Retired && |s3.workers| == |s.workers|
    ensures forall p: nat | Alive(s, p) && !(s.pidFile == Some(p) && Recognised(s, p)) :: s3.workers[p] == s.workers[p]
  {
    hide S.After;
    assert s2.workers == s.workers && s2.pidFile == s.pidFile && s2.sup.stage == Retiring;
  }

  lemma {:induction false} ThenForks(s: System, s1: System, s2: System, s3: System)
    requires s.sup.stage.Retired?
    requires s1 == Next(s, Supervise(Full(true))) && s2 == Next(s1, Supervise(ReadStart))
    requires s3 == Next(s2, Supervise(Stamp(Stored)))
    ensures Next(s3, Supervise(Fork)).workers == s.workers + [Worker(true, s.clock, Forked, F.Initial())]
    ensures var t := Next(s3, Supervise(Fork));
            t.clock == s.clock && t.sup.stage == Recording && t.sup.child == |s.workers|
  {
    hide S.After;
    assert s3.workers == s.workers && s3.sup.stage == Forking;
  }

  /**
    A careless kill is exactly what breaks this: whenever one happens, the next supervisor can go
    on to start a second worker beside the first.
   */
  lemma {:induction false} CarelessKillDoubles(es: seq<Event>)
    requires Careless(Run(es), Supervise(Leave(false)))
    ensures var p, q := Run(es).sup.child, |Run(es).workers|;
            var t := Run(Restarted(es + [Supervise(Leave(false))]));
            p != q && Alive(t, p) && Alive(t, q)
  {
    hide Run;
    RunThen(es, Supervise(Leave(false)));
    RestartForks(es + [Supervise(Leave(false))]);
  }

  // ----- within one life of the supervisor, in every run

  predicate OwnLife(s: System) {
    !s.sup.stage.Down? ==>
      && s.sup.first <= |s.workers|
      && (W.Guarding(s.sup.stage) ==> s.sup.first <= s.sup.child < |s.workers|)
      && forall p: nat | s.sup.first <= p < |s.workers| && s.workers[p].live ::
           W.Guarding(s.sup.stage) && p == s.sup.child
  }

  lemma {:induction false} NextKeepsLife(s: System, e: Event)
    requires OwnLife(s) && W.SupOk(s)
    ensures OwnLife(Next(s, e))
  {
    hide S.After, S.Stalled, AccountShutdown, F.Sense, Put;
    if Enabled(s, e) {
      match e
      case Tick(n) =>
      case Work(p, a) =>
      case Supervise(m) => MoveKeepsLife(s, m);
    }
  }

  lemma {:induction false} MoveKeepsLife(s: System, m: Move)
    requires OwnLife(s) && CanMove(s, m)
    ensures OwnLife(Moved(s, m))
  {
    hide S.After, S.Stalled, AccountShutdown;
  }

  lemma {:induction false} AlwaysOwnLife(es: seq<Event>)
    ensures OwnLife(Run(es))
    decreases |es|
  {
    hide OwnLife, Next;
    if es == [] {
      NoLifeAtBoot();
    } else {
      AlwaysOwnLife(es[..|es| - 1]);
      W.AlwaysTruthful(es[..|es| - 1]);
      NextKeepsLife(Run(es[..|es| - 1]), es[|es| - 1]);
    }
  }

  lemma {:induction false} NoLifeAtBoot()
    ensures OwnLife(Boot())
  {
  }

  /** Of the workers that the present supervisor has started, only its current child can be live. */
  lemma {:induction false} OneWorkerPerLife(es: seq<Event>, p: nat)
    requires var s := Run(es); !s.sup.stage.Down? && p >= s.sup.first && Alive(s, p)
    ensures p == Run(es).sup.child && W.Guarding(Run(es).sup.stage)
  {
    hide Run;
    AlwaysOwnLife(es);
  }

  // ----- the trace of fan levels

  predicate Stopped(writes: seq<nat>) {
    writes != [] && writes[|writes| - 1] == 0
  }

  /** If the fan is stopped, the worker's next level is 0, or comes after a starting pulse. */
  predicate Gentle(w: Worker) {
    match w.phase
    case Forked => true
    case Opening => true
    case Ready => w.st.last == 0
    case Begun(_) => w.st.last == 0
    case Acting(_, d, at, _) =>
      if at.Pulse? then true
      else if at.FaultEmergency? || at.ThermalEmergency? || at.Control? then d.pulse || d.level == 0
      else d.level == 0
  }

  /** The fan is never started directly at level 1 or 2. */
  predicate Soft(writes: seq<nat>) {
    forall i | 0 <= i < |writes| - 1 && writes[i] == 0 :: writes[i + 1] == 0 || writes[i + 1] == 3
  }

  ghost predicate Smooth(s: System) {
    && Soft(s.writes)
    && (Stopped(s.writes) ==> forall p: nat | p < |s.workers| && s.workers[p].live :: Gentle(s.workers[p]))
  }

  lemma {:induction false} SoftThen(writes: seq<nat>, x: nat)
    requires Soft(writes) && (Stopped(writes) ==> x == 0 || x == 3)
    ensures Soft(writes + [x]) && (Stopped(writes + [x]) <==> x == 0)
  {
  }

  lemma {:induction false} SensePulse(st: F.State, r: F.Readings)
    ensures var (next, d) := F.Sense(st, r); d.pulse == (st.last == 0 && d.level > 0) && next.last == st.last
  {
    hide F.Scanned, F.AtaCount, F.Assess, F.Waiting, F.SinceWhile;
  }

  /** A step that writes nothing keeps the worker gentle. */
  lemma {:induction false} SilentStep(w: Worker, a: Action, current: Option<nat>, clock: nat)
    requires CanWork(w, a, current) && Put(w, a) == [] && Gentle(w) && W.Sound(w, clock)
    ensures var v := Worked(w, a, current, clock); v.live ==> Gentle(v)
  {
    hide F.Sense, W.Covers;
    if a.Decide? {
      SensePulse(w.st, a.r);
    }
  }

  /** What a step writes while the fan is stopped, and the worker after a write of 0. */
  lemma {:induction false} WritingStep(w: Worker, a: Action, current: Option<nat>, clock: nat)
    requires CanWork(w, a, current) && Put(w, a) != [] && W.Sound(w, clock)
    ensures |Put(w, a)| == 1
    ensures Gentle(w) ==> Put(w, a)[0] == 0 || Put(w, a)[0] == 3
    ensures Put(w, a)[0] == 0 ==> Gentle(Worked(w, a, current, clock))
  {
    hide F.Sense, W.Covers;
  }

  lemma {:induction false} WorkKeepsSmooth(s: System, p: nat, a: Action)
    requires Smooth(s) && Owned(s) && W.Truthful(s) && Enabled(s, Work(p, a))
    ensures Smooth(Next(s, Work(p, a)))
  {
    hide W.Sound, Gentle, Worked, Put, CanWork, W.BeatOk, W.DraftOk, W.SupOk, W.Good;
    var w, t := s.workers[p], Next(s, Work(p, a));
    assert W.Sound(w, s.clock);
    LiveIsTheWorker(s, p, a);
    if Put(w, a) == [] {
      assert t.writes == s.writes;
      if Stopped(s.writes) {
        SilentStep(w, a, Last(s.writes), s.clock);
      }
    } else {
      WritingStep(w, a, Last(s.writes), s.clock);
      assert t.writes == s.writes + [Put(w, a)[0]];
      SoftThen(s.writes, Put(w, a)[0]);
    }
  }

  /** The worker that takes a step is the only one that may be live afterwards. */
  lemma {:induction false} LiveIsTheWorker(s: System, p: nat, a: Action)
    requires Owned(s) && Enabled(s, Work(p, a))
    ensures var t := Next(s, Work(p, a));
            && s.workers[p].live && |t.workers| == |s.workers| > p
            && t.workers[p] == Worked(s.workers[p], a, Last(s.writes), s.clock)
            && t.writes == s.writes + Put(s.workers[p], a)
            && forall q: nat | q < |t.workers| && t.workers[q].live :: q == p
  {
    hide Put, Worked, Recognised;
    assert Owner(s, p);
    forall q: nat | q < |s.workers| && s.workers[q].live ensures q == p {
      assert Owner(s, q);
    }
  }

  lemma {:induction false} MoveKeepsSmooth(s: System, m: Move)
    requires Smooth(s) && CanMove(s, m)
    ensures Smooth(Moved(s, m))
  {
    hide S.After, S.Stalled, Gentle, AccountShutdown;
    SoftThen(s.writes, 3);
    var t := Moved(s, m);
    assert t.writes == s.writes || t.writes == s.writes + [3];
    if t.writes == s.writes {
      MoveKeepsGentle(s, m);
    }
  }

  lemma {:induction false} MoveKeepsGentle(s: System, m: Move)
    requires Smooth(s) && CanMove(s, m) && Moved(s, m).writes == s.writes
    ensures Smooth(Moved(s, m))
  {
    hide S.After, S.Stalled, AccountShutdown, Soft;
    var t := Moved(s, m);
    if Stopped(s.writes) {
      forall p: nat | p < |t.workers| && t.workers[p].live ensures Gentle(t.workers[p]) {
        if p < |s.workers| {
          assert s.workers[p].live && Gentle(s.workers[p]);
        }
      }
    }
  }

  lemma {:induction false} AlwaysSmooth(es: seq<Event>)
    requires Careful(es)
    ensures Smooth(Run(es))
    decreases |es|
  {
    hide Owned, Moved, Labour, Careless, CanMove, CanWork, Smooth, W.Truthful;
    if es == [] {
      SmoothAtBoot();
    } else {
      var s, e := Run(es[..|es| - 1]), es[|es| - 1];
      AlwaysSmooth(es[..|es| - 1]);
      AlwaysOwned(es[..|es| - 1]);
      W.AlwaysTruthful(es[..|es| - 1]);
      if Enabled(s, e) {
        match e
        case Tick(n) => TickKeepsSmooth(s, n);
        case Work(p, a) => WorkKeepsSmooth(s, p, a);
        case Supervise(m) => MoveKeepsSmooth(s, m);
      }
    }
  }

  lemma {:induction false} SmoothAtBoot()
    ensures Smooth(Boot())
  {
  }

  lemma {:induction false} TickKeepsSmooth(s: System, n: nat)
    requires Smooth(s)
    ensures Smooth(Next(s, Tick(n)))
  {
  }

  /**
    In the trace of all levels written by all workers and supervisors of a careful run, a stop is
    followed only by a stop or by full speed.
   */
  lemma {:induction false} StopThenFullSpeed(es: seq<Event>, i: nat)
    requires Careful(es) && i + 1 < |Run(es).writes| && Run(es).writes[i] == 0
    ensures Run(es).writes[i + 1] == 0 || Run(es).writes[i + 1] == 3
  {
    hide Run, Careful;
    AlwaysSmooth(es);
  }

  // ----- full cooling before every spawn

  predicate BetweenWorkers(stage: Stage) {
    stage.Starting? || stage.Stamping? || stage.Forking? || stage.Accounting?
  }

  predicate CoolFirst(s: System) {
    BetweenWorkers(s.sup.stage) && s.sup.cooled ==> s.writes != [] && s.writes[|s.writes| - 1] == 3
  }

  /** Between two workers none is live. */
  lemma {:induction false} NobodyBetween(s: System, p: nat)
    requires BetweenWorkers(s.sup.stage) && Owned(s)
    ensures !Alive(s, p)
  {
    hide Recognised;
  }

  lemma {:induction false} MoveKeepsCool(s: System, m: Move)
    requires CoolFirst(s) && CanMove(s, m)
    ensures CoolFirst(Moved(s, m))
  {
    hide S.After, S.Stalled, AccountShutdown, F.Initial, Recognised;
  }

  lemma {:induction false} NextKeepsCool(s: System, e: Event)
    requires CoolFirst(s) && Owned(s)
    ensures CoolFirst(Next(s, e))
  {
    hide Owned, Moved, CanMove, Put, Worked;
    if Enabled(s, e) {
      match e
      case Tick(n) =>
      case Work(p, a) =>
        if BetweenWorkers(s.sup.stage) {
          NobodyBetween(s, p);
        }
      case Supervise(m) => MoveKeepsCool(s, m);
    }
  }

  lemma {:induction false} AlwaysCool(es: seq<Event>)
    requires Careful(es)
    ensures CoolFirst(Run(es))
    decreases |es|
  {
    hide Owned, Next, Careless, CoolFirst;
    if es == [] {
      CoolAtBoot();
    } else {
      AlwaysCool(es[..|es| - 1]);
      AlwaysOwned(es[..|es| - 1]);
      NextKeepsCool(Run(es[..|es| - 1]), es[|es| - 1]);
    }
  }

  lemma {:induction false} CoolAtBoot()
    ensures CoolFirst(Boot())
  {
  }

  /** Every worker of a careful run is spawned with 3 as the last level written, if that write did not fail. */
  lemma {:induction false} SpawnedAtFullSpeed(es: seq<Event>)
    requires Careful(es) && Enabled(Run(es), Supervise(Fork)) && Run(es).sup.cooled
    ensures Last(Run(es).writes) == Some(3)
  {
    hide Run, Careful;
    AlwaysCool(es);
  }

  // ----- whose heartbeat it is

  predicate Started(stage: Stage) {
    stage.Stamping? || stage.Forking? || W.Guarding(stage)
  }

  predicate By(c: Cycle, p: nat, b: nat) {
    c.pid == p && c.begin == b
  }

  ghost predicate OwnCycle(s: System, b: nat) {
    W.Guarding(s.sup.stage) && exists k :: 0 <= k < |s.cycles| && By(s.cycles[k], s.sup.child, b)
  }

  /** A heartbeat newer than the current start, in place or still in the new file, comes from the current child. */
  ghost predicate OwnBeat(s: System) {
    var started := S.After(s.sup.observed).started;
    && (Started(s.sup.stage) && s.beat.Some? && s.beat.value > started ==> OwnCycle(s, s.beat.value))
    && (Started(s.sup.stage) && s.draft.Some? && s.draft.value.Some? && s.draft.value.value > started ==>
          OwnCycle(s, s.draft.value.value))
    && (W.Guarding(s.sup.stage) && s.sup.child < |s.workers| ==> started <= s.workers[s.sup.child].spawned)
  }

  lemma {:induction false} WorkKeepsBeat(s: System, p: nat, a: Action)
    requires OwnBeat(s) && Owned(s) && Enabled(s, Work(p, a))
    ensures OwnBeat(Next(s, Work(p, a)))
  {
    hide S.After, F.Sense, Put, Recognised;
    var t := Next(s, Work(p, a));
    assert Owner(s, p);
    if a.Draft? {
      assert By(t.cycles[|s.cycles|], p, s.workers[p].phase.begin);
    }
    if t.beat == s.beat && s.beat.Some? && OwnCycle(s, s.beat.value) {
      var b := s.beat.value;
      var k :| 0 <= k < |s.cycles| && By(s.cycles[k], s.sup.child, b);
      assert By(t.cycles[k], s.sup.child, b);
    }
    if s.draft.Some? && s.draft.value.Some? && OwnCycle(s, s.draft.value.value) {
      var b := s.draft.value.value;
      var k :| 0 <= k < |s.cycles| && By(s.cycles[k], s.sup.child, b);
      assert By(t.cycles[k], s.sup.child, b);
    }
  }

  lemma {:induction false} MoveKeepsBeat(s: System, m: Move)
    requires OwnBeat(s) && W.BeatOk(s) && W.DraftOk(s) && W.SupOk(s) && CanMove(s, m)
    ensures OwnBeat(Moved(s, m))
  {
    hide S.After, S.Stalled, AccountShutdown, W.BegunAt;
    match m
    case ReadStart => W.Observing(s.sup.observed, S.Spawned(s.clock));
    case Poll => W.Observing(s.sup.observed, S.Polled(s.sup.stage.now, BeatOf(s)));
    case Account(_) => W.Observing(s.sup.observed, S.Ended(s.clock));
    case _ =>
  }

  lemma {:induction false} AlwaysOwnBeat(es: seq<Event>)
    requires Careful(es)
    ensures OwnBeat(Run(es))
    decreases |es|
  {
    hide Owned, Moved, Labour, Careless, CanMove, CanWork, OwnBeat, W.Sound, W.Good, W.BeatOk, W.DraftOk, W.SupOk;
    if es == [] {
      NoBeatAtBoot();
    } else {
      var s, e := Run(es[..|es| - 1]), es[|es| - 1];
      AlwaysOwnBeat(es[..|es| - 1]);
      AlwaysOwned(es[..|es| - 1]);
      W.AlwaysTruthful(es[..|es| - 1]);
      if Enabled(s, e) {
        match e
        case Tick(n) => TickKeepsBeat(s, n);
        case Work(p, a) => WorkKeepsBeat(s, p, a);
        case Supervise(m) => MoveKeepsBeat(s, m);
      }
    }
  }

  lemma {:induction false} NoBeatAtBoot()
    ensures OwnBeat(Boot())
  {
  }

  lemma {:induction false} TickKeepsBeat(s: System, n: nat)
    requires OwnBeat(s)
    ensures OwnBeat(Next(s, Tick(n)))
  {
    hide S.After;
  }

  /**
    In a careful run the recent cycle behind a quiet poll is the watched worker's own: a poll
    leaves a worker alone only in its first 12 seconds, or if it has itself begun a cycle in the
    last 12 seconds and finished it with the fan covering the demand.
   */
  lemma {:induction false} QuietPollTrustsItsWorker(es: seq<Event>, now: nat)
    requires Careful(es) && Run(es).sup.stage == Polling(now)
    requires Next(Run(es), Supervise(Poll)).sup.stage == Watching
    ensures var s := Run(es);
            && s.sup.child < |s.workers|
            && (now <= s.workers[s.sup.child].spawned + 12 ||
                exists k :: 0 <= k < |s.cycles| && s.cycles[k].pid == s.sup.child && W.Recent(s.cycles[k], now))
  {
    hide Run, Careful, S.After, W.Covers, W.Sound;
    var s := Run(es);
    AlwaysOwnBeat(es);
    W.AlwaysTruthful(es);
    if s.beat.Some? && exists k :: 0 <= k < |s.cycles| && By(s.cycles[k], s.sup.child, s.beat.value) {
      var k :| 0 <= k < |s.cycles| && By(s.cycles[k], s.sup.child, s.beat.value);
      assert W.Good(s.cycles[k], s.clock);
      assert W.Recent(s.cycles[k], now);
    }
  }
}
