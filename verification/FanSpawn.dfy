/**
  With which level the fan stands when a worker is spawned, and that a careless kill is exactly
  what breaks each promise about the fan's owner.
 */
module FanSpawn {
  import opened Results
  import opened FanSystem
  import opened FanReach
  import F = FanWorker
  import L = FanLowStart
  import O = FanOwnership
  import S = FanSupervisor
  import W = FanWatchdog

  predicate IsFork(e: Event) {
    e.Supervise? && e.m.Fork?
  }

  // ----- the next spawn

  /** `more` goes on from `base` to the point of the next spawn, with no supervisor leaving. */
  ghost predicate UpToFork(base: seq<Event>, more: seq<Event>) {
    Calm(more) && (forall e | e in more :: !IsFork(e)) && Enabled(Run(base + more), Supervise(Fork))
  }

  /** The fan is at full speed and no worker is there to change that. */
  predicate AtRest(s: System) {
    O.BetweenWorkers(s.sup.stage) && Last(s.writes) == Some(3)
  }

  lemma {:induction false} NextRests(s: System, e: Event)
    requires AtRest(s) && O.Owned(s) && !IsLeave(e) && !IsFork(e)
    ensures AtRest(Next(s, e))
  {
    hide S.After, S.Stalled, AccountShutdown, F.Sense, Put, Worked, Recognised;
    if e.Work? {
      O.NobodyBetween(s, e.pid);
    }
  }

  lemma {:induction false} StaysAtRest(base: seq<Event>, more: seq<Event>)
    requires O.Careful(base) && Calm(more) && (forall e | e in more :: !IsFork(e)) && AtRest(Run(base))
    ensures AtRest(Run(base + more))
    decreases |more|
  {
    hide Run, Next, AtRest, O.Careful, O.Owned;
    if more == [] {
      assert base + more == base;
    } else {
      var n := |more| - 1;
      var front := more[..n];
      assert forall e | e in front :: e in more;
      assert more == front + [more[n]] && more[n] in more;
      assert base + more == base + front + [more[n]];
      StaysAtRest(base, front);
      CalmIsCareful(base, front);
      O.AlwaysOwned(base + front);
      O.RunThen(base + front, more[n]);
      NextRests(Run(base + front), more[n]);
    }
  }

  /** From the accounts to the next spawn, without a shutdown and with two seconds of sleep. */
  function ToFork(): seq<Event> {
    [Supervise(Account(false)), Tick(2), Supervise(ReadStart), Supervise(Stamp(Stored))]
  }

  lemma {:induction false} GetsToFork(base: seq<Event>)
    requires Run(base).sup.stage == Accounting
    ensures UpToFork(base, ToFork())
    ensures var t := Run(base + ToFork()); t.writes == Run(base).writes && t.sup.cooled == Run(base).sup.cooled
  {
    hide Run, Next;
    var s := Run(base);
    var m := ToFork();
    var s1, s2 := Next(s, m[0]), Next(Next(s, m[0]), m[1]);
    var s3 := Next(s2, m[2]);
    O.RunThen(base, m[0]);
    O.RunThen(base + [m[0]], m[1]);
    O.RunThen(base + [m[0]] + [m[1]], m[2]);
    O.RunThen(base + [m[0]] + [m[1]] + [m[2]], m[3]);
    assert base + m == base + [m[0]] + [m[1]] + [m[2]] + [m[3]];
    Prepares(s);
  }

  lemma {:induction false} Prepares(s: System)
    requires s.sup.stage == Accounting
    ensures var t := Next(Next(Next(Next(s, ToFork()[0]), ToFork()[1]), ToFork()[2]), ToFork()[3]);
            t.sup.stage == Forking && t.writes == s.writes && t.sup.cooled == s.sup.cooled
  {
    hide Next;
    var s1 := Next(s, Supervise(Account(false)));
    Settled(s);
    O.JustLater(s1);
    Stamps(Next(s1, Tick(2)));
  }

  lemma {:induction false} Settled(s: System)
    requires s.sup.stage == Accounting
    ensures var t := Next(s, Supervise(Account(false)));
            t.sup.stage == Starting && t.writes == s.writes && t.sup.cooled == s.sup.cooled
  {
    hide S.After, AccountShutdown;
  }

  lemma {:induction false} Stamps(s: System)
    requires s.sup.stage == Starting
    ensures var t := Next(Next(s, Supervise(ReadStart)), Supervise(Stamp(Stored)));
            t.sup.stage == Forking && t.writes == s.writes && t.sup.cooled == s.sup.cooled
  {
    hide S.After;
  }

  lemma {:induction false} Cools(s: System, ok: bool)
    requires s.sup.stage == Ending
    ensures var t := Next(s, Supervise(Full(ok)));
            t.sup.stage == Accounting && t.sup.cooled == ok && t.writes == s.writes + if ok then [3] else []
  {
  }

  /**
    In a careful run a worker has just ended. The next one is sure to be spawned with 3 as the
    last level written exactly if the full cooling succeeds or that level is 3 already.
   */
  lemma {:induction false} SpawnedAtFullSpeedExactly(es: seq<Event>, ok: bool)
    requires O.Careful(es) && Run(es).sup.stage == Ending
    ensures var base := es + [Supervise(Full(ok))];
            (forall more | UpToFork(base, more) :: Last(Run(base + more).writes) == Some(3)) <==>
            ok || Last(Run(es).writes) == Some(3)
  {
    hide Run, Next, O.Careful;
    var e := Supervise(Full(ok));
    var base := es + [e];
    O.RunThen(es, e);
    Cools(Run(es), ok);
    assert O.Careful(base) by { CalmIsCareful(es, [e]); }
    if ok || Last(Run(es).writes) == Some(3) {
      forall more | UpToFork(base, more) ensures Last(Run(base + more).writes) == Some(3) {
        StaysAtRest(base, more);
      }
    } else {
      GetsToFork(base);
      assert UpToFork(base, ToFork()) && Last(Run(base + ToFork()).writes) != Some(3);
    }
  }

  // ----- the first spawn of a supervisor's life

  predicate SomeEnded(log: seq<S.Observation>) {
    exists k | 0 <= k < |log| :: log[k].Ended?
  }

  predicate CooledAtFirst(s: System) {
    (s.sup.stage.Starting? || s.sup.stage.Stamping? || s.sup.stage.Forking?) && !s.sup.cooled ==>
      SomeEnded(s.sup.observed)
  }

  lemma {:induction false} StillEnded(log: seq<S.Observation>, x: S.Observation)
    ensures SomeEnded(log) || x.Ended? ==> SomeEnded(log + [x])
  {
    if SomeEnded(log) {
      var k :| 0 <= k < |log| && log[k].Ended?;
      assert (log + [x])[k].Ended?;
    } else if x.Ended? {
      assert (log + [x])[|log|].Ended?;
    }
  }

  lemma {:induction false} NextKeepsCooled(s: System, e: Event)
    requires CooledAtFirst(s)
    ensures CooledAtFirst(Next(s, e))
  {
    hide S.After, S.Stalled, AccountShutdown, SomeEnded, Put, Worked, CanWork, Recognised;
    StillEnded(s.sup.observed, S.Spawned(s.clock));
    StillEnded(s.sup.observed, S.Ended(s.clock));
  }

  lemma {:induction false} AlwaysCooledAtFirst(es: seq<Event>)
    ensures CooledAtFirst(Run(es))
    decreases |es|
  {
    hide Next, CooledAtFirst;
    if es == [] {
      assert CooledAtFirst(Boot()) by { NoSpawnAtBoot(); }
    } else {
      AlwaysCooledAtFirst(es[..|es| - 1]);
      NextKeepsCooled(Run(es[..|es| - 1]), es[|es| - 1]);
    }
  }

  lemma {:induction false} NoSpawnAtBoot()
    ensures CooledAtFirst(Boot())
  {
  }

  /** In a careful run the first worker of every supervisor's life is spawned at full speed. */
  lemma {:induction false} FirstSpawnedAtFullSpeed(es: seq<Event>)
    requires O.Careful(es) && Enabled(Run(es), Supervise(Fork)) && !SomeEnded(Run(es).sup.observed)
    ensures Last(Run(es).writes) == Some(3)
  {
    hide Run, O.Careful, SomeEnded;
    AlwaysCooledAtFirst(es);
    O.SpawnedAtFullSpeed(es);
  }

  // ----- after a failed cooling

  /** At a spawn the cooling before it has failed, and the fan stands at `level`. */
  predicate SpawnsUncooled(s: System, level: nat) {
    Enabled(s, Supervise(Fork)) && !s.sup.cooled && Last(s.writes) == Some(level)
  }

  /**
    Nothing narrows down the level after a failed cooling: from every careful run with a watched
    worker at the head of its loop, the next one can be spawned with the fan at any level.
   */
  lemma {:induction false} SpawnedAtAnyLevel(es: seq<Event>, level: nat)
    requires O.Careful(es) && Run(es).sup.stage == Watching && level <= 3
    requires Alive(Run(es), Run(es).sup.child) && Run(es).workers[Run(es).sup.child].phase == Ready
    ensures exists more :: Calm(more) && O.Careful(es + more) && SpawnsUncooled(Run(es + more), level)
  {
    hide Run, Next, O.Careful, Leads;
    LeadsNowhere(es);
    var s1 := L.Settles(es, Run(es), Run(es).sup.child, level);
    var s2 := Dies(es, s1, false);
    var t := NextSpawn(es, s2);
    Found(es, t);
    var more :| Calm(more) && Run(es + more) == t;
    CalmIsCareful(es, more);
  }

  lemma {:induction false} Found(base: seq<Event>, t: System)
    requires Leads(base, t)
    ensures exists more :: Calm(more) && Run(base + more) == t
  {
  }

  /** The watched worker dies, and the supervisor tries to cool at full speed. */
  lemma {:induction false} Dies(base: seq<Event>, s: System, ok: bool) returns (t: System)
    requires Leads(base, s) && s.sup.stage == Watching && Alive(s, s.sup.child)
    ensures Leads(base, t) && t.sup == s.sup.(stage := Accounting, cooled := ok)
    ensures t.writes == s.writes + if ok then [3] else []
    ensures t.workers == s.workers[s.sup.child := s.workers[s.sup.child].(live := false)]
  {
    hide Leads;
    var e := Work(s.sup.child, Die(false));
    Goes(base, s, e);
    var s1 := Next(s, e);
    Goes(base, s1, Supervise(SeeEnd));
    var s2 := Next(s1, Supervise(SeeEnd));
    Goes(base, s2, Supervise(Full(ok)));
    t := Next(s2, Supervise(Full(ok)));
  }

  lemma {:induction false} NextSpawn(base: seq<Event>, s: System) returns (t: System)
    requires Leads(base, s) && s.sup.stage == Accounting
    ensures Leads(base, t) && Enabled(t, Supervise(Fork)) && t.sup.cooled == s.sup.cooled && t.writes == s.writes
  {
    hide Leads, Next;
    var m := ToFork();
    Goes(base, s, m[0]);
    Goes(base, Next(s, m[0]), m[1]);
    Goes(base, Next(Next(s, m[0]), m[1]), m[2]);
    Goes(base, Next(Next(Next(s, m[0]), m[1]), m[2]), m[3]);
    t := Next(Next(Next(Next(s, m[0]), m[1]), m[2]), m[3]);
    Prepares(s);
  }

  // ----- what a careless kill does to it

  /** A worker is about to be spawned at standstill, although the cooling before it has succeeded. */
  predicate SpawnsLow(s: System) {
    Enabled(s, Supervise(Fork)) && s.sup.cooled && Last(s.writes) == Some(0)
  }

  /** Behind a careless kill two workers: the one left behind, and the next supervisor's at its start. */
  lemma {:induction false} TwoWorkers(es: seq<Event>) returns (t: System)
    requires O.Careless(Run(es), Supervise(Leave(false)))
    ensures Leads(es + [Supervise(Leave(false))], t)
    ensures var p := Run(es).sup.child;
            && Alive(t, p) && W.Sound(t.workers[p], t.clock)
            && t.sup.stage == Recording && t.sup.child != p && Alive(t, t.sup.child)
            && t.workers[t.sup.child].phase == Forked
  {
    hide Run, Next, S.After;
    var base := es + [Supervise(Leave(false))];
    O.RunThen(es, Supervise(Leave(false)));
    L.Leaves(Run(es));
    W.AlwaysTruthful(base);
    LeadsNowhere(base);
    t := Restarts(base, Run(base));
    W.SoundLater(t.workers[Run(es).sup.child], Run(base).clock, t.clock);
  }

  /**
    After every careless kill, wherever its worker stands, the run can go on to a spawn at
    standstill behind a successful full cooling.
   */
  lemma {:induction false} CarelessKillSpawnsLow(es: seq<Event>)
    requires O.Careless(Run(es), Supervise(Leave(false)))
    ensures exists more :: Calm(more) && SpawnsLow(Run(es + [Supervise(Leave(false))] + more))
  {
    hide Run, Next, O.Careless, Leads, W.Sound;
    var base := es + [Supervise(Leave(false))];
    var p := Run(es).sup.child;
    var s := TwoWorkers(es);
    var q := s.sup.child;
    Goes(base, s, Supervise(Record(Stored)));
    var s1 := Next(s, Supervise(Record(Stored)));
    Records(s);
    var s2 := Opens(base, s1, q);
    var s3 := L.GetsReady(base, s2, p, q);
    var s4 := Dies(base, s3, true);
    var s5 := L.Settles(base, s4, p, 0);
    var t := NextSpawn(base, s5);
    Found(base, t);
  }

  predicate TwoLive(s: System) {
    exists p: nat, q: nat :: p < q < |s.workers| && Alive(s, p) && Alive(s, q)
  }

  /**
    Each of three promises may be broken after a supervisor of a careful run was killed, if and
    only if that kill was careless: one live worker at most, no start from standstill at level 1,
    and no spawn at standstill behind a successful cooling.
   */
  lemma {:induction false} CarelessExactly(es: seq<Event>)
    requires O.Careful(es) && Enabled(Run(es), Supervise(Leave(false)))
    ensures var base, careless := es + [Supervise(Leave(false))], O.Careless(Run(es), Supervise(Leave(false)));
            && (careless <==> exists more :: Calm(more) && TwoLive(Run(base + more)))
            && (careless <==> exists more :: Calm(more) && L.LowStart(Run(base + more).writes))
            && (careless <==> exists more :: Calm(more) && SpawnsLow(Run(base + more)))
  {
    hide Run, O.Careless, Leads, TwoLive, SpawnsLow, L.LowStart;
    var base := es + [Supervise(Leave(false))];
    if O.Careless(Run(es), Supervise(Leave(false))) {
      var t := TwoWorkers(es);
      assert TwoLive(t) by { TwoAreLive(t, Run(es).sup.child, t.sup.child); }
      Found(base, t);
      L.CarelessKillStartsLow(es);
      CarelessKillSpawnsLow(es);
    } else {
      assert base[..|base| - 1] == es && O.Careful(base);
      forall more | Calm(more)
        ensures !TwoLive(Run(base + more)) && !L.LowStart(Run(base + more).writes) && !SpawnsLow(Run(base + more))
      {
        CalmIsCareful(base, more);
        CarefulKeeps(base + more);
      }
    }
  }

  lemma {:induction false} TwoAreLive(s: System, p: nat, q: nat)
    requires Alive(s, p) && Alive(s, q) && p != q
    ensures TwoLive(s)
  {
  }

  lemma {:induction false} CarefulKeeps(es: seq<Event>)
    requires O.Careful(es)
    ensures !TwoLive(Run(es)) && !L.LowStart(Run(es).writes) && !SpawnsLow(Run(es))
  {
    hide Run, O.Careful;
    var s := Run(es);
    if TwoLive(s) {
      var p: nat, q: nat :| p < q < |s.workers| && Alive(s, p) && Alive(s, q);
      O.OneWorker(es, p, q);
      assert false;
    }
    if L.LowStart(s.writes) {
      O.StopThenFullSpeed(es, |s.writes| - 2);
      assert false;
    }
    if SpawnsLow(s) {
      O.SpawnedAtFullSpeed(es);
      assert false;
    }
  }
}
