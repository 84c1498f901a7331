/** Where the fan stands when the watchdog leaves a worker alone. */
module FanStanding {
  import opened Results
  import opened FanSystem
  import F = FanWorker
  import O = FanOwnership
  import S = FanSupervisor
  import W = FanWatchdog

  /** The command behind the write of the level has been reached. */
  predicate PastWrite(c: Command) {
    c.ReadBack? || c.Note? || c.Beat?
  }

  predicate Written(s: System, d: F.Decision) {
    Last(s.writes) == Some(3) || Last(s.writes) == Some(d.level)
  }

  /** `c` is a cycle that the worker finished, and its latest. */
  predicate Latest(w: Worker, c: Cycle) {
    match w.phase
    case Forked => false
    case Opening => false
    case Ready => true
    case Begun(begin) => c.begin <= begin
    case Acting(begin, d, at, _) => c.begin <= begin && (at.Beat? ==> c.begin == begin && c.d == d)
  }

  /** The fan stands at full speed or where the child's present or latest cycle has put it. */
  predicate Placed(s: System, w: Worker) {
    if w.phase.Acting? && PastWrite(w.phase.at) then Written(s, w.phase.d)
    else s.cycles != [] && s.cycles[|s.cycles| - 1].pid == s.sup.child ==> Written(s, s.cycles[|s.cycles| - 1].d)
  }

  /** Cycle `k` is not the child's, or the last cycle of all is the child's and began no earlier. */
  predicate Before(s: System, k: nat)
    requires k < |s.cycles|
  {
    var last := s.cycles[|s.cycles| - 1];
    s.cycles[k].pid == s.sup.child ==> last.pid == s.sup.child && s.cycles[k].begin <= last.begin
  }

  predicate Numbered(s: System) {
    forall k | 0 <= k < |s.cycles| :: s.cycles[k].pid < |s.workers|
  }

  predicate Tracked(s: System) {
    W.Guarding(s.sup.stage) && s.sup.child < |s.workers| ==>
      var w := s.workers[s.sup.child];
      && Placed(s, w)
      && (s.cycles != [] && s.cycles[|s.cycles| - 1].pid == s.sup.child ==> Latest(w, s.cycles[|s.cycles| - 1]))
      && forall k: nat | k < |s.cycles| :: Before(s, k)
  }

  predicate Standing(s: System) {
    Numbered(s) && Tracked(s)
  }

  lemma {:induction false} TickStands(s: System, n: nat)
    requires Standing(s)
    ensures Standing(Next(s, Tick(n)))
  {
    var t := Next(s, Tick(n));
    forall k: nat | W.Guarding(s.sup.stage) && s.sup.child < |s.workers| && k < |t.cycles| ensures Before(t, k) {
      assert Before(s, k);
    }
  }

  /** A step of the child leaves the fan placed. */
  lemma {:induction false} StepPlaces(s: System, a: Action)
    requires Tracked(s) && W.Guarding(s.sup.stage) && Enabled(s, Work(s.sup.child, a))
    requires W.Sound(s.workers[s.sup.child], s.clock)
    ensures var t := Next(s, Work(s.sup.child, a)); Placed(t, t.workers[s.sup.child])
  {
    hide F.Sense, F.Initial, F.Commit, W.Covers, Before;
  }

  /** The child's last cycle, if it has one, is its latest also after a step. */
  lemma {:induction false} StepIsLatest(s: System, a: Action)
    requires Tracked(s) && W.Guarding(s.sup.stage) && Enabled(s, Work(s.sup.child, a))
    requires forall k | 0 <= k < |s.cycles| :: s.cycles[k].begin <= s.clock
    ensures var t := Next(s, Work(s.sup.child, a));
            t.cycles != [] && t.cycles[|t.cycles| - 1].pid == t.sup.child ==>
              Latest(t.workers[s.sup.child], t.cycles[|t.cycles| - 1])
  {
    hide F.Sense, F.Initial, F.Commit, Put, Placed, Before;
  }

  lemma {:induction false} StepKeepsOrder(s: System, a: Action, k: nat)
    requires Tracked(s) && W.Guarding(s.sup.stage) && Enabled(s, Work(s.sup.child, a))
    requires k < |Next(s, Work(s.sup.child, a)).cycles|
    ensures Before(Next(s, Work(s.sup.child, a)), k)
  {
    hide F.Sense, F.Initial, F.Commit, Worked, Put, Placed;
    if k < |s.cycles| {
      assert Before(s, k);
    }
  }

  lemma {:induction false} WorkStands(s: System, p: nat, a: Action)
    requires Standing(s) && O.Owned(s) && W.Truthful(s) && Enabled(s, Work(p, a))
    ensures Standing(Next(s, Work(p, a)))
  {
    hide Placed, Latest, Before, W.Sound, Worked, Put, W.DraftOk, W.BeatOk, W.SupOk, Recognised, CanWork;
    var t := Next(s, Work(p, a));
    O.LiveIsTheWorker(s, p, a);
    assert O.Owner(s, p);
    if W.Guarding(s.sup.stage) {
      assert W.Sound(s.workers[p], s.clock);
      assert forall k | 0 <= k < |s.cycles| :: W.Good(s.cycles[k], s.clock);
      StepPlaces(s, a);
      StepIsLatest(s, a);
      forall k: nat | k < |t.cycles| ensures Before(t, k) {
        StepKeepsOrder(s, a, k);
      }
    }
  }

  /** A new worker has no cycle behind it. */
  lemma {:induction false} ForkStands(s: System)
    requires Standing(s) && CanMove(s, Fork)
    ensures Standing(Moved(s, Fork))
  {
    hide S.After, Latest, F.Initial;
  }

  /** Whatever else the supervisor does, it writes 3 or nothing, and starts to watch no other worker. */
  lemma {:induction false} SameChild(s: System, m: Move)
    requires CanMove(s, m) && !m.Fork? && W.Guarding(Moved(s, m).sup.stage)
    ensures var t := Moved(s, m);
            && t.cycles == s.cycles && t.workers == s.workers
            && W.Guarding(s.sup.stage) && t.sup.child == s.sup.child
            && (t.writes == s.writes || Last(t.writes) == Some(3))
  {
    hide S.After, S.Stalled, AccountShutdown, F.Initial;
  }

  lemma {:induction false} SameNumbers(s: System, m: Move)
    requires Numbered(s) && CanMove(s, m)
    ensures Numbered(Moved(s, m))
  {
    hide S.After, S.Stalled, AccountShutdown, F.Initial, Recognised;
  }

  lemma {:induction false} MoveStands(s: System, m: Move)
    requires Standing(s) && CanMove(s, m)
    ensures Standing(Moved(s, m))
  {
    hide Moved, CanMove, Latest;
    SameNumbers(s, m);
    if m.Fork? {
      ForkStands(s);
    } else if W.Guarding(Moved(s, m).sup.stage) {
      SameChild(s, m);
      forall k: nat | k < |s.cycles| ensures Before(Moved(s, m), k) {
        assert Before(s, k);
      }
    }
  }

  lemma {:induction false} StandsAtBoot()
    ensures Standing(Boot())
  {
  }

  lemma {:induction false} AlwaysStands(es: seq<Event>)
    requires O.Careful(es)
    ensures Standing(Run(es))
    decreases |es|
  {
    hide O.Owned, Moved, Labour, O.Careless, CanMove, CanWork, Standing, W.Truthful;
    if es == [] {
      StandsAtBoot();
    } else {
      var s, e := Run(es[..|es| - 1]), es[|es| - 1];
      AlwaysStands(es[..|es| - 1]);
      O.AlwaysOwned(es[..|es| - 1]);
      W.AlwaysTruthful(es[..|es| - 1]);
      if Enabled(s, e) {
        match e
        case Tick(n) => TickStands(s, n);
        case Work(p, a) => WorkStands(s, p, a);
        case Supervise(m) => MoveStands(s, m);
      }
    }
  }

  /** Process `p` has decided `d` in a cycle begun at `begin`, finished or not. */
  ghost predicate DecidedBy(s: System, p: nat, begin: nat, d: F.Decision) {
    || (exists k :: 0 <= k < |s.cycles| && s.cycles[k].pid == p && s.cycles[k].begin == begin && s.cycles[k].d == d)
    || (p < |s.workers| && s.workers[p].phase.Acting? && s.workers[p].phase.begin == begin && s.workers[p].phase.d == d)
  }

  /** The last level written is one that `p` decided on at most 12 seconds before `now`, to cover its demand. */
  ghost predicate FreshlyPlaced(s: System, p: nat, now: nat) {
    exists begin: nat, d ::
      DecidedBy(s, p, begin, d) && now <= begin + 12 && W.Covers(d) && Last(s.writes) == Some(d.level)
  }

  /**
    In a careful run, at a poll that leaves a worker alone more than 12 seconds after its spawn, the
    fan stands at full speed or at a level that covers the demand of a cycle which this very worker
    began in the 12 seconds before the poll's clock reading or later.
   */
  lemma {:induction false} QuietPollFindsFanPlaced(es: seq<Event>, now: nat)
    requires O.Careful(es) && Run(es).sup.stage == Polling(now)
    requires Next(Run(es), Supervise(Poll)).sup.stage == Watching
    ensures var s, p := Run(es), Run(es).sup.child;
            && p < |s.workers|
            && (s.workers[p].spawned + 12 < now ==> Last(s.writes) == Some(3) || FreshlyPlaced(s, p, now))
  {
    hide Run, Next, O.Careful, W.Covers, W.DraftOk, W.BeatOk, W.Recent;
    var s, p := Run(es), Run(es).sup.child;
    O.QuietPollTrustsItsWorker(es, now);
    W.AlwaysTruthful(es);
    AlwaysStands(es);
    if s.workers[p].spawned + 12 < now {
      var k :| 0 <= k < |s.cycles| && s.cycles[k].pid == p && W.Recent(s.cycles[k], now);
      RecentIsRecent(s.cycles[k], now);
      assert Before(s, k);
      Places(s, now);
    }
  }

  lemma {:induction false} RecentIsRecent(c: Cycle, now: nat)
    requires W.Recent(c, now)
    ensures now <= c.begin + 12
  {
  }

  lemma {:induction false} Places(s: System, now: nat)
    requires Standing(s) && W.Truthful(s) && W.Guarding(s.sup.stage)
    requires s.cycles != [] && s.cycles[|s.cycles| - 1].pid == s.sup.child && now <= s.cycles[|s.cycles| - 1].begin + 12
    ensures Last(s.writes) == Some(3) || FreshlyPlaced(s, s.sup.child, now)
  {
    hide W.Covers, W.DraftOk, W.BeatOk, Before;
    var p, w := s.sup.child, s.workers[s.sup.child];
    var c := s.cycles[|s.cycles| - 1];
    assert W.Sound(w, s.clock) && W.Good(c, s.clock);
    if Last(s.writes) != Some(3) {
      if w.phase.Acting? && PastWrite(w.phase.at) {
        assert DecidedBy(s, p, w.phase.begin, w.phase.d);
      } else {
        assert DecidedBy(s, p, c.begin, c.d);
      }
    }
  }
}
