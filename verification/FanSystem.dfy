/**
  Workers and supervisor as interleaved processes. Every command that reads or writes something
  shared is one step, so anything may happen between two commands of the same process.
 */
module FanSystem {
  import opened Results
  import F = FanWorker
  import S = FanSupervisor

  // ----- workers

  /** The next command of a cycle that has decided its level. */
  datatype Command = FaultEmergency | ThermalEmergency | Control | Pulse | Write | ReadBack | Note | Beat

  /** `Forked` is the subshell that has not yet become the worker program. */
  datatype Phase =
    | Forked
    | Opening
    | Ready
    | Begun(begin: nat)
    | Acting(begin: nat, d: F.Decision, at: Command, seen: Option<nat>)

  /** A process that is not live takes no further steps. */
  datatype Worker = Worker(live: bool, spawned: nat, phase: Phase, st: F.State)

  /** What writing a small file does to it: the redirection truncates before it writes. */
  datatype Outcome = Stored | Unchanged | Emptied

  /** `ok` tells whether the command succeeds; `full` whether the exit trap sets full speed. */
  datatype Action =
    | Exec
    | Open(ok: bool)
    | Begin
    | Decide(r: F.Readings)
    | Act(ok: bool)
    | Draft(outcome: Outcome)
    | Report(moved: bool)
    | Die(full: bool)

  function First(d: F.Decision): Command {
    if d.faultShutdown then FaultEmergency else if d.thermalShutdown then ThermalEmergency else Control
  }

  function Following(c: Command, d: F.Decision): Command {
    match c
    case FaultEmergency => if d.thermalShutdown then ThermalEmergency else Control
    case ThermalEmergency => Control
    case Control => if d.pulse then Pulse else Write
    case Pulse => Write
    case Write => ReadBack
    case ReadBack => Note
    case _ => Beat
  }

  function Last(writes: seq<nat>): Option<nat> {
    if writes == [] then None else Some(writes[|writes| - 1])
  }

  /** Reading the level back gives the last level written, or fails. */
  predicate CanWork(w: Worker, a: Action, current: Option<nat>) {
    w.live &&
    match a
    case Exec => w.phase.Forked?
    case Open(_) => w.phase.Opening?
    case Begin => w.phase.Ready?
    case Decide(r) => w.phase.Begun? && r.now == w.phase.begin
    case Act(ok) => w.phase.Acting? && !w.phase.at.Note? && !w.phase.at.Beat?
                    && (w.phase.at.ReadBack? && ok ==> current == Some(w.phase.d.level))
    case Draft(_) => w.phase.Acting? && w.phase.at.Note?
    case Report(_) => w.phase.Acting? && w.phase.at.Beat?
    case Die(full) => full ==> !w.phase.Forked? && !w.phase.Opening?
  }

  /** A failing command ends the worker, except in an emergency. */
  predicate Survives(c: Command, ok: bool) {
    ok || c.FaultEmergency? || c.ThermalEmergency?
  }

  function Worked(w: Worker, a: Action, current: Option<nat>, clock: nat): Worker
    requires CanWork(w, a, current)
  {
    match a
    case Exec => w.(phase := Opening)
    case Open(ok) => if ok then w.(phase := Ready, st := F.Initial()) else w.(live := false)
    case Begin => w.(phase := Begun(clock))
    case Decide(r) =>
      var (st, d) := F.Sense(w.st, r);
      w.(st := st, phase := Acting(w.phase.begin, d, First(d), None))
    case Act(ok) =>
      if Survives(w.phase.at, ok) then
        w.(phase := w.phase.(at := Following(w.phase.at, w.phase.d),
                             seen := if w.phase.at.ReadBack? then current else w.phase.seen))
      else w.(live := false)
    case Draft(_) => w.(phase := w.phase.(at := Beat))
    case Report(_) => w.(phase := Ready, st := F.Commit(w.st))
    case Die(_) => w.(live := false)
  }

  /** The fan level that a step of the worker writes, if any. */
  function Put(w: Worker, a: Action): seq<nat> {
    match a
    case Open(ok) => if ok then [3] else []
    case Act(ok) =>
      if !ok || !w.phase.Acting? then []
      else if w.phase.at.Write? then [w.phase.d.level]
      else if w.phase.at.Control? || w.phase.at.ReadBack? then []
      else [3]
    case Die(full) => if full then [3] else []
    case _ => []
  }

  // ----- the supervisor

  datatype Stage =
    | Down
    | Booting
    | Retiring
    | Retired
    | Starting
    | Stamping
    | Forking
    | Recording
    | Watching
    | Polling(now: nat)
    | Stalling
    | Killing
    | Ending
    | Accounting

  /** `first` is the first process number of this life; `cooled` the success of the last full cooling. */
  datatype Sup = Sup(stage: Stage, child: nat, first: nat, observed: seq<S.Observation>, cooled: bool)

  datatype Move =
    | Start
    | Full(ok: bool)
    | Retire
    | ReadStart
    | Stamp(outcome: Outcome)
    | Fork
    | Record(outcome: Outcome)
    | SeeEnd
    | Look
    | Poll
    | Kill
    | Account(ok: bool)
    | Leave(full: bool)

  // ----- the whole

  /** A cycle that has read its level back: who, when it began, what it decided, which level it read back. */
  datatype Cycle = Cycle(pid: nat, begin: nat, d: F.Decision, seen: nat)

  /**
    `beat` and `pidFile` are `None` when the file is missing, empty or not a number; `draft` is
    the new heartbeat file, `None` when it is missing.
   */
  datatype System = System(
    clock: nat, writes: seq<nat>, draft: Option<Option<nat>>, beat: Option<nat>, pidFile: Option<nat>,
    workers: seq<Worker>, sup: Sup, cycles: seq<Cycle>)

  function Boot(): System {
    System(0, [], None, None, None, [], Sup(Down, 0, 0, [], false), [])
  }

  function Filed(outcome: Outcome, value: nat, before: Option<nat>): Option<nat> {
    match outcome
    case Stored => Some(value)
    case Unchanged => before
    case Emptied => None
  }

  function BeatOf(s: System): nat {
    if s.beat.Some? then s.beat.value else 0
  }

  predicate Alive(s: System, p: nat) {
    p < |s.workers| && s.workers[p].live
  }

  /** The process is a live worker whose command line shows it. */
  predicate Recognised(s: System, p: nat) {
    Alive(s, p) && !s.workers[p].phase.Forked?
  }

  function Killed(s: System, p: nat): System {
    if p < |s.workers| then s.(workers := s.workers[p := s.workers[p].(live := false)]) else s
  }

  function At(s: System, stage: Stage): System {
    s.(sup := s.sup.(stage := stage))
  }

  function Cooled(s: System, ok: bool, stage: Stage): System {
    s.(sup := s.sup.(stage := stage, cooled := ok), writes := s.writes + if ok then [3] else [])
  }

  function Noted(s: System, x: S.Observation, stage: Stage): System {
    s.(sup := s.sup.(stage := stage, observed := s.sup.observed + [x]))
  }

  predicate CanMove(s: System, m: Move) {
    match m
    case Start => s.sup.stage.Down?
    case Full(_) => s.sup.stage.Booting? || s.sup.stage.Retired? || s.sup.stage.Stalling? || s.sup.stage.Ending?
    case Retire => s.sup.stage.Retiring?
    case ReadStart => s.sup.stage.Starting?
    case Stamp(_) => s.sup.stage.Stamping?
    case Fork => s.sup.stage.Forking?
    case Record(_) => s.sup.stage.Recording?
    // A dead child may look alive until it has been waited for, but never the other way round.
    case SeeEnd => s.sup.stage.Watching? && !Alive(s, s.sup.child)
    case Look => s.sup.stage.Watching?
    case Poll => s.sup.stage.Polling?
    case Kill => s.sup.stage.Killing?
    case Account(_) => s.sup.stage.Accounting?
    // The exit trap is set only when the loop is entered.
    case Leave(full) =>
      !s.sup.stage.Down? &&
      (full ==> !s.sup.stage.Booting? && !s.sup.stage.Retiring? && !s.sup.stage.Retired?)
  }

  function AfterFull(stage: Stage, ok: bool): Stage {
    match stage
    case Booting => if ok then Retiring else Down
    case Retired => if ok then Starting else Down
    case Stalling => Killing
    case _ => Accounting
  }

  /** Retiring kills the recorded process if it is a worker. */
  function Retirement(s: System): System {
    if s.pidFile.Some? && Recognised(s, s.pidFile.value) then Killed(s, s.pidFile.value) else s
  }

  predicate AccountShutdown(s: System) {
    S.ShutdownDue(S.After(s.sup.observed + [S.Ended(s.clock)]), s.clock)
  }

  function Moved(s: System, m: Move): System
    requires CanMove(s, m)
  {
    match m
    case Start => s.(sup := Sup(Booting, 0, |s.workers|, [], false))
    case Full(ok) => Cooled(s, ok, AfterFull(s.sup.stage, ok))
    case Retire => At(Retirement(s), Retired)
    case ReadStart => Noted(s, S.Spawned(s.clock), Stamping)
    case Stamp(outcome) => At(s, Forking).(beat := Filed(outcome, S.After(s.sup.observed).started, s.beat))
    case Fork =>
      s.(workers := s.workers + [Worker(true, s.clock, Forked, F.Initial())],
         sup := s.sup.(stage := Recording, child := |s.workers|))
    case Record(outcome) => At(s, Watching).(pidFile := Filed(outcome, s.sup.child, s.pidFile))
    case SeeEnd => At(s, Ending)
    case Look => At(s, Polling(s.clock))
    case Poll =>
      var now, beat := s.sup.stage.now, BeatOf(s);
      Noted(s, S.Polled(now, beat), if S.Stalled(now, beat) then Stalling else Watching)
    case Kill => At(Killed(s, s.sup.child), Ending)
    case Account(ok) =>
      Noted(s, S.Ended(s.clock), Starting).(writes := s.writes + if AccountShutdown(s) && ok then [3] else [])
    case Leave(full) => At(s, Down).(writes := s.writes + if full then [3] else [])
  }

  datatype Event = Tick(seconds: nat) | Work(pid: nat, a: Action) | Supervise(m: Move)

  predicate Enabled(s: System, e: Event) {
    match e
    case Tick(_) => true
    case Work(p, a) => p < |s.workers| && CanWork(s.workers[p], a, Last(s.writes))
    case Supervise(m) => CanMove(s, m)
  }

  function Labour(s: System, p: nat, a: Action): System
    requires p < |s.workers| && CanWork(s.workers[p], a, Last(s.writes))
  {
    var w := s.workers[p];
    var t := s.(workers := s.workers[p := Worked(w, a, Last(s.writes), s.clock)], writes := s.writes + Put(w, a));
    if a.Draft? then
      var seen := if w.phase.seen.Some? then w.phase.seen.value else 0;
      t.(draft := if a.outcome.Unchanged? then s.draft else Some(Filed(a.outcome, w.phase.begin, None)),
         cycles := s.cycles + [Cycle(p, w.phase.begin, w.phase.d, seen)])
    else if a.Report? && a.moved && s.draft.Some? then t.(beat := s.draft.value, draft := None)
    else t
  }

  /** An event that is not enabled does nothing. */
  function Next(s: System, e: Event): System {
    if !Enabled(s, e) then s
    else
      match e
      case Tick(n) => s.(clock := s.clock + n)
      case Work(p, a) => Labour(s, p, a)
      case Supervise(m) => Moved(s, m)
  }

  /** The state after a run. */
  function Run(es: seq<Event>): System {
    if es == [] then Boot() else Next(Run(es[..|es| - 1]), es[|es| - 1])
  }
}
