/**
  The supervisor's own decisions: when a worker counts as stalled, and when repeated failures of
  the worker shut the machine down.
 */
module FanSupervisor {
  import opened Results
  import opened Digits
  import T = SinceTimers

  /** The supervisor's variables that outlive one worker. */
  datatype State = State(started: nat, faultStart: nat)

  /** What the supervisor sees: it starts a worker, reads a heartbeat, or finds the worker ended. */
  datatype Observation = Spawned(now: nat) | Polled(now: nat, beat: nat) | Ended(now: nat)

  /** Anything but a decimal number reads as 0. `None` stands for a file that cannot be read. */
  function Heartbeat(contents: Option<string>): nat {
    if contents.Some? && Numeric(contents.value) then Number(contents.value) else 0
  }

  predicate Stalled(now: nat, beat: nat) {
    now - beat > 12 || beat > now
  }

  /** A heartbeat that a worker has written reads back as the time it wrote; everything else reads as 0. */
  lemma {:induction false} HeartbeatReadsBack(contents: Option<string>, n: nat)
    ensures contents == Some(Decimal(n)) ==> Heartbeat(contents) == n
    ensures contents == None || contents == Some("") ==> Heartbeat(contents) == 0
    ensures contents.Some? && (exists c | c in contents.value :: !('0' <= c <= '9')) ==> Heartbeat(contents) == 0
  {
    hide Number, Decimal;
    DecimalReadsBack(n);
  }

  /** A poll finds the worker stalled exactly if the time in the file is more than 12 seconds old, or in the future. */
  lemma {:induction false} StalledExactly(now: nat, n: nat)
    ensures Stalled(now, Heartbeat(Some(Decimal(n)))) <==> now > n + 12 || n > now
    ensures Stalled(now, Heartbeat(None)) <==> now > 12
  {
    hide Heartbeat, Decimal;
    HeartbeatReadsBack(Some(Decimal(n)), n);
    HeartbeatReadsBack(None, n);
  }

  function Next(s: State, x: Observation): State {
    match x
    case Spawned(now) => s.(started := now)
    case Polled(now, beat) => if !Stalled(now, beat) && beat > s.started then s.(faultStart := 0) else s
    case Ended(now) => if s.faultStart != 0 then s else s.(faultStart := now)
  }

  function After(log: seq<Observation>): State {
    if log == [] then State(0, 0) else Next(After(log[..|log| - 1]), log[|log| - 1])
  }

  /** The test made when a worker has ended at `now`, with that end already accounted for. */
  predicate ShutdownDue(s: State, now: nat) {
    now - s.faultStart >= 120
  }

  // ----- what the variables mean

  /** The time of the latest spawn. */
  function LatestSpawn(log: seq<Observation>): nat {
    if log == [] then 0
    else if log[|log| - 1].Spawned? then log[|log| - 1].now
    else LatestSpawn(log[..|log| - 1])
  }

  /** Observation `k` is a poll that finds a fresh heartbeat of the worker being watched. */
  predicate Progress(log: seq<Observation>, k: nat)
    requires k < |log|
  {
    log[k].Polled? && !Stalled(log[k].now, log[k].beat) && log[k].beat > LatestSpawn(log[..k])
  }

  ghost predicate Clock(log: seq<Observation>) {
    forall i, j | 0 <= i <= j < |log| :: log[i].now <= log[j].now
  }

  function SampleAt(log: seq<Observation>, k: nat): T.Sample
    requires k < |log|
  {
    if log[k].Ended? then T.On(log[k].now) else if Progress(log, k) then T.Off else T.Idle
  }

  function Samples(log: seq<Observation>): (h: seq<T.Sample>)
    ensures |h| == |log| && forall k | 0 <= k < |log| :: h[k] == SampleAt(log, k)
    decreases |log|
  {
    if log == [] then []
    else
      var n := |log| - 1;
      var h := Samples(log[..n]);
      assert forall k | 0 <= k < n :: log[..n][..k] == log[..k];
      h + [SampleAt(log, n)]
  }

  lemma {:induction false} StartedIsLatestSpawn(log: seq<Observation>)
    ensures After(log).started == LatestSpawn(log)
    decreases |log|
  {
    if log != [] {
      StartedIsLatestSpawn(log[..|log| - 1]);
    }
  }

  lemma {:induction false} FaultStartIsTimer(log: seq<Observation>)
    ensures After(log).faultStart == T.Since(Samples(log))
    decreases |log|
  {
    if log != [] {
      var n := |log| - 1;
      FaultStartIsTimer(log[..n]);
      StartedIsLatestSpawn(log[..n]);
      assert Samples(log)[..n] == Samples(log[..n]);
    }
  }

  lemma {:induction false} SamplesUpTo(log: seq<Observation>, n: nat)
    requires n < |log|
    ensures var h := Samples(log[..n + 1]);
            |h| == n + 1 && forall k | 0 <= k <= n :: h[k] == SampleAt(log, k)
  {
    hide Samples, LatestSpawn, Stalled;
    var upTo := log[..n + 1];
    forall k | 0 <= k <= n ensures SampleAt(upTo, k) == SampleAt(log, k) {
      assert upTo[..k] == log[..k];
    }
  }

  /** A worker ended at observation `i`, and no poll since then has seen progress. */
  ghost predicate FailingSince(log: seq<Observation>, i: nat, n: nat) {
    && i <= n < |log| && log[i].Ended?
    && forall k | i < k < n :: !Progress(log, k)
  }

  /**
    At a worker's end the shutdown is due exactly when some worker ended at least 120 seconds
    earlier and no poll in between saw a heartbeat newer than the start of the worker it watched.
   */
  lemma {:induction false} ShutdownExactly(log: seq<Observation>, n: nat)
    requires n < |log| && log[n].Ended? && Clock(log)
    ensures ShutdownDue(After(log[..n + 1]), log[n].now) <==>
            exists i: nat :: FailingSince(log, i, n) && log[i].now > 0 && log[n].now - log[i].now >= 120
  {
    hide Stalled, After, Samples, LatestSpawn, T.Since;
    var h := Samples(log[..n + 1]);
    FaultStartIsTimer(log[..n + 1]);
    SamplesUpTo(log, n);
    T.Expired(h, 120);
    forall i: nat ensures T.Streak(h, i) <==> FailingSince(log, i, n) {
      if T.Streak(h, i) {
        forall k | i < k < n ensures !Progress(log, k) {
          assert !h[k].Off?;
        }
      }
    }
  }

  // ----- the supervisor with its variables

  class Supervisor {
    var started: nat
    var faultStart: nat
    ghost var log: seq<Observation>

    ghost predicate Valid()
      reads this
    {
      After(log) == State(started, faultStart)
    }

    constructor ()
      ensures Valid() && log == []
    {
      started, faultStart, log := 0, 0, [];
    }

    /** A worker is about to be started. */
    method Spawn(now: nat)
      requires Valid()
      modifies this
      ensures Valid() && log == old(log) + [Spawned(now)]
    {
      started := now;
      log := log + [Spawned(now)];
      assert log[..|log| - 1] == old(log);
    }

    /** One look at the heartbeat; true means that the worker has to be killed. */
    method Poll(now: nat, contents: Option<string>) returns (stalled: bool)
      requires Valid()
      modifies this
      ensures Valid() && log == old(log) + [Polled(now, Heartbeat(contents))]
      ensures stalled == Stalled(now, Heartbeat(contents))
    {
      hide Number;
      var beat := 0;
      if contents.Some? && Numeric(contents.value) {
        beat := Number(contents.value);
      }
      log := log + [Polled(now, beat)];
      assert log[..|log| - 1] == old(log);
      if now - beat > 12 || beat > now {
        return true;
      }
      if beat > started {
        faultStart := 0;
      }
      return false;
    }

    /** The worker has ended; true means that the machine is shut down. */
    method End(now: nat) returns (shutdown: bool)
      requires Valid()
      modifies this
      ensures Valid() && log == old(log) + [Ended(now)]
      ensures shutdown == ShutdownDue(After(log), now)
    {
      if faultStart == 0 {
        faultStart := now;
      }
      log := log + [Ended(now)];
      assert log[..|log| - 1] == old(log);
      shutdown := now - faultStart >= 120;
    }
  }
}
