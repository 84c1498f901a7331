/**
  The toolchain's version check, run by any number of make processes at once. Each process writes
  the current revision to a temporary file, compares it with the stamp, and on a difference
  removes the build directories and moves the temporary file into place, all under one lock.
 */
module StampCheck {
  import opened Results

  /** How far a process has got. `Done` is a successful recipe, `Failed` one that failed or died. */
  datatype Phase = Waiting | Entered | Emptied | Fetched | Removing | Making | Moving | Done | Failed

  /** `temporary` and `stamp` are the two files' contents. */
  datatype State = State(procs: map<nat, Phase>, holder: Option<nat>, temporary: Option<string>, stamp: Option<string>)

  /**
    The commands of process `p`. A command that fails may leave anything in the file it was
    writing, and a removal may or may not have reached the stamp when it ends.
   */
  datatype Event =
    | Start(p: nat)
    | Lock(p: nat, ok: bool)
    | Redirect(p: nat, ok: bool)
    | Fetch(p: nat, ok: bool, left: Option<string>)
    | Compare(p: nat, trouble: bool)
    | RemoveSome(p: nat, gone: bool)
    | RemoveRest(p: nat, gone: bool)
    | MakeDirectory(p: nat)
    | Move(p: nat, ok: bool, left: Option<string>)
    | Die(p: nat)

  predicate In(s: State, p: nat, phase: Phase) {
    p in s.procs && s.procs[p] == phase
  }

  predicate Critical(phase: Phase) {
    phase.Entered? || phase.Emptied? || phase.Fetched? || phase.Removing? || phase.Making? || phase.Moving?
  }

  /** With `serial` the recipe takes the lock first; without, it is the recipe before the change. */
  predicate Enabled(s: State, e: Event, serial: bool) {
    match e
    case Start(p) => p !in s.procs
    case Lock(p, ok) => In(s, p, Waiting) && (serial && ok ==> s.holder == None)
    case Redirect(p, _) => In(s, p, Entered)
    case Fetch(p, _, _) => In(s, p, Emptied)
    case Compare(p, _) => In(s, p, Fetched)
    case RemoveSome(p, _) => In(s, p, Removing)
    case RemoveRest(p, _) => In(s, p, Removing)
    case MakeDirectory(p) => In(s, p, Making)
    case Move(p, _, _) => In(s, p, Moving)
    case Die(p) => p in s.procs && !s.procs[p].Done? && !s.procs[p].Failed?
  }

  function Goes(s: State, p: nat, phase: Phase): State {
    s.(procs := s.procs[p := phase])
  }

  /** When a process ends, its descriptor of the lock file is closed. */
  function Ends(s: State, p: nat, phase: Phase): State {
    Goes(s, p, phase).(holder := if s.holder == Some(p) then None else s.holder)
  }

  predicate Alike(s: State) {
    s.stamp.Some? && s.stamp == s.temporary
  }

  function Without(stamp: Option<string>, gone: bool): Option<string> {
    if gone then None else stamp
  }

  function Next(s: State, e: Event, serial: bool, revision: string): State {
    if !Enabled(s, e, serial) then s
    else
      match e
      case Start(p) => Goes(s, p, Waiting)
      case Lock(p, ok) =>
        if ok then Goes(s, p, Entered).(holder := if serial then Some(p) else s.holder) else Ends(s, p, Failed)
      case Redirect(p, ok) => if ok then Goes(s, p, Emptied).(temporary := Some("")) else Ends(s, p, Failed)
      case Fetch(p, ok, left) =>
        if ok then Goes(s, p, Fetched).(temporary := Some(revision)) else Ends(s, p, Failed).(temporary := left)
      case Compare(p, trouble) => if Alike(s) && !trouble then Ends(s, p, Done) else Goes(s, p, Removing)
      case RemoveSome(p, gone) => s.(stamp := Without(s.stamp, gone))
      case RemoveRest(p, gone) => Goes(s, p, Making).(stamp := Without(s.stamp, gone))
      case MakeDirectory(p) => Goes(s, p, Moving)
      case Move(p, ok, left) =>
        if ok then Ends(s, p, Done).(stamp := s.temporary, temporary := None) else Ends(s, p, Failed).(stamp := left)
      case Die(p) => Ends(s, p, Failed)
  }

  /** Any contents may be there at the beginning. */
  function Run(start: State, es: seq<Event>, serial: bool, revision: string): State
    decreases |es|
  {
    if es == [] then start
    else Next(Run(start, es[..|es| - 1], serial, revision), es[|es| - 1], serial, revision)
  }

  predicate Fresh(s: State) {
    s.procs == map[] && s.holder == None
  }

  // ----- what is asked about a run

  predicate Succeeds(s: State, e: Event, serial: bool) {
    Enabled(s, e, serial) && ((e.Compare? && Alike(s) && !e.trouble) || (e.Move? && e.ok))
  }

  predicate Removes(s: State, e: Event, serial: bool) {
    Enabled(s, e, serial) && (e.RemoveSome? || e.RemoveRest?)
  }

  /** The comparison reports trouble although the two files are the same. */
  predicate Misreports(s: State, e: Event, serial: bool) {
    Enabled(s, e, serial) && e.Compare? && e.trouble && Alike(s)
  }

  predicate Succeeded(start: State, es: seq<Event>, revision: string)
    decreases |es|
  {
    es != [] && (Succeeded(start, es[..|es| - 1], revision)
                 || Succeeds(Run(start, es[..|es| - 1], true, revision), es[|es| - 1], true))
  }

  /** Some process has succeeded, and no comparison has misreported equal files since the latest success. */
  predicate Protected(start: State, es: seq<Event>, revision: string)
    decreases |es|
  {
    es != [] &&
    var s, e := Run(start, es[..|es| - 1], true, revision), es[|es| - 1];
    Succeeds(s, e, true) || (Protected(start, es[..|es| - 1], revision) && !Misreports(s, e, true))
  }

  // ----- the lock

  /** Only the holder is inside, and what it has fetched is still there. */
  predicate Exclusive(s: State, revision: string) {
    && (forall p | p in s.procs && Critical(s.procs[p]) :: s.holder == Some(p))
    && (forall p | p in s.procs && Holding(s.procs[p]) :: s.temporary == Some(revision))
  }

  predicate Holding(phase: Phase) {
    phase.Fetched? || phase.Removing? || phase.Making? || phase.Moving?
  }

  lemma {:induction false} NextKeepsExclusive(s: State, e: Event, revision: string)
    requires Exclusive(s, revision)
    ensures Exclusive(Next(s, e, true, revision), revision)
  {
    hide Alike, Without;
  }

  lemma {:induction false} AlwaysExclusive(start: State, es: seq<Event>, revision: string)
    requires Fresh(start)
    ensures Exclusive(Run(start, es, true, revision), revision)
    decreases |es|
  {
    hide Next, Exclusive;
    if es == [] {
      assert Exclusive(start, revision) by { NobodyInside(start, revision); }
    } else {
      var front := es[..|es| - 1];
      AlwaysExclusive(start, front, revision);
      NextKeepsExclusive(Run(start, front, true, revision), es[|es| - 1], revision);
    }
  }

  lemma {:induction false} NobodyInside(start: State, revision: string)
    requires Fresh(start)
    ensures Exclusive(start, revision)
  {
  }

  // ----- whoever ends lets the next one in

  /** The lock is held only by a process that is inside, and what that one writes to begins empty. */
  predicate HeldInside(s: State) {
    s.holder.Some? ==>
      var p := s.holder.value;
      && p in s.procs && Critical(s.procs[p])
      && (s.procs[p].Emptied? ==> s.temporary == Some(""))
  }

  lemma {:induction false} NextKeepsInside(s: State, e: Event, revision: string)
    requires HeldInside(s) && Exclusive(s, revision)
    ensures HeldInside(Next(s, e, true, revision))
  {
    hide Alike, Without;
  }

  lemma {:induction false} AlwaysHeldInside(start: State, es: seq<Event>, revision: string)
    requires Fresh(start)
    ensures HeldInside(Run(start, es, true, revision))
    decreases |es|
  {
    hide Next, Exclusive;
    if es != [] {
      var front := es[..|es| - 1];
      AlwaysHeldInside(start, front, revision);
      AlwaysExclusive(start, front, revision);
      NextKeepsInside(Run(start, front, true, revision), es[|es| - 1], revision);
    }
  }

  /**
    In every run a waiting process can take the lock exactly if nobody is inside: however a process
    ends, by success, failure or death, it lets the next one in.
   */
  lemma {:induction false} EntersExactly(start: State, es: seq<Event>, revision: string, p: nat)
    requires Fresh(start)
    ensures var s := Run(start, es, true, revision);
            Enabled(s, Lock(p, true), true) <==>
            In(s, p, Waiting) && forall q | q in s.procs :: !Critical(s.procs[q])
  {
    hide Run;
    AlwaysExclusive(start, es, revision);
    AlwaysHeldInside(start, es, revision);
  }

  /** In every run at most one process is between taking the lock and its end. */
  lemma {:induction false} OneInside(start: State, es: seq<Event>, revision: string, p: nat, q: nat)
    requires Fresh(start)
    requires var s := Run(start, es, true, revision);
             p in s.procs && q in s.procs && Critical(s.procs[p]) && Critical(s.procs[q])
    ensures p == q
  {
    hide Run;
    AlwaysExclusive(start, es, revision);
  }

  /** Every success leaves the stamp equal to the revision, whatever has failed before; moving leaves nothing behind. */
  lemma {:induction false} SuccessLeavesRevision(start: State, es: seq<Event>, e: Event, revision: string)
    requires Fresh(start) && Succeeds(Run(start, es, true, revision), e, true)
    ensures Next(Run(start, es, true, revision), e, true, revision).stamp == Some(revision)
    ensures e.Move? ==> Next(Run(start, es, true, revision), e, true, revision).temporary == None
  {
    hide Run;
    AlwaysExclusive(start, es, revision);
  }

  // ----- no removal after a success

  predicate Renewing(phase: Phase) {
    phase.Removing? || phase.Making? || phase.Moving?
  }

  /** The stamp is right and nobody is about to replace it. */
  predicate Settled(s: State, revision: string) {
    s.stamp == Some(revision) && forall p | p in s.procs :: !Renewing(s.procs[p])
  }

  lemma {:induction false} SuccessSettles(s: State, e: Event, revision: string)
    requires Exclusive(s, revision) && Succeeds(s, e, true)
    ensures Settled(Next(s, e, true, revision), revision)
  {
  }

  /** From there one step leads away exactly when it is a misreport. */
  lemma {:induction false} StaysSettled(s: State, e: Event, revision: string)
    requires Exclusive(s, revision) && Settled(s, revision)
    ensures Settled(Next(s, e, true, revision), revision) <==> !Misreports(s, e, true)
  {
    if Misreports(s, e, true) {
      assert Next(s, e, true, revision).procs[e.p] == Removing;
    }
  }

  lemma {:induction false} ProtectedIsSettled(start: State, es: seq<Event>, revision: string)
    requires Fresh(start) && Protected(start, es, revision)
    ensures Settled(Run(start, es, true, revision), revision)
    decreases |es|
  {
    hide Next, Exclusive, Settled, Succeeds, Misreports;
    var front, e := es[..|es| - 1], es[|es| - 1];
    var s := Run(start, front, true, revision);
    AlwaysExclusive(start, front, revision);
    if Succeeds(s, e, true) {
      SuccessSettles(s, e, revision);
    } else {
      ProtectedIsSettled(start, front, revision);
      StaysSettled(s, e, revision);
    }
  }

  /**
    For any number of processes and any interleaving, with commands failing and processes dying
    anywhere: after a success nothing is removed and the stamp stays right for as long as no
    comparison misreports equal files; and the first step that ends this is such a misreport.
   */
  lemma {:induction false} NoRemovalAfterSuccess(start: State, es: seq<Event>, e: Event, revision: string)
    requires Fresh(start) && Protected(start, es, revision)
    ensures var s := Run(start, es, true, revision);
            && !Removes(s, e, true) && s.stamp == Some(revision)
            && (Settled(Next(s, e, true, revision), revision) <==> !Misreports(s, e, true))
  {
    hide Run, Protected;
    ProtectedIsSettled(start, es, revision);
    AlwaysExclusive(start, es, revision);
    StaysSettled(Run(start, es, true, revision), e, revision);
  }

  /** So whoever removes after a success does so because of a misreport since the latest success. */
  lemma {:induction false} RemovalNeedsMisreport(start: State, es: seq<Event>, e: Event, revision: string)
    returns (k: nat)
    requires Fresh(start) && Succeeded(start, es, revision) && Removes(Run(start, es, true, revision), e, true)
    ensures k < |es| && Succeeded(start, es[..k], revision)
    ensures Misreports(Run(start, es[..k], true, revision), es[k], true)
    decreases |es|
  {
    hide Run, Next, Removes, Misreports, Succeeds;
    if Protected(start, es, revision) {
      NoRemovalAfterSuccess(start, es, e, revision);
    }
    k := LatestMisreport(start, es, revision);
  }

  lemma {:induction false} LatestMisreport(start: State, es: seq<Event>, revision: string) returns (k: nat)
    requires Succeeded(start, es, revision) && !Protected(start, es, revision)
    ensures k < |es| && Succeeded(start, es[..k], revision)
    ensures Misreports(Run(start, es[..k], true, revision), es[k], true)
    decreases |es|
  {
    hide Run, Misreports, Succeeds;
    var n := |es| - 1;
    if Misreports(Run(start, es[..n], true, revision), es[n], true) {
      k := n;
    } else {
      k := LatestMisreport(start, es[..n], revision);
      assert es[..n][..k] == es[..k];
    }
  }

  /**
    A comparison that misreports equal files goes on to remove the right stamp and the
    directories, at whatever point of a run it comes.
   */
  lemma {:induction false} MisreportRemoves(start: State, es: seq<Event>, e: Event, revision: string)
    requires Fresh(start) && Misreports(Run(start, es, true, revision), e, true)
    ensures var s := Run(start, es, true, revision);
            var t := Next(s, e, true, revision);
            var removal := RemoveRest(e.p, true);
            && s.stamp == Some(revision) && Removes(t, removal, true) && Next(t, removal, true, revision).stamp == None
  {
    hide Run;
    AlwaysExclusive(start, es, revision);
  }

  /** A run in which that happens: the first process finds the stamp right, the second one's comparison fails. */
  lemma {:induction false} MisreportAfterSuccess(revision: string)
    ensures var start := State(map[], None, None, Some(revision));
            var es := [Start(0), Lock(0, true), Redirect(0, true), Fetch(0, true, None), Compare(0, false),
                       Start(1), Lock(1, true), Redirect(1, true), Fetch(1, true, None)];
            Fresh(start) && Succeeded(start, es, revision)
            && Misreports(Run(start, es, true, revision), Compare(1, true), true)
  {
    hide Run, Succeeded;
    var start := State(map[], None, None, Some(revision));
    var a := [Start(0), Lock(0, true), Redirect(0, true), Fetch(0, true, None)];
    var b := a + [Compare(0, false)];
    var c := b + [Start(1)] + [Lock(1, true)] + [Redirect(1, true)] + [Fetch(1, true, None)];
    assert a == [] + [Start(0)] + [Lock(0, true)] + [Redirect(0, true)] + [Fetch(0, true, None)];
    assert c == [Start(0), Lock(0, true), Redirect(0, true), Fetch(0, true, None), Compare(0, false),
                 Start(1), Lock(1, true), Redirect(1, true), Fetch(1, true, None)];
    NotStarted(start, true, revision);
    ReachesComparison(start, [], 0, revision);
    Then(start, a, Compare(0, false), true, revision);
    ReachesComparison(start, b, 1, revision);
  }

  lemma {:induction false} NotStarted(start: State, serial: bool, revision: string)
    ensures Run(start, [], serial, revision) == start
  {
  }

  lemma {:induction false} Then(start: State, es: seq<Event>, e: Event, serial: bool, revision: string)
    ensures Run(start, es + [e], serial, revision) == Next(Run(start, es, serial, revision), e, serial, revision)
    ensures serial && (Succeeded(start, es, revision) || Succeeds(Run(start, es, true, revision), e, true)) ==>
              Succeeded(start, es + [e], revision)
  {
    hide Next, Succeeds;
    assert (es + [e])[..|es|] == es;
  }

  /** A new process on its own gets as far as the comparison. */
  lemma {:induction false} ReachesComparison(start: State, es: seq<Event>, p: nat, revision: string)
    requires var s := Run(start, es, true, revision); p !in s.procs && s.holder == None
    ensures var s := Run(start, es, true, revision);
            var more := es + [Start(p)] + [Lock(p, true)] + [Redirect(p, true)] + [Fetch(p, true, None)];
            && Run(start, more, true, revision) == State(s.procs[p := Fetched], Some(p), Some(revision), s.stamp)
            && (Succeeded(start, es, revision) ==> Succeeded(start, more, revision))
  {
    hide Run, Succeeded;
    Then(start, es, Start(p), true, revision);
    Then(start, es + [Start(p)], Lock(p, true), true, revision);
    Then(start, es + [Start(p)] + [Lock(p, true)], Redirect(p, true), true, revision);
    Then(start, es + [Start(p)] + [Lock(p, true)] + [Redirect(p, true)], Fetch(p, true, None), true, revision);
  }

  // ----- without the lock

  function Fetches(p: nat): seq<Event> {
    [Start(p), Lock(p, true), Redirect(p, true), Fetch(p, true, None), Compare(p, false)]
  }

  lemma {:induction false} Appended(start: State, es: seq<Event>, more: seq<Event>, serial: bool, revision: string)
    ensures Run(start, es + more, serial, revision) == Run(Run(start, es, serial, revision), more, serial, revision)
    decreases |more|
  {
    hide Next;
    if more == [] {
      assert es + more == es;
    } else {
      var n := |more| - 1;
      assert (es + more)[..|es + more| - 1] == es + more[..n];
      Appended(start, es, more[..n], serial, revision);
    }
  }

  /**
    Without the lock the property fails with nothing failing at all: two processes find the stamp
    missing, one renews it and succeeds, and then the other removes everything.
   */
  lemma {:induction false} UnserialisedRemoves(revision: string)
    ensures var start := State(map[], None, None, None);
            var es := Fetches(0) + Fetches(1) + [RemoveRest(1, true), MakeDirectory(1)];
            var s := Run(start, es, false, revision);
            var t := Next(s, Move(1, true, None), false, revision);
            && Fresh(start) && Succeeds(s, Move(1, true, None), false) && t.stamp == Some(revision)
            && Removes(t, RemoveRest(0, true), false)
  {
    hide Run;
    var start := State(map[], None, None, None);
    BothFetch(revision);
    var es := Fetches(0) + Fetches(1);
    Then(start, es, RemoveRest(1, true), false, revision);
    Then(start, es + [RemoveRest(1, true)], MakeDirectory(1), false, revision);
    assert es + [RemoveRest(1, true)] + [MakeDirectory(1)] == es + [RemoveRest(1, true), MakeDirectory(1)];
  }

  lemma {:induction false} BothFetch(revision: string)
    ensures Run(State(map[], None, None, None), Fetches(0) + Fetches(1), false, revision)
         == State(map[0 := Removing, 1 := Removing], None, Some(revision), None)
  {
    hide Run, Next, Fetches;
    var start := State(map[], None, None, None);
    UnlockedFetches(start, 0, revision);
    var s := Run(start, Fetches(0), false, revision);
    UnlockedFetches(s, 1, revision);
    Appended(start, Fetches(0), Fetches(1), false, revision);
  }

  lemma {:induction false} UnlockedFetches(s: State, p: nat, revision: string)
    requires p !in s.procs && s.stamp == None
    ensures Run(s, Fetches(p), false, revision) == s.(procs := s.procs[p := Removing], temporary := Some(revision))
  {
    hide Run;
    var e := [Start(p), Lock(p, true), Redirect(p, true), Fetch(p, true, None), Compare(p, false)];
    NotStarted(s, false, revision);
    Then(s, [], e[0], false, revision);
    Then(s, [] + [e[0]], e[1], false, revision);
    Then(s, [] + [e[0]] + [e[1]], e[2], false, revision);
    Then(s, [] + [e[0]] + [e[1]] + [e[2]], e[3], false, revision);
    Then(s, [] + [e[0]] + [e[1]] + [e[2]] + [e[3]], e[4], false, revision);
    assert [] + [e[0]] + [e[1]] + [e[2]] + [e[3]] + [e[4]] == Fetches(p);
  }
}
