/**
  Where symbolic links really lead: `Path.resolve` as the program calls it, and the walk of
  section 4.13 of POSIX.1-2017 as the operating system does it.
 */
module SourceLinks {
  import opened Results
  import opened Paths
  import opened SourceNames
  import opened SourceTree

  /** A file system with the finished tree in it. `root` is the absolute path of the output directory. */
  datatype Disk = Disk(outside: Tree, root: Path, inside: Tree)

  /** What is at an absolute path. "/" is a directory. */
  function At(d: Disk, p: Path): Option<Node> {
    if p == [] then Some(Dir)
    else if d.root <= p then
      var q := p[|d.root|..];
      if q in d.inside then Some(d.inside[q]) else None
    else if p in d.outside then Some(d.outside[p]) else None
  }

  predicate IsLink(d: Disk, p: Path) {
    At(d, p).Some? && At(d, p).value.Link?
  }

  /** The output directory and everything above it are directories, and it is not "/". */
  predicate Grounded(d: Disk) {
    && d.root != []
    && [] in d.inside && d.inside[[]].Dir?
    && forall k | 0 <= k < |d.root| :: At(d, d.root[..k]) == Some(Dir)
  }

  function Links(d: Disk): set<Path> {
    (set p | p in d.outside && d.outside[p].Link?) + (set q | q in d.inside && d.inside[q].Link? :: d.root + q)
  }

  lemma {:induction false} LinkListed(d: Disk, p: Path)
    requires IsLink(d, p)
    ensures p in Links(d)
  {
    if d.root <= p {
      assert p == d.root + p[|d.root|..];
    }
  }

  /** Where a target is walked from. */
  function Origin(at: Path, target: string): Path {
    if target != "" && target[0] == '/' then [] else at
  }

  function TargetAt(d: Disk, p: Path): string
    requires IsLink(d, p)
  {
    At(d, p).value.target
  }

  function Parent(p: Path): Path {
    if p == [] then [] else p[..|p| - 1]
  }

  // ----- the program's resolution

  /** `Looping` gives the path at which a link turned up that was already being resolved. */
  datatype Resolution = Resolved(path: Path) | Looping(path: Path)

  /**
    `rest` walked from `at`, while the links in `active` are being resolved. What does not exist
    and what is not a directory is passed through like a directory.
   */
  function Resolve(d: Disk, at: Path, rest: seq<string>, active: set<Path>): Resolution
    decreases Links(d) - active, |rest|
  {
    if rest == [] then Resolved(at)
    else if rest[0] == "" || rest[0] == "." then Resolve(d, at, rest[1..], active)
    else if rest[0] == ".." then Resolve(d, Parent(at), rest[1..], active)
    else
      var here := at + [rest[0]];
      if !IsLink(d, here) then Resolve(d, here, rest[1..], active)
      else if here in active then Looping(here + rest[1..])
      else
        LinkListed(d, here);
        var t := TargetAt(d, here);
        match Resolve(d, Origin(at, t), Split(t, '/'), active + {here})
        case Looping(p) => Looping(p + rest[1..])
        case Resolved(p) => Resolve(d, p, rest[1..], active)
  }

  /** What the test on one link makes of it. `loops` are the links for which the system reports a loop. */
  function Verdict(d: Disk, p: Path, loops: set<Path>): Option<Error> {
    match Resolve(d, [], d.root + p, {})
    case Resolved(x) => if d.root <= x then None else Some(Escapes)
    case Looping(x) =>
      if p in loops then Some(Unresolvable) else if d.root <= FromTop(x) then None else Some(Escapes)
  }

  /** `abspath`: an absolute path without dots, in which ".." does nothing at the top. */
  function FromTop(parts: seq<string>): Path {
    if parts == [] then []
    else
      var p, c := FromTop(parts[..|parts| - 1]), parts[|parts| - 1];
      if c == "" || c == "." then p else if c == ".." then Parent(p) else p + [c]
  }

  /** Without any links that is where everything resolves to. */
  lemma {:induction false} FromTopIsReal(d: Disk, parts: seq<string>, active: set<Path>)
    requires forall p :: !IsLink(d, p)
    ensures Resolve(d, [], parts, active) == Resolved(FromTop(parts))
    decreases |parts|
  {
    hide IsLink, Links;
    if parts != [] {
      var n := |parts| - 1;
      FromTopIsReal(d, parts[..n], active);
      ResolveInTurn(d, [], parts[..n], [parts[n]], active);
      assert parts == parts[..n] + [parts[n]] && [parts[n]][1..] == [];
    }
  }

  lemma {:induction false} ResolveInTurn(d: Disk, at: Path, a: seq<string>, b: seq<string>, active: set<Path>)
    requires forall p :: !IsLink(d, p)
    ensures Resolve(d, at, a, active).Resolved?
    ensures Resolve(d, at, a + b, active) == Resolve(d, Resolve(d, at, a, active).path, b, active)
    decreases |a|
  {
    hide IsLink, Links;
    if a == [] {
      assert a + b == b;
    } else {
      assert (a + b)[1..] == a[1..] + b;
      if a[0] == "" || a[0] == "." {
        ResolveInTurn(d, at, a[1..], b, active);
      } else if a[0] == ".." {
        ResolveInTurn(d, Parent(at), a[1..], b, active);
      } else {
        ResolveInTurn(d, at + [a[0]], a[1..], b, active);
      }
    }
  }

  // ----- the operating system's walk

  /**
    `rest` walked from `at` with at most `fuel` nested links: every component is looked up in a
    directory and has to exist.
   */
  function Walk(d: Disk, at: Path, rest: seq<string>, fuel: nat): Option<Path>
    decreases fuel, |rest|
  {
    if rest == [] then Some(at)
    else if At(d, at) != Some(Dir) then None
    else if rest[0] == "" || rest[0] == "." then Walk(d, at, rest[1..], fuel)
    else if rest[0] == ".." then Walk(d, Parent(at), rest[1..], fuel)
    else
      var here := at + [rest[0]];
      if At(d, here).None? then None
      else if !IsLink(d, here) then Walk(d, here, rest[1..], fuel)
      else if fuel == 0 then None
      else
        var t := TargetAt(d, here);
        match Walk(d, Origin(at, t), Split(t, '/'), fuel - 1)
        case None => None
        case Some(p) => Walk(d, p, rest[1..], fuel)
  }

  /** The walk of the link at `p` itself. */
  function Expand(d: Disk, p: Path, fuel: nat): Option<Path>
    requires IsLink(d, p)
  {
    var t := TargetAt(d, p);
    Walk(d, Origin(Parent(p), t), Split(t, '/'), fuel)
  }

  lemma {:induction false} WalkGrows(d: Disk, at: Path, rest: seq<string>, fuel: nat, more: nat)
    requires Walk(d, at, rest, fuel).Some? && fuel <= more
    ensures Walk(d, at, rest, more) == Walk(d, at, rest, fuel)
    decreases fuel, |rest|
  {
    hide IsLink;
    if rest != [] {
      if rest[0] == "" || rest[0] == "." {
        WalkGrows(d, at, rest[1..], fuel, more);
      } else if rest[0] == ".." {
        WalkGrows(d, Parent(at), rest[1..], fuel, more);
      } else {
        var here := at + [rest[0]];
        if IsLink(d, here) {
          var t := TargetAt(d, here);
          WalkGrows(d, Origin(at, t), Split(t, '/'), fuel - 1, more - 1);
          WalkGrows(d, Walk(d, Origin(at, t), Split(t, '/'), fuel - 1).value, rest[1..], fuel, more);
        } else {
          WalkGrows(d, here, rest[1..], fuel, more);
        }
      }
    }
  }

  /** No link that is being resolved can be walked with less than `fuel`. */
  ghost predicate Pending(d: Disk, active: set<Path>, fuel: nat) {
    forall p | p in active && IsLink(d, p) :: Costly(d, p, fuel)
  }

  predicate Costly(d: Disk, p: Path, fuel: nat)
    requires IsLink(d, p)
  {
    fuel > 0 ==> Expand(d, p, fuel - 1).None?
  }

  /** The least fuel with which a link can be walked. */
  lemma {:induction false} LeastFuel(d: Disk, p: Path, fuel: nat) returns (k: nat)
    requires IsLink(d, p) && Expand(d, p, fuel).Some?
    ensures k <= fuel && Expand(d, p, k) == Expand(d, p, fuel) && Costly(d, p, k)
    decreases fuel
  {
    if fuel > 0 && Expand(d, p, fuel - 1).Some? {
      var t := TargetAt(d, p);
      WalkGrows(d, Origin(Parent(p), t), Split(t, '/'), fuel - 1, fuel);
      k := LeastFuel(d, p, fuel - 1);
    } else {
      k := fuel;
    }
  }

  lemma {:induction false} StillCostly(d: Disk, p: Path, fuel: nat, less: nat)
    requires IsLink(d, p) && Costly(d, p, fuel) && less <= fuel
    ensures Costly(d, p, less)
  {
    if less > 0 && Expand(d, p, less - 1).Some? {
      var t := TargetAt(d, p);
      WalkGrows(d, Origin(Parent(p), t), Split(t, '/'), less - 1, fuel - 1);
    }
  }

  lemma {:induction false} StillPending(d: Disk, active: set<Path>, p: Path, fuel: nat, less: nat)
    requires Pending(d, active, fuel) && less <= fuel && IsLink(d, p) && Costly(d, p, less)
    ensures Pending(d, active + {p}, less)
  {
    hide Costly, IsLink;
    forall q | q in active + {p} && IsLink(d, q) ensures Costly(d, q, less) {
      if q in active {
        StillCostly(d, q, fuel, less);
      }
    }
  }

  /** Whatever the system can walk, the program resolves, and to the same place. */
  lemma {:induction false} WalkIsResolved(d: Disk, at: Path, rest: seq<string>, active: set<Path>, fuel: nat)
    requires Walk(d, at, rest, fuel).Some? && Pending(d, active, fuel)
    ensures Resolve(d, at, rest, active) == Resolved(Walk(d, at, rest, fuel).value)
    decreases fuel, |rest|
  {
    hide IsLink, Pending, At, Links;
    if rest != [] {
      if rest[0] == "" || rest[0] == "." {
        WalkIsResolved(d, at, rest[1..], active, fuel);
      } else if rest[0] == ".." {
        WalkIsResolved(d, Parent(at), rest[1..], active, fuel);
      } else {
        var here := at + [rest[0]];
        if IsLink(d, here) {
          assert Parent(here) == at;
          LinkIsResolved(d, here, active, fuel);
          WalkIsResolved(d, Expand(d, here, fuel - 1).value, rest[1..], active, fuel);
        } else {
          WalkIsResolved(d, here, rest[1..], active, fuel);
        }
      }
    }
  }

  lemma {:induction false} LinkIsResolved(d: Disk, here: Path, active: set<Path>, fuel: nat)
    requires fuel > 0 && IsLink(d, here) && Expand(d, here, fuel - 1).Some? && Pending(d, active, fuel)
    ensures here !in active
    ensures var t := TargetAt(d, here);
            Resolve(d, Origin(Parent(here), t), Split(t, '/'), active + {here})
            == Resolved(Expand(d, here, fuel - 1).value)
    decreases fuel, 0
  {
    hide IsLink, At, Links, Resolve, Walk;
    assert here !in active by {
      assert !Costly(d, here, fuel);
    }
    var k := LeastFuel(d, here, fuel - 1);
    StillPending(d, active, here, fuel, k);
    var t := TargetAt(d, here);
    WalkIsResolved(d, Origin(Parent(here), t), Split(t, '/'), active + {here}, k);
  }

  /**
    The final test is right about every link that the system can follow, however many links the
    walk meets: it passes exactly those that end inside the root.
   */
  lemma {:induction false} VerdictIsRight(d: Disk, p: Path, loops: set<Path>, fuel: nat)
    requires Walk(d, [], d.root + p, fuel).Some?
    ensures Verdict(d, p, loops) == None <==> d.root <= Walk(d, [], d.root + p, fuel).value
  {
    hide Walk, Resolve, IsLink, At, Links, FromTop;
    assert Pending(d, {}, fuel);
    WalkIsResolved(d, [], d.root + p, {}, fuel);
  }

  /**
    A link that runs into a loop cannot be followed by the system either. It is refused as such if
    the system says so, and otherwise judged by where it would lead on paper.
   */
  lemma {:induction false} LoopingExactly(d: Disk, p: Path, loops: set<Path>)
    requires Resolve(d, [], d.root + p, {}).Looping?
    ensures forall fuel: nat :: Walk(d, [], d.root + p, fuel) == None
    ensures p in loops ==> Verdict(d, p, loops) == Some(Unresolvable)
    ensures p !in loops ==>
              (Verdict(d, p, loops) == None <==> d.root <= FromTop(Resolve(d, [], d.root + p, {}).path))
  {
    hide Walk, Resolve, IsLink, At, Links, FromTop;
    assert Pending(d, {}, 0);
    forall fuel: nat ensures Walk(d, [], d.root + p, fuel) == None {
      if Walk(d, [], d.root + p, fuel).Some? {
        assert Pending(d, {}, fuel);
        WalkIsResolved(d, [], d.root + p, {}, fuel);
        assert false;
      }
    }
  }

  // ----- the lexical test and the real walk

  /** Walking `rest` from `root + stack` on components alone meets no link. */
  predicate NoLinkMet(d: Disk, stack: Path, rest: seq<string>)
    decreases |rest|
  {
    rest == [] ||
    (!IsLink(d, d.root + Apply(stack, rest[0])) && NoLinkMet(d, Apply(stack, rest[0]), rest[1..]))
  }

  lemma {:induction false} WalkIsLexical(d: Disk, stack: Path, rest: seq<string>, active: set<Path>)
    requires ".." !in stack && !Above(Normalised(stack, rest)) && NoLinkMet(d, stack, rest)
    ensures Resolve(d, d.root + stack, rest, active) == Resolved(d.root + Normalised(stack, rest))
    decreases |rest|
  {
    hide IsLink, At, Links;
    if rest != [] {
      var next := Apply(stack, rest[0]);
      if Above(next) {
        AboveStays(next, rest[1..]);
      }
      if rest[0] == ".." {
        assert stack != [] && next == stack[..|stack| - 1];
        assert stack == next + [stack[|stack| - 1]];
        assert Parent(d.root + stack) == d.root + next;
      } else if rest[0] != "" && rest[0] != "." {
        assert d.root + stack + [rest[0]] == d.root + next;
      }
      WalkIsLexical(d, next, rest[1..], active);
    }
  }

  /** Neither the path nor anything above it is a link. */
  predicate LinkFree(d: Disk, p: Path)
    decreases |p|
  {
    p == [] || (!IsLink(d, p) && LinkFree(d, p[..|p| - 1]))
  }

  /** A path of ordinary components that meets no link is walked as it stands. */
  lemma {:induction false} PlainWalk(d: Disk, p: Path, tail: seq<string>, active: set<Path>)
    requires Safe(p) && LinkFree(d, p)
    ensures Resolve(d, [], p + tail, active) == Resolve(d, p, tail, active)
    decreases |p|
  {
    hide IsLink, Links;
    if p == [] {
      assert p + tail == tail;
    } else {
      var q, c := p[..|p| - 1], p[|p| - 1];
      assert c in p && Component(c) && p == q + [c];
      assert forall x | x in q :: x in p;
      PlainWalk(d, q, [c] + tail, active);
      assert q + ([c] + tail) == p + tail;
      assert ([c] + tail)[1..] == tail;
    }
  }

  lemma {:induction false} NotAbove(p: Path, target: string)
    requires LinkOk(p, target)
    ensures !Above(Lexical(p, target)) && target != "" && target[0] != '/'
  {
  }

  lemma {:induction false} SafeBelow(root: Path, p: Path)
    requires Safe(root) && Safe(p)
    ensures Safe(root + p)
  {
  }

  lemma {:induction false} LastStep(d: Disk, f: Path, c: string, target: string)
    requires At(d, f + [c]) == Some(Link(target)) && Component(c) && target != "" && target[0] != '/'
    requires Resolve(d, f, Split(target, '/'), {f + [c]}).Resolved?
    ensures Resolve(d, f, [c], {}) == Resolve(d, f, Split(target, '/'), {f + [c]})
  {
    hide At, Links;
    assert [c][1..] == [];
    assert {} + {f + [c]} == {f + [c]};
  }

  /**
    If the walk of a link that passed the lexical test meets no other link, then it really leads
    where the test said, and that is inside the root.
   */
  lemma {:induction false} LexicalIsReal(d: Disk, p: Path, target: string, loops: set<Path>)
    requires Safe(d.root) && Safe(p) && p != [] && LinkOk(p, target)
    requires At(d, d.root + p) == Some(Link(target)) && LinkFree(d, d.root + Folder(p))
    requires NoLinkMet(d, Folder(p), Split(target, '/'))
    ensures Resolve(d, [], d.root + p, {}) == Resolved(d.root + Lexical(p, target))
    ensures Verdict(d, p, loops) == None
  {
    hide NoLinkMet, At, Links, Resolve, LinkOk, FromTop, LinkFree, Normalised, Safe, Above;
    var f, c := d.root + Folder(p), p[|p| - 1];
    FolderIsSafe(p);
    SafeBelow(d.root, Folder(p));
    assert f + [c] == d.root + p by { assert p == Folder(p) + [c]; }
    assert Component(c) by { SafeLast(p); }
    NotAbove(p, target);
    PlainWalk(d, f, [c], {});
    WalkIsLexical(d, Folder(p), Split(target, '/'), {f + [c]});
    LastStep(d, f, c, target);
  }

  lemma {:induction false} SafeLast(p: Path)
    requires Safe(p) && p != []
    ensures Component(p[|p| - 1])
  {
  }

  /** In a finished tree the folder of every member is reached without a link. */
  lemma {:induction false} FolderIsLinkFree(d: Disk, names: Names, p: Path, k: nat)
    requires Grounded(d) && AllRooted(names) && IsTreeOf(names, d.inside) && p in names && k < |p|
    ensures LinkFree(d, d.root + p[..k])
    decreases k
  {
    hide Rooted;
    var q := p[..k];
    if k == 0 {
      assert d.root + q == d.root && d.root[|d.root|..] == [];
      RootIsLinkFree(d, |d.root| - 1);
      assert d.root[..|d.root| - 1] == d.root[..|d.root|][..|d.root| - 1];
    } else {
      FolderIsLinkFree(d, names, p, k - 1);
      assert (d.root + q)[..|d.root + q| - 1] == d.root + p[..k - 1];
      assert (d.root + q)[|d.root|..] == q;
      assert Rooted(names, p);
      MemberFolder(names, p, k);
    }
  }

  lemma {:induction false} MemberFolder(names: Names, p: Path, k: nat)
    requires p in names && Rooted(names, p) && k < |p|
    ensures Want(names, p[..k]) == Dir
  {
    assert DirectoryIfNamed(names, p[..k]);
  }

  lemma {:induction false} RootIsLinkFree(d: Disk, k: nat)
    requires Grounded(d) && k < |d.root|
    ensures LinkFree(d, d.root[..k])
    decreases k
  {
    hide IsLink;
    if k > 0 {
      RootIsLinkFree(d, k - 1);
      assert d.root[..k][..k - 1] == d.root[..k - 1];
      assert !IsLink(d, d.root[..k]) by { DirIsNoLink(d, d.root[..k]); }
    }
  }

  lemma {:induction false} DirIsNoLink(d: Disk, p: Path)
    requires At(d, p) == Some(Dir)
    ensures !IsLink(d, p)
  {
  }
}
