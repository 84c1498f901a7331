/**
  The library's cache of links already resolved: one dictionary is passed through a whole call of
  `realpath`, and it changes nothing about the result.
 */
module SourceCache {
  import opened Results
  import opened Paths
  import opened SourceNames
  import opened SourceTree
  import opened SourceLinks

  /** The links resolved so far with the paths they lead to, in the order in which they were finished. */
  type Cache = seq<(Path, Path)>

  predicate Knows(seen: Cache, p: Path) {
    exists i: nat | i < |seen| :: seen[i].0 == p
  }

  /** The index of the entry for `p`. */
  function Entry(seen: Cache, p: Path): (i: nat)
    requires Knows(seen, p)
    ensures i < |seen| && seen[i].0 == p
  {
    if seen[|seen| - 1].0 == p then |seen| - 1 else Entry(seen[..|seen| - 1], p)
  }

  /**
    `rest` walked from `at` with a cache. A link in it is not followed again; a link in `active` is
    being resolved and has no entry yet. The result comes with the cache as it is afterwards.
   */
  function ResolveCached(d: Disk, at: Path, rest: seq<string>, active: set<Path>, seen: Cache): (Resolution, Cache)
    decreases Links(d) - active, |rest|
  {
    if rest == [] then (Resolved(at), seen)
    else if rest[0] == "" || rest[0] == "." then ResolveCached(d, at, rest[1..], active, seen)
    else if rest[0] == ".." then ResolveCached(d, Parent(at), rest[1..], active, seen)
    else
      var here := at + [rest[0]];
      if !IsLink(d, here) then ResolveCached(d, here, rest[1..], active, seen)
      else if Knows(seen, here) then ResolveCached(d, seen[Entry(seen, here)].1, rest[1..], active, seen)
      else if here in active then (Looping(here + rest[1..]), seen)
      else
        LinkListed(d, here);
        var t := TargetAt(d, here);
        var (r, more) := ResolveCached(d, Origin(at, t), Split(t, '/'), active + {here}, seen);
        match r
        case Looping(p) => (Looping(p + rest[1..]), more)
        case Resolved(p) => ResolveCached(d, p, rest[1..], active, more + [(here, p)])
  }

  // ----- what a cache can be trusted for

  /** `rest` walked from `at` through links of the cache only, each answered by its entry. */
  function Replay(d: Disk, at: Path, rest: seq<string>, seen: Cache): Option<Path>
    decreases |rest|
  {
    if rest == [] then Some(at)
    else if rest[0] == "" || rest[0] == "." then Replay(d, at, rest[1..], seen)
    else if rest[0] == ".." then Replay(d, Parent(at), rest[1..], seen)
    else
      var here := at + [rest[0]];
      if !IsLink(d, here) then Replay(d, here, rest[1..], seen)
      else if Knows(seen, here) then Replay(d, seen[Entry(seen, here)].1, rest[1..], seen)
      else None
  }

  /** Entry `i` is a link with no earlier entry, and follows from the entries before it. */
  predicate Justified(d: Disk, seen: Cache, i: nat)
    requires i < |seen|
  {
    var (p, x) := seen[i];
    && p != [] && IsLink(d, p) && !Knows(seen[..i], p)
    && Replay(d, Origin(Parent(p), TargetAt(d, p)), Split(TargetAt(d, p), '/'), seen[..i]) == Some(x)
  }

  predicate Coherent(d: Disk, seen: Cache) {
    forall i: nat | i < |seen| :: Justified(d, seen, i)
  }

  /** No link that is being resolved has an entry. */
  predicate Apart(active: set<Path>, seen: Cache) {
    forall p | p in active :: !Knows(seen, p)
  }

  lemma {:induction false} FirstEntries(d: Disk, seen: Cache, i: nat)
    requires Coherent(d, seen) && i <= |seen|
    ensures Coherent(d, seen[..i])
  {
    hide Replay, Knows, IsLink;
    forall j: nat | j < i ensures Justified(d, seen[..i], j) {
      assert Justified(d, seen, j) && seen[..i][..j] == seen[..j];
    }
  }

  /** Earlier entries are found in a longer cache, and found the same. */
  lemma {:induction false} KnownEarlier(d: Disk, seen: Cache, more: Cache, p: Path)
    requires Coherent(d, seen + more) && Knows(seen, p)
    ensures Knows(seen + more, p) && (seen + more)[Entry(seen + more, p)] == seen[Entry(seen, p)]
  {
    hide Replay, IsLink, Knows;
    var all := seen + more;
    var i := Entry(seen, p);
    assert all[i] == seen[i];
    assert Knows(all, p) by { Holds(all, i); }
    OneEntry(d, all, i, Entry(all, p));
  }

  lemma {:induction false} Holds(seen: Cache, i: nat)
    requires i < |seen|
    ensures Knows(seen, seen[i].0)
  {
  }

  lemma {:induction false} HeldEarlier(seen: Cache, i: nat, j: nat)
    requires i < |seen| && j <= |seen|
    ensures i < j ==> Knows(seen[..j], seen[i].0)
  {
    if i < j {
      assert seen[..j][i] == seen[i];
    }
  }

  lemma {:induction false} OneEntry(d: Disk, seen: Cache, i: nat, j: nat)
    requires Coherent(d, seen) && i < |seen| && j < |seen| && seen[i].0 == seen[j].0
    ensures i == j
  {
    hide Replay, IsLink;
    assert Justified(d, seen, i) && Justified(d, seen, j);
    HeldEarlier(seen, i, j);
    HeldEarlier(seen, j, i);
  }

  lemma {:induction false} ReplayLater(d: Disk, at: Path, rest: seq<string>, seen: Cache, more: Cache)
    requires Coherent(d, seen + more) && Replay(d, at, rest, seen).Some?
    ensures Replay(d, at, rest, seen + more) == Replay(d, at, rest, seen)
    decreases |rest|
  {
    hide Knows, IsLink, Coherent;
    if rest != [] {
      if rest[0] == "" || rest[0] == "." {
        ReplayLater(d, at, rest[1..], seen, more);
      } else if rest[0] == ".." {
        ReplayLater(d, Parent(at), rest[1..], seen, more);
      } else {
        var here := at + [rest[0]];
        if IsLink(d, here) {
          KnownEarlier(d, seen, more, here);
          ReplayLater(d, seen[Entry(seen, here)].1, rest[1..], seen, more);
        } else {
          ReplayLater(d, here, rest[1..], seen, more);
        }
      }
    }
  }

  /** What follows from a cache is what following all links gives, whichever links are being resolved. */
  lemma {:induction false} ReplayIsResolve(d: Disk, at: Path, rest: seq<string>, active: set<Path>, seen: Cache)
    requires Coherent(d, seen) && Apart(active, seen) && Replay(d, at, rest, seen).Some?
    ensures Resolve(d, at, rest, active) == Resolved(Replay(d, at, rest, seen).value)
    decreases |seen|, |rest|
  {
    hide Knows, IsLink, Coherent, Apart, Links;
    if rest != [] {
      if rest[0] == "" || rest[0] == "." {
        ReplayIsResolve(d, at, rest[1..], active, seen);
      } else if rest[0] == ".." {
        ReplayIsResolve(d, Parent(at), rest[1..], active, seen);
      } else {
        var here := at + [rest[0]];
        if IsLink(d, here) {
          assert Parent(here) == at;
          EntryIsResolve(d, here, active, seen);
          ReplayIsResolve(d, seen[Entry(seen, here)].1, rest[1..], active, seen);
        } else {
          ReplayIsResolve(d, here, rest[1..], active, seen);
        }
      }
    }
  }

  lemma {:induction false} EntryIsResolve(d: Disk, here: Path, active: set<Path>, seen: Cache)
    requires Coherent(d, seen) && Apart(active, seen) && Knows(seen, here) && IsLink(d, here) && here != []
    ensures here !in active
    ensures var t := TargetAt(d, here);
            Resolve(d, Origin(Parent(here), t), Split(t, '/'), active + {here}) == Resolved(seen[Entry(seen, here)].1)
    decreases |seen|, 0
  {
    hide IsLink, Links, Resolve, Replay;
    var i := Entry(seen, here);
    assert Justified(d, seen, i);
    FirstEntries(d, seen, i);
    StaysApart(active, seen, i, here);
    var t := TargetAt(d, here);
    ReplayIsResolve(d, Origin(Parent(here), t), Split(t, '/'), active + {here}, seen[..i]);
  }

  lemma {:induction false} StaysApart(active: set<Path>, seen: Cache, i: nat, here: Path)
    requires Apart(active, seen) && i <= |seen| && !Knows(seen[..i], here)
    ensures Apart(active + {here}, seen[..i])
  {
    hide Knows;
    forall p | p in active ensures !Knows(seen[..i], p) {
      KnownInFront(seen, i, p);
    }
  }

  lemma {:induction false} KnownInFront(seen: Cache, i: nat, p: Path)
    requires i <= |seen|
    ensures Knows(seen[..i], p) ==> Knows(seen, p)
  {
    if Knows(seen[..i], p) {
      var j: nat :| j < i && seen[..i][j].0 == p;
      assert seen[j].0 == p;
    }
  }

  // ----- the cache as it grows

  /** A trustworthy cache that has grown out of `seen`. */
  predicate Grown(d: Disk, active: set<Path>, seen: Cache, more: Cache) {
    seen <= more && Coherent(d, more) && Apart(active, more)
  }

  lemma {:induction false} KnownInLonger(seen: Cache, e: (Path, Path), p: Path)
    ensures Knows(seen + [e], p) ==> Knows(seen, p) || p == e.0
  {
    if Knows(seen + [e], p) {
      var i: nat :| i < |seen + [e]| && (seen + [e])[i].0 == p;
      assert i < |seen| ==> seen[i].0 == p;
    }
  }

  lemma {:induction false} Adding(d: Disk, active: set<Path>, more: Cache, here: Path, x: Path)
    requires Coherent(d, more) && Apart(active + {here}, more) && here !in active && here != [] && IsLink(d, here)
    requires var t := TargetAt(d, here); Replay(d, Origin(Parent(here), t), Split(t, '/'), more) == Some(x)
    ensures var longer := more + [(here, x)];
            Grown(d, active, more, longer) && Knows(longer, here) && longer[Entry(longer, here)].1 == x
  {
    hide Replay, IsLink, Knows;
    var longer := more + [(here, x)];
    forall i: nat | i < |longer| ensures Justified(d, longer, i) {
      if i < |more| {
        assert Justified(d, more, i) && longer[..i] == more[..i];
      } else {
        assert longer[..i] == more && here in active + {here};
      }
    }
    forall p | p in active ensures !Knows(longer, p) {
      assert p in active + {here} && !Knows(more, p);
      KnownInLonger(more, (here, x), p);
    }
    Holds(longer, |more|);
    OneEntry(d, longer, |more|, Entry(longer, here));
  }

  /** With any trustworthy cache the result is the same as without one, and the cache stays trustworthy. */
  lemma {:induction false} CachedIsResolve(d: Disk, at: Path, rest: seq<string>, active: set<Path>, seen: Cache)
    requires Coherent(d, seen) && Apart(active, seen)
    ensures var (r, more) := ResolveCached(d, at, rest, active, seen);
            && r == Resolve(d, at, rest, active) && Grown(d, active, seen, more)
            && (r.Resolved? ==> Replay(d, at, rest, more) == Some(r.path))
    decreases Links(d) - active, |rest|
  {
    hide Knows, IsLink, Coherent, Apart, Links;
    if rest != [] {
      if rest[0] == "" || rest[0] == "." {
        CachedIsResolve(d, at, rest[1..], active, seen);
      } else if rest[0] == ".." {
        CachedIsResolve(d, Parent(at), rest[1..], active, seen);
      } else {
        var here := at + [rest[0]];
        if !IsLink(d, here) {
          CachedIsResolve(d, here, rest[1..], active, seen);
        } else if Knows(seen, here) {
          CachedHit(d, at, rest, active, seen);
        } else if here !in active {
          CachedMiss(d, at, rest, active, seen);
        }
      }
    }
  }

  /** The first component of `rest` is a name, and there is a link of that name in `at`. */
  predicate AtLink(d: Disk, at: Path, rest: seq<string>) {
    rest != [] && rest[0] != "" && rest[0] != "." && rest[0] != ".." && IsLink(d, at + [rest[0]])
  }

  lemma {:induction false} CachedHit(d: Disk, at: Path, rest: seq<string>, active: set<Path>, seen: Cache)
    requires Coherent(d, seen) && Apart(active, seen) && AtLink(d, at, rest) && Knows(seen, at + [rest[0]])
    ensures var (r, more) := ResolveCached(d, at, rest, active, seen);
            && r == Resolve(d, at, rest, active) && Grown(d, active, seen, more)
            && (r.Resolved? ==> Replay(d, at, rest, more) == Some(r.path))
    decreases Links(d) - active, |rest|, 0
  {
    hide Knows, IsLink, Coherent, Apart, Links;
    var here := at + [rest[0]];
    assert Parent(here) == at;
    var x := seen[Entry(seen, here)].1;
    EntryIsResolve(d, here, active, seen);
    CachedIsResolve(d, x, rest[1..], active, seen);
    var more := ResolveCached(d, x, rest[1..], active, seen).1;
    assert more == seen + more[|seen|..];
    KnownEarlier(d, seen, more[|seen|..], here);
  }

  lemma {:induction false} CachedMiss(d: Disk, at: Path, rest: seq<string>, active: set<Path>, seen: Cache)
    requires Coherent(d, seen) && Apart(active, seen) && AtLink(d, at, rest)
    requires !Knows(seen, at + [rest[0]]) && at + [rest[0]] !in active
    ensures var (r, more) := ResolveCached(d, at, rest, active, seen);
            && r == Resolve(d, at, rest, active) && Grown(d, active, seen, more)
            && (r.Resolved? ==> Replay(d, at, rest, more) == Some(r.path))
    decreases Links(d) - active, |rest|, 0
  {
    hide Knows, IsLink, Coherent, Apart, Links;
    var here := at + [rest[0]];
    assert Parent(here) == at;
    LinkListed(d, here);
    var t := TargetAt(d, here);
    assert seen[..|seen|] == seen;
    StaysApart(active, seen, |seen|, here);
    CachedIsResolve(d, Origin(at, t), Split(t, '/'), active + {here}, seen);
    var (r, grown) := ResolveCached(d, Origin(at, t), Split(t, '/'), active + {here}, seen);
    LessApart(active, here, grown);
    if r.Resolved? {
      Adding(d, active, grown, here, r.path);
      var longer := grown + [(here, r.path)];
      CachedIsResolve(d, r.path, rest[1..], active, longer);
      var more := ResolveCached(d, r.path, rest[1..], active, longer).1;
      assert more == longer + more[|longer|..];
      KnownEarlier(d, longer, more[|longer|..], here);
    }
  }

  lemma {:induction false} LessApart(active: set<Path>, here: Path, seen: Cache)
    requires Apart(active + {here}, seen)
    ensures Apart(active, seen)
  {
    hide Knows;
    assert forall p | p in active :: p in active + {here};
  }

  /** A call of the library starts with an empty cache; its result is that of following every link anew. */
  lemma {:induction false} CacheChangesNothing(d: Disk, p: Path)
    ensures ResolveCached(d, [], p, {}, []).0 == Resolve(d, [], p, {})
  {
    hide Resolve, ResolveCached, Replay;
    CachedIsResolve(d, [], p, {}, []);
  }
}
