/** Restoring a source tree as a whole, and what an accepted archive is guaranteed to become. */
module SourceExtract {
  import opened Results
  import opened SourceNames
  import opened SourceTree
  import opened SourceLinks
  import Paths

  predicate LinkPasses(names: Names, d: Disk, p: Path, loops: set<Path>) {
    p in names && names[p].Symlink? ==> Verdict(d, p, loops) == None
  }

  /** The third pass: every link is resolved. */
  method ResolvePass(keys: seq<Path>, names: Names, d: Disk, loops: set<Path>) returns (r: Option<Error>)
    requires forall p :: p in names <==> p in keys
    ensures r == None <==> forall p | p in names :: LinkPasses(names, d, p, loops)
    ensures r.Some? ==> exists p | p in names :: names[p].Symlink? && Verdict(d, p, loops) == r
  {
    hide Verdict;
    for i := 0 to |keys|
      invariant forall j | 0 <= j < i :: LinkPasses(names, d, keys[j], loops)
    {
      var name := keys[i];
      assert name in names;
      if names[name].Symlink? {
        r := Verdict(d, name, loops);
        if r.Some? {
          assert !LinkPasses(names, d, name, loops);
          return r;
        }
      }
    }
    return None;
  }

  /**
    `tree` is what the output directory holds afterwards, if it was created at all. Nothing is
    written unless all checks on the members pass; then the tree is exactly the one they
    describe, and the call succeeds if and only if every link resolves inside it.
   */
  method ExtractTree(outside: Tree, root: Path, members: seq<Member>, loops: set<Path>)
    returns (tree: Option<Tree>, failure: Option<Error>)
    ensures !Acceptable(members) ==> tree == None && failure == Some(Refused)
    ensures Acceptable(members) && !Ready(NamesOf(members)) ==> tree == Some(map[[] := Dir]) && failure == Some(Exists)
    ensures Acceptable(members) && Ready(NamesOf(members)) ==>
              && tree.Some? && IsTreeOf(NamesOf(members), tree.value)
              && var d := Disk(outside, root, tree.value);
                 && (failure == None <==> forall p | p in NamesOf(members) :: LinkPasses(NamesOf(members), d, p, loops))
                 && (failure.Some? ==> exists p | p in NamesOf(members) ::
                       NamesOf(members)[p].Symlink? && Verdict(d, p, loops) == failure)
  {
    hide NamesOf, AllRooted, IsTreeOf, LinkPasses, Allowed, TotalSize, Verdict, Ready, Partial;
    var size := Total(members);
    if size > LIMIT || |members| > MOST {
      return None, Some(Refused);
    }
    var ok, keys, names := CheckMembers(members);
    if !ok {
      return None, Some(Refused);
    }
    NamesAreKeys(members);
    ok := CheckAncestors(keys, names);
    if !ok {
      return None, Some(Refused);
    }
    NothingSpecial(members);
    var t: Tree;
    ok, t := FilePass(keys, names);
    if !ok {
      return Some(t), Some(Exists);
    }
    ok, t := LinkPass(keys, names, t);
    if !ok {
      return Some(t), Some(Exists);
    }
    failure := ResolvePass(keys, names, Disk(outside, root, t), loops);
    return Some(t), failure;
  }

  lemma {:induction false} NothingSpecial(members: seq<Member>)
    requires (forall m | m in members :: Allowed(m)) && Distinct(members)
    ensures forall p | p in NamesOf(members) :: !NamesOf(members)[p].Special?
    ensures !Ready(NamesOf(members)) && AllRooted(NamesOf(members)) ==> [] in NamesOf(members)
    decreases |members|
  {
    hide PathOf, Rooted, LinkOk, SafeName;
    if members != [] {
      var n := |members| - 1;
      assert members[n] in members && forall m | m in members[..n] :: m in members;
      NothingSpecial(members[..n]);
    }
  }

  // ----- which archives are accepted

  /** The member's name is its path written out; a link leads to a safe path by a clean relative target. */
  ghost predicate Proper(m: Member, p: Path) {
    && Safe(p) && (exists n :: m.name == (if p == [] then "." else Paths.Join(p, '/')) + Slashes(n))
    && !m.kind.Special?
    && (m.kind.Symlink? ==>
          var target := m.kind.target;
          target != "" && target[0] != '/' && '\\' !in target && Safe(Lexical(p, target)))
  }

  /** Every member has a path of its own, and whatever member lies above it is a directory. */
  ghost predicate Arranged(members: seq<Member>, paths: seq<Path>) {
    && |paths| == |members| && (forall i | 0 <= i < |members| :: Proper(members[i], paths[i]))
    && (forall i, j | 0 <= i < j < |paths| :: paths[i] != paths[j])
    && (forall i, j | 0 <= i < |paths| && 0 <= j < |paths| && StrictlyAbove(paths[i], paths[j]) ::
          members[i].kind.Directory?)
  }

  lemma {:induction false} AllowedIsProper(m: Member, p: Path)
    ensures Allowed(m) && PathOf(m) == p <==> Proper(m, p)
  {
    hide SafeName, LinkOk, Safe, Lexical, Paths.Join;
    NameExactly(m.name, p);
    if Safe(p) && m.kind.Symlink? {
      LinkOkExactly(p, m.kind.target);
    }
    if Allowed(m) {
      NameExactly(m.name, PathOf(m));
    }
  }

  /** Whatever member lies above another is a directory. */
  predicate FoldersAbove(members: seq<Member>) {
    forall m, x | m in members && x in members && StrictlyAbove(PathOf(x), PathOf(m)) :: x.kind.Directory?
  }

  lemma {:induction false} RootedHasFolders(members: seq<Member>)
    requires Distinct(members) && AllRooted(NamesOf(members))
    ensures FoldersAbove(members)
  {
    hide PathOf, Distinct, NamesOf;
    var names := NamesOf(members);
    forall m, x | m in members && x in members && StrictlyAbove(PathOf(x), PathOf(m)) ensures x.kind.Directory? {
      NamesHold(members, m);
      NamesHold(members, x);
      assert Rooted(names, PathOf(m)) && PathOf(m)[..|PathOf(x)|] == PathOf(x);
      assert DirectoryIfNamed(names, PathOf(m)[..|PathOf(x)|]);
    }
  }

  lemma {:induction false} FoldersRoot(members: seq<Member>)
    requires Distinct(members) && FoldersAbove(members)
    ensures AllRooted(NamesOf(members))
  {
    hide PathOf, Distinct, NamesOf;
    var names := NamesOf(members);
    NamesAreKeys(members);
    forall p, k | p in names && 0 <= k < |p| ensures DirectoryIfNamed(names, p[..k]) {
      if p[..k] in names {
        var m :| m in members && PathOf(m) == p;
        var x :| x in members && PathOf(x) == p[..k];
        assert StrictlyAbove(PathOf(x), PathOf(m));
        NamesHold(members, x);
      }
    }
  }

  /**
    An archive is accepted exactly if it has at most 100000 members of at most 2 GiB together, and
    their names and links are those of an arrangement of distinct safe paths below directories.
   */
  lemma {:induction false} AcceptableExactly(members: seq<Member>)
    ensures Acceptable(members) <==>
            && |members| <= 100000 && TotalSize(members) <= 2 * 1024 * 1024 * 1024
            && exists paths :: Arranged(members, paths)
  {
    hide TotalSize, PathOf, Allowed, AllRooted, NamesOf, Proper;
    var keys := Keys(members);
    forall i, p: Path | 0 <= i < |members|
      ensures Allowed(members[i]) && PathOf(members[i]) == p <==> Proper(members[i], p)
    {
      AllowedIsProper(members[i], p);
    }
    if Acceptable(members) {
      RootedHasFolders(members);
      forall i | 0 <= i < |members| ensures Proper(members[i], keys[i]) {
        assert members[i] in members;
      }
      assert Arranged(members, keys);
    }
    if exists paths :: Arranged(members, paths) {
      var paths :| Arranged(members, paths);
      PathsAreKeys(members, paths);
    }
  }

  lemma {:induction false} PathsAreKeys(members: seq<Member>, paths: seq<Path>)
    requires Arranged(members, paths)
    ensures (forall m | m in members :: Allowed(m)) && Distinct(members) && AllRooted(NamesOf(members))
  {
    hide PathOf, Allowed, AllRooted, NamesOf, Proper;
    forall i | 0 <= i < |members| ensures Allowed(members[i]) && PathOf(members[i]) == paths[i] {
      AllowedIsProper(members[i], paths[i]);
    }
    assert Distinct(members);
    forall m, x | m in members && x in members && StrictlyAbove(PathOf(x), PathOf(m)) ensures x.kind.Directory? {
      var i :| 0 <= i < |members| && members[i] == x;
      var j :| 0 <= j < |members| && members[j] == m;
      assert StrictlyAbove(paths[i], paths[j]);
    }
    FoldersRoot(members);
  }

  // ----- each member's own content

  lemma {:induction false} NamesHold(members: seq<Member>, m: Member)
    requires Distinct(members) && m in members
    ensures PathOf(m) in NamesOf(members) && NamesOf(members)[PathOf(m)] == m.kind
    decreases |members|
  {
    hide PathOf;
    var n := |members| - 1;
    assert members == members[..n] + [members[n]];
    if m in members[..n] {
      NamesHold(members[..n], m);
      var i :| 0 <= i < n && members[i] == m;
      assert PathOf(members[i]) != PathOf(members[n]);
    }
  }

  /**
    A file with its own bytes and time, executable exactly if anyone may execute it, a link with its
    own target, or a directory.
   */
  predicate Shows(node: Node, k: Kind) {
    match k
    case File(content, mode, mtime) =>
      && node.Regular? && node.content == content && node.mtime == mtime
      && (node.executable <==> mode % 2 == 1 || mode / 8 % 2 == 1 || mode / 64 % 2 == 1)
    case Directory => node == Dir
    case Symlink(target) => node == Link(target)
    case Special => false
  }

  lemma {:induction false} NodeShows(m: Member)
    requires Allowed(m)
    ensures Shows(NodeOf(m.kind), m.kind)
  {
    hide PathOf, SafeName, LinkOk;
  }

  /** Every member's path ends up holding exactly its own type and content; all else are directories. */
  lemma {:induction false} MembersAreFound(members: seq<Member>, tree: Tree, m: Member)
    requires Acceptable(members) && Ready(NamesOf(members)) && IsTreeOf(NamesOf(members), tree) && m in members
    ensures PathOf(m) in tree && Shows(tree[PathOf(m)], m.kind)
    ensures forall p | p in tree && !tree[p].Dir? ::
              exists x | x in members :: PathOf(x) == p && Shows(tree[p], x.kind)
  {
    hide PathOf, Allowed, AllRooted, Shows, NodeOf;
    NamesHold(members, m);
    NamesAreKeys(members);
    NodeShows(m);
    assert AtOrAbove(PathOf(m), PathOf(m));
    assert Holds(NamesOf(members), PathOf(m));
    forall p | p in tree && !tree[p].Dir?
      ensures exists x | x in members :: PathOf(x) == p && Shows(tree[p], x.kind)
    {
      assert p in NamesOf(members);
      var x :| x in members && PathOf(x) == p;
      NamesHold(members, x);
      NodeShows(x);
    }
  }

  // ----- the order of the members does not matter

  lemma {:induction false} TotalWithout(members: seq<Member>, j: nat)
    requires j < |members|
    ensures TotalSize(members) == TotalSize(members[..j] + members[j + 1..]) + members[j].size
    decreases |members|
  {
    var n := |members| - 1;
    if j == n {
      assert members[..j] + members[j + 1..] == members[..n];
    } else {
      TotalWithout(members[..n], j);
      WithoutSnoc(members, j);
    }
  }

  lemma {:induction false} WithoutSnoc(members: seq<Member>, j: nat)
    requires j < |members| - 1
    ensures var n, rest := |members| - 1, members[..j] + members[j + 1..];
            && rest != [] && rest[..|rest| - 1] == members[..n][..j] + members[..n][j + 1..]
            && rest[|rest| - 1] == members[n]
  {
  }

  lemma {:induction false} BagWithout(b: seq<Member>, j: nat)
    requires j < |b|
    ensures multiset(b) == multiset(b[..j] + b[j + 1..]) + multiset{b[j]}
  {
    assert b == b[..j] + ([b[j]] + b[j + 1..]);
  }

  lemma {:induction false} Cancel(x: multiset<Member>, y: multiset<Member>, m: Member)
    requires x + multiset{m} == y + multiset{m}
    ensures x == y
  {
    assert x == x + multiset{m} - multiset{m} && y == y + multiset{m} - multiset{m};
  }

  lemma {:induction false} SameTotal(a: seq<Member>, b: seq<Member>)
    requires multiset(a) == multiset(b)
    ensures TotalSize(a) == TotalSize(b)
    decreases |a|
  {
    assert |a| == |multiset(a)| && |b| == |multiset(b)|;
    if a != [] {
      var n := |a| - 1;
      assert a[n] in multiset(b);
      var j :| 0 <= j < |b| && b[j] == a[n];
      BagWithout(b, j);
      BagWithout(a, n);
      assert a[..n] + a[n + 1..] == a[..n];
      Cancel(multiset(a[..n]), multiset(b[..j] + b[j + 1..]), a[n]);
      SameTotal(a[..n], b[..j] + b[j + 1..]);
      TotalWithout(b, j);
    }
  }

  /** No member occurs twice, and no two members have the same path. */
  ghost predicate BagDistinct(bag: multiset<Member>) {
    && (forall m | m in bag :: bag[m] == 1)
    && (forall m, x | m in bag && x in bag && m != x :: PathOf(m) != PathOf(x))
  }

  lemma {:induction false} DistinctBag(members: seq<Member>)
    ensures Distinct(members) <==> BagDistinct(multiset(members))
    decreases |members|
  {
    hide PathOf, Distinct, BagDistinct;
    if members == [] {
      assert Distinct(members) && BagDistinct(multiset(members)) by { EmptyBag(); }
    } else {
      var n := |members| - 1;
      DistinctBag(members[..n]);
      DistinctSnoc(members);
      BagWithout(members, n);
      assert members[..n] + members[n + 1..] == members[..n];
      BagSnoc(multiset(members[..n]), members[n]);
      assert forall m :: m in members[..n] <==> m in multiset(members[..n]);
    }
  }

  lemma {:induction false} EmptyBag()
    ensures Distinct([]) && BagDistinct(multiset([]))
  {
  }

  lemma {:induction false} BagSnoc(bag: multiset<Member>, last: Member)
    ensures BagDistinct(bag + multiset{last}) <==> BagDistinct(bag) && forall m | m in bag :: PathOf(m) != PathOf(last)
  {
    hide PathOf;
    var all := bag + multiset{last};
    if BagDistinct(all) {
      assert all[last] == 1;
      forall m | m in bag ensures bag[m] == 1 && PathOf(m) != PathOf(last) {
        assert m in all && all[m] == 1;
      }
    }
    if BagDistinct(bag) && forall m | m in bag :: PathOf(m) != PathOf(last) {
      assert last !in bag;
      forall m | m in all ensures all[m] == 1 {
        assert m == last || m in bag;
      }
    }
  }

  lemma {:induction false} DistinctSnoc(members: seq<Member>)
    requires members != []
    ensures var n := |members| - 1;
            Distinct(members) <==>
            Distinct(members[..n]) && forall m | m in members[..n] :: PathOf(m) != PathOf(members[n])
  {
    hide PathOf;
    var n := |members| - 1;
    if Distinct(members) {
      forall m | m in members[..n] ensures PathOf(m) != PathOf(members[n]) {
        var i :| 0 <= i < n && members[i] == m;
        assert PathOf(members[i]) != PathOf(members[n]);
      }
      forall i, j | 0 <= i < j < n ensures PathOf(members[..n][i]) != PathOf(members[..n][j]) {
        assert PathOf(members[i]) != PathOf(members[j]);
      }
    }
    if Distinct(members[..n]) && forall m | m in members[..n] :: PathOf(m) != PathOf(members[n]) {
      forall i, j | 0 <= i < j < |members| ensures PathOf(members[i]) != PathOf(members[j]) {
        assert members[i] in members[..n];
        if j < n {
          assert PathOf(members[..n][i]) != PathOf(members[..n][j]);
        }
      }
    }
  }

  lemma {:induction false} SameNames(a: seq<Member>, b: seq<Member>)
    requires Distinct(a) && Distinct(b) && forall m :: m in a <==> m in b
    ensures NamesOf(a) == NamesOf(b)
  {
    hide PathOf, Distinct;
    NamesAreKeys(a);
    NamesAreKeys(b);
    forall p | p in NamesOf(a) ensures NamesOf(a)[p] == NamesOf(b)[p] {
      var m :| m in a && PathOf(m) == p;
      NamesHold(a, m);
      NamesHold(b, m);
    }
  }

  /** Any order of the same members is accepted or refused alike, and gives the same tree. */
  lemma {:induction false} OrderIrrelevant(a: seq<Member>, b: seq<Member>)
    requires multiset(a) == multiset(b)
    ensures Acceptable(a) <==> Acceptable(b)
    ensures Acceptable(a) ==> NamesOf(a) == NamesOf(b)
    ensures forall t, u | Acceptable(a) && IsTreeOf(NamesOf(a), t) && IsTreeOf(NamesOf(b), u) :: t == u
  {
    hide PathOf, Allowed, AllRooted, Distinct, TotalSize, NamesOf, IsTreeOf;
    assert |a| == |multiset(a)| && |b| == |multiset(b)|;
    assert forall m :: m in a <==> m in multiset(a);
    assert forall m :: m in b <==> m in multiset(b);
    SameTotal(a, b);
    DistinctBag(a);
    DistinctBag(b);
    if Distinct(a) {
      SameNames(a, b);
      forall t, u | IsTreeOf(NamesOf(a), t) && IsTreeOf(NamesOf(b), u) ensures t == u {
        TreeIsUnique(NamesOf(a), t, u);
      }
    }
  }

  // ----- accepted links

  /** An absolute link target, or one that climbs, never gets as far as the tree. */
  lemma {:induction false} LinksAreLexical(members: seq<Member>, p: Path)
    requires Acceptable(members) && p in NamesOf(members) && NamesOf(members)[p].Symlink?
    ensures Safe(p) && LinkOk(p, NamesOf(members)[p].target)
  {
    hide LinkOk, AllRooted, SafeName;
    NamesAreKeys(members);
    var m :| m in members && PathOf(m) == p;
    NamesHold(members, m);
    SafeNameExactly(m.name, p);
  }

  /** Every link of the tree has a relative target without a backslash, which leads to a safe path below the root. */
  lemma {:induction false} RestoredTargetsAreSafe(members: seq<Member>, tree: Tree, p: Path)
    requires Acceptable(members) && IsTreeOf(NamesOf(members), tree) && p in tree && tree[p].Link?
    ensures var target := tree[p].target;
            && target != "" && target[0] != '/' && '\\' !in target
            && forall c | c in Lexical(p, target) :: c != ".." && c != ".git"
  {
    hide LinkOk, NamesOf, Acceptable, Lexical;
    LinksAreLexical(members, p);
    LinkOkExactly(p, tree[p].target);
    NoSpecials(Lexical(p, tree[p].target));
  }

  /**
    After a successful call, following any link of the tree the way the operating system does,
    through any number of further links, ends inside the root if it ends anywhere.
   */
  lemma {:induction false} RestoredLinksStayInside(d: Disk, members: seq<Member>, loops: set<Path>, p: Path, fuel: nat)
    requires Acceptable(members) && IsTreeOf(NamesOf(members), d.inside)
    requires forall q | q in NamesOf(members) :: LinkPasses(NamesOf(members), d, q, loops)
    requires p in d.inside && d.inside[p].Link? && Walk(d, [], d.root + p, fuel).Some?
    ensures d.root <= Walk(d, [], d.root + p, fuel).value
  {
    hide Walk, Verdict, Acceptable, NamesOf;
    assert p in NamesOf(members) && LinkPasses(NamesOf(members), d, p, loops);
    VerdictIsRight(d, p, loops, fuel);
  }

  /** If the system reports every loop, then after a successful call every link really resolves, and inside the root. */
  lemma {:induction false} RestoredLinksResolve(d: Disk, members: seq<Member>, loops: set<Path>, p: Path)
    requires forall q | q in NamesOf(members) :: LinkPasses(NamesOf(members), d, q, loops)
    requires forall q | q in NamesOf(members) && Resolve(d, [], d.root + q, {}).Looping? :: q in loops
    requires p in NamesOf(members) && NamesOf(members)[p].Symlink?
    ensures Resolve(d, [], d.root + p, {}).Resolved? && d.root <= Resolve(d, [], d.root + p, {}).path
  {
    hide Resolve, NamesOf, FromTop, Walk;
    assert LinkPasses(NamesOf(members), d, p, loops);
    if Resolve(d, [], d.root + p, {}).Looping? {
      LoopingExactly(d, p, loops);
    }
  }

  /** And a link whose walk meets no other link leads exactly where the lexical test put it. */
  lemma {:induction false} RestoredLinkIsLexical(d: Disk, members: seq<Member>, p: Path, target: string)
    requires Acceptable(members) && Ready(NamesOf(members)) && IsTreeOf(NamesOf(members), d.inside)
    requires Grounded(d) && Safe(d.root) && p in d.inside && d.inside[p] == Link(target)
    requires NoLinkMet(d, Folder(p), Paths.Split(target, '/'))
    ensures Resolve(d, [], d.root + p, {}) == Resolved(d.root + Lexical(p, target))
  {
    hide Verdict, NamesOf, NoLinkMet, LinkOk, Resolve, Rooted, Acceptable, LinkFree;
    var names := NamesOf(members);
    assert p in names && names[p] == Symlink(target) && p != [];
    assert AllRooted(names);
    LinksAreLexical(members, p);
    assert (d.root + p)[|d.root|..] == p;
    FolderIsLinkFree(d, names, p, |p| - 1);
    LexicalIsReal(d, p, target, {});
  }
}
