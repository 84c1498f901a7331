/** Checking the members of a source archive and building the tree they describe. */
module SourceTree {
  import opened Results
  import opened SourceNames

  const LIMIT: nat := 0x8000_0000
  const MOST: nat := 100000

  /** A tar member's type and what comes with it. `Special` is a device, a pipe, a hard link and so on. */
  datatype Kind = File(content: Bytes, mode: nat, mtime: int) | Directory | Symlink(target: string) | Special

  datatype Member = Member(name: string, size: nat, kind: Kind)

  /** What the output directory holds at a path. */
  datatype Node = Dir | Regular(content: Bytes, executable: bool, mtime: int) | Link(target: string)

  type Names = map<Path, Kind>
  type Tree = map<Path, Node>

  /** `Refused` is raised before anything is written; `Exists` comes from the operating system. */
  datatype Error = Refused | Exists | Unresolvable | Escapes

  // ----- the checks

  function PathOf(m: Member): Path {
    match SafeName(m.name)
    case None => []
    case Some(p) => p
  }

  predicate Allowed(m: Member) {
    && SafeName(m.name).Some? && !m.kind.Special?
    && (m.kind.Symlink? ==> LinkOk(PathOf(m), m.kind.target))
  }

  function TotalSize(members: seq<Member>): nat {
    if members == [] then 0 else TotalSize(members[..|members| - 1]) + members[|members| - 1].size
  }

  function NamesOf(members: seq<Member>): Names {
    if members == [] then map[]
    else NamesOf(members[..|members| - 1])[PathOf(members[|members| - 1]) := members[|members| - 1].kind]
  }

  predicate Distinct(members: seq<Member>) {
    forall i, j | 0 <= i < j < |members| :: PathOf(members[i]) != PathOf(members[j])
  }

  predicate DirectoryIfNamed(names: Names, p: Path) {
    p in names ==> names[p].Directory?
  }

  /** Whatever lies above a member is not a member itself, or is a directory. */
  predicate Rooted(names: Names, p: Path) {
    forall k | 0 <= k < |p| :: DirectoryIfNamed(names, p[..k])
  }

  predicate AllRooted(names: Names) {
    forall p | p in names :: Rooted(names, p)
  }

  predicate Acceptable(members: seq<Member>) {
    && TotalSize(members) <= LIMIT && |members| <= MOST
    && (forall m | m in members :: Allowed(m))
    && Distinct(members)
    && AllRooted(NamesOf(members))
  }

  function Keys(members: seq<Member>): (keys: seq<Path>)
    ensures |keys| == |members| && forall i | 0 <= i < |keys| :: keys[i] == PathOf(members[i])
  {
    if members == [] then [] else Keys(members[..|members| - 1]) + [PathOf(members[|members| - 1])]
  }

  lemma {:induction false} NamesAreKeys(members: seq<Member>)
    ensures forall p :: p in NamesOf(members) <==> p in Keys(members)
    ensures forall p :: p in NamesOf(members) <==> exists m | m in members :: PathOf(m) == p
    decreases |members|
  {
    hide PathOf;
    if members != [] {
      var n := |members| - 1;
      NamesAreKeys(members[..n]);
      assert members == members[..n] + [members[n]];
    }
  }

  method Total(members: seq<Member>) returns (size: nat)
    ensures size == TotalSize(members)
  {
    size := 0;
    for i := 0 to |members|
      invariant size == TotalSize(members[..i])
    {
      size := size + members[i].size;
      assert members[..i + 1][..i] == members[..i];
    }
    assert members[..|members|] == members;
  }

  /** The first loop: names, duplicates, types, link targets. */
  method CheckMembers(members: seq<Member>) returns (ok: bool, keys: seq<Path>, names: Names)
    ensures ok <==> (forall m | m in members :: Allowed(m)) && Distinct(members)
    ensures ok ==> keys == Keys(members) && names == NamesOf(members)
  {
    hide Allowed, SafeName, Keys, LinkOk;
    keys, names := [], map[];
    for i := 0 to |members|
      invariant keys == Keys(members[..i]) && names == NamesOf(members[..i])
      invariant forall m | m in members[..i] :: Allowed(m)
      invariant Distinct(members[..i])
    {
      var m := members[i];
      assert m in members && members[..i + 1] == members[..i] + [m] && members[..i + 1][..i] == members[..i];
      var allowed := CheckMember(m);
      if !allowed {
        return false, keys, names;
      }
      var name := PathOf(m);
      NamesAreKeys(members[..i]);
      if name in names {
        KeyTwice(members, i);
        return false, keys, names;
      }
      assert Distinct(members[..i + 1]) by { StillDistinct(members, i); }
      KeysSnoc(members[..i], m);
      keys, names := keys + [name], names[name := m.kind];
    }
    assert members[..|members|] == members;
    ok := true;
  }

  /** The tests on one member, in the order of the program. */
  method CheckMember(m: Member) returns (ok: bool)
    ensures ok == Allowed(m)
  {
    hide LinkOk, SafeName;
    var name := SafeName(m.name);
    if name.None? {
      return false;
    }
    if !(m.kind.File? || m.kind.Directory? || m.kind.Symlink?) {
      return false;
    }
    if m.kind.Symlink? {
      return LinkOk(name.value, m.kind.target);
    }
    return true;
  }

  lemma {:induction false} KeysSnoc(members: seq<Member>, m: Member)
    ensures Keys(members + [m]) == Keys(members) + [PathOf(m)]
  {
    hide PathOf;
    assert (members + [m])[..|members|] == members;
  }

  lemma {:induction false} KeyTwice(members: seq<Member>, i: nat)
    requires i < |members| && PathOf(members[i]) in Keys(members[..i])
    ensures !Distinct(members)
  {
    hide PathOf, Keys;
    var j :| 0 <= j < i && Keys(members[..i])[j] == PathOf(members[i]);
    assert PathOf(members[j]) == PathOf(members[i]);
  }

  lemma {:induction false} StillDistinct(members: seq<Member>, i: nat)
    requires i < |members| && Distinct(members[..i]) && PathOf(members[i]) !in Keys(members[..i])
    ensures Distinct(members[..i + 1])
  {
    hide PathOf, Keys;
    forall a, b | 0 <= a < b < i + 1 ensures PathOf(members[a]) != PathOf(members[b]) {
      if b < i {
        assert PathOf(members[..i][a]) != PathOf(members[..i][b]);
      } else {
        assert Keys(members[..i])[a] == PathOf(members[a]);
      }
    }
  }

  /** The second pair of loops: every parent of every member. */
  method CheckAncestors(keys: seq<Path>, names: Names) returns (ok: bool)
    requires forall p :: p in names <==> p in keys
    ensures ok <==> AllRooted(names)
  {
    for i := 0 to |keys|
      invariant forall j | 0 <= j < i :: Rooted(names, keys[j])
    {
      var name := keys[i];
      assert name in names;
      var k := |name|;
      while k > 0
        invariant 0 <= k <= |name|
        invariant forall l | k <= l < |name| :: DirectoryIfNamed(names, name[..l])
      {
        k := k - 1;
        var parent := name[..k];
        if parent in names && !names[parent].Directory? {
          assert !DirectoryIfNamed(names, name[..k]);
          return false;
        }
      }
    }
    return true;
  }

  // ----- operations on the output directory

  /** Why an operation fails. `ThroughLink` is a path that would have to follow a symbolic link. */
  datatype Fault = Present | ThroughLink | NotDirectory | Missing

  datatype Outcome = Done(tree: Tree) | Failed(why: Fault)

  function Obstacle(t: Tree, p: Path): Option<Fault> {
    if p !in t then Some(Missing)
    else match t[p]
      case Dir => None
      case Link(_) => Some(ThroughLink)
      case Regular(_, _, _) => Some(NotDirectory)
  }

  /** `mkdir(parents=True, exist_ok=True)` */
  function MakeDirectories(t: Tree, p: Path): Outcome {
    if p in t || p == [] then
      match Obstacle(t, p)
      case None => Done(t)
      case Some(f) => Failed(f)
    else
      match MakeDirectories(t, p[..|p| - 1])
      case Failed(f) => Failed(f)
      case Done(u) => Done(u[p := Dir])
  }

  /** Creating something that must not exist yet. */
  function Create(t: Tree, p: Path, node: Node): Outcome {
    if p in t then Failed(Present)
    else
      match Obstacle(t, Folder(p))
      case Some(f) => Failed(f)
      case None => Done(t[p := node])
  }

  /** `mkdir(exist_ok=True)` */
  function MakeDirectory(t: Tree, p: Path): Outcome {
    if p in t && t[p].Dir? then Done(t) else Create(t, p, Dir)
  }

  function Bit(mode: nat, weight: nat): bool
    requires weight > 0
  {
    (mode / weight) % 2 == 1
  }

  function NodeOf(k: Kind): Node {
    match k
    case File(content, mode, mtime) => Regular(content, Bit(mode, 64) || Bit(mode, 8) || Bit(mode, 1), mtime)
    case Directory => Dir
    case Symlink(target) => Link(target)
    case Special => Dir
  }

  /** One member in the first pass, which leaves the links out. */
  function Placed(t: Tree, p: Path, k: Kind): Outcome {
    var parents := if p == [] then Done(t) else MakeDirectories(t, Folder(p));
    if parents.Failed? then parents
    else if k.Directory? then MakeDirectory(parents.tree, p)
    else if k.File? then Create(parents.tree, p, NodeOf(k))
    else parents
  }

  /** What is in the way of working in the directory at `p`. */
  predicate Blocks(t: Tree, p: Path, f: Fault) {
    match f
    case Missing => p !in t
    case ThroughLink => p in t && t[p].Link?
    case NotDirectory => p in t && t[p].Regular?
    case Present => false
  }

  lemma {:induction false} ObstacleExactly(t: Tree, p: Path, f: Fault)
    ensures Obstacle(t, p) == Some(f) <==> Blocks(t, p, f)
    ensures Obstacle(t, p) == None <==> p in t && t[p] == Dir
  {
  }

  /** Something is created exactly if nothing is there yet and its folder is a directory, not a link to one. */
  lemma {:induction false} CreateExactly(t: Tree, p: Path, node: Node, u: Tree)
    ensures Create(t, p, node) == Done(u) <==>
            p !in t && Folder(p) in t && t[Folder(p)] == Dir && u == t[p := node]
    ensures Create(t, p, node) == Failed(Present) <==> p in t
  {
    ObstacleExactly(t, Folder(p), Present);
  }

  /** Of `p` the first `k` components are there already. */
  predicate Reaches(t: Tree, p: Path, k: nat) {
    k <= |p| && (k == 0 || p[..k] in t) && forall j | k < j <= |p| :: p[..j] !in t
  }

  /** The directories of `p` behind the first `k` components are new, and the rest is as it was. */
  ghost predicate Added(t: Tree, p: Path, k: nat, u: Tree)
    requires k <= |p|
  {
    && (forall q :: q in u <==> q in t || (k < |q| && q <= p))
    && (forall q | q in u :: u[q] == if q in t then t[q] else Dir)
  }

  /** Directories are made from the last one that is there, which has to be one, and not a link. */
  lemma {:induction false} MakeDirectoriesExactly(t: Tree, p: Path, k: nat, u: Tree)
    requires Reaches(t, p, k)
    ensures MakeDirectories(t, p) == Done(u) <==> p[..k] in t && t[p[..k]] == Dir && Added(t, p, k, u)
    ensures forall f :: MakeDirectories(t, p) == Failed(f) <==> Blocks(t, p[..k], f)
    decreases |p|
  {
    hide Obstacle, Blocks;
    if k == |p| {
      assert p[..k] == p;
      forall f ensures Obstacle(t, p) == Some(f) <==> Blocks(t, p, f) {
        ObstacleExactly(t, p, f);
      }
      ObstacleExactly(t, p, Missing);
      if Added(t, p, k, u) {
        assert u == t by { NothingAdded(t, p, u); }
      }
    } else {
      var n := |p| - 1;
      var q := p[..n];
      assert p[..|p|] == p && p !in t;
      assert forall j | 0 <= j <= n :: q[..j] == p[..j];
      var before := MakeDirectories(t, q);
      if before.Done? {
        MakeDirectoriesExactly(t, q, k, before.tree);
        OneMore(t, p, k, before.tree, u);
      } else {
        MakeDirectoriesExactly(t, q, k, t);
        assert Blocks(t, p[..k], before.why);
        assert !(p[..k] in t && t[p[..k]] == Dir) by { ObstacleExactly(t, p[..k], before.why); }
      }
    }
  }

  lemma {:induction false} NothingAdded(t: Tree, p: Path, u: Tree)
    requires Added(t, p, |p|, u)
    ensures u == t
  {
    forall q ensures q in u <==> q in t {
    }
  }

  lemma {:induction false} OneMore(t: Tree, p: Path, k: nat, before: Tree, u: Tree)
    requires Reaches(t, p, k) && k < |p| && Added(t, p[..|p| - 1], k, before)
    ensures Added(t, p, k, u) <==> u == before[p := Dir]
  {
    assert p[..|p|] == p && p !in t;
    if Added(t, p, k, u) {
      forall r ensures r in u <==> r in before[p := Dir] {
        FrontOrWhole(r, p);
      }
    }
    if u == before[p := Dir] {
      forall r ensures r in u <==> r in t || (k < |r| && r <= p) {
        FrontOrWhole(r, p);
      }
    }
  }

  lemma {:induction false} FrontOrWhole(r: Path, p: Path)
    requires p != []
    ensures r <= p <==> r == p || r <= p[..|p| - 1]
  {
    if r <= p && r != p {
      assert r == p[..|p| - 1][..|r|];
    }
  }

  // ----- the tree that the members describe

  predicate StrictlyAbove(p: Path, q: Path) {
    p < q
  }

  predicate AtOrAbove(p: Path, q: Path) {
    p <= q
  }

  function Want(names: Names, p: Path): Node {
    if p in names then NodeOf(names[p]) else Dir
  }

  predicate Holds(names: Names, p: Path) {
    p == [] || exists q | q in names :: AtOrAbove(p, q)
  }

  /** Every member at its place, directories above the members, and nothing else. */
  ghost predicate IsTreeOf(names: Names, t: Tree) {
    && (forall p :: p in t <==> Holds(names, p))
    && (forall p | p in t :: t[p] == Want(names, p))
  }

  lemma {:induction false} TreeIsUnique(names: Names, t: Tree, u: Tree)
    requires IsTreeOf(names, t) && IsTreeOf(names, u)
    ensures t == u
  {
    hide Holds, Want;
    forall p ensures p in t <==> p in u {
      assert p in t <==> Holds(names, p);
      assert p in u <==> Holds(names, p);
    }
  }

  /** The paths that exist once the members `done` have been through the first pass. */
  predicate Reached(names: Names, done: set<Path>, p: Path) {
    p == [] || exists q | q in done :: StrictlyAbove(p, q) || (p == q && q in names && !names[q].Symlink?)
  }

  ghost predicate Partial(names: Names, done: set<Path>, t: Tree) {
    && (forall p :: p in t <==> Reached(names, done, p))
    && (forall p | p in t :: t[p] == Want(names, p))
  }

  predicate Ready(names: Names) {
    && AllRooted(names) && (forall p | p in names :: !names[p].Special?)
    && ([] in names ==> names[[]].Directory?)
  }

  /** Everything above a member, as far as it exists, is a directory. */
  lemma {:induction false} AboveIsDirectory(names: Names, done: set<Path>, t: Tree, q: Path, p: Path)
    requires Ready(names) && Partial(names, done, t) && q in names && p < q
    ensures p in t ==> t[p].Dir?
  {
    hide Reached;
    assert Rooted(names, q);
    assert p == q[..|p|] && DirectoryIfNamed(names, q[..|p|]);
  }

  ghost predicate Closed(t: Tree) {
    forall x, y | y in t && AtOrAbove(x, y) :: x in t
  }

  lemma {:induction false} PartialIsClosed(names: Names, done: set<Path>, t: Tree)
    requires Partial(names, done, t)
    ensures Closed(t)
  {
    forall x, y | y in t && AtOrAbove(x, y) ensures x in t {
      assert Reached(names, done, y);
      if y != [] && x != y {
        var q :| q in done && (StrictlyAbove(y, q) || (y == q && q in names && !names[q].Symlink?));
        assert StrictlyAbove(x, q);
      }
    }
  }

  lemma {:induction false} MakesDirectories(t: Tree, p: Path)
    requires [] in t && Closed(t) && forall x | x in t && AtOrAbove(x, p) :: t[x].Dir?
    ensures var r := MakeDirectories(t, p);
            && r.Done?
            && (forall x :: x in r.tree <==> x in t || AtOrAbove(x, p))
            && (forall x | x in r.tree :: r.tree[x] == if x in t then t[x] else Dir)
    decreases |p|
  {
    if p !in t && p != [] {
      var q := p[..|p| - 1];
      MakesDirectories(t, q);
      assert forall x: Path :: AtOrAbove(x, p) <==> AtOrAbove(x, q) || x == p;
    }
  }

  /** One member: no collision, no link on the way, and the part of the tree that it adds. */
  lemma {:induction false} Places(names: Names, done: set<Path>, t: Tree, q: Path)
    requires Ready(names) && Partial(names, done, t) && q in names && q !in done && done <= names.Keys
    ensures var r := Placed(t, q, names[q]); r.Done? && Partial(names, done + {q}, r.tree)
  {
    hide Rooted, Reached;
    RootReached(names, done);
    var r := Placed(t, q, names[q]);
    if q == [] {
      assert t[[]] == Want(names, []);
      PlacedReached(names, done, q);
    } else {
      var f := Folder(q);
      FolderOnly(q);
      forall x | x in t && AtOrAbove(x, f) ensures t[x].Dir? {
        AboveIsDirectory(names, done, t, q, x);
      }
      PartialIsClosed(names, done, t);
      MakesDirectories(t, f);
      var u := MakeDirectories(t, f).tree;
      assert u[f].Dir?;
      AlreadyThere(names, done, t, q);
      PlacedReached(names, done, q);
      FolderWanted(names, q);
    }
  }

  lemma {:induction false} RootReached(names: Names, done: set<Path>)
    ensures Reached(names, done, [])
  {
  }

  lemma {:induction false} FolderOnly(q: Path)
    requires q != []
    ensures forall x: Path :: StrictlyAbove(x, q) <==> AtOrAbove(x, Folder(q))
  {
  }

  lemma {:induction false} FolderWanted(names: Names, q: Path)
    requires Ready(names) && q in names
    ensures forall x: Path | StrictlyAbove(x, q) :: Want(names, x) == Dir
  {
    assert Rooted(names, q);
    forall x: Path | StrictlyAbove(x, q) ensures Want(names, x) == Dir {
      assert x == q[..|x|] && DirectoryIfNamed(names, q[..|x|]);
    }
  }

  lemma {:induction false} PlacedReached(names: Names, done: set<Path>, q: Path)
    requires q in names
    ensures forall x :: Reached(names, done + {q}, x) <==>
                        Reached(names, done, x) || StrictlyAbove(x, q) || (x == q && !names[q].Symlink?)
  {
  }

  /** A member that exists before its turn is a directory above another member. */
  lemma {:induction false} AlreadyThere(names: Names, done: set<Path>, t: Tree, q: Path)
    requires Ready(names) && Partial(names, done, t) && q in names && q !in done && done <= names.Keys && q != []
    ensures q in t ==> names[q].Directory?
  {
    if q in t {
      assert Reached(names, done, q);
      var w :| w in done && StrictlyAbove(q, w);
      assert Rooted(names, w);
      assert q == w[..|q|] && DirectoryIfNamed(names, w[..|q|]);
    }
  }

  /** The first pass over the members: directories and files. */
  method FilePass(keys: seq<Path>, names: Names) returns (ok: bool, t: Tree)
    requires (forall p :: p in names <==> p in keys) && (forall i, j | 0 <= i < j < |keys| :: keys[i] != keys[j])
    requires AllRooted(names) && (forall p | p in names :: !names[p].Special?)
    ensures ok <==> Ready(names) || names[[]].Symlink?
    ensures Ready(names) ==> Partial(names, names.Keys, t)
    ensures !Ready(names) ==> t == map[[] := Dir]
  {
    hide Rooted, Reached, Placed, Want;
    t := map[[] := Dir];
    ghost var done: set<Path> := {};
    if Ready(names) {
      Started(names);
    } else {
      assert [] in names;
    }
    for i := 0 to |keys|
      invariant done == set j | 0 <= j < i :: keys[j]
      invariant Ready(names) ==> Partial(names, done, t)
      invariant !Ready(names) ==> t == map[[] := Dir] && (i > 0 ==> names[[]].Symlink?)
    {
      var name := keys[i];
      assert name in names && name !in done && done <= names.Keys;
      if Ready(names) {
        Places(names, done, t, name);
      } else {
        OnlyRoot(names, name);
      }
      var r := Placed(t, name, names[name]);
      if r.Failed? {
        return false, t;
      }
      t, done := r.tree, done + {name};
    }
    assert done == names.Keys;
    return true, t;
  }

  lemma {:induction false} Started(names: Names)
    requires Ready(names)
    ensures Partial(names, {}, map[[] := Dir])
  {
  }

  /** A member "." that is not a directory is alone, and collides with the output directory. */
  lemma {:induction false} OnlyRoot(names: Names, p: Path)
    requires AllRooted(names) && (forall p | p in names :: !names[p].Special?) && !Ready(names) && p in names
    ensures p == []
    ensures Placed(map[[] := Dir], p, names[p]) == if names[[]].Symlink? then Done(map[[] := Dir]) else Failed(Present)
  {
    assert Rooted(names, p);
    assert p[..0] == [] && !DirectoryIfNamed(names, []);
  }

  // ----- the links

  predicate ReachedLinks(names: Names, done: set<Path>, p: Path) {
    Reached(names, names.Keys, p) || (p in done && p in names && names[p].Symlink?)
  }

  ghost predicate Linked(names: Names, done: set<Path>, t: Tree) {
    && (forall p :: p in t <==> ReachedLinks(names, done, p))
    && (forall p | p in t :: t[p] == Want(names, p))
  }

  /** A link collides with nothing, and its folder is a directory. */
  lemma {:induction false} LinkFits(names: Names, done: set<Path>, t: Tree, q: Path)
    requires Ready(names) && Linked(names, done, t) && q in names && names[q].Symlink? && q !in done
    ensures var r := Create(t, q, NodeOf(names[q])); r.Done? && Linked(names, done + {q}, r.tree)
  {
    hide Rooted;
    assert q != [];
    if Reached(names, names.Keys, q) {
      var w :| w in names.Keys && (StrictlyAbove(q, w) || (q == w && q in names && !names[q].Symlink?));
      assert Rooted(names, w);
      LinkAboveNothing(names, q, w);
    }
    assert StrictlyAbove(Folder(q), q);
    assert Reached(names, names.Keys, Folder(q));
    FolderWanted(names, q);
  }

  lemma {:induction false} LinkAboveNothing(names: Names, q: Path, w: Path)
    requires q in names && names[q].Symlink? && Rooted(names, w)
    ensures !StrictlyAbove(q, w)
  {
    assert !DirectoryIfNamed(names, q);
    if |q| < |w| {
      var x := w[..|q|];
      assert DirectoryIfNamed(names, x);
      assert x != q;
    }
  }

  /** All links in place: the tree is the one that the members describe. */
  lemma {:induction false} LinkedIsTree(names: Names, t: Tree)
    requires Linked(names, names.Keys, t)
    ensures IsTreeOf(names, t)
  {
    forall p ensures p in t <==> Holds(names, p) {
      assert p in t <==> ReachedLinks(names, names.Keys, p);
      if p != [] && ReachedLinks(names, names.Keys, p) {
        if Reached(names, names.Keys, p) {
          var q :| q in names.Keys && (StrictlyAbove(p, q) || (p == q && q in names && !names[q].Symlink?));
          assert AtOrAbove(p, q);
        } else {
          assert AtOrAbove(p, p);
        }
      }
      if p != [] && Holds(names, p) {
        var q :| q in names && AtOrAbove(p, q);
        assert StrictlyAbove(p, q) || p == q;
      }
    }
  }

  /** The second pass: links, once everything else exists. */
  method LinkPass(keys: seq<Path>, names: Names, files: Tree) returns (ok: bool, t: Tree)
    requires (forall p :: p in names <==> p in keys) && (forall i, j | 0 <= i < j < |keys| :: keys[i] != keys[j])
    requires AllRooted(names) && (forall p | p in names :: !names[p].Special?)
    requires if Ready(names) then Partial(names, names.Keys, files) else files == map[[] := Dir] && names[[]].Symlink?
    ensures ok <==> Ready(names)
    ensures if Ready(names) then IsTreeOf(names, t) else t == files
  {
    hide Rooted, Reached, Create, Want;
    t := files;
    ghost var done: set<Path> := {};
    if !Ready(names) {
      assert [] in names;
    }
    for i := 0 to |keys|
      invariant done == set j | 0 <= j < i :: keys[j]
      invariant Ready(names) ==> Linked(names, done, t)
      invariant !Ready(names) ==> t == files && i == 0
    {
      var name := keys[i];
      assert name in names && name !in done;
      if names[name].Symlink? {
        if Ready(names) {
          LinkFits(names, done, t, name);
        } else {
          OnlyRoot(names, name);
          assert Create(t, name, NodeOf(names[name])).Failed? by { RootTaken(t, NodeOf(names[name])); }
        }
        var r := Create(t, name, NodeOf(names[name]));
        if r.Failed? {
          return false, t;
        }
        t := r.tree;
      } else {
        OnlyLinks(names, name);
      }
      done := done + {name};
    }
    assert done == names.Keys;
    if Ready(names) {
      LinkedIsTree(names, t);
    }
    return true, t;
  }

  lemma {:induction false} OnlyLinks(names: Names, p: Path)
    requires AllRooted(names) && (forall p | p in names :: !names[p].Special?) && p in names && !names[p].Symlink?
    requires !Ready(names) ==> names[[]].Symlink?
    ensures Ready(names)
  {
    if !Ready(names) {
      OnlyRoot(names, p);
    }
  }

  lemma {:induction false} RootTaken(t: Tree, node: Node)
    requires [] in t
    ensures Create(t, [], node).Failed?
  {
  }
}
