/**
  Names and link targets in a source archive, as they are judged before anything is written.
  A path below the output directory is the sequence of its components; [] is the directory itself.
 */
module SourceNames {
  import opened Results
  import opened Paths

  type Path = seq<string>

  // ----- member names

  function Strip(name: string): string {
    if name != "" && name[|name| - 1] == '/' then Strip(name[..|name| - 1]) else name
  }

  function Text(p: Path): string {
    if p == [] then "." else Join(p, '/')
  }

  function SafeName(name: string): Option<Path> {
    var parts := Kept(Split(name, '/'));
    if name == "" || name[0] == '/' || ".." in parts || ".git" in parts || '\\' in name || Text(parts) != Strip(name)
    then None
    else Some(parts)
  }

  predicate Component(c: string) {
    c != "" && c != "." && c != ".." && c != ".git" && '/' !in c && '\\' !in c
  }

  predicate Safe(p: Path) {
    forall c | c in p :: Component(c)
  }

  /** Trailing separators do not change the components. */
  lemma {:induction false} StripKeeps(name: string)
    ensures Kept(Split(Strip(name), '/')) == Kept(Split(name, '/'))
    ensures Strip(name) <= name && (forall i | |Strip(name)| <= i < |name| :: name[i] == '/')
    decreases |name|
  {
    if name != "" && name[|name| - 1] == '/' {
      var n := name[..|name| - 1];
      StripKeeps(n);
      SplitSnoc(n);
      assert n + ['/'] == name;
      KeptAppend(Split(n, '/'), [""]);
      assert Kept([""]) == [];
      assert Strip(name) == Strip(n) <= n <= name;
    }
  }

  lemma {:induction false} SplitSnoc(s: string)
    ensures Split(s + ['/'], '/') == Split(s, '/') + [""]
    decreases |s|
  {
    if s == "" {
      assert s + ['/'] == ['/'] && ['/'][1..] == "";
    } else {
      assert (s + ['/'])[1..] == s[1..] + ['/'];
      SplitSnoc(s[1..]);
    }
  }

  lemma {:induction false} JoinedChars(p: Path)
    requires p != [] && Safe(p)
    ensures var n := Join(p, '/'); n != "" && n[0] != '/' && n[|n| - 1] != '/' && '\\' !in n
    decreases |p|
  {
    assert p[0] in p;
    if |p| > 1 {
      assert forall c | c in p[1..] :: c in p;
      JoinedChars(p[1..]);
    }
  }

  /** A name stands for a path exactly when, up to trailing separators, it is that path's text. */
  lemma {:induction false} SafeNameExactly(name: string, p: Path)
    ensures SafeName(name) == Some(p) <==> Safe(p) && Strip(name) == Text(p)
  {
    hide Split, Join, Kept;
    StripKeeps(name);
    KeptParts(Split(name, '/'));
    SplitParts(name, '/');
    if SafeName(name) == Some(p) {
      forall c | c in p ensures Component(c) {
        PartElements(name, '/', c);
      }
    }
    if Safe(p) && Strip(name) == Text(p) {
      TextSplits(p);
      TextChars(p, name);
      assert ".." !in p && ".git" !in p by { NoSpecials(p); }
    }
  }

  function Slashes(n: nat): (s: string)
    ensures |s| == n && forall c | c in s :: c == '/'
  {
    seq(n, _ => '/')
  }

  lemma {:induction false} StripSlashes(s: string, n: nat)
    requires s == "" || s[|s| - 1] != '/'
    ensures Strip(s + Slashes(n)) == s
    decreases n
  {
    if n == 0 {
      assert s + Slashes(0) == s;
    } else {
      assert (s + Slashes(n))[..|s| + n - 1] == s + Slashes(n - 1);
      StripSlashes(s, n - 1);
    }
  }

  /** A name is accepted exactly if it is a safe path written out, perhaps with slashes behind it. */
  lemma {:induction false} NameExactly(name: string, p: Path)
    ensures SafeName(name) == Some(p) <==>
            Safe(p) && exists n :: name == (if p == [] then "." else Join(p, '/')) + Slashes(n)
  {
    hide Split, Join, Kept, Strip;
    SafeNameExactly(name, p);
    StripKeeps(name);
    if SafeName(name) == Some(p) {
      var n := |name| - |Strip(name)|;
      assert name == Strip(name) + name[|Strip(name)|..];
      assert name[|Strip(name)|..] == Slashes(n);
    }
    if Safe(p) && exists n :: name == Text(p) + Slashes(n) {
      var n :| name == Text(p) + Slashes(n);
      if p != [] {
        JoinedChars(p);
      }
      StripSlashes(Text(p), n);
    }
  }

  lemma {:induction false} NoSpecials(p: Path)
    requires Safe(p)
    ensures ".." !in p && ".git" !in p
  {
    assert !Component("..") && !Component(".git");
  }

  lemma {:induction false} TextSplits(p: Path)
    requires Safe(p)
    ensures Kept(Split(Text(p), '/')) == p
  {
    if p == [] {
      assert Split(".", '/') == ["."] by { SplitPrepend(".", "", '/'); assert "." + "" == "."; }
      assert ["."][1..] == [];
    } else {
      assert forall c | c in p :: Component(c) && '/' !in c;
      SplitJoin(p, '/');
      AllKept(p);
    }
  }

  lemma {:induction false} TextChars(p: Path, name: string)
    requires Safe(p) && Strip(name) == Text(p)
    requires Strip(name) <= name && (forall i | |Strip(name)| <= i < |name| :: name[i] == '/')
    ensures name != "" && name[0] != '/' && '\\' !in name
  {
    hide Strip;
    if p != [] {
      JoinedChars(p);
    }
    assert name[0] == Text(p)[0];
    forall i | 0 <= i < |name| ensures name[i] != '\\' {
      if i < |Text(p)| {
        assert name[i] == Text(p)[i];
      }
    }
  }

  /** Different paths have different texts. */
  lemma {:induction false} TextIsInjective(p: Path, q: Path)
    requires Safe(p) && Safe(q) && Text(p) == Text(q)
    ensures p == q
  {
    TextSplits(p);
    TextSplits(q);
  }

  // ----- link targets

  /** One component of a path, applied to the components so far. */
  function Apply(stack: Path, c: string): Path {
    if c == "" || c == "." then stack
    else if c != ".." || stack == [] || stack[|stack| - 1] == ".." then stack + [c]
    else stack[..|stack| - 1]
  }

  function Normalised(stack: Path, parts: seq<string>): Path
    decreases |parts|
  {
    if parts == [] then stack else Normalised(Apply(stack, parts[0]), parts[1..])
  }

  function Folder(p: Path): Path {
    if p == [] then [] else p[..|p| - 1]
  }

  /** Where a link leads if there are no other links. */
  function Lexical(p: Path, target: string): Path {
    Normalised(Folder(p), Split(target, '/'))
  }

  predicate Above(stack: Path) {
    stack != [] && stack[0] == ".."
  }

  predicate LinkOk(p: Path, target: string) {
    && target != "" && target[0] != '/' && '\\' !in target
    && !Above(Lexical(p, target)) && ".git" !in Lexical(p, target)
  }

  /** The components so far are ordinary ones, or the walk has left the root for good. */
  predicate Sane(stack: Path) {
    Above(stack) || ".." !in stack
  }

  lemma {:induction false} StaysSane(stack: Path, parts: seq<string>)
    requires Sane(stack)
    ensures Sane(Normalised(stack, parts))
    ensures forall c | c in Normalised(stack, parts) :: c in stack || (c in parts && c != "" && c != ".")
    decreases |parts|
  {
    if parts != [] {
      StaysSane(Apply(stack, parts[0]), parts[1..]);
      assert forall c | c in parts[1..] :: c in parts;
    }
  }

  /**
    A link is accepted exactly if its target is a relative text without a backslash that leads to a
    safe path: one that stays below the root and has no ".git" in it.
   */
  lemma {:induction false} LinkOkExactly(p: Path, target: string)
    requires Safe(p)
    ensures LinkOk(p, target) <==>
            target != "" && target[0] != '/' && '\\' !in target && Safe(Lexical(p, target))
  {
    hide Split, Normalised;
    var q := Lexical(p, target);
    FolderIsSafe(p);
    StaysSane(Folder(p), Split(target, '/'));
    SplitParts(target, '/');
    if LinkOk(p, target) {
      forall c | c in q ensures Component(c) {
        if c !in Folder(p) {
          PartElements(target, '/', c);
        }
      }
    }
    if Safe(q) {
      NoSpecials(q);
    }
  }

  lemma {:induction false} FolderIsSafe(p: Path)
    requires Safe(p)
    ensures Safe(Folder(p)) && ".." !in Folder(p)
  {
    assert forall c | c in Folder(p) :: c in p;
    NoSpecials(p);
  }

  lemma {:induction false} NormalisedAppend(stack: Path, a: seq<string>, b: seq<string>)
    ensures Normalised(stack, a + b) == Normalised(Normalised(stack, a), b)
    decreases |a|
  {
    if a == [] {
      assert a + b == b;
    } else {
      assert (a + b)[1..] == a[1..] + b;
      NormalisedAppend(Apply(stack, a[0]), a[1..], b);
    }
  }

  lemma {:induction false} NormalisedSafe(p: Path, stack: Path)
    requires Safe(p)
    ensures Normalised(stack, p) == stack + p
    decreases |p|
  {
    if p == [] {
      assert stack + p == stack;
    } else {
      assert Component(p[0]);
      assert forall c | c in p[1..] :: c in p;
      NormalisedSafe(p[1..], stack + [p[0]]);
      assert stack + [p[0]] + p[1..] == stack + p;
    }
  }

  lemma {:induction false} SplitConcat(a: string, b: string)
    ensures Split(a + (['/'] + b), '/') == Split(a, '/') + Split(b, '/')
    decreases |a|
  {
    var tail := ['/'] + b;
    if a == "" {
      assert a + tail == tail && tail[1..] == b;
    } else {
      assert (a + tail)[1..] == a[1..] + tail;
      SplitConcat(a[1..], b);
    }
  }

  /** `posixpath.join` of the directory part of the name's text, and the target. */
  function Joined(p: Path, target: string): string {
    if |p| <= 1 then target else Join(Folder(p), '/') + (['/'] + target)
  }

  /** Working on components agrees with normalising the joined text. */
  lemma {:induction false} LexicalIsNormpath(p: Path, target: string)
    requires Safe(p)
    ensures Lexical(p, target) == Normalised([], Split(Joined(p, target), '/'))
  {
    if |p| > 1 {
      var f := Folder(p);
      assert p == f + [p[|p| - 1]];
      assert forall c | c in f :: c in p && Component(c) && '/' !in c;
      SplitJoin(f, '/');
      SplitConcat(Join(f, '/'), target);
      NormalisedAppend([], f, Split(target, '/'));
      NormalisedSafe(f, []);
      assert [] + f == f;
    } else {
      assert Folder(p) == [];
    }
  }

  lemma {:induction false} AboveStays(stack: Path, parts: seq<string>)
    requires Above(stack)
    ensures Above(Normalised(stack, parts))
    decreases |parts|
  {
    if parts != [] {
      AboveStays(Apply(stack, parts[0]), parts[1..]);
    }
  }

  /** A link that passes the test never rises above the root at any prefix of its walk. */
  lemma {:induction false} NeverAbove(p: Path, target: string, k: nat)
    requires LinkOk(p, target) && k <= |Split(target, '/')|
    ensures !Above(Normalised(Folder(p), Split(target, '/')[..k]))
  {
    var parts := Split(target, '/');
    assert parts[..k] + parts[k..] == parts;
    NormalisedAppend(Folder(p), parts[..k], parts[k..]);
    if Above(Normalised(Folder(p), parts[..k])) {
      AboveStays(Normalised(Folder(p), parts[..k]), parts[k..]);
    }
  }
}
