/** Comparing two kernel configurations that may have been built under different source roots. */
module KernelConfig {
  import opened Results
  import opened Paths

  const KEY: string := "CONFIG_INITRAMFS_SOURCE="
  const FOLDER: string := "/target/linux/generic/image"
  const BASE: string := FOLDER + "/initramfs-base-files.txt"
  const ROOT: string := "@OPENWRT_SOURCE@"

  // ----- lines, as str.splitlines(keepends=True) finds them

  predicate Break(c: char) {
    || '\n' <= c <= '\r' || '\U{1C}' <= c <= '\U{1E}' || c == '\U{85}' || c == '\U{2028}' || c == '\U{2029}'
  }

  /** The length of the first line, its break included. */
  function LineEnd(text: string): (n: nat)
    requires text != ""
    ensures 0 < n <= |text|
  {
    if Break(text[0]) then (if text[0] == '\r' && |text| > 1 && text[1] == '\n' then 2 else 1)
    else if |text| == 1 then 1
    else 1 + LineEnd(text[1..])
  }

  function SplitLines(text: string): seq<string>
    decreases |text|
  {
    if text == "" then [] else [text[..LineEnd(text)]] + SplitLines(text[LineEnd(text)..])
  }

  function Concat(lines: seq<string>): string {
    if lines == [] then "" else lines[0] + Concat(lines[1..])
  }

  /** One line and no more. */
  predicate Whole(line: string) {
    line != "" && LineEnd(line) == |line|
  }

  predicate Broken(line: string) {
    line != "" && Break(line[|line| - 1])
  }

  /** `rest` does not continue the line. */
  predicate Apart(line: string, rest: string) {
    rest == "" || (Broken(line) && !(line[|line| - 1] == '\r' && rest[0] == '\n'))
  }

  predicate LinesOk(lines: seq<string>) {
    lines == [] || (Whole(lines[0]) && Apart(lines[0], Concat(lines[1..])) && LinesOk(lines[1..]))
  }

  lemma {:induction false} FirstLine(line: string, rest: string)
    requires Whole(line) && Apart(line, rest)
    ensures LineEnd(line + rest) == |line|
    decreases |line|
  {
    if rest == "" {
      assert line + rest == line;
    } else if !Break(line[0]) && |line| > 1 {
      assert (line + rest)[1..] == line[1..] + rest;
      FirstLine(line[1..], rest);
    }
  }

  lemma {:induction false} SplitConcat(lines: seq<string>)
    requires LinesOk(lines)
    ensures SplitLines(Concat(lines)) == lines
    decreases |lines|
  {
    if lines != [] {
      var rest := Concat(lines[1..]);
      FirstLine(lines[0], rest);
      SplitConcat(lines[1..]);
      assert (lines[0] + rest)[..|lines[0]|] == lines[0] && (lines[0] + rest)[|lines[0]|..] == rest;
    }
  }

  lemma {:induction false} FirstIsWhole(text: string)
    requires text != ""
    ensures var n := LineEnd(text); Whole(text[..n]) && Apart(text[..n], text[n..])
    decreases |text|
  {
    var n := LineEnd(text);
    if !Break(text[0]) && |text| > 1 {
      FirstIsWhole(text[1..]);
      assert text[..n][1..] == text[1..][..n - 1] && text[n..] == text[1..][n - 1..];
    }
  }

  lemma {:induction false} LinesCons(line: string, rest: seq<string>)
    requires Whole(line) && Apart(line, Concat(rest)) && LinesOk(rest)
    ensures LinesOk([line] + rest) && Concat([line] + rest) == line + Concat(rest)
  {
    assert ([line] + rest)[1..] == rest;
  }

  lemma {:induction false} NoLines()
    ensures SplitLines("") == [] && Concat([]) == "" && LinesOk([])
  {
  }

  lemma {:induction false} ConcatSplit(text: string)
    ensures Concat(SplitLines(text)) == text && LinesOk(SplitLines(text))
    decreases |text|
  {
    hide LinesOk, Whole, Apart, LineEnd;
    if text == "" {
      NoLines();
    } else {
      var n := LineEnd(text);
      FirstIsWhole(text);
      ConcatSplit(text[n..]);
      assert text[..n] + text[n..] == text;
      LinesCons(text[..n], SplitLines(text[n..]));
    }
  }

  // ----- the setting

  predicate Blank(c: char) {
    || '\t' <= c <= '\r' || '\U{1C}' <= c <= ' ' || c == '\U{85}' || c == '\U{A0}' || c == '\U{1680}'
    || '\U{2000}' <= c <= '\U{200A}' || c == '\U{2028}' || c == '\U{2029}' || c == '\U{202F}'
    || c == '\U{205F}' || c == '\U{3000}'
  }

  /** The length of the first word. */
  function WordEnd(s: string): (n: nat)
    ensures n <= |s| && (s != "" && !Blank(s[0]) ==> n > 0)
  {
    if s == "" || Blank(s[0]) then 0 else 1 + WordEnd(s[1..])
  }

  /** `str.split()`: the words between blanks. */
  function Words(s: string): seq<string>
    decreases |s|
  {
    if s == "" then []
    else if Blank(s[0]) then Words(s[1..])
    else [s[..WordEnd(s)]] + Words(s[WordEnd(s)..])
  }

  /** `PurePosixPath(...).as_posix()` of an absolute path: exactly two leading slashes are kept. */
  function Posix(path: string): string
    requires "/" <= path
  {
    var parts := Kept(Split(path, '/'));
    (if "//" <= path && !("///" <= path) then "//" else "/") + if parts == [] then "" else Join(parts, '/')
  }

  predicate CanonicalRoot(root: string) {
    "/" <= root && root != "/" && Posix(root) == root && ".." !in Kept(Split(root, '/'))
  }

  predicate NameChar(c: char) {
    'A' <= c <= 'Z' || 'a' <= c <= 'z' || '0' <= c <= '9' || c == '_' || c == '+' || c == '.' || c == '-'
  }

  const OPENING: string := "/build_dir/target-"
  const CLOSING: string := "/root-mvebu"

  predicate EndsWith(s: string, end: string) {
    |s| >= |end| && s[|s| - |end|..] == end
  }

  predicate GoodSuffix(s: string) {
    && OPENING <= s && EndsWith(s, CLOSING) && |s| > |OPENING| + |CLOSING|
    && forall i | |OPENING| <= i < |s| - |CLOSING| :: NameChar(s[i])
  }

  datatype Error = NotOne | Syntax | Inputs | Root | Outside | Rootfs | Roots

  /** What is left of the setting when the root is taken out. */
  datatype Setting = Setting(root: string, suffix: string, ending: string)

  predicate Quotable(value: string) {
    '"' !in value && '\\' !in value
  }

  /** The text between the quotes. */
  function Quoted(line: string): Option<string> {
    var ending := if EndsWith(line, "\n") then "\n" else "";
    var opening := KEY + "\"";
    if !(opening <= line) || |line| < |opening| + 1 + |ending| then None
    else
      var last := |line| - |ending| - 1;
      if line[last] == '"' && Quotable(line[|opening|..last]) then Some(line[|opening|..last]) else None
  }

  function SettingOf(line: string, required: Option<string>): Result<Setting, Error> {
    var value := Quoted(line);
    if value.None? then Failure(Syntax)
    else
      var paths := Words(value.value);
      if |paths| != 2 || !EndsWith(paths[1], BASE) then Failure(Inputs)
      else
        var root := paths[1][..|paths[1]| - |BASE|];
        if !CanonicalRoot(root) then Failure(Root)
        else if required.Some? && root != required.value then Failure(Outside)
        else
          var suffix := if root <= paths[0] then paths[0][|root|..] else paths[0];
          if !GoodSuffix(suffix) then Failure(Rootfs)
          else if paths[0] != root + suffix then Failure(Roots)
          else Success(Setting(root, suffix, if EndsWith(line, "\n") then "\n" else ""))
  }

  function Rebased(x: Setting): string {
    KEY + "\"" + ROOT + x.suffix + " " + ROOT + BASE + "\"" + x.ending
  }

  predicate Setter(line: string) {
    KEY <= line
  }

  /** The lines that start with the key. */
  function Positions(lines: seq<string>): (r: seq<nat>)
    ensures forall i | i in r :: i < |lines| && Setter(lines[i])
  {
    if lines == [] then []
    else
      var n := |lines| - 1;
      Positions(lines[..n]) + if Setter(lines[n]) then [n] else []
  }

  /** The whole text with the root taken out. */
  function Normalized(text: string, required: Option<string>): Result<string, Error> {
    var lines := SplitLines(text);
    var positions := Positions(lines);
    if |positions| != 1 then Failure(NotOne)
    else
      assert positions[0] in positions;
      match SettingOf(lines[positions[0]], required)
      case Failure(e) => Failure(e)
      case Success(x) => Success(Concat(lines[positions[0] := Rebased(x)]))
  }

  // ----- what equal results mean

  /** Line `i`, and no other, is the setting. */
  predicate OnlyAt(lines: seq<string>, i: nat) {
    i < |lines| && forall j | 0 <= j < |lines| :: Setter(lines[j]) <==> j == i
  }

  predicate Nowhere(lines: seq<string>) {
    forall j | 0 <= j < |lines| :: !Setter(lines[j])
  }

  lemma {:induction false} NowhereSnoc(lines: seq<string>)
    requires lines != []
    ensures var n := |lines| - 1; Nowhere(lines) <==> Nowhere(lines[..n]) && !Setter(lines[n])
  {
    hide Setter;
    var n := |lines| - 1;
    assert forall j | 0 <= j < n :: lines[..n][j] == lines[j];
  }

  lemma {:induction false} NoPosition(lines: seq<string>)
    ensures Positions(lines) == [] <==> Nowhere(lines)
    decreases |lines|
  {
    hide Setter, Nowhere;
    if lines == [] {
      assert Nowhere(lines) by { NowhereInNothing(); }
    } else {
      NowhereSnoc(lines);
      NoPosition(lines[..|lines| - 1]);
    }
  }

  lemma {:induction false} NowhereInNothing()
    ensures Nowhere([])
  {
  }

  lemma {:induction false} OnlyAtSnoc(lines: seq<string>, i: nat)
    requires lines != []
    ensures var n := |lines| - 1;
            OnlyAt(lines, i) <==> if Setter(lines[n]) then i == n && Nowhere(lines[..n]) else OnlyAt(lines[..n], i)
  {
    hide Setter;
    var n := |lines| - 1;
    assert forall j | 0 <= j < n :: lines[..n][j] == lines[j];
  }

  lemma {:induction false} OnePosition(lines: seq<string>, i: nat)
    ensures Positions(lines) == [i] <==> OnlyAt(lines, i)
    decreases |lines|
  {
    hide Setter, OnlyAt, Nowhere;
    if lines == [] {
      assert !OnlyAt(lines, i) by { NotInNothing(i); }
    } else {
      var n := |lines| - 1;
      OnlyAtSnoc(lines, i);
      NoPosition(lines[..n]);
      if Setter(lines[n]) {
        assert (Positions(lines[..n]) + [n])[|Positions(lines[..n])|] == n;
      } else {
        OnePosition(lines[..n], i);
      }
    }
  }

  lemma {:induction false} NotInNothing(i: nat)
    ensures !OnlyAt([], i)
  {
  }

  /** The setting stands on line `i` and says `x`. */
  predicate Reads(text: string, required: Option<string>, i: nat, x: Setting) {
    OnlyAt(SplitLines(text), i) && SettingOf(SplitLines(text)[i], required) == Success(x)
  }

  predicate SameElsewhere(k: seq<string>, l: seq<string>, i: nat) {
    |k| == |l| && forall j | 0 <= j < |k| && j != i :: k[j] == l[j]
  }

  /** The two texts are the same outside the setting, and there in the suffix and the line ending. */
  ghost predicate SameButRoot(a: string, b: string, required: Option<string>) {
    exists i, x, y ::
      && Reads(a, None, i, x) && Reads(b, required, i, y)
      && x.suffix == y.suffix && x.ending == y.ending && SameElsewhere(SplitLines(a), SplitLines(b), i)
  }

  predicate NoBreak(s: string) {
    forall c | c in s :: !Break(c)
  }

  lemma {:induction false} WholeLine(s: string, ending: string)
    requires s != "" && NoBreak(s) && (ending == "" || ending == "\n")
    ensures Whole(s + ending)
    decreases |s|
  {
    assert s[0] in s;
    if |s| > 1 {
      assert (s + ending)[1..] == s[1..] + ending;
      assert forall c | c in s[1..] :: c in s;
      WholeLine(s[1..], ending);
    } else if ending == "\n" {
      assert (s + ending)[1..] == "\n";
    } else {
      assert s + ending == s;
    }
  }

  /** Letters, digits and the few signs that the constants are made of. */
  predicate Harmless(c: char) {
    'a' <= c <= 'z' || '@' <= c <= 'Z' || '-' <= c <= '/' || c == '_' || c == '='
  }

  predicate AllHarmless(s: string) {
    forall i | 0 <= i < |s| :: Harmless(s[i])
  }

  lemma {:induction false} KeyIsHarmless()
    ensures AllHarmless(KEY)
  {
  }

  lemma {:induction false} BaseIsHarmless()
    ensures AllHarmless(BASE)
  {
    FolderIsHarmless();
    NameIsHarmless();
  }

  lemma {:induction false} FolderIsHarmless()
    ensures AllHarmless(FOLDER)
  {
  }

  lemma {:induction false} NameIsHarmless()
    ensures AllHarmless("/initramfs-base-files.txt")
  {
  }

  lemma {:induction false} RootIsHarmless()
    ensures AllHarmless(ROOT)
  {
  }

  lemma {:induction false} OpeningIsHarmless()
    ensures AllHarmless(OPENING)
  {
  }

  lemma {:induction false} ClosingIsHarmless()
    ensures AllHarmless(CLOSING)
  {
  }

  lemma {:induction false} HarmlessText(s: string)
    requires AllHarmless(s)
    ensures NoBreak(s) && NoBlank(s) && Quotable(s)
  {
  }

  lemma {:induction false} ConstantsHaveNoBreak()
    ensures NoBreak(KEY) && NoBreak(ROOT) && NoBreak(BASE)
  {
    hide KEY, ROOT, BASE, AllHarmless, NoBreak;
    KeyIsHarmless();
    RootIsHarmless();
    BaseIsHarmless();
    HarmlessText(KEY);
    HarmlessText(ROOT);
    HarmlessText(BASE);
  }

  lemma {:induction false} SuffixIsPlain(s: string)
    requires GoodSuffix(s)
    ensures NoBreak(s) && NoBlank(s) && Quotable(s)
  {
    hide OPENING, CLOSING, AllHarmless;
    OpeningIsHarmless();
    ClosingIsHarmless();
    HarmlessText(OPENING);
    HarmlessText(CLOSING);
    forall i | 0 <= i < |s| ensures !Break(s[i]) && !Blank(s[i]) && s[i] != '"' && s[i] != '\\' {
      if i < |OPENING| {
        assert s[i] == OPENING[i];
      } else if i >= |s| - |CLOSING| {
        assert s[i] == s[|s| - |CLOSING|..][i - (|s| - |CLOSING|)];
      }
    }
  }

  /** The rebased text up to its line ending. */
  function Core(suffix: string): string {
    KEY + "\"" + ROOT + suffix + " " + ROOT + BASE + "\""
  }

  lemma {:induction false} CoreHasNoBreak(suffix: string)
    requires GoodSuffix(suffix)
    ensures NoBreak(Core(suffix))
  {
    hide KEY, ROOT, BASE;
    ConstantsHaveNoBreak();
    SuffixIsPlain(suffix);
    forall c | c in Core(suffix) ensures !Break(c) {
      assert c in KEY || c in ROOT || c in suffix || c in BASE || c == '"' || c == ' ';
    }
  }

  /** An accepted setting line, and its rebased form, start alike and end alike. */
  lemma {:induction false} RebasedFits(line: string, required: Option<string>, rest: string)
    requires SettingOf(line, required).Success? && line != "" && Apart(line, rest)
    ensures var x := SettingOf(line, required).value;
            && Whole(Rebased(x)) && Apart(Rebased(x), rest)
            && KEY <= line && KEY <= Rebased(x) && Rebased(x)[0] == line[0]
            && (x.ending == "" || x.ending == "\n") && GoodSuffix(x.suffix)
  {
    hide GoodSuffix, CanonicalRoot, Words, Quotable, BASE, ROOT;
    var x := SettingOf(line, required).value;
    assert Rebased(x) == Core(x.suffix) + x.ending;
    CoreHasNoBreak(x.suffix);
    WholeLine(Core(x.suffix), x.ending);
  }

  /** Replacing the setting line leaves everything else a line of its own. */
  lemma {:induction false} ReplacedLines(lines: seq<string>, i: nat, r: string)
    requires LinesOk(lines) && i < |lines| && Whole(r) && lines[i] != "" && r[0] == lines[i][0]
    requires Apart(r, Concat(lines[i + 1..]))
    ensures LinesOk(lines[i := r])
    ensures Concat(lines) != "" && Concat(lines[i := r]) != "" && Concat(lines)[0] == Concat(lines[i := r])[0]
    decreases |lines|
  {
    var all := lines[i := r];
    if i == 0 {
      assert all[1..] == lines[1..];
    } else {
      ReplacedLines(lines[1..], i - 1, r);
      assert lines[1..][i - 1 + 1..] == lines[i + 1..];
      assert all[1..] == lines[1..][i - 1 := r];
    }
  }

  lemma {:induction false} RestApart(lines: seq<string>, i: nat)
    requires LinesOk(lines) && i < |lines|
    ensures lines[i] != "" && Apart(lines[i], Concat(lines[i + 1..]))
    decreases |lines|
  {
    if i > 0 {
      RestApart(lines[1..], i - 1);
      assert lines[1..][i - 1 + 1..] == lines[i + 1..];
    }
  }

  /** What an accepted text consists of, and that its rebased form splits into the same lines but one. */
  lemma {:induction false} NormalizedLines(text: string, required: Option<string>) returns (i: nat, x: Setting)
    requires Normalized(text, required).Success?
    ensures Reads(text, required, i, x)
    ensures var lines := SplitLines(text);
            && SplitLines(Normalized(text, required).value) == lines[i := Rebased(x)]
            && OnlyAt(lines[i := Rebased(x)], i)
            && (x.ending == "" || x.ending == "\n")
  {
    hide KEY, Rebased, Whole, Apart, SettingOf, Concat;
    var lines := SplitLines(text);
    ConcatSplit(text);
    i := Positions(lines)[0];
    OnePosition(lines, i);
    x := SettingOf(lines[i], required).value;
    RestApart(lines, i);
    RebasedFits(lines[i], required, Concat(lines[i + 1..]));
    ReplacedLines(lines, i, Rebased(x));
    SplitConcat(lines[i := Rebased(x)]);
  }

  /** The characters of a text in four parts. */
  lemma {:induction false} FourParts(p: string, m: string, q: string, ending: string)
    requires q != "" && |ending| <= 1
    ensures var a := p + m + q + ending;
            && |a| == |p| + |m| + |q| + |ending| && a[|p|..|p| + |m|] == m
            && a[|a| - 1] == if ending == "" then q[|q| - 1] else ending[0]
  {
  }

  lemma {:induction false} RebasedParts(x: Setting)
    ensures Rebased(x) == (KEY + "\"" + ROOT) + x.suffix + (" " + ROOT + BASE + "\"") + x.ending
  {
    hide KEY, ROOT, BASE;
  }

  lemma {:induction false} RebasedIsInjective(x: Setting, y: Setting)
    requires (x.ending == "" || x.ending == "\n") && (y.ending == "" || y.ending == "\n") && Rebased(x) == Rebased(y)
    ensures x.suffix == y.suffix && x.ending == y.ending
  {
    hide KEY, ROOT, BASE, Rebased;
    var p, q := KEY + "\"" + ROOT, " " + ROOT + BASE + "\"";
    assert q[|q| - 1] == '"';
    RebasedParts(x);
    RebasedParts(y);
    FourParts(p, x.suffix, q, x.ending);
    FourParts(p, y.suffix, q, y.ending);
  }

  /**
    Two accepted configurations compare equal exactly when they agree on every line but the
    setting, and there in the path below the root and in the line ending: different roots are
    identified, and nothing else is.
   */
  lemma {:induction false} EqualExactly(a: string, b: string, required: Option<string>)
    ensures Normalized(a, None).Success? && Normalized(b, required).Success? ==>
              (Normalized(a, None) == Normalized(b, required) <==> SameButRoot(a, b, required))
  {
    hide Normalized, SameButRoot;
    if Normalized(a, None).Success? && Normalized(b, required).Success? {
      EqualAccepted(a, b, required);
    }
  }

  lemma {:induction false} EqualAccepted(a: string, b: string, required: Option<string>)
    requires Normalized(a, None).Success? && Normalized(b, required).Success?
    ensures Normalized(a, None) == Normalized(b, required) <==> SameButRoot(a, b, required)
  {
    hide Normalized, SplitLines, Rebased, SettingOf, Setter;
    var i, x := NormalizedLines(a, None);
    var j, y := NormalizedLines(b, required);
    var k, l := SplitLines(a), SplitLines(b);
    if Normalized(a, None) == Normalized(b, required) {
      assert k[i := Rebased(x)] == l[j := Rebased(y)];
      OnlyOnce(k[i := Rebased(x)], i, j);
      assert k[i := Rebased(x)][i] == Rebased(x) && l[j := Rebased(y)][j] == Rebased(y);
      RebasedIsInjective(x, y);
      forall m | 0 <= m < |k| && m != i ensures k[m] == l[m] {
        assert k[i := Rebased(x)][m] == l[i := Rebased(y)][m];
      }
      assert SameElsewhere(k, l, i);
    }
    if SameButRoot(a, b, required) {
      var n, u, v :| Reads(a, None, n, u) && Reads(b, required, n, v)
                  && u.suffix == v.suffix && u.ending == v.ending && SameElsewhere(k, l, n);
      assert n == i == j && u == x && v == y;
      assert Rebased(x) == Rebased(y) by { SameRebased(x, y); }
      assert k[i := Rebased(x)] == l[i := Rebased(x)];
      SplitIsInjective(a, b, None, required);
    }
  }

  lemma {:induction false} OnlyOnce(lines: seq<string>, i: nat, j: nat)
    requires OnlyAt(lines, i) && OnlyAt(lines, j)
    ensures i == j
  {
    assert Setter(lines[i]);
  }

  lemma {:induction false} SameRebased(x: Setting, y: Setting)
    requires x.suffix == y.suffix && x.ending == y.ending
    ensures Rebased(x) == Rebased(y)
  {
  }

  lemma {:induction false} SplitIsInjective(a: string, b: string, p: Option<string>, q: Option<string>)
    requires Normalized(a, p).Success? && Normalized(b, q).Success?
    requires SplitLines(Normalized(a, p).value) == SplitLines(Normalized(b, q).value)
    ensures Normalized(a, p) == Normalized(b, q)
  {
    hide Normalized, SplitLines;
    ConcatSplit(Normalized(a, p).value);
    ConcatSplit(Normalized(b, q).value);
  }

  // ----- every root is accepted and identified

  predicate NoBlank(s: string) {
    forall c | c in s :: !Blank(c)
  }

  /** A root that can be written into the setting. */
  predicate UsableRoot(root: string) {
    CanonicalRoot(root) && NoBlank(root) && Quotable(root)
  }

  lemma {:induction false} WordStops(w: string, rest: string)
    requires NoBlank(w) && (rest == "" || Blank(rest[0]))
    ensures WordEnd(w + rest) == |w|
    decreases |w|
  {
    if w == "" {
      assert w + rest == rest;
    } else {
      assert w[0] in w;
      assert (w + rest)[1..] == w[1..] + rest;
      assert forall c | c in w[1..] :: c in w;
      WordStops(w[1..], rest);
    }
  }

  lemma {:induction false} FirstWord(w: string, rest: string)
    requires w != "" && NoBlank(w) && (rest == "" || Blank(rest[0]))
    ensures Words(w + rest) == [w] + Words(rest)
  {
    hide Blank, WordEnd;
    assert w[0] in w;
    WordStops(w, rest);
    assert (w + rest)[..|w|] == w && (w + rest)[|w|..] == rest;
  }

  lemma {:induction false} TwoWords(u: string, v: string)
    requires u != "" && v != "" && NoBlank(u) && NoBlank(v)
    ensures Words(u + ([' '] + v)) == [u, v]
  {
    hide Blank, WordEnd, NoBlank;
    assert Blank(' ') by { SpaceIsBlank(); }
    var rest := [' '] + v;
    FirstWord(u, rest);
    assert Words(rest) == Words(v) by { assert rest[1..] == v; }
    FirstWord(v, "");
    assert v + "" == v;
  }

  lemma {:induction false} SpaceIsBlank()
    ensures Blank(' ')
  {
  }

  /** A setting as a build under `x.root` writes it. */
  function Written(x: Setting): string {
    (KEY + "\"") + ((x.root + x.suffix + ([' '] + (x.root + BASE))) + ("\"" + x.ending))
  }

  lemma {:induction false} Enclosed(opening: string, value: string, ending: string)
    requires ending == "" || ending == "\n"
    ensures var line := opening + (value + ("\"" + ending));
            && opening <= line && |line| == |opening| + |value| + 1 + |ending|
            && line[|opening|..|opening| + |value|] == value && line[|opening| + |value|] == '"'
            && (EndsWith(line, "\n") <==> ending == "\n")
  {
    var line := opening + (value + ("\"" + ending));
    assert line[|line| - 1..] == [line[|line| - 1]];
  }

  lemma {:induction false} WrittenIsQuoted(x: Setting)
    requires x.ending == "" || x.ending == "\n"
    requires Quotable(x.root + x.suffix + ([' '] + (x.root + BASE)))
    ensures Quoted(Written(x)) == Some(x.root + x.suffix + ([' '] + (x.root + BASE)))
    ensures EndsWith(Written(x), "\n") <==> x.ending == "\n"
  {
    hide KEY, BASE, Quotable, EndsWith;
    var value := x.root + x.suffix + ([' '] + (x.root + BASE));
    Enclosed(KEY + "\"", value, x.ending);
  }

  /** Any usable root is recognised again, with the suffix and the ending it was written with. */
  lemma {:induction false} WrittenIsRead(x: Setting, required: Option<string>)
    requires UsableRoot(x.root) && GoodSuffix(x.suffix) && (x.ending == "" || x.ending == "\n")
    requires required == None || required == Some(x.root)
    ensures SettingOf(Written(x), required) == Success(x)
  {
    hide BASE, KEY, CanonicalRoot, GoodSuffix, Written, Quoted, Words;
    BaseIsHarmless();
    HarmlessText(BASE);
    SuffixIsPlain(x.suffix);
    var u, v := x.root + x.suffix, x.root + BASE;
    assert x.root != "" by { RootIsNotEmpty(x.root); }
    WrittenIsQuoted(x);
    TwoWords(u, v);
    assert EndsWith(v, BASE) && v[..|v| - |BASE|] == x.root;
    assert x.root <= u && u[|x.root|..] == x.suffix;
  }

  lemma {:induction false} RootIsNotEmpty(root: string)
    requires CanonicalRoot(root)
    ensures root != ""
  {
  }

  lemma {:induction false} WrittenFits(x: Setting)
    requires UsableRoot(x.root) && GoodSuffix(x.suffix) && (x.ending == "" || x.ending == "\n")
    ensures Whole(Written(x)) && Setter(Written(x))
    ensures forall rest | x.ending == "\n" || rest == "" :: Apart(Written(x), rest)
  {
    hide BASE, CanonicalRoot, GoodSuffix, KEY;
    KeyIsHarmless();
    HarmlessText(KEY);
    BaseIsHarmless();
    HarmlessText(BASE);
    SuffixIsPlain(x.suffix);
    var core := (KEY + "\"") + ((x.root + x.suffix + ([' '] + (x.root + BASE))) + "\"");
    assert core + x.ending == Written(x);
    forall c | c in core ensures !Break(c) {
      assert c in KEY || c in x.root || c in x.suffix || c in BASE || c == '"' || c == ' ';
    }
    WholeLine(core, x.ending);
  }

  /** The setting as the only line is accepted, under any usable root, and normalises to one text for all of them. */
  lemma {:induction false} WrittenIsAccepted(x: Setting)
    requires UsableRoot(x.root) && GoodSuffix(x.suffix) && (x.ending == "" || x.ending == "\n")
    ensures Normalized(Written(x), Some(x.root)) == Success(Rebased(x))
  {
    hide SettingOf, Concat, Rebased, Whole, GoodSuffix, Written, UsableRoot, Setter;
    WrittenFits(x);
    WrittenIsRead(x, Some(x.root));
    OneLine(Written(x));
    OnePosition([Written(x)], 0);
    assert [Written(x)][0 := Rebased(x)] == [Rebased(x)];
    assert Concat([Rebased(x)]) == Rebased(x) by { OnlyLine(Rebased(x)); }
  }

  lemma {:induction false} OneLine(line: string)
    requires Whole(line)
    ensures SplitLines(line) == [line]
  {
    hide LineEnd;
    assert line[..|line|] == line && line[|line|..] == "";
    NoLines();
  }

  lemma {:induction false} OnlyLine(line: string)
    ensures Concat([line]) == line
  {
    assert [line][1..] == [];
    NoLines();
  }

  /** The same configuration, built under another root. */
  function Relocated(text: string, i: nat, x: Setting): string
    requires i < |SplitLines(text)|
  {
    Concat(SplitLines(text)[i := Written(x)])
  }

  /** Moving an accepted configuration to any usable root gives one that is accepted there and compares equal. */
  lemma {:induction false} RelocationComparesEqual(text: string, i: nat, x: Setting, root: string)
    ensures Normalized(text, None).Success? && Reads(text, None, i, x) && UsableRoot(root) ==>
              Normalized(Relocated(text, i, x.(root := root)), Some(root)) == Normalized(text, None)
  {
    hide Normalized, UsableRoot, Relocated, OnlyAt, SettingOf, SplitLines;
    if Normalized(text, None).Success? && Reads(text, None, i, x) && UsableRoot(root) {
      RelocatedAccepted(text, i, x, root);
    }
  }

  lemma {:induction false} RelocatedAccepted(text: string, i: nat, x: Setting, root: string)
    requires Normalized(text, None).Success? && Reads(text, None, i, x) && UsableRoot(root)
    ensures Normalized(Relocated(text, i, x.(root := root)), Some(root)) == Normalized(text, None)
  {
    hide SplitLines, SettingOf, KEY, Concat, Rebased, Apart, Whole, GoodSuffix, Written, UsableRoot;
    var lines := SplitLines(text);
    var y := x.(root := root);
    var moved := lines[i := Written(y)];
    ConcatSplit(text);
    RestApart(lines, i);
    RebasedFits(lines[i], None, Concat(lines[i + 1..]));
    OnePosition(lines, i);
    WrittenFits(y);
    WrittenIsRead(y, Some(root));
    EndingFits(lines[i], x, Concat(lines[i + 1..]));
    SameStart(Written(y), lines[i]);
    ReplacedLines(lines, i, Written(y));
    SplitConcat(moved);
    assert OnlyAt(moved, i);
    OnePosition(moved, i);
    assert moved[i := Rebased(y)] == lines[i := Rebased(x)] by { SameRebased(x, y); }
  }

  lemma {:induction false} SameStart(a: string, b: string)
    requires Setter(a) && Setter(b)
    ensures a != "" && b != "" && a[0] == b[0]
  {
  }

  /** Without a line feed of its own the setting is the end of the text. */
  lemma {:induction false} EndingFits(line: string, x: Setting, rest: string)
    requires SettingOf(line, None) == Success(x) && Apart(line, rest)
    ensures x.ending == "\n" || rest == ""
  {
    hide GoodSuffix, CanonicalRoot, Words, Quotable, BASE;
  }

  // ----- the report

  datatype Report = Report(valid: bool, same: bool)

  /** `same` is the program's `match`. */
  method CompareConfigs(expected: string, actual: string, root: string) returns (r: Report)
    ensures r.valid <==> Normalized(expected, None).Success? && Normalized(actual, Some(root)).Success?
    ensures r.same <==> r.valid && SameButRoot(expected, actual, Some(root))
  {
    hide Normalized, SameButRoot;
    r := Report(false, false);
    var left := Normalized(expected, None);
    if left.Failure? {
      return r;
    }
    var right := Normalized(actual, Some(root));
    if right.Failure? {
      return r;
    }
    EqualAccepted(expected, actual, Some(root));
    r := r.(valid := true);
    r := r.(same := left.value == right.value);
  }
}
