/** Exactly which lines, roots and settings a kernel configuration is read as. */
module ConfigSetting {
  import opened Results
  import opened Paths
  import opened KernelConfig

  // ----- lines

  /** The characters at which Python ends a line. */
  predicate EndsLine(c: char) {
    c in {'\n', '\r', '\U{0B}', '\U{0C}', '\U{1C}', '\U{1D}', '\U{1E}', '\U{85}', '\U{2028}', '\U{2029}'}
  }

  lemma {:induction false} BreakExactly(c: char)
    ensures Break(c) <==> EndsLine(c)
  {
    if '\n' <= c <= '\r' {
      assert c as int == 10 || c as int == 11 || c as int == 12 || c as int == 13;
      assert c == '\n' || c == '\U{0B}' || c == '\U{0C}' || c == '\r';
    }
    if '\U{1C}' <= c <= '\U{1E}' {
      assert c as int == 28 || c as int == 29 || c as int == 30;
      assert c == '\U{1C}' || c == '\U{1D}' || c == '\U{1E}';
    }
  }

  /** Text without an end of line in it, and possibly one end behind it. */
  predicate IsLine(line: string) {
    && line != ""
    && forall i | 0 <= i < |line| && EndsLine(line[i]) ::
         i == |line| - 1 || (i == |line| - 2 && line[i] == '\r' && line[i + 1] == '\n')
  }

  /** The line is complete, and what follows does not belong to its end. */
  predicate Ended(line: string, next: string) {
    line != "" && EndsLine(line[|line| - 1]) && !(line[|line| - 1] == '\r' && next != "" && next[0] == '\n')
  }

  lemma {:induction false} WholeIsLine(line: string)
    requires line != ""
    ensures Whole(line) <==> IsLine(line)
    decreases |line|
  {
    hide EndsLine, Break;
    BreakExactly(line[0]);
    if |line| > 1 {
      var rest := line[1..];
      BreakExactly(rest[0]);
      WholeIsLine(rest);
      TailIsLine(line);
    }
  }

  lemma {:induction false} TailIsLine(line: string)
    requires |line| > 1
    ensures IsLine(line) <==>
            if EndsLine(line[0]) then |line| == 2 && line[0] == '\r' && line[1] == '\n' else IsLine(line[1..])
  {
    hide EndsLine;
    var rest := line[1..];
    if !EndsLine(line[0]) && IsLine(rest) {
      forall i | 0 <= i < |line| && EndsLine(line[i])
        ensures i == |line| - 1 || (i == |line| - 2 && line[i] == '\r' && line[i + 1] == '\n')
      {
        assert rest[i - 1] == line[i];
      }
    }
    if IsLine(line) && !EndsLine(line[0]) {
      forall i | 0 <= i < |rest| && EndsLine(rest[i])
        ensures i == |rest| - 1 || (i == |rest| - 2 && rest[i] == '\r' && rest[i + 1] == '\n')
      {
        assert rest[i] == line[i + 1];
      }
    }
  }

  /** A text splits into lines that make it up again, each ended except perhaps the last. */
  lemma {:induction false} LinesExactly(text: string)
    ensures var lines := SplitLines(text);
            && Concat(lines) == text
            && (forall i | 0 <= i < |lines| :: IsLine(lines[i]))
            && (forall i | 0 <= i < |lines| - 1 :: Ended(lines[i], lines[i + 1]))
  {
    ConcatSplit(text);
    LinesAre(SplitLines(text));
  }

  lemma {:induction false} LinesAre(lines: seq<string>)
    requires LinesOk(lines)
    ensures forall i | 0 <= i < |lines| :: IsLine(lines[i])
    ensures forall i | 0 <= i < |lines| - 1 :: Ended(lines[i], lines[i + 1])
    decreases |lines|
  {
    hide IsLine, Break, EndsLine, LineEnd;
    if lines != [] {
      var rest := lines[1..];
      LinesAre(rest);
      WholeIsLine(lines[0]);
      BreakExactly(lines[0][|lines[0]| - 1]);
      forall i | 0 <= i < |lines| ensures IsLine(lines[i]) {
        assert i > 0 ==> lines[i] == rest[i - 1];
      }
      forall i | 0 <= i < |lines| - 1 ensures Ended(lines[i], lines[i + 1]) {
        if i > 0 {
          assert lines[i] == rest[i - 1] && lines[i + 1] == rest[i];
        } else {
          assert Concat(rest) == rest[0] + Concat(rest[1..]);
        }
      }
    }
  }

  // ----- the root

  /** The components of a root as it has to be written. */
  predicate Proper(parts: seq<string>) {
    parts != [] && forall c | c in parts :: c != "" && c != "." && c != ".." && '/' !in c
  }

  /** With one slash in front or two, which are not the same; three would be one again. */
  ghost predicate WrittenRoot(root: string) {
    root == "//" || exists parts :: Proper(parts) && (root == "/" + Join(parts, '/') || root == "//" + Join(parts, '/'))
  }

  /** A root is accepted exactly if nothing in it could be left out and it does not climb. */
  lemma {:induction false} RootExactly(root: string)
    ensures CanonicalRoot(root) <==> WrittenRoot(root)
  {
    hide Split, Kept, Join;
    if CanonicalRoot(root) {
      var parts := Kept(Split(root, '/'));
      KeptParts(Split(root, '/'));
      SplitParts(root, '/');
      if parts == [] {
        assert Posix(root) == "/" || Posix(root) == "//" by { assert "/" + "" == "/" && "//" + "" == "//"; }
      } else {
        assert Proper(parts);
        assert root == "/" + Join(parts, '/') || root == "//" + Join(parts, '/');
      }
    }
    if root == "//" {
      DoubleSlash();
    } else if WrittenRoot(root) {
      var parts :| Proper(parts) && (root == "/" + Join(parts, '/') || root == "//" + Join(parts, '/'));
      ProperRoot(parts, root);
    }
  }

  lemma {:induction false} DoubleSlash()
    ensures CanonicalRoot("//")
  {
    assert Split("", '/') == [""];
    assert Split("/", '/') == ["", ""] by { assert "/"[1..] == ""; }
    assert Split("//", '/') == ["", "", ""] by { assert "//"[1..] == "/"; }
    assert ["", "", ""][1..] == ["", ""] && ["", ""][1..] == [""] && [""][1..] == [];
    assert Kept(["", "", ""]) == [];
    assert "//" + "" == "//";
  }

  lemma {:induction false} ProperStart(parts: seq<string>)
    requires Proper(parts)
    ensures Join(parts, '/') != "" && Join(parts, '/')[0] != '/'
  {
    assert parts[0] in parts && parts[0][0] in parts[0];
  }

  lemma {:induction false} ProperRoot(parts: seq<string>, root: string)
    requires Proper(parts) && (root == "/" + Join(parts, '/') || root == "//" + Join(parts, '/'))
    ensures CanonicalRoot(root)
  {
    hide Join;
    var body := Join(parts, '/');
    ProperStart(parts);
    SplitJoin(parts, '/');
    AllKept(parts);
    assert ("/" + body)[1..] == body && Split("/" + body, '/') == [""] + parts;
    assert ([""] + parts)[1..] == parts && Kept([""] + parts) == parts;
    if root == "//" + body {
      assert root[1..] == "/" + body && Split(root, '/') == [""] + ([""] + parts);
      assert ([""] + ([""] + parts))[1..] == [""] + parts;
      assert root[2] == body[0];
    } else {
      assert root[1] == body[0];
    }
  }

  // ----- the path below the root

  const CAPITALS: string := "ABCDEFGHIJKLMNOPQRSTUVWXYZ"
  const LETTERS: string := "abcdefghijklmnopqrstuvwxyz"
  const FIGURES: string := "0123456789"

  lemma {:induction false} Capital(c: char)
    ensures 'A' <= c <= 'Z' <==> c in CAPITALS
  {
    assert forall i | 0 <= i < 26 :: CAPITALS[i] as int == 'A' as int + i;
    if 'A' <= c <= 'Z' {
      assert CAPITALS[c as int - 'A' as int] == c;
    }
  }

  lemma {:induction false} Letter(c: char)
    ensures 'a' <= c <= 'z' <==> c in LETTERS
  {
    assert forall i | 0 <= i < 26 :: LETTERS[i] as int == 'a' as int + i;
    if 'a' <= c <= 'z' {
      assert LETTERS[c as int - 'a' as int] == c;
    }
  }

  lemma {:induction false} Figure(c: char)
    ensures '0' <= c <= '9' <==> c in FIGURES
  {
    assert forall i | 0 <= i < 10 :: FIGURES[i] as int == '0' as int + i;
    if '0' <= c <= '9' {
      assert FIGURES[c as int - '0' as int] == c;
    }
  }

  /** A letter, a figure, or one of four signs. */
  predicate IsAllowed(c: char) {
    c in CAPITALS || c in LETTERS || c in FIGURES || c in {'_', '+', '.', '-'}
  }

  lemma {:induction false} NameCharExactly(c: char)
    ensures NameChar(c) <==> IsAllowed(c)
  {
    Capital(c);
    Letter(c);
    Figure(c);
    hide CAPITALS, LETTERS, FIGURES;
  }

  const TARGETS: string := "/build_dir/target-"
  const ROOTS: string := "/root-mvebu"

  lemma {:induction false} TargetsAndRoots()
    ensures OPENING == TARGETS && CLOSING == ROOTS
  {
  }

  predicate NamesTarget(m: string) {
    m != "" && forall c | c in m :: IsAllowed(c)
  }

  lemma {:induction false} SuffixHasName(s: string)
    requires GoodSuffix(s)
    ensures exists m: string :: NamesTarget(m) && s == OPENING + m + CLOSING
  {
    hide OPENING, CLOSING, IsAllowed, NameChar;
    var m := s[|OPENING|..|s| - |CLOSING|];
    forall c | c in m ensures IsAllowed(c) {
      var i :| 0 <= i < |m| && m[i] == c;
      assert s[|OPENING| + i] == c;
      NameCharExactly(c);
    }
    assert s == OPENING + m + CLOSING;
  }

  lemma {:induction false} NameMakesSuffix(s: string, m: string)
    requires NamesTarget(m) && s == OPENING + m + CLOSING
    ensures GoodSuffix(s)
  {
    hide OPENING, CLOSING, IsAllowed, NameChar;
    forall i | |OPENING| <= i < |s| - |CLOSING| ensures NameChar(s[i]) {
      assert s[i] == m[i - |OPENING|] && m[i - |OPENING|] in m;
      NameCharExactly(s[i]);
    }
  }

  /** What the regular expression for the first path says, piece by piece. */
  lemma {:induction false} SuffixExactly(s: string)
    ensures GoodSuffix(s) <==> exists m: string :: NamesTarget(m) && s == TARGETS + m + ROOTS
  {
    hide OPENING, CLOSING, TARGETS, ROOTS, NamesTarget, GoodSuffix;
    TargetsAndRoots();
    if GoodSuffix(s) {
      SuffixHasName(s);
    }
    if m: string :| NamesTarget(m) && s == TARGETS + m + ROOTS {
      NameMakesSuffix(s, m);
    }
  }

  // ----- two words

  /** The characters at which Python splits words. */
  lemma {:induction false} BlankExactly(c: char)
    ensures Blank(c) <==> c as int in {9, 10, 11, 12, 13, 28, 29, 30, 31, 32, 0x85, 0xA0, 0x1680,
                                       0x2000, 0x2001, 0x2002, 0x2003, 0x2004, 0x2005, 0x2006, 0x2007, 0x2008, 0x2009,
                                       0x200A, 0x2028, 0x2029, 0x202F, 0x205F, 0x3000}
  {
  }

  predicate AllBlank(s: string) {
    forall c | c in s :: Blank(c)
  }

  predicate IsWord(s: string) {
    s != "" && NoBlank(s)
  }

  lemma {:induction false} BlanksInFront(b: string, s: string)
    requires AllBlank(b)
    ensures Words(b + s) == Words(s)
    decreases |b|
  {
    hide Blank, WordEnd;
    if b == "" {
      assert b + s == s;
    } else {
      assert b[0] in b && forall c | c in b[1..] :: c in b;
      assert (b + s)[1..] == b[1..] + s;
      BlanksInFront(b[1..], s);
    }
  }

  /** The front of a text up to its first word, and that word. */
  lemma {:induction false} TakesWord(s: string) returns (b: string, w: string, rest: string)
    requires Words(s) != []
    ensures s == b + w + rest && AllBlank(b) && IsWord(w) && (rest == "" || Blank(rest[0]))
    ensures Words(s) == [w] + Words(rest)
    decreases |s|
  {
    hide Blank, WordEnd, IsWord, AllBlank, NoBlank;
    if Blank(s[0]) {
      b, w, rest := TakesWord(s[1..]);
      OneBlankMore(s[0], b);
      assert s == [s[0]] + s[1..];
      b := [s[0]] + b;
    } else {
      b, w, rest := "", s[..WordEnd(s)], s[WordEnd(s)..];
      WordEndsThere(s);
      assert IsWord(w) && AllBlank("") by { FirstIsWord(s); }
    }
  }

  lemma {:induction false} OneBlankMore(c: char, b: string)
    requires Blank(c) && AllBlank(b)
    ensures AllBlank([c] + b)
  {
    hide Blank;
  }

  lemma {:induction false} FirstIsWord(s: string)
    requires s != "" && !Blank(s[0])
    ensures IsWord(s[..WordEnd(s)]) && AllBlank("")
  {
    hide Blank;
    WordEndsThere(s);
  }

  lemma {:induction false} WordEndsThere(s: string)
    ensures var n := WordEnd(s); NoBlank(s[..n]) && (s[n..] == "" || Blank(s[n..][0]))
    decreases |s|
  {
    hide Blank;
    if s != "" && !Blank(s[0]) {
      var n := WordEnd(s[1..]);
      WordEndsThere(s[1..]);
      assert s[..n + 1] == [s[0]] + s[1..][..n] && s[n + 1..] == s[1..][n..];
    }
  }

  lemma {:induction false} NoWordsLeft(s: string)
    requires Words(s) == []
    ensures AllBlank(s)
    decreases |s|
  {
    hide Blank, WordEnd;
    if s != "" {
      NoWordsLeft(s[1..]);
      assert s == [s[0]] + s[1..];
    }
  }

  /** Two words with blanks between them, and perhaps around them. */
  ghost predicate TwoIn(s: string, u: string, v: string) {
    && IsWord(u) && IsWord(v)
    && exists a, b, c :: AllBlank(a) && AllBlank(b) && AllBlank(c) && b != "" && s == a + u + b + v + c
  }

  lemma {:induction false} TwoWordsExactly(s: string, u: string, v: string)
    ensures Words(s) == [u, v] <==> TwoIn(s, u, v)
  {
    hide Blank, Words, NoBlank;
    if Words(s) == [u, v] {
      var a, w, rest := TakesWord(s);
      assert w == ([w] + Words(rest))[0] == u && Words(rest) == ([w] + Words(rest))[1..] == [u, v][1..] == [v];
      var b, x, last := TakesWord(rest);
      assert x == ([x] + Words(last))[0] == v && Words(last) == ([x] + Words(last))[1..] == [v][1..] == [];
      NoWordsLeft(last);
      assert s == a + u + b + v + last;
      assert b != "" by { Separated(rest, b, v, last); }
    }
    if TwoIn(s, u, v) {
      var a, b, c :| AllBlank(a) && AllBlank(b) && AllBlank(c) && b != "" && s == a + u + b + v + c;
      assert s == a + (u + (b + (v + c)));
      BlanksInFront(a, u + (b + (v + c)));
      FirstOf(u, b, v + c);
      LastOf(v, c);
    }
  }

  lemma {:induction false} Separated(rest: string, b: string, v: string, last: string)
    requires rest == b + v + last && IsWord(v) && (rest == "" || Blank(rest[0]))
    ensures b != ""
  {
    hide Blank;
    assert (v + last)[0] == v[0] && v[0] in v;
    assert b == "" ==> rest == v + last;
  }

  lemma {:induction false} FirstOf(u: string, b: string, more: string)
    requires IsWord(u) && AllBlank(b) && b != ""
    ensures Words(u + (b + more)) == [u] + Words(more)
  {
    hide Blank, Words;
    assert b[0] in b && (b + more)[0] == b[0];
    FirstWord(u, b + more);
    BlanksInFront(b, more);
  }

  lemma {:induction false} LastOf(v: string, c: string)
    requires IsWord(v) && AllBlank(c)
    ensures Words(v + c) == [v]
  {
    hide Blank, WordEnd;
    if c != "" {
      assert c[0] in c;
    }
    FirstWord(v, c);
    BlanksInFront(c, "");
    assert c + "" == c;
  }

  // ----- the setting

  /** The line as it has to be: a quoted value without quotes or backslashes in it. */
  predicate Quotes(line: string, value: string, ending: string) {
    && line == "CONFIG_INITRAMFS_SOURCE=\"" + value + "\"" + ending
    && '"' !in value && '\\' !in value && (ending == "" || ending == "\n")
  }

  /** A text that begins with `opening` and ends with a quote and `ending` has a value in between. */
  lemma {:induction false} Between(line: string, opening: string, ending: string)
    requires opening <= line && |line| >= |opening| + 1 + |ending| && line[|line| - |ending|..] == ending
    requires line[|line| - |ending| - 1] == '"'
    ensures var last := |line| - |ending| - 1;
            line == opening + line[|opening|..last] + "\"" + ending
  {
    var last := |line| - |ending| - 1;
    assert line == line[..|opening|] + line[|opening|..last] + [line[last]] + line[last + 1..];
  }

  lemma {:induction false} QuotedIsQuotes(line: string, value: string)
    requires Quoted(line) == Some(value)
    ensures Quotes(line, value, if EndsWith(line, "\n") then "\n" else "")
  {
    var opening := "CONFIG_INITRAMFS_SOURCE=\"";
    assert KEY + "\"" == opening;
    hide KEY;
    var ending := if EndsWith(line, "\n") then "\n" else "";
    Between(line, opening, ending);
  }

  lemma {:induction false} QuotesIsQuoted(line: string, value: string, ending: string)
    requires Quotes(line, value, ending)
    ensures Quoted(line) == Some(value)
  {
    var opening := "CONFIG_INITRAMFS_SOURCE=\"";
    assert KEY + "\"" == opening;
    hide KEY, EndsWith;
    assert line == opening + (value + ("\"" + ending));
    Enclosed(opening, value, ending);
  }

  lemma {:induction false} QuotedExactly(line: string, value: string)
    ensures Quoted(line) == Some(value) <==> exists ending | ending in {"", "\n"} :: Quotes(line, value, ending)
  {
    hide Quoted, Quotes, EndsWith;
    if Quoted(line) == Some(value) {
      QuotedIsQuotes(line, value);
    }
    if ending :| ending in {"", "\n"} && Quotes(line, value, ending) {
      QuotesIsQuoted(line, value, ending);
    }
  }

  lemma {:induction false} EndingOf(line: string, value: string, ending: string)
    requires Quotes(line, value, ending)
    ensures ending == if EndsWith(line, "\n") then "\n" else ""
  {
    assert line[|line| - 1..] == [line[|line| - 1]];
    assert line[|line| - 1] == if ending == "" then '"' else '\n';
  }

  const BASE_FILES: string := "/target/linux/generic/image/initramfs-base-files.txt"

  lemma {:induction false} BaseFiles()
    ensures BASE == BASE_FILES
  {
  }

  /**
    A line is read as a setting exactly if it quotes two paths below one canonical root: a root file
    system of the build, and the list of base files. If a root is required, it is that one.
   */
  ghost predicate Means(line: string, required: Option<string>, x: Setting) {
    && WrittenRoot(x.root) && (required.Some? ==> x.root == required.value) && GoodSuffix(x.suffix)
    && exists value :: Quotes(line, value, x.ending) &&
         TwoIn(value, x.root + x.suffix, x.root + BASE_FILES)
  }

  lemma {:induction false} SettingExactly(line: string, required: Option<string>, x: Setting)
    ensures SettingOf(line, required) == Success(x) <==> Means(line, required, x)
  {
    hide BASE, BASE_FILES, Quoted, Words, CanonicalRoot, GoodSuffix, TwoIn, WrittenRoot, Quotes;
    BaseFiles();
    RootExactly(x.root);
    if SettingOf(line, required) == Success(x) {
      SettingMeans(line, required, x);
    }
    if Means(line, required, x) {
      MeansSetting(line, required, x);
    }
  }

  lemma {:induction false} SettingMeans(line: string, required: Option<string>, x: Setting)
    requires SettingOf(line, required) == Success(x)
    ensures CanonicalRoot(x.root) && (required.Some? ==> x.root == required.value) && GoodSuffix(x.suffix)
    ensures exists value :: Quotes(line, value, x.ending) && TwoIn(value, x.root + x.suffix, x.root + BASE)
  {
    hide BASE, Quoted, Words, CanonicalRoot, GoodSuffix, TwoIn, Quotes;
    var value := Quoted(line).value;
    var paths := Words(value);
    assert paths[1] == x.root + BASE by {
      assert paths[1] == paths[1][..|paths[1]| - |BASE|] + paths[1][|paths[1]| - |BASE|..];
    }
    assert paths == [x.root + x.suffix, x.root + BASE];
    TwoWordsExactly(value, x.root + x.suffix, x.root + BASE);
    QuotedExactly(line, value);
    var ending :| ending in {"", "\n"} && Quotes(line, value, ending);
    EndingOf(line, value, ending);
  }

  lemma {:induction false} MeansSetting(line: string, required: Option<string>, x: Setting)
    requires CanonicalRoot(x.root) && (required.Some? ==> x.root == required.value) && GoodSuffix(x.suffix)
    requires exists value :: Quotes(line, value, x.ending) && TwoIn(value, x.root + x.suffix, x.root + BASE)
    ensures SettingOf(line, required) == Success(x)
  {
    hide BASE, Quoted, Words, CanonicalRoot, GoodSuffix, TwoIn;
    var value :| Quotes(line, value, x.ending) && TwoIn(value, x.root + x.suffix, x.root + BASE);
    TwoWordsExactly(value, x.root + x.suffix, x.root + BASE);
    QuotedExactly(line, value);
    EndingOf(line, value, x.ending);
    var u, v := x.root + x.suffix, x.root + BASE;
    assert Words(value)[0] == u && Words(value)[1] == v;
    assert v[|v| - |BASE|..] == BASE && v[..|v| - |BASE|] == x.root;
    assert x.root <= u && u[|x.root|..] == x.suffix;
  }

  const SETTING: string := "CONFIG_INITRAMFS_SOURCE="
  const PLACE: string := "@OPENWRT_SOURCE@"

  lemma {:induction false} SettingAndPlace()
    ensures KEY == SETTING && ROOT == PLACE
  {
  }

  /** What takes the place of an accepted setting line. */
  lemma {:induction false} RebasedExactly(x: Setting)
    ensures Rebased(x) == SETTING + "\"" + PLACE + x.suffix + " " + PLACE + BASE_FILES + "\"" + x.ending
  {
    hide KEY, ROOT, BASE, SETTING, PLACE, BASE_FILES;
    SettingAndPlace();
    BaseFiles();
  }

  /** An accepted text has exactly one setting line, and under a required root that line has that root. */
  lemma {:induction false} AcceptedExactly(text: string, required: Option<string>)
    ensures Normalized(text, required).Success? <==>
            exists i: nat, x :: OnlyAt(SplitLines(text), i) && Means(SplitLines(text)[i], required, x)
  {
    hide Means, SettingOf, SplitLines;
    var lines := SplitLines(text);
    if Normalized(text, required).Success? {
      var i, x := NormalizedLines(text, required);
      SettingExactly(lines[i], required, x);
    }
    if i: nat, x :| OnlyAt(lines, i) && Means(lines[i], required, x) {
      SettingExactly(lines[i], required, x);
      OnePosition(lines, i);
    }
  }
}
