/** The footprint record: nine lines that one program prints and another reads back. */
module FootprintRecord {
  import opened Digits
  import opened KernelFootprint
  import opened Paths

  // ----- the printer

  function Address(n: nat): string {
    "0x" + Hex(n, 8)
  }

  /** A negative number is printed with a minus sign. */
  function Signed(n: int): string {
    if n < 0 then "-" + Decimal(-n) else Decimal(n)
  }

  datatype Field = Field(key: string, value: string)

  function Fields(f: Figures, uimage: nat): seq<Field>
    requires f.decompressorEnd >= 0 && f.end >= 0
  {
    [Field("KERNEL_LOAD_ADDRESS", Address(KERNEL_PHYS)),
     Field("KERNEL_IMAGE_BYTES", Signed(f.image)),
     Field("KERNEL_FOOTPRINT_BYTES", Signed(f.footprint)),
     Field("UIMAGE_BYTES", Signed(uimage)),
     Field("DECOMPRESSOR_SCRATCH_BYTES", Signed(DECOMPRESSOR_SCRATCH)),
     Field("DECOMPRESSOR_END", Address(f.decompressorEnd)),
     Field("KERNEL_WORST_CASE_END", Address(f.end)),
     Field("INITRD_LOAD_ADDRESS", Address(INITRD_LOAD)),
     Field("INITRD_HEADROOM_BYTES", Signed(INITRD_LOAD - f.end))]
  }

  function Line(x: Field): string {
    x.key + ['='] + x.value
  }

  function LinesOf(fields: seq<Field>): (r: seq<string>)
    ensures |r| == |fields| && forall i | 0 <= i < |r| :: r[i] == Line(fields[i])
  {
    if fields == [] then [] else LinesOf(fields[..|fields| - 1]) + [Line(fields[|fields| - 1])]
  }

  /** Lines, each ended by a line feed. */
  function Ended(lines: seq<string>): string {
    if lines == [] then "" else lines[0] + ['\n'] + Ended(lines[1..])
  }

  function Report(f: Figures, uimage: nat): string
    requires f.decompressorEnd >= 0 && f.end >= 0
  {
    Ended(LinesOf(Fields(f, uimage)))
  }

  // ----- the reader

  /** What `read` delivers: the text between line feeds, without an empty piece at the end. */
  function Lines(text: string): seq<string> {
    var parts := Split(text, '\n');
    if parts[|parts| - 1] == "" then parts[..|parts| - 1] else parts
  }

  const BYTES: seq<string> :=
    ["KERNEL_IMAGE_BYTES", "KERNEL_FOOTPRINT_BYTES", "UIMAGE_BYTES", "DECOMPRESSOR_SCRATCH_BYTES",
     "INITRD_HEADROOM_BYTES"]
  const ADDRESSES: seq<string> :=
    ["KERNEL_LOAD_ADDRESS", "DECOMPRESSOR_END", "KERNEL_WORST_CASE_END", "INITRD_LOAD_ADDRESS"]

  /** The text before and after the first "=". */
  function Parsed(line: string): Field
    requires '=' in line
  {
    if line[0] == '=' then Field("", line[1..])
    else
      var rest := Parsed(line[1..]);
      Field([line[0]] + rest.key, rest.value)
  }

  predicate GoodAddress(value: string) {
    |value| >= 2 && value[..2] == "0x" && Hexadecimal(value[2..])
  }

  predicate GoodLine(line: string) {
    && '=' in line
    && var x := Parsed(line);
       || (x.key in BYTES && Numeric(x.value))
       || (x.key in ADDRESSES && GoodAddress(x.value))
  }

  function KeyOf(line: string): string {
    if '=' in line then Parsed(line).key else ""
  }

  predicate NoKeyTwice(lines: seq<string>) {
    forall i, j | 0 <= i < j < |lines| :: KeyOf(lines[i]) != KeyOf(lines[j])
  }

  predicate HasKey(lines: seq<string>, key: string) {
    exists line | line in lines :: KeyOf(line) == key
  }

  /** Every line is well-formed, no key occurs twice, and all nine are there. */
  predicate ValidRecord(lines: seq<string>) {
    && (forall line | line in lines :: GoodLine(line))
    && NoKeyTwice(lines)
    && (forall key | key in BYTES + ADDRESSES :: HasKey(lines, key))
  }

  lemma {:induction false} ParsedIsLine(line: string)
    requires '=' in line
    ensures Line(Parsed(line)) == line && '=' !in Parsed(line).key
    decreases |line|
  {
    if line[0] == '=' {
      assert [] + ['='] + line[1..] == line;
    } else {
      assert line == [line[0]] + line[1..];
      ParsedIsLine(line[1..]);
      LongerKey(line[0], Parsed(line[1..]));
    }
  }

  lemma {:induction false} LongerKey(c: char, x: Field)
    requires c != '=' && '=' !in x.key
    ensures var y := Field([c] + x.key, x.value); Line(y) == [c] + Line(x) && '=' !in y.key
  {
    assert [c] + x.key + ['='] + x.value == [c] + (x.key + ['='] + x.value);
  }

  lemma {:induction false} LineIsParsed(x: Field)
    requires '=' !in x.key
    ensures '=' in Line(x) && Parsed(Line(x)) == x
    decreases |x.key|
  {
    var line := Line(x);
    assert line[|x.key|] == '=';
    if x.key == "" {
      assert line[1..] == x.value;
    } else {
      var y := Field(x.key[1..], x.value);
      LineIsParsed(y);
      assert line[1..] == Line(y);
      assert [x.key[0]] + y.key == x.key;
    }
  }

  // ----- which records are valid, character by character

  predicate DecimalText(value: string) {
    value != "" && forall c | c in value :: c in "0123456789"
  }

  predicate AddressText(value: string) {
    && value != "0x" && "0x" <= value
    && forall c | c in value[2..] :: c in "0123456789abcdef"
  }

  /** One of five keys with a decimal number, or one of four with an address. */
  predicate Matches(key: string, value: string) {
    || (DecimalText(value) && key in {"KERNEL_IMAGE_BYTES", "KERNEL_FOOTPRINT_BYTES", "UIMAGE_BYTES",
                                      "DECOMPRESSOR_SCRATCH_BYTES", "INITRD_HEADROOM_BYTES"})
    || (AddressText(value) && key in {"KERNEL_LOAD_ADDRESS", "DECOMPRESSOR_END", "KERNEL_WORST_CASE_END",
                                      "INITRD_LOAD_ADDRESS"})
  }

  lemma {:induction false} MatchesExactly(x: Field)
    ensures Matches(x.key, x.value) <==>
            (x.key in BYTES && Numeric(x.value)) || (x.key in ADDRESSES && GoodAddress(x.value))
  {
    hide DecimalText, AddressText, GoodAddress, Numeric;
    TextIsValue(x.value);
  }

  /** A line is good exactly if it is a key, a sign, and a complete value of the right kind. */
  lemma {:induction false} GoodLineExactly(line: string)
    ensures GoodLine(line) <==> exists key: string, value: string :: line == key + "=" + value && Matches(key, value)
  {
    hide Matches, GoodAddress, Numeric, BYTES, ADDRESSES;
    if GoodLine(line) {
      var x := Parsed(line);
      ParsedIsLine(line);
      MatchesExactly(x);
      assert line == x.key + "=" + x.value;
    }
    if key: string, value: string :| line == key + "=" + value && Matches(key, value) {
      MatchesExactly(Field(key, value));
      assert PlainKey(key) by { hide PlainKey; KeysArePlain(); assert key in BYTES + ADDRESSES; }
      LineIsParsed(Field(key, value));
    }
  }

  lemma {:induction false} TextIsValue(value: string)
    ensures DecimalText(value) <==> Numeric(value)
    ensures AddressText(value) <==> GoodAddress(value)
  {
    forall c ensures Digit(c) <==> c in "0123456789" {
      DigitExactly(c);
    }
    forall c ensures HexDigit(c) <==> c in "0123456789abcdef" {
      HexDigitExactly(c);
    }
    if "0x" <= value {
      assert value[..2] == "0x" && value == "0x" + value[2..];
      assert value == "0x" <==> value[2..] == "";
    }
  }

  /** The lines of a text have no line feed in them and make it up again, up to one at its end. */
  lemma {:induction false} LinesExactly(text: string)
    ensures forall line | line in Lines(text) :: '\n' !in line
    ensures Ended(Lines(text)) == text || (Ended(Lines(text)) == text + "\n" && text != "" && text[|text| - 1] != '\n')
  {
    var parts := Split(text, '\n');
    SplitParts(text, '\n');
    EndedParts(text);
    var n := |parts| - 1;
    assert parts == parts[..n] + [parts[n]];
    EndedSnoc(parts[..n], parts[n]);
    if parts[n] == "" {
      assert Ended(parts) == Ended(parts[..n]) + "\n" by { assert Ended(parts[..n]) + "" == Ended(parts[..n]); }
      assert Ended(parts[..n]) == (Ended(parts[..n]) + "\n")[..|text|] == (text + "\n")[..|text|] == text;
    } else {
      LastPart(text);
    }
  }

  lemma {:induction false} EndedParts(text: string)
    ensures Ended(Split(text, '\n')) == text + "\n"
    decreases |text|
  {
    var parts := Split(text, '\n');
    if text == "" {
      assert Ended([""]) == "" + ['\n'] + Ended([""][1..]);
    } else {
      var rest := Split(text[1..], '\n');
      EndedParts(text[1..]);
      if text[0] == '\n' {
        assert parts == [[]] + rest && parts[1..] == rest;
      } else {
        assert parts[1..] == rest[1..];
        assert Ended(rest) == rest[0] + ['\n'] + Ended(rest[1..]);
        assert [text[0]] + rest[0] + ['\n'] + Ended(rest[1..]) == [text[0]] + (rest[0] + ['\n'] + Ended(rest[1..]));
      }
      assert [text[0]] + (text[1..] + "\n") == text + "\n";
    }
  }

  /** A text whose last part is not empty does not end with a line feed. */
  lemma {:induction false} LastPart(text: string)
    requires var parts := Split(text, '\n'); parts[|parts| - 1] != ""
    ensures text != "" && text[|text| - 1] != '\n'
    decreases |text|
  {
    var parts := Split(text, '\n');
    assert text != "";
    var rest := Split(text[1..], '\n');
    if |parts| == 1 {
      SplitParts(text, '\n');
      JoinSplit(text, '\n');
      assert parts[0] == text && text[|text| - 1] in text;
    } else {
      if text[0] != '\n' {
        assert parts[|parts| - 1] == rest[|rest| - 1];
      }
      LastPart(text[1..]);
    }
  }

  /** What has been printed, and what has been seen, after some good lines. */
  ghost predicate ReadSoFar(lines: seq<string>, seen: seq<string>, printed: string) {
    && (forall line | line in lines :: GoodLine(line)) && NoKeyTwice(lines)
    && |seen| == |lines| && (forall i | 0 <= i < |lines| :: seen[i] == KeyOf(lines[i]))
    && printed == Ended(lines)
  }

  lemma {:induction false} EndedSnoc(lines: seq<string>, line: string)
    ensures Ended(lines + [line]) == Ended(lines) + line + ['\n']
    decreases |lines|
  {
    if lines == [] {
      assert [] + [line] == [line] && [line][1..] == [];
      assert Ended([line]) == line + ['\n'] + "" == line + ['\n'];
      assert Ended([]) + line + ['\n'] == line + ['\n'];
    } else {
      assert (lines + [line])[1..] == lines[1..] + [line];
      EndedSnoc(lines[1..], line);
      var head, rest := lines[0] + ['\n'], Ended(lines[1..]);
      assert head + (rest + line + ['\n']) == head + rest + line + ['\n'];
    }
  }

  lemma {:induction false} ReadsOne(lines: seq<string>, seen: seq<string>, printed: string, line: string)
    requires ReadSoFar(lines, seen, printed) && GoodLine(line) && KeyOf(line) !in seen
    ensures ReadSoFar(lines + [line], seen + [KeyOf(line)], printed + line + ['\n'])
  {
    hide GoodLine, KeyOf;
    EndedSnoc(lines, line);
    var all := lines + [line];
    forall x | x in all ensures GoodLine(x) {
      assert x in lines || x == line;
    }
  }

  /** One line's own tests, in the order of the program; keys without spaces stand in `seen` one by one. */
  method CheckLine(line: string) returns (ok: bool)
    ensures ok == GoodLine(line)
  {
    if '=' !in line {
      return false;
    }
    var x := Parsed(line);
    if x.key in BYTES {
      assert x.key !in ADDRESSES by { KeysAreApart(x.key); }
      return Numeric(x.value);
    }
    if x.key in ADDRESSES {
      if !(|x.value| >= 2 && x.value[..2] == "0x") {
        return false;
      }
      return Hexadecimal(x.value[2..]);
    }
    return false;
  }

  lemma {:induction false} KeysAreApart(key: string)
    requires key in BYTES
    ensures key !in ADDRESSES
  {
  }

  /** Line `i` is malformed or repeats a key. */
  predicate Bad(lines: seq<string>, i: nat)
    requires i < |lines|
  {
    !GoodLine(lines[i]) || exists j | 0 <= j < i :: KeyOf(lines[j]) == KeyOf(lines[i])
  }

  /** The first bad line, or the end if there is none. */
  predicate FirstBad(lines: seq<string>, k: nat) {
    k <= |lines| && (forall i | 0 <= i < k :: !Bad(lines, i)) && (k < |lines| ==> Bad(lines, k))
  }

  lemma {:induction false} NothingBadBefore(lines: seq<string>, k: nat)
    requires k <= |lines| && (forall line | line in lines[..k] :: GoodLine(line)) && NoKeyTwice(lines[..k])
    ensures forall i | 0 <= i < k :: !Bad(lines, i)
  {
    hide GoodLine, KeyOf;
    forall i | 0 <= i < k ensures !Bad(lines, i) {
      assert lines[..k][i] == lines[i] && lines[i] in lines[..k];
      forall j | 0 <= j < i ensures KeyOf(lines[j]) != KeyOf(lines[i]) {
        assert lines[..k][j] == lines[j];
      }
    }
  }

  /**
    Accepts exactly the valid records, and prints what it has read: all of it when it accepts, and
    otherwise the lines before the first bad one, or all of them if a key is missing.
   */
  method Validate(text: string) returns (ok: bool, printed: string)
    ensures ok == ValidRecord(Lines(text))
    ensures ok ==> printed == Ended(Lines(text))
    ensures !ok ==> exists k: nat :: FirstBad(Lines(text), k) && printed == Ended(Lines(text)[..k])
  {
    hide Lines, GoodLine, KeyOf, Ended;
    var lines := Lines(text);
    var seen: seq<string> := [];
    printed := "";
    assert ReadSoFar(lines[..0], seen, printed) by { NothingRead(); assert lines[..0] == []; }
    for i := 0 to |lines|
      invariant ReadSoFar(lines[..i], seen, printed)
    {
      var line := lines[i];
      assert line in lines;
      var good := CheckLine(line);
      if !good {
        NothingBadBefore(lines, i);
        assert FirstBad(lines, i) && printed == Ended(lines[..i]);
        return false, printed;
      }
      assert '=' in line by { GoodHasSign(line); }
      var key := Parsed(line).key;
      assert key == KeyOf(line) by { KeyIsParsed(line); }
      if key in seen {
        var j :| 0 <= j < i && seen[j] == key;
        assert lines[..i][j] == lines[j] && KeyOf(lines[j]) == KeyOf(lines[i]);
        NothingBadBefore(lines, i);
        assert FirstBad(lines, i) && printed == Ended(lines[..i]);
        return false, printed;
      }
      ReadsOne(lines[..i], seen, printed, line);
      assert lines[..i] + [line] == lines[..i + 1];
      seen, printed := seen + [key], printed + line + ['\n'];
    }
    assert lines[..|lines|] == lines;
    NothingBadBefore(lines, |lines|);
    assert FirstBad(lines, |lines|);
    var keys := BYTES + ADDRESSES;
    for i := 0 to |keys|
      invariant forall j | 0 <= j < i :: HasKey(lines, keys[j])
    {
      if keys[i] !in seen {
        assert !HasKey(lines, keys[i]) by { NotSeen(lines, seen, keys[i]); }
        return false, printed;
      }
      assert HasKey(lines, keys[i]);
    }
    return true, printed;
  }

  lemma {:induction false} NothingRead()
    ensures ReadSoFar([], [], "")
  {
  }

  lemma {:induction false} GoodHasSign(line: string)
    requires GoodLine(line)
    ensures '=' in line
  {
  }

  lemma {:induction false} KeyIsParsed(line: string)
    requires '=' in line
    ensures KeyOf(line) == Parsed(line).key
  {
  }

  lemma {:induction false} NotSeen(lines: seq<string>, seen: seq<string>, key: string)
    requires |seen| == |lines| && (forall i | 0 <= i < |lines| :: seen[i] == KeyOf(lines[i])) && key !in seen
    ensures !HasKey(lines, key)
  {
    hide KeyOf;
    forall line | line in lines ensures KeyOf(line) != key {
      var i :| 0 <= i < |lines| && lines[i] == line;
      assert seen[i] in seen;
    }
  }

  // ----- the printer and the reader agree

  lemma {:induction false} LinesEnded(lines: seq<string>)
    requires forall line | line in lines :: '\n' !in line
    ensures Split(Ended(lines), '\n') == lines + [""]
    decreases |lines|
  {
    if lines != [] {
      assert lines[0] in lines && forall line | line in lines[1..] :: line in lines;
      LinesEnded(lines[1..]);
      var rest := ['\n'] + Ended(lines[1..]);
      assert lines[0] + ['\n'] + Ended(lines[1..]) == lines[0] + rest;
      assert rest[1..] == Ended(lines[1..]);
      SplitPrepend(lines[0], rest, '\n');
      assert Split(rest, '\n') == [[]] + (lines[1..] + [""]);
      assert lines[0] + [] == lines[0];
      assert [lines[0]] + (lines[1..] + [""]) == lines + [""];
    }
  }

  /** The text of a line may contain neither a line feed nor, before the sign, another "=". */
  predicate Plain(x: Field) {
    '=' !in x.key && '\n' !in x.key && '\n' !in x.value
  }

  lemma {:induction false} AddressIsGood(n: nat)
    ensures GoodAddress(Address(n)) && '\n' !in Address(n) && HexNumber(Address(n)[2..]) == n
  {
    assert Address(n)[2..] == Hex(n, 8) && Address(n)[..2] == "0x";
    assert !HexDigit('\n');
    HexReadsBack(n, 8);
  }

  lemma {:induction false} SignedIsNumeric(n: int)
    ensures Numeric(Signed(n)) <==> n >= 0
    ensures '\n' !in Signed(n)
    ensures n >= 0 ==> Number(Signed(n)) == n
  {
    assert !Digit('-') && !Digit('\n');
    if n < 0 {
      assert Signed(n)[0] == '-';
    } else {
      DecimalReadsBack(n);
    }
  }

  predicate PlainKey(key: string) {
    '=' !in key && '\n' !in key
  }

  lemma {:induction false} KeysArePlain()
    ensures forall key | key in BYTES + ADDRESSES :: PlainKey(key)
  {
    forall key | key in BYTES ensures PlainKey(key) {
      ByteKeysArePlain();
    }
    forall key | key in ADDRESSES ensures PlainKey(key) {
      AddressKeysArePlain();
    }
  }

  lemma {:induction false} ByteKeysArePlain()
    ensures forall key | key in BYTES :: PlainKey(key)
  {
    hide PlainKey;
    ImageKeysArePlain();
    assert PlainKey("DECOMPRESSOR_SCRATCH_BYTES") by { ScratchKeyIsPlain(); }
    assert PlainKey("INITRD_HEADROOM_BYTES") by { HeadroomKeyIsPlain(); }
  }

  lemma {:induction false} ImageKeysArePlain()
    ensures PlainKey("KERNEL_IMAGE_BYTES") && PlainKey("KERNEL_FOOTPRINT_BYTES") && PlainKey("UIMAGE_BYTES")
  {
  }

  lemma {:induction false} ScratchKeyIsPlain()
    ensures PlainKey("DECOMPRESSOR_SCRATCH_BYTES")
  {
  }

  lemma {:induction false} HeadroomKeyIsPlain()
    ensures PlainKey("INITRD_HEADROOM_BYTES")
  {
  }

  lemma {:induction false} AddressKeysArePlain()
    ensures forall key | key in ADDRESSES :: PlainKey(key)
  {
  }

  lemma {:induction false} FieldsArePlain(f: Figures, uimage: nat)
    requires f.decompressorEnd >= 0 && f.end >= 0
    ensures forall i | 0 <= i < 9 :: Plain(Fields(f, uimage)[i])
  {
    hide Signed, Address, PlainKey;
    KeysArePlain();
    forall x | x in Fields(f, uimage) ensures PlainKey(x.key) && '\n' !in x.value {
      FieldKeyAndValue(f, uimage, x);
    }
    assert forall x | x in Fields(f, uimage) :: Plain(x) by { PlainFields(Fields(f, uimage)); }
  }

  lemma {:induction false} PlainFields(fields: seq<Field>)
    requires forall x | x in fields :: PlainKey(x.key) && '\n' !in x.value
    ensures forall x | x in fields :: Plain(x)
  {
  }

  lemma {:induction false} FieldKeyAndValue(f: Figures, uimage: nat, x: Field)
    requires f.decompressorEnd >= 0 && f.end >= 0 && x in Fields(f, uimage)
    ensures x.key in BYTES + ADDRESSES && '\n' !in x.value
  {
    hide Signed, Address;
    AddressIsGood(KERNEL_PHYS);
    SignedIsNumeric(f.image);
    SignedIsNumeric(f.footprint);
    SignedIsNumeric(uimage);
    SignedIsNumeric(DECOMPRESSOR_SCRATCH);
    AddressIsGood(f.decompressorEnd);
    AddressIsGood(f.end);
    AddressIsGood(INITRD_LOAD);
    SignedIsNumeric(INITRD_LOAD - f.end);
  }

  predicate GoodField(x: Field) {
    (x.key in BYTES && Numeric(x.value)) || (x.key in ADDRESSES && GoodAddress(x.value))
  }

  /** All fields but the last are always good; the last one is if the headroom is not negative. */
  lemma {:induction false} FieldsAreGood(f: Figures, uimage: nat)
    requires f.decompressorEnd >= 0 && f.end >= 0 && f.image >= 0 && f.footprint >= 0
    ensures forall i | 0 <= i < 8 :: GoodField(Fields(f, uimage)[i])
    ensures GoodField(Fields(f, uimage)[8]) <==> f.end <= INITRD_LOAD
  {
    hide Signed, Address, GoodAddress, Numeric;
    AddressIsGood(KERNEL_PHYS);
    SignedIsNumeric(f.image);
    SignedIsNumeric(f.footprint);
    SignedIsNumeric(uimage);
    SignedIsNumeric(DECOMPRESSOR_SCRATCH);
    AddressIsGood(f.decompressorEnd);
    AddressIsGood(f.end);
    AddressIsGood(INITRD_LOAD);
    SignedIsNumeric(INITRD_LOAD - f.end);
    assert "INITRD_HEADROOM_BYTES" !in ADDRESSES;
  }

  lemma {:induction false} FieldLine(x: Field)
    requires Plain(x)
    ensures GoodLine(Line(x)) <==> GoodField(x)
    ensures KeyOf(Line(x)) == x.key && '\n' !in Line(x)
  {
    hide GoodAddress, Numeric;
    LineIsParsed(x);
  }

  /**
    For all sizes: the printed lines are accepted exactly when the worst-case end does not exceed
    the initrd's address, and then they are given back byte for byte.
   */
  lemma {:induction false} ReportValidates(f: Figures, uimage: nat)
    requires f.decompressorEnd >= 0 && f.end >= 0 && f.image >= 0 && f.footprint >= 0
    ensures ValidRecord(Lines(Report(f, uimage))) <==> f.end <= INITRD_LOAD
    ensures Ended(Lines(Report(f, uimage))) == Report(f, uimage)
  {
    hide Fields, Ended, GoodLine, KeyOf, GoodField, Line, Plain;
    var fields, lines := Fields(f, uimage), LinesOf(Fields(f, uimage));
    assert |fields| == 9 by { NineFields(f, uimage); }
    FieldsArePlain(f, uimage);
    FieldsAreGood(f, uimage);
    forall i | 0 <= i < 9
      ensures GoodLine(lines[i]) <==> GoodField(fields[i])
      ensures KeyOf(lines[i]) == fields[i].key && '\n' !in lines[i]
    {
      FieldLine(fields[i]);
    }
    LinesEnded(lines);
    assert (lines + [""])[..|lines|] == lines;
    assert Lines(Report(f, uimage)) == lines;
    KeysComplete(f, uimage, lines);
    assert lines[8] in lines;
  }

  lemma {:induction false} NineFields(f: Figures, uimage: nat)
    requires f.decompressorEnd >= 0 && f.end >= 0
    ensures |Fields(f, uimage)| == 9
  {
  }

  lemma {:induction false} KeysComplete(f: Figures, uimage: nat, lines: seq<string>)
    requires f.decompressorEnd >= 0 && f.end >= 0 && |lines| == 9
    requires forall i | 0 <= i < 9 :: KeyOf(lines[i]) == Fields(f, uimage)[i].key
    ensures NoKeyTwice(lines) && forall key | key in BYTES + ADDRESSES :: HasKey(lines, key)
  {
    hide KeyOf, Signed, Address;
    forall key | key in BYTES + ADDRESSES ensures HasKey(lines, key) {
      var i := IndexOf(key, f, uimage);
      assert lines[i] in lines;
    }
  }

  /** Where in the record a key stands. */
  lemma {:induction false} IndexOf(key: string, f: Figures, uimage: nat) returns (i: nat)
    requires f.decompressorEnd >= 0 && f.end >= 0 && key in BYTES + ADDRESSES
    ensures i < 9 && Fields(f, uimage)[i].key == key
  {
    hide Signed, Address;
    i := if key == ADDRESSES[0] then 0 else if key == BYTES[0] then 1 else if key == BYTES[1] then 2
         else if key == BYTES[2] then 3 else if key == BYTES[3] then 4 else if key == ADDRESSES[1] then 5
         else if key == ADDRESSES[2] then 6 else if key == ADDRESSES[3] then 7 else 8;
  }

  // ----- which figure stands behind which key

  /** A line says `key=value`, and the value is that number in decimal. */
  predicate SaysBytes(lines: seq<string>, key: string, n: int) {
    exists line | line in lines ::
      '=' in line && Parsed(line) == Field(key, Signed(n)) && (n >= 0 ==> Reads(Signed(n), n))
  }

  predicate Reads(value: string, n: nat) {
    Numeric(value) && Number(value) == n
  }

  /** A line says `key=0x...`, and the digits are that number in hexadecimal, at least eight of them. */
  predicate SaysAddress(lines: seq<string>, key: string, n: nat) {
    exists line | line in lines :: '=' in line && Parsed(line).key == key && ReadsAddress(Parsed(line).value, n)
  }

  predicate ReadsAddress(value: string, n: nat) {
    GoodAddress(value) && |value| >= 10 && HexNumber(value[2..]) == n
  }

  lemma {:induction false} BytesSaid(lines: seq<string>, i: nat, key: string, n: int)
    requires i < |lines| && lines[i] == Line(Field(key, Signed(n))) && Plain(Field(key, Signed(n)))
    ensures SaysBytes(lines, key, n)
  {
    hide Signed, Line;
    LineIsParsed(Field(key, Signed(n)));
    SignedIsNumeric(n);
    assert lines[i] in lines;
  }

  lemma {:induction false} AddressSaid(lines: seq<string>, i: nat, key: string, n: nat)
    requires i < |lines| && lines[i] == Line(Field(key, Address(n))) && Plain(Field(key, Address(n)))
    ensures SaysAddress(lines, key, n)
  {
    hide Line, GoodAddress;
    LineIsParsed(Field(key, Address(n)));
    AddressIsGood(n);
    HexReadsBack(n, 8);
    assert lines[i] in lines;
  }

  /** The nine figures of the printed record, each behind its own key. */
  lemma {:induction false} RecordSays(f: Figures, uimage: nat)
    requires f.decompressorEnd >= 0 && f.end >= 0
    ensures var lines := Lines(Report(f, uimage));
            && |lines| == 9
            && SaysAddress(lines, "KERNEL_LOAD_ADDRESS", 0x8000)
            && SaysBytes(lines, "KERNEL_IMAGE_BYTES", f.image)
            && SaysBytes(lines, "KERNEL_FOOTPRINT_BYTES", f.footprint)
            && SaysBytes(lines, "UIMAGE_BYTES", uimage)
            && SaysBytes(lines, "DECOMPRESSOR_SCRATCH_BYTES", 0x10_0000)
            && SaysAddress(lines, "DECOMPRESSOR_END", f.decompressorEnd)
            && SaysAddress(lines, "KERNEL_WORST_CASE_END", f.end)
            && SaysAddress(lines, "INITRD_LOAD_ADDRESS", 0x260_0000)
            && SaysBytes(lines, "INITRD_HEADROOM_BYTES", 0x260_0000 - f.end)
  {
    hide SaysBytes, SaysAddress, Signed, Address, Plain, Line, Ended;
    var fields, lines := Fields(f, uimage), LinesOf(Fields(f, uimage));
    FieldsArePlain(f, uimage);
    ReportIsLines(f, uimage);
    AddressSaid(lines, 0, "KERNEL_LOAD_ADDRESS", 0x8000);
    BytesSaid(lines, 1, "KERNEL_IMAGE_BYTES", f.image);
    BytesSaid(lines, 2, "KERNEL_FOOTPRINT_BYTES", f.footprint);
    BytesSaid(lines, 3, "UIMAGE_BYTES", uimage);
    BytesSaid(lines, 4, "DECOMPRESSOR_SCRATCH_BYTES", 0x10_0000);
    AddressSaid(lines, 5, "DECOMPRESSOR_END", f.decompressorEnd);
    AddressSaid(lines, 6, "KERNEL_WORST_CASE_END", f.end);
    AddressSaid(lines, 7, "INITRD_LOAD_ADDRESS", 0x260_0000);
    BytesSaid(lines, 8, "INITRD_HEADROOM_BYTES", 0x260_0000 - f.end);
  }

  lemma {:induction false} ReportIsLines(f: Figures, uimage: nat)
    requires f.decompressorEnd >= 0 && f.end >= 0
    ensures Lines(Report(f, uimage)) == LinesOf(Fields(f, uimage)) && |Fields(f, uimage)| == 9
  {
    hide Fields, Ended, Line, Plain;
    var lines := LinesOf(Fields(f, uimage));
    NineFields(f, uimage);
    FieldsArePlain(f, uimage);
    forall i | 0 <= i < 9 ensures '\n' !in lines[i] {
      FieldLine(Fields(f, uimage)[i]);
    }
    LinesEnded(lines);
    assert (lines + [""])[..|lines|] == lines;
  }

  /** In particular the record of every accepted kernel is valid. */
  lemma {:induction false} AcceptedRecordValidates(segments: seq<Segment>, x: Extent, uimage: nat)
    requires IsExtent(segments, x) && Judged(Figured(x, uimage)) == Accepted
    ensures var f := Figured(x, uimage);
            && f.decompressorEnd >= 0 && f.end >= 0
            && ValidRecord(Lines(Report(f, uimage))) && Ended(Lines(Report(f, uimage))) == Report(f, uimage)
  {
    hide ValidRecord, Report, Lines, Ended;
    FiguresAreOrdered(segments, x, uimage);
    ReportValidates(Figured(x, uimage), uimage);
  }
}
