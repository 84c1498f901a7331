/** The pieces of a newc record: safe names, UTF-8, eight-digit hexadecimal fields, zero padding. */
module NewcFormat {
  import opened Results
  import opened Paths

  const NUL: Byte := 0x00
  const LINE_FEED: Byte := 0x0A
  const CARRIAGE_RETURN: Byte := 0x0D
  const DOT: Byte := 0x2E
  const SLASH: Byte := 0x2F
  const BACKSLASH: Byte := 0x5C

  const LIMIT: nat := 0x1_0000_0000

  /** Digits in one header field. */
  const WIDTH: nat := 8

  // ----- names: a str stands as its UTF-8 encoding

  predicate Plain(part: Bytes) {
    part != [] && part != [DOT] && part != [DOT, DOT]
  }

  function SafeName(name: Bytes): Option<Bytes> {
    if name == [DOT] then Some(name)
    else
      var n := if [DOT, SLASH] <= name then name[2..] else name;
      if n == [] || n[0] == SLASH || BACKSLASH in n || CARRIAGE_RETURN in n || LINE_FEED in n || NUL in n
         || exists part | part in Split(n, SLASH) :: !Plain(part)
      then None
      else Some(n)
  }

  /** A name that is kept as it is. */
  predicate Normal(name: Bytes) {
    SafeName(name) == Some(name)
  }

  /** Normalising once is enough, and it removes at most one leading "./". */
  lemma {:induction false} SafeNameIsNormal(name: Bytes)
    requires SafeName(name).Some?
    ensures Normal(SafeName(name).value) && NUL !in SafeName(name).value
    ensures name == SafeName(name).value || name == [DOT, SLASH] + SafeName(name).value
  {
    if name != [DOT] && [DOT, SLASH] <= SafeName(name).value {
      DotSlashPart(SafeName(name).value);
    }
  }

  lemma {:induction false} DotSlashPart(n: Bytes)
    requires [DOT, SLASH] <= n
    ensures exists part | part in Split(n, SLASH) :: !Plain(part)
  {
    assert n[0] == DOT && n[1..][0] == SLASH;
    assert Split(n[1..], SLASH)[0] == [];
    var part := Split(n, SLASH)[0];
    assert part == [DOT] + [] == [DOT];
    assert part in Split(n, SLASH) && !Plain(part);
  }

  /** No component may hold a separator or a character that the codec refuses. */
  predicate Component(part: Bytes) {
    && Plain(part) && SLASH !in part && BACKSLASH !in part
    && CARRIAGE_RETURN !in part && LINE_FEED !in part && NUL !in part
  }

  lemma {:induction false} JoinedElements(parts: seq<Bytes>)
    requires |parts| > 0 && forall part | part in parts :: Component(part)
    ensures var n := Join(parts, SLASH);
            && n != [] && n[0] != SLASH
            && BACKSLASH !in n && CARRIAGE_RETURN !in n && LINE_FEED !in n && NUL !in n
  {
    assert parts[0] in parts;
    if |parts| > 1 {
      assert forall part | part in parts[1..] :: part in parts;
      JoinedElements(parts[1..]);
    }
  }

  /** Joining components gives a normal name. */
  lemma {:induction false} JoinedIsNormal(parts: seq<Bytes>)
    requires |parts| > 0 && forall part | part in parts :: Component(part)
    ensures Normal(Join(parts, SLASH)) && Split(Join(parts, SLASH), SLASH) == parts
  {
    var n := Join(parts, SLASH);
    assert forall part | part in parts :: SLASH !in part;
    SplitJoin(parts, SLASH);
    JoinedElements(parts);
    if [DOT, SLASH] <= n {
      DotSlashPart(n);
    }
  }

  /** And every normal name but "." arises so: its components stay below the root. */
  lemma {:induction false} NormalComponents(name: Bytes)
    requires Normal(name) && name != [DOT]
    ensures Join(Split(name, SLASH), SLASH) == name
    ensures forall part | part in Split(name, SLASH) :: Component(part)
  {
    JoinSplit(name, SLASH);
    SplitParts(name, SLASH);
    forall part | part in Split(name, SLASH) ensures Component(part) {
      assert forall c | c in part :: c in name by {
        PartElements(name, SLASH, part);
      }
    }
  }

  /** A name is accepted exactly if it is ".", or one or more components joined, with or without "./" in front. */
  lemma {:induction false} SafeNameExactly(name: Bytes, n: Bytes)
    ensures SafeName(name) == Some(n) <==>
            || (name == n == [DOT])
            || ((name == n || name == [DOT, SLASH] + n) &&
                exists parts ::
                  |parts| > 0 && (forall part | part in parts :: Component(part)) && n == Join(parts, SLASH))
  {
    hide Component;
    if SafeName(name) == Some(n) && name != [DOT] {
      SafeNameIsNormal(name);
      if n != [DOT] {
        NormalComponents(n);
      } else {
        assert !Plain([DOT]) && Split([DOT], SLASH) == [[DOT]] by { OnlyDot(); }
      }
    }
    if parts :| |parts| > 0 && (forall part | part in parts :: Component(part)) && n == Join(parts, SLASH) {
      JoinedIsNormal(parts);
      if name == [DOT, SLASH] + n {
        assert name[2..] == n;
        NotJustDot(parts);
      }
    }
  }

  lemma {:induction false} OnlyDot()
    ensures Split([DOT], SLASH) == [[DOT]] && !Plain([DOT])
  {
    assert [DOT][1..] == [] && [DOT] + [] == [DOT];
  }

  /** Joined components are not ".", so with "./" in front they are judged as they stand. */
  lemma {:induction false} NotJustDot(parts: seq<Bytes>)
    requires |parts| > 0 && forall part | part in parts :: Component(part)
    ensures var n := Join(parts, SLASH); n != [DOT] && SafeName([DOT, SLASH] + n) == Some(n)
  {
    var n := Join(parts, SLASH);
    JoinedIsNormal(parts);
    JoinedElements(parts);
    OnlyDot();
    assert Component(parts[0]) by { assert parts[0] in parts; }
    assert ([DOT, SLASH] + n)[2..] == n;
    if [DOT, SLASH] <= n {
      DotSlashPart(n);
    }
  }

  // ----- texts of ASCII characters

  function Code(c: char): Byte
    requires c as int < 128
  {
    c as int
  }

  function Ascii(s: string): Bytes
    requires forall c | c in s :: c as int < 128
  {
    seq(|s|, i requires 0 <= i < |s| => assert s[i] in s; Code(s[i]))
  }

  // ----- UTF-8: the well-formed byte sequences of section 4 of RFC 3629

  predicate Continuation(b: Byte) {
    0x80 <= b <= 0xBF
  }

  predicate ValidUtf8(s: Bytes)
    decreases |s|
  {
    if s == [] then true
    else if s[0] <= 0x7F then ValidUtf8(s[1..])
    else if 0xC2 <= s[0] <= 0xDF then |s| >= 2 && Continuation(s[1]) && ValidUtf8(s[2..])
    else if 0xE0 <= s[0] <= 0xEF then
      && |s| >= 3 && Continuation(s[1]) && Continuation(s[2])
      && (s[0] == 0xE0 ==> s[1] >= 0xA0) && (s[0] == 0xED ==> s[1] <= 0x9F)
      && ValidUtf8(s[3..])
    else if 0xF0 <= s[0] <= 0xF4 then
      && |s| >= 4 && Continuation(s[1]) && Continuation(s[2]) && Continuation(s[3])
      && (s[0] == 0xF0 ==> s[1] >= 0x90) && (s[0] == 0xF4 ==> s[1] <= 0x8F)
      && ValidUtf8(s[4..])
    else false
  }

  lemma {:induction false} SafeNameKeepsUtf8(name: Bytes)
    requires SafeName(name).Some? && ValidUtf8(name)
    ensures ValidUtf8(SafeName(name).value)
  {
    if [DOT, SLASH] <= name {
      assert name[1..][1..] == name[2..];
    }
  }

  // ----- hexadecimal fields

  function HexDigit(d: nat): Byte
    requires d < 16
  {
    if d < 10 then 0x30 + d else 0x57 + d
  }

  function HexValue(b: Byte): (r: Option<nat>)
    ensures r.Some? ==> r.value < 16
  {
    if 0x30 <= b <= 0x39 then Some(b - 0x30)
    else if 0x61 <= b <= 0x66 then Some(b - 0x57)
    else if 0x41 <= b <= 0x46 then Some(b - 0x37)
    else None
  }

  const LOWER: string := "0123456789abcdef"
  const UPPER: string := "0123456789ABCDEF"

  /** Digits are read in either case, each worth its place in the list. */
  lemma {:induction false} HexValueExactly(b: Byte, d: nat)
    ensures HexValue(b) == Some(d) <==> d < 16 && (b == LOWER[d] as int || b == UPPER[d] as int)
  {
    assert d < 10 ==> LOWER[d] as int == '0' as int + d && UPPER[d] as int == '0' as int + d;
    assert 10 <= d < 16 ==> LOWER[d] as int == 'a' as int + d - 10 && UPPER[d] as int == 'A' as int + d - 10;
  }

  /** Hexadecimal with at least `width` digits. */
  function Hex(n: nat, width: nat): Bytes
    decreases n, width
  {
    if n < 16 && width <= 1 then [HexDigit(n)]
    else Hex(n / 16, if width == 0 then 0 else width - 1) + [HexDigit(n % 16)]
  }

  function ParseHex(s: Bytes): Option<nat>
    decreases |s|
  {
    if s == [] then Some(0)
    else
      var front, digit := ParseHex(s[..|s| - 1]), HexValue(s[|s| - 1]);
      if front.None? || digit.None? then None else Some(16 * front.value + digit.value)
  }

  function Power16(n: nat): nat {
    if n == 0 then 1 else 16 * Power16(n - 1)
  }

  /** A digit in front counts as often as its place says. */
  lemma {:induction false} ParseHexPlaces(b: Byte, s: Bytes)
    ensures ParseHex([b] + s) ==
            if HexValue(b).None? || ParseHex(s).None? then None
            else Some(HexValue(b).value * Power16(|s|) + ParseHex(s).value)
    decreases |s|
  {
    hide HexValue;
    if s == [] {
      assert [b] + s == [b] && [b][..0] == [];
    } else {
      var n := |s| - 1;
      ParseHexPlaces(b, s[..n]);
      assert ([b] + s)[..n + 1] == [b] + s[..n];
      if HexValue(b).Some? && ParseHex(s[..n]).Some? {
        Sixteenfold(HexValue(b).value, Power16(n), ParseHex(s[..n]).value);
      }
    }
  }

  lemma {:induction false} Sixteenfold(d: nat, p: nat, n: nat)
    ensures 16 * (d * p + n) == d * (16 * p) + 16 * n
  {
  }

  lemma {:induction false} PowerEight()
    ensures Power16(WIDTH) == LIMIT
  {
    assert Power16(4) == 0x1_0000;
  }

  lemma {:induction false} HexWidth(n: nat, width: nat)
    requires width > 0 && n < Power16(width)
    ensures |Hex(n, width)| == width
    decreases width
  {
    if width > 1 {
      HexWidth(n / 16, width - 1);
    }
  }

  lemma {:induction false} ParseHexOfHex(n: nat, width: nat)
    ensures ParseHex(Hex(n, width)) == Some(n)
    decreases n, width
  {
    var digits := Hex(n, width);
    if n < 16 && width <= 1 {
      assert digits[..0] == [];
    } else {
      var w := if width == 0 then 0 else width - 1;
      ParseHexOfHex(n / 16, w);
      assert digits[..|digits| - 1] == Hex(n / 16, w);
    }
  }

  lemma {:induction false} ParseHexBound(s: Bytes)
    ensures ParseHex(s).Some? ==> ParseHex(s).value < Power16(|s|)
    decreases |s|
  {
    if s != [] {
      ParseHexBound(s[..|s| - 1]);
    }
  }

  /** The concatenated eight-digit fields of a header. */
  function HexFields(values: seq<nat>): Bytes {
    if values == [] then [] else Hex(values[0], WIDTH) + HexFields(values[1..])
  }

  function ParseFields(s: Bytes): (r: Option<seq<nat>>)
    requires |s| % WIDTH == 0
    ensures r.Some? ==> |s| == WIDTH * |r.value|
    decreases |s|
  {
    if s == [] then Some([])
    else
      var first, rest := ParseHex(s[..WIDTH]), ParseFields(s[WIDTH..]);
      if first.None? || rest.None? then None else Some([first.value] + rest.value)
  }

  lemma {:induction false} ParseFieldsOfHex(values: seq<nat>)
    requires forall v | v in values :: v < LIMIT
    ensures |HexFields(values)| == WIDTH * |values|
    ensures ParseFields(HexFields(values)) == Some(values)
  {
    if values != [] {
      assert values[0] in values;
      assert forall v | v in values[1..] :: v in values;
      assert values == [values[0]] + values[1..];
      PowerEight();
      HexWidth(values[0], WIDTH);
      ParseHexOfHex(values[0], WIDTH);
      ParseFieldsOfHex(values[1..]);
      assert HexFields(values)[..WIDTH] == Hex(values[0], WIDTH);
      assert HexFields(values)[WIDTH..] == HexFields(values[1..]);
    }
  }

  lemma {:induction false} ParseFieldsBound(s: Bytes)
    requires |s| % WIDTH == 0 && ParseFields(s).Some?
    ensures forall v | v in ParseFields(s).value :: v < LIMIT
    decreases |s|
  {
    if s != [] {
      PowerEight();
      ParseHexBound(s[..WIDTH]);
      ParseFieldsBound(s[WIDTH..]);
    }
  }

  // ----- padding

  function Pad(length: int, unit: nat): (r: nat)
    requires unit == 4 || unit == 512
    ensures r < unit && (length + r) % unit == 0
  {
    PadFills(length, unit);
    (-length) % unit
  }

  lemma {:induction false} PadFills(length: int, unit: nat)
    requires unit == 4 || unit == 512
    ensures (length + (-length) % unit) % unit == 0
  {
    if unit == 4 {
      Fills4(length);
    } else {
      Fills512(length);
    }
  }

  lemma {:induction false} Fills4(length: int)
    ensures (length + (-length) % 4) % 4 == 0
  {
  }

  lemma {:induction false} Fills512(length: int)
    ensures (length + (-length) % 512) % 512 == 0
  {
  }

  function Zeros(n: nat): Bytes {
    seq(n, _ => 0)
  }
}
