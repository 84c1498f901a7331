/** Decimal and lower-case hexadecimal numerals. */
module Digits {

  predicate Digit(c: char) {
    '0' <= c <= '9'
  }

  predicate Numeric(s: string) {
    s != "" && forall c | c in s :: Digit(c)
  }

  function Number(s: string): nat
    requires forall c | c in s :: Digit(c)
  {
    if s == "" then 0
    else
      assert s[|s| - 1] in s && Digit(s[|s| - 1]);
      10 * Number(s[..|s| - 1]) + (s[|s| - 1] as int - '0' as int)
  }

  function Decimal(n: nat): (s: string)
    ensures Numeric(s)
  {
    var c := ('0' as int + n % 10) as char;
    if n < 10 then [c] else Decimal(n / 10) + [c]
  }

  lemma {:induction false} DecimalReadsBack(n: nat)
    ensures Number(Decimal(n)) == n
  {
    var c := ('0' as int + n % 10) as char;
    if n >= 10 {
      DecimalReadsBack(n / 10);
      assert (Decimal(n / 10) + [c])[..|Decimal(n / 10)|] == Decimal(n / 10);
    } else {
      assert [c][..0] == "";
    }
  }

  /** The decimal digits are these ten, each worth its place in the list. */
  lemma {:induction false} DigitExactly(c: char)
    ensures Digit(c) <==> c in "0123456789"
    ensures forall d: nat | d < 10 :: Number(["0123456789"[d]]) == d
  {
    var all := "0123456789";
    assert forall d: nat | d < 10 :: all[d] as int == '0' as int + d;
    if Digit(c) {
      assert all[c as int - '0' as int] == c;
    }
    forall d: nat | d < 10 ensures Number([all[d]]) == d {
      assert [all[d]][..0] == "";
    }
  }

  function Power(base: nat, n: nat): nat {
    if n == 0 then 1 else base * Power(base, n - 1)
  }

  lemma {:induction false} Distributes(base: nat, d: nat, p: nat, n: nat)
    ensures base * (d * p + n) == d * (base * p) + base * n
  {
  }

  /** A digit in front counts as often as its place says. */
  lemma {:induction false} NumberPlaces(c: char, s: string)
    requires Digit(c) && forall x | x in s :: Digit(x)
    ensures forall x | x in [c] + s :: Digit(x)
    ensures Number([c] + s) == (c as int - '0' as int) * Power(10, |s|) + Number(s)
    decreases |s|
  {
    if s == "" {
      assert [c] + s == [c] && [c][..0] == "";
    } else {
      var n := |s| - 1;
      assert forall x | x in s[..n] :: x in s;
      NumberPlaces(c, s[..n]);
      assert ([c] + s)[..n + 1] == [c] + s[..n] && s[n] in s;
      Distributes(10, c as int - '0' as int, Power(10, n), Number(s[..n]));
    }
  }

  predicate HexDigit(c: char) {
    '0' <= c <= '9' || 'a' <= c <= 'f'
  }

  function HexValue(c: char): nat
    requires HexDigit(c)
  {
    if c <= '9' then c as int - '0' as int else c as int - 'a' as int + 10
  }

  function HexChar(n: nat): (c: char)
    requires n < 16
    ensures HexDigit(c) && HexValue(c) == n
  {
    if n < 10 then ('0' as int + n) as char else ('a' as int + n - 10) as char
  }

  /** The sixteen digits, lower case only, each worth its place in the list. */
  lemma {:induction false} HexDigitExactly(c: char)
    ensures HexDigit(c) <==> c in "0123456789abcdef"
    ensures forall d: nat | d < 16 :: HexDigit("0123456789abcdef"[d]) && HexValue("0123456789abcdef"[d]) == d
  {
    var all := "0123456789abcdef";
    assert forall d: nat | d < 10 :: all[d] as int == '0' as int + d;
    assert forall d: nat | 10 <= d < 16 :: all[d] as int == 'a' as int + d - 10;
    if HexDigit(c) {
      assert all[HexValue(c)] == c;
    }
  }

  predicate Hexadecimal(s: string) {
    s != "" && forall c | c in s :: HexDigit(c)
  }

  function HexNumber(s: string): nat
    requires forall c | c in s :: HexDigit(c)
  {
    if s == "" then 0
    else
      assert s[|s| - 1] in s && HexDigit(s[|s| - 1]);
      16 * HexNumber(s[..|s| - 1]) + HexValue(s[|s| - 1])
  }

  lemma {:induction false} HexNumberPlaces(c: char, s: string)
    requires HexDigit(c) && forall x | x in s :: HexDigit(x)
    ensures forall x | x in [c] + s :: HexDigit(x)
    ensures HexNumber([c] + s) == HexValue(c) * Power(16, |s|) + HexNumber(s)
    decreases |s|
  {
    hide HexValue, HexDigit;
    if s == "" {
      assert [c] + s == [c] && [c][..0] == "";
    } else {
      var n := |s| - 1;
      assert forall x | x in s[..n] :: x in s;
      HexNumberPlaces(c, s[..n]);
      assert ([c] + s)[..n + 1] == [c] + s[..n] && s[n] in s;
      Distributes(16, HexValue(c), Power(16, n), HexNumber(s[..n]));
    }
  }

  /** At least `width` digits. */
  function Hex(n: nat, width: nat): (s: string)
    ensures (width > 0 || n > 0 ==> Hexadecimal(s)) && forall c | c in s :: HexDigit(c)
    decreases width + n
  {
    if n == 0 && width == 0 then ""
    else Hex(n / 16, if width == 0 then 0 else width - 1) + [HexChar(n % 16)]
  }

  lemma {:induction false} HexReadsBack(n: nat, width: nat)
    ensures HexNumber(Hex(n, width)) == n && |Hex(n, width)| >= width
    decreases width + n
  {
    if n > 0 || width > 0 {
      var front := Hex(n / 16, if width == 0 then 0 else width - 1);
      HexReadsBack(n / 16, if width == 0 then 0 else width - 1);
      assert (front + [HexChar(n % 16)])[..|front|] == front;
    }
  }
}
