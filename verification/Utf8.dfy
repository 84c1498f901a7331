/** Names in the codec are bytes: exactly the encodings of texts count as UTF-8 (section 3 of RFC 3629). */
module Utf8 {
  import opened Results
  import opened NewcFormat

  /** A character number; the surrogates are none. */
  predicate Scalar(n: nat) {
    n < 0x11_0000 && !(0xD800 <= n <= 0xDFFF)
  }

  /** The byte sequence of one character. */
  function Encoding(n: nat): (b: Bytes)
    requires Scalar(n)
    ensures 0 < |b| <= 4
  {
    if n < 0x80 then [n]
    else if n < 0x800 then [0xC0 + n / 64, 0x80 + n % 64]
    else if n < 0x1_0000 then [0xE0 + n / 4096, 0x80 + n / 64 % 64, 0x80 + n % 64]
    else [0xF0 + n / 262144, 0x80 + n / 4096 % 64, 0x80 + n / 64 % 64, 0x80 + n % 64]
  }

  function Encoded(text: seq<nat>): Bytes
    requires forall n | n in text :: Scalar(n)
  {
    if text == [] then []
    else
      assert text[0] in text && forall n | n in text[1..] :: n in text;
      Encoding(text[0]) + Encoded(text[1..])
  }

  lemma {:induction false} Leads(n: nat, rest: Bytes)
    requires Scalar(n)
    ensures ValidUtf8(Encoding(n) + rest) == ValidUtf8(rest)
  {
    var b := Encoding(n);
    var s := b + rest;
    assert s[|b|..] == rest;
    if 0x80 <= n < 0x800 {
      assert 2 <= n / 64 < 32;
    } else if 0x800 <= n < 0x1_0000 {
      ThreeBytes(n);
    } else if n >= 0x1_0000 {
      FourBytes(n);
    }
  }

  lemma {:induction false} ThreeBytes(n: nat)
    requires 0x800 <= n < 0x1_0000
    ensures n / 4096 < 16 && (n / 4096 == 0 ==> n / 64 % 64 >= 32)
    ensures Scalar(n) && n / 4096 == 13 ==> n / 64 % 64 < 32
  {
    assert n / 64 == 64 * (n / 4096) + n / 64 % 64;
  }

  lemma {:induction false} FourBytes(n: nat)
    requires 0x1_0000 <= n < 0x11_0000
    ensures n / 262144 <= 4 && (n / 262144 == 0 ==> n / 4096 % 64 >= 16) && (n / 262144 == 4 ==> n / 4096 % 64 < 16)
  {
    assert n / 4096 == 64 * (n / 262144) + n / 4096 % 64;
  }

  /** The character that a valid sequence begins with. */
  lemma {:induction false} First(s: Bytes) returns (n: nat)
    requires s != [] && ValidUtf8(s)
    ensures Scalar(n) && Encoding(n) <= s && ValidUtf8(s[|Encoding(n)|..])
  {
    var a: int := s[0];
    if a <= 0x7F {
      n := a;
    } else if a <= 0xDF {
      var b: int := s[1];
      n := 64 * (a - 0xC0) + (b - 0x80);
      assert n / 64 == a - 0xC0 && n % 64 == b - 0x80;
    } else if a <= 0xEF {
      n := FromThree(s[0], s[1], s[2]);
      assert s[..3] == [s[0], s[1], s[2]];
    } else {
      n := FromFour(s[0], s[1], s[2], s[3]);
      assert s[..4] == [s[0], s[1], s[2], s[3]];
    }
  }

  lemma {:induction false} FromThree(a: Byte, b: Byte, c: Byte) returns (n: nat)
    requires 0xE0 <= a <= 0xEF && Continuation(b) && Continuation(c)
    requires (a == 0xE0 ==> b >= 0xA0) && (a == 0xED ==> b <= 0x9F)
    ensures Scalar(n) && Encoding(n) == [a, b, c]
  {
    var x: int, y: int, z: int := a - 0xE0, b - 0x80, c - 0x80;
    n := 64 * (64 * x + y) + z;
    assert n / 64 == 64 * x + y && n % 64 == z;
    assert n / 4096 == x && n / 64 % 64 == y;
  }

  lemma {:induction false} FromFour(a: Byte, b: Byte, c: Byte, d: Byte) returns (n: nat)
    requires 0xF0 <= a <= 0xF4 && Continuation(b) && Continuation(c) && Continuation(d)
    requires (a == 0xF0 ==> b >= 0x90) && (a == 0xF4 ==> b <= 0x8F)
    ensures Scalar(n) && Encoding(n) == [a, b, c, d]
  {
    var w: int, x: int, y: int, z: int := a - 0xF0, b - 0x80, c - 0x80, d - 0x80;
    n := 64 * (64 * (64 * w + x) + y) + z;
    assert n / 64 == 64 * (64 * w + x) + y && n % 64 == z;
    assert n / 4096 == 64 * w + x && n / 64 % 64 == y;
    assert n / 262144 == w && n / 4096 % 64 == x;
  }

  lemma {:induction false} EncodedIsValid(text: seq<nat>)
    requires forall n | n in text :: Scalar(n)
    ensures ValidUtf8(Encoded(text))
  {
    hide Scalar, Encoding, ValidUtf8;
    if text == [] {
      assert ValidUtf8([]) by { NothingIsValid(); }
    } else {
      assert text[0] in text && forall n | n in text[1..] :: n in text;
      EncodedIsValid(text[1..]);
      Leads(text[0], Encoded(text[1..]));
    }
  }

  lemma {:induction false} NothingIsValid()
    ensures ValidUtf8([])
  {
  }

  lemma {:induction false} ValidIsEncoded(s: Bytes) returns (text: seq<nat>)
    requires ValidUtf8(s)
    ensures (forall n | n in text :: Scalar(n)) && Encoded(text) == s
    decreases |s|
  {
    hide Scalar, Encoding, ValidUtf8;
    if s == [] {
      text := [];
    } else {
      var n := First(s);
      var rest := ValidIsEncoded(s[|Encoding(n)|..]);
      text := [n] + rest;
      assert text[1..] == rest;
      assert s == Encoding(n) + s[|Encoding(n)|..];
    }
  }

  ghost predicate Encodes(text: seq<nat>, s: Bytes) {
    (forall n | n in text :: Scalar(n)) && Encoded(text) == s
  }

  /** A byte string counts as UTF-8 exactly if it is the encoding of some text. */
  lemma {:induction false} Utf8Exactly(s: Bytes)
    ensures ValidUtf8(s) <==> exists text :: Encodes(text, s)
  {
    hide Scalar, ValidUtf8, Encoded;
    if ValidUtf8(s) {
      var text := ValidIsEncoded(s);
      assert Encodes(text, s);
    }
    if text :| Encodes(text, s) {
      EncodedIsValid(text);
    }
  }
}
