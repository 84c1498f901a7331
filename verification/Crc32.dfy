/**
  CRC-32 in the reflected bitwise form of section 8 of RFC 1952, and why it detects every
  change of up to four consecutive bytes: each step of the shift register is injective,
  both in the register and in the data that enters it.

  A register is the set of its one bits, bit 0 the least significant.
 */
module Crc32 {
  import opened Results

  const POLYNOMIAL: nat := 0xEDB88320
  const BITS: nat := 32
  const BYTE_BITS: nat := 8

  type Register = s: set<nat> | forall i | i in s :: i < BITS

  predicate Differ(a: Register, b: Register, i: nat) {
    (i in a) != (i in b)
  }

  function Xor(a: Register, b: Register): Register {
    set i: nat | i < BITS && Differ(a, b, i)
  }

  /** Bit `i` of a number. */
  predicate Bit(n: nat, i: nat)
    decreases i
  {
    if i == 0 then n % 2 == 1 else Bit(n / 2, i - 1)
  }

  function Bits(n: nat): Register {
    set i: nat | i < BITS && Bit(n, i)
  }

  function Ones(): Register {
    Bits(0xFFFF_FFFF)
  }

  predicate Above(c: Register, i: nat) {
    i + 1 in c
  }

  /** The register moved down by one bit. */
  function Lower(c: Register): Register {
    set i: nat | i < BITS && Above(c, i)
  }

  function Shift(c: Register): Register {
    if 0 in c then Xor(Lower(c), Bits(POLYNOMIAL)) else Lower(c)
  }

  /** `n` steps of the register. */
  function Shifts(c: Register, n: nat): Register
    decreases n, |c|
  {
    if n == 0 then c else Shifts(Shift(c), n - 1)
  }

  function ByteBits(b: Byte): Register {
    set i: nat | i < BYTE_BITS && Bit(b, i)
  }

  /** The register after `data`, one byte at a time. */
  function Feed(c: Register, data: Bytes): Register
    decreases |data|
  {
    if data == [] then c else Feed(Shifts(Xor(c, ByteBits(data[0])), BYTE_BITS), data[1..])
  }

  /** The checksum that zlib computes: register preset to ones, result complemented. */
  function Crc(data: Bytes): Register {
    Xor(Feed(Ones(), data), Ones())
  }

  // ----- injectivity of the register

  function Power2(n: nat): nat {
    if n == 0 then 1 else 2 * Power2(n - 1)
  }

  lemma {:induction false} PowersOfTwo()
    ensures Power2(8) == 256 && Power2(31) == 0x8000_0000 && Power2(32) == 0x1_0000_0000
  {
    assert Power2(4) == 16;
    assert Power2(8) == 256;
    assert Power2(12) == 0x1000;
    assert Power2(16) == 0x1_0000;
    assert Power2(20) == 0x10_0000;
    assert Power2(24) == 0x100_0000;
    assert Power2(28) == 0x1000_0000;
  }

  lemma {:induction false} LeadingBit(n: nat, i: nat)
    requires Power2(i) <= n < Power2(i + 1)
    ensures Bit(n, i)
    decreases i
  {
    if i > 0 {
      LeadingBit(n / 2, i - 1);
    }
  }

  lemma {:induction false} PolynomialTop()
    ensures BITS - 1 in Bits(POLYNOMIAL)
  {
    PowersOfTwo();
    LeadingBit(POLYNOMIAL, BITS - 1);
  }

  lemma {:induction false} XorCancels(c: Register, d: Register, x: Register)
    requires Xor(c, x) == Xor(d, x)
    ensures c == d
  {
    forall i: nat ensures i in c <==> i in d {
      assert i in Xor(c, x) <==> i in Xor(d, x);
    }
  }

  /** The bit shifted out is recovered from the top bit, which only the polynomial can set. */
  lemma {:induction false} ShiftInjective(c: Register, d: Register)
    requires Shift(c) == Shift(d)
    ensures c == d
  {
    hide Bits;
    PolynomialTop();
    assert BITS - 1 !in Lower(c) && BITS - 1 !in Lower(d);
    assert 0 in c <==> BITS - 1 in Shift(c);
    assert 0 in d <==> BITS - 1 in Shift(d);
    if 0 in c {
      XorCancels(Lower(c), Lower(d), Bits(POLYNOMIAL));
    }
    forall i: nat ensures i in c <==> i in d {
      assert i > 0 ==> (i - 1 in Lower(c) <==> i in c) && (i - 1 in Lower(d) <==> i in d);
    }
  }

  lemma {:induction false} ShiftsInjective(c: Register, d: Register, n: nat)
    requires Shifts(c, n) == Shifts(d, n)
    ensures c == d
    decreases n
  {
    hide Shift;
    if n > 0 {
      ShiftsInjective(Shift(c), Shift(d), n - 1);
      ShiftInjective(c, d);
    }
  }

  lemma {:induction false} ShiftsAdd(c: Register, m: nat, n: nat)
    ensures Shifts(c, m + n) == Shifts(Shifts(c, m), n)
    decreases m
  {
    hide Shift;
    if m > 0 {
      ShiftsAdd(Shift(c), m - 1, n);
    }
  }

  /** Different registers stay different under the same data. */
  lemma {:induction false} FeedInjective(c: Register, d: Register, data: Bytes)
    requires Feed(c, data) == Feed(d, data)
    ensures c == d
    decreases |data|
  {
    hide Shifts, Xor, ByteBits;
    if data != [] {
      var x, y := Xor(c, ByteBits(data[0])), Xor(d, ByteBits(data[0]));
      FeedInjective(Shifts(x, BYTE_BITS), Shifts(y, BYTE_BITS), data[1..]);
      ShiftsInjective(x, y, BYTE_BITS);
      XorCancels(c, d, ByteBits(data[0]));
    }
  }

  lemma {:induction false} FeedConcat(c: Register, front: Bytes, back: Bytes)
    ensures Feed(c, front + back) == Feed(Feed(c, front), back)
    decreases |front|
  {
    hide Shifts, Xor, ByteBits;
    if front == [] {
      assert front + back == back;
    } else {
      assert (front + back)[1..] == front[1..] + back;
      FeedConcat(Shifts(Xor(c, ByteBits(front[0])), BYTE_BITS), front[1..], back);
    }
  }

  // ----- injectivity of the data: a window of four bytes enters the register as one word

  predicate Below(y: Register, n: nat, i: nat) {
    n <= i && i - n in y
  }

  /** `y` moved up by `n` bits. */
  function Raise(y: Register, n: nat): Register {
    set i: nat | i < BITS && Below(y, n, i)
  }

  /** Bits that the register has not yet reached pass through a step, only moved down. */
  lemma {:induction false} ShiftDefers(x: Register, y: Register, n: nat)
    requires 0 < n && forall i | i in y :: i + n < BITS
    ensures Shift(Xor(x, Raise(y, n))) == Xor(Shift(x), Raise(y, n - 1))
  {
    hide Bits;
    var z := Xor(x, Raise(y, n));
    assert 0 in z <==> 0 in x;
    assert Lower(z) == Xor(Lower(x), Raise(y, n - 1)) by {
      forall i: nat ensures i in Lower(z) <==> i in Xor(Lower(x), Raise(y, n - 1)) {
        assert i + 1 in Raise(y, n) <==> i in Raise(y, n - 1);
      }
    }
  }

  lemma {:induction false} ShiftsDefer(x: Register, y: Register, n: nat)
    requires forall i | i in y :: i + n < BITS
    ensures Shifts(Xor(x, Raise(y, n)), n) == Xor(Shifts(x, n), y)
    decreases n
  {
    if n == 0 {
      assert Raise(y, 0) == y;
    } else {
      ShiftDefers(x, y, n);
      ShiftsDefer(Shift(x), y, n - 1);
    }
  }

  /** Up to four bytes as one word, first byte lowest. */
  function Little(b: Bytes): Register
    requires |b| <= 4
    decreases |b|
  {
    if b == [] then {} else ByteBits(b[0]) + Raise(Little(b[1..]), BYTE_BITS)
  }

  lemma {:induction false} LittleBound(b: Bytes)
    requires |b| <= 4
    ensures forall i | i in Little(b) :: i < BYTE_BITS * |b|
    decreases |b|
  {
    if b != [] {
      LittleBound(b[1..]);
    }
  }

  lemma {:induction false} LittleEnters(c: Register, b: Bytes)
    requires 0 < |b| <= 4
    ensures Xor(c, Little(b)) == Xor(Xor(c, ByteBits(b[0])), Raise(Little(b[1..]), BYTE_BITS))
  {
    var first, rest := ByteBits(b[0]), Raise(Little(b[1..]), BYTE_BITS);
    assert forall i | i in first :: i !in rest;
    assert Little(b) == first + rest;
  }

  lemma {:induction false} FeedWord(c: Register, b: Bytes)
    requires |b| <= 4
    ensures Feed(c, b) == Shifts(Xor(c, Little(b)), BYTE_BITS * |b|)
    decreases |b|
  {
    hide Xor, ByteBits, Shifts;
    if b == [] {
      XorNothing(c);
      NoShifts(c);
    } else {
      var first, rest := Xor(c, ByteBits(b[0])), Little(b[1..]);
      LittleEnters(c, b);
      LittleBound(b[1..]);
      ShiftsDefer(first, rest, BYTE_BITS);
      FeedWord(Shifts(first, BYTE_BITS), b[1..]);
      ShiftsAdd(Xor(c, Little(b)), BYTE_BITS, BYTE_BITS * |b[1..]|);
    }
  }

  lemma {:induction false} XorNothing(c: Register)
    ensures Xor(c, {}) == c
  {
  }

  lemma {:induction false} NoShifts(c: Register)
    ensures Shifts(c, 0) == c
  {
  }

  lemma {:induction false} BitsDetermine(a: nat, b: nat, n: nat)
    requires a < Power2(n) && b < Power2(n)
    requires forall i: nat | i < n :: Bit(a, i) == Bit(b, i)
    ensures a == b
    decreases n
  {
    if n > 0 {
      assert Bit(a, 0) == Bit(b, 0);
      forall i: nat | i < n - 1 ensures Bit(a / 2, i) == Bit(b / 2, i) {
        assert Bit(a, i + 1) == Bit(b, i + 1);
      }
      BitsDetermine(a / 2, b / 2, n - 1);
    }
  }

  lemma {:induction false} ByteBitsInjective(a: Byte, b: Byte)
    requires ByteBits(a) == ByteBits(b)
    ensures a == b
  {
    forall i: nat | i < BYTE_BITS ensures Bit(a, i) == Bit(b, i) {
      assert i in ByteBits(a) <==> i in ByteBits(b);
    }
    PowersOfTwo();
    BitsDetermine(a, b, 8);
  }

  lemma {:induction false} LittleInjective(a: Bytes, b: Bytes)
    requires |a| == |b| <= 4 && Little(a) == Little(b)
    ensures a == b
    decreases |a|
  {
    if a != [] {
      var x, y := Little(a[1..]), Little(b[1..]);
      LittleBound(a[1..]);
      LittleBound(b[1..]);
      forall i: nat ensures i in ByteBits(a[0]) <==> i in ByteBits(b[0]) {
        assert i < BYTE_BITS ==> (i in Little(a) <==> i in ByteBits(a[0])) && (i in Little(b) <==> i in ByteBits(b[0]));
      }
      forall i: nat ensures i in x <==> i in y {
        RaisedBit(a, i);
        RaisedBit(b, i);
      }
      assert x == y;
      assert ByteBits(a[0]) == ByteBits(b[0]);
      ByteBitsInjective(a[0], b[0]);
      LittleInjective(a[1..], b[1..]);
      assert a == [a[0]] + a[1..] && b == [b[0]] + b[1..];
    }
  }

  lemma {:induction false} RaisedBit(a: Bytes, i: nat)
    requires 0 < |a| <= 4
    ensures i in Little(a[1..]) <==> i + BYTE_BITS in Little(a)
  {
    LittleBound(a[1..]);
    assert i + BYTE_BITS !in ByteBits(a[0]);
  }

  lemma {:induction false} FeedWordInjective(c: Register, a: Bytes, b: Bytes)
    requires |a| == |b| <= 4 && Feed(c, a) == Feed(c, b)
    ensures a == b
  {
    hide Feed, Shifts, Xor, Little;
    FeedWord(c, a);
    FeedWord(c, b);
    ShiftsInjective(Xor(c, Little(a)), Xor(c, Little(b)), BYTE_BITS * |a|);
    XorSymmetric(c, Little(a));
    XorSymmetric(c, Little(b));
    XorCancels(Little(a), Little(b), c);
    LittleInjective(a, b);
  }

  lemma {:induction false} XorSymmetric(a: Register, b: Register)
    ensures Xor(a, b) == Xor(b, a)
  {
  }

  /** Same length, and equal outside the four bytes at `at`. */
  ghost predicate AgreeOutside(a: Bytes, b: Bytes, at: nat) {
    |a| == |b| && forall i | 0 <= i < |a| && !(at <= i < at + 4) :: a[i] == b[i]
  }

  lemma {:induction false} Window(a: Bytes, p: nat, q: nat)
    requires p <= q <= |a|
    ensures a == a[..p] + (a[p..q] + a[q..])
  {
  }

  lemma {:induction false} SameAround(a: Bytes, b: Bytes, at: nat, p: nat, q: nat)
    requires AgreeOutside(a, b, at) && p <= q <= |a| && (p == at || p == |a| < at) && (q == at + 4 || q == |a| < at + 4)
    ensures a[..p] == b[..p] && a[q..] == b[q..]
  {
  }

  /** A change confined to four consecutive bytes always changes the checksum. */
  lemma {:induction false} BurstDetected(a: Bytes, b: Bytes, at: nat)
    requires AgreeOutside(a, b, at) && a != b
    ensures Crc(a) != Crc(b)
  {
    hide Feed, Xor;
    // A window that hangs over the end is cut there.
    var n := |a|;
    var p, q := if at < n then at else n, if at + 4 < n then at + 4 else n;
    Window(a, p, q);
    Window(b, p, q);
    SameAround(a, b, at, p, q);
    var c := Feed(Ones(), a[..p]);
    FeedConcat(Ones(), a[..p], a[p..q] + a[q..]);
    FeedConcat(Ones(), b[..p], b[p..q] + b[q..]);
    FeedConcat(c, a[p..q], a[q..]);
    FeedConcat(c, b[p..q], b[q..]);
    if Crc(a) == Crc(b) {
      XorCancels(Feed(Ones(), a), Feed(Ones(), b), Ones());
      FeedInjective(Feed(c, a[p..q]), Feed(c, b[p..q]), a[q..]);
      FeedWordInjective(c, a[p..q], b[p..q]);
    }
  }
}
