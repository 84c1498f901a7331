/**
  What the shift register computes: the remainder of the message, read as a polynomial over two
  elements, modulo the generator of section 8.1.1.6.2 of ITU-T V.42.

  A polynomial is the set of the exponents whose coefficient is one.
 */
module CrcPolynomial {
  import opened Results
  import opened Crc32
  import opened CrcWord

  type Polynomial = set<nat>

  const GENERATOR: Polynomial := {32, 26, 23, 22, 16, 12, 11, 10, 8, 7, 5, 4, 2, 1, 0}

  predicate OneOf(p: Polynomial, q: Polynomial, e: nat) {
    (e in p) != (e in q)
  }

  function Sum(p: Polynomial, q: Polynomial): Polynomial {
    set e | e in p + q && OneOf(p, q, e)
  }

  /** `p` times x. */
  function Up(p: Polynomial): Polynomial {
    set e | e in p :: e + 1
  }

  function If(b: bool, p: Polynomial): Polynomial {
    if b then p else {}
  }

  /** The generator times the polynomial with these coefficients, the highest first. */
  function Multiple(q: seq<bool>): Polynomial {
    if q == [] then {} else Sum(Up(Multiple(q[..|q| - 1])), If(q[|q| - 1], GENERATOR))
  }

  predicate Mirrored(c: Register, e: nat) {
    BITS - 1 - e in c
  }

  /** The register as a remainder: its lowest bit is the highest coefficient. */
  function Reflected(c: Register): Polynomial {
    set e: nat | e < BITS && Mirrored(c, e)
  }

  // ----- the message

  /** The bits as they are transmitted: bytes in order, and of each byte the lowest bit first. */
  function Transmitted(data: Bytes): (r: seq<bool>)
    ensures |r| == 8 * |data|
    ensures forall i: nat | i < |r| :: r[i] == Bit(data[i / 8], i % 8)
  {
    seq(8 * |data|, i requires 0 <= i < 8 * |data| => Bit(data[i / 8], i % 8))
  }

  /** The bits followed by 32 zeros, and of all these the first 32 complemented. */
  predicate Coefficient(bits: seq<bool>, i: nat) {
    (i < |bits| && bits[i]) != (i < 32)
  }

  predicate CoefficientOf(bits: seq<bool>, e: nat) {
    e < |bits| + 32 && Coefficient(bits, |bits| + 31 - e)
  }

  /** That sequence as a polynomial, the first bit its highest coefficient. */
  function Dividend(bits: seq<bool>): Polynomial {
    set e: nat | e < |bits| + 32 && CoefficientOf(bits, e)
  }

  // ----- polynomials

  lemma {:induction false} InSum(p: Polynomial, q: Polynomial, e: nat)
    ensures e in Sum(p, q) <==> (e in p) != (e in q)
  {
  }

  lemma {:induction false} InUp(p: Polynomial, e: nat)
    ensures e in Up(p) <==> e > 0 && e - 1 in p
  {
    assert e > 0 && e - 1 in p ==> e - 1 + 1 in Up(p);
  }

  lemma {:induction false} UpSum(p: Polynomial, q: Polynomial)
    ensures Up(Sum(p, q)) == Sum(Up(p), Up(q))
  {
    hide Up;
    forall e: nat ensures e in Up(Sum(p, q)) <==> e in Sum(Up(p), Up(q)) {
      InUp(Sum(p, q), e);
      InUp(p, e);
      InUp(q, e);
    }
  }

  /** Sums can be taken in any order. */
  lemma {:induction false} SumPairs(a: Polynomial, b: Polynomial, c: Polynomial, d: Polynomial)
    ensures Sum(Sum(a, b), Sum(c, d)) == Sum(Sum(a, c), Sum(b, d))
  {
    forall e: nat ensures e in Sum(Sum(a, b), Sum(c, d)) <==> e in Sum(Sum(a, c), Sum(b, d)) {
      InSum(Sum(a, b), Sum(c, d), e);
      InSum(Sum(a, c), Sum(b, d), e);
    }
  }

  lemma {:induction false} SumNothing(p: Polynomial)
    ensures Sum(p, {}) == p && Sum({}, p) == p && Sum(p, p) == {}
  {
  }

  lemma {:induction false} SumSwaps(p: Polynomial, q: Polynomial)
    ensures Sum(p, q) == Sum(q, p)
  {
  }

  lemma {:induction false} MultipleSnoc(q: seq<bool>, b: bool)
    ensures Multiple(q + [b]) == Sum(Up(Multiple(q)), If(b, GENERATOR))
  {
    assert (q + [b])[..|q|] == q;
  }

  // ----- one step of the register is one step of the division

  /** One bit enters the register. */
  function Step(c: Register, b: bool): Register {
    Shift(Xor(c, if b then {0} else {}))
  }

  function Divided(c: Register, bits: seq<bool>): Register {
    if bits == [] then c else Step(Divided(c, bits[..|bits| - 1]), bits[|bits| - 1])
  }

  /** Which coefficients the polynomial constant stands for. */
  lemma {:induction false} GeneratorIsPolynomial()
    ensures GENERATOR == Sum({32}, Reflected(Bits(POLYNOMIAL)))
  {
    hide Bits;
    forall e: nat | e < 32 ensures e in GENERATOR <==> BITS - 1 - e in Bits(POLYNOMIAL) {
      PolynomialBit(31 - e);
    }
    forall e: nat ensures e in GENERATOR <==> e in Sum({32}, Reflected(Bits(POLYNOMIAL))) {
      InSum({32}, Reflected(Bits(POLYNOMIAL)), e);
    }
  }

  lemma {:induction false} PolynomialBit(i: nat)
    requires i < 32
    ensures i in Bits(POLYNOMIAL) <==> i in {5, 8, 9, 15, 19, 20, 21, 23, 24, 26, 27, 29, 30, 31}
  {
    hide Spelling;
    var b: Bytes := [0x20, 0x83, 0xB8, 0xED];
    assert Spelling(b) == POLYNOMIAL by { SpellsPolynomial(); }
    SpellingBit(b, i);
    BitsOfBytes(i % 8);
  }

  lemma {:induction false} SpellsPolynomial()
    ensures Spelling([0x20, 0x83, 0xB8, 0xED]) == POLYNOMIAL
  {
  }

  lemma {:induction false} BitsOfBytes(j: nat)
    requires j < 8
    ensures Bit(0x20, j) <==> j == 5
    ensures Bit(0x83, j) <==> j == 0 || j == 1 || j == 7
    ensures Bit(0xB8, j) <==> j == 3 || j == 4 || j == 5 || j == 7
    ensures Bit(0xED, j) <==> j != 1 && j != 4
  {
    assert j == 0 || j == 1 || j == 2 || j == 3 || j == 4 || j == 5 || j == 6 || j == 7;
  }

  lemma {:induction false} ReflectedXor(c: Register, d: Register)
    ensures Reflected(Xor(c, d)) == Sum(Reflected(c), Reflected(d))
  {
    forall e: nat ensures e in Reflected(Xor(c, d)) <==> e in Sum(Reflected(c), Reflected(d)) {
      InSum(Reflected(c), Reflected(d), e);
      assert e < BITS ==> (BITS - 1 - e in Xor(c, d) <==> Differ(c, d, BITS - 1 - e));
    }
  }

  /** Moving the register down multiplies the remainder by x, up to the bit that leaves it. */
  lemma {:induction false} LowerIsUp(c: Register)
    ensures Up(Reflected(c)) == Sum(Reflected(Lower(c)), If(0 in c, {32}))
  {
    hide Up;
    forall e: nat ensures e in Up(Reflected(c)) <==> e in Sum(Reflected(Lower(c)), If(0 in c, {32})) {
      InUp(Reflected(c), e);
      InSum(Reflected(Lower(c)), If(0 in c, {32}), e);
      if 0 < e < 32 {
        assert BITS - 1 - e in Lower(c) <==> Above(c, BITS - 1 - e);
      }
    }
  }

  lemma {:induction false} ShiftIsUp(c: Register)
    ensures Up(Reflected(c)) == Sum(Reflected(Shift(c)), If(0 in c, GENERATOR))
  {
    hide Up, Reflected, Lower, Bits;
    LowerIsUp(c);
    if 0 in c {
      var r, g := Reflected(Lower(c)), Reflected(Bits(POLYNOMIAL));
      ReflectedXor(Lower(c), Bits(POLYNOMIAL));
      GeneratorIsPolynomial();
      SumSwaps({32}, g);
      SumPairs(r, g, g, {32});
      SumNothing(g);
      SumNothing(Sum(r, {32}));
      Regroup(r, g, {32});
    }
  }

  lemma {:induction false} Regroup(r: Polynomial, g: Polynomial, t: Polynomial)
    ensures Sum(Sum(r, g), Sum(t, g)) == Sum(r, t)
  {
    forall e: nat ensures e in Sum(Sum(r, g), Sum(t, g)) <==> e in Sum(r, t) {
      InSum(Sum(r, g), Sum(t, g), e);
    }
  }

  lemma {:induction false} BitEnters(c: Register, b: bool)
    ensures Up(Reflected(Xor(c, if b then {0} else {}))) == Sum(Up(Reflected(c)), If(b, {32}))
  {
    hide Up, Xor, Reflected;
    var bit: Register := if b then {0} else {};
    ReflectedXor(c, bit);
    UpSum(Reflected(c), Reflected(bit));
    assert Up(Reflected(bit)) == If(b, {32}) by { TopBit(b); }
  }

  lemma {:induction false} TopBit(b: bool)
    ensures Up(Reflected(if b then {0} else {})) == If(b, {32})
  {
    hide Up;
    var bit: Register := if b then {0} else {};
    forall e: nat ensures e in Up(Reflected(bit)) <==> e in If(b, {32}) {
      InUp(Reflected(bit), e);
    }
  }

  lemma {:induction false} CoefficientSnoc(bits: seq<bool>, b: bool, e: nat)
    ensures CoefficientOf(bits + [b], e) <==> (e > 0 && CoefficientOf(bits, e - 1)) != (b && e == 32)
  {
    var n := |bits|;
    if 0 < e < n + 33 {
      var i := n + 32 - e;
      assert Coefficient(bits + [b], i) <==> (if i == n && b then !Coefficient(bits, i) else Coefficient(bits, i));
    }
  }

  /** A bit at the end of the message. */
  lemma {:induction false} DividendSnoc(bits: seq<bool>, b: bool)
    ensures Dividend(bits + [b]) == Sum(Up(Dividend(bits)), If(b, {32}))
  {
    hide Up, Coefficient;
    var more := bits + [b];
    forall e: nat ensures e in Dividend(more) <==> e in Sum(Up(Dividend(bits)), If(b, {32})) {
      CoefficientSnoc(bits, b, e);
      InUp(Dividend(bits), e);
      InSum(Up(Dividend(bits)), If(b, {32}), e);
    }
  }

  /** What is divided so far is a multiple of the generator and the register. */
  ghost predicate Leaves(p: Polynomial, c: Register) {
    exists q :: p == Sum(Multiple(q), Reflected(c))
  }

  lemma {:induction false} StepDivides(bits: seq<bool>, b: bool, c: Register)
    requires Leaves(Dividend(bits), c)
    ensures Leaves(Dividend(bits + [b]), Step(c, b))
  {
    hide Up, Multiple, Reflected, Dividend, Xor, Shift, GENERATOR;
    var q :| Dividend(bits) == Sum(Multiple(q), Reflected(c));
    var z := Xor(c, if b then {0} else {});
    DividendSnoc(bits, b);
    UpSum(Multiple(q), Reflected(c));
    BitEnters(c, b);
    ShiftIsUp(z);
    MultipleSnoc(q, 0 in z);
    Associates(Up(Multiple(q)), Up(Reflected(c)), If(b, {32}));
    SumSwaps(Reflected(Shift(z)), If(0 in z, GENERATOR));
    Associates(Up(Multiple(q)), If(0 in z, GENERATOR), Reflected(Shift(z)));
    assert Dividend(bits + [b]) == Sum(Multiple(q + [0 in z]), Reflected(Step(c, b)));
  }

  lemma {:induction false} Associates(p: Polynomial, q: Polynomial, r: Polynomial)
    ensures Sum(Sum(p, q), r) == Sum(p, Sum(q, r))
  {
    forall e: nat ensures e in Sum(Sum(p, q), r) <==> e in Sum(p, Sum(q, r)) {
      InSum(Sum(p, q), r, e);
      InSum(p, Sum(q, r), e);
    }
  }

  lemma {:induction false} DividedLeaves(bits: seq<bool>)
    ensures Leaves(Dividend(bits), Divided(Ones(), bits))
    decreases |bits|
  {
    hide Dividend, Multiple, Reflected, Step;
    if bits == [] {
      NothingDivided();
    } else {
      var n := |bits| - 1;
      DividedLeaves(bits[..n]);
      StepDivides(bits[..n], bits[n], Divided(Ones(), bits[..n]));
      assert bits == bits[..n] + [bits[n]];
    }
  }

  lemma {:induction false} OnesAreAll(i: nat)
    requires i < 32
    ensures i in Ones()
  {
    PowersOfTwo();
    AllOnes(32, i);
  }

  lemma {:induction false} AllOnes(n: nat, i: nat)
    requires i < n
    ensures Power2(n) > 0 && Bit(Power2(n) - 1, i)
    decreases n
  {
    if i > 0 {
      AllOnes(n - 1, i - 1);
      assert (Power2(n) - 1) / 2 == Power2(n - 1) - 1;
    } else if n > 1 {
      AllOnes(n - 1, 0);
    }
  }

  lemma {:induction false} NothingDivided()
    ensures Leaves(Dividend([]), Divided(Ones(), []))
  {
    hide Ones;
    var r := Reflected(Ones());
    forall e: nat ensures e in Dividend([]) <==> e in r {
      if e < 32 {
        OnesAreAll(31 - e);
        assert Coefficient([], 31 - e);
      }
    }
    assert Dividend([]) == r;
    SumNothing(r);
    assert Multiple([]) == {};
  }

  // ----- bytes enter bit by bit

  lemma {:induction false} DividedConcat(c: Register, a: seq<bool>, b: seq<bool>)
    ensures Divided(c, a + b) == Divided(Divided(c, a), b)
    decreases |b|
  {
    hide Step;
    if b == [] {
      assert a + b == a;
    } else {
      assert (a + b)[..|a + b| - 1] == a + b[..|b| - 1];
      DividedConcat(c, a, b[..|b| - 1]);
    }
  }

  /** Up to 32 bits as a register, the first the lowest. */
  function Gathered(bits: seq<bool>): Register {
    set i: nat | i < |bits| && i < BITS && bits[i]
  }

  lemma {:induction false} BitsEnter(c: Register, bits: seq<bool>)
    requires |bits| <= 32
    ensures Shifts(Xor(c, Gathered(bits)), |bits|) == Divided(c, bits)
    decreases |bits|
  {
    hide Shift, Xor, Shifts, Gathered;
    if bits == [] {
      assert Gathered([]) == {} by { NothingGathered(); }
      XorNothing(c);
      NoShifts(c);
    } else {
      var rest := bits[1..];
      var first: Register := if bits[0] then {0} else {};
      FirstBit(c, bits);
      var z := Xor(c, first);
      GatheredFits(rest);
      ShiftDefers(z, Gathered(rest), 1);
      assert Raise(Gathered(rest), 0) == Gathered(rest) by { NotRaised(Gathered(rest)); }
      OneShift(Xor(z, Raise(Gathered(rest), 1)), |bits|);
      BitsEnter(Shift(z), rest);
      assert bits == [bits[0]] + rest;
      DividedConcat(c, [bits[0]], rest);
      assert Divided(c, [bits[0]]) == Step(c, bits[0]) by {
        assert [bits[0]][..0] == [];
        assert Divided(c, []) == c;
      }
    }
  }

  lemma {:induction false} OneShift(c: Register, n: nat)
    requires n > 0
    ensures Shifts(c, n) == Shifts(Shift(c), n - 1)
  {
    hide Shift;
  }

  lemma {:induction false} NothingGathered()
    ensures Gathered([]) == {}
  {
  }

  lemma {:induction false} GatheredFits(bits: seq<bool>)
    requires |bits| < 32
    ensures forall i | i in Gathered(bits) :: i + 1 < BITS
  {
  }

  lemma {:induction false} NotRaised(y: Register)
    ensures Raise(y, 0) == y
  {
  }

  lemma {:induction false} FirstBit(c: Register, bits: seq<bool>)
    requires 0 < |bits| <= 32
    ensures var first: Register := if bits[0] then {0} else {};
            Xor(c, Gathered(bits)) == Xor(Xor(c, first), Raise(Gathered(bits[1..]), 1))
  {
    var first: Register, rest := if bits[0] then {0} else {}, Raise(Gathered(bits[1..]), 1);
    forall i: nat | i < BITS ensures Differ(c, Gathered(bits), i) <==> Differ(Xor(c, first), rest, i) {
      assert i in rest <==> Below(Gathered(bits[1..]), 1, i);
      assert 0 < i < |bits| ==> bits[1..][i - 1] == bits[i];
    }
  }

  lemma {:induction false} FeedIsDivided(c: Register, data: Bytes)
    ensures Feed(c, data) == Divided(c, Transmitted(data))
    decreases |data|
  {
    hide Shifts, Xor, ByteBits, Divided, Bit;
    if data == [] {
      assert Divided(c, []) == c by { NothingEnters(c); }
    } else {
      var first := Transmitted([data[0]]);
      var d := Shifts(Xor(c, ByteBits(data[0])), BYTE_BITS);
      assert Gathered(first) == ByteBits(data[0]) by { ByteGathered(data[0]); }
      BitsEnter(c, first);
      FeedIsDivided(d, data[1..]);
      TransmittedFirst(data);
      DividedConcat(c, first, Transmitted(data[1..]));
    }
  }

  lemma {:induction false} NothingEnters(c: Register)
    ensures Divided(c, []) == c
  {
  }

  lemma {:induction false} ByteGathered(b: Byte)
    ensures Gathered(Transmitted([b])) == ByteBits(b)
  {
    hide Bit;
  }

  lemma {:induction false} TransmittedFirst(data: Bytes)
    requires data != []
    ensures Transmitted(data) == Transmitted([data[0]]) + Transmitted(data[1..])
  {
    hide Bit;
    var a, b, all := Transmitted([data[0]]), Transmitted(data[1..]), Transmitted(data);
    forall i: nat | i < |all| ensures all[i] == (a + b)[i] {
      if i >= 8 {
        assert i / 8 == (i - 8) / 8 + 1 && i % 8 == (i - 8) % 8;
      }
    }
  }

  // ----- remainders are unique

  lemma {:induction false} GeneratorTop()
    ensures 32 in GENERATOR && forall e | e in GENERATOR :: e <= 32
  {
  }

  /** All exponents are at most `m`, which is one of them and at least 32. */
  ghost predicate Top(p: Polynomial, m: nat) {
    m in p && m >= 32 && forall e | e in p :: e <= m
  }

  lemma {:induction false} TopStep(p: Polynomial, b: bool, m: nat)
    requires Top(p, m) || (p == {} && b && m == 31)
    ensures Top(Sum(Up(p), If(b, GENERATOR)), m + 1)
  {
    hide Up, GENERATOR;
    GeneratorTop();
    var r := Sum(Up(p), If(b, GENERATOR));
    InUp(p, m + 1);
    InSum(Up(p), If(b, GENERATOR), m + 1);
    forall e | e in r ensures e <= m + 1 {
      InUp(p, e);
      InSum(Up(p), If(b, GENERATOR), e);
    }
  }

  /** A multiple of the generator is nothing, or has a highest exponent of at least 32. */
  lemma {:induction false} MultipleIsLarge(q: seq<bool>)
    ensures Multiple(q) == {} || exists m :: Top(Multiple(q), m)
    decreases |q|
  {
    hide Up, Top, GENERATOR, Sum;
    if q != [] {
      var p, b := Multiple(q[..|q| - 1]), q[|q| - 1];
      MultipleIsLarge(q[..|q| - 1]);
      if p != {} {
        var m :| Top(p, m);
        TopStep(p, b, m);
      } else if b {
        TopStep(p, b, 31);
      } else {
        UpNothing();
        SumNothing({});
      }
    }
  }

  function Zeros(n: nat): (r: seq<bool>)
    ensures |r| == n
  {
    seq(n, _ => false)
  }

  lemma {:induction false} LeadingZeros(n: nat, q: seq<bool>)
    ensures Multiple(Zeros(n) + q) == Multiple(q)
    decreases |q|, n
  {
    hide Up;
    if q != [] {
      var k := |q| - 1;
      assert Zeros(n) + q == Zeros(n) + q[..k] + [q[k]] && q == q[..k] + [q[k]];
      MultipleSnoc(Zeros(n) + q[..k], q[k]);
      LeadingZeros(n, q[..k]);
    } else if n > 0 {
      assert Zeros(n) + q == Zeros(n - 1) + [] + [false];
      MultipleSnoc(Zeros(n - 1) + [], false);
      LeadingZeros(n - 1, []);
      assert Up({}) == {} by { UpNothing(); }
      SumNothing({});
    } else {
      assert Zeros(n) + q == q;
    }
  }

  lemma {:induction false} UpNothing()
    ensures Up({}) == {}
  {
  }

  function Mixed(q: seq<bool>, r: seq<bool>): (m: seq<bool>)
    requires |q| == |r|
    ensures |m| == |q|
  {
    seq(|q|, i requires 0 <= i < |q| => q[i] != r[i])
  }

  lemma {:induction false} MultipleMixed(q: seq<bool>, r: seq<bool>)
    requires |q| == |r|
    ensures Multiple(Mixed(q, r)) == Sum(Multiple(q), Multiple(r))
    decreases |q|
  {
    hide Up;
    if q == [] {
      SumNothing({});
    } else {
      var k := |q| - 1;
      var a, b := Multiple(q[..k]), Multiple(r[..k]);
      MultipleMixed(q[..k], r[..k]);
      assert Mixed(q, r) == Mixed(q[..k], r[..k]) + [q[k] != r[k]];
      MultipleSnoc(Mixed(q[..k], r[..k]), q[k] != r[k]);
      UpSum(a, b);
      SumPairs(Up(a), If(q[k], GENERATOR), Up(b), If(r[k], GENERATOR));
      SumNothing(GENERATOR);
      SumNothing({});
    }
  }

  lemma {:induction false} SumOfMultiples(q: seq<bool>, r: seq<bool>) returns (m: seq<bool>)
    ensures Multiple(m) == Sum(Multiple(q), Multiple(r))
  {
    hide Multiple, Sum;
    var a, b := Zeros(|r|) + q, Zeros(|q|) + r;
    LeadingZeros(|r|, q);
    LeadingZeros(|q|, r);
    MultipleMixed(a, b);
    m := Mixed(a, b);
  }

  lemma {:induction false} RemainderIsUnique(p: Polynomial, c: Register, d: Register)
    requires Leaves(p, c) && Leaves(p, d)
    ensures c == d
  {
    hide Multiple;
    var q :| p == Sum(Multiple(q), Reflected(c));
    var r :| p == Sum(Multiple(r), Reflected(d));
    var m := SumOfMultiples(q, r);
    MultipleIsLarge(m);
    forall e: nat ensures e in Multiple(m) <==> e in Sum(Reflected(c), Reflected(d)) {
      InSum(Multiple(q), Multiple(r), e);
      InSum(Multiple(q), Reflected(c), e);
      InSum(Multiple(r), Reflected(d), e);
      InSum(Reflected(c), Reflected(d), e);
    }
    forall i: nat | i < BITS ensures i in c <==> i in d {
      InSum(Reflected(c), Reflected(d), BITS - 1 - i);
      assert Mirrored(c, BITS - 1 - i) == (i in c) && Mirrored(d, BITS - 1 - i) == (i in d);
    }
  }

  /**
    For every message the checksum is the complement of a register exactly if that register is the
    remainder of the message, its first 32 bits complemented, modulo the generator.
   */
  lemma {:induction false} CrcIsRemainder(data: Bytes, r: Register)
    ensures Crc(data) == Xor(r, Ones()) <==> Leaves(Dividend(Transmitted(data)), r)
  {
    hide Feed, Divided, Dividend, Leaves, Xor;
    var c := Feed(Ones(), data);
    FeedIsDivided(Ones(), data);
    DividedLeaves(Transmitted(data));
    if Crc(data) == Xor(r, Ones()) {
      XorCancels(r, c, Ones());
    }
    if Leaves(Dividend(Transmitted(data)), r) {
      RemainderIsUnique(Dividend(Transmitted(data)), r, c);
    }
  }
}
