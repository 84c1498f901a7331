/** The register's step on machine words, and three words carried through 448 steps. */
module CrcWord {
  import opened Results
  import opened Crc32
  import opened CrcStored

  // ----- words of 32 bits as registers

  predicate Low(x: bv32) {
    x & 1 == 1
  }

  function Half(x: bv32): bv32 {
    x >> 1
  }

  function Plus(x: bv32, y: bv32): bv32 {
    x ^ y
  }

  function Eighth(x: bv32): bv32 {
    x >> 8
  }

  predicate WordBit(x: bv32, i: nat)
    decreases i
  {
    if i == 0 then Low(x) else WordBit(Half(x), i - 1)
  }

  function WordBits(x: bv32): Register {
    set i: nat | i < BITS && WordBit(x, i)
  }

  lemma {:induction false} LowAndHalf(x: bv32, y: bv32)
    ensures Low(Plus(x, y)) <==> Low(x) != Low(y)
    ensures Half(Plus(x, y)) == Plus(Half(x), Half(y))
  {
  }

  lemma {:induction false} PlusBit(x: bv32, y: bv32, i: nat)
    ensures WordBit(Plus(x, y), i) <==> WordBit(x, i) != WordBit(y, i)
    decreases i
  {
    hide Low, Half, Plus;
    LowAndHalf(x, y);
    if i > 0 {
      PlusBit(Half(x), Half(y), i - 1);
    }
  }

  lemma {:induction false} EightHalves(x: bv32)
    ensures Half(Half(Half(Half(Half(Half(Half(Half(x)))))))) == Eighth(x)
    ensures Eighth(Eighth(Eighth(Eighth(x)))) == 0
  {
  }

  lemma {:induction false} TwoBits(x: bv32, i: nat)
    ensures WordBit(x, i + 2) == WordBit(Half(Half(x)), i)
  {
    hide Low, Half;
    assert WordBit(x, i + 2) == WordBit(Half(x), i + 1);
  }

  lemma {:induction false} EightBits(x: bv32, i: nat)
    ensures WordBit(x, i + 8) == WordBit(Eighth(x), i)
  {
    hide WordBit, Half, Eighth;
    EightHalves(x);
    TwoBits(x, i + 6);
    TwoBits(Half(Half(x)), i + 4);
    TwoBits(Half(Half(Half(Half(x)))), i + 2);
    TwoBits(Half(Half(Half(Half(Half(Half(x)))))), i);
  }

  lemma {:induction false} NoBit32(x: bv32)
    ensures !WordBit(x, 32)
  {
    hide Half, Eighth;
    EightHalves(x);
    EightBits(x, 24);
    EightBits(Eighth(x), 16);
    EightBits(Eighth(Eighth(x)), 8);
    EightBits(Eighth(Eighth(Eighth(x))), 0);
  }

  // ----- words written as numbers

  /** The `k` low bits agree. */
  predicate Same(n: nat, x: bv32, k: nat)
    decreases k
  {
    k == 0 || ((n % 2 == 1 <==> Low(x)) && Same(n / 2, Half(x), k - 1))
  }

  lemma {:induction false} SameBit(n: nat, x: bv32, k: nat, i: nat)
    requires Same(n, x, k) && i < k
    ensures WordBit(x, i) <==> Bit(n, i)
    decreases i
  {
    hide Low, Half;
    if i > 0 {
      SameBit(n / 2, Half(x), k - 1, i - 1);
    }
  }

  /** A number's bits, split after the lowest byte. */
  lemma {:induction false} BitAbove(high: nat, low: nat, k: nat, i: nat)
    requires low < Power2(k)
    ensures Bit(Power2(k) * high + low, i) <==> if i < k then Bit(low, i) else Bit(high, i - k)
    decreases k
  {
    var n := Power2(k) * high + low;
    if k > 0 {
      assert n == 2 * (Power2(k - 1) * high) + low;
      assert n % 2 == low % 2 && n / 2 == Power2(k - 1) * high + low / 2;
      if i > 0 {
        BitAbove(high, low / 2, k - 1, i - 1);
      }
    }
  }

  lemma {:induction false} ByteAbove(high: nat, low: Byte, i: nat)
    ensures Bit(256 * high + low, i) <==> if i < 8 then Bit(low, i) else Bit(high, i - 8)
  {
    PowersOfTwo();
    BitAbove(high, low, 8, i);
  }

  /** A word and the number that its four bytes spell, lowest first. */
  predicate Spelled(b: Bytes, x: bv32) {
    && |b| == 4
    && Same(b[0], x, 8) && Same(b[1], Eighth(x), 8) && Same(b[2], Eighth(Eighth(x)), 8)
    && Same(b[3], Eighth(Eighth(Eighth(x))), 8)
  }

  function Spelling(b: Bytes): nat
    requires |b| == 4
  {
    var b0: int, b1: int, b2: int, b3: int := b[0], b[1], b[2], b[3];
    256 * (256 * (256 * b3 + b2) + b1) + b0
  }

  lemma {:induction false} SpelledBit(b: Bytes, x: bv32, i: nat)
    requires Spelled(b, x) && i < BITS
    ensures WordBit(x, i) <==> Bit(b[i / 8], i % 8)
  {
    hide WordBit, Bit, Same, Eighth;
    if i < 8 {
      SameBit(b[0], x, 8, i);
    } else if i < 16 {
      EightBits(x, i - 8);
      SameBit(b[1], Eighth(x), 8, i - 8);
    } else if i < 24 {
      EightBits(x, i - 8);
      EightBits(Eighth(x), i - 16);
      SameBit(b[2], Eighth(Eighth(x)), 8, i - 16);
    } else {
      EightBits(x, i - 8);
      EightBits(Eighth(x), i - 16);
      EightBits(Eighth(Eighth(x)), i - 24);
      SameBit(b[3], Eighth(Eighth(Eighth(x))), 8, i - 24);
    }
  }

  lemma {:induction false} SpellingBit(b: Bytes, i: nat)
    requires |b| == 4 && i < BITS
    ensures Bit(Spelling(b), i) <==> Bit(b[i / 8], i % 8)
  {
    hide Bit;
    var b0: int, b1: int, b2: int, b3: int := b[0], b[1], b[2], b[3];
    ByteAbove(256 * (256 * b3 + b2) + b1, b[0], i);
    if i >= 8 {
      ByteAbove(256 * b3 + b2, b[1], i - 8);
      if i >= 16 {
        ByteAbove(b3, b[2], i - 16);
      }
    }
  }

  lemma {:induction false} SpelledBits(b: Bytes, x: bv32)
    requires |b| == 4 && Spelled(b, x)
    ensures WordBits(x) == Bits(Spelling(b)) == Loaded([b[3], b[2], b[1], b[0]])
  {
    hide WordBit, Bit, Spelled, Spelling;
    var stored := [b[3], b[2], b[1], b[0]];
    forall i: nat | i < BITS ensures WordBit(x, i) == Bit(Spelling(b), i) == StoredBit(stored, i) {
      SpelledBit(b, x, i);
      SpellingBit(b, i);
    }
  }

  lemma {:induction false} PolynomialWord()
    ensures WordBits(0xEDB88320) == Bits(POLYNOMIAL)
  {
    hide WordBits, Bits;
    assert Spelled([0x20, 0x83, 0xB8, 0xED], 0xEDB88320);
    SpelledBits([0x20, 0x83, 0xB8, 0xED], 0xEDB88320);
  }

  // ----- the register's step on words

  function Step(x: bv32): bv32 {
    if x & 1 == 1 then (x >> 1) ^ 0xEDB88320 else x >> 1
  }

  lemma {:induction false} StepParts(x: bv32)
    ensures Step(x) == if Low(x) then Plus(Half(x), 0xEDB88320) else Half(x)
  {
  }

  lemma {:induction false} StepIsShift(x: bv32)
    ensures WordBits(Step(x)) == Shift(WordBits(x))
  {
    hide Bits, Low, Half, Plus, Step;
    StepParts(x);
    PolynomialWord();
    var c := WordBits(x);
    assert 0 in c <==> Low(x);
    forall i: nat | i < BITS ensures WordBit(Half(x), i) <==> i in Lower(c) {
      if i == 31 {
        NoBit32(x);
      }
    }
    assert WordBits(Half(x)) == Lower(c);
    if Low(x) {
      forall i: nat | i < BITS
        ensures WordBit(Plus(Half(x), 0xEDB88320), i) <==> Differ(Lower(c), Bits(POLYNOMIAL), i)
      {
        PlusBit(Half(x), 0xEDB88320, i);
        assert WordBit(0xEDB88320, i) <==> i in WordBits(0xEDB88320);
      }
    }
  }

  function EightSteps(x: bv32): bv32 {
    Step(Step(Step(Step(Step(Step(Step(Step(x))))))))
  }

  /** `8 * n` steps. */
  function Steps(x: bv32, n: nat): bv32
    decreases n
  {
    if n == 0 then x else Steps(EightSteps(x), n - 1)
  }

  lemma {:induction false} EightAreShifts(x: bv32)
    ensures WordBits(EightSteps(x)) == Shifts(WordBits(x), 8)
  {
    hide WordBits, Shift, Step;
    var y := Step(Step(Step(Step(x))));
    FourAreShifts(x);
    FourAreShifts(y);
    ShiftsAdd(WordBits(x), 4, 4);
  }

  lemma {:induction false} FourAreShifts(x: bv32)
    ensures WordBits(Step(Step(Step(Step(x))))) == Shifts(WordBits(x), 4)
  {
    hide WordBits, Shift, Step;
    var x1, x2, x3 := Step(x), Step(Step(x)), Step(Step(Step(x)));
    StepIsShift(x);
    StepIsShift(x1);
    StepIsShift(x2);
    StepIsShift(x3);
    assert Shifts(WordBits(x), 4) == Shifts(WordBits(x1), 3);
    assert Shifts(WordBits(x1), 3) == Shifts(WordBits(x2), 2);
    assert Shifts(WordBits(x2), 2) == Shifts(WordBits(x3), 1);
  }

  lemma {:induction false} StepsAreShifts(x: bv32, n: nat)
    ensures WordBits(Steps(x, n)) == Shifts(WordBits(x), 8 * n)
    decreases n
  {
    hide WordBits, EightSteps, Shift;
    if n > 0 {
      EightAreShifts(x);
      StepsAreShifts(EightSteps(x), n - 1);
      ShiftsAdd(WordBits(x), 8, 8 * (n - 1));
    }
  }

  lemma {:induction false} StepsAdd(x: bv32, m: nat, n: nat)
    ensures Steps(x, m + n) == Steps(Steps(x, m), n)
    decreases m
  {
    hide EightSteps;
    if m > 0 {
      StepsAdd(EightSteps(x), m - 1, n);
    }
  }

  /** 64 steps from each word to the next. */
  lemma {:induction false} Chain(w: seq<bv32>)
    requires |w| > 0 && forall k | 0 <= k < |w| - 1 :: Steps(w[k], 8) == w[k + 1]
    ensures Steps(w[0], 8 * (|w| - 1)) == w[|w| - 1]
    decreases |w|
  {
    hide EightSteps;
    if |w| > 1 {
      Chain(w[1..]);
      StepsAdd(w[0], 8, 8 * (|w| - 2));
    }
  }

  // ----- 448 steps from three words

  lemma {:induction false} First1()
    ensures Steps(0xE1, 8) == 0x4F7A25FF
  {
    assert EightSteps(0xE1) == 0xD70DD2EE;
    assert EightSteps(0xD70DD2EE) == 0x4765C2AD;
    assert EightSteps(0x4765C2AD) == 0xA820BA97;
    assert EightSteps(0xA820BA97) == 0x6EC3265D;
    assert EightSteps(0x6EC3265D) == 0x15B4EE6F;
    assert EightSteps(0x15B4EE6F) == 0xDD18C827;
    assert EightSteps(0xDD18C827) == 0xA5D7ADA3;
    assert EightSteps(0xA5D7ADA3) == 0x4F7A25FF;
  }

  lemma {:induction false} First2()
    ensures Steps(0x4F7A25FF, 8) == 0xCBD4F1E2
  {
    assert EightSteps(0x4F7A25FF) == 0x2D4D95A8;
    assert EightSteps(0x2D4D95A8) == 0xD820664F;
    assert EightSteps(0xD820664F) == 0xE6BB7C67;
    assert EightSteps(0xE6BB7C67) == 0xD3304F87;
    assert EightSteps(0xD3304F87) == 0x730F26CC;
    assert EightSteps(0x730F26CC) == 0x92A181BD;
    assert EightSteps(0x92A181BD) == 0xB5426EB0;
    assert EightSteps(0xB5426EB0) == 0xCBD4F1E2;
  }

  lemma {:induction false} First3()
    ensures Steps(0xCBD4F1E2, 8) == 0x14969482
  {
    assert EightSteps(0xCBD4F1E2) == 0x4ECF57A5;
    assert EightSteps(0x4ECF57A5) == 0xA6F29830;
    assert EightSteps(0xA6F29830) == 0x267FC234;
    assert EightSteps(0x267FC234) == 0x21928B77;
    assert EightSteps(0x21928B77) == 0xCE407614;
    assert EightSteps(0xCE407614) == 0x1A14940B;
    assert EightSteps(0x1A14940B) == 0x97C8CD1C;
    assert EightSteps(0x97C8CD1C) == 0x14969482;
  }

  lemma {:induction false} First4()
    ensures Steps(0x14969482, 8) == 0x54C61494
  {
    assert EightSteps(0x14969482) == 0x3A27498;
    assert EightSteps(0x3A27498) == 0xFED7B902;
    assert EightSteps(0xFED7B902) == 0xEEF0B695;
    assert EightSteps(0xEEF0B695) == 0x808B977D;
    assert EightSteps(0x808B977D) == 0x2E348616;
    assert EightSteps(0x2E348616) == 0xF4FA81D7;
    assert EightSteps(0xF4FA81D7) == 0x1843BDF6;
    assert EightSteps(0x1843BDF6) == 0x54C61494;
  }

  lemma {:induction false} First5()
    ensures Steps(0x54C61494, 8) == 0x32799674
  {
    assert EightSteps(0x54C61494) == 0xF7369149;
    assert EightSteps(0xF7369149) == 0xFF7CFA5;
    assert EightSteps(0xFF7CFA5) == 0xA6B3A0A8;
    assert EightSteps(0xA6B3A0A8) == 0xD8AB987A;
    assert EightSteps(0xD8AB987A) == 0xB00833BA;
    assert EightSteps(0xB00833BA) == 0x2B0452A1;
    assert EightSteps(0x2B0452A1) == 0xA1FA972C;
    assert EightSteps(0xA1FA972C) == 0x32799674;
  }

  lemma {:induction false} First6()
    ensures Steps(0x32799674, 8) == 0x53CE6B83
  {
    assert EightSteps(0x32799674) == 0x575ACCB3;
    assert EightSteps(0x575ACCB3) == 0x523FB8FA;
    assert EightSteps(0x523FB8FA) == 0x5D3A24BA;
    assert EightSteps(0x5D3A24BA) == 0x2BE960B6;
    assert EightSteps(0x2BE960B6) == 0x2229FFD9;
    assert EightSteps(0x2229FFD9) == 0xFF2D438F;
    assert EightSteps(0xFF2D438F) == 0x7DF8B3F2;
    assert EightSteps(0x7DF8B3F2) == 0x53CE6B83;
  }

  lemma {:induction false} First7()
    ensures Steps(0x53CE6B83, 8) == 0x5450F9
  {
    assert EightSteps(0x53CE6B83) == 0x74E21CF1;
    assert EightSteps(0x74E21CF1) == 0xCACE2096;
    assert EightSteps(0xCACE2096) == 0x19A6F851;
    assert EightSteps(0x19A6F851) == 0x1C75C79A;
    assert EightSteps(0x1C75C79A) == 0x10C60F9D;
    assert EightSteps(0x10C60F9D) == 0x8EAE29F6;
    assert EightSteps(0x8EAE29F6) == 0x5450F900;
    assert EightSteps(0x5450F900) == 0x5450F9;
  }

  lemma {:induction false} First()
    ensures Steps(0xE1, 56) == 0x5450F9
  {
    hide Steps;
    First1(); First2(); First3(); First4(); First5(); First6(); First7();
    Chain([0xE1, 0x4F7A25FF, 0xCBD4F1E2, 0x14969482, 0x54C61494, 0x32799674, 0x53CE6B83, 0x5450F9]);
  }

  lemma {:induction false} Second1()
    ensures Steps(0xD55, 8) == 0x7C119C62
  {
    assert EightSteps(0xD55) == 0x1B01A576;
    assert EightSteps(0x1B01A576) == 0xB97DD5AC;
    assert EightSteps(0xB97DD5AC) == 0xDFD99216;
    assert EightSteps(0xDFD99216) == 0xF40B6CC3;
    assert EightSteps(0xF40B6CC3) == 0x2999866;
    assert EightSteps(0x2999866) == 0xA4D35DF5;
    assert EightSteps(0xA4D35DF5) == 0xCD73D5CE;
    assert EightSteps(0xCD73D5CE) == 0x7C119C62;
  }

  lemma {:induction false} Second2()
    ensures Steps(0x7C119C62, 8) == 0x4E0E677E
  {
    assert EightSteps(0x7C119C62) == 0xA3C011E8;
    assert EightSteps(0xA3C011E8) == 0xAE72AA5B;
    assert EightSteps(0xAE72AA5B) == 0xFC17FAD6;
    assert EightSteps(0xFC17FAD6) == 0x6F4C601B;
    assert EightSteps(0x6F4C601B) == 0x8A0A858C;
    assert EightSteps(0x8A0A858C) == 0xE484C58E;
    assert EightSteps(0xE484C58E) == 0xAE42AE2;
    assert EightSteps(0xAE42AE2) == 0x4E0E677E;
  }

  lemma {:induction false} Second3()
    ensures Steps(0x4E0E677E, 8) == 0x2A027691
  {
    assert EightSteps(0x4E0E677E) == 0xB7F3525C;
    assert EightSteps(0xB7F3525C) == 0x626AEE8D;
    assert EightSteps(0x626AEE8D) == 0x936B9573;
    assert EightSteps(0x936B9573) == 0xC99F4B13;
    assert EightSteps(0xC99F4B13) == 0x8477DE95;
    assert EightSteps(0x8477DE95) == 0x80E11015;
    assert EightSteps(0x80E11015) == 0x6D5D05FB;
    assert EightSteps(0x6D5D05FB) == 0x2A027691;
  }

  lemma {:induction false} Second4()
    ensures Steps(0x2A027691, 8) == 0xAA2BC7D0
  {
    assert EightSteps(0x2A027691) == 0x8722A1A4;
    assert EightSteps(0x8722A1A4) == 0xD13C4550;
    assert EightSteps(0xD13C4550) == 0x6BBA6DB1;
    assert EightSteps(0x6BBA6DB1) == 0xBC0D3977;
    assert EightSteps(0xBC0D3977) == 0xCEDDE9A6;
    assert EightSteps(0xCEDDE9A6) == 0x3F7BDB34;
    assert EightSteps(0x3F7BDB34) == 0x218B8F6E;
    assert EightSteps(0x218B8F6E) == 0xAA2BC7D0;
  }

  lemma {:induction false} Second5()
    ensures Steps(0xAA2BC7D0, 8) == 0x585BA5DB
  {
    assert EightSteps(0xAA2BC7D0) == 0x8679F913;
    assert EightSteps(0x8679F913) == 0x84383827;
    assert EightSteps(0x84383827) == 0xA58E8D53;
    assert EightSteps(0xA58E8D53) == 0xF2C78EC3;
    assert EightSteps(0xF2C78EC3) == 0x29F5484;
    assert EightSteps(0x29F5484) == 0xEAD7D86D;
    assert EightSteps(0xEAD7D86D) == 0x33E9CA3D;
    assert EightSteps(0x33E9CA3D) == 0x585BA5DB;
  }

  lemma {:induction false} Second6()
    ensures Steps(0x585BA5DB, 8) == 0x20CEEABD
  {
    assert EightSteps(0x585BA5DB) == 0x115950F9;
    assert EightSteps(0x115950F9) == 0xC47013E8;
    assert EightSteps(0xC47013E8) == 0xAE151A59;
    assert EightSteps(0xAE151A59) == 0x1219FC4A;
    assert EightSteps(0x1219FC4A) == 0x961BB172;
    assert EightSteps(0x961BB172) == 0xBE9D0BA1;
    assert EightSteps(0xBE9D0BA1) == 0xA16F0E75;
    assert EightSteps(0xA16F0E75) == 0x20CEEABD;
  }

  lemma {:induction false} Second7()
    ensures Steps(0x20CEEABD, 8) == 0x6AEF
  {
    assert EightSteps(0x20CEEABD) == 0xB5F001DB;
    assert EightSteps(0xB5F001DB) == 0x11B4FB5D;
    assert EightSteps(0x11B4FB5D) == 0x15CB99B2;
    assert EightSteps(0x15CB99B2) == 0x257A1939;
    assert EightSteps(0x257A1939) == 0x5F20F211;
    assert EightSteps(0x5F20F211) == 0x6AEF0000;
    assert EightSteps(0x6AEF0000) == 0x6AEF00;
    assert EightSteps(0x6AEF00) == 0x6AEF;
  }

  lemma {:induction false} Second()
    ensures Steps(0xD55, 56) == 0x6AEF
  {
    hide Steps;
    Second1(); Second2(); Second3(); Second4(); Second5(); Second6(); Second7();
    Chain([0xD55, 0x7C119C62, 0x4E0E677E, 0x2A027691, 0xAA2BC7D0, 0x585BA5DB, 0x20CEEABD, 0x6AEF]);
  }

  lemma {:induction false} Third1()
    ensures Steps(0xB83387, 8) == 0x36ECA214
  {
    assert EightSteps(0xB83387) == 0x73DCAEB0;
    assert EightSteps(0x73DCAEB0) == 0xCB126F22;
    assert EightSteps(0xCB126F22) == 0xD5AB538B;
    assert EightSteps(0xD5AB538B) == 0x7ABFF1FB;
    assert EightSteps(0x7ABFF1FB) == 0x2A159465;
    assert EightSteps(0x2A159465) == 0x3DF28043;
    assert EightSteps(0x3DF28043) == 0xEFE8E2AA;
    assert EightSteps(0xEFE8E2AA) == 0x36ECA214;
  }

  lemma {:induction false} Third2()
    ensures Steps(0x36ECA214, 8) == 0x67226B49
  {
    assert EightSteps(0x36ECA214) == 0x1AEC38DF;
    assert EightSteps(0x1AEC38DF) == 0x1676237D;
    assert EightSteps(0x1676237D) == 0x2EA27BA2;
    assert EightSteps(0x2EA27BA2) == 0x38F660BF;
    assert EightSteps(0x38F660BF) == 0x5BE6587D;
    assert EightSteps(0x5BE6587D) == 0x2EEFEBD9;
    assert EightSteps(0x2EEFEBD9) == 0xFF21859B;
    assert EightSteps(0xFF21859B) == 0x67226B49;
  }

  lemma {:induction false} Third3()
    ensures Steps(0x67226B49, 8) == 0xDE15CEB9
  {
    assert EightSteps(0x67226B49) == 0xF67DB5F;
    assert EightSteps(0xF67DB5F) == 0xFBDB2BBE;
    assert EightSteps(0xFBDB2BBE) == 0x2C2245A0;
    assert EightSteps(0x2C2245A0) == 0xD6FA81AD;
    assert EightSteps(0xD6FA81AD) == 0xA8B125D4;
    assert EightSteps(0xA8B125D4) == 0x8116A7E8;
    assert EightSteps(0x8116A7E8) == 0xAE507CED;
    assert EightSteps(0xAE507CED) == 0xDE15CEB9;
  }

  lemma {:induction false} Third4()
    ensures Steps(0xDE15CEB9, 8) == 0x30457B4A
  {
    assert EightSteps(0xDE15CEB9) == 0xB2631EE6;
    assert EightSteps(0xB2631EE6) == 0x49DB2453;
    assert EightSteps(0x49DB2453) == 0xF22BDB6A;
    assert EightSteps(0xF22BDB6A) == 0xAD95A39D;
    assert EightSteps(0xAD95A39D) == 0x8E137A5A;
    assert EightSteps(0x8E137A5A) == 0x8B30AB90;
    assert EightSteps(0x8B30AB90) == 0xF084A3EF;
    assert EightSteps(0xF084A3EF) == 0x30457B4A;
  }

  lemma {:induction false} Third5()
    ensures Steps(0x30457B4A, 8) == 0xA88679AD
  {
    assert EightSteps(0x30457B4A) == 0x9639EDF5;
    assert EightSteps(0x9639EDF5) == 0xCD413F7E;
    assert EightSteps(0xCD413F7E) == 0xB7701D04;
    assert EightSteps(0xB7701D04) == 0x7DAB404;
    assert EightSteps(0x7DAB404) == 0x76A1EAD;
    assert EightSteps(0x76A1EAD) == 0xA860B54B;
    assert EightSteps(0xA860B54B) == 0xE1A6F8AD;
    assert EightSteps(0xE1A6F8AD) == 0xA88679AD;
  }

  lemma {:induction false} Third6()
    ensures Steps(0xA88679AD, 8) == 0xC0064437
  {
    assert EightSteps(0xA88679AD) == 0xA8CF592C;
    assert EightSteps(0xA8CF592C) == 0x3270A3BA;
    assert EightSteps(0x3270A3BA) == 0x2B862A31;
    assert EightSteps(0x2B862A31) == 0x51F58610;
    assert EightSteps(0x51F58610) == 0x1DE6E5E2;
    assert EightSteps(0x1DE6E5E2) == 0x4E1965B1;
    assert EightSteps(0x4E1965B1) == 0xBC289A7F;
    assert EightSteps(0xBC289A7F) == 0xC0064437;
  }

  lemma {:induction false} Third7()
    ensures Steps(0xC0064437, 8) == 0xC8
  {
    assert EightSteps(0xC0064437) == 0xB87DA34B;
    assert EightSteps(0xB87DA34B) == 0xE1B6E5BB;
    assert EightSteps(0xE1B6E5BB) == 0x5C52DCE1;
    assert EightSteps(0x5C52DCE1) == 0xD7518032;
    assert EightSteps(0xD7518032) == 0xC8000000;
    assert EightSteps(0xC8000000) == 0xC80000;
    assert EightSteps(0xC80000) == 0xC800;
    assert EightSteps(0xC800) == 0xC8;
  }

  lemma {:induction false} Third()
    ensures Steps(0xB83387, 56) == 0xC8
  {
    hide Steps;
    Third1(); Third2(); Third3(); Third4(); Third5(); Third6(); Third7();
    Chain([0xB83387, 0x36ECA214, 0x67226B49, 0xDE15CEB9, 0x30457B4A, 0xA88679AD, 0xC0064437, 0xC8]);
  }
}
