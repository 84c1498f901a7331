/** The published figures of the checksum: nothing, the digits 1 to 9, and the residue of every message. */
module CrcStandard {
  import opened Results
  import opened Crc32
  import opened CrcStored
  import opened CrcLinear
  import opened CrcWord

  /** Four bits more, the lowest of all, on which number and word agree. */
  lemma {:induction false} FourMore(n: nat, x: bv32, x1: bv32, x2: bv32, x3: bv32, x4: bv32, k: nat)
    requires Half(x) == x1 && Half(x1) == x2 && Half(x2) == x3 && Half(x3) == x4 && Same(n / 16, x4, k)
    requires (n % 2 == 1 <==> Low(x)) && (n / 2 % 2 == 1 <==> Low(x1))
    requires (n / 4 % 2 == 1 <==> Low(x2)) && (n / 8 % 2 == 1 <==> Low(x3))
    ensures Same(n, x, k + 4)
  {
    hide Low, Half;
    assert n / 8 / 2 == n / 16 && n / 4 / 2 == n / 8 && n / 2 / 2 == n / 4;
    assert Same(n / 8, x3, k + 1);
    assert Same(n / 4, x2, k + 2);
    assert Same(n / 2, x1, k + 3);
  }

  lemma {:induction false} SameNothing(n: nat, x: bv32)
    ensures Same(n, x, 0)
  {
  }

  lemma {:induction false} SameIsBits(n: nat, x: bv32)
    requires Same(n, x, 32)
    ensures WordBits(x) == Bits(n)
  {
    hide Same, Bit, WordBit;
    forall i: nat | i < BITS ensures WordBit(x, i) <==> Bit(n, i) {
      SameBit(n, x, 32, i);
    }
  }

  lemma {:induction false} OnesWord()
    ensures WordBits(0xFFFF_FFFF) == Ones()
  {
    hide Same, Bits, WordBits;
    SameNothing(0x0, 0x0);
    FourMore(0xF, 0xF, 0x7, 0x3, 0x1, 0x0, 0);
    FourMore(0xFF, 0xFF, 0x7F, 0x3F, 0x1F, 0xF, 4);
    FourMore(0xFFF, 0xFFF, 0x7FF, 0x3FF, 0x1FF, 0xFF, 8);
    FourMore(0xFFFF, 0xFFFF, 0x7FFF, 0x3FFF, 0x1FFF, 0xFFF, 12);
    FourMore(0xFFFFF, 0xFFFFF, 0x7FFFF, 0x3FFFF, 0x1FFFF, 0xFFFF, 16);
    FourMore(0xFFFFFF, 0xFFFFFF, 0x7FFFFF, 0x3FFFFF, 0x1FFFFF, 0xFFFFF, 20);
    FourMore(0xFFFFFFF, 0xFFFFFFF, 0x7FFFFFF, 0x3FFFFFF, 0x1FFFFFF, 0xFFFFFF, 24);
    FourMore(0xFFFFFFFF, 0xFFFFFFFF, 0x7FFFFFFF, 0x3FFFFFFF, 0x1FFFFFFF, 0xFFFFFFF, 28);
    SameIsBits(0xFFFFFFFF, 0xFFFFFFFF);
  }

  lemma {:induction false} ResidueBits()
    ensures WordBits(0xDEBB20E3) == Bits(0xDEBB20E3)
  {
    hide Same, Bits, WordBits;
    SameNothing(0x0, 0x0);
    FourMore(0xD, 0xD, 0x6, 0x3, 0x1, 0x0, 0);
    FourMore(0xDE, 0xDE, 0x6F, 0x37, 0x1B, 0xD, 4);
    FourMore(0xDEB, 0xDEB, 0x6F5, 0x37A, 0x1BD, 0xDE, 8);
    FourMore(0xDEBB, 0xDEBB, 0x6F5D, 0x37AE, 0x1BD7, 0xDEB, 12);
    FourMore(0xDEBB2, 0xDEBB2, 0x6F5D9, 0x37AEC, 0x1BD76, 0xDEBB, 16);
    FourMore(0xDEBB20, 0xDEBB20, 0x6F5D90, 0x37AEC8, 0x1BD764, 0xDEBB2, 20);
    FourMore(0xDEBB20E, 0xDEBB20E, 0x6F5D907, 0x37AEC83, 0x1BD7641, 0xDEBB20, 24);
    FourMore(0xDEBB20E3, 0xDEBB20E3, 0x6F5D9071, 0x37AEC838, 0x1BD7641C, 0xDEBB20E, 28);
    SameIsBits(0xDEBB20E3, 0xDEBB20E3);
  }

  lemma {:induction false} CheckBits()
    ensures WordBits(0xCBF43926) == Bits(0xCBF43926)
  {
    hide Same, Bits, WordBits;
    SameNothing(0x0, 0x0);
    FourMore(0xC, 0xC, 0x6, 0x3, 0x1, 0x0, 0);
    FourMore(0xCB, 0xCB, 0x65, 0x32, 0x19, 0xC, 4);
    FourMore(0xCBF, 0xCBF, 0x65F, 0x32F, 0x197, 0xCB, 8);
    FourMore(0xCBF4, 0xCBF4, 0x65FA, 0x32FD, 0x197E, 0xCBF, 12);
    FourMore(0xCBF43, 0xCBF43, 0x65FA1, 0x32FD0, 0x197E8, 0xCBF4, 16);
    FourMore(0xCBF439, 0xCBF439, 0x65FA1C, 0x32FD0E, 0x197E87, 0xCBF43, 20);
    FourMore(0xCBF4392, 0xCBF4392, 0x65FA1C9, 0x32FD0E4, 0x197E872, 0xCBF439, 24);
    FourMore(0xCBF43926, 0xCBF43926, 0x65FA1C93, 0x32FD0E49, 0x197E8724, 0xCBF4392, 28);
    SameIsBits(0xCBF43926, 0xCBF43926);
  }

  lemma {:induction false} CrcOfNothing()
    ensures Crc([]) == {}
  {
    assert Feed(Ones(), []) == Ones();
  }

  // ----- the residue

  /** The checksum behind its message, least significant byte first. */
  function Appended(c: Register): (b: Bytes)
    ensures |b| == 4
  {
    var s := Stored(c);
    [s[3], s[2], s[1], s[0]]
  }

  lemma {:induction false} AppendedIsLittle(c: Register)
    ensures Little(Appended(c)) == c
  {
    hide Bit, Stored, Little;
    var b := Appended(c);
    LittleBound(b);
    forall i: nat | i < BITS ensures i in Little(b) <==> i in c {
      LittleBit(b, i);
      StoredBitIs(c, i / BYTE_BITS, i % BYTE_BITS);
      assert b[i / BYTE_BITS] == Stored(c)[3 - i / BYTE_BITS];
    }
  }

  lemma {:induction false} ResidueWord()
    ensures Steps(0xFFFF_FFFF, 4) == 0xDEBB20E3
  {
    assert EightSteps(0xFFFFFFFF) == 0x2DFD1072;
    assert EightSteps(0x2DFD1072) == 0xBE26ED00;
    assert EightSteps(0xBE26ED00) == 0xBE26ED;
    assert EightSteps(0xBE26ED) == 0xDEBB20E3;
  }

  lemma {:induction false} XorTwice(c: Register, x: Register)
    ensures Xor(c, Xor(c, x)) == x
  {
    forall i: nat | i < BITS ensures Differ(c, Xor(c, x), i) <==> i in x {
    }
  }

  /** Behind every message its checksum leaves the same register. */
  lemma {:induction false} Residue(data: Bytes)
    ensures Feed(Ones(), data + Appended(Crc(data))) == Bits(0xDEBB20E3)
  {
    hide Feed, Shifts, Xor, Little, Appended, WordBits, Bits, Steps;
    var c, b := Feed(Ones(), data), Appended(Crc(data));
    FeedConcat(Ones(), data, b);
    FeedWord(c, b);
    AppendedIsLittle(Crc(data));
    XorTwice(c, Ones());
    OnesWord();
    StepsAreShifts(0xFFFF_FFFF, 4);
    ResidueWord();
    ResidueBits();
  }

  // ----- the check value

  lemma {:induction false} NoWordBits(i: nat)
    ensures !WordBit(0, i)
    decreases i
  {
    if i > 0 {
      assert Half(0) == 0;
      NoWordBits(i - 1);
    }
  }

  /** A byte that agrees with the word `w` enters the register. */
  lemma {:induction false} ByteEnters(front: Bytes, b: Byte, x: bv32, w: bv32, y: bv32)
    requires Feed(Ones(), front) == WordBits(x) && Same(b, w, 8) && Eighth(w) == 0 && EightSteps(Plus(x, w)) == y
    ensures Feed(Ones(), front + [b]) == WordBits(y)
  {
    hide Feed, Shifts, Bit, WordBit, Plus, EightSteps, Eighth, Same;
    forall i: nat | i < BITS ensures WordBit(Plus(x, w), i) <==> Differ(WordBits(x), ByteBits(b), i) {
      PlusBit(x, w, i);
      if i < 8 {
        SameBit(b, w, 8, i);
      } else {
        EightBits(w, i - 8);
        NoWordBits(i - 8);
      }
    }
    assert WordBits(Plus(x, w)) == Xor(WordBits(x), ByteBits(b));
    FeedConcat(Ones(), front, [b]);
    FeedByte(WordBits(x), b);
    EightAreShifts(Plus(x, w));
  }

  lemma {:induction false} FeedByte(c: Register, b: Byte)
    ensures Feed(c, [b]) == Shifts(Xor(c, ByteBits(b)), BYTE_BITS)
  {
    hide Shifts, Xor, ByteBits;
    assert [b][1..] == [];
    assert Feed(Shifts(Xor(c, ByteBits(b)), BYTE_BITS), []) == Shifts(Xor(c, ByteBits(b)), BYTE_BITS);
  }

  /** The digits 1, 2 and so on up to `n`, as ASCII. */
  function Digits(n: nat): Bytes
    requires n <= 9
  {
    if n == 0 then [] else Digits(n - 1) + ['0' as int + n]
  }

  lemma {:induction false} UpToThree()
    ensures Feed(Ones(), Digits(3)) == WordBits(0x77B79C2D)
  {
    hide Feed, WordBits, EightSteps;
    OnesWord();
    assert Feed(Ones(), []) == Ones() by { FedNothing(Ones()); }
    assert EightSteps(Plus(0xFFFFFFFF, 0x31)) == 0x7C231048 && EightSteps(Plus(0x7C231048, 0x32)) == 0xB0ACBB32
        && EightSteps(Plus(0xB0ACBB32, 0x33)) == 0x77B79C2D by { StepsToThree(); }
    ByteEnters(Digits(0), 0x31, 0xFFFFFFFF, 0x31, 0x7C231048);
    ByteEnters(Digits(1), 0x32, 0x7C231048, 0x32, 0xB0ACBB32);
    ByteEnters(Digits(2), 0x33, 0xB0ACBB32, 0x33, 0x77B79C2D);
  }

  lemma {:induction false} FedNothing(c: Register)
    ensures Feed(c, []) == c
  {
  }

  lemma {:induction false} StepsToThree()
    ensures EightSteps(Plus(0xFFFFFFFF, 0x31)) == 0x7C231048
    ensures EightSteps(Plus(0x7C231048, 0x32)) == 0xB0ACBB32
    ensures EightSteps(Plus(0xB0ACBB32, 0x33)) == 0x77B79C2D
  {
  }

  lemma {:induction false} UpToSix()
    ensures Feed(Ones(), Digits(6)) == WordBits(0xF68D2C9E)
  {
    hide Feed, WordBits, EightSteps;
    UpToThree();
    assert EightSteps(Plus(0x77B79C2D, 0x34)) == 0x641C1F5C && EightSteps(Plus(0x641C1F5C, 0x35)) == 0x340AC5E3
        && EightSteps(Plus(0x340AC5E3, 0x36)) == 0xF68D2C9E by { StepsToSix(); }
    ByteEnters(Digits(3), 0x34, 0x77B79C2D, 0x34, 0x641C1F5C);
    ByteEnters(Digits(4), 0x35, 0x641C1F5C, 0x35, 0x340AC5E3);
    ByteEnters(Digits(5), 0x36, 0x340AC5E3, 0x36, 0xF68D2C9E);
  }

  lemma {:induction false} StepsToSix()
    ensures EightSteps(Plus(0x77B79C2D, 0x34)) == 0x641C1F5C
    ensures EightSteps(Plus(0x641C1F5C, 0x35)) == 0x340AC5E3
    ensures EightSteps(Plus(0x340AC5E3, 0x36)) == 0xF68D2C9E
  {
  }

  lemma {:induction false} StepsToNine()
    ensures EightSteps(Plus(0xF68D2C9E, 0x37)) == 0xAFFC9660
    ensures EightSteps(Plus(0xAFFC9660, 0x38)) == 0x651F2550
    ensures EightSteps(Plus(0x651F2550, 0x39)) == 0x340BC6D9
  {
  }

  /** The check value of the digits 1 to 9. */
  lemma {:induction false} CheckValue()
    ensures Crc(Digits(9)) == Bits(0xCBF43926)
  {
    hide Feed, WordBits, EightSteps, Bits, Xor;
    UpToSix();
    assert EightSteps(Plus(0xF68D2C9E, 0x37)) == 0xAFFC9660 && EightSteps(Plus(0xAFFC9660, 0x38)) == 0x651F2550
        && EightSteps(Plus(0x651F2550, 0x39)) == 0x340BC6D9 by { StepsToNine(); }
    ByteEnters(Digits(6), 0x37, 0xF68D2C9E, 0x37, 0xAFFC9660);
    ByteEnters(Digits(7), 0x38, 0xAFFC9660, 0x38, 0x651F2550);
    ByteEnters(Digits(8), 0x39, 0x651F2550, 0x39, 0x340BC6D9);
    OnesWord();
    WordsXor(0x340BC6D9, 0xFFFF_FFFF);
    assert Plus(0x340BC6D9, 0xFFFF_FFFF) == 0xCBF43926;
    CheckBits();
  }

  lemma {:induction false} WordsXor(x: bv32, y: bv32)
    ensures WordBits(Plus(x, y)) == Xor(WordBits(x), WordBits(y))
  {
    hide WordBit, Plus;
    forall i: nat | i < BITS ensures WordBit(Plus(x, y), i) <==> Differ(WordBits(x), WordBits(y), i) {
      PlusBit(x, y, i);
    }
  }
}
