/**
  Linearity of the checksum: what a change of the data does to it depends on the change alone, and
  so a change of data and stored checksum together can go unnoticed.
 */
module CrcLinear {
  import opened Results
  import opened Crc32
  import opened CrcStored
  import CrcWord

  // ----- the register is linear

  lemma {:induction false} ShiftXor(c: Register, d: Register)
    ensures Shift(Xor(c, d)) == Xor(Shift(c), Shift(d))
  {
    hide Bits;
    assert Lower(Xor(c, d)) == Xor(Lower(c), Lower(d)) by {
      forall i: nat | i < BITS ensures Above(Xor(c, d), i) <==> Differ(Lower(c), Lower(d), i) {
        assert i + 1 in Xor(c, d) <==> Differ(c, d, i + 1);
      }
    }
  }

  lemma {:induction false} ShiftsXor(c: Register, d: Register, n: nat)
    ensures Shifts(Xor(c, d), n) == Xor(Shifts(c, n), Shifts(d, n))
    decreases n
  {
    hide Shift, Xor;
    if n > 0 {
      ShiftXor(c, d);
      ShiftsXor(Shift(c), Shift(d), n - 1);
    }
  }

  /** Exclusive or of two bytes. */
  function MixByte(a: Byte, b: Byte): Byte {
    Octet(Xor(ByteBits(a), ByteBits(b)), 0)
  }

  lemma {:induction false} MixByteBits(a: Byte, b: Byte)
    ensures ByteBits(MixByte(a, b)) == Xor(ByteBits(a), ByteBits(b))
    ensures forall i: nat | i < BYTE_BITS :: Bit(MixByte(a, b), i) <==> Bit(a, i) != Bit(b, i)
  {
    hide Bit, Value;
    var c := Xor(ByteBits(a), ByteBits(b));
    forall i: nat | i < BYTE_BITS ensures Bit(MixByte(a, b), i) <==> i in c {
      ValueBit(c, 0, BYTE_BITS, i);
    }
  }

  function Mix(a: Bytes, b: Bytes): (r: Bytes)
    requires |a| == |b|
    ensures |r| == |a| && forall i | 0 <= i < |a| :: r[i] == MixByte(a[i], b[i])
  {
    if a == [] then [] else [MixByte(a[0], b[0])] + Mix(a[1..], b[1..])
  }

  lemma {:induction false} XorPairs(a: Register, b: Register, c: Register, d: Register)
    ensures Xor(Xor(a, b), Xor(c, d)) == Xor(Xor(a, c), Xor(b, d))
  {
    forall i: nat | i < BITS
      ensures Differ(Xor(a, b), Xor(c, d), i) <==> Differ(Xor(a, c), Xor(b, d), i)
    {
    }
  }

  lemma {:induction false} FeedXor(c: Register, d: Register, a: Bytes, b: Bytes)
    requires |a| == |b|
    ensures Feed(Xor(c, d), Mix(a, b)) == Xor(Feed(c, a), Feed(d, b))
    decreases |a|
  {
    hide Shifts, Xor, ByteBits, MixByte;
    if a != [] {
      MixByteBits(a[0], b[0]);
      XorPairs(c, d, ByteBits(a[0]), ByteBits(b[0]));
      var x, y := Xor(c, ByteBits(a[0])), Xor(d, ByteBits(b[0]));
      ShiftsXor(x, y, BYTE_BITS);
      FeedXor(Shifts(x, BYTE_BITS), Shifts(y, BYTE_BITS), a[1..], b[1..]);
      assert Mix(a, b)[1..] == Mix(a[1..], b[1..]);
    }
  }

  /** A change of the data changes the checksum by what the change alone feeds into an empty register. */
  lemma {:induction false} CrcXor(a: Bytes, b: Bytes)
    requires |a| == |b|
    ensures Crc(Mix(a, b)) == Xor(Crc(a), Feed({}, b))
  {
    hide Feed, Xor;
    XorNothing(Ones());
    FeedXor(Ones(), {}, a, b);
    XorPairs(Feed(Ones(), a), Feed({}, b), Ones(), {});
    XorNothing(Feed({}, b));
  }

  lemma {:induction false} LoadedXor(a: Bytes, b: Bytes)
    requires |a| == |b| == 4
    ensures Loaded(Mix(a, b)) == Xor(Loaded(a), Loaded(b))
  {
    hide Bit, MixByte;
    forall i: nat | i < BITS ensures StoredBit(Mix(a, b), i) <==> StoredBit(a, i) != StoredBit(b, i) {
      MixByteBits(a[3 - i / BYTE_BITS], b[3 - i / BYTE_BITS]);
    }
  }

  // ----- changes of a few bytes in front of zeros

  lemma {:induction false} ZeroByte()
    ensures ByteBits(0) == {}
  {
    forall i: nat ensures !Bit(0, i) {
      NoBits(i);
    }
  }

  lemma {:induction false} NoBits(i: nat)
    ensures !Bit(0, i)
    decreases i
  {
    if i > 0 {
      NoBits(i - 1);
    }
  }

  function Zeros(n: nat): (r: Bytes)
    ensures |r| == n && forall i | 0 <= i < n :: r[i] == 0
    decreases n
  {
    if n == 0 then [] else [0] + Zeros(n - 1)
  }

  lemma {:induction false} FeedZeros(c: Register, n: nat)
    ensures Feed(c, Zeros(n)) == Shifts(c, 8 * n)
    decreases n
  {
    hide Shifts, Xor, ByteBits;
    if n == 0 {
      NoShifts(c);
      assert Feed(c, []) == c;
    } else {
      ZeroByte();
      XorNothing(c);
      assert Zeros(n)[1..] == Zeros(n - 1);
      FeedZeros(Shifts(c, BYTE_BITS), n - 1);
      ShiftsAdd(c, 8, 8 * (n - 1));
    }
  }

  lemma {:induction false} NothingStays(n: nat)
    ensures Shifts({}, n) == {}
    decreases n
  {
    if n > 0 {
      assert Shift({}) == {} by {
        assert Lower({}) == {};
      }
      NothingStays(n - 1);
    }
  }

  /** The three words of `CrcWord`, as bytes in front of 52 zeros. */
  lemma {:induction false} FeedMark(mark: Bytes, word: bv32)
    requires |mark| == 4 && CrcWord.Spelled(mark, word)
    ensures Feed({}, Zeros(8) + (mark + Zeros(52))) == CrcWord.WordBits(CrcWord.Steps(word, 56))
  {
    hide Feed, Shifts, Xor, Little, CrcWord.Steps, CrcWord.WordBits, CrcWord.Spelled;
    FeedConcat({}, Zeros(8), mark + Zeros(52));
    FeedZeros({}, 8);
    NothingStays(64);
    FeedConcat({}, mark, Zeros(52));
    FeedWord({}, mark);
    XorSymmetric({}, Little(mark));
    XorNothing(Little(mark));
    FeedZeros(Shifts(Little(mark), 32), 52);
    ShiftsAdd(Little(mark), 32, 416);
    LittleIsWord(mark, word);
    CrcWord.StepsAreShifts(word, 56);
  }

  lemma {:induction false} LittleBit(b: Bytes, i: nat)
    requires |b| <= 4 && i < BYTE_BITS * |b|
    ensures i in Little(b) <==> Bit(b[i / BYTE_BITS], i % BYTE_BITS)
    decreases |b|
  {
    hide Bit;
    if i >= BYTE_BITS {
      RaisedBit(b, i - BYTE_BITS);
      LittleBit(b[1..], i - BYTE_BITS);
    } else {
      assert i !in Raise(Little(b[1..]), BYTE_BITS);
    }
  }

  lemma {:induction false} LittleIsWord(b: Bytes, x: bv32)
    requires |b| == 4 && CrcWord.Spelled(b, x)
    ensures Little(b) == CrcWord.WordBits(x)
  {
    hide Little, Bit, CrcWord.Spelled, CrcWord.WordBit;
    assert forall i | i in Little(b) :: i < 32;
    forall i: nat | i < BITS ensures i in Little(b) <==> CrcWord.WordBit(x, i) {
      LittleBit(b, i);
      CrcWord.SpelledBit(b, x, i);
    }
  }

  /**
    For each window that begins one, two or three bytes before the end of a stored checksum that
    is followed by 56 bytes: what to add to the checksum, and what to add to the bytes after it.
   */
  function StoredChange(at: nat): (r: Bytes)
    ensures |r| == 4
  {
    if at == 5 then [0, 0x54, 0x50, 0xF9] else if at == 6 then [0, 0, 0x6A, 0xEF] else [0, 0, 0, 0xC8]
  }

  function DataChange(at: nat): (r: Bytes)
    ensures |r| == 4
  {
    if at == 5 then [0xE1, 0, 0, 0] else if at == 6 then [0x55, 0x0D, 0, 0] else [0x87, 0x33, 0xB8, 0]
  }

  /** The two changes cancel out. */
  lemma {:induction false} ChangesCancel(at: nat)
    requires 5 <= at <= 7
    ensures Feed({}, Zeros(8) + (DataChange(at) + Zeros(52))) == Loaded(StoredChange(at))
  {
    hide Feed, CrcWord.Steps, CrcWord.WordBits, Loaded, Zeros, CrcWord.Spelling;
    if at == 5 {
      CancelFirst();
    } else if at == 6 {
      CancelSecond();
    } else {
      CancelThird();
    }
  }

  lemma {:induction false} CancelFirst()
    ensures Feed({}, Zeros(8) + (DataChange(5) + Zeros(52))) == Loaded(StoredChange(5))
  {
    hide Feed, CrcWord.Steps, CrcWord.WordBits, Loaded, Zeros, CrcWord.Spelling;
    CrcWord.First();
    FeedMark([0xE1, 0, 0, 0], 0xE1);
    CrcWord.SpelledBits([0xF9, 0x50, 0x54, 0], 0x5450F9);
  }

  lemma {:induction false} CancelSecond()
    ensures Feed({}, Zeros(8) + (DataChange(6) + Zeros(52))) == Loaded(StoredChange(6))
  {
    hide Feed, CrcWord.Steps, CrcWord.WordBits, Loaded, Zeros, CrcWord.Spelling;
    CrcWord.Second();
    FeedMark([0x55, 0x0D, 0, 0], 0xD55);
    CrcWord.SpelledBits([0xEF, 0x6A, 0, 0], 0x6AEF);
  }

  lemma {:induction false} CancelThird()
    ensures Feed({}, Zeros(8) + (DataChange(7) + Zeros(52))) == Loaded(StoredChange(7))
  {
    hide Feed, CrcWord.Steps, CrcWord.WordBits, Loaded, Zeros, CrcWord.Spelling;
    CrcWord.Third();
    FeedMark([0x87, 0x33, 0xB8, 0], 0xB83387);
    CrcWord.SpelledBits([0xC8, 0, 0, 0], 0xC8);
  }
}
