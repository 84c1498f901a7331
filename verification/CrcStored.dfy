/** The checksum as it is stored: four bytes, most significant first. */
module CrcStored {
  import opened Results
  import opened Crc32

  /** The number that the `n` bits from `low` on stand for. */
  function Value(c: Register, low: nat, n: nat): (r: nat)
    ensures r < Power2(n)
    decreases n, |c|
  {
    if n == 0 then 0 else (if low in c then 1 else 0) + 2 * Value(c, low + 1, n - 1)
  }

  function Octet(c: Register, low: nat): Byte {
    PowersOfTwo();
    Value(c, low, BYTE_BITS)
  }

  function Stored(c: Register): (r: Bytes)
    ensures |r| == 4
  {
    seq(4, k requires 0 <= k < 4 => Octet(c, BYTE_BITS * (3 - k)))
  }

  predicate StoredBit(b: Bytes, i: nat)
    requires |b| == 4
  {
    i < BITS && Bit(b[3 - i / BYTE_BITS], i % BYTE_BITS)
  }

  /** The register that four bytes, most significant first, stand for. */
  function Loaded(b: Bytes): Register
    requires |b| == 4
  {
    set i: nat | i < BITS && StoredBit(b, i)
  }

  lemma {:induction false} ValueBit(c: Register, low: nat, n: nat, i: nat)
    requires i < n
    ensures Bit(Value(c, low, n), i) <==> low + i in c
    decreases n
  {
    if i > 0 {
      ValueBit(c, low + 1, n - 1, i - 1);
    }
  }

  lemma {:induction false} StoredBitIs(c: Register, k: nat, j: nat)
    requires k < 4 && j < BYTE_BITS
    ensures StoredBit(Stored(c), BYTE_BITS * k + j) <==> BYTE_BITS * k + j in c
  {
    hide Value, Bit;
    var i := BYTE_BITS * k + j;
    assert i / BYTE_BITS == k && i % BYTE_BITS == j;
    assert Stored(c)[3 - k] == Value(c, BYTE_BITS * k, BYTE_BITS);
    ValueBit(c, BYTE_BITS * k, BYTE_BITS, j);
  }

  lemma {:induction false} LoadStored(c: Register)
    ensures Loaded(Stored(c)) == c
  {
    hide Stored, StoredBit;
    forall i: nat | i < BITS ensures StoredBit(Stored(c), i) <==> i in c {
      StoredBitIs(c, i / BYTE_BITS, i % BYTE_BITS);
    }
  }

  lemma {:induction false} LoadedByte(a: Bytes, b: Bytes, k: nat)
    requires |a| == |b| == 4 && Loaded(a) == Loaded(b) && k < 4
    ensures a[3 - k] == b[3 - k]
  {
    var x, y := a[3 - k], b[3 - k];
    forall j: nat | j < BYTE_BITS ensures Bit(x, j) == Bit(y, j) {
      hide Bit;
      var i := BYTE_BITS * k + j;
      assert i / BYTE_BITS == k && i % BYTE_BITS == j;
      assert i in Loaded(a) <==> i in Loaded(b);
      assert StoredBit(a, i) == StoredBit(b, i);
    }
    assert ByteBits(x) == ByteBits(y);
    ByteBitsInjective(x, y);
  }

  lemma {:induction false} LoadedInjective(a: Bytes, b: Bytes)
    requires |a| == |b| == 4 && Loaded(a) == Loaded(b)
    ensures a == b
  {
    LoadedByte(a, b, 0);
    LoadedByte(a, b, 1);
    LoadedByte(a, b, 2);
    LoadedByte(a, b, 3);
  }
}
