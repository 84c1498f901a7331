/**
  The legacy uImage wrapper around the companion archive: a 64-byte big-endian header with
  a checksum of itself and a checksum of the payload.
 */
module Ramdisk {
  import opened Results
  import opened Crc32
  import opened CrcStored
  import opened CrcLinear
  import CrcWord

  datatype WrapError = PayloadTooLong
  datatype UnwrapError = Short | WrongFormat | ChecksumMismatch

  /** 0x27051956 in network byte order. */
  const MAGIC: Bytes := [0x27, 0x05, 0x19, 0x56]
  const ZERO: Bytes := [0, 0, 0, 0]

  /** Operating system Linux, architecture ARM, type RAM disk, compression none. */
  const KIND: Bytes := [5, 2, 3, 0]

  /** "LS420D deployment CPIO", padded to 32 bytes with zeros. */
  const TITLE: Bytes := [0x4C, 0x53, 0x34, 0x32, 0x30, 0x44, 0x20, 0x64, 0x65, 0x70, 0x6C, 0x6F, 0x79, 0x6D, 0x65, 0x6E,
                         0x74, 0x20, 0x43, 0x50, 0x49, 0x4F, 0, 0, 0, 0, 0, 0, 0, 0, 0, 0]

  function BigEndian(w: nat): (r: Bytes)
    requires w < 0x1_0000_0000
    ensures |r| == 4 && Number(r) == w
  {
    var high := w / 256;
    var top := high / 256;
    [top / 256, top % 256, high % 256, w % 256]
  }

  function Number(b: Bytes): nat
    requires |b| == 4
  {
    var b0: int, b1: int, b2: int, b3: int := b[0], b[1], b[2], b[3];
    256 * (256 * (256 * b0 + b1) + b2) + b3
  }

  /** The header after its checksum: time 0, size, load and entry address 0, data checksum, kind, title. */
  function Tail(size: Bytes, dataCrc: Bytes): (r: Bytes)
    requires |size| == |dataCrc| == 4
    ensures |r| == 56
  {
    ZERO + size + ZERO + ZERO + dataCrc + KIND + TITLE
  }

  function Header(headerCrc: Bytes, tail: Bytes): (r: Bytes)
    requires |headerCrc| == 4 && |tail| == 56
    ensures |r| == 64
  {
    MAGIC + headerCrc + tail
  }

  /** The header checksum is taken with its own field zero and then stored in that field. */
  function Wrap(payload: Bytes): Result<Bytes, WrapError> {
    if |payload| > 0xFFFF_FFFF then Failure(PayloadTooLong)
    else
      var tail := Tail(BigEndian(|payload|), Stored(Crc(payload)));
      Success(Header(Stored(Crc(Header(ZERO, tail))), tail) + payload)
  }

  function Blanked(blob: Bytes): (r: Bytes)
    requires |blob| >= 64
    ensures |r| == 64
  {
    blob[..4] + ZERO + blob[8..64]
  }

  function Unwrap(blob: Bytes): Result<Bytes, UnwrapError> {
    if |blob| < 64 then Failure(Short)
    else if blob[..4] != MAGIC || blob[28..32] != KIND || |blob| != 64 + Number(blob[12..16]) then
      Failure(WrongFormat)
    else if Loaded(blob[4..8]) != Crc(Blanked(blob)) || Loaded(blob[24..28]) != Crc(blob[64..]) then
      Failure(ChecksumMismatch)
    else Success(blob[64..])
  }

  lemma {:induction false} TailFields(size: Bytes, dataCrc: Bytes)
    requires |size| == |dataCrc| == 4
    ensures Tail(size, dataCrc)[4..8] == size
    ensures Tail(size, dataCrc)[16..20] == dataCrc
    ensures Tail(size, dataCrc)[20..24] == KIND
  {
  }

  lemma {:induction false} HeaderFields(headerCrc: Bytes, tail: Bytes, payload: Bytes)
    requires |headerCrc| == 4 && |tail| == 56
    ensures var blob := Header(headerCrc, tail) + payload;
            && blob[..4] == MAGIC && blob[4..8] == headerCrc && blob[8..64] == tail && blob[64..] == payload
            && blob[12..16] == tail[4..8] && blob[24..28] == tail[16..20] && blob[28..32] == tail[20..24]
            && Blanked(blob) == Header(ZERO, tail)
  {
  }

  /** What wrapping produces, unwrapping returns, for every payload that the size field can describe. */
  lemma {:induction false} WrapThenUnwrap(payload: Bytes)
    ensures Wrap(payload).Success? <==> |payload| < 0x1_0000_0000
    ensures Wrap(payload).Success? ==> Unwrap(Wrap(payload).value) == Success(payload)
  {
    hide Crc, Stored, Header, Tail, Loaded;
    if |payload| <= 0xFFFF_FFFF {
      var size, dataCrc := BigEndian(|payload|), Stored(Crc(payload));
      var tail := Tail(size, dataCrc);
      TailFields(size, dataCrc);
      HeaderFields(Stored(Crc(Header(ZERO, tail))), tail, payload);
      LoadStored(Crc(payload));
      LoadStored(Crc(Header(ZERO, tail)));
    }
  }

  /** Word `i` of a header, most significant byte first. */
  function WordAt(blob: Bytes, i: nat): nat
    requires 4 * i + 4 <= |blob|
  {
    Number(blob[4 * i..4 * i + 4])
  }

  /** The register whose bits are those of a stored word. */
  lemma {:induction false} NumberBits(b: Bytes)
    requires |b| == 4
    ensures Bits(Number(b)) == Loaded(b)
  {
    hide Bit;
    forall i: nat | i < BITS ensures Bit(Number(b), i) <==> StoredBit(b, i) {
      CrcWord.SpellingBit([b[3], b[2], b[1], b[0]], i);
    }
  }

  const NAME: string := "LS420D deployment CPIO"

  /**
    What a boot loader finds in a wrapped image: seven numbers, most significant byte first, of which
    the second is the checksum of the header with zero in its place; then the kind of image, and a
    title filled up with zeros.
   */
  lemma {:induction false} HeaderExactly(payload: Bytes)
    requires Wrap(payload).Success?
    ensures var blob := Wrap(payload).value;
            && |blob| == 64 + |payload| && blob[64..] == payload
            && WordAt(blob, 0) == 0x27051956
            && Bits(WordAt(blob, 1)) == Crc(blob[..4] + [0, 0, 0, 0] + blob[8..64])
            && WordAt(blob, 2) == 0 && WordAt(blob, 3) == |payload| && WordAt(blob, 4) == 0 && WordAt(blob, 5) == 0
            && Bits(WordAt(blob, 6)) == Crc(payload)
            && blob[28] == 5 && blob[29] == 2 && blob[30] == 3 && blob[31] == 0
            && (forall i | 0 <= i < 22 :: blob[32 + i] == NAME[i] as int) && (forall i | 54 <= i < 64 :: blob[i] == 0)
  {
    hide Crc, Stored, Loaded, Bits, Number;
    var blob := Wrap(payload).value;
    var size, dataCrc := BigEndian(|payload|), Stored(Crc(payload));
    var tail := Tail(size, dataCrc);
    var headCrc := Stored(Crc(Header(ZERO, tail)));
    assert blob == Header(headCrc, tail) + payload;
    HeaderParts(headCrc, size, dataCrc, payload);
    HeaderFields(headCrc, tail, payload);
    NumberBits(dataCrc);
    NumberBits(headCrc);
    LoadStored(Crc(payload));
    LoadStored(Crc(Header(ZERO, tail)));
    FixedNumbers();
  }

  lemma {:induction false} FixedNumbers()
    ensures Number(MAGIC) == 0x27051956 && Number(ZERO) == 0
  {
  }

  lemma {:induction false} TailParts(size: Bytes, dataCrc: Bytes)
    requires |size| == |dataCrc| == 4
    ensures var tail := Tail(size, dataCrc);
            && tail[0..4] == ZERO && tail[4..8] == size && tail[8..12] == ZERO && tail[12..16] == ZERO
            && tail[16..20] == dataCrc && tail[20..24] == KIND && tail[24..56] == TITLE
  {
    assert |ZERO| == 4 && |KIND| == 4 && |TITLE| == 32;
    hide ZERO, KIND, TITLE;
  }

  lemma {:induction false} InTail(headCrc: Bytes, tail: Bytes, payload: Bytes, i: nat, j: nat)
    requires |headCrc| == 4 && |tail| == 56 && i <= j <= 56
    ensures (Header(headCrc, tail) + payload)[8 + i..8 + j] == tail[i..j]
  {
    hide MAGIC;
    var blob := Header(headCrc, tail) + payload;
    assert forall k | i <= k < j :: blob[8 + k] == tail[k];
  }

  lemma {:induction false} HeaderParts(headCrc: Bytes, size: Bytes, dataCrc: Bytes, payload: Bytes)
    requires |headCrc| == |size| == |dataCrc| == 4
    ensures var blob := Header(headCrc, Tail(size, dataCrc)) + payload;
            && |blob| == 64 + |payload| && blob[64..] == payload
            && blob[0..4] == MAGIC && blob[4..8] == headCrc && blob[8..12] == ZERO && blob[12..16] == size
            && blob[16..20] == ZERO && blob[20..24] == ZERO && blob[24..28] == dataCrc
            && blob[28] == 5 && blob[29] == 2 && blob[30] == 3 && blob[31] == 0
            && (forall i | 0 <= i < 22 :: blob[32 + i] == NAME[i] as int) && (forall i | 54 <= i < 64 :: blob[i] == 0)
  {
    hide Tail, Header;
    var tail := Tail(size, dataCrc);
    var blob := Header(headCrc, tail) + payload;
    TailParts(size, dataCrc);
    HeaderFields(headCrc, tail, payload);
    InTail(headCrc, tail, payload, 0, 4);
    InTail(headCrc, tail, payload, 4, 8);
    InTail(headCrc, tail, payload, 8, 12);
    InTail(headCrc, tail, payload, 12, 16);
    InTail(headCrc, tail, payload, 16, 20);
    InTail(headCrc, tail, payload, 20, 24);
    InTail(headCrc, tail, payload, 24, 56);
    assert blob[28..32] == KIND && forall i | 0 <= i < 4 :: blob[28..32][i] == blob[28 + i];
    assert blob[32..64] == TITLE && forall i | 0 <= i < 32 :: blob[32..64][i] == blob[32 + i];
    TitleIsName();
    forall i | 54 <= i < 64 ensures blob[i] == 0 {
      assert blob[32 + (i - 32)] == TITLE[i - 32];
    }
  }

  lemma {:induction false} TitleIsName()
    ensures (forall i | 0 <= i < 22 :: TITLE[i] == NAME[i] as int) && (forall i | 22 <= i < 32 :: TITLE[i] == 0)
  {
  }

  /**
    Exactly what is accepted: the right first number, the right kind, a length that is that of the
    rest, and both checksums; the payload is the rest. Whatever is shorter than a header is short.
   */
  lemma {:induction false} UnwrapExactly(blob: Bytes)
    ensures Unwrap(blob) == Failure(Short) <==> |blob| < 64
    ensures Unwrap(blob).Success? <==>
            && |blob| >= 64 && WordAt(blob, 0) == 0x27051956
            && blob[28] == 5 && blob[29] == 2 && blob[30] == 3 && blob[31] == 0
            && WordAt(blob, 3) == |blob| - 64
            && Bits(WordAt(blob, 1)) == Crc(blob[..4] + [0, 0, 0, 0] + blob[8..64])
            && Bits(WordAt(blob, 6)) == Crc(blob[64..])
    ensures Unwrap(blob).Success? ==> Unwrap(blob).value == blob[64..]
  {
    hide Crc, Loaded, Bits;
    if |blob| >= 64 {
      NumberBits(blob[4..8]);
      NumberBits(blob[24..28]);
      FixedNumbers();
      SameNumber(blob[..4], MAGIC);
      assert blob[0..4] == blob[..4];
      assert blob[28..32] == [blob[28], blob[29], blob[30], blob[31]];
    }
  }

  lemma {:induction false} LastByte(x: nat, y: nat, a: Byte, b: Byte)
    requires 256 * x + a == 256 * y + b
    ensures x == y && a == b
  {
  }

  lemma {:induction false} SameNumber(a: Bytes, b: Bytes)
    requires |a| == |b| == 4
    ensures Number(a) == Number(b) <==> a == b
  {
    if Number(a) == Number(b) {
      var a0: int, a1: int, a2: int, b0: int, b1: int, b2: int := a[0], a[1], a[2], b[0], b[1], b[2];
      LastByte(256 * (256 * a0 + a1) + a2, 256 * (256 * b0 + b1) + b2, a[3], b[3]);
      LastByte(256 * a0 + a1, 256 * b0 + b1, a[2], b[2]);
      LastByte(a0, b0, a[1], b[1]);
      assert a == [a[0], a[1], a[2], a[3]] && b == [b[0], b[1], b[2], b[3]];
    }
  }

  /**
    Any change confined to four consecutive bytes of an acceptable image is rejected, in the
    header or in the payload, unless it reaches from the stored header checksum into the
    bytes after it.
   */
  lemma {:induction false} BurstRejected(blob: Bytes, damaged: Bytes, at: nat)
    requires Unwrap(blob).Success?
    requires AgreeOutside(blob, damaged, at) && damaged != blob
    requires at <= 4 || at >= 8
    ensures Unwrap(damaged).Failure?
  {
    hide Crc, Blanked, Loaded;
    if Unwrap(damaged).Success? {
      if at <= 4 {
        FrontBurst(blob, damaged, at);
      } else {
        assert blob[4..8] == damaged[4..8];
        HeaderBurst(blob, damaged, at);
        assert blob[24..28] == blob[8..64][16..20];
        assert damaged[24..28] == damaged[8..64][16..20];
        PayloadBurst(blob, damaged, at);
      }
      Sections(blob);
      Sections(damaged);
    }
  }

  lemma {:induction false} Sections(blob: Bytes)
    requires |blob| >= 64
    ensures blob == blob[..4] + blob[4..8] + blob[8..64] + blob[64..]
  {
  }

  /** A window up to byte 7 touches the magic number and the stored checksum only. */
  lemma {:induction false} FrontBurst(blob: Bytes, damaged: Bytes, at: nat)
    requires |blob| >= 64 && AgreeOutside(blob, damaged, at) && at <= 4
    requires blob[..4] == damaged[..4]
    requires Loaded(blob[4..8]) == Crc(Blanked(blob)) && Loaded(damaged[4..8]) == Crc(Blanked(damaged))
    ensures blob[4..8] == damaged[4..8] && blob[8..64] == damaged[8..64] && blob[64..] == damaged[64..]
  {
    hide Crc, Loaded;
    assert blob[8..64] == damaged[8..64];
    LoadedInjective(blob[4..8], damaged[4..8]);
  }

  lemma {:induction false} HeaderBurst(blob: Bytes, damaged: Bytes, at: nat)
    requires |blob| >= 64 && AgreeOutside(blob, damaged, at) && at >= 8
    requires Crc(Blanked(blob)) == Crc(Blanked(damaged))
    ensures blob[8..64] == damaged[8..64]
  {
    hide Crc;
    var a, b := Blanked(blob), Blanked(damaged);
    assert forall i | 8 <= i < 64 :: a[i] == blob[i] && b[i] == damaged[i];
    assert forall i | 0 <= i < 4 :: a[i] == blob[i] && b[i] == damaged[i];
    if a != b {
      BurstDetected(a, b, at);
    }
    assert a[8..] == blob[8..64] && b[8..] == damaged[8..64];
  }

  lemma {:induction false} PayloadBurst(blob: Bytes, damaged: Bytes, at: nat)
    requires |blob| >= 64 && AgreeOutside(blob, damaged, at) && at >= 8
    requires Crc(blob[64..]) == Crc(damaged[64..])
    ensures blob[64..] == damaged[64..]
  {
    hide Crc;
    var a, b := blob[64..], damaged[64..];
    var p := if at >= 64 then at - 64 else 0;
    assert forall i | 0 <= i < |a| :: a[i] == blob[64 + i] && b[i] == damaged[64 + i];
    if a != b {
      BurstDetected(a, b, p);
    }
  }

  /** Changing any one byte of an acceptable image, anywhere, makes it unacceptable. */
  lemma {:induction false} OneByteRejected(blob: Bytes, i: nat, b: Byte)
    requires Unwrap(blob).Success? && i < |blob| && b != blob[i]
    ensures Unwrap(blob[i := b]).Failure?
  {
    BurstRejected(blob, blob[i := b], if 4 <= i < 8 then 4 else i);
  }

  // ----- the windows that are left

  /** A change of the last one, two or three bytes of the header's checksum and the bytes after it. */
  function Damaged(blob: Bytes, at: nat): (r: Bytes)
    requires |blob| >= 64
    ensures |r| == |blob|
  {
    blob[..4] + Mix(blob[4..8], StoredChange(at)) + Mix(blob[8..64], DataChange(at) + Zeros(52)) + blob[64..]
  }

  lemma {:induction false} MixZero(a: Byte, b: Byte)
    ensures MixByte(a, b) == a <==> b == 0
  {
    hide ByteBits, MixByte;
    MixByteBits(a, b);
    XorNothing(ByteBits(a));
    ZeroByte();
    if b == 0 {
      ByteBitsInjective(MixByte(a, b), a);
    }
    if MixByte(a, b) == a {
      XorSymmetric(ByteBits(a), ByteBits(b));
      XorSymmetric(ByteBits(a), {});
      XorCancels(ByteBits(b), {}, ByteBits(a));
      ByteBitsInjective(b, 0);
    }
  }

  /** Byte `i` of the damaged image. */
  lemma {:induction false} DamagedByte(blob: Bytes, at: nat, i: nat)
    requires |blob| >= 64 && i < |blob|
    ensures Damaged(blob, at)[i] ==
            if 4 <= i < 8 then MixByte(blob[i], StoredChange(at)[i - 4])
            else if 8 <= i < 12 then MixByte(blob[i], DataChange(at)[i - 8])
            else blob[i]
  {
    hide MixByte, StoredChange, DataChange, Zeros;
    if 12 <= i < 64 {
      MixZero(blob[i], 0);
    }
  }

  lemma {:induction false} DamagedInWindow(blob: Bytes, at: nat)
    requires |blob| >= 64 && 5 <= at <= 7
    ensures AgreeOutside(blob, Damaged(blob, at), at) && Damaged(blob, at) != blob
  {
    hide MixByte, Damaged;
    forall i | 0 <= i < |blob| && !(at <= i < at + 4) ensures blob[i] == Damaged(blob, at)[i] {
      DamagedByte(blob, at, i);
      MixZero(blob[i], 0);
    }
    DamagedByte(blob, at, at);
    MixZero(blob[at], StoredChange(at)[at - 4]);
  }

  lemma {:induction false} DamagedSections(blob: Bytes, at: nat)
    requires |blob| >= 64
    ensures var d := Damaged(blob, at);
            && d[..4] == blob[..4] && d[12..16] == blob[12..16] && d[24..28] == blob[24..28]
            && d[28..32] == blob[28..32] && d[64..] == blob[64..]
            && d[4..8] == Mix(blob[4..8], StoredChange(at))
            && Blanked(d) == Mix(Blanked(blob), Zeros(8) + (DataChange(at) + Zeros(52)))
  {
    hide MixByte, Mix, StoredChange, DataChange, Zeros, Damaged;
    var d := Damaged(blob, at);
    forall i | 12 <= i < |blob| ensures d[i] == blob[i] {
      DamagedByte(blob, at, i);
    }
    DamagedParts(blob, at);
    BlankedMix(blob, DataChange(at) + Zeros(52));
    assert Blanked(d) == d[..4] + ZERO + d[8..64];
  }

  lemma {:induction false} DamagedParts(blob: Bytes, at: nat)
    requires |blob| >= 64
    ensures var d := Damaged(blob, at);
            && d[..4] == blob[..4] && d[4..8] == Mix(blob[4..8], StoredChange(at))
            && d[8..64] == Mix(blob[8..64], DataChange(at) + Zeros(52))
  {
    hide Mix, StoredChange, DataChange, Zeros;
  }

  lemma {:induction false} BlankedMix(blob: Bytes, change: Bytes)
    requires |blob| >= 64 && |change| == 56
    ensures Mix(Blanked(blob), Zeros(8) + change) == blob[..4] + ZERO + Mix(blob[8..64], change)
  {
    hide MixByte, Zeros;
    var a, b := Mix(Blanked(blob), Zeros(8) + change), blob[..4] + ZERO + Mix(blob[8..64], change);
    forall i | 0 <= i < 64 ensures a[i] == b[i] {
      if i < 8 {
        MixZero(Blanked(blob)[i], 0);
      }
    }
  }

  /** In every acceptable image these changes go unnoticed, and the payload is returned as before. */
  lemma {:induction false} DamageUnnoticed(blob: Bytes, at: nat)
    requires Unwrap(blob).Success? && 5 <= at <= 7
    ensures AgreeOutside(blob, Damaged(blob, at), at) && Damaged(blob, at) != blob
    ensures Unwrap(Damaged(blob, at)) == Unwrap(blob)
  {
    hide Crc, Loaded, Blanked, Damaged, Zeros, Mix, StoredChange, DataChange, AgreeOutside;
    DamagedInWindow(blob, at);
    DamagedSections(blob, at);
    CrcXor(Blanked(blob), Zeros(8) + (DataChange(at) + Zeros(52)));
    LoadedXor(blob[4..8], StoredChange(at));
    ChangesCancel(at);
  }

  /**
    Where a change of four consecutive bytes may be: every such change of every acceptable image
    is rejected exactly when the window ends before byte 8 or begins at byte 8 or later.
   */
  lemma {:induction false} WindowsExactly(at: nat)
    ensures (forall blob, damaged | Unwrap(blob).Success? && AgreeOutside(blob, damaged, at) && damaged != blob ::
               Unwrap(damaged).Failure?)
            <==> at <= 4 || at >= 8
  {
    hide Unwrap, AgreeOutside, Damaged;
    if at <= 4 || at >= 8 {
      forall blob, damaged | Unwrap(blob).Success? && AgreeOutside(blob, damaged, at) && damaged != blob
        ensures Unwrap(damaged).Failure?
      {
        BurstRejected(blob, damaged, at);
      }
    } else {
      WrapThenUnwrap([]);
      var blob := Wrap([]).value;
      AcceptableIsLong(blob);
      DamageUnnoticed(blob, at);
      assert Unwrap(Damaged(blob, at)).Success?;
    }
  }

  lemma {:induction false} AcceptableIsLong(blob: Bytes)
    requires Unwrap(blob).Success?
    ensures |blob| >= 64
  {
  }
}
