/** How much memory the kernel of an ELF file takes, and whether it stays clear of the initrd. */
module KernelFootprint {
  import opened Results

  const KERNEL_PHYS: nat := 0x00008000
  const INITRD_LOAD: nat := 0x02600000
  const DECOMPRESSOR_SCRATCH: nat := 0x00100000

  const HEADER: nat := 52
  const ENTRY: nat := 32

  datatype Error = NotElf32 | BadEncoding | NotArmExecutable | NoProgramHeaders | Truncated | NoLoad

  datatype Header = Header(little: bool, offset: nat, count: nat)

  datatype Segment = Segment(kind: nat, paddr: nat, filesz: nat, memsz: nat)

  /** Lowest address, highest end in memory, highest end of what is in the file. */
  datatype Extent = Extent(lowest: nat, highest: nat, highestFile: nat)

  function Half(little: bool, b: Bytes): nat
    requires |b| == 2
  {
    if little then (b[0] as int) + 0x100 * (b[1] as int) else (b[1] as int) + 0x100 * (b[0] as int)
  }

  function Word(little: bool, b: Bytes): nat
    requires |b| == 4
  {
    if little then Half(little, b[..2]) + 0x10000 * Half(little, b[2..])
    else Half(little, b[2..]) + 0x10000 * Half(little, b[..2])
  }

  function HeaderOf(v: Bytes): Result<Header, Error> {
    if |v| < HEADER || v[..4] != [0x7F, 0x45, 0x4C, 0x46] || v[4] != 1 then Failure(NotElf32)
    else if v[5] != 1 && v[5] != 2 then Failure(BadEncoding)
    else
      var little := v[5] == 1;
      if Half(little, v[16..18]) != 2 || Half(little, v[18..20]) != 40 then Failure(NotArmExecutable)
      else if Half(little, v[42..44]) != ENTRY || Half(little, v[44..46]) == 0 then Failure(NoProgramHeaders)
      else Success(Header(little, Word(little, v[28..32]), Half(little, v[44..46])))
  }

  /** Entry `i` of the program header table lies within the file. */
  predicate Present(v: Bytes, h: Header, i: nat) {
    h.offset + i * ENTRY + ENTRY <= |v|
  }

  function SegmentAt(v: Bytes, h: Header, i: nat): Segment
    requires Present(v, h, i)
  {
    var e := v[h.offset + i * ENTRY..][..ENTRY];
    Segment(Word(h.little, e[0..4]), Word(h.little, e[12..16]), Word(h.little, e[16..20]), Word(h.little, e[20..24]))
  }

  /** The first `n` entries of the table. */
  function Segments(v: Bytes, h: Header, n: nat): (r: seq<Segment>)
    requires n > 0 ==> Present(v, h, n - 1)
    ensures |r| == n
    ensures forall i | 0 <= i < n :: Present(v, h, i) && r[i] == SegmentAt(v, h, i)
    decreases n, |v|
  {
    if n == 0 then [] else Segments(v, h, n - 1) + [SegmentAt(v, h, n - 1)]
  }

  predicate Loaded(s: Segment) {
    s.kind == 1 && s.memsz != 0
  }

  predicate Covers(x: Extent, s: Segment) {
    Loaded(s) ==> x.lowest <= s.paddr && s.paddr + s.memsz <= x.highest && s.paddr + s.filesz <= x.highestFile
  }

  /** The extent of the loadable, nonempty segments: it covers them all, and none of its ends is slack. */
  ghost predicate IsExtent(segments: seq<Segment>, x: Extent) {
    && (forall s | s in segments :: Covers(x, s))
    && (exists s | s in segments :: Loaded(s) && s.paddr == x.lowest)
    && (exists s | s in segments :: Loaded(s) && s.paddr + s.memsz == x.highest)
    && (exists s | s in segments :: Loaded(s) && s.paddr + s.filesz == x.highestFile)
  }

  function Low(best: Option<nat>, x: nat): nat {
    if best.None? || x < best.value then x else best.value
  }

  function High(best: Option<nat>, x: nat): nat {
    if best.None? || x > best.value then x else best.value
  }

  /** The three running values after some entries. */
  ghost predicate Running(segments: seq<Segment>, lowest: Option<nat>, highest: Option<nat>, highestFile: Option<nat>) {
    if lowest.None? then highest.None? && highestFile.None? && forall s | s in segments :: !Loaded(s)
    else
      && highest.Some? && highestFile.Some?
      && IsExtent(segments, Extent(lowest.value, highest.value, highestFile.value))
  }

  lemma {:induction false} RunningSkips(segments: seq<Segment>, s: Segment,
                                        lowest: Option<nat>, highest: Option<nat>, highestFile: Option<nat>)
    requires Running(segments, lowest, highest, highestFile) && !Loaded(s)
    ensures Running(segments + [s], lowest, highest, highestFile)
  {
    assert forall x :: x in segments + [s] <==> x in segments || x == s;
  }

  lemma {:induction false} RunningTakes(segments: seq<Segment>, s: Segment,
                                        lowest: Option<nat>, highest: Option<nat>, highestFile: Option<nat>)
    requires Running(segments, lowest, highest, highestFile) && Loaded(s)
    ensures Running(segments + [s], Some(Low(lowest, s.paddr)), Some(High(highest, s.paddr + s.memsz)),
                    Some(High(highestFile, s.paddr + s.filesz)))
  {
    assert forall x :: x in segments + [s] <==> x in segments || x == s;
    assert s in segments + [s];
  }

  /** The program header table, if it can be read. */
  function Table(v: Bytes): seq<Segment> {
    match HeaderOf(v)
    case Failure(_) => []
    case Success(h) => if h.count > 0 && Present(v, h, h.count - 1) then Segments(v, h, h.count) else []
  }

  /** Why a file is refused, if it is. */
  ghost function Refusal(v: Bytes): Option<Error> {
    match HeaderOf(v)
    case Failure(e) => Some(e)
    case Success(h) =>
      if h.count > 0 && !Present(v, h, h.count - 1) then Some(Truncated)
      else if forall s | s in Table(v) :: !Loaded(s) then Some(NoLoad)
      else None
  }

  method LoadFootprint(v: Bytes) returns (r: Result<Extent, Error>)
    ensures match r
      case Failure(e) => Refusal(v) == Some(e)
      case Success(x) => Refusal(v) == None && IsExtent(Table(v), x)
  {
    hide IsExtent, SegmentAt, Low, High, Loaded;
    var header := HeaderOf(v);
    if header.Failure? {
      return Failure(header.error);
    }
    var h := header.value;
    var lowest: Option<nat>, highest: Option<nat>, highestFile: Option<nat> := None, None, None;
    for i := 0 to h.count
      invariant i > 0 ==> Present(v, h, i - 1)
      invariant Running(Segments(v, h, i), lowest, highest, highestFile)
    {
      if h.offset + i * ENTRY + ENTRY > |v| {
        assert !Present(v, h, h.count - 1);
        return Failure(Truncated);
      }
      var s := SegmentAt(v, h, i);
      if Loaded(s) {
        RunningTakes(Segments(v, h, i), s, lowest, highest, highestFile);
        lowest, highest, highestFile :=
          Some(Low(lowest, s.paddr)), Some(High(highest, s.paddr + s.memsz)),
          Some(High(highestFile, s.paddr + s.filesz));
      } else {
        RunningSkips(Segments(v, h, i), s, lowest, highest, highestFile);
      }
    }
    if lowest.None? {
      return Failure(NoLoad);
    }
    SomeLoaded(Segments(v, h, h.count), Extent(lowest.value, highest.value, highestFile.value));
    return Success(Extent(lowest.value, highest.value, highestFile.value));
  }

  lemma {:induction false} SomeLoaded(segments: seq<Segment>, x: Extent)
    requires IsExtent(segments, x)
    ensures exists s | s in segments :: Loaded(s)
  {
  }

  /** The extent depends only on which loadable segments there are, not on their order or what is between them. */
  lemma {:induction false} OrderIrrelevant(a: seq<Segment>, b: seq<Segment>, x: Extent, y: Extent)
    requires IsExtent(a, x) && IsExtent(b, y)
    requires forall s | Loaded(s) :: s in a <==> s in b
    ensures x == y
  {
    var s :| s in a && Loaded(s) && s.paddr == x.lowest;
    var t :| t in b && Loaded(t) && t.paddr == y.lowest;
    assert Covers(y, s) && Covers(x, t);
    var s1 :| s1 in a && Loaded(s1) && s1.paddr + s1.memsz == x.highest;
    var t1 :| t1 in b && Loaded(t1) && t1.paddr + t1.memsz == y.highest;
    assert Covers(y, s1) && Covers(x, t1);
    var s2 :| s2 in a && Loaded(s2) && s2.paddr + s2.filesz == x.highestFile;
    var t2 :| t2 in b && Loaded(t2) && t2.paddr + t2.filesz == y.highestFile;
    assert Covers(y, s2) && Covers(x, t2);
  }

  // ----- the check and the verdict

  datatype Figures = Figures(image: int, footprint: int, decompressorEnd: int, end: int)

  function Figured(x: Extent, uimage: nat): Figures {
    var image, footprint := x.highestFile - x.lowest, x.highest - x.lowest;
    var unpacking := image + uimage + DECOMPRESSOR_SCRATCH;
    Figures(image, footprint, KERNEL_PHYS + unpacking,
            KERNEL_PHYS + if footprint >= unpacking then footprint else unpacking)
  }

  datatype Verdict = Accepted | Overwrites | Disables

  function Judged(f: Figures): Verdict {
    if f.decompressorEnd >= INITRD_LOAD then Overwrites
    else if f.end >= INITRD_LOAD then Disables
    else Accepted
  }

  /** The segment, moved with the whole kernel to its load address, ends below the initrd in memory. */
  predicate ClearInMemory(s: Segment, lowest: nat) {
    KERNEL_PHYS + (s.paddr - lowest) + s.memsz < INITRD_LOAD
  }

  /** Behind the segment's file part there is room for the relocated uImage and its scratch area. */
  predicate ClearWhileUnpacking(s: Segment, lowest: nat, uimage: nat) {
    KERNEL_PHYS + (s.paddr - lowest) + s.filesz + uimage + DECOMPRESSOR_SCRATCH < INITRD_LOAD
  }

  /**
    The kernel is accepted exactly when every loadable segment, rebased, ends below the initrd,
    both in memory and with the uImage and the scratch area behind it; and the verdict names the
    part that does not.
   */
  lemma {:induction false} VerdictExactly(segments: seq<Segment>, x: Extent, uimage: nat)
    requires IsExtent(segments, x)
    ensures var verdict := Judged(Figured(x, uimage));
            && (verdict != Overwrites <==>
                forall s | s in segments && Loaded(s) :: ClearWhileUnpacking(s, x.lowest, uimage))
            && (verdict == Accepted <==>
                  forall s | s in segments && Loaded(s) ::
                    ClearInMemory(s, x.lowest) && ClearWhileUnpacking(s, x.lowest, uimage))
  {
    var t :| t in segments && Loaded(t) && t.paddr + t.memsz == x.highest;
    var u :| u in segments && Loaded(u) && u.paddr + u.filesz == x.highestFile;
    forall s | s in segments && Loaded(s)
      ensures s.paddr + s.memsz <= x.highest && s.paddr + s.filesz <= x.highestFile
    {
      assert Covers(x, s);
    }
    assert Judged(Figured(x, uimage)) == Overwrites <==> !ClearWhileUnpacking(u, x.lowest, uimage);
    assert KERNEL_PHYS + (x.highest - x.lowest) >= INITRD_LOAD <==> !ClearInMemory(t, x.lowest);
  }

  /**
    The image reaches from the lowest address to the highest end in the file, the footprint to the
    highest end in memory; the decompressor needs the relocated image and its scratch area behind
    the first, and the worst case is the larger of the two.
   */
  lemma {:induction false} FiguresExactly(segments: seq<Segment>, x: Extent, uimage: nat)
    requires IsExtent(segments, x)
    ensures var f := Figured(x, uimage);
            && (forall s | s in segments && Loaded(s) :: s.paddr - x.lowest + s.filesz <= f.image)
            && (exists s | s in segments :: Loaded(s) && s.paddr - x.lowest + s.filesz == f.image)
            && (forall s | s in segments && Loaded(s) :: s.paddr - x.lowest + s.memsz <= f.footprint)
            && (exists s | s in segments :: Loaded(s) && s.paddr - x.lowest + s.memsz == f.footprint)
            && f.decompressorEnd == 0x8000 + f.image + uimage + 0x10_0000
            && f.end >= f.decompressorEnd && f.end >= 0x8000 + f.footprint
            && (f.end == f.decompressorEnd || f.end == 0x8000 + f.footprint)
  {
    var t :| t in segments && Loaded(t) && t.paddr + t.memsz == x.highest;
    var u :| u in segments && Loaded(u) && u.paddr + u.filesz == x.highestFile;
    assert u.paddr - x.lowest + u.filesz == Figured(x, uimage).image;
    assert t.paddr - x.lowest + t.memsz == Figured(x, uimage).footprint;
    forall s | s in segments && Loaded(s)
      ensures s.paddr + s.memsz <= x.highest && s.paddr + s.filesz <= x.highestFile
    {
      assert Covers(x, s);
    }
  }

  /** The figures are never negative, and the second end is the larger one. */
  lemma {:induction false} FiguresAreOrdered(segments: seq<Segment>, x: Extent, uimage: nat)
    requires IsExtent(segments, x)
    ensures var f := Figured(x, uimage); f.image >= 0 && f.footprint > 0 && f.end >= f.decompressorEnd > 0
  {
    var s :| s in segments && Loaded(s) && s.paddr == x.lowest;
    assert Covers(x, s);
  }

  /** The whole check of one kernel and the size of its uImage. */
  method CheckKernel(v: Bytes, uimage: nat) returns (r: Result<(Figures, Verdict), Error>)
    ensures match r
      case Failure(e) => Refusal(v) == Some(e)
      case Success((f, verdict)) =>
        && Refusal(v) == None
        && exists x :: IsExtent(Table(v), x) && f == Figured(x, uimage) && verdict == Judged(f) &&
             (verdict == Accepted <==>
                forall s | s in Table(v) && Loaded(s) ::
                  ClearInMemory(s, x.lowest) && ClearWhileUnpacking(s, x.lowest, uimage))
  {
    hide IsExtent, Figured, Judged, Table, Refusal, Loaded, ClearInMemory, ClearWhileUnpacking;
    var extent := LoadFootprint(v);
    if extent.Failure? {
      return Failure(extent.error);
    }
    var f := Figured(extent.value, uimage);
    VerdictExactly(Table(v), extent.value, uimage);
    return Success((f, Judged(f)));
  }
}
