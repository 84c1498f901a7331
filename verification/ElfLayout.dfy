/**
  A 32-bit ELF file as it is written: the fields of its header and of each program header one behind
  the other, in either byte order. What the check reads is what was written, and nothing else of it.
 */
module ElfLayout {
  import opened Results
  import opened KernelFootprint

  type Number16 = n: nat | n < 0x1_0000
  type Number32 = n: nat | n < 0x1_0000_0000

  function HalfBytes(little: bool, n: Number16): (b: Bytes)
    ensures |b| == 2
  {
    var low: Byte, high: Byte := n % 0x100, n / 0x100;
    if little then [low, high] else [high, low]
  }

  function WordBytes(little: bool, n: Number32): (b: Bytes)
    ensures |b| == 4
  {
    var b0: Byte, b1: Byte := n % 0x100, n / 0x100 % 0x100;
    var b2: Byte, b3: Byte := n / 0x1_0000 % 0x100, n / 0x100_0000;
    if little then [b0, b1, b2, b3] else [b3, b2, b1, b0]
  }

  lemma {:induction false} HalfIsRead(little: bool, n: Number16)
    ensures Half(little, HalfBytes(little, n)) == n
  {
  }

  lemma {:induction false} WordIsRead(little: bool, n: Number32)
    ensures Word(little, WordBytes(little, n)) == n
  {
    var b := WordBytes(little, n);
    assert n / 0x100 / 0x100 == n / 0x1_0000 && n / 0x1_0000 / 0x100 == n / 0x100_0000;
    assert b[..2] == [b[0], b[1]] && b[2..] == [b[2], b[3]];
  }

  // ----- the file's header

  /** The fields behind the identification, in their order. */
  datatype FileHeader = FileHeader(
    kind: Number16, machine: Number16, version: Number32, entry: Number32, phoff: Number32, shoff: Number32,
    flags: Number32, ehsize: Number16, phentsize: Number16, phnum: Number16,
    shentsize: Number16, shnum: Number16, shstrndx: Number16)

  /** DEL and "ELF", the width, the byte order, and ten bytes that the check does not look at. */
  function Identification(width: Byte, order: Byte, rest: Bytes): (b: Bytes)
    requires |rest| == 10
    ensures |b| == 16
  {
    [0x7F, 'E' as int, 'L' as int, 'F' as int, width, order] + rest
  }

  function FileHeaderBytes(little: bool, f: FileHeader): (b: Bytes)
    ensures |b| == 36
  {
    HalfBytes(little, f.kind) + HalfBytes(little, f.machine) + WordBytes(little, f.version)
    + WordBytes(little, f.entry) + WordBytes(little, f.phoff) + WordBytes(little, f.shoff)
    + WordBytes(little, f.flags) + HalfBytes(little, f.ehsize) + HalfBytes(little, f.phentsize)
    + HalfBytes(little, f.phnum) + HalfBytes(little, f.shentsize) + HalfBytes(little, f.shnum)
    + HalfBytes(little, f.shstrndx)
  }

  lemma {:induction false} FieldsInPlace(little: bool, f: FileHeader)
    ensures var b := FileHeaderBytes(little, f);
            && b[0..2] == HalfBytes(little, f.kind) && b[2..4] == HalfBytes(little, f.machine)
            && b[12..16] == WordBytes(little, f.phoff)
            && b[26..28] == HalfBytes(little, f.phentsize) && b[28..30] == HalfBytes(little, f.phnum)
  {
    hide HalfBytes, WordBytes;
  }

  /** The file begins with this header. */
  predicate Begins(v: Bytes, width: Byte, order: Byte, rest: Bytes, f: FileHeader) {
    && |rest| == 10 && |v| >= 52
    && v[..16] == Identification(width, order, rest) && v[16..52] == FileHeaderBytes(order == 1, f)
  }

  lemma {:induction false} Inside(v: Bytes, from: nat, to: nat, i: nat, j: nat)
    requires from <= to <= |v| && i <= j <= to - from
    ensures v[from..to][i..j] == v[from + i..from + j]
  {
    var whole := v[from..to];
    assert forall k | i <= k < j :: whole[k] == v[from + k];
    assert whole[i..j] == v[from + i..from + j];
  }

  lemma {:induction false} FieldsAreFound(v: Bytes, width: Byte, order: Byte, rest: Bytes, f: FileHeader)
    requires Begins(v, width, order, rest, f)
    ensures var little := order == 1;
            && v[..4] == [0x7F, 0x45, 0x4C, 0x46] && v[4] == width && v[5] == order
            && Half(little, v[16..18]) == f.kind && Half(little, v[18..20]) == f.machine
            && Word(little, v[28..32]) == f.phoff
            && Half(little, v[42..44]) == f.phentsize && Half(little, v[44..46]) == f.phnum
  {
    hide Half, Word, HalfBytes, WordBytes, FileHeaderBytes;
    var little, b := order == 1, v[16..52];
    FieldsInPlace(little, f);
    Inside(v, 16, 52, 0, 2);
    Inside(v, 16, 52, 2, 4);
    Inside(v, 16, 52, 12, 16);
    Inside(v, 16, 52, 26, 28);
    Inside(v, 16, 52, 28, 30);
    HalfIsRead(little, f.kind);
    HalfIsRead(little, f.machine);
    WordIsRead(little, f.phoff);
    HalfIsRead(little, f.phentsize);
    HalfIsRead(little, f.phnum);
    assert v[4] == v[..16][4] && v[5] == v[..16][5] && v[..4] == v[..16][..4];
  }

  /** What the check makes of every file header: the reason to refuse it, or where its table is. */
  lemma {:induction false} HeaderIsRead(v: Bytes, width: Byte, order: Byte, rest: Bytes, f: FileHeader)
    requires Begins(v, width, order, rest, f)
    ensures HeaderOf(v) ==
            if width != 1 then Failure(NotElf32)
            else if order != 1 && order != 2 then Failure(BadEncoding)
            else if f.kind != 2 || f.machine != 40 then Failure(NotArmExecutable)
            else if f.phentsize != 32 || f.phnum == 0 then Failure(NoProgramHeaders)
            else Success(Header(order == 1, f.phoff, f.phnum))
  {
    hide Half, Word, FileHeaderBytes, Begins;
    FieldsAreFound(v, width, order, rest, f);
    assert |v| >= 52 by { BeginsIsLong(v, width, order, rest, f); }
  }

  lemma {:induction false} BeginsIsLong(v: Bytes, width: Byte, order: Byte, rest: Bytes, f: FileHeader)
    requires Begins(v, width, order, rest, f)
    ensures |v| >= 52
  {
  }

  /** A file that is too short for a header, or does not begin as an ELF file does, is none. */
  lemma {:induction false} OtherFiles(v: Bytes)
    requires |v| < 52 || v[0] != 0x7F || v[1] != 'E' as int || v[2] != 'L' as int || v[3] != 'F' as int
    ensures HeaderOf(v) == Failure(NotElf32)
  {
  }

  // ----- the program headers

  datatype ProgramHeader = ProgramHeader(
    kind: Number32, offset: Number32, vaddr: Number32, paddr: Number32,
    filesz: Number32, memsz: Number32, flags: Number32, align: Number32)

  function ProgramHeaderBytes(little: bool, p: ProgramHeader): (b: Bytes)
    ensures |b| == 32
  {
    WordBytes(little, p.kind) + WordBytes(little, p.offset) + WordBytes(little, p.vaddr) + WordBytes(little, p.paddr)
    + WordBytes(little, p.filesz) + WordBytes(little, p.memsz) + WordBytes(little, p.flags) + WordBytes(little, p.align)
  }

  lemma {:induction false} WordsInPlace(little: bool, p: ProgramHeader)
    ensures var b := ProgramHeaderBytes(little, p);
            && b[0..4] == WordBytes(little, p.kind) && b[12..16] == WordBytes(little, p.paddr)
            && b[16..20] == WordBytes(little, p.filesz) && b[20..24] == WordBytes(little, p.memsz)
  {
    hide WordBytes;
  }

  /** Program header `p` stands in the table's row `i`. */
  predicate Stands(v: Bytes, h: Header, i: nat, p: ProgramHeader) {
    var at := h.offset + 32 * i;
    at + 32 <= |v| && v[at..at + 32] == ProgramHeaderBytes(h.little, p)
  }

  lemma {:induction false} SegmentIsRead(v: Bytes, h: Header, i: nat, p: ProgramHeader)
    requires Stands(v, h, i, p)
    ensures Present(v, h, i) && SegmentAt(v, h, i) == Segment(p.kind, p.paddr, p.filesz, p.memsz)
  {
    hide Half, Word, WordBytes, ProgramHeaderBytes;
    var at := h.offset + 32 * i;
    assert v[at..][..32] == v[at..at + 32];
    WordsInPlace(h.little, p);
    WordIsRead(h.little, p.kind);
    WordIsRead(h.little, p.paddr);
    WordIsRead(h.little, p.filesz);
    WordIsRead(h.little, p.memsz);
  }

  /** What the check keeps of a program header. */
  function Kept(ps: seq<ProgramHeader>): (r: seq<Segment>)
    ensures |r| == |ps|
    ensures forall i | 0 <= i < |ps| :: r[i] == Segment(ps[i].kind, ps[i].paddr, ps[i].filesz, ps[i].memsz)
  {
    seq(|ps|, i requires 0 <= i < |ps| => Segment(ps[i].kind, ps[i].paddr, ps[i].filesz, ps[i].memsz))
  }

  /**
    For every ARM executable as it is written, in either byte order: the table read is the type, the
    physical address and the two sizes of every program header, in order.
   */
  lemma {:induction false} TableIsRead(v: Bytes, order: Byte, rest: Bytes, f: FileHeader, ps: seq<ProgramHeader>)
    requires Begins(v, 1, order, rest, f) && (order == 1 || order == 2)
    requires f.kind == 2 && f.machine == 40 && f.phentsize == 32 && f.phnum == |ps| > 0
    requires forall i: nat | i < |ps| :: Stands(v, Header(order == 1, f.phoff, f.phnum), i, ps[i])
    ensures Table(v) == Kept(ps)
    ensures Refusal(v) == if exists p | p in ps :: p.kind == 1 && p.memsz > 0 then None else Some(NoLoad)
  {
    hide Begins, Stands, HeaderOf, SegmentAt;
    var h := Header(order == 1, f.phoff, f.phnum);
    HeaderIsRead(v, 1, order, rest, f);
    forall i: nat | i < |ps| ensures Present(v, h, i) && SegmentAt(v, h, i) == Kept(ps)[i] {
      SegmentIsRead(v, h, i, ps[i]);
    }
    assert Table(v) == Segments(v, h, |ps|);
    assert Table(v) == Kept(ps);
    if p :| p in ps && p.kind == 1 && p.memsz > 0 {
      var i :| 0 <= i < |ps| && ps[i] == p;
      assert Kept(ps)[i] in Table(v) && Loaded(Kept(ps)[i]);
    }
    if s :| s in Table(v) && Loaded(s) {
      var i :| 0 <= i < |ps| && Kept(ps)[i] == s;
      assert ps[i] in ps && ps[i].kind == 1 && ps[i].memsz > 0;
    }
  }

  /** A table that does not fit into the file is refused as truncated. */
  lemma {:induction false} ShortTableIsRefused(v: Bytes, order: Byte, rest: Bytes, f: FileHeader)
    requires Begins(v, 1, order, rest, f) && (order == 1 || order == 2)
    requires f.kind == 2 && f.machine == 40 && f.phentsize == 32 && f.phnum > 0
    ensures Refusal(v) == Some(Truncated) <==> f.phoff + 32 * f.phnum > |v|
  {
    hide Begins, HeaderOf, SegmentAt;
    HeaderIsRead(v, 1, order, rest, f);
  }
}
