/** The newc archive: the encoder, the cursor-driven decoder, and the functions they are proved against. */
module NewcCodec {
  import opened Results
  import opened NewcFormat

  datatype Entry = Entry(name: Bytes, mode: nat, data: Bytes, uid: nat, gid: nat, rmajor: nat, rminor: nat)

  datatype EncodeError = UnsafePath | DuplicatePath | NotEncodable

  datatype DecodeError =
    | InvalidHeader | InvalidNumber | InvalidMetadata | InvalidName | InvalidUtf8 | UnsafeMember
    | TruncatedData | InvalidTrailer | DuplicateMember

  /** "070701" */
  const MAGIC: Bytes := [0x30, 0x37, 0x30, 0x37, 0x30, 0x31]

  /** "TRAILER!!!" */
  const TRAILER: Bytes := [0x54, 0x52, 0x41, 0x49, 0x4C, 0x45, 0x52, 0x21, 0x21, 0x21]

  function Trailer(): Entry {
    Entry(TRAILER, 0, [], 0, 0, 0, 0)
  }

  // ----- encoding

  function Values(ino: nat, e: Entry, nameSize: nat): (r: seq<nat>)
    ensures |r| == 13
  {
    [ino, e.mode, e.uid, e.gid, 1, 0, |e.data|, 0, 0, e.rmajor, e.rminor, nameSize, 0]
  }

  function Head(ino: nat, e: Entry, name: Bytes): Bytes {
    MAGIC + HexFields(Values(ino, e, |name| + 1)) + (name + [NUL])
  }

  function Body(ino: nat, e: Entry, name: Bytes): Bytes {
    Head(ino, e, name) + Zeros(Pad(|Head(ino, e, name)|, 4)) + e.data
  }

  function Record(ino: nat, e: Entry, name: Bytes): (r: Bytes)
    ensures |r| % 4 == 0
  {
    Body(ino, e, name) + Zeros(Pad(|Body(ino, e, name)|, 4))
  }

  /** The names to store, or the first reason to refuse. */
  function Names(es: seq<Entry>, seen: set<Bytes>): (r: Result<seq<Bytes>, EncodeError>)
    ensures r.Success? ==> |r.value| == |es|
  {
    if es == [] then Success([])
    else
      match SafeName(es[0].name)
      case None => Failure(UnsafePath)
      case Some(name) =>
        if name in seen then Failure(DuplicatePath)
        else if !ValidUtf8(name) then Failure(NotEncodable)
        else PrependNames([name], Names(es[1..], seen + {name}))
  }

  function PrependNames(front: seq<Bytes>, r: Result<seq<Bytes>, EncodeError>): Result<seq<Bytes>, EncodeError> {
    match r
    case Failure(e) => Failure(e)
    case Success(names) => Success(front + names)
  }

  function Layout(es: seq<Entry>, names: seq<Bytes>, ino: nat): (r: Bytes)
    requires |es| == |names|
    ensures |r| % 4 == 0
  {
    if es == [] then []
    else
      hide Record;
      var first, rest := Record(ino, es[0], names[0]), Layout(es[1..], names[1..], ino + 1);
      AlignedSum(|first|, |rest|);
      first + rest
  }

  lemma {:induction false} AlignedSum(a: nat, b: nat)
    requires a % 4 == 0 && b % 4 == 0
    ensures (a + b) % 4 == 0
  {
  }

  function Encoded(es: seq<Entry>): Result<Bytes, EncodeError> {
    match Names(es + [Trailer()], {})
    case Failure(e) => Failure(e)
    case Success(names) =>
      var b := Layout(es + [Trailer()], names, 1);
      Success(b + Zeros(Pad(|b|, 512)))
  }

  method Encode(entries: seq<Entry>) returns (r: Result<Bytes, EncodeError>)
    ensures r == Encoded(entries)
  {
    hide SafeName, ValidUtf8, Record;
    var all := entries + [Trailer()];
    var result: Bytes, seen: set<Bytes> := [], {};
    ghost var names: seq<Bytes> := [];
    PrependNoNames(Names(all, {}));
    assert all[0..] == all;
    for i := 0 to |all|
      invariant |names| == i && result == Layout(all[..i], names, 1)
      invariant Names(all, {}) == PrependNames(names, Names(all[i..], seen))
    {
      var entry := all[i];
      assert all[i..][0] == entry && all[i..][1..] == all[i + 1..] && all[..i + 1] == all[..i] + [entry];
      var safe := SafeName(entry.name);
      if safe.None? {
        return Failure(UnsafePath);
      }
      var name := safe.value;
      if name in seen {
        return Failure(DuplicatePath);
      }
      if !ValidUtf8(name) {
        return Failure(NotEncodable);
      }
      seen := seen + {name};
      PrependNamesStep(names, name, Names(all[i + 1..], seen));
      LayoutAppend(all[..i], names, 1, entry, name);
      result := AppendRecord(result, i + 1, entry, name);
      names := names + [name];
    }
    assert all[..|all|] == all && names + [] == names;
    return Success(result + Zeros(Pad(|result|, 512)));
  }

  /** One pass of the encoder's loop; the padding is computed from the whole archive so far. */
  method AppendRecord(archive: Bytes, ino: nat, entry: Entry, name: Bytes) returns (result: Bytes)
    requires |archive| % 4 == 0
    ensures result == archive + Record(ino, entry, name)
  {
    result := archive + (MAGIC + HexFields(Values(ino, entry, |name| + 1)));
    result := result + (name + [NUL]);
    assert result == archive + Head(ino, entry, name);
    PadKeeps(|archive|, |Head(ino, entry, name)|);
    result := result + Zeros(Pad(|result|, 4));
    result := result + entry.data;
    assert result == archive + Body(ino, entry, name);
    PadKeeps(|archive|, |Body(ino, entry, name)|);
    result := result + Zeros(Pad(|result|, 4));
  }

  lemma {:induction false} PrependNoNames(r: Result<seq<Bytes>, EncodeError>)
    ensures PrependNames([], r) == r
  {
    if r.Success? {
      assert [] + r.value == r.value;
    }
  }

  lemma {:induction false} PrependNamesStep(front: seq<Bytes>, name: Bytes, rest: Result<seq<Bytes>, EncodeError>)
    ensures PrependNames(front, PrependNames([name], rest)) == PrependNames(front + [name], rest)
  {
    if rest.Success? {
      assert front + ([name] + rest.value) == front + [name] + rest.value;
    }
  }

  lemma {:induction false} LayoutAppend(es: seq<Entry>, names: seq<Bytes>, ino: nat, e: Entry, name: Bytes)
    requires |es| == |names|
    ensures Layout(es + [e], names + [name], ino) == Layout(es, names, ino) + Record(ino + |es|, e, name)
    decreases |es|
  {
    hide Record;
    if es == [] {
      assert [e][1..] == [] && [] + [name] == [name];
      LayoutOne(e, name, ino);
    } else {
      assert (es + [e])[1..] == es[1..] + [e] && (names + [name])[1..] == names[1..] + [name];
      LayoutAppend(es[1..], names[1..], ino + 1, e, name);
    }
  }

  lemma {:induction false} LayoutOne(e: Entry, name: Bytes, ino: nat)
    ensures Layout([] + [e], [] + [name], ino) == [] + Record(ino, e, name)
  {
    hide Record;
    var es, names := [] + [e], [] + [name];
    assert es[1..] == [] && names[1..] == [];
  }

  lemma {:induction false} PadKeeps(aligned: nat, length: nat)
    requires aligned % 4 == 0
    ensures Pad(aligned + length, 4) == Pad(length, 4)
  {
  }

  // ----- decoding

  /** One record as read, and the aligned position after it. */
  datatype Item = Item(entry: Entry, payload: nat, next: nat)

  function Align(pos: nat, start: nat): nat {
    pos + Pad(pos - start, 4)
  }

  /** `data[from:from + n]`, which stops where the data does. */
  function Slice(data: Bytes, from: nat, n: nat): (r: Bytes)
    ensures |r| <= n
    ensures |r| == n <==> n == 0 || from + n <= |data|
    ensures from + n <= |data| ==> r == data[from..from + n]
  {
    if from >= |data| then [] else if from + n <= |data| then data[from..from + n] else data[from..]
  }

  function ReadItem(data: Bytes, start: nat, pos: nat): (r: Result<Item, DecodeError>)
    ensures r.Success? ==> pos + 110 < r.value.payload && r.value.next <= |data| + 3
    ensures r.Success? ==> r.value.payload + |r.value.entry.data| <= r.value.next
    ensures r.Success? ==> Slice(data, r.value.payload, |r.value.entry.data|) == r.value.entry.data
  {
    hide SafeName, ValidUtf8, ParseFields;
    if pos + 110 > |data| || data[pos..pos + 6] != MAGIC then Failure(InvalidHeader)
    else
      match ParseFields(data[pos + 6..pos + 110])
      case None => Failure(InvalidNumber)
      case Some(f) =>
        var nameSize, size := f[11], f[6];
        if !(1 <= nameSize <= 4096) || f[12] != 0 || f[4] > 0x10_0000 then Failure(InvalidMetadata)
        else
          var p := pos + 110;
          if p + nameSize > |data| then Failure(InvalidName)
          else
            var raw := data[p..p + nameSize];
            if raw[nameSize - 1] != NUL || NUL in raw[..nameSize - 1] then Failure(InvalidName)
            else if !ValidUtf8(raw[..nameSize - 1]) then Failure(InvalidUtf8)
            else
              match SafeName(raw[..nameSize - 1])
              case None => Failure(UnsafeMember)
              case Some(name) =>
                var q := Align(p + nameSize, start);
                var payload := Slice(data, q, size);
                if |payload| != size then Failure(TruncatedData)
                else
                  var entry := Entry(name, f[1], payload, f[2], f[3], f[9], f[10]);
                  Success(Item(entry, q, Align(q + size, start)))
  }

  type Archive = (seq<Entry>, nat)

  function Remaining(data: Bytes, pos: nat): nat {
    if pos <= |data| + 3 then |data| + 4 - pos else 0
  }

  /** The entries from `pos` on and the position after the trailer, given the names seen before. */
  function DecodedFrom(data: Bytes, start: nat, pos: nat, seen: set<Bytes>): Result<Archive, DecodeError>
    decreases Remaining(data, pos)
  {
    match ReadItem(data, start, pos)
    case Failure(e) => Failure(e)
    case Success(item) =>
      if item.entry.name == TRAILER then
        if item.entry.data != [] then Failure(InvalidTrailer) else Success(([], item.next))
      else if item.entry.name in seen then Failure(DuplicateMember)
      else
        match DecodedFrom(data, start, item.next, seen + {item.entry.name})
        case Failure(e) => Failure(e)
        case Success(rest) => Success(([item.entry] + rest.0, rest.1))
  }

  function Decoded(data: Bytes, start: nat): Result<Archive, DecodeError> {
    DecodedFrom(data, start, start, {})
  }

  function PrependEntries(front: seq<Entry>, r: Result<Archive, DecodeError>): Result<Archive, DecodeError> {
    match r
    case Failure(e) => Failure(e)
    case Success(a) => Success((front + a.0, a.1))
  }

  /** One pass of the decoder's loop up to the aligned end of the payload. */
  method ReadMember(data: Bytes, start: nat, at: nat) returns (r: Result<Item, DecodeError>)
    ensures r == ReadItem(data, start, at)
  {
    hide SafeName, ValidUtf8, ParseFields;
    var pos := at;
    if pos + 110 > |data| || data[pos..pos + 6] != MAGIC {
      return Failure(InvalidHeader);
    }
    var fields := ParseFields(data[pos + 6..pos + 110]);
    if fields.None? {
      return Failure(InvalidNumber);
    }
    var f := fields.value;
    var nameSize, size := f[11], f[6];
    if !(1 <= nameSize <= 4096) || f[12] != 0 || f[4] > 0x10_0000 {
      return Failure(InvalidMetadata);
    }
    pos := pos + 110;
    if pos + nameSize > |data| {
      return Failure(InvalidName);
    }
    var raw := data[pos..pos + nameSize];
    if raw[nameSize - 1] != NUL || NUL in raw[..nameSize - 1] {
      return Failure(InvalidName);
    }
    if !ValidUtf8(raw[..nameSize - 1]) {
      return Failure(InvalidUtf8);
    }
    var safe := SafeName(raw[..nameSize - 1]);
    if safe.None? {
      return Failure(UnsafeMember);
    }
    pos := pos + nameSize;
    pos := pos + Pad(pos - start, 4);
    var payload, payloadAt := Slice(data, pos, size), pos;
    if |payload| != size {
      return Failure(TruncatedData);
    }
    pos := pos + size;
    pos := pos + Pad(pos - start, 4);
    return Success(Item(Entry(safe.value, f[1], payload, f[2], f[3], f[9], f[10]), payloadAt, pos));
  }

  method Decode(data: Bytes, start: nat) returns (r: Result<Archive, DecodeError>)
    ensures r == Decoded(data, start)
  {
    var entries: seq<Entry>, seen: set<Bytes>, pos: nat := [], {}, start;
    PrependNothing(Decoded(data, start));
    while true
      invariant Decoded(data, start) == PrependEntries(entries, DecodedFrom(data, start, pos, seen))
      decreases Remaining(data, pos)
    {
      var member := ReadMember(data, start, pos);
      if member.Failure? {
        return Failure(member.error);
      }
      var entry := member.value.entry;
      pos := member.value.next;
      if entry.name == TRAILER {
        if entry.data != [] {
          return Failure(InvalidTrailer);
        }
        assert entries + [] == entries;
        return Success((entries, pos));
      }
      if entry.name in seen {
        return Failure(DuplicateMember);
      }
      seen := seen + {entry.name};
      PrependStep(entries, entry, DecodedFrom(data, start, pos, seen));
      entries := entries + [entry];
    }
  }

  lemma {:induction false} PrependNothing(r: Result<Archive, DecodeError>)
    ensures PrependEntries([], r) == r
  {
    if r.Success? {
      assert [] + r.value.0 == r.value.0;
    }
  }

  lemma {:induction false} PrependStep(front: seq<Entry>, e: Entry, rest: Result<Archive, DecodeError>)
    ensures PrependEntries(front, PrependEntries([e], rest)) == PrependEntries(front + [e], rest)
  {
    if rest.Success? {
      assert front + ([e] + rest.value.0) == front + [e] + rest.value.0;
    }
  }
}
