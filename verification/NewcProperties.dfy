/** What the codec guarantees: exact round trips, when they hold, and what arbitrary input can decode to. */
module NewcProperties {
  import opened Results
  import opened Paths
  import opened NewcFormat
  import opened NewcCodec

  // ----- when encoding succeeds

  /** The name as stored. */
  function Clean(name: Bytes): Bytes {
    match SafeName(name)
    case None => name
    case Some(n) => n
  }

  /** An entry that a header can describe and the decoder's limits admit. */
  predicate Fits(e: Entry) {
    && e.mode < LIMIT && e.uid < LIMIT && e.gid < LIMIT && e.rmajor < LIMIT && e.rminor < LIMIT
    && |e.data| < LIMIT && |Clean(e.name)| < 4096
  }

  predicate Named(e: Entry) {
    SafeName(e.name).Some? && ValidUtf8(Clean(e.name)) && Clean(e.name) != TRAILER
  }

  function Normalized(e: Entry): Entry {
    e.(name := Clean(e.name))
  }

  function AllNormalized(es: seq<Entry>): (r: seq<Entry>)
    ensures |r| == |es| && forall i | 0 <= i < |es| :: r[i] == Normalized(es[i])
  {
    if es == [] then [] else [Normalized(es[0])] + AllNormalized(es[1..])
  }

  /** Encodable names, pairwise different after normalisation, none of them the trailer's. */
  ghost predicate Encodable(es: seq<Entry>) {
    && (forall e | e in es :: Named(e))
    && (forall i, j | 0 <= i < j < |es| :: Clean(es[i].name) != Clean(es[j].name))
  }

  lemma {:induction false} SingleComponent(n: Bytes)
    requires n != [] && n != [DOT] && n != [DOT, DOT]
    requires SLASH !in n && BACKSLASH !in n && CARRIAGE_RETURN !in n && LINE_FEED !in n && NUL !in n
    ensures SafeName(n) == Some(n)
  {
    NoSplit(n);
    if [DOT, SLASH] <= n {
      PrefixHasSlash(n);
    }
  }

  lemma {:induction false} PrefixHasSlash(n: Bytes)
    requires [DOT, SLASH] <= n
    ensures SLASH in n
  {
    assert n[1] == SLASH;
  }

  lemma {:induction false} TrailerIsNormal()
    ensures SafeName(TRAILER) == Some(TRAILER) && ValidUtf8(TRAILER)
  {
    hide SafeName, ValidUtf8;
    SingleComponent(TRAILER);
    AsciiIsUtf8(TRAILER);
  }

  lemma {:induction false} NoSplit(s: Bytes)
    requires SLASH !in s
    ensures Split(s, SLASH) == [s]
    decreases |s|
  {
    if s != [] {
      NoSplit(s[1..]);
      assert [s[0]] + s[1..] == s;
    }
  }

  lemma {:induction false} AsciiIsUtf8(s: Bytes)
    requires forall b | b in s :: b <= 0x7F
    ensures ValidUtf8(s)
    decreases |s|
  {
    if s != [] {
      assert s[0] in s && forall b | b in s[1..] :: b in s;
      AsciiIsUtf8(s[1..]);
    }
  }

  ghost predicate Fresh(es: seq<Entry>, seen: set<Bytes>) {
    forall e | e in es :: Clean(e.name) !in seen
  }

  lemma {:induction false} NamesSucceed(es: seq<Entry>, seen: set<Bytes>)
    requires TRAILER !in seen
    ensures Names(es + [Trailer()], seen).Success? <==> Encodable(es) && Fresh(es, seen)
    decreases |es|
  {
    hide SafeName, ValidUtf8;
    TrailerIsNormal();
    var all := es + [Trailer()];
    if es == [] {
      assert all[1..] == [];
    } else {
      assert all[1..] == es[1..] + [Trailer()] && es == [es[0]] + es[1..] && es[0] in es;
      var name := Clean(es[0].name);
      if Named(es[0]) && name !in seen {
        NamesSucceed(es[1..], seen + {name});
        EncodableStep(es, seen);
      } else if SafeName(es[0].name) == Some(TRAILER) {
        RepeatedName(es[1..], Trailer(), seen + {TRAILER});
      }
    }
  }

  lemma {:induction false} EncodableStep(es: seq<Entry>, seen: set<Bytes>)
    requires es != [] && Named(es[0]) && Clean(es[0].name) !in seen
    ensures Encodable(es) && Fresh(es, seen) <==> Encodable(es[1..]) && Fresh(es[1..], seen + {Clean(es[0].name)})
  {
    hide Clean, Named;
    if Encodable(es) && Fresh(es, seen) {
      WithoutFirst(es, seen);
    }
    if Encodable(es[1..]) && Fresh(es[1..], seen + {Clean(es[0].name)}) {
      WithFirst(es, seen);
    }
  }

  lemma {:induction false} WithoutFirst(es: seq<Entry>, seen: set<Bytes>)
    requires es != [] && Encodable(es) && Fresh(es, seen)
    ensures Encodable(es[1..]) && Fresh(es[1..], seen + {Clean(es[0].name)})
  {
    hide Clean, Named;
    var rest := es[1..];
    forall e | e in rest ensures Named(e) && Clean(e.name) !in seen + {Clean(es[0].name)} {
      var k :| 0 <= k < |rest| && rest[k] == e;
      assert es[k + 1] == e && e in es;
    }
    forall i, j | 0 <= i < j < |rest| ensures Clean(rest[i].name) != Clean(rest[j].name) {
      assert Clean(es[i + 1].name) != Clean(es[j + 1].name);
    }
  }

  lemma {:induction false} WithFirst(es: seq<Entry>, seen: set<Bytes>)
    requires es != [] && Named(es[0]) && Clean(es[0].name) !in seen
    requires Encodable(es[1..]) && Fresh(es[1..], seen + {Clean(es[0].name)})
    ensures Encodable(es) && Fresh(es, seen)
  {
    hide Clean, Named;
    var rest := es[1..];
    forall e | e in es ensures Named(e) && Clean(e.name) !in seen {
      assert e == es[0] || e in rest;
    }
    forall i, j | 0 <= i < j < |es| ensures Clean(es[i].name) != Clean(es[j].name) {
      assert es[j] == rest[j - 1] && rest[j - 1] in rest;
      if i > 0 {
        assert es[i] == rest[i - 1];
      }
    }
  }

  /** An entry stored under a name seen before, such as the trailer's, makes encoding fail. */
  lemma {:induction false} RepeatedName(es: seq<Entry>, last: Entry, seen: set<Bytes>)
    requires SafeName(last.name).Some? && Clean(last.name) in seen
    ensures Names(es + [last], seen).Failure?
    decreases |es|
  {
    hide SafeName, ValidUtf8;
    var all := es + [last];
    if es != [] {
      assert all[1..] == es[1..] + [last];
      if SafeName(es[0].name).Some? {
        RepeatedName(es[1..], last, seen + {Clean(es[0].name)});
      }
    }
  }

  /** Encoding refuses exactly the unusable names: unsafe, repeated, unencodable, or the trailer's own. */
  lemma {:induction false} EncodeSucceeds(es: seq<Entry>)
    ensures Encoded(es).Success? <==> Encodable(es)
  {
    NamesSucceed(es, {});
  }

  /** The reason for refusing an entry when these names are taken already. */
  predicate Refuses(e: Entry, taken: set<Bytes>, why: EncodeError) {
    match why
    case UnsafePath => SafeName(e.name).None?
    case DuplicatePath => SafeName(e.name).Some? && Clean(e.name) in taken
    case NotEncodable => SafeName(e.name).Some? && Clean(e.name) !in taken && !ValidUtf8(Clean(e.name))
  }

  function Taken(es: seq<Entry>, seen: set<Bytes>): set<Bytes> {
    seen + set e | e in es :: Clean(e.name)
  }

  /** Entry `k` is the first that is refused, and this is the reason. */
  ghost predicate FirstRefused(es: seq<Entry>, seen: set<Bytes>, k: nat, why: EncodeError) {
    && k < |es| && Refuses(es[k], Taken(es[..k], seen), why)
    && forall j, w | 0 <= j < k :: !Refuses(es[j], Taken(es[..j], seen), w)
  }

  lemma {:induction false} TakenCons(es: seq<Entry>, seen: set<Bytes>, k: nat)
    requires es != [] && k < |es|
    ensures Taken(es[..k + 1], seen) == Taken(es[1..][..k], seen + {Clean(es[0].name)})
  {
    hide Clean;
    assert es[..k + 1] == [es[0]] + es[1..][..k];
  }

  lemma {:induction false} LaterRefused(es: seq<Entry>, seen: set<Bytes>, k: nat, why: EncodeError)
    requires es != [] && forall w :: !Refuses(es[0], seen, w)
    ensures FirstRefused(es, seen, k + 1, why) <==> FirstRefused(es[1..], seen + {Clean(es[0].name)}, k, why)
  {
    hide Refuses, Taken, Clean;
    var rest, more := es[1..], seen + {Clean(es[0].name)};
    assert Taken(es[..0], seen) == seen by { NothingTaken(seen); assert es[..0] == []; }
    if k < |rest| {
      forall j: nat | j <= k ensures Taken(es[..j + 1], seen) == Taken(rest[..j], more) && es[j + 1] == rest[j] {
        TakenCons(es, seen, j);
      }
      if FirstRefused(es, seen, k + 1, why) {
        forall j, w | 0 <= j < k ensures !Refuses(rest[j], Taken(rest[..j], more), w) {
          assert !Refuses(es[j + 1], Taken(es[..j + 1], seen), w);
        }
      }
      if FirstRefused(rest, more, k, why) {
        forall j, w | 0 <= j < k + 1 ensures !Refuses(es[j], Taken(es[..j], seen), w) {
          if j > 0 {
            assert !Refuses(rest[j - 1], Taken(rest[..j - 1], more), w);
          }
        }
      }
    }
  }

  lemma {:induction false} NothingTaken(seen: set<Bytes>)
    ensures Taken([], seen) == seen
  {
  }

  lemma {:induction false} NamesRefuse(es: seq<Entry>, seen: set<Bytes>, why: EncodeError)
    ensures Names(es, seen) == Failure(why) <==> exists k: nat :: FirstRefused(es, seen, k, why)
    decreases |es|
  {
    hide SafeName, ValidUtf8, FirstRefused;
    if es == [] {
      assert forall k: nat :: !FirstRefused(es, seen, k, why) by { NobodyRefused(seen, why); }
    } else {
      var rest, more := es[1..], seen + {Clean(es[0].name)};
      FirstIsRefused(es, seen, why);
      if forall w :: !Refuses(es[0], seen, w) {
        NamesRefuse(rest, more, why);
        forall k: nat ensures FirstRefused(es, seen, k + 1, why) <==> FirstRefused(rest, more, k, why) {
          LaterRefused(es, seen, k, why);
        }
        NotRefused(es, seen, why);
        assert Names(es, seen) == Failure(why) <==> Names(rest, more) == Failure(why) by {
          assert !Refuses(es[0], seen, UnsafePath) && !Refuses(es[0], seen, DuplicatePath);
          assert !Refuses(es[0], seen, NotEncodable);
        }
        if k: nat :| FirstRefused(es, seen, k, why) {
          assert k > 0;
          assert FirstRefused(rest, more, k - 1, why);
        }
        if k: nat :| FirstRefused(rest, more, k, why) {
          assert FirstRefused(es, seen, k + 1, why);
        }
      } else {
        var w :| Refuses(es[0], seen, w);
        OnlyFirst(es, seen, w, why);
        assert Names(es, seen) == Failure(w);
        OneReason(es[0], seen, w, why);
      }
    }
  }

  lemma {:induction false} NobodyRefused(seen: set<Bytes>, why: EncodeError)
    ensures forall k: nat :: !FirstRefused([], seen, k, why)
  {
  }

  lemma {:induction false} FirstIsRefused(es: seq<Entry>, seen: set<Bytes>, why: EncodeError)
    requires es != []
    ensures FirstRefused(es, seen, 0, why) <==> Refuses(es[0], seen, why)
  {
    hide Refuses;
    NothingTaken(seen);
    assert es[..0] == [];
  }

  lemma {:induction false} NotRefused(es: seq<Entry>, seen: set<Bytes>, why: EncodeError)
    requires es != [] && forall w :: !Refuses(es[0], seen, w)
    ensures !FirstRefused(es, seen, 0, why)
  {
    hide Refuses;
    FirstIsRefused(es, seen, why);
  }

  lemma {:induction false} OneReason(e: Entry, taken: set<Bytes>, v: EncodeError, w: EncodeError)
    requires Refuses(e, taken, v)
    ensures Refuses(e, taken, w) <==> v == w
  {
    hide SafeName, ValidUtf8;
  }

  /** When the first entry is refused, no later one is looked at. */
  lemma {:induction false} OnlyFirst(es: seq<Entry>, seen: set<Bytes>, w: EncodeError, why: EncodeError)
    requires es != [] && Refuses(es[0], seen, w)
    ensures forall k: nat :: FirstRefused(es, seen, k, why) <==> k == 0 && Refuses(es[0], seen, why)
  {
    hide Refuses;
    NothingTaken(seen);
    assert es[..0] == [];
    forall k: nat ensures FirstRefused(es, seen, k, why) <==> k == 0 && Refuses(es[0], seen, why) {
      NotAtFirst(es, seen, k, why, w);
    }
  }

  lemma {:induction false} NotAtFirst(es: seq<Entry>, seen: set<Bytes>, k: nat, why: EncodeError, w: EncodeError)
    requires es != []
    ensures FirstRefused(es, seen, k, why) && k > 0 ==> !Refuses(es[0], seen, w)
  {
    hide Refuses;
    NothingTaken(seen);
    assert es[..0] == [];
    if FirstRefused(es, seen, k, why) && k > 0 {
      assert !Refuses(es[0], Taken(es[..0], seen), w);
    }
  }

  /** Encoding fails for the reason that the first refused entry gives, the trailer counting as the last. */
  lemma {:induction false} EncodeFailsExactly(es: seq<Entry>, why: EncodeError)
    ensures Encoded(es) == Failure(why) <==> exists k: nat :: FirstRefused(es + [Trailer()], {}, k, why)
  {
    hide Names, FirstRefused;
    NamesRefuse(es + [Trailer()], {}, why);
  }

  // ----- reading back one record

  lemma {:induction false} HeadShape(ino: nat, e: Entry, name: Bytes)
    requires Fits(e) && ino < LIMIT && |name| < 4096
    ensures var h := Head(ino, e, name);
            && |h| == 110 + |name| + 1 && h[..6] == MAGIC && h[110..] == name + [NUL]
            && ParseFields(h[6..110]) == Some(Values(ino, e, |name| + 1))
  {
    var values := Values(ino, e, |name| + 1);
    ValuesFit(ino, e, |name| + 1);
    ParseFieldsOfHex(values);
    assert Head(ino, e, name)[6..110] == HexFields(values);
  }

  lemma {:induction false} ValuesFit(ino: nat, e: Entry, nameSize: nat)
    requires Fits(e) && ino < LIMIT && nameSize <= 4096
    ensures forall v | v in Values(ino, e, nameSize) :: v < LIMIT
  {
  }

  ghost predicate At(data: Bytes, pos: nat, part: Bytes) {
    pos + |part| <= |data| && data[pos..pos + |part|] == part
  }

  lemma {:induction false} AtConcat(data: Bytes, pos: nat, a: Bytes, b: Bytes)
    requires At(data, pos, a + b)
    ensures At(data, pos, a) && At(data, pos + |a|, b)
  {
    var both := data[pos..pos + |a + b|];
    assert both[..|a|] == a && both[|a|..] == b;
    assert data[pos..pos + |a|] == both[..|a|];
    assert data[pos + |a|..pos + |a| + |b|] == both[|a|..];
  }

  lemma {:induction false} AtSlice(data: Bytes, pos: nat, part: Bytes, i: nat, j: nat)
    requires At(data, pos, part) && i <= j <= |part|
    ensures data[pos + i..pos + j] == part[i..j]
  {
    var whole := data[pos..pos + |part|];
    assert forall k | i <= k < j :: whole[k] == data[pos + k];
    assert whole[i..j] == data[pos + i..pos + j];
  }

  lemma {:induction false} PadFrom(pos: nat, start: nat, length: nat)
    requires start <= pos && (pos - start) % 4 == 0
    ensures Align(pos + length, start) == pos + length + Pad(length, 4)
  {
  }

  lemma {:induction false} ReadHead(data: Bytes, start: nat, pos: nat, ino: nat, e: Entry, name: Bytes)
    requires Fits(e) && ino < LIMIT && |name| < 4096 && At(data, pos, Head(ino, e, name))
    ensures pos + 110 + |name| + 1 <= |data| && data[pos..pos + 6] == MAGIC
    ensures ParseFields(data[pos + 6..pos + 110]) == Some(Values(ino, e, |name| + 1))
    ensures data[pos + 110..pos + 110 + |name| + 1] == name + [NUL]
  {
    hide Head, ParseFields;
    var h := Head(ino, e, name);
    HeadShape(ino, e, name);
    AtSlice(data, pos, h, 0, 6);
    AtSlice(data, pos, h, 6, 110);
    AtSlice(data, pos, h, 110, |h|);
  }

  /** What reading a record comes down to, once its header and name have been recognised. */
  lemma {:induction false} ReadParts(data: Bytes, start: nat, pos: nat, f: seq<nat>, raw: Bytes, name: Bytes)
    requires |f| == 13 && pos + 110 <= |data| && data[pos..pos + 6] == MAGIC
    requires ParseFields(data[pos + 6..pos + 110]) == Some(f)
    requires f[11] == |raw| + 1 <= 4096 && f[12] == 0 && f[4] == 1
    requires At(data, pos + 110, raw + [NUL]) && NUL !in raw && ValidUtf8(raw) && SafeName(raw) == Some(name)
    requires f[6] == 0 || Align(pos + 110 + |raw| + 1, start) + f[6] <= |data|
    ensures var q := Align(pos + 110 + |raw| + 1, start);
            ReadItem(data, start, pos) ==
            Success(Item(Entry(name, f[1], Slice(data, q, f[6]), f[2], f[3], f[9], f[10]), q, Align(q + f[6], start)))
  {
    hide SafeName, ValidUtf8, ParseFields, Align, Pad;
    var stored := data[pos + 110..pos + 110 + |raw| + 1];
    assert stored[|raw|] == NUL && stored[..|raw|] == raw;
  }

  lemma {:induction false} RecordParts(data: Bytes, pos: nat, ino: nat, e: Entry, name: Bytes)
    requires Fits(e) && ino < LIMIT && |name| < 4096
    requires At(data, pos, Record(ino, e, name))
    ensures At(data, pos, Head(ino, e, name)) && |Head(ino, e, name)| == 110 + |name| + 1
    ensures var q := |name| + 111 + Pad(|name| + 111, 4);
            && At(data, pos + q, e.data)
            && |Record(ino, e, name)| == q + |e.data| + Pad(q + |e.data|, 4)
  {
    hide HexFields, ParseFields, SafeName;
    var h, b := Head(ino, e, name), Body(ino, e, name);
    var gap := Zeros(Pad(|h|, 4));
    HeadShape(ino, e, name);
    AtConcat(data, pos, b, Zeros(Pad(|b|, 4)));
    AtConcat(data, pos, h + gap, e.data);
    AtConcat(data, pos, h, gap);
  }

  /** A record at an aligned position is read back as its entry, and the cursor lands behind it. */
  lemma {:induction false} ReadRecord(data: Bytes, start: nat, pos: nat, ino: nat, e: Entry, name: Bytes)
    requires start <= pos && (pos - start) % 4 == 0
    requires Fits(e) && ino < LIMIT && SafeName(e.name) == Some(name) && ValidUtf8(name)
    requires At(data, pos, Record(ino, e, name))
    ensures var r := ReadItem(data, start, pos);
            r.Success? && r.value.entry == Normalized(e) && r.value.next == pos + |Record(ino, e, name)|
  {
    hide HexFields, ParseFields, SafeName, Record, Head, ReadItem, ValidUtf8;
    RecordParts(data, pos, ino, e, name);
    ReadHead(data, start, pos, ino, e, name);
    SafeNameIsNormal(e.name);
    var q := |name| + 111 + Pad(|name| + 111, 4);
    PadFrom(pos, start, |name| + 111);
    PadFrom(pos, start, q + |e.data|);
    ReadParts(data, start, pos, Values(ino, e, |name| + 1), name, name);
  }

  // ----- reading back a whole archive

  lemma {:induction false} ReadLayout(data: Bytes, start: nat, pos: nat, es: seq<Entry>, names: seq<Bytes>, ino: nat,
                                      seen: set<Bytes>)
    requires start <= pos && (pos - start) % 4 == 0
    requires Names(es + [Trailer()], seen) == Success(names)
    requires At(data, pos, Layout(es + [Trailer()], names, ino))
    requires (forall e | e in es :: Fits(e)) && ino + |es| < LIMIT
    ensures DecodedFrom(data, start, pos, seen)
         == Success((AllNormalized(es), pos + |Layout(es + [Trailer()], names, ino)|))
    decreases |es|
  {
    hide Record, ReadItem, SafeName, ValidUtf8, Names, Layout, DecodedFrom, Fits, Trailer, At, Clean, TRAILER;
    var all := es + [Trailer()];
    if es == [] {
      assert all == [Trailer()];
      ReadTrailer(data, start, pos, names, ino, seen);
    } else {
      assert all[1..] == es[1..] + [Trailer()] && es[0] in es && forall e | e in es[1..] :: e in es;
      NotTheTrailer(es, seen);
      NamesTail(all, seen, names);
      ReadOne(data, start, pos, all, names, ino, seen);
      ReadLayout(data, start, pos + |Record(ino, es[0], names[0])|, es[1..], names[1..], ino + 1, seen + {names[0]});
    }
  }

  /** The first record of a layout is read, and the rest of the layout follows it. */
  lemma {:induction false} ReadOne(data: Bytes, start: nat, pos: nat,
                                   es: seq<Entry>, names: seq<Bytes>, ino: nat, seen: set<Bytes>)
    requires start <= pos && (pos - start) % 4 == 0 && ino < LIMIT
    requires es != [] && Names(es, seen) == Success(names) && Fits(es[0]) && names[0] != TRAILER
    requires At(data, pos, Layout(es, names, ino))
    ensures var next := pos + |Record(ino, es[0], names[0])|;
            && At(data, next, Layout(es[1..], names[1..], ino + 1)) && (next - start) % 4 == 0
            && |Layout(es, names, ino)| == next - pos + |Layout(es[1..], names[1..], ino + 1)|
            && DecodedFrom(data, start, pos, seen)
            == PrependEntries([Normalized(es[0])], DecodedFrom(data, start, next, seen + {names[0]}))
  {
    hide Record, ReadItem, SafeName, ValidUtf8, Names, At;
    NamesTail(es, seen, names);
    assert Layout(es, names, ino) == Record(ino, es[0], names[0]) + Layout(es[1..], names[1..], ino + 1);
    AtConcat(data, pos, Record(ino, es[0], names[0]), Layout(es[1..], names[1..], ino + 1));
    ReadRecord(data, start, pos, ino, es[0], names[0]);
  }

  /** The records of a layout are read, whatever follows them. */
  lemma {:induction false} ReadFront(data: Bytes, start: nat, pos: nat,
                                     es: seq<Entry>, names: seq<Bytes>, ino: nat, seen: set<Bytes>)
    requires start <= pos && (pos - start) % 4 == 0 && ino + |es| < LIMIT
    requires Names(es, seen) == Success(names) && TRAILER !in names && (forall e | e in es :: Fits(e))
    requires At(data, pos, Layout(es, names, ino))
    ensures var next := pos + |Layout(es, names, ino)|;
            DecodedFrom(data, start, pos, seen)
            == PrependEntries(AllNormalized(es), DecodedFrom(data, start, next, seen + (set n | n in names)))
    decreases |es|
  {
    hide Record, ReadItem, SafeName, ValidUtf8, Names, DecodedFrom, Fits, At, Clean, TRAILER, Layout;
    if es == [] {
      assert names == [] && Layout(es, names, ino) == [] by { NothingLaidOut(ino, seen); }
      assert seen + (set n | n in names) == seen;
      PrependNothing(DecodedFrom(data, start, pos, seen));
    } else {
      assert es[0] in es && forall e | e in es[1..] :: e in es;
      assert names[0] in names && forall n | n in names[1..] :: n in names;
      NamesTail(es, seen, names);
      ReadOne(data, start, pos, es, names, ino, seen);
      var next := pos + |Record(ino, es[0], names[0])|;
      ReadFront(data, start, next, es[1..], names[1..], ino + 1, seen + {names[0]});
      var rest := DecodedFrom(data, start, next + |Layout(es[1..], names[1..], ino + 1)|, seen + (set n | n in names));
      assert names == [names[0]] + names[1..];
      assert seen + {names[0]} + (set n | n in names[1..]) == seen + (set n | n in names);
      PrependAll(Normalized(es[0]), AllNormalized(es[1..]), rest);
    }
  }

  lemma {:induction false} NothingLaidOut(ino: nat, seen: set<Bytes>)
    ensures Layout([], [], ino) == [] && Names([], seen) == Success([])
  {
  }

  lemma {:induction false} PrependAll(e: Entry, more: seq<Entry>, rest: Result<Archive, DecodeError>)
    ensures PrependEntries([e], PrependEntries(more, rest)) == PrependEntries([e] + more, rest)
  {
    if rest.Success? {
      assert [e] + (more + rest.value.0) == [e] + more + rest.value.0;
    }
  }

  lemma {:induction false} ReadTrailer(data: Bytes, start: nat, pos: nat, names: seq<Bytes>, ino: nat, seen: set<Bytes>)
    requires start <= pos && (pos - start) % 4 == 0 && ino < LIMIT
    requires Names([Trailer()], seen) == Success(names) && At(data, pos, Layout([Trailer()], names, ino))
    ensures DecodedFrom(data, start, pos, seen) == Success(([], pos + |Layout([Trailer()], names, ino)|))
  {
    hide Record, ReadItem, SafeName, ValidUtf8, Names;
    TrailerIsNormal();
    NamesTail([Trailer()], seen, names);
    var record := Record(ino, Trailer(), TRAILER);
    assert Layout([Trailer()], names, ino) == record + [] == record;
    ReadRecord(data, start, pos, ino, Trailer(), TRAILER);
  }

  lemma {:induction false} NotTheTrailer(es: seq<Entry>, seen: set<Bytes>)
    requires es != [] && Names(es + [Trailer()], seen).Success?
    ensures Clean(es[0].name) != TRAILER
  {
    hide SafeName, ValidUtf8;
    TrailerIsNormal();
    var all := es + [Trailer()];
    assert all[1..] == es[1..] + [Trailer()];
    if Clean(es[0].name) == TRAILER {
      RepeatedName(es[1..], Trailer(), seen + {TRAILER});
    }
  }

  lemma {:induction false} NamesTail(es: seq<Entry>, seen: set<Bytes>, names: seq<Bytes>)
    requires es != [] && Names(es, seen) == Success(names)
    ensures SafeName(es[0].name) == Some(names[0]) && Clean(es[0].name) == names[0]
    ensures names[0] !in seen && ValidUtf8(names[0])
    ensures Names(es[1..], seen + {names[0]}) == Success(names[1..])
  {
    hide SafeName, ValidUtf8;
    var rest := Names(es[1..], seen + {Clean(es[0].name)});
    assert names == [Clean(es[0].name)] + rest.value;
  }

  lemma {:induction false} Within(before: Bytes, part: Bytes, padding: Bytes, after: Bytes)
    ensures At(before + (part + padding) + after, |before|, part)
  {
  }

  /** The archive inside arbitrary surroundings is read back exactly, and reading stops inside it. */
  lemma {:induction false} EncodeThenDecode(es: seq<Entry>, before: Bytes, after: Bytes) returns (end: nat)
    requires Encodable(es) && |es| + 1 < LIMIT && forall e | e in es :: Fits(e)
    ensures Encoded(es).Success?
    ensures Decoded(before + Encoded(es).value + after, |before|) == Success((AllNormalized(es), end))
    ensures |before| < end <= |before| + |Encoded(es).value| && (end - |before|) % 4 == 0
  {
    hide Names, Layout, DecodedFrom, SafeName, ValidUtf8;
    EncodeSucceeds(es);
    var names := Names(es + [Trailer()], {}).value;
    var records := Layout(es + [Trailer()], names, 1);
    var data := before + Encoded(es).value + after;
    end := |before| + |records|;
    Within(before, records, Zeros(Pad(|records|, 512)), after);
    ReadLayout(data, |before|, |before|, es, names, 1, {});
    DecodedIsCanonical(data, |before|, |before|, {});
  }

  // ----- an archive whose last padding is cut off

  /** A trailer that is the end of the data is accepted, and the end reported lies 3 bytes behind it. */
  lemma {:induction false} ReadCutTrailer(data: Bytes, start: nat, pos: nat, ino: nat, seen: set<Bytes>)
    requires start <= pos && (pos - start) % 4 == 0 && ino < LIMIT
    requires At(data, pos, Head(ino, Trailer(), TRAILER)) && |data| == pos + |Head(ino, Trailer(), TRAILER)|
    ensures DecodedFrom(data, start, pos, seen) == Success(([], |data| + 3))
  {
    hide Head, ParseFields, SafeName, ReadItem, ValidUtf8;
    TrailerIsNormal();
    HeadShape(ino, Trailer(), TRAILER);
    ReadHead(data, start, pos, ino, Trailer(), TRAILER);
    PadFrom(pos, start, 121);
    ReadParts(data, start, pos, Values(ino, Trailer(), 11), TRAILER, TRAILER);
  }

  /** The archive of `es` up to and including the trailer's name. */
  function Cut(es: seq<Entry>, names: seq<Bytes>): Bytes
    requires |names| == |es|
  {
    Layout(es, names, 1) + Head(|es| + 1, Trailer(), TRAILER)
  }

  /**
    Cutting off all the padding behind the trailer leaves an archive that decodes to the same
    entries, with an end that lies exactly 3 bytes behind the data.
   */
  lemma {:induction false} CutArchiveDecodes(es: seq<Entry>, before: Bytes) returns (cut: Bytes)
    requires Encodable(es) && |es| + 1 < LIMIT && forall e | e in es :: Fits(e)
    ensures Encoded(es).Success? && cut < Encoded(es).value
    ensures Decoded(before + cut, |before|) == Success((AllNormalized(es), |before + cut| + 3))
  {
    hide Layout, Names, DecodedFrom, SafeName, ValidUtf8, Head, Fits, Encodable;
    EncodeSucceeds(es);
    var all := es + [Trailer()];
    var names := Names(all, {}).value[..|es|];
    FrontNames(es, {});
    assert names + [TRAILER] == Names(all, {}).value;
    cut := Cut(es, names);
    CutIsPrefix(es, names);
    var data := before + cut;
    var front := Layout(es, names, 1);
    assert At(data, |before|, front) && At(data, |before| + |front|, Head(|es| + 1, Trailer(), TRAILER));
    ReadFront(data, |before|, |before|, es, names, 1, {});
    ReadCutTrailer(data, |before|, |before| + |front|, |es| + 1, {} + (set n | n in names));
    assert AllNormalized(es) + [] == AllNormalized(es);
  }

  /** The names of the entries, without the trailer's. */
  lemma {:induction false} FrontNames(es: seq<Entry>, seen: set<Bytes>)
    requires Names(es + [Trailer()], seen).Success? && TRAILER !in seen
    ensures var names := Names(es + [Trailer()], seen).value;
            && |names| == |es| + 1 && names[|es|] == TRAILER
            && Names(es, seen) == Success(names[..|es|]) && TRAILER !in names[..|es|]
    decreases |es|
  {
    hide SafeName, ValidUtf8;
    TrailerIsNormal();
    var all := es + [Trailer()];
    var names := Names(all, seen).value;
    NamesTail(all, seen, names);
    if es == [] {
      assert names[..0] == [];
    } else {
      NotTheTrailer(es, seen);
      assert all[1..] == es[1..] + [Trailer()];
      FrontNames(es[1..], seen + {names[0]});
      assert names[1..][..|es| - 1] == names[1..|es|];
      assert names[..|es|] == [names[0]] + names[1..|es|];
    }
  }

  lemma {:induction false} CutIsPrefix(es: seq<Entry>, names: seq<Bytes>)
    requires |names| == |es| && |es| + 1 < LIMIT && Names(es + [Trailer()], {}) == Success(names + [TRAILER])
    ensures Encoded(es).Success? && Cut(es, names) < Encoded(es).value
  {
    hide Names, Layout, Head;
    LayoutAppend(es, names, 1, Trailer(), TRAILER);
    var b := Layout(es + [Trailer()], names + [TRAILER], 1);
    var head := Head(1 + |es|, Trailer(), TRAILER);
    var gap := Zeros(Pad(|head|, 4));
    HeadShape(1 + |es|, Trailer(), TRAILER) by {
      TrailerIsNormal();
    }
    assert Record(1 + |es|, Trailer(), TRAILER) == head + gap + [] + Zeros(Pad(|head + gap + []|, 4));
    assert b == Layout(es, names, 1) + Record(1 + |es|, Trailer(), TRAILER);
  }

  // ----- what arbitrary input can decode to

  /**
    At `pos` the data holds a header with fields `f`, a stored name `raw` with its terminator, and
    behind the padding the whole payload.
   */
  ghost predicate IsRecord(data: Bytes, start: nat, pos: nat, f: seq<nat>, raw: Bytes) {
    && |f| == 13 && f[11] == |raw| + 1 <= 4096 && f[12] == 0 && f[4] <= 0x10_0000
    && (exists digits: Bytes ::
          |digits| == 104 && ParseFields(digits) == Some(f) && At(data, pos, MAGIC + digits + (raw + [NUL])))
    && NUL !in raw && ValidUtf8(raw) && SafeName(raw).Some?
    && (f[6] == 0 || Align(pos + 111 + |raw|, start) + f[6] <= |data|)
  }

  /** The entry of that record, its payload behind the padding, and the next aligned position. */
  predicate ReadsAs(data: Bytes, start: nat, pos: nat, f: seq<nat>, raw: Bytes) {
    && |f| == 13
    && var q := Align(pos + 111 + |raw|, start);
       && q + f[6] <= |data| + 3
       && ReadItem(data, start, pos) ==
          Success(Item(Entry(Clean(raw), f[1], Slice(data, q, f[6]), f[2], f[3], f[9], f[10]),
                       q, Align(q + f[6], start)))
  }

  /** What is read is a record, and every record is read. */
  lemma {:induction false} ReadsExactlyRecords(data: Bytes, start: nat, pos: nat)
    ensures ReadItem(data, start, pos).Success? <==> exists f, raw :: IsRecord(data, start, pos, f, raw)
    ensures forall f, raw | IsRecord(data, start, pos, f, raw) :: ReadsAs(data, start, pos, f, raw)
  {
    hide IsRecord, ReadItem, Align, Slice, Clean;
    if ReadItem(data, start, pos).Success? {
      var f, raw := ReadIsRecord(data, start, pos);
    }
    forall f, raw | IsRecord(data, start, pos, f, raw) ensures ReadsAs(data, start, pos, f, raw) {
      RecordIsRead(data, start, pos, f, raw);
    }
  }

  lemma {:induction false} ReadIsRecord(data: Bytes, start: nat, pos: nat) returns (f: seq<nat>, raw: Bytes)
    requires ReadItem(data, start, pos).Success?
    ensures IsRecord(data, start, pos, f, raw)
  {
    hide ReadItem, ParseFields, SafeName, ValidUtf8, Align;
    f, raw := ReadPasses(data, start, pos);
    HeaderThere(data, pos, f, raw);
  }

  /** The tests that a record passes when it is read. */
  lemma {:induction false} ReadPasses(data: Bytes, start: nat, pos: nat) returns (f: seq<nat>, raw: Bytes)
    requires ReadItem(data, start, pos).Success?
    ensures pos + 110 <= |data| && data[pos..pos + 6] == MAGIC && ParseFields(data[pos + 6..pos + 110]) == Some(f)
    ensures |f| == 13 && f[11] == |raw| + 1 <= 4096 && f[12] == 0 && f[4] <= 0x10_0000
    ensures pos + 111 + |raw| <= |data| && data[pos + 110..pos + 111 + |raw|] == raw + [NUL]
    ensures NUL !in raw && ValidUtf8(raw) && SafeName(raw).Some?
    ensures f[6] == 0 || Align(pos + 111 + |raw|, start) + f[6] <= |data|
  {
    hide SafeName, ValidUtf8, ParseFields, Align, Slice;
    f := ParseFields(data[pos + 6..pos + 110]).value;
    var stored := data[pos + 110..pos + 110 + f[11]];
    raw := stored[..f[11] - 1];
    assert stored == raw + [NUL];
  }

  lemma {:induction false} HeaderThere(data: Bytes, pos: nat, f: seq<nat>, raw: Bytes)
    requires pos + 111 + |raw| <= |data| && data[pos..pos + 6] == MAGIC
    requires ParseFields(data[pos + 6..pos + 110]) == Some(f)
    requires data[pos + 110..pos + 111 + |raw|] == raw + [NUL]
    ensures exists digits: Bytes ::
              |digits| == 104 && ParseFields(digits) == Some(f) && At(data, pos, MAGIC + digits + (raw + [NUL]))
  {
    hide ParseFields;
    var digits := data[pos + 6..pos + 110];
    assert data[pos..pos + 111 + |raw|] == data[pos..pos + 6] + digits + data[pos + 110..pos + 111 + |raw|];
    assert At(data, pos, MAGIC + digits + (raw + [NUL]));
  }

  lemma {:induction false} RecordIsRead(data: Bytes, start: nat, pos: nat, f: seq<nat>, raw: Bytes)
    requires IsRecord(data, start, pos, f, raw)
    ensures ReadsAs(data, start, pos, f, raw)
  {
    hide SafeName, ValidUtf8, ParseFields;
    var digits: Bytes :|
      |digits| == 104 && ParseFields(digits) == Some(f) && At(data, pos, MAGIC + digits + (raw + [NUL]));
    AtConcat(data, pos, MAGIC + digits, raw + [NUL]);
    AtConcat(data, pos, MAGIC, digits);
    var stored := data[pos + 110..pos + 111 + |raw|];
    assert stored == raw + [NUL] && stored[|raw|] == NUL && stored[..|raw|] == raw;
  }

  // ----- when decoding succeeds, and why it fails

  /** From `pos` on the data holds these entries, one record behind the other, up to `at`. */
  predicate Linked(data: Bytes, start: nat, pos: nat, es: seq<Entry>, at: nat)
    decreases |es|
  {
    if es == [] then at == pos
    else
      var r := ReadItem(data, start, pos);
      && r.Success? && r.value.entry == es[0] && es[0].name != TRAILER
      && Linked(data, start, r.value.next, es[1..], at)
  }

  predicate AllNew(es: seq<Entry>, seen: set<Bytes>) {
    && (forall e | e in es :: e.name !in seen)
    && (forall i, j | 0 <= i < j < |es| :: es[i].name != es[j].name)
  }

  /** At `at` the data holds an empty trailer. */
  predicate Trails(data: Bytes, start: nat, at: nat, end: nat) {
    var r := ReadItem(data, start, at);
    r.Success? && r.value.entry.name == TRAILER && r.value.entry.data == [] && end == r.value.next
  }

  /** What is wrong at `at`, after entries with these names. */
  predicate GoesWrong(data: Bytes, start: nat, at: nat, names: set<Bytes>, e: DecodeError) {
    match ReadItem(data, start, at)
    case Failure(f) => e == f
    case Success(item) =>
      if item.entry.name == TRAILER then item.entry.data != [] && e == InvalidTrailer
      else item.entry.name in names && e == DuplicateMember
  }

  function NamesIn(es: seq<Entry>): set<Bytes> {
    set e | e in es :: e.name
  }

  /** New entries up to `at`, and there the error. */
  predicate WrongBehind(data: Bytes, start: nat, pos: nat, seen: set<Bytes>, es: seq<Entry>, at: nat, e: DecodeError) {
    AllNew(es, seen) && Linked(data, start, pos, es, at) && GoesWrong(data, start, at, seen + NamesIn(es), e)
  }

  lemma {:induction false} NewCons(es: seq<Entry>, seen: set<Bytes>)
    requires es != []
    ensures AllNew(es, seen) <==> es[0].name !in seen && AllNew(es[1..], seen + {es[0].name})
    ensures NamesIn(es) == {es[0].name} + NamesIn(es[1..])
  {
    assert es == [es[0]] + es[1..];
    if es[0].name !in seen && AllNew(es[1..], seen + {es[0].name}) {
      forall i, j | 0 <= i < j < |es| ensures es[i].name != es[j].name {
        assert es[j] == es[1..][j - 1] && es[1..][j - 1] in es[1..];
        assert i > 0 ==> es[i] == es[1..][i - 1];
      }
    }
    if AllNew(es, seen) {
      forall e | e in es[1..] ensures e.name !in seen + {es[0].name} {
        var k :| 0 <= k < |es[1..]| && es[1..][k] == e;
        assert es[k + 1] == e;
      }
    }
  }

  /** Decoding yields exactly the entries that stand there, each name once, up to an empty trailer. */
  lemma {:induction false} DecodesExactly(data: Bytes, start: nat, pos: nat, seen: set<Bytes>, es: seq<Entry>, end: nat)
    ensures DecodedFrom(data, start, pos, seen) == Success((es, end)) <==>
            AllNew(es, seen) && exists at :: Linked(data, start, pos, es, at) && Trails(data, start, at, end)
    decreases |es|
  {
    hide ReadItem, AllNew, TRAILER;
    var r := ReadItem(data, start, pos);
    if es == [] {
      assert AllNew(es, seen) by { NothingNew(seen); }
      assert Linked(data, start, pos, es, pos);
    } else {
      NewCons(es, seen);
      if r.Success? && r.value.entry == es[0] && es[0].name != TRAILER && es[0].name !in seen {
        DecodesExactly(data, start, r.value.next, seen + {es[0].name}, es[1..], end);
        SuccessStep(data, start, pos, seen, es, end);
        assert forall at :: Linked(data, start, pos, es, at) <==> Linked(data, start, r.value.next, es[1..], at);
      } else if DecodedFrom(data, start, pos, seen) == Success((es, end)) {
        FirstDecoded(data, start, pos, seen, es, end);
        assert false;
      }
    }
  }

  lemma {:induction false} NothingNew(seen: set<Bytes>)
    ensures AllNew([], seen)
  {
  }

  lemma {:induction false} SuccessStep(data: Bytes, start: nat, pos: nat, seen: set<Bytes>, es: seq<Entry>, end: nat)
    requires es != []
    requires var r := ReadItem(data, start, pos);
             r.Success? && r.value.entry == es[0] && es[0].name != TRAILER && es[0].name !in seen
    ensures var next := ReadItem(data, start, pos).value.next;
            DecodedFrom(data, start, pos, seen) == Success((es, end)) <==>
            DecodedFrom(data, start, next, seen + {es[0].name}) == Success((es[1..], end))
  {
    hide ReadItem, TRAILER;
    var rest := DecodedFrom(data, start, ReadItem(data, start, pos).value.next, seen + {es[0].name});
    assert es == [es[0]] + es[1..];
    if rest.Success? {
      assert ([es[0]] + rest.value.0)[1..] == rest.value.0;
    }
  }

  lemma {:induction false} FirstDecoded(data: Bytes, start: nat, pos: nat, seen: set<Bytes>, es: seq<Entry>, end: nat)
    requires es != [] && DecodedFrom(data, start, pos, seen) == Success((es, end))
    ensures var r := ReadItem(data, start, pos);
            r.Success? && r.value.entry == es[0] && es[0].name != TRAILER && es[0].name !in seen
  {
    hide ReadItem, TRAILER;
  }

  /** One entry further in front. */
  lemma {:induction false} WrongFurtherOn(data: Bytes, start: nat, pos: nat, seen: set<Bytes>,
                                          es: seq<Entry>, at: nat, e: DecodeError)
    requires var r := ReadItem(data, start, pos);
             r.Success? && r.value.entry.name != TRAILER && r.value.entry.name !in seen
    ensures var r := ReadItem(data, start, pos).value;
            WrongBehind(data, start, r.next, seen + {r.entry.name}, es, at, e) <==>
            WrongBehind(data, start, pos, seen, [r.entry] + es, at, e)
  {
    hide ReadItem, AllNew, TRAILER, GoesWrong;
    var x := ReadItem(data, start, pos).value.entry;
    var more := [x] + es;
    assert more[1..] == es;
    NewCons(more, seen);
    assert seen + {x.name} + NamesIn(es) == seen + NamesIn(more);
  }

  /** The first entry behind which something is wrong is the one that is read. */
  lemma {:induction false} WrongBehindFirst(data: Bytes, start: nat, pos: nat, seen: set<Bytes>,
                                            es: seq<Entry>, at: nat, e: DecodeError)
    requires es != [] && WrongBehind(data, start, pos, seen, es, at, e)
    ensures var r := ReadItem(data, start, pos);
            r.Success? && r.value.entry == es[0] && es[0].name != TRAILER && es[0].name !in seen
  {
    hide ReadItem, AllNew, TRAILER, GoesWrong;
    NewCons(es, seen);
  }

  lemma {:induction false} WrongAtOnce(data: Bytes, start: nat, pos: nat, seen: set<Bytes>, at: nat, e: DecodeError)
    ensures WrongBehind(data, start, pos, seen, [], at, e) <==> at == pos && GoesWrong(data, start, pos, seen, e)
  {
    hide ReadItem, GoesWrong;
    NothingNew(seen);
    assert seen + NamesIn([]) == seen;
  }

  /** And it fails with an error exactly if that is what is wrong behind the entries that can be read. */
  lemma {:induction false} FailsExactly(data: Bytes, start: nat, pos: nat, seen: set<Bytes>, e: DecodeError)
    ensures DecodedFrom(data, start, pos, seen) == Failure(e) <==>
            exists es, at :: WrongBehind(data, start, pos, seen, es, at, e)
    decreases Remaining(data, pos)
  {
    hide ReadItem, TRAILER, WrongBehind;
    var r := ReadItem(data, start, pos);
    WrongAtOnce(data, start, pos, seen, pos, e);
    if r.Success? && r.value.entry.name != TRAILER && r.value.entry.name !in seen {
      var x, next := r.value.entry, r.value.next;
      FurtherOn(data, start, pos);
      FailsExactly(data, start, next, seen + {x.name}, e);
      if es, at :| WrongBehind(data, start, next, seen + {x.name}, es, at, e) {
        WrongFurtherOn(data, start, pos, seen, es, at, e);
      }
      if es, at :| WrongBehind(data, start, pos, seen, es, at, e) {
        WrongAtOnce(data, start, pos, seen, at, e);
        StillRight(data, start, pos, seen, e);
        WrongBehindFirst(data, start, pos, seen, es, at, e);
        assert es == [x] + es[1..];
        WrongFurtherOn(data, start, pos, seen, es[1..], at, e);
      }
    } else {
      if es, at :| WrongBehind(data, start, pos, seen, es, at, e) {
        WrongAtOnce(data, start, pos, seen, at, e);
        assert es == [] by {
          if es != [] {
            WrongBehindFirst(data, start, pos, seen, es, at, e);
          }
        }
      }
    }
  }

  lemma {:induction false} FurtherOn(data: Bytes, start: nat, pos: nat)
    requires ReadItem(data, start, pos).Success?
    ensures Remaining(data, ReadItem(data, start, pos).value.next) < Remaining(data, pos)
  {
    hide ReadItem;
  }

  lemma {:induction false} StillRight(data: Bytes, start: nat, pos: nat, seen: set<Bytes>, e: DecodeError)
    requires var r := ReadItem(data, start, pos);
             r.Success? && r.value.entry.name != TRAILER && r.value.entry.name !in seen
    ensures !GoesWrong(data, start, pos, seen, e)
  {
    hide ReadItem, TRAILER;
  }

  /** Decoded entries: within the header's limits, normal distinct names, none of them the trailer's. */
  ghost predicate Canonical(es: seq<Entry>) {
    && (forall e | e in es :: Fits(e) && Normal(e.name) && Named(e))
    && (forall i, j | 0 <= i < j < |es| :: es[i].name != es[j].name)
  }

  lemma {:induction false} ReadItemFits(data: Bytes, start: nat, pos: nat)
    requires ReadItem(data, start, pos).Success?
    ensures var e := ReadItem(data, start, pos).value.entry;
            Fits(e) && Normal(e.name) && ValidUtf8(e.name) && SafeName(e.name) == Some(e.name)
  {
    hide SafeName, ParseFields, ValidUtf8;
    var f := ParseFields(data[pos + 6..pos + 110]).value;
    ParseFieldsBound(data[pos + 6..pos + 110]);
    var raw := data[pos + 110..pos + 110 + f[11]][..f[11] - 1];
    FieldsBound(f);
    SafeNameIsNormal(raw);
    SafeNameKeepsUtf8(raw);
  }

  lemma {:induction false} FieldsBound(f: seq<nat>)
    requires |f| == 13 && forall v | v in f :: v < LIMIT
    ensures f[1] < LIMIT && f[2] < LIMIT && f[3] < LIMIT && f[6] < LIMIT && f[9] < LIMIT && f[10] < LIMIT
  {
    assert f[1] in f && f[2] in f && f[3] in f && f[6] in f && f[9] in f && f[10] in f;
  }

  lemma {:induction false} DecodedIsCanonical(data: Bytes, start: nat, pos: nat, seen: set<Bytes>)
    requires DecodedFrom(data, start, pos, seen).Success?
    ensures var a := DecodedFrom(data, start, pos, seen).value;
            && Canonical(a.0) && (forall e | e in a.0 :: e.name !in seen)
            && pos < a.1 <= |data| + 3
            && 110 * |a.0| < |data| + 3 - pos
    decreases Remaining(data, pos)
  {
    var item := ReadItem(data, start, pos).value;
    ReadItemFits(data, start, pos);
    if item.entry.name != TRAILER {
      DecodedIsCanonical(data, start, item.next, seen + {item.entry.name});
      var rest := DecodedFrom(data, start, item.next, seen + {item.entry.name}).value;
      CanonicalStep(item.entry, rest.0, seen);
    }
  }

  lemma {:induction false} CanonicalStep(e: Entry, rest: seq<Entry>, seen: set<Bytes>)
    requires Canonical(rest) && Fits(e) && Normal(e.name) && Named(e)
    requires forall r | r in rest :: r.name !in seen + {e.name}
    ensures Canonical([e] + rest)
  {
    var es := [e] + rest;
    forall i, j | 0 <= i < j < |es| ensures es[i].name != es[j].name {
      assert es[j] == rest[j - 1] && rest[j - 1] in rest;
      if i > 0 {
        assert es[i] == rest[i - 1];
      }
    }
  }

  /** The round trip returns the entries exactly when every entry fits its header. */
  lemma {:induction false} RoundTripExact(es: seq<Entry>, before: Bytes, after: Bytes)
    requires Encodable(es) && |es| + 1 < LIMIT
    ensures Encoded(es).Success?
    ensures (forall e | e in es :: Fits(e)) <==>
            var r := Decoded(before + Encoded(es).value + after, |before|);
            r.Success? && r.value.0 == AllNormalized(es)
  {
    EncodeSucceeds(es);
    if forall e | e in es :: Fits(e) {
      var end := EncodeThenDecode(es, before, after);
    }
    var r := Decoded(before + Encoded(es).value + after, |before|);
    if r.Success? && r.value.0 == AllNormalized(es) {
      DecodedIsCanonical(before + Encoded(es).value + after, |before|, |before|, {});
      forall e | e in es ensures Fits(e) {
        var k :| 0 <= k < |es| && es[k] == e;
        assert r.value.0[k] == Normalized(e) && r.value.0[k] in r.value.0;
        SafeNameIsNormal(e.name);
        assert Named(e);
      }
    }
  }

  /** Normal names are left alone. */
  lemma {:induction false} NormalizedAlready(es: seq<Entry>)
    requires forall e | e in es :: Normal(e.name)
    ensures AllNormalized(es) == es
  {
    hide SafeName, AllNormalized;
    forall i | 0 <= i < |es| ensures AllNormalized(es)[i] == es[i] {
      assert es[i] in es;
    }
  }

  /** Whatever is accepted can be encoded again, and then decodes to the same entries. */
  lemma {:induction false} DecodeThenEncode(data: Bytes, start: nat)
    requires Decoded(data, start).Success? && |data| < LIMIT
    ensures var es := Decoded(data, start).value.0;
            && Encoded(es).Success?
            && Decoded(Encoded(es).value, 0).Success?
            && Decoded(Encoded(es).value, 0).value.0 == es
  {
    hide Encoded, DecodedFrom, SafeName, ValidUtf8;
    DecodedIsCanonical(data, start, start, {});
    var es := Decoded(data, start).value.0;
    NormalizedAlready(es);
    assert Encodable(es) by {
      forall i, j | 0 <= i < j < |es| ensures Clean(es[i].name) != Clean(es[j].name) {
        assert es[i] in es && es[j] in es;
      }
    }
    var end := EncodeThenDecode(es, [], []);
    assert [] + Encoded(es).value + [] == Encoded(es).value;
  }

  /** The payloads are exact slices of the input, in order and without overlap. */
  ghost predicate Slices(data: Bytes, from: nat, es: seq<Entry>, offsets: seq<nat>, end: nat) {
    && |offsets| == |es|
    && (forall i | 0 <= i < |es| ::
          At(data, offsets[i], es[i].data) && from < offsets[i] && offsets[i] + |es[i].data| < end)
    && (forall i, j | 0 <= i < j < |es| :: offsets[i] + |es[i].data| < offsets[j])
  }

  lemma {:induction false} PayloadsAreSlices(data: Bytes, start: nat, pos: nat, seen: set<Bytes>)
    returns (offsets: seq<nat>)
    requires DecodedFrom(data, start, pos, seen).Success?
    ensures var a := DecodedFrom(data, start, pos, seen).value; Slices(data, pos, a.0, offsets, a.1)
    decreases Remaining(data, pos)
  {
    var item := ReadItem(data, start, pos).value;
    if item.entry.name == TRAILER {
      offsets := [];
    } else {
      var more := PayloadsAreSlices(data, start, item.next, seen + {item.entry.name});
      DecodedIsCanonical(data, start, item.next, seen + {item.entry.name});
      offsets := [item.payload] + more;
      var rest := DecodedFrom(data, start, item.next, seen + {item.entry.name}).value;
      SlicesStep(data, pos, item.entry, item.payload, item.next, rest.0, more, rest.1);
    }
  }

  lemma {:induction false} SlicesStep(data: Bytes, pos: nat, e: Entry, at: nat, next: nat,
                                      rest: seq<Entry>, more: seq<nat>, end: nat)
    requires pos < at && At(data, at, e.data) && at + |e.data| <= next < end && Slices(data, next, rest, more, end)
    ensures Slices(data, pos, [e] + rest, [at] + more, end)
  {
    var es, offsets := [e] + rest, [at] + more;
    forall i | 0 <= i < |es|
      ensures At(data, offsets[i], es[i].data) && pos < offsets[i] && offsets[i] + |es[i].data| < end
    {
      if i > 0 {
        assert offsets[i] == more[i - 1] && es[i] == rest[i - 1];
      }
    }
    forall i, j | 0 <= i < j < |es| ensures offsets[i] + |es[i].data| < offsets[j] {
      assert offsets[j] == more[j - 1];
      if i > 0 {
        assert offsets[i] == more[i - 1] && es[i] == rest[i - 1];
      }
    }
  }
}
