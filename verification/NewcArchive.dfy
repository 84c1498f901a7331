/** The archive as text: every record spelled out, and nothing but zeros behind the last one. */
module NewcArchive {
  import opened Results
  import opened NewcFormat
  import opened NewcCodec
  import opened NewcProperties
  import D = Digits

  predicate IsAscii(s: string) {
    forall c | c in s :: c as int < 128
  }

  lemma {:induction false} AsciiConcat(s: string, t: string)
    requires IsAscii(s) && IsAscii(t)
    ensures IsAscii(s + t) && Ascii(s + t) == Ascii(s) + Ascii(t)
  {
    assert IsAscii(s + t) by {
      forall c | c in s + t ensures c as int < 128 {
        assert c in s || c in t;
      }
    }
  }

  lemma {:induction false} HexIsAscii(n: nat, width: nat)
    ensures IsAscii(D.Hex(n, width))
  {
    hide D.Hex;
  }

  lemma {:induction false} DigitCode(d: nat)
    requires d < 16
    ensures D.HexChar(d) as int == HexDigit(d)
  {
  }

  /** A header field holds the number in lower-case hexadecimal. */
  lemma {:induction false} HexIsText(n: nat, width: nat)
    requires width > 0 || n > 0
    ensures IsAscii(D.Hex(n, width)) && Hex(n, width) == Ascii(D.Hex(n, width))
    decreases n, width
  {
    hide D.HexChar, HexDigit;
    HexIsAscii(n, width);
    DigitCode(n % 16);
    if n < 16 && width <= 1 {
      assert D.Hex(0, 0) == "";
      assert D.Hex(n, width) == [D.HexChar(n % 16)];
    } else {
      var w := if width == 0 then 0 else width - 1;
      HexIsText(n / 16, w);
      assert D.Hex(n, width) == D.Hex(n / 16, w) + [D.HexChar(n % 16)];
    }
  }

  /** The numbers one behind the other, eight digits each. */
  function FieldText(values: seq<nat>): string {
    if values == [] then "" else D.Hex(values[0], 8) + FieldText(values[1..])
  }

  lemma {:induction false} FieldsAreText(values: seq<nat>)
    ensures IsAscii(FieldText(values)) && HexFields(values) == Ascii(FieldText(values))
  {
    hide Hex, D.Hex, IsAscii, Ascii;
    if values == [] {
      assert IsAscii("") && Ascii("") == [] by { NoText(); }
    } else {
      HexIsText(values[0], 8);
      FieldsAreText(values[1..]);
      AsciiConcat(D.Hex(values[0], 8), FieldText(values[1..]));
    }
  }

  lemma {:induction false} NoText()
    ensures IsAscii("") && Ascii("") == []
  {
  }

  /**
    A record as it stands in the archive: inode number, mode, owner and group, one link, time 0, the
    size, device 0 and 0, the special file's device, the length of the stored name, checksum 0.
   */
  function RecordText(ino: nat, e: Entry, name: Bytes): Bytes {
    var text := FieldText([ino, e.mode, e.uid, e.gid, 1, 0, |e.data|, 0, 0, e.rmajor, e.rminor, |name| + 1, 0]);
    FieldsAreText([ino, e.mode, e.uid, e.gid, 1, 0, |e.data|, 0, 0, e.rmajor, e.rminor, |name| + 1, 0]);
    MagicIsText();
    var head := Ascii("070701") + Ascii(text) + name + [0];
    var body := head + Zeros((-|head|) % 4) + e.data;
    body + Zeros((-|body|) % 4)
  }

  lemma {:induction false} MagicIsText()
    ensures IsAscii("070701") && Ascii("070701") == MAGIC
    ensures IsAscii("TRAILER!!!") && Ascii("TRAILER!!!") == TRAILER
  {
  }

  lemma {:induction false} RecordIsText(ino: nat, e: Entry, name: Bytes)
    ensures Record(ino, e, name) == RecordText(ino, e, name)
  {
    hide HexFields, FieldText, Ascii;
    FieldsAreText([ino, e.mode, e.uid, e.gid, 1, 0, |e.data|, 0, 0, e.rmajor, e.rminor, |name| + 1, 0]);
    MagicIsText();
    assert MAGIC + HexFields(Values(ino, e, |name| + 1)) + (name + [NUL])
        == MAGIC + HexFields(Values(ino, e, |name| + 1)) + name + [NUL];
  }

  /** The records of the entries, numbered from `ino` on, under their stored names. */
  function RecordTexts(es: seq<Entry>, ino: nat): Bytes {
    if es == [] then [] else RecordText(ino, es[0], Clean(es[0].name)) + RecordTexts(es[1..], ino + 1)
  }

  lemma {:induction false} LayoutIsTexts(es: seq<Entry>, names: seq<Bytes>, ino: nat, seen: set<Bytes>)
    requires Names(es, seen) == Success(names)
    ensures Layout(es, names, ino) == RecordTexts(es, ino)
    decreases |es|
  {
    hide Record, RecordText, SafeName, ValidUtf8;
    if es != [] {
      NamesTail(es, seen, names);
      RecordIsText(ino, es[0], names[0]);
      LayoutIsTexts(es[1..], names[1..], ino + 1, seen + {names[0]});
    }
  }

  /**
    An archive is the records of its entries, numbered from 1, and one more for the name TRAILER!!!
    with nothing in it, and then zeros up to a multiple of 512 bytes.
   */
  lemma {:induction false} ArchiveIsText(es: seq<Entry>)
    requires Encoded(es).Success?
    ensures IsAscii("TRAILER!!!")
    ensures var archive := Encoded(es).value;
            var records := RecordTexts(es + [Entry(Ascii("TRAILER!!!"), 0, [], 0, 0, 0, 0)], 1);
            && records <= archive && |archive| % 512 == 0 && |archive| < |records| + 512
            && forall i | |records| <= i < |archive| :: archive[i] == 0
  {
    hide Layout, RecordTexts, Names, Ascii;
    MagicIsText();
    var all := es + [Trailer()];
    LayoutIsTexts(all, Names(all, {}).value, 1, {});
  }
}
