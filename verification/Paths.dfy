/** Splitting a text at a separator and joining it again, as Python's str.split and str.join do. */
module Paths {

  function Split<T(==)>(s: seq<T>, sep: T): (r: seq<seq<T>>)
    ensures |r| > 0
  {
    if s == [] then [[]]
    else
      var rest := Split(s[1..], sep);
      if s[0] == sep then [[]] + rest else [[s[0]] + rest[0]] + rest[1..]
  }

  function Join<T>(parts: seq<seq<T>>, sep: T): seq<T>
    requires |parts| > 0
  {
    if |parts| == 1 then parts[0] else parts[0] + [sep] + Join(parts[1..], sep)
  }

  lemma {:induction false} JoinSplit<T>(s: seq<T>, sep: T)
    ensures Join(Split(s, sep), sep) == s
  {
    if s != [] {
      var rest := Split(s[1..], sep);
      JoinSplit(s[1..], sep);
      if s[0] == sep {
        assert ([[]] + rest)[1..] == rest;
      } else if |rest| > 1 {
        assert ([[s[0]] + rest[0]] + rest[1..])[1..] == rest[1..];
      }
    }
  }

  /** No part produced by splitting contains the separator. */
  lemma {:induction false} SplitParts<T>(s: seq<T>, sep: T)
    ensures forall p | p in Split(s, sep) :: sep !in p
  {
    if s != [] {
      SplitParts(s[1..], sep);
    }
  }

  lemma {:induction false} PartElements<T>(s: seq<T>, sep: T, part: seq<T>)
    requires part in Split(s, sep)
    ensures forall c | c in part :: c in s
    decreases |s|
  {
    if s != [] {
      var rest := Split(s[1..], sep);
      assert s == [s[0]] + s[1..];
      if part in rest {
        PartElements(s[1..], sep, part);
      } else if part != [] {
        assert part == [s[0]] + rest[0];
        PartElements(s[1..], sep, rest[0]);
      }
    }
  }

  lemma {:induction false} SplitPrepend<T>(p: seq<T>, s: seq<T>, sep: T)
    requires sep !in p
    ensures Split(p + s, sep) == [p + Split(s, sep)[0]] + Split(s, sep)[1..]
    decreases |p|
  {
    if p == [] {
      assert p + s == s && p + Split(s, sep)[0] == Split(s, sep)[0];
    } else {
      assert (p + s)[1..] == p[1..] + s;
      SplitPrepend(p[1..], s, sep);
      assert [p[0]] + (p[1..] + Split(s, sep)[0]) == p + Split(s, sep)[0];
    }
  }

  lemma {:induction false} SplitJoin<T>(parts: seq<seq<T>>, sep: T)
    requires |parts| > 0 && forall p | p in parts :: sep !in p
    ensures Split(Join(parts, sep), sep) == parts
  {
    if |parts| == 1 {
      assert parts[0] + [] == parts[0] && parts == [parts[0]];
      SplitPrepend(parts[0], [], sep);
    } else {
      var rest := Join(parts[1..], sep);
      SplitJoin(parts[1..], sep);
      assert parts[0] + [sep] + rest == parts[0] + ([sep] + rest);
      assert ([sep] + rest)[1..] == rest;
      SplitPrepend(parts[0], [sep] + rest, sep);
      assert Split([sep] + rest, sep) == [[]] + parts[1..];
      assert parts[0] + [] == parts[0] && parts == [parts[0]] + parts[1..];
    }
  }

  /** The components of a path, without the empty ones and the dots. */
  function Kept(parts: seq<string>): seq<string> {
    if parts == [] then []
    else if parts[0] == "" || parts[0] == "." then Kept(parts[1..])
    else [parts[0]] + Kept(parts[1..])
  }

  lemma {:induction false} KeptAppend(a: seq<string>, b: seq<string>)
    ensures Kept(a + b) == Kept(a) + Kept(b)
    decreases |a|
  {
    if a == [] {
      assert a + b == b;
    } else {
      assert (a + b)[1..] == a[1..] + b;
      KeptAppend(a[1..], b);
    }
  }

  lemma {:induction false} KeptParts(parts: seq<string>)
    ensures forall c :: c in Kept(parts) <==> c in parts && c != "" && c != "."
    decreases |parts|
  {
    if parts != [] {
      assert parts == [parts[0]] + parts[1..];
      KeptParts(parts[1..]);
    }
  }

  lemma {:induction false} AllKept(p: seq<string>)
    requires forall c | c in p :: c != "" && c != "."
    ensures Kept(p) == p
    decreases |p|
  {
    if p != [] {
      assert p[0] in p && forall c | c in p[1..] :: c in p;
      AllKept(p[1..]);
      assert p == [p[0]] + p[1..];
    }
  }
}
