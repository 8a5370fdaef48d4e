/** Byte strings, as C++ holds them, and splitting and joining on a separator. */
module Text {

  type Char8 = c: char | c as int < 256 witness 'a'
  type Str = seq<Char8>

  /** The pieces between separators; there is always at least one. */
  function Split(s: Str, sep: Char8): (parts: seq<Str>)
    ensures parts != []
  {
    if s == [] then [[]]
    else
      var rest := Split(s[1..], sep);
      if s[0] == sep then [[]] + rest else OntoFirst(s[0], rest)
  }

  /** The pieces with one more character in front of the first. */
  function OntoFirst(c: Char8, parts: seq<Str>): (r: seq<Str>)
    requires parts != []
    ensures |r| == |parts|
  {
    [[c] + parts[0]] + parts[1..]
  }

  function Join(parts: seq<Str>, sep: Char8): Str {
    if parts == [] then []
    else if |parts| == 1 then parts[0]
    else parts[0] + [sep] + Join(parts[1..], sep)
  }

  lemma {:induction false} SplitWhole(s: Str, sep: Char8)
    requires sep !in s
    ensures Split(s, sep) == [s]
  {
    if s != [] {
      SplitWhole(s[1..], sep);
      assert [s[0]] + s[1..] == s;
    }
  }

  lemma {:induction false} SplitConcat(a: Str, sep: Char8, b: Str)
    ensures Split(a + [sep] + b, sep) == Split(a, sep) + Split(b, sep)
  {
    hide OntoFirst;
    var s := a + [sep] + b;
    if a == [] {
      assert s[1..] == b;
    } else {
      assert s[0] == a[0];
      var rest := Split(a[1..], sep);
      SplitConcat(a[1..], sep, b);
      assert s[1..] == a[1..] + [sep] + b;
      OntoFirstConcat(rest, Split(b, sep), a[0]);
    }
  }

  lemma OntoFirstConcat(a: seq<Str>, b: seq<Str>, c: Char8)
    requires a != []
    ensures OntoFirst(c, a + b) == OntoFirst(c, a) + b
    ensures [[]] + (a + b) == [[]] + a + b
  {
  }

  lemma {:induction false} NoSeparatorInside(s: Str, sep: Char8)
    ensures forall i :: 0 <= i < |Split(s, sep)| ==> sep !in Split(s, sep)[i]
  {
    if s != [] {
      NoSeparatorInside(s[1..], sep);
    }
  }

  /** Splitting undoes joining when no part holds the separator. */
  lemma {:induction false} SplitJoin(parts: seq<Str>, sep: Char8)
    requires parts != [] && forall i :: 0 <= i < |parts| ==> sep !in parts[i]
    ensures Split(Join(parts, sep), sep) == parts
  {
    SplitWhole(parts[0], sep);
    if |parts| > 1 {
      SplitConcat(parts[0], sep, Join(parts[1..], sep));
      SplitJoin(parts[1..], sep);
    }
  }

  /** Joining undoes splitting, always. */
  lemma {:induction false} JoinSplit(s: Str, sep: Char8)
    ensures Join(Split(s, sep), sep) == s
  {
    hide OntoFirst, Join;
    if s == [] {
      JoinOne([], sep);
    } else {
      JoinSplit(s[1..], sep);
      JoinHead(Split(s[1..], sep), s[0], sep);
      assert [s[0]] + s[1..] == s;
    }
  }

  lemma JoinOne(part: Str, sep: Char8)
    ensures Join([part], sep) == part
  {
  }

  lemma JoinHead(rest: seq<Str>, c: Char8, sep: Char8)
    requires rest != []
    ensures Join(OntoFirst(c, rest), sep) == [c] + Join(rest, sep)
    ensures Join([[]] + rest, sep) == [sep] + Join(rest, sep)
  {
    assert OntoFirst(c, rest)[1..] == rest[1..];
    assert ([[]] + rest)[1..] == rest;
  }

  lemma {:induction false} JoinSnoc(parts: seq<Str>, last: Str, sep: Char8)
    requires parts != []
    ensures Join(parts + [last], sep) == Join(parts, sep) + [sep] + last
  {
    if |parts| > 1 {
      JoinSnoc(parts[1..], last, sep);
      assert (parts + [last])[1..] == parts[1..] + [last];
    }
  }

  /** A prefix without separators only lengthens the first piece. */
  lemma {:induction false} SplitPrefix(a: Str, b: Str, sep: Char8)
    requires sep !in a
    ensures Split(a + b, sep) == [a + Split(b, sep)[0]] + Split(b, sep)[1..]
  {
    var rest := Split(b, sep);
    if a == [] {
      assert a + b == b && a + rest[0] == rest[0];
    } else {
      SplitPrefix(a[1..], b, sep);
      assert (a + b)[1..] == a[1..] + b && (a + b)[0] == a[0];
      assert OntoFirst(a[0], [a[1..] + rest[0]] + rest[1..]) == [[a[0]] + (a[1..] + rest[0])] + rest[1..];
      assert [a[0]] + (a[1..] + rest[0]) == a + rest[0];
    }
  }

  lemma {:induction false} FirstPieceShorter(s: Str, sep: Char8)
    ensures |Split(s, sep)[0]| <= |s|
    ensures sep in s ==> |Split(s, sep)[0]| < |s|
  {
    if s != [] {
      FirstPieceShorter(s[1..], sep);
    }
  }

  /** The last piece is empty exactly when the string is, or ends in a separator. */
  lemma {:induction false} LastPiece(s: Str, sep: Char8)
    ensures Split(s, sep)[|Split(s, sep)| - 1] == [] <==> s == [] || s[|s| - 1] == sep
  {
    if s != [] {
      LastPiece(s[1..], sep);
    }
  }
}
