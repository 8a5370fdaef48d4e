/** Version numbers: reading dotted numbers, zero-padding and comparing. */
module Version {
  import opened Text
  import opened Wrappers

  // ---------------------------------------------------------------------------
  // Comparing
  // ---------------------------------------------------------------------------

  type Parts = seq<int>

  /** Resized to `n` with zeros. */
  function Pad(v: Parts, n: nat): (p: Parts)
    requires |v| <= n
    ensures |p| == n
  {
    v + seq(n - |v|, _ => 0)
  }

  /** The lexicographic order of the vector comparison. */
  predicate LexLess(a: Parts, b: Parts) {
    b != [] && (a == [] || a[0] < b[0] || (a[0] == b[0] && LexLess(a[1..], b[1..])))
  }

  function Max(a: nat, b: nat): nat {
    if a < b then b else a
  }

  /** `a` is at least `b`, after padding the shorter one. */
  predicate AtLeast(a: Parts, b: Parts) {
    var n := Max(|a|, |b|);
    !LexLess(Pad(a, n), Pad(b, n))
  }

  function At(v: Parts, i: nat): int {
    if i < |v| then v[i] else 0
  }

  /** The first component where they differ is smaller in `a`. */
  ghost predicate Older(a: Parts, b: Parts) {
    exists i: nat :: FirstDifference(a, b, i) && At(a, i) < At(b, i)
  }

  ghost predicate FirstDifference(a: Parts, b: Parts, i: nat) {
    At(a, i) != At(b, i) && forall j: nat :: j < i ==> At(a, j) == At(b, j)
  }

  lemma {:induction false} LexLessIff(a: Parts, b: Parts)
    requires |a| == |b|
    ensures LexLess(a, b) <==> exists i :: 0 <= i < |a| && a[i] < b[i] && a[..i] == b[..i]
  {
    if a != [] {
      LexLessIff(a[1..], b[1..]);
      if LexLess(a, b) && a[0] == b[0] {
        var i :| 0 <= i < |a| - 1 && a[1..][i] < b[1..][i] && a[1..][..i] == b[1..][..i];
        assert a[..i + 1] == [a[0]] + a[1..][..i] && b[..i + 1] == [b[0]] + b[1..][..i];
        assert a[i + 1] < b[i + 1];
      }
      if i :| 0 <= i < |a| && a[i] < b[i] && a[..i] == b[..i] {
        if i > 0 {
          assert a[0] == a[..i][0] == b[..i][0] == b[0];
          assert a[1..][i - 1] < b[1..][i - 1];
          assert a[1..][..i - 1] == a[..i][1..] && b[1..][..i - 1] == b[..i][1..];
        } else {
          assert a[0] < b[0];
        }
      }
    }
  }

  /** The comparison means: not older, component by component, missing components being zero. */
  lemma AtLeastMeans(a: Parts, b: Parts)
    ensures AtLeast(a, b) <==> !Older(a, b)
  {
    var n := Max(|a|, |b|);
    var p, q := Pad(a, n), Pad(b, n);
    LexLessIff(p, q);
    if i :| 0 <= i < n && p[i] < q[i] && p[..i] == q[..i] {
      forall j: nat | j < i
        ensures At(a, j) == At(b, j)
      {
        assert p[..i][j] == q[..i][j];
      }
      assert FirstDifference(a, b, i);
    }
    if i: nat :| FirstDifference(a, b, i) && At(a, i) < At(b, i) {
      assert p[i] < q[i];
      assert forall j: nat :: j < i ==> p[j] == At(a, j) == At(b, j) == q[j];
      assert p[..i] == q[..i];
    }
  }

  /** Two versions are either alike in every component or differ first somewhere. */
  lemma {:induction false} DifferSomewhere(a: Parts, b: Parts, n: nat)
    ensures (forall i: nat :: i < n ==> At(a, i) == At(b, i)) || exists i: nat :: FirstDifference(a, b, i)
  {
    if n > 0 {
      DifferSomewhere(a, b, n - 1);
      if forall i: nat :: i < n - 1 ==> At(a, i) == At(b, i) {
        if At(a, n - 1) != At(b, n - 1) {
          assert FirstDifference(a, b, n - 1);
        }
      }
    }
  }

  ghost predicate Alike(a: Parts, b: Parts) {
    forall i: nat :: At(a, i) == At(b, i)
  }

  /** The comparison is total; both ways round only for versions alike up to trailing zeros. */
  lemma AtLeastTotal(a: Parts, b: Parts)
    ensures AtLeast(a, b) || AtLeast(b, a)
    ensures AtLeast(a, b) && AtLeast(b, a) <==> Alike(a, b)
  {
    AtLeastMeans(a, b);
    AtLeastMeans(b, a);
    DifferSomewhere(a, b, Max(|a|, |b|));
    if i: nat :| FirstDifference(a, b, i) {
      assert FirstDifference(b, a, i);
    }
  }

  /** Being older than a third version shows against any version in between. */
  lemma OlderSplits(a: Parts, b: Parts, c: Parts)
    requires Older(a, c)
    ensures Older(a, b) || Older(b, c)
  {
    var i: nat :| FirstDifference(a, c, i) && At(a, i) < At(c, i);
    DifferSomewhere(a, b, i + 1);
    if d: nat :| FirstDifference(a, b, d) {
      if d < i {
        assert FirstDifference(b, c, d);
      } else if At(b, i) < At(c, i) {
        assert FirstDifference(b, c, i);
      } else {
        assert d == i;
      }
    } else {
      assert FirstDifference(b, c, i);
    }
  }

  /** The comparison is transitive, whatever the three lengths. */
  lemma AtLeastTransitive(a: Parts, b: Parts, c: Parts)
    requires AtLeast(a, b) && AtLeast(b, c)
    ensures AtLeast(a, c)
  {
    hide AtLeast, Older;
    AtLeastMeans(a, b);
    AtLeastMeans(b, c);
    AtLeastMeans(a, c);
    if Older(a, c) {
      OlderSplits(a, b, c);
    }
  }

  /** A trailing zero component changes no comparison. */
  lemma TrailingZero(a: Parts, b: Parts)
    ensures AtLeast(a + [0], b) == AtLeast(a, b) && AtLeast(b, a + [0]) == AtLeast(b, a)
  {
    assert Alike(a + [0], a);
    AtLeastTotal(a + [0], a);
    if AtLeast(a, b) { AtLeastTransitive(a + [0], a, b); }
    if AtLeast(a + [0], b) { AtLeastTransitive(a, a + [0], b); }
    if AtLeast(b, a) { AtLeastTransitive(b, a, a + [0]); }
    if AtLeast(b, a + [0]) { AtLeastTransitive(b, a + [0], a); }
  }

  // ---------------------------------------------------------------------------
  // Reading
  // ---------------------------------------------------------------------------

  const INT_MIN := -0x8000_0000
  const INT_MAX := 0x7FFF_FFFF

  predicate IsDigit(c: Char8) {
    '0' <= c <= '9'
  }

  predicate IsSpace(c: Char8) {
    c == ' ' || c == '\t' || c == '\n' || c as int == 11 || c as int == 12 || c == '\r'
  }

  function SkipSpace(s: Str): Str {
    if s != [] && IsSpace(s[0]) then SkipSpace(s[1..]) else s
  }

  /** The longest prefix of digits. */
  function DigitPrefix(s: Str): (d: Str)
    ensures forall i :: 0 <= i < |d| ==> IsDigit(d[i])
  {
    if s != [] && IsDigit(s[0]) then [s[0]] + DigitPrefix(s[1..]) else []
  }

  function DigitsValue(d: Str): nat
    requires forall i :: 0 <= i < |d| ==> IsDigit(d[i])
  {
    if d == [] then 0 else DigitsValue(d[..|d| - 1]) * 10 + DigitValue(d[|d| - 1])
  }

  function DigitValue(c: Char8): (n: nat)
    requires IsDigit(c)
    ensures n < 10
  {
    c as int - '0' as int
  }

  /** The string without its sign, if it starts with one. */
  function Unsigned(s: Str): Str {
    if s != [] && (s[0] == '-' || s[0] == '+') then s[1..] else s
  }

  /** The library's conversion: leading space, a sign, digits; whatever follows is ignored. None where it throws. */
  function StoI(seg: Str): Option<int> {
    var s := SkipSpace(seg);
    var negative := s != [] && s[0] == '-';
    var d := DigitPrefix(Unsigned(s));
    var value: int := DigitsValue(d);
    var n := if negative then -value else value;
    if d == [] || n < INT_MIN || n > INT_MAX then None else Some(n)
  }

  /**
   * What the conversion gives for leading space, a sign, digits and anything else in that order: the
   * signed number, and None without digits or outside 32 bits.
   */
  lemma StoIReads(space: Str, sign: Str, digits: Str, rest: Str)
    requires forall i :: 0 <= i < |space| ==> space[i] == ' ' || 9 <= space[i] as int <= 13
    requires sign == [] || sign == ['+'] || sign == ['-']
    requires forall i :: 0 <= i < |digits| ==> '0' <= digits[i] <= '9'
    requires rest != [] ==> !('0' <= rest[0] <= '9')
    requires rest != [] && sign == digits == [] ==>
      rest[0] != '+' && rest[0] != '-' && rest[0] != ' ' && !(9 <= rest[0] as int <= 13)
    ensures
      var n := if sign == ['-'] then -(DigitsValue(digits) as int) else DigitsValue(digits);
      StoI(space + sign + digits + rest) ==
        if digits != [] && -0x8000_0000 <= n <= 0x7FFF_FFFF then Some(n) else None
  {
    hide StoI, SkipSpace, DigitPrefix, DigitsValue;
    var number := digits + rest;
    var signed := sign + number;
    Regroup(space, sign, digits, rest);
    SignSplits(sign, number);
    SkipsSpace(space, signed);
    TakesDigits(digits, rest);
    StoISigned(space + signed, signed, digits);
  }

  lemma Regroup(a: Str, b: Str, c: Str, d: Str)
    ensures a + b + c + d == a + (b + (c + d))
  {
  }

  lemma SignSplits(sign: Str, number: Str)
    requires sign == [] || sign == ['+'] || sign == ['-']
    requires sign == [] && number != [] ==> number[0] != '+' && number[0] != '-' && !IsSpace(number[0])
    ensures var s := sign + number;
            && Unsigned(s) == number
            && (s != [] && s[0] == '-' <==> sign == ['-'])
            && (s != [] ==> !IsSpace(s[0]))
  {
    var s := sign + number;
    if sign == [] {
      assert s == number;
    } else {
      assert s[0] == sign[0] && s[1..] == number;
    }
  }

  lemma StoISigned(seg: Str, signed: Str, digits: Str)
    requires SkipSpace(seg) == signed && DigitPrefix(Unsigned(signed)) == digits
    ensures
      var n := if signed != [] && signed[0] == '-' then -(DigitsValue(digits) as int) else DigitsValue(digits);
      StoI(seg) == if digits != [] && -0x8000_0000 <= n <= 0x7FFF_FFFF then Some(n) else None
  {
    hide SkipSpace, DigitPrefix, DigitsValue;
  }

  lemma {:induction false} SkipsSpace(space: Str, s: Str)
    requires forall i :: 0 <= i < |space| ==> IsSpace(space[i])
    requires s != [] ==> !IsSpace(s[0])
    ensures SkipSpace(space + s) == s
  {
    if space == [] {
      assert space + s == s;
    } else {
      SkipsSpace(space[1..], s);
      assert (space + s)[1..] == space[1..] + s;
    }
  }

  lemma {:induction false} TakesDigits(digits: Str, rest: Str)
    requires forall i :: 0 <= i < |digits| ==> IsDigit(digits[i])
    requires rest != [] ==> !IsDigit(rest[0])
    ensures DigitPrefix(digits + rest) == digits
  {
    if digits == [] {
      assert digits + rest == rest;
    } else {
      TakesDigits(digits[1..], rest);
      assert (digits + rest)[1..] == digits[1..] + rest;
    }
  }

  /** Digits are read in base ten. */
  lemma DigitsValueIs(d: Str, c: Char8)
    requires '0' <= c <= '9' && forall i :: 0 <= i < |d| ==> '0' <= d[i] <= '9'
    ensures DigitsValue([]) == 0
    ensures DigitsValue(d + [c]) == 10 * DigitsValue(d) + (c as int - '0' as int)
  {
    assert (d + [c])[..|d|] == d;
  }

  /** The lines that reading up to each dot gives: no last line when the string is empty or ends in a dot. */
  function Lines(v: Str): seq<Str> {
    var p := Split(v, '.');
    if p[|p| - 1] == [] then p[..|p| - 1] else p
  }

  function StoIAll(lines: seq<Str>): Option<Parts> {
    if lines == [] then Some([])
    else
      match StoI(lines[0])
      case None => None
      case Some(n) =>
        match StoIAll(lines[1..])
        case None => None
        case Some(rest) => Some([n] + rest)
  }

  /** The parts of a version string; None where a segment does not convert. */
  function Parse(v: Str): Option<Parts> {
    StoIAll(Lines(v))
  }

  function Prepend(n: Parts, rest: Option<Parts>): Option<Parts> {
    match rest
    case None => None
    case Some(r) => Some(n + r)
  }

  lemma {:induction false} StoIAllConcat(a: seq<Str>, b: seq<Str>)
    ensures StoIAll(a + b) == match StoIAll(a) case None => None case Some(x) => Prepend(x, StoIAll(b))
  {
    if a == [] {
      assert a + b == b;
      PrependNothing(StoIAll(b));
    } else {
      StoIAllConcat(a[1..], b);
      assert (a + b)[1..] == a[1..] + b;
      if StoI(a[0]).Some? && StoIAll(a[1..]).Some? {
        PrependTwice([StoI(a[0]).value], StoIAll(a[1..]).value, StoIAll(b));
      }
    }
  }

  lemma PrependNothing(rest: Option<Parts>)
    ensures Prepend([], rest) == rest
  {
    if rest.Some? {
      assert [] + rest.value == rest.value;
    }
  }

  lemma PrependTwice(a: Parts, b: Parts, rest: Option<Parts>)
    ensures Prepend(a, Prepend(b, rest)) == Prepend(a + b, rest)
  {
    if rest.Some? {
      assert a + (b + rest.value) == a + b + rest.value;
    }
  }

  lemma LinesStep(seg: Str, rest: Str)
    requires '.' !in seg
    ensures Lines(seg + ['.'] + rest) == [seg] + Lines(rest)
  {
    SplitConcat(seg, '.', rest);
    SplitWhole(seg, '.');
  }

  lemma LinesLast(seg: Str)
    requires '.' !in seg
    ensures Lines(seg) == if seg == [] then [] else [seg]
  {
    SplitWhole(seg, '.');
  }

  lemma ParseStep(seg: Str, rest: Str)
    requires '.' !in seg
    ensures Parse(seg + ['.'] + rest) ==
            match StoI(seg) case None => None case Some(n) => Prepend([n], Parse(rest))
  {
    hide StoI;
    LinesStep(seg, rest);
    assert ([seg] + Lines(rest))[1..] == Lines(rest);
  }

  lemma ParseLast(seg: Str)
    requires '.' !in seg
    ensures Parse(seg) ==
            if seg == [] then Some([]) else match StoI(seg) case None => None case Some(n) => Prepend([n], Some([]))
  {
    hide StoI;
    LinesLast(seg);
    var none: seq<Str> := [];
    assert [seg][1..] == none && StoIAll(none) == Some([]);
  }

  /** Reading a version, segment by segment, in one pass over the string. */
  method SplitVersion(v: Str) returns (parts: Option<Parts>)
    ensures parts == Parse(v)
  {
    hide Parse, StoI;
    var done: Parts := [];
    var pos := 0;
    assert v[0..] == v;
    PrependNothing(Parse(v));
    while pos < |v|
      invariant 0 <= pos <= |v|
      invariant Parse(v) == Prepend(done, Parse(v[pos..]))
    {
      var end := pos;
      while end < |v| && v[end] != '.'
        invariant pos <= end <= |v| && '.' !in v[pos..end]
      {
        end := end + 1;
      }
      var seg := v[pos..end];
      var next := if end < |v| then end + 1 else end;
      if end < |v| {
        assert v[pos..] == seg + ['.'] + v[next..];
        ParseStep(seg, v[next..]);
      } else {
        assert v[pos..] == seg && v[next..] == [];
        ParseLast(seg);
        ParseLast([]);
      }
      var n := StoI(seg);
      if n.None? {
        return None;
      }
      PrependTwice(done, [n.value], Parse(v[next..]));
      done := done + [n.value];
      pos := next;
    }
    ParseLast([]);
    assert v[pos..] == [] && done + [] == done;
    parts := Some(done);
  }

  method IsLatest(remote: Option<Str>, local: Option<Str>) returns (latest: Option<bool>)
    ensures remote.None? || local.None? ==> latest == Some(false)
    ensures remote.Some? && local.Some? ==>
      var r, l := Parse(remote.value), Parse(local.value);
      latest == if r.Some? && l.Some? then Some(AtLeast(r.value, l.value)) else None
  {
    if remote.None? || local.None? {
      return Some(false);
    }
    var r := SplitVersion(remote.value);
    if r.None? {
      return None;
    }
    var l := SplitVersion(local.value);
    if l.None? {
      return None;
    }
    var n := Max(|r.value|, |l.value|);
    var padded, other := Pad(r.value, n), Pad(l.value, n);
    latest := Some(!LexLess(padded, other));
  }

  /**
   * The answer says that the remote version is at least the local one. It is what the name promises,
   * the local one being at least the remote one, exactly when the two are alike.
   */
  lemma NameHoldsIff(remote: Parts, local: Parts)
    ensures AtLeast(remote, local) == AtLeast(local, remote) <==> Alike(remote, local)
  {
    AtLeastTotal(remote, local);
  }

  /** Version 2 against a local 1: the answer says latest although the local one is older. */
  lemma NameFails()
    ensures AtLeast([2], [1]) && !AtLeast([1], [2])
  {
    assert Pad([2], 1) == [2] && Pad([1], 1) == [1];
  }

  // ---------------------------------------------------------------------------
  // Reading what was written
  // ---------------------------------------------------------------------------

  function Decimal(n: nat): (d: Str)
    ensures d != [] && forall i :: 0 <= i < |d| ==> IsDigit(d[i])
  {
    if n < 10 then [DigitChar(n)] else Decimal(n / 10) + [DigitChar(n % 10)]
  }

  function DigitChar(n: nat): (c: Char8)
    requires n < 10
    ensures IsDigit(c) && DigitValue(c) == n
  {
    '0' + n as char
  }

  lemma {:induction false} DecimalValue(n: nat)
    ensures DigitsValue(Decimal(n)) == n
  {
    if n >= 10 {
      DecimalValue(n / 10);
      assert Decimal(n)[..|Decimal(n)| - 1] == Decimal(n / 10);
    } else {
      assert Decimal(n)[..0] == [];
    }
  }

  lemma {:induction false} AllDigits(d: Str)
    requires forall i :: 0 <= i < |d| ==> IsDigit(d[i])
    ensures DigitPrefix(d) == d
  {
    if d != [] {
      AllDigits(d[1..]);
    }
  }

  lemma StoIDecimal(n: nat)
    requires n <= INT_MAX
    ensures StoI(Decimal(n)) == Some(n)
  {
    var d := Decimal(n);
    assert IsDigit(d[0]);
    AllDigits(d);
    DecimalValue(n);
  }

  function Decimals(ns: seq<nat>): (d: seq<Str>)
    ensures |d| == |ns|
  {
    if ns == [] then [] else [Decimal(ns[0])] + Decimals(ns[1..])
  }

  lemma {:induction false} DecimalsConvert(ns: seq<nat>)
    requires forall i :: 0 <= i < |ns| ==> ns[i] <= INT_MAX
    ensures StoIAll(Decimals(ns)) == Some(ns)
    ensures forall i :: 0 <= i < |ns| ==> Decimals(ns)[i] != [] && '.' !in Decimals(ns)[i]
  {
    hide StoI, Decimal;
    if ns != [] {
      StoIDecimal(ns[0]);
      NoDot(ns[0]);
      DecimalsConvert(ns[1..]);
      assert [ns[0]] + ns[1..] == ns;
    }
  }

  lemma NoDot(n: nat)
    ensures '.' !in Decimal(n)
  {
    forall i | 0 <= i < |Decimal(n)|
      ensures Decimal(n)[i] != '.'
    {
      assert IsDigit(Decimal(n)[i]);
    }
  }

  /** Numbers joined with dots read back as they are. */
  lemma ParseJoined(ns: seq<nat>)
    requires forall i :: 0 <= i < |ns| ==> ns[i] <= INT_MAX
    ensures Parse(Join(Decimals(ns), '.')) == Some(ns)
  {
    DecimalsConvert(ns);
    if ns != [] {
      SplitJoin(Decimals(ns), '.');
    }
  }

  const DOT_ZERO: Str := ".0"

  /**
   * Appending `.0` to a readable version adds a zero component, and so changes no comparison, exactly
   * when the version is not empty and does not end in a dot; otherwise the result cannot be read.
   */
  lemma AppendDotZeroIff(v: Str)
    requires Parse(v).Some?
    ensures Parse(v + DOT_ZERO) ==
            if v != [] && v[|v| - 1] != '.' then Some(Parse(v).value + [0]) else None
  {
    hide StoI, Decimal, StoIAll, Split;
    var p, zero := Split(v, '.'), Decimal(0);
    DotZeroLines(v);
    LastPiece(v, '.');
    if p[|p| - 1] == [] {
      EmptyPieceThrows(p, zero);
    } else {
      StoIAllConcat(p, [zero]);
      StoIDecimal(0);
      StoIAllOne(zero);
    }
  }

  const ONE_DOT: Str := "1."

  /** `1.` reads as version 1, and `1..0` cannot be read. */
  lemma OneDotFails()
    ensures Parse(ONE_DOT) == Some([1]) && Parse(ONE_DOT + DOT_ZERO) == None
  {
    var one, rest: Str := Decimal(1), [];
    assert ONE_DOT == one + ['.'] + rest;
    NoDot(1);
    ParseStep(one, rest);
    ParseLast(rest);
    StoIDecimal(1);
    assert [1] + [] == [1];
    AppendDotZeroIff(ONE_DOT);
  }

  lemma EmptyPieceThrows(p: seq<Str>, zero: Str)
    requires p != [] && p[|p| - 1] == []
    ensures StoIAll(p + [zero]) == None
  {
    hide StoI, StoIAll;
    assert p == p[..|p| - 1] + [[]];
    StoIAllConcat(p[..|p| - 1], [[]]);
    StoIAllConcat(p, [zero]);
    StoIAllOne([]);
    EmptySegmentThrows();
  }

  lemma EmptySegmentThrows()
    ensures StoI([]) == None
  {
  }

  lemma StoIAllOne(seg: Str)
    ensures StoIAll([seg]) == match StoI(seg) case None => None case Some(n) => Some([n])
  {
    hide StoI;
    var none: seq<Str> := [];
    assert [seg][1..] == none && StoIAll(none) == Some([]);
    if StoI(seg).Some? {
      assert [StoI(seg).value] + [] == [StoI(seg).value];
    }
  }

  lemma DotZeroLines(v: Str)
    ensures Lines(v + DOT_ZERO) == Split(v, '.') + [Decimal(0)]
  {
    var zero := Decimal(0);
    assert v + DOT_ZERO == v + ['.'] + zero;
    SplitConcat(v, '.', zero);
    NoDot(0);
    SplitWhole(zero, '.');
  }
}
