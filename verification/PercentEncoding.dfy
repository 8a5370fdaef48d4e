/** Percent-encoding (RFC 3986 sections 2.1 and 2.3) and its inverse. */
module PercentEncoding {
  import opened Text

  predicate IsUnreserved(c: Char8) {
    'a' <= c <= 'z' || 'A' <= c <= 'Z' || '0' <= c <= '9' || c == '-' || c == '_' || c == '.' || c == '~'
  }

  const UPPER := "ABCDEFGHIJKLMNOPQRSTUVWXYZ"
  const LOWER := "abcdefghijklmnopqrstuvwxyz"
  const DIGITS := "0123456789"
  const MARKS := "-._~"

  /** The characters left alone are those of RFC 3986 section 2.3. */
  lemma UnreservedAre(c: Char8)
    ensures IsUnreserved(c) <==> c in UPPER || c in LOWER || c in DIGITS || c in MARKS
  {
    InUpper(c);
    InLower(c);
    InDigits(c);
    InMarks(c);
    hide UPPER, LOWER, DIGITS, MARKS;
  }

  lemma UpperAt(n: nat)
    requires n < 26
    ensures |UPPER| == 26 && UPPER[n] as int == 'A' as int + n
  {
  }

  lemma LowerAt(n: nat)
    requires n < 26
    ensures |LOWER| == 26 && LOWER[n] as int == 'a' as int + n
  {
  }

  lemma InUpper(c: Char8)
    ensures c in UPPER <==> 'A' <= c <= 'Z'
  {
    hide UPPER;
    forall n: nat | n < 26
      ensures |UPPER| == 26 && UPPER[n] as int == 'A' as int + n
    {
      UpperAt(n);
    }
    if 'A' <= c <= 'Z' {
      assert UPPER[c as int - 'A' as int] == c;
    } else {
      UpperAt(0);
    }
  }

  lemma InLower(c: Char8)
    ensures c in LOWER <==> 'a' <= c <= 'z'
  {
    hide LOWER;
    forall n: nat | n < 26
      ensures |LOWER| == 26 && LOWER[n] as int == 'a' as int + n
    {
      LowerAt(n);
    }
    if 'a' <= c <= 'z' {
      assert LOWER[c as int - 'a' as int] == c;
    } else {
      LowerAt(0);
    }
  }

  lemma InDigits(c: Char8)
    ensures c in DIGITS <==> '0' <= c <= '9'
  {
    if '0' <= c <= '9' {
      assert DIGITS[c as int - '0' as int] == c;
    }
  }

  lemma InMarks(c: Char8)
    ensures c in MARKS <==> c == '-' || c == '.' || c == '_' || c == '~'
  {
    assert MARKS[0] == '-' && MARKS[1] == '.' && MARKS[2] == '_' && MARKS[3] == '~';
  }

  const HEX_DIGITS: Str := "0123456789ABCDEF"

  /** The digits of a triplet are upper-case hexadecimal. */
  lemma HexDigitsAre(n: nat)
    requires n < 16
    ensures HexDigit(n) == HEX_DIGITS[n]
  {
  }

  function HexDigit(n: nat): (c: Char8)
    requires n < 16
    ensures IsHex(c) && HexValue(c) == n
  {
    if n < 10 then '0' + n as char else 'A' + (n - 10) as char
  }

  predicate IsHex(c: Char8) {
    '0' <= c <= '9' || 'A' <= c <= 'F' || 'a' <= c <= 'f'
  }

  function HexValue(c: Char8): (n: nat)
    requires IsHex(c)
    ensures n < 16
  {
    if c <= '9' then c as int - '0' as int
    else if c <= 'F' then c as int - 'A' as int + 10
    else c as int - 'a' as int + 10
  }

  function EncodeChar(c: Char8): (e: Str)
    ensures |e| == if IsUnreserved(c) then 1 else 3
  {
    if IsUnreserved(c) then [c] else ['%', HexDigit(c as int / 16), HexDigit(c as int % 16)]
  }

  function Encode(s: Str): Str {
    if s == [] then [] else EncodeChar(s[0]) + Encode(s[1..])
  }

  /** `%` and two hex digits open the string. */
  predicate StartsTriplet(s: Str) {
    |s| >= 3 && s[0] == '%' && IsHex(s[1]) && IsHex(s[2])
  }

  /** Percent-decoding: every triplet becomes its byte, anything else stands for itself. */
  function Decode(s: Str): (d: Str)
    ensures |d| <= |s|
  {
    if s == [] then []
    else if StartsTriplet(s) then [(HexValue(s[1]) * 16 + HexValue(s[2])) as char] + Decode(s[3..])
    else [s[0]] + Decode(s[1..])
  }

  /** The encoder's loop. */
  method UriEncode(value: Str) returns (escaped: Str)
    ensures escaped == Encode(value)
  {
    escaped := [];
    for i := 0 to |value|
      invariant escaped + Encode(value[i..]) == Encode(value)
    {
      hide Encode, HexDigit;
      var c := value[i];
      EncodeFrom(value, i);
      assert escaped + (EncodeChar(c) + Encode(value[i + 1..])) == escaped + EncodeChar(c) + Encode(value[i + 1..]);
      if IsUnreserved(c) {
        escaped := escaped + [c];
      } else {
        escaped := escaped + ['%', HexDigit(c as int / 16), HexDigit(c as int % 16)];
      }
    }
  }

  lemma EncodeFrom(s: Str, i: nat)
    requires i < |s|
    ensures Encode(s[i..]) == EncodeChar(s[i]) + Encode(s[i + 1..])
  {
    assert s[i..][1..] == s[i + 1..];
  }

  lemma DecodeOne(c: Char8, rest: Str)
    ensures Decode(EncodeChar(c) + rest) == [c] + Decode(rest)
  {
    var s := EncodeChar(c) + rest;
    if IsUnreserved(c) {
      assert s[1..] == rest;
    } else {
      assert s[3..] == rest;
      assert HexValue(s[1]) * 16 + HexValue(s[2]) == c as int;
    }
  }

  /** Decoding undoes encoding on every byte string. */
  lemma {:induction false} DecodeEncode(s: Str)
    ensures Decode(Encode(s)) == s
  {
    if s != [] {
      DecodeOne(s[0], Encode(s[1..]));
      DecodeEncode(s[1..]);
    }
  }

  /** Unreserved characters, and upper-case triplets for the others only. */
  predicate IsEncoded(s: Str) {
    s == [] ||
    if IsUnreserved(s[0]) then IsEncoded(s[1..])
    else
      && StartsTriplet(s) && s[1] <= 'F' && s[2] <= 'F'
      && !IsUnreserved((HexValue(s[1]) * 16 + HexValue(s[2])) as char)
      && IsEncoded(s[3..])
  }

  /** The encoder emits exactly the strings of that form: on them it undoes decoding. */
  lemma {:induction false} EncodedIff(s: Str)
    ensures IsEncoded(s) <==> s == Encode(Decode(s))
  {
    if s != [] {
      if IsUnreserved(s[0]) {
        EncodedIff(s[1..]);
        var d := Decode(s);
        assert d[0] == s[0] && d[1..] == Decode(s[1..]);
        assert Encode(d) == [s[0]] + Encode(Decode(s[1..]));
        if s == Encode(d) {
          assert s[1..] == Encode(d)[1..] == Encode(Decode(s[1..]));
        }
      } else if StartsTriplet(s) {
        EncodedIff(s[3..]);
        var d := Decode(s);
        assert d[1..] == Decode(s[3..]);
        HexRoundTrip(s[1], s[2]);
        if s == Encode(d) && !IsUnreserved(d[0]) {
          assert s[3..] == Encode(d)[3..] == Encode(Decode(s[3..]));
        }
      } else {
        ReservedEncodesToTriplet(s);
      }
    }
  }

  lemma HexRoundTrip(a: Char8, b: Char8)
    requires IsHex(a) && IsHex(b)
    ensures var n := HexValue(a) * 16 + HexValue(b);
            (HexDigit(n / 16) == a <==> a <= 'F') && (HexDigit(n % 16) == b <==> b <= 'F')
  {
  }

  lemma ReservedEncodesToTriplet(s: Str)
    requires s != [] && !IsUnreserved(s[0]) && !StartsTriplet(s)
    ensures s != Encode(Decode(s))
  {
    var d := Decode(s);
    assert d[0] == s[0];
    var e := Encode(d);
    assert e[0] == '%' && IsHex(e[1]) && IsHex(e[2]);
  }

  ghost predicate AllUnreserved(s: Str) {
    forall i :: 0 <= i < |s| ==> IsUnreserved(s[i])
  }

  /** The encoder leaves a string alone exactly when it has unreserved characters only. */
  lemma {:induction false} EncodeFixesIff(s: Str)
    ensures |Encode(s)| >= |s|
    ensures Encode(s) == s <==> AllUnreserved(s)
  {
    if s != [] {
      EncodeFixesIff(s[1..]);
      if IsUnreserved(s[0]) {
        assert Encode(s)[1..] == Encode(s[1..]);
        assert AllUnreserved(s) <==> AllUnreserved(s[1..]) by {
          assert s == [s[0]] + s[1..];
        }
      }
    }
  }
}
