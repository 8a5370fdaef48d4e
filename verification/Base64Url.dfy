/** The PKCE code challenge: base64 (RFC 4648 section 4), its URL form (section 5), and decoding. */
module Base64Url {
  import opened Bytes
  import opened Text
  import opened PercentEncoding
  import opened Wrappers

  // ---------------------------------------------------------------------------
  // Section 4: the library's block encoder
  // ---------------------------------------------------------------------------

  function StdChar(n: nat): Char8
    requires n < 64
  {
    if n == 62 then '+' else if n == 63 then '/' else UrlChar(n)
  }

  /** Six bits of `n`, counted from the top of a 24-bit group. */
  function Sextet(n: nat, i: nat): (x: nat)
    requires n < 0x100_0000 && i < 4
    ensures x < 64
  {
    if i == 0 then n / 0x4_0000 else if i == 1 then n / 0x1000 % 64 else if i == 2 then n / 64 % 64 else n % 64
  }

  function Group(a: byte, b: byte, c: byte): (n: nat)
    ensures n < 0x100_0000
  {
    a as nat * 0x1_0000 + b as nat * 0x100 + c as nat
  }

  function StdQuad(n: nat): (q: Str)
    requires n < 0x100_0000
    ensures |q| == 4
  {
    [StdChar(Sextet(n, 0)), StdChar(Sextet(n, 1)), StdChar(Sextet(n, 2)), StdChar(Sextet(n, 3))]
  }

  const PAD: Str := "="
  const PADS: Str := "=="

  function EncodeBlock(bytes: seq<byte>): (s: Str)
    ensures |s| == 4 * ((|bytes| + 2) / 3)
  {
    if bytes == [] then []
    else if |bytes| == 1 then StdQuad(Group(bytes[0], 0, 0))[..2] + PADS
    else if |bytes| == 2 then StdQuad(Group(bytes[0], bytes[1], 0))[..3] + PAD
    else StdQuad(Group(bytes[0], bytes[1], bytes[2])) + EncodeBlock(bytes[3..])
  }

  // ---------------------------------------------------------------------------
  // Section 5 without padding, and its inverse
  // ---------------------------------------------------------------------------

  function UrlChar(n: nat): (c: Char8)
    requires n < 64
    ensures IsUrlChar(c) && UrlValue(c) == n
  {
    if n < 26 then 'A' + n as char
    else if n < 52 then 'a' + (n - 26) as char
    else if n < 62 then '0' + (n - 52) as char
    else if n == 62 then '-' else '_'
  }

  predicate IsUrlChar(c: Char8) {
    'A' <= c <= 'Z' || 'a' <= c <= 'z' || '0' <= c <= '9' || c == '-' || c == '_'
  }

  function UrlValue(c: Char8): (n: nat)
    requires IsUrlChar(c)
    ensures n < 64
  {
    if 'A' <= c <= 'Z' then c as int - 'A' as int
    else if 'a' <= c <= 'z' then c as int - 'a' as int + 26
    else if '0' <= c <= '9' then c as int - '0' as int + 52
    else if c == '-' then 62 else 63
  }

  function UrlQuad(n: nat): (q: Str)
    requires n < 0x100_0000
    ensures |q| == 4 && forall i :: 0 <= i < 4 ==> IsUrlChar(q[i])
    ensures Ungroup(q) == n
  {
    SextetsRebuild(n);
    hide Sextet, UrlChar, UrlValue, IsUrlChar;
    [UrlChar(Sextet(n, 0)), UrlChar(Sextet(n, 1)), UrlChar(Sextet(n, 2)), UrlChar(Sextet(n, 3))]
  }

  lemma SextetsRebuild(n: nat)
    requires n < 0x100_0000
    ensures Sextet(n, 0) * 0x4_0000 + Sextet(n, 1) * 0x1000 + Sextet(n, 2) * 64 + Sextet(n, 3) == n
  {
    assert n / 0x1000 == n / 64 / 64;
    assert n / 0x4_0000 == n / 64 / 64 / 64;
  }

  /** The alphabets are those of RFC 4648 sections 5 and 4, which differ in the last two characters. */
  lemma AlphabetsAre(n: nat)
    requires n < 64
    ensures n < 26 ==> n < |UPPER| && UrlChar(n) == StdChar(n) == UPPER[n]
    ensures 26 <= n < 52 ==> n - 26 < |LOWER| && UrlChar(n) == StdChar(n) == LOWER[n - 26]
    ensures 52 <= n < 62 ==> n - 52 < |DIGITS| && UrlChar(n) == StdChar(n) == DIGITS[n - 52]
    ensures UrlChar(62) == '-' && StdChar(62) == '+' && UrlChar(63) == '_' && StdChar(63) == '/'
  {
    hide UPPER, LOWER;
    if n < 26 {
      UpperAt(n);
    } else if n < 52 {
      LowerAt(n - 26);
    }
  }

  function UrlEncode(bytes: seq<byte>): (s: Str)
    ensures |s| == (4 * |bytes| + 2) / 3
    ensures forall i :: 0 <= i < |s| ==> IsUrlChar(s[i])
  {
    if bytes == [] then []
    else if |bytes| == 1 then UrlQuad(Group(bytes[0], 0, 0))[..2]
    else if |bytes| == 2 then UrlQuad(Group(bytes[0], bytes[1], 0))[..3]
    else UrlQuad(Group(bytes[0], bytes[1], bytes[2])) + UrlEncode(bytes[3..])
  }

  function Ungroup(s: Str): (n: nat)
    requires |s| == 4 && forall i :: 0 <= i < 4 ==> IsUrlChar(s[i])
    ensures n < 0x100_0000
  {
    UrlValue(s[0]) * 0x4_0000 + UrlValue(s[1]) * 0x1000 + UrlValue(s[2]) * 64 + UrlValue(s[3])
  }

  function Ungroup3(n: nat): (b: seq<byte>)
    requires n < 0x100_0000
    ensures |b| == 3
    ensures Group(b[0], b[1], b[2]) == n
  {
    [(n / 0x1_0000) as byte, (n / 0x100 % 0x100) as byte, (n % 0x100) as byte]
  }

  const A1: Str := "A"
  const A2: Str := "AA"

  /** Decoding fails on foreign characters, on a lone trailing character, and on stray low bits. */
  function UrlDecode(s: Str): Option<seq<byte>> {
    if exists i :: 0 <= i < |s| && !IsUrlChar(s[i]) then None else DecodeChars(s)
  }

  function DecodeChars(s: Str): Option<seq<byte>>
    requires forall i :: 0 <= i < |s| ==> IsUrlChar(s[i])
  {
    if s == [] then Some([])
    else if |s| == 1 then None
    else if |s| == 2 then
      var n := Ungroup(s + A2);
      if n % 0x1_0000 == 0 then Some(Ungroup3(n)[..1]) else None
    else if |s| == 3 then
      var n := Ungroup(s + A1);
      if n % 0x100 == 0 then Some(Ungroup3(n)[..2]) else None
    else
      match DecodeChars(s[4..])
      case None => None
      case Some(rest) => Some(Ungroup3(Ungroup(s[..4])) + rest)
  }

  lemma UngroupGroup(a: byte, b: byte, c: byte)
    ensures Ungroup3(Group(a, b, c)) == [a, b, c]
  {
    BytesOf(a as nat, b as nat, c as nat, Group(a, b, c));
  }

  lemma BytesOf(a: nat, b: nat, c: nat, n: nat)
    requires a < 0x100 && b < 0x100 && c < 0x100 && n == a * 0x1_0000 + b * 0x100 + c
    ensures n % 0x100 == c && n / 0x100 % 0x100 == b && n / 0x1_0000 == a
  {
    assert n / 0x100 == a * 0x100 + b;
    assert n / 0x1_0000 == n / 0x100 / 0x100;
  }

  /** Decoding undoes encoding on all byte strings. */
  lemma DecodeUrlEncode(bytes: seq<byte>)
    ensures UrlDecode(UrlEncode(bytes)) == Some(bytes)
  {
    DecodeEncoded(bytes);
  }

  lemma {:induction false} DecodeEncoded(bytes: seq<byte>)
    ensures DecodeChars(UrlEncode(bytes)) == Some(bytes)
  {
    hide UrlQuad, Ungroup, Ungroup3, IsUrlChar, Group;
    if |bytes| == 1 {
      LowSextets(bytes[0]);
      UngroupGroup(bytes[0], 0, 0);
      assert [bytes[0], 0, 0][..1] == bytes;
    } else if |bytes| == 2 {
      LowSextet(bytes[0], bytes[1]);
      UngroupGroup(bytes[0], bytes[1], 0);
      assert [bytes[0], bytes[1], 0][..2] == bytes;
    } else if |bytes| >= 3 {
      UngroupGroup(bytes[0], bytes[1], bytes[2]);
      DecodeEncoded(bytes[3..]);
      var q, e := UrlQuad(Group(bytes[0], bytes[1], bytes[2])), UrlEncode(bytes[3..]);
      assert (q + e)[..4] == q && (q + e)[4..] == e;
      assert [bytes[0], bytes[1], bytes[2]] + bytes[3..] == bytes;
    }
  }

  /** A short group's last sextets are zero, which the letter A stands for. */
  lemma LowSextet(a: byte, b: byte)
    ensures UrlQuad(Group(a, b, 0)) == UrlQuad(Group(a, b, 0))[..3] + A1
    ensures Group(a, b, 0) % 0x100 == 0
  {
    hide UrlQuad;
    LowBits(a as nat, b as nat);
    ZeroTail(Group(a, b, 0));
  }

  lemma LowSextets(a: byte)
    ensures UrlQuad(Group(a, 0, 0)) == UrlQuad(Group(a, 0, 0))[..2] + A2
    ensures Group(a, 0, 0) % 0x1_0000 == 0
  {
    hide UrlQuad;
    LowBits(a as nat, 0);
    ZeroTail(Group(a, 0, 0));
  }

  lemma ZeroTail(n: nat)
    requires n < 0x100_0000 && n % 64 == 0
    ensures UrlQuad(n) == UrlQuad(n)[..3] + A1
    ensures n / 64 % 64 == 0 ==> UrlQuad(n) == UrlQuad(n)[..2] + A2
  {
    var x, y := Sextet(n, 0), Sextet(n, 1);
    assert UrlChar(0) == 'A';
  }

  lemma LowBits(a: nat, b: nat)
    ensures (a * 0x1_0000 + b * 0x100) % 64 == 0 && (a * 0x1_0000 + b * 0x100) % 0x100 == 0
    ensures a * 0x1_0000 / 64 % 64 == 0 && a * 0x1_0000 % 0x1_0000 == 0
  {
    assert a * 0x1_0000 + b * 0x100 == 64 * (a * 0x400 + b * 4) == 0x100 * (a * 0x100 + b);
    assert a * 0x1_0000 / 64 == 64 * (a * 16);
  }

  lemma SextetsOf(x: nat, y: nat, z: nat, w: nat, n: nat)
    requires x < 64 && y < 64 && z < 64 && w < 64 && n == x * 0x4_0000 + y * 0x1000 + z * 64 + w
    ensures n < 0x100_0000
    ensures Sextet(n, 0) == x && Sextet(n, 1) == y && Sextet(n, 2) == z && Sextet(n, 3) == w
  {
    assert n / 64 == x * 0x1000 + y * 64 + z;
    assert n / 0x1000 == n / 64 / 64 == x * 64 + y;
    assert n / 0x4_0000 == n / 0x1000 / 64 == x;
  }

  lemma UrlCharValue(c: Char8)
    requires IsUrlChar(c)
    ensures UrlChar(UrlValue(c)) == c
  {
  }

  lemma QuadUngroup(q: Str)
    requires |q| == 4 && forall i :: 0 <= i < 4 ==> IsUrlChar(q[i])
    ensures UrlQuad(Ungroup(q)) == q
  {
    hide IsUrlChar, UrlValue, UrlChar, Sextet;
    SextetsOf(UrlValue(q[0]), UrlValue(q[1]), UrlValue(q[2]), UrlValue(q[3]), Ungroup(q));
    UrlCharValue(q[0]);
    UrlCharValue(q[1]);
    UrlCharValue(q[2]);
    UrlCharValue(q[3]);
  }

  lemma {:induction false} EncodeDecoded(s: Str)
    requires forall i :: 0 <= i < |s| ==> IsUrlChar(s[i])
    ensures DecodeChars(s).Some? ==> UrlEncode(DecodeChars(s).value) == s
  {
    hide UrlQuad, Ungroup, Ungroup3, Group;
    assert IsUrlChar('A');
    if |s| == 2 {
      QuadUngroup(s + A2);
      ShortGroup(Ungroup(s + A2));
    } else if |s| == 3 {
      QuadUngroup(s + A1);
      ShortGroup(Ungroup(s + A1));
    } else if |s| >= 4 {
      EncodeDecoded(s[4..]);
      QuadUngroup(s[..4]);
      assert s[..4] + s[4..] == s;
      if DecodeChars(s).Some? {
        var head, rest := Ungroup3(Ungroup(s[..4])), DecodeChars(s[4..]).value;
        assert (head + rest)[3..] == rest;
      }
    }
  }

  lemma ShortGroup(n: nat)
    requires n < 0x100_0000
    ensures n % 0x100 == 0 ==> Group(Ungroup3(n)[0], Ungroup3(n)[1], 0) == n
    ensures n % 0x1_0000 == 0 ==> Group(Ungroup3(n)[0], 0, 0) == n
  {
  }

  /**
   * Characters 4q to 4q + 3 of the encoding stand for the 24 bits of bytes 3q to 3q + 2, six each from the
   * top; missing bytes count as zero.
   */
  lemma EncodedAt(bytes: seq<byte>, q: nat, k: nat)
    requires k < 4 && 4 * q + k < |UrlEncode(bytes)|
    ensures
      var a, b, c := ByteAt(bytes, 3 * q), ByteAt(bytes, 3 * q + 1), ByteAt(bytes, 3 * q + 2);
      UrlValue(UrlEncode(bytes)[4 * q + k]) ==
        if k == 0 then a / 4
        else if k == 1 then a % 4 * 16 + b / 16
        else if k == 2 then b % 16 * 4 + c / 64
        else c % 64
  {
    hide UrlEncode, UrlQuad, UrlValue, IsUrlChar, Group;
    EncodedInQuad(bytes, q, k);
    QuadValues(ByteAt(bytes, 3 * q), ByteAt(bytes, 3 * q + 1), ByteAt(bytes, 3 * q + 2));
  }

  lemma {:induction false} EncodedInQuad(bytes: seq<byte>, q: nat, k: nat)
    requires k < 4 && 4 * q + k < |UrlEncode(bytes)|
    ensures UrlEncode(bytes)[4 * q + k] == UrlQuad(GroupAt(bytes, 3 * q))[k]
  {
    hide UrlQuad, Group, IsUrlChar;
    if q > 0 {
      EncodedInQuad(bytes[3..], q - 1, k);
      GroupLater(bytes, 3 * q - 3);
    }
  }

  function GroupAt(bytes: seq<byte>, i: nat): (n: nat)
    ensures n < 0x100_0000
  {
    Group(ByteAt(bytes, i) as byte, ByteAt(bytes, i + 1) as byte, ByteAt(bytes, i + 2) as byte)
  }

  lemma GroupLater(bytes: seq<byte>, i: nat)
    requires |bytes| >= 3
    ensures GroupAt(bytes[3..], i) == GroupAt(bytes, i + 3)
  {
    hide Group;
    assert ByteAt(bytes[3..], i) == ByteAt(bytes, i + 3);
    assert ByteAt(bytes[3..], i + 1) == ByteAt(bytes, i + 4);
    assert ByteAt(bytes[3..], i + 2) == ByteAt(bytes, i + 5);
  }

  function ByteAt(bytes: seq<byte>, i: nat): (b: nat)
    ensures b < 0x100
  {
    if i < |bytes| then bytes[i] as nat else 0
  }

  lemma QuadValues(a: nat, b: nat, c: nat)
    requires a < 0x100 && b < 0x100 && c < 0x100
    ensures
      var q := UrlQuad(Group(a as byte, b as byte, c as byte));
      && UrlValue(q[0]) == a / 4
      && UrlValue(q[1]) == a % 4 * 16 + b / 16
      && UrlValue(q[2]) == b % 16 * 4 + c / 64
      && UrlValue(q[3]) == c % 64
  {
    var n := Group(a as byte, b as byte, c as byte);
    SextetsOf(a / 4, a % 4 * 16 + b / 16, b % 16 * 4 + c / 64, c % 64, n);
    hide Sextet, UrlValue;
  }

  /** The decoder accepts exactly the encoder's outputs. */
  lemma DecodesIff(s: Str, bytes: seq<byte>)
    ensures UrlDecode(s) == Some(bytes) <==> s == UrlEncode(bytes)
  {
    DecodeUrlEncode(bytes);
    if UrlDecode(s).Some? {
      EncodeDecoded(s);
    }
  }

  const FOOBAR: Str := "Zm9vYmFy"

  /** The test vector "foobar" of RFC 4648 section 10. */
  lemma FoobarVector()
    ensures UrlEncode([102, 111, 111, 98, 97, 114]) == FOOBAR
  {
    var bytes: seq<byte>, tail: seq<byte>, none: seq<byte> := [102, 111, 111, 98, 97, 114], [98, 97, 114], [];
    QuadOf(25, 38, 61, 47, Group(102, 111, 111));
    QuadOf(24, 38, 5, 50, Group(98, 97, 114));
    hide UrlQuad, Group;
    assert bytes[3..] == tail && tail[3..] == none;
    assert UrlEncode(tail) == UrlQuad(Group(98, 97, 114)) + UrlEncode(none);
  }

  lemma QuadOf(x: nat, y: nat, z: nat, w: nat, n: nat)
    requires x < 64 && y < 64 && z < 64 && w < 64 && n == x * 0x4_0000 + y * 0x1000 + z * 64 + w
    ensures n < 0x100_0000 && UrlQuad(n) == [UrlChar(x), UrlChar(y), UrlChar(z), UrlChar(w)]
  {
    hide Sextet, UrlChar;
    SextetsOf(x, y, z, w, n);
  }

  // ---------------------------------------------------------------------------
  // The source's way: block-encode, swap two characters, strip the padding
  // ---------------------------------------------------------------------------

  function Swap(c: Char8): Char8 {
    if c == '+' then '-' else if c == '/' then '_' else c
  }

  function SwapAll(s: Str): (r: Str)
    ensures |r| == |s|
  {
    seq(|s|, i requires 0 <= i < |s| => Swap(s[i]))
  }

  function Padding(n: nat): Str {
    if n % 3 == 1 then PADS else if n % 3 == 2 then PAD else []
  }

  lemma SwapQuad(n: nat)
    requires n < 0x100_0000
    ensures SwapAll(StdQuad(n)) == UrlQuad(n)
  {
    hide Sextet;
  }

  lemma SwapConcat(a: Str, b: Str)
    ensures SwapAll(a + b) == SwapAll(a) + SwapAll(b)
  {
  }

  /** Swapping turns the padded standard form into the URL form followed by its padding. */
  lemma {:induction false} SwapEncodeBlock(bytes: seq<byte>)
    ensures SwapAll(EncodeBlock(bytes)) == UrlEncode(bytes) + Padding(|bytes|)
  {
    hide StdQuad, UrlQuad, Group, SwapAll, Padding;
    PaddingOf(|bytes|);
    if |bytes| == 0 {
      SwapNothing();
    } else if |bytes| == 1 {
      SwapShort(Group(bytes[0], 0, 0));
    } else if |bytes| == 2 {
      SwapShort(Group(bytes[0], bytes[1], 0));
    } else {
      var rest := bytes[3..];
      SwapEncodeBlock(rest);
      SwapGroup(Group(bytes[0], bytes[1], bytes[2]), EncodeBlock(rest), UrlEncode(rest), Padding(|rest|));
    }
  }

  lemma PaddingOf(n: nat)
    ensures n == 0 ==> Padding(n) == []
    ensures n == 1 ==> Padding(n) == PADS
    ensures n == 2 ==> Padding(n) == PAD
    ensures n >= 3 ==> Padding(n) == Padding(n - 3)
  {
  }

  lemma SwapGroup(n: nat, block: Str, url: Str, pad: Str)
    requires n < 0x100_0000 && SwapAll(block) == url + pad
    ensures SwapAll(StdQuad(n) + block) == UrlQuad(n) + url + pad
  {
    SwapQuad(n);
    SwapConcat(StdQuad(n), block);
  }

  lemma SwapNothing()
    ensures SwapAll([]) == []
  {
  }

  lemma SwapShort(n: nat)
    requires n < 0x100_0000
    ensures SwapAll(StdQuad(n)[..2] + PADS) == UrlQuad(n)[..2] + PADS
    ensures SwapAll(StdQuad(n)[..3] + PAD) == UrlQuad(n)[..3] + PAD
  {
    hide StdQuad, UrlQuad;
    SwapQuad(n);
    SwapConcat(StdQuad(n)[..2], PADS);
    SwapConcat(StdQuad(n)[..3], PAD);
    assert SwapAll(StdQuad(n)[..2]) == SwapAll(StdQuad(n))[..2];
    assert SwapAll(StdQuad(n)[..3]) == SwapAll(StdQuad(n))[..3];
    assert SwapAll(PAD) == PAD && SwapAll(PADS) == PADS;
  }

  const DIGEST_LENGTH := 32
  const BUFFER_LENGTH := 4 * ((DIGEST_LENGTH + 2) / 3)

  /** The pass over the characters. */
  method SwapPass(block: Str) returns (b64: Str)
    ensures b64 == SwapAll(block)
  {
    b64 := block;
    for i := 0 to |b64|
      invariant |b64| == |block|
      invariant forall j :: 0 <= j < i ==> b64[j] == Swap(block[j])
      invariant forall j :: i <= j < |b64| ==> b64[j] == block[j]
    {
      if b64[i] == '+' {
        b64 := b64[i := '-'];
      } else if b64[i] == '/' {
        b64 := b64[i := '_'];
      }
    }
  }

  /** The method of the source; its buffer is sized for a digest, which bounds what it may be given. */
  method Base64Encode(hash: seq<byte>) returns (b64: Str)
    requires 4 * ((|hash| + 2) / 3) <= BUFFER_LENGTH
    ensures b64 == UrlEncode(hash)
  {
    hide EncodeBlock, SwapAll, UrlEncode;
    b64 := SwapPass(EncodeBlock(hash));
    SwapEncodeBlock(hash);
    ghost var url, pad := UrlEncode(hash), Padding(|hash|);
    while b64 != [] && b64[|b64| - 1] == '='
      invariant |url| <= |b64| <= |url + pad| && b64 == (url + pad)[..|b64|]
      invariant |b64| > |url| ==> b64[|b64| - 1] == '='
    {
      b64 := b64[..|b64| - 1];
    }
  }

  /** The challenge of a digest has 43 characters, all unreserved, and the URI encoder leaves it alone. */
  lemma ChallengeIsPlain(digest: seq<byte>)
    requires |digest| == DIGEST_LENGTH
    ensures |UrlEncode(digest)| == 43
    ensures AllUnreserved(UrlEncode(digest))
    ensures Encode(UrlEncode(digest)) == UrlEncode(digest)
  {
    EncodeFixesIff(UrlEncode(digest));
  }
}
