/** The form bodies of the token requests and the query of the login URL, and reading them back. */
module FormBody {
  import opened Text
  import opened PercentEncoding
  import Base64Url
  import Bytes

  // ---------------------------------------------------------------------------
  // Reading: the application/x-www-form-urlencoded parser of the WHATWG URL Standard, section 5.1
  // ---------------------------------------------------------------------------

  datatype Field = Field(name: Str, value: Str)

  function PlusToSpace(s: Str): (r: Str)
    ensures |r| == |s|
  {
    seq(|s|, i requires 0 <= i < |s| => if s[i] == '+' then ' ' else s[i])
  }

  function FormDecode(s: Str): Str {
    Decode(PlusToSpace(s))
  }

  /** Position of the first `=`, or the length when there is none. */
  function FirstEquals(s: Str): (i: nat)
    ensures i <= |s|
  {
    if s == [] || s[0] == '=' then 0 else 1 + FirstEquals(s[1..])
  }

  function ParsePart(part: Str): Field {
    var i := FirstEquals(part);
    Field(FormDecode(part[..i]), FormDecode(if i < |part| then part[i + 1..] else []))
  }

  function ParseParts(parts: seq<Str>): seq<Field> {
    if parts == [] then []
    else
      var rest := ParseParts(parts[1..]);
      if parts[0] == [] then rest else [ParsePart(parts[0])] + rest
  }

  function ParseForm(s: Str): seq<Field> {
    ParseParts(Split(s, '&'))
  }

  // ---------------------------------------------------------------------------
  // Writing
  // ---------------------------------------------------------------------------

  const CLIENT_ID: Str := "client_id"
  const GRANT_TYPE: Str := "grant_type"
  const AUTHORIZATION_CODE: Str := "authorization_code"
  const CODE: Str := "code"
  const REDIRECT_URI: Str := "redirect_uri"
  const CODE_VERIFIER: Str := "code_verifier"
  const REFRESH_TOKEN: Str := "refresh_token"
  const RESPONSE_TYPE: Str := "response_type"
  const SCOPE: Str := "scope"
  const CHALLENGE_METHOD: Str := "code_challenge_method"
  const S256: Str := "S256"
  const CODE_CHALLENGE: Str := "code_challenge"
  const AND: Str := "&"
  const IS: Str := "="

  function TokenBody(clientId: Str, code: Str, redirectUri: Str, codeVerifier: Str): Str {
    CLIENT_ID + IS + Encode(clientId) +
    AND + GRANT_TYPE + IS + AUTHORIZATION_CODE +
    AND + CODE + IS + Encode(code) +
    AND + REDIRECT_URI + IS + Encode(redirectUri) +
    AND + CODE_VERIFIER + IS + Encode(codeVerifier)
  }

  function RefreshBody(refreshToken: Str, clientId: Str): Str {
    GRANT_TYPE + IS + REFRESH_TOKEN +
    AND + REFRESH_TOKEN + IS + Encode(refreshToken) +
    AND + CLIENT_ID + IS + Encode(clientId)
  }

  /** The login URL's query. The client id and the challenge go in as they are. */
  function AuthQuery(clientId: Str, scope: Str, codeChallenge: Str, redirectUri: Str): Str {
    RESPONSE_TYPE + IS + CODE +
    AND + CLIENT_ID + IS + clientId +
    AND + SCOPE + IS + Encode(scope) +
    AND + CHALLENGE_METHOD + IS + S256 +
    AND + CODE_CHALLENGE + IS + codeChallenge +
    AND + REDIRECT_URI + IS + Encode(redirectUri)
  }

  // ---------------------------------------------------------------------------
  // One part
  // ---------------------------------------------------------------------------

  lemma {:induction false} FirstEqualsAfter(name: Str, raw: Str)
    requires '=' !in name
    ensures FirstEquals(name + IS + raw) == |name|
  {
    if name != [] {
      FirstEqualsAfter(name[1..], raw);
      assert (name + IS + raw)[1..] == name[1..] + IS + raw;
    }
  }

  lemma {:induction false} EncodeHasNo(s: Str, c: Char8)
    requires !IsUnreserved(c) && c != '%'
    ensures c !in Encode(s)
  {
    if s != [] {
      EncodeHasNo(s[1..], c);
    }
  }

  lemma {:induction false} UnreservedDecodes(s: Str)
    requires AllUnreserved(s)
    ensures Decode(s) == s
  {
    if s != [] {
      UnreservedDecodes(s[1..]);
    }
  }

  lemma NoPlus(s: Str)
    requires '+' !in s
    ensures PlusToSpace(s) == s
  {
  }

  /** A part with a plain name and a raw value reads back as the name and the decoded value. */
  lemma ParseNamed(name: Str, raw: Str)
    requires AllUnreserved(name)
    ensures ParsePart(name + IS + raw) == Field(name, FormDecode(raw))
  {
    FirstEqualsAfter(name, raw);
    NoPlus(name);
    UnreservedDecodes(name);
    var part := name + IS + raw;
    assert part[..|name|] == name && part[|name| + 1..] == raw;
  }

  lemma EncodedValueReads(value: Str)
    ensures FormDecode(Encode(value)) == value
  {
    EncodeHasNo(value, '+');
    NoPlus(Encode(value));
    DecodeEncode(value);
  }

  // ---------------------------------------------------------------------------
  // Whole bodies
  // ---------------------------------------------------------------------------

  /** A field written with an encoded value. */
  function Written(f: Field): Str {
    f.name + IS + Encode(f.value)
  }

  function AllWritten(fields: seq<Field>): (parts: seq<Str>)
    ensures |parts| == |fields|
  {
    if fields == [] then [] else [Written(fields[0])] + AllWritten(fields[1..])
  }

  lemma {:induction false} ReadWritten(fields: seq<Field>)
    requires forall i :: 0 <= i < |fields| ==> AllUnreserved(fields[i].name)
    ensures ParseParts(AllWritten(fields)) == fields
    ensures forall i :: 0 <= i < |fields| ==> '&' !in AllWritten(fields)[i]
  {
    if fields != [] {
      var f := fields[0];
      ReadWritten(fields[1..]);
      ParseNamed(f.name, Encode(f.value));
      EncodedValueReads(f.value);
      EncodeHasNo(f.value, '&');
    }
  }

  /** Any fields with plain names, written and joined with `&`, read back in order. */
  lemma ReadJoined(fields: seq<Field>)
    requires fields != [] && forall i :: 0 <= i < |fields| ==> AllUnreserved(fields[i].name)
    ensures ParseForm(Join(AllWritten(fields), '&')) == fields
  {
    ReadWritten(fields);
    SplitJoin(AllWritten(fields), '&');
  }

  /** Adding `&name=value` to a body adds a part to what it joins. */
  lemma JoinNext(parts: seq<Str>, body: Str, name: Str, raw: Str)
    requires parts != [] && body == Join(parts, '&')
    ensures body + AND + name + IS + raw == Join(parts + [name + IS + raw], '&')
  {
    JoinSnoc(parts, name + IS + raw, '&');
    assert body + AND + name + IS + raw == body + AND + (name + IS + raw);
  }

  lemma {:induction false} AllWrittenSnoc(fields: seq<Field>, f: Field)
    ensures AllWritten(fields + [f]) == AllWritten(fields) + [Written(f)]
  {
    if fields == [] {
      assert fields + [f] == [f];
    } else {
      AllWrittenSnoc(fields[1..], f);
      assert (fields + [f])[1..] == fields[1..] + [f];
    }
  }

  lemma WrittenNext(fields: seq<Field>, body: Str, f: Field)
    requires fields != [] && body == Join(AllWritten(fields), '&')
    ensures body + AND + f.name + IS + Encode(f.value) == Join(AllWritten(fields + [f]), '&')
  {
    AllWrittenSnoc(fields, f);
    JoinNext(AllWritten(fields), body, f.name, Encode(f.value));
  }

  lemma LiteralsArePlain()
    ensures AllUnreserved(CLIENT_ID) && AllUnreserved(GRANT_TYPE) && AllUnreserved(AUTHORIZATION_CODE)
    ensures AllUnreserved(CODE) && AllUnreserved(REDIRECT_URI) && AllUnreserved(CODE_VERIFIER)
    ensures AllUnreserved(REFRESH_TOKEN) && AllUnreserved(RESPONSE_TYPE) && AllUnreserved(SCOPE)
    ensures AllUnreserved(CHALLENGE_METHOD) && AllUnreserved(S256) && AllUnreserved(CODE_CHALLENGE)
  {
    hide AllUnreserved;
    TokenLiteralsArePlain();
    LoginLiteralsArePlain();
  }

  lemma TokenLiteralsArePlain()
    ensures AllUnreserved(CLIENT_ID) && AllUnreserved(GRANT_TYPE) && AllUnreserved(AUTHORIZATION_CODE)
    ensures AllUnreserved(CODE) && AllUnreserved(REDIRECT_URI) && AllUnreserved(CODE_VERIFIER)
  {
  }

  lemma LoginLiteralsArePlain()
    ensures AllUnreserved(REFRESH_TOKEN) && AllUnreserved(RESPONSE_TYPE) && AllUnreserved(SCOPE)
    ensures AllUnreserved(CHALLENGE_METHOD) && AllUnreserved(S256) && AllUnreserved(CODE_CHALLENGE)
  {
  }

  lemma LiteralsEncodeToThemselves()
    ensures Encode(AUTHORIZATION_CODE) == AUTHORIZATION_CODE && Encode(REFRESH_TOKEN) == REFRESH_TOKEN
  {
    hide Encode, AllUnreserved;
    LiteralsArePlain();
    EncodeFixesIff(AUTHORIZATION_CODE);
    EncodeFixesIff(REFRESH_TOKEN);
  }

  ghost function TokenFields(clientId: Str, code: Str, redirectUri: Str, codeVerifier: Str): seq<Field> {
    [Field(CLIENT_ID, clientId)] + [Field(GRANT_TYPE, AUTHORIZATION_CODE)] + [Field(CODE, code)]
      + [Field(REDIRECT_URI, redirectUri)] + [Field(CODE_VERIFIER, codeVerifier)]
  }

  /** The token request's body reads back as its five fields, whatever bytes they hold. */
  lemma TokenBodyReads(clientId: Str, code: Str, redirectUri: Str, codeVerifier: Str)
    ensures ParseForm(TokenBody(clientId, code, redirectUri, codeVerifier)) ==
      [Field("client_id", clientId), Field("grant_type", "authorization_code"), Field("code", code),
       Field("redirect_uri", redirectUri), Field("code_verifier", codeVerifier)]
  {
    TokenFieldsAre(clientId, code, redirectUri, codeVerifier);
    TokenBodyParses(clientId, code, redirectUri, codeVerifier);
    hide ParseForm, TokenBody, TokenFields;
  }

  lemma TokenFieldsAre(clientId: Str, code: Str, redirectUri: Str, codeVerifier: Str)
    ensures TokenFields(clientId, code, redirectUri, codeVerifier) ==
      [Field("client_id", clientId), Field("grant_type", "authorization_code"), Field("code", code),
       Field("redirect_uri", redirectUri), Field("code_verifier", codeVerifier)]
  {
  }

  lemma TokenBodyParses(clientId: Str, code: Str, redirectUri: Str, codeVerifier: Str)
    ensures ParseForm(TokenBody(clientId, code, redirectUri, codeVerifier))
         == TokenFields(clientId, code, redirectUri, codeVerifier)
  {
    hide Encode, AllUnreserved, AllWritten, ParseForm;
    LiteralsArePlain();
    LiteralsEncodeToThemselves();
    var f1 := [Field(CLIENT_ID, clientId)];
    var b1 := CLIENT_ID + IS + Encode(clientId);
    OneField(f1[0]);
    WrittenNext(f1, b1, Field(GRANT_TYPE, AUTHORIZATION_CODE));
    var f2 := f1 + [Field(GRANT_TYPE, AUTHORIZATION_CODE)];
    var b2 := b1 + AND + GRANT_TYPE + IS + AUTHORIZATION_CODE;
    WrittenNext(f2, b2, Field(CODE, code));
    var f3 := f2 + [Field(CODE, code)];
    var b3 := b2 + AND + CODE + IS + Encode(code);
    WrittenNext(f3, b3, Field(REDIRECT_URI, redirectUri));
    var f4 := f3 + [Field(REDIRECT_URI, redirectUri)];
    var b4 := b3 + AND + REDIRECT_URI + IS + Encode(redirectUri);
    WrittenNext(f4, b4, Field(CODE_VERIFIER, codeVerifier));
    ReadJoined(f4 + [Field(CODE_VERIFIER, codeVerifier)]);
  }

  lemma OneField(f: Field)
    ensures Join(AllWritten([f]), '&') == f.name + IS + Encode(f.value)
  {
  }

  ghost function RefreshFields(refreshToken: Str, clientId: Str): seq<Field> {
    [Field(GRANT_TYPE, REFRESH_TOKEN)] + [Field(REFRESH_TOKEN, refreshToken)] + [Field(CLIENT_ID, clientId)]
  }

  /** The refresh request's body reads back as its three fields, whatever bytes they hold. */
  lemma RefreshBodyReads(refreshToken: Str, clientId: Str)
    ensures ParseForm(RefreshBody(refreshToken, clientId)) ==
      [Field("grant_type", "refresh_token"), Field("refresh_token", refreshToken), Field("client_id", clientId)]
  {
    RefreshFieldsAre(refreshToken, clientId);
    RefreshBodyParses(refreshToken, clientId);
    hide ParseForm, RefreshBody, RefreshFields;
  }

  lemma RefreshFieldsAre(refreshToken: Str, clientId: Str)
    ensures RefreshFields(refreshToken, clientId) ==
      [Field("grant_type", "refresh_token"), Field("refresh_token", refreshToken), Field("client_id", clientId)]
  {
  }

  lemma RefreshBodyParses(refreshToken: Str, clientId: Str)
    ensures ParseForm(RefreshBody(refreshToken, clientId)) == RefreshFields(refreshToken, clientId)
  {
    hide Encode, AllUnreserved, AllWritten, ParseForm;
    LiteralsArePlain();
    LiteralsEncodeToThemselves();
    var f1 := [Field(GRANT_TYPE, REFRESH_TOKEN)];
    var b1 := GRANT_TYPE + IS + REFRESH_TOKEN;
    OneField(f1[0]);
    WrittenNext(f1, b1, Field(REFRESH_TOKEN, refreshToken));
    var f2 := f1 + [Field(REFRESH_TOKEN, refreshToken)];
    var b2 := b1 + AND + REFRESH_TOKEN + IS + Encode(refreshToken);
    WrittenNext(f2, b2, Field(CLIENT_ID, clientId));
    ReadJoined(f2 + [Field(CLIENT_ID, clientId)]);
  }

  // ---------------------------------------------------------------------------
  // The scope list
  // ---------------------------------------------------------------------------

  method ScopesToString(scopes: seq<Str>) returns (result: Str)
    ensures result == Join(scopes, ' ')
  {
    result := [];
    for i := 0 to |scopes|
      invariant result == Join(scopes[..i], ' ')
    {
      assert scopes[..i + 1] == scopes[..i] + [scopes[i]];
      if i != 0 {
        JoinSnoc(scopes[..i], scopes[i], ' ');
        result := result + [' '];
      }
      result := result + scopes[i];
    }
    assert scopes[..|scopes|] == scopes;
  }

  /** The list can be read off the string exactly when no scope holds a space. */
  lemma ScopesReadIff(scopes: seq<Str>)
    requires scopes != []
    ensures Split(Join(scopes, ' '), ' ') == scopes <==> forall i :: 0 <= i < |scopes| ==> ' ' !in scopes[i]
  {
    NoSeparatorInside(Join(scopes, ' '), ' ');
    if forall i :: 0 <= i < |scopes| ==> ' ' !in scopes[i] {
      SplitJoin(scopes, ' ');
    }
  }

  // ---------------------------------------------------------------------------
  // The login query
  // ---------------------------------------------------------------------------

  /** No `&`, no `+` and no `%` followed by two hex digits. */
  predicate QuerySafe(s: Str) {
    && '&' !in s && '+' !in s
    && forall i :: 0 <= i < |s| ==> !StartsTriplet(s[i..])
  }

  lemma {:induction false} DecodeFixesIff(s: Str)
    ensures Decode(s) == s <==> forall i :: 0 <= i < |s| ==> !StartsTriplet(s[i..])
  {
    if s != [] {
      assert s[0..] == s;
      if StartsTriplet(s) {
        assert |Decode(s)| < |s|;
      } else {
        DecodeFixesIff(s[1..]);
        assert Decode(s)[1..] == Decode(s[1..]);
        assert forall i :: 0 <= i < |s[1..]| ==> s[1..][i..] == s[i + 1..];
        assert forall i :: 0 < i < |s| ==> s[i..] == s[1..][i - 1..];
      }
    }
  }

  lemma FormDecodeFixesIff(s: Str)
    ensures FormDecode(s) == s <==> '+' !in s && forall i :: 0 <= i < |s| ==> !StartsTriplet(s[i..])
  {
    var p := PlusToSpace(s);
    forall i | 0 <= i < |s|
      ensures StartsTriplet(p[i..]) <==> StartsTriplet(s[i..])
    {
    }
    DecodeFixesIff(p);
    if FormDecode(s) == s && Decode(p) != p {
      var i :| 0 <= i < |s| && StartsTriplet(p[i..]);
      DecodeShrinks(p, i);
    }
    if '+' in s {
      var i :| 0 <= i < |s| && s[i] == '+';
      assert p[i] == ' ';
    } else {
      NoPlus(s);
    }
  }

  lemma {:induction false} DecodeShrinks(s: Str, i: nat)
    requires i < |s| && StartsTriplet(s[i..])
    ensures |Decode(s)| < |s|
  {
    if !StartsTriplet(s) {
      assert s[0..] == s;
      assert s[1..][i - 1..] == s[i..];
      DecodeShrinks(s[1..], i - 1);
    }
  }

  lemma {:induction false} ParsePartsConcat(a: seq<Str>, b: seq<Str>)
    ensures ParseParts(a + b) == ParseParts(a) + ParseParts(b)
  {
    hide ParsePart;
    if a == [] {
      assert a + b == b;
    } else {
      ParsePartsConcat(a[1..], b);
      assert (a + b)[1..] == a[1..] + b;
    }
  }

  /** A raw value read back on its own gives the one field exactly when it is query-safe. */
  lemma RawValueReadsIff(name: Str, raw: Str)
    requires AllUnreserved(name)
    ensures ParseForm(name + IS + raw) == [Field(name, raw)] <==> QuerySafe(raw)
  {
    var pieces := Split(raw, '&');
    var first := name + IS + pieces[0];
    SplitPrefix(name + IS, raw, '&');
    ParsePartsConcat([first], pieces[1..]);
    ParseNamed(name, pieces[0]);
    assert ParseParts([first]) == [Field(name, FormDecode(pieces[0]))];
    FirstPieceShorter(raw, '&');
    FormDecodeFixesIff(raw);
    if '&' !in raw {
      SplitWhole(raw, '&');
    } else {
      assert |FormDecode(pieces[0])| < |raw|;
    }
  }

  ghost function AuthFields(clientId: Str, scope: Str, codeChallenge: Str, redirectUri: Str): seq<Field> {
    [Field(RESPONSE_TYPE, CODE)] + [Field(CLIENT_ID, clientId)] + AuthTail(scope, codeChallenge, redirectUri)
  }

  ghost function AuthTail(scope: Str, codeChallenge: Str, redirectUri: Str): seq<Field> {
    [Field(SCOPE, scope)] + [Field(CHALLENGE_METHOD, S256)] + [Field(CODE_CHALLENGE, codeChallenge)]
      + [Field(REDIRECT_URI, redirectUri)]
  }

  /** The six fields of the login query, in its order. */
  lemma AuthFieldsAre(clientId: Str, scope: Str, codeChallenge: Str, redirectUri: Str)
    ensures AuthFields(clientId, scope, codeChallenge, redirectUri) ==
      [Field("response_type", "code"), Field("client_id", clientId), Field("scope", scope),
       Field("code_challenge_method", "S256"), Field("code_challenge", codeChallenge),
       Field("redirect_uri", redirectUri)]
  {
  }

  function AuthTailText(scope: Str, codeChallenge: Str, redirectUri: Str): Str {
    SCOPE + IS + Encode(scope) +
    AND + CHALLENGE_METHOD + IS + S256 +
    AND + CODE_CHALLENGE + IS + codeChallenge +
    AND + REDIRECT_URI + IS + Encode(redirectUri)
  }

  lemma AuthTailReads(scope: Str, codeChallenge: Str, redirectUri: Str)
    requires AllUnreserved(codeChallenge)
    ensures ParseForm(AuthTailText(scope, codeChallenge, redirectUri)) == AuthTail(scope, codeChallenge, redirectUri)
  {
    hide Encode, AllUnreserved, AllWritten, ParseForm;
    LiteralsArePlain();
    EncodeFixesIff(S256);
    EncodeFixesIff(codeChallenge);
    var f1 := [Field(SCOPE, scope)];
    var b1 := SCOPE + IS + Encode(scope);
    OneField(f1[0]);
    WrittenNext(f1, b1, Field(CHALLENGE_METHOD, S256));
    var f2 := f1 + [Field(CHALLENGE_METHOD, S256)];
    var b2 := b1 + AND + CHALLENGE_METHOD + IS + S256;
    WrittenNext(f2, b2, Field(CODE_CHALLENGE, codeChallenge));
    var f3 := f2 + [Field(CODE_CHALLENGE, codeChallenge)];
    var b3 := b2 + AND + CODE_CHALLENGE + IS + codeChallenge;
    WrittenNext(f3, b3, Field(REDIRECT_URI, redirectUri));
    ReadJoined(f3 + [Field(REDIRECT_URI, redirectUri)]);
  }

  lemma ParseFormConcat(a: Str, b: Str)
    ensures ParseForm(a + AND + b) == ParseForm(a) + ParseForm(b)
  {
    SplitConcat(a, '&', b);
    ParsePartsConcat(Split(a, '&'), Split(b, '&'));
  }

  lemma AppendNext(x: Str, t: Str, name: Str, raw: Str)
    ensures x + (t + AND + name + IS + raw) == x + t + AND + name + IS + raw
  {
  }

  lemma AuthQueryPieces(clientId: Str, scope: Str, codeChallenge: Str, redirectUri: Str)
    ensures AuthQuery(clientId, scope, codeChallenge, redirectUri)
         == (RESPONSE_TYPE + IS + CODE + AND + (CLIENT_ID + IS + clientId)) + AND
            + AuthTailText(scope, codeChallenge, redirectUri)
  {
    hide Encode;
    var x := RESPONSE_TYPE + IS + CODE + AND + (CLIENT_ID + IS + clientId) + AND;
    assert x == RESPONSE_TYPE + IS + CODE + AND + CLIENT_ID + IS + clientId + AND;
    var t1 := SCOPE + IS + Encode(scope);
    assert x + t1 == x + SCOPE + IS + Encode(scope);
    AppendNext(x, t1, CHALLENGE_METHOD, S256);
    var t2 := t1 + AND + CHALLENGE_METHOD + IS + S256;
    AppendNext(x, t2, CODE_CHALLENGE, codeChallenge);
    var t3 := t2 + AND + CODE_CHALLENGE + IS + codeChallenge;
    AppendNext(x, t3, REDIRECT_URI, Encode(redirectUri));
  }

  /**
   * The login query reads back as its six fields exactly when the client id, which is not encoded,
   * is query-safe; the scopes and the redirect address may hold any bytes.
   */
  lemma AuthQueryReadsIff(clientId: Str, scope: Str, codeChallenge: Str, redirectUri: Str)
    requires AllUnreserved(codeChallenge)
    ensures QuerySafe(clientId) <==>
      ParseForm(AuthQuery(clientId, scope, codeChallenge, redirectUri)) ==
        [Field("response_type", "code"), Field("client_id", clientId), Field("scope", scope),
         Field("code_challenge_method", "S256"), Field("code_challenge", codeChallenge),
         Field("redirect_uri", redirectUri)]
  {
    AuthFieldsAre(clientId, scope, codeChallenge, redirectUri);
    AuthQueryParsesIff(clientId, scope, codeChallenge, redirectUri);
    hide QuerySafe, ParseForm, AuthQuery, AuthFields;
  }

  lemma AuthQueryParsesIff(clientId: Str, scope: Str, codeChallenge: Str, redirectUri: Str)
    requires AllUnreserved(codeChallenge)
    ensures QuerySafe(clientId) <==>
      ParseForm(AuthQuery(clientId, scope, codeChallenge, redirectUri))
        == AuthFields(clientId, scope, codeChallenge, redirectUri)
  {
    hide Encode, AllUnreserved, ParseForm, QuerySafe, AuthTail, AuthTailText, AuthQuery;
    LiteralsArePlain();
    var head, mid := RESPONSE_TYPE + IS + CODE, CLIENT_ID + IS + clientId;
    var tail := AuthTailText(scope, codeChallenge, redirectUri);
    AuthQueryPieces(clientId, scope, codeChallenge, redirectUri);
    ParseFormConcat(head + AND + mid, tail);
    ParseFormConcat(head, mid);
    HeadReads();
    RawValueReadsIff(CLIENT_ID, clientId);
    AuthTailReads(scope, codeChallenge, redirectUri);
    Cancel([Field(RESPONSE_TYPE, CODE)], ParseForm(mid), [Field(CLIENT_ID, clientId)], ParseForm(tail));
  }

  /** The URL a login opens: the scopes, and the challenge of a 32-byte digest, always read back. */
  lemma LoginReadsIff(clientId: Str, scopes: seq<Str>, digest: seq<Bytes.byte>, redirectUri: Str)
    requires |digest| == Base64Url.DIGEST_LENGTH
    ensures QuerySafe(clientId) <==>
      ParseForm(AuthQuery(clientId, Join(scopes, ' '), Base64Url.UrlEncode(digest), redirectUri))
        == AuthFields(clientId, Join(scopes, ' '), Base64Url.UrlEncode(digest), redirectUri)
  {
    Base64Url.ChallengeIsPlain(digest);
    hide QuerySafe, ParseForm, AuthQuery, AuthFields, AllUnreserved;
    AuthQueryParsesIff(clientId, Join(scopes, ' '), Base64Url.UrlEncode(digest), redirectUri);
  }

  const A_AND_B: Str := "a&b"

  /** With the client id `a&b` no login query reads back. */
  lemma AmpersandMisreads(scopes: seq<Str>, digest: seq<Bytes.byte>, redirectUri: Str)
    requires |digest| == Base64Url.DIGEST_LENGTH
    ensures ParseForm(AuthQuery(A_AND_B, Join(scopes, ' '), Base64Url.UrlEncode(digest), redirectUri))
         != AuthFields(A_AND_B, Join(scopes, ' '), Base64Url.UrlEncode(digest), redirectUri)
  {
    assert A_AND_B[1] == '&';
    assert !QuerySafe(A_AND_B);
    hide QuerySafe, ParseForm, AuthQuery, AuthFields;
    LoginReadsIff(A_AND_B, scopes, digest, redirectUri);
  }

  lemma HeadReads()
    ensures ParseForm(RESPONSE_TYPE + IS + CODE) == [Field(RESPONSE_TYPE, CODE)]
  {
    hide AllUnreserved;
    LiteralsArePlain();
    RawValueReadsIff(RESPONSE_TYPE, CODE);
  }

  lemma Cancel<T>(a: seq<T>, x: seq<T>, y: seq<T>, b: seq<T>)
    ensures a + x + b == a + y + b <==> x == y
  {
    if a + x + b == a + y + b {
      assert |x| == |y|;
      assert x == (a + x + b)[|a|..|a| + |x|];
      assert y == (a + y + b)[|a|..|a| + |y|];
    }
  }
}
