/** The access token's life: load or log in, refresh, and the timer that keeps refreshing. */
module TokenLifecycle {
  import opened Durations
  import opened Wrappers

  /** Times are nanoseconds since the epoch; `expiresIn` is in seconds. */
  datatype TokenCache = TokenCache(accessToken: string, refreshToken: string, expiresIn: int, acquired: int)

  /** What the cache file holds: the acquire time in whole seconds. */
  datatype SavedToken = SavedToken(accessToken: string, refreshToken: string, expiresIn: int, acquiredSeconds: int)

  datatype Response = Response(accessToken: string, expiresIn: int, refreshToken: Option<string>)

  function Save(c: TokenCache): SavedToken {
    SavedToken(c.accessToken, c.refreshToken, c.expiresIn, TruncDiv(c.acquired, NANOS_PER_SECOND))
  }

  function Load(f: SavedToken): TokenCache {
    TokenCache(f.accessToken, f.refreshToken, f.expiresIn, f.acquiredSeconds * NANOS_PER_SECOND)
  }

  function Expiry(c: TokenCache): int {
    c.acquired + c.expiresIn * NANOS_PER_SECOND
  }

  /** The expiry check of the login. */
  predicate Accepted(c: TokenCache, now: int) {
    now - c.acquired < c.expiresIn * NANOS_PER_SECOND
  }

  // ---------------------------------------------------------------------------
  // Save, then load
  // ---------------------------------------------------------------------------

  /** Loading and saving again changes nothing. */
  lemma SaveLoad(f: SavedToken)
    ensures Save(Load(f)) == f
  {
    var s := f.acquiredSeconds;
    if s < 0 {
      assert -(s * NANOS_PER_SECOND) / NANOS_PER_SECOND == -s;
    }
  }

  /** A reload keeps the tokens and moves an acquire time after the epoch back by less than a second. */
  lemma LoadSave(c: TokenCache)
    ensures var r := Load(Save(c));
            && r == c.(acquired := r.acquired)
            && (c.acquired >= 0 ==> r.acquired <= c.acquired < r.acquired + NANOS_PER_SECOND)
            && (c.acquired < 0 ==> r.acquired - NANOS_PER_SECOND < c.acquired <= r.acquired)
            && (r.acquired == c.acquired <==> c.acquired % NANOS_PER_SECOND == 0)
  {
  }

  /**
   * A reloaded token is never accepted past its real expiry exactly when the acquire time is not
   * before the epoch, or is a whole second.
   */
  lemma ReloadNeverLateIff(c: TokenCache)
    ensures (forall now :: Accepted(Load(Save(c)), now) ==> Accepted(c, now))
            <==> c.acquired >= 0 || c.acquired % NANOS_PER_SECOND == 0
  {
    LoadSave(c);
    var r := Load(Save(c));
    if r.acquired > c.acquired {
      assert Accepted(r, Expiry(c)) && !Accepted(c, Expiry(c));
    }
  }

  /** Acquired a nanosecond before the epoch for an hour: reloaded, it is accepted at its real expiry. */
  lemma ReloadCanBeLate()
    ensures var c := TokenCache("access", "refresh", 3600, -1);
            Accepted(Load(Save(c)), Expiry(c)) && !Accepted(c, Expiry(c))
  {
  }

  // ---------------------------------------------------------------------------
  // Refreshing
  // ---------------------------------------------------------------------------

  datatype State = State(accessToken: string, refreshToken: string, expiresIn: int,
                         cache: Option<TokenCache>, file: Option<SavedToken>)

  /** One attempt: the server's answer if it succeeded, the time then, and whether the file can be written. */
  datatype Attempt = Attempt(response: Option<Response>, now: int, writable: bool)

  function Store(s: State, c: TokenCache, writable: bool): State {
    State(c.accessToken, c.refreshToken, c.expiresIn, Some(c), if writable then Some(Save(c)) else s.file)
  }

  function Refreshed(s: State, r: Response, now: int): TokenCache {
    TokenCache(r.accessToken, if r.refreshToken.Some? then r.refreshToken.value else s.refreshToken, r.expiresIn, now)
  }

  function Refresh(s: State, a: Attempt): State {
    match a.response
    case None => s
    case Some(r) => Store(s, Refreshed(s, r, a.now), a.writable)
  }

  function RefreshAll(s: State, attempts: seq<Attempt>): State {
    if attempts == [] then s
    else Refresh(RefreshAll(s, attempts[..|attempts| - 1]), attempts[|attempts| - 1])
  }

  /** Login with a cache file present. */
  function LoginLoaded(s: State, now: int, a: Attempt): State
    requires s.file.Some?
  {
    var c := Load(s.file.value);
    if Accepted(c, now) then State(c.accessToken, c.refreshToken, c.expiresIn, Some(c), s.file)
    else Refresh(s.(refreshToken := c.refreshToken, cache := Some(c)), a)
  }

  /** Login through the browser. The cache it builds is a local variable: only the file gets it. */
  function LoginFresh(s: State, r: Response, now: int, writable: bool): State
    requires r.refreshToken.Some?
  {
    var c := Refreshed(s, r, now);
    Store(s, c, writable).(cache := None)
  }

  /** `browser` is the answer to the code exchange when there is no cache file; none means a failed login. */
  function LoginResult(s: State, now: int, a: Attempt, browser: Option<Response>): Option<State>
    requires browser.Some? ==> browser.value.refreshToken.Some?
  {
    if s.file.Some? then Some(LoginLoaded(s, now, a))
    else if browser.Some? then Some(LoginFresh(s, browser.value, a.now, a.writable))
    else None
  }

  class SpotifyAuthPKCE {
    var accessToken: string
    var refreshToken: string
    var expiresIn: int
    var cache: Option<TokenCache>
    var file: Option<SavedToken>

    function Abs(): State
      reads this
    {
      State(accessToken, refreshToken, expiresIn, cache, file)
    }

    /** A writable file gets the three fields and the acquire time in whole seconds, cut toward zero. */
    method SaveTokenCache(c: TokenCache, writable: bool)
      modifies this`file
      ensures file == if writable then Some(Save(c)) else old(file)
      ensures writable ==>
        && file.Some?
        && file.value.accessToken == c.accessToken
        && file.value.refreshToken == c.refreshToken
        && file.value.expiresIn == c.expiresIn
        && (c.acquired >= 0 ==> file.value.acquiredSeconds == c.acquired / 1_000_000_000)
        && (c.acquired < 0 ==> file.value.acquiredSeconds == -(-c.acquired / 1_000_000_000))
    {
      if writable {
        file := Some(Save(c));
      }
    }

    /** A failure changes nothing; a success sets the fields, the cache and a writable file. */
    method RefreshAccessToken(a: Attempt)
      modifies this
      ensures Abs() == Refresh(old(Abs()), a)
      ensures a.response.None? ==> Abs() == old(Abs())
      ensures a.response.Some? ==>
        var r := a.response.value;
        && accessToken == r.accessToken && expiresIn == r.expiresIn
        && refreshToken == (if r.refreshToken.Some? then r.refreshToken.value else old(refreshToken))
        && cache == Some(TokenCache(accessToken, refreshToken, expiresIn, a.now))
        && (!a.writable ==> file == old(file))
        && (a.writable && a.now >= 0 ==>
            file == Some(SavedToken(accessToken, refreshToken, expiresIn, a.now / 1_000_000_000)))
    {
      if a.response.Some? {
        var r := a.response.value;
        accessToken := r.accessToken;
        expiresIn := r.expiresIn;
        if r.refreshToken.Some? {
          refreshToken := r.refreshToken.value;
        }
        var c := TokenCache(accessToken, refreshToken, expiresIn, a.now);
        cache := Some(c);
        SaveTokenCache(c, a.writable);
      }
    }

    method Login(now: int, a: Attempt, browser: Option<Response>) returns (ok: bool)
      requires browser.Some? ==> browser.value.refreshToken.Some?
      modifies this
      ensures old(file).None? && browser.None? ==> !ok && Abs() == old(Abs()).(cache := None)
      ensures old(file).None? && browser.Some? ==>
        && ok && cache.None?
        && accessToken == browser.value.accessToken
        && Some(refreshToken) == browser.value.refreshToken
        && expiresIn == browser.value.expiresIn
        && (!a.writable ==> file.None?)
        && (a.writable && a.now >= 0 ==>
            file == Some(SavedToken(accessToken, refreshToken, expiresIn, a.now / 1_000_000_000)))
      ensures old(file).Some? ==>
        var f := old(file).value;
        var loaded := TokenCache(f.accessToken, f.refreshToken, f.expiresIn, f.acquiredSeconds * 1_000_000_000);
        && ok
        && if now - loaded.acquired < f.expiresIn * 1_000_000_000 then
          && accessToken == f.accessToken && refreshToken == f.refreshToken && expiresIn == f.expiresIn
          && cache == Some(loaded) && file == old(file)
        else if a.response.None? then
          && accessToken == old(accessToken) && refreshToken == f.refreshToken && expiresIn == old(expiresIn)
          && cache == Some(loaded) && file == old(file)
        else
          var r := a.response.value;
          && accessToken == r.accessToken && expiresIn == r.expiresIn
          && refreshToken == (if r.refreshToken.Some? then r.refreshToken.value else f.refreshToken)
          && cache == Some(TokenCache(accessToken, refreshToken, expiresIn, a.now))
          && (!a.writable ==> file == old(file))
          && (a.writable && a.now >= 0 ==>
              file == Some(SavedToken(accessToken, refreshToken, expiresIn, a.now / 1_000_000_000)))
      ensures ok <==> LoginResult(old(Abs()), now, a, browser).Some?
      ensures Abs() == if ok then LoginResult(old(Abs()), now, a, browser).value else old(Abs()).(cache := None)
    {
      cache := if file.Some? then Some(Load(file.value)) else None;
      if cache.Some? {
        if Accepted(cache.value, now) {
          accessToken := cache.value.accessToken;
          refreshToken := cache.value.refreshToken;
          expiresIn := cache.value.expiresIn;
        } else {
          refreshToken := cache.value.refreshToken;
          RefreshAccessToken(a);
        }
        return true;
      }
      if browser.None? {
        return false;
      }
      accessToken := browser.value.accessToken;
      refreshToken := browser.value.refreshToken.value;
      expiresIn := browser.value.expiresIn;
      var local := TokenCache(accessToken, refreshToken, expiresIn, a.now);
      SaveTokenCache(local, a.writable);
      return true;
    }

    /**
     * The timer until its wait is cancelled, after as many refreshes as there are attempts. Every round
     * first reads the cache, which throws when it is empty, and sets the timer; `targets` are the times set.
     */
    method StartRefreshTimer(attempts: seq<Attempt>) returns (threw: bool, targets: seq<int>)
      modifies this
      ensures threw <==> old(cache).None?
      ensures threw ==> Abs() == old(Abs()) && targets == []
      ensures !threw ==> Abs() == RefreshAll(old(Abs()), attempts) && |targets| == |attempts| + 1
      ensures !threw ==> forall i :: 0 <= i <= |attempts| ==>
        var at := RefreshAll(old(Abs()), attempts[..i]);
        && at.cache.Some?
        && targets[i] == at.cache.value.acquired + at.cache.value.expiresIn * 1_000_000_000
    {
      if cache.None? {
        return true, [];
      }
      targets := [Expiry(cache.value)];
      for i := 0 to |attempts|
        invariant |targets| == i + 1
        invariant Abs() == RefreshAll(old(Abs()), attempts[..i])
        invariant cache.Some?
        invariant forall j :: 0 <= j <= i ==>
          var at := RefreshAll(old(Abs()), attempts[..j]);
          && at.cache.Some?
          && targets[j] == at.cache.value.acquired + at.cache.value.expiresIn * 1_000_000_000
      {
        assert attempts[..i + 1][..i] == attempts[..i];
        RefreshAccessToken(attempts[i]);
        targets := targets + [Expiry(cache.value)];
      }
      assert attempts[..|attempts|] == attempts;
      threw := false;
    }
  }

  // ---------------------------------------------------------------------------
  // Runs
  // ---------------------------------------------------------------------------

  /** The newest refresh token received, starting from `initial`. */
  ghost function Newest(initial: string, attempts: seq<Attempt>): string {
    if attempts == [] then initial
    else
      var last := attempts[|attempts| - 1].response;
      if last.Some? && last.value.refreshToken.Some? then last.value.refreshToken.value
      else Newest(initial, attempts[..|attempts| - 1])
  }

  ghost predicate SomeSuccess(attempts: seq<Attempt>) {
    exists i :: 0 <= i < |attempts| && attempts[i].response.Some?
  }

  /** The cache after some attempts, read off the newest successful one; `initial` before any. */
  ghost function NewestCache(initial: TokenCache, attempts: seq<Attempt>): TokenCache {
    if attempts == [] then initial
    else
      var last := attempts[|attempts| - 1];
      if last.response.Some? then
        TokenCache(last.response.value.accessToken, Newest(initial.refreshToken, attempts),
                   last.response.value.expiresIn, last.now)
      else NewestCache(initial, attempts[..|attempts| - 1])
  }

  /** The fields say what the cache says. */
  ghost predicate FieldsAgree(s: State) {
    && s.cache.Some?
    && s.accessToken == s.cache.value.accessToken
    && s.refreshToken == s.cache.value.refreshToken
    && s.expiresIn == s.cache.value.expiresIn
  }

  /** The file says what the cache says. */
  ghost predicate FileAgrees(s: State) {
    s.cache.Some? && s.file == Some(Save(s.cache.value))
  }

  /** From a state whose refresh token is cached, any attempts keep a cache and the newest refresh token. */
  lemma {:induction false} RefreshesKeepNewest(s: State, attempts: seq<Attempt>)
    requires s.cache.Some? && s.refreshToken == s.cache.value.refreshToken
    ensures var e := RefreshAll(s, attempts);
            && e.cache == Some(NewestCache(s.cache.value, attempts))
            && e.refreshToken == e.cache.value.refreshToken == Newest(s.refreshToken, attempts)
            && (FieldsAgree(s) || SomeSuccess(attempts) ==> FieldsAgree(e))
            && (FileAgrees(s) && (forall i :: 0 <= i < |attempts| ==> attempts[i].writable) ==> FileAgrees(e))
  {
    if attempts != [] {
      var n := |attempts| - 1;
      RefreshesKeepNewest(s, attempts[..n]);
      if SomeSuccess(attempts) && attempts[n].response.None? {
        var i :| 0 <= i < |attempts| && attempts[i].response.Some?;
        assert attempts[..n][i].response.Some?;
      }
    }
  }

  /** Right after a successful attempt everything agrees, the file too if it could be written. */
  lemma SuccessAgrees(s: State, a: Attempt)
    requires a.response.Some?
    ensures FieldsAgree(Refresh(s, a)) && (a.writable ==> FileAgrees(Refresh(s, a)))
    ensures Refresh(s, a).cache.value.acquired == a.now
  {
  }

  /** The attempts a loaded login and its timer make: the login itself refreshes only an expired token. */
  ghost function Attempts(f: SavedToken, now: int, a: Attempt, rounds: seq<Attempt>): seq<Attempt> {
    (if Accepted(Load(f), now) then [] else [a]) + rounds
  }

  lemma {:induction false} RefreshAllPrepend(s: State, a: Attempt, rounds: seq<Attempt>)
    ensures RefreshAll(s, [a] + rounds) == RefreshAll(Refresh(s, a), rounds)
  {
    if rounds == [] {
      assert [a] + rounds == [a] && [a][..0] == [];
    } else {
      var n := |rounds| - 1;
      assert ([a] + rounds)[..n + 1] == [a] + rounds[..n];
      RefreshAllPrepend(s, a, rounds[..n]);
    }
  }

  /**
   * Over every run that starts from a loaded cache the cache is never empty and holds the newest
   * success, the refresh token held and cached is the newest one received, the fields agree with the
   * cache once the token was still good or one attempt succeeded, and the file agrees as long as it can
   * be written.
   */
  lemma LoadedRun(s: State, now: int, a: Attempt, rounds: seq<Attempt>)
    requires s.file.Some?
    ensures var attempts := Attempts(s.file.value, now, a, rounds);
            var e := RefreshAll(LoginLoaded(s, now, a), rounds);
            && e.cache == Some(NewestCache(Load(s.file.value), attempts))
            && e.refreshToken == e.cache.value.refreshToken == Newest(s.file.value.refreshToken, attempts)
            && (Accepted(Load(s.file.value), now) || SomeSuccess(attempts) ==> FieldsAgree(e))
            && ((forall i :: 0 <= i < |attempts| ==> attempts[i].writable) ==> FileAgrees(e))
  {
    var f := s.file.value;
    var c := Load(f);
    SaveLoad(f);
    if Accepted(c, now) {
      assert Attempts(f, now, a, rounds) == rounds;
      RefreshesKeepNewest(LoginLoaded(s, now, a), rounds);
    } else {
      var base := s.(refreshToken := c.refreshToken, cache := Some(c));
      RefreshAllPrepend(base, a, rounds);
      RefreshesKeepNewest(base, [a] + rounds);
    }
  }

  /** After a successful login the timer's first read finds a cache exactly when the login loaded one. */
  lemma TimerSafeIff(s: State, now: int, a: Attempt, browser: Option<Response>)
    requires browser.Some? ==> browser.value.refreshToken.Some?
    requires LoginResult(s, now, a, browser).Some?
    ensures LoginResult(s, now, a, browser).value.cache.Some? <==> s.file.Some?
  {
    if s.file.Some? {
      LoadedRun(s, now, a, []);
    }
  }

  /** A first login, with no file yet: it succeeds and leaves no cache for the timer. */
  lemma FirstLoginLeavesNoCache(a: Attempt)
    ensures var r := Response("access", 3600, Some("refresh"));
            var result := LoginResult(State("", "", 0, None, None), 0, a, Some(r));
            result.Some? && result.value.accessToken == "access" && result.value.cache.None?
  {
  }

  /** A browser login that could write its file leaves a process that is safe after a restart. */
  lemma RestartAfterFreshLogin(s: State, r: Response, now: int, later: int, a: Attempt, rounds: seq<Attempt>)
    requires r.refreshToken.Some?
    ensures var first := LoginFresh(s, r, now, true);
            && first.cache.None? && first.file.Some?
            && RefreshAll(LoginLoaded(first, later, a), rounds).cache.Some?
            && (now >= 0 && Accepted(Load(first.file.value), later) ==> later < now + r.expiresIn * NANOS_PER_SECOND)
  {
    var first := LoginFresh(s, r, now, true);
    LoadedRun(first, later, a, rounds);
    LoadSave(Refreshed(s, r, now));
  }
}
