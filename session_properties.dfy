/**
 * Properties of the session operations that relate several calls: what a sign-in leaves for
 * the next access-token request and for sign-out, how an expiry without a new `expiresIn`
 * keeps forcing refreshes, and where the writes stop when a claim is missing.
 */
module SessionProperties {
  import opened Wrappers
  import opened TimeText
  import opened Session

  /** The response a successful prompt's code is exchanged for. */
  function Exchanged(prompt: PromptResult, exchange: TokenEndpoint): Option<TokenResponse> {
    if prompt.PromptSuccess? then exchange(prompt.code) else None
  }

  /** A store failure at removal `n` leaves exactly the keys before position `n` removed. */
  lemma SignOutStopsAtFault(store: Store, n: nat)
    requires n < |SessionKeys|
    ensures forall i :: 0 <= i < n ==> SessionKeys[i] !in SignOutSpec(store, Some(n))
    ensures forall i :: n <= i < |SessionKeys| ==>
      Get(SignOutSpec(store, Some(n)), SessionKeys[i]) == Get(store, SessionKeys[i])
  {
    FirstKeysExactly(n);
  }

  /** A complete sign-out is idempotent: whatever a later sign-out meets, nothing changes. */
  lemma SignOutIdempotent(store: Store, fault: Option<nat>)
    ensures SignOutSpec(SignOutSpec(store, None), fault) == SignOutSpec(store, None)
  {
  }

  /** Sign-in followed by a complete sign-out leaves no session key, whatever the sign-in did. */
  lemma SignInThenSignOut(store: Store, prompt: PromptResult, exchange: TokenEndpoint, decode: ClaimDecoder, now: int)
    ensures var after := SignOutSpec(SignInSpec(store, prompt, exchange, decode, now).store, None);
      && (forall k :: k in SessionKeys ==> k !in after)
      && OthersUnchanged(store, after)
  {
  }

  /** On a successful sign-in the stored claims are those decoded from the identity token when
      there is a non-empty one, and from the access token otherwise. */
  lemma SignInStoresClaims(store: Store, prompt: PromptResult, exchange: TokenEndpoint, decode: ClaimDecoder, now: int)
    requires SignInSpec(store, prompt, exchange, decode, now).result.Success?
    ensures var t := Exchanged(prompt, exchange).value;
      var source := if t.idToken.Some? && t.idToken.value != "" then t.idToken.value else t.accessToken;
      var signedIn := SignInSpec(store, prompt, exchange, decode, now).store;
      && decode(source).Some?
      && UserEmail in signedIn && signedIn[UserEmail] == decode(source).value.preferredUsername.value
      && UserName in signedIn && signedIn[UserName] == decode(source).value.name.value
      && RefreshToken in signedIn && signedIn[RefreshToken] == t.refreshToken.GetOr("")
  {
  }

  /** A refresh succeeds exactly when the refresh call, the decoding and both claims succeed; it
      then returns and stores the refreshed token and the claims decoded from the non-empty
      identity token, else from the access token, and writes the expiry from the later clock
      reading. */
  lemma RefreshStoresClaims(store: Store, now: int, refreshedAt: int, refresh: TokenEndpoint, decode: ClaimDecoder)
    requires Expired(store, now)
    ensures var step := AccessTokenSpec(store, now, refreshedAt, refresh, decode);
      var response := refresh(Get(store, RefreshToken).GetOr(""));
      && (step.result.Some? <==>
            && response.Some?
            && var t := response.value;
            var source := if t.idToken.Some? && t.idToken.value != "" then t.idToken.value else t.accessToken;
            && decode(source).Some?
            && decode(source).value.preferredUsername.Some?
            && decode(source).value.name.Some?)
      && (step.result.Some? ==>
            var t := response.value;
            var source := if t.idToken.Some? && t.idToken.value != "" then t.idToken.value else t.accessToken;
            var claims := decode(source).value;
            && step.result == Some(Lookup(Some(t.accessToken), claims.preferredUsername))
            && Get(step.store, UserToken) == Some(t.accessToken)
            && Get(step.store, RefreshToken) == Some(t.refreshToken.GetOr(""))
            && Get(step.store, UserEmail) == claims.preferredUsername
            && Get(step.store, UserName) == claims.name
            && (t.expiresIn.Some? ==>
                  ExpireTime in step.store
                  && ParseTime(step.store[ExpireTime]) == Some(refreshedAt + t.expiresIn.value * 1000)))
  {
  }

  /** A successful sign-in whose response has `expiresIn` makes every access-token request before
      the expiry return the signed-in token and e-mail, with no refresh and no write. */
  lemma SignInThenAccessBeforeExpiry(
    store: Store, prompt: PromptResult, exchange: TokenEndpoint, decode: ClaimDecoder, now: int,
    later: int, refreshedAt: int, refresh: TokenEndpoint, decodeLater: ClaimDecoder)
    requires SignInSpec(store, prompt, exchange, decode, now).result.Success?
    requires Exchanged(prompt, exchange).value.expiresIn.Some?
    requires later < ExpiryAt(now, Exchanged(prompt, exchange).value.expiresIn.value)
    ensures var signIn := SignInSpec(store, prompt, exchange, decode, now);
      var creds := signIn.result.value;
      AccessTokenSpec(signIn.store, later, refreshedAt, refresh, decodeLater)
        == AccessStep(Some(Lookup(Some(creds.accessToken), Some(creds.userEmail))), signIn.store, [])
  {
  }

  /** Once the expiry written at sign-in is reached (the instant itself included), the next
      request makes exactly one refresh call, with the refresh token the sign-in stored. */
  lemma SignInThenAccessAtExpiry(
    store: Store, prompt: PromptResult, exchange: TokenEndpoint, decode: ClaimDecoder, now: int,
    later: int, refreshedAt: int, refresh: TokenEndpoint, decodeLater: ClaimDecoder)
    requires SignInSpec(store, prompt, exchange, decode, now).result.Success?
    requires Exchanged(prompt, exchange).value.expiresIn.Some?
    requires later >= ExpiryAt(now, Exchanged(prompt, exchange).value.expiresIn.value)
    ensures AccessTokenSpec(SignInSpec(store, prompt, exchange, decode, now).store, later, refreshedAt, refresh, decodeLater).sent
      == [Exchanged(prompt, exchange).value.refreshToken.GetOr("")]
  {
  }

  /** A sign-in whose response has no `expiresIn`, into a store with no expiry, leaves a session
      whose access-token requests return null although the token is stored. */
  lemma SignInWithoutExpiryYieldsNull(
    store: Store, prompt: PromptResult, exchange: TokenEndpoint, decode: ClaimDecoder, now: int,
    later: int, refreshedAt: int, refresh: TokenEndpoint, decodeLater: ClaimDecoder)
    requires ExpireTime !in store
    requires SignInSpec(store, prompt, exchange, decode, now).result.Success?
    requires Exchanged(prompt, exchange).value.expiresIn.None?
    ensures var signedIn := SignInSpec(store, prompt, exchange, decode, now).store;
      && UserToken in signedIn
      && AccessTokenSpec(signedIn, later, refreshedAt, refresh, decodeLater) == AccessStep(None, signedIn, [])
  {
  }

  /** A stored expiry counts as reached at its own instant and not a millisecond before. */
  lemma ExpiryBoundary(store: Store, expiry: int)
    requires ExpireTime in store && store[ExpireTime] == FormatTime(expiry)
    ensures Expired(store, expiry)
    ensures !Expired(store, expiry - 1)
  {
    FormatParseRoundTrip(expiry);
  }

  /** Text under `expireTime` that does not read as an instant never expires: the stored token is
      returned at every clock reading. */
  lemma UnreadableExpiryNeverRefreshes(store: Store, now: int, refreshedAt: int, refresh: TokenEndpoint, decode: ClaimDecoder)
    requires ExpireTime in store && ParseTime(store[ExpireTime]).None?
    ensures AccessTokenSpec(store, now, refreshedAt, refresh, decode).sent == []
    ensures AccessTokenSpec(store, now, refreshedAt, refresh, decode).result
      == Some(Lookup(Get(store, UserToken), Get(store, UserEmail)))
  {
  }

  /** A successful refresh whose response has no `expiresIn` keeps the old, reached expiry, so
      every later request refreshes again, with the refresh token that refresh stored. */
  lemma RefreshWithoutExpiresInRefreshesAgain(
    store: Store, now: int, refreshedAt: int, refresh: TokenEndpoint, decode: ClaimDecoder,
    later: int, refreshedLater: int, refreshLater: TokenEndpoint, decodeLater: ClaimDecoder)
    requires Expired(store, now)
    requires AccessTokenSpec(store, now, refreshedAt, refresh, decode).result.Some?
    requires refresh(Get(store, RefreshToken).GetOr("")).value.expiresIn.None?
    requires later >= now
    ensures var step := AccessTokenSpec(store, now, refreshedAt, refresh, decode);
      && Expired(step.store, later)
      && AccessTokenSpec(step.store, later, refreshedLater, refreshLater, decodeLater).sent
           == [refresh(Get(store, RefreshToken).GetOr("")).value.refreshToken.GetOr("")]
  {
  }

  /** Sign-in with a token whose claims lack `preferred_username`: the call raises, yet the access
      and refresh tokens are already written, next to the e-mail and name of the earlier session. */
  lemma MissingEmailClaimLeavesPartialSession(
    store: Store, code: string, exchange: TokenEndpoint, decode: ClaimDecoder, now: int)
    requires exchange(code).Some?
    requires decode(ClaimsSource(exchange(code).value)).Some?
    requires decode(ClaimsSource(exchange(code).value)).value.preferredUsername.None?
    ensures var step := SignInSpec(store, PromptSuccess(code), exchange, decode, now);
      && step.result == Failure(StoreRejected(UserEmail))
      && UserToken in step.store && step.store[UserToken] == exchange(code).value.accessToken
      && RefreshToken in step.store && step.store[RefreshToken] == exchange(code).value.refreshToken.GetOr("")
      && Get(step.store, UserEmail) == Get(store, UserEmail)
      && Get(step.store, UserName) == Get(store, UserName)
  {
  }

  /** Sign-in at t0 with AT1/RT1 valid for 3600 s; at t0 + 3601 s a request refreshes with RT1 and
      stores AT2/RT2 with the expiry t0 + 3601 s + 3600 s. */
  lemma SignInRefreshScenario(t0: int)
    ensures
      var decode: ClaimDecoder := _ => Some(Claims(Some("Ada"), Some("ada@example.org")));
      var exchange: TokenEndpoint := _ => Some(TokenResponse("AT1", None, Some("RT1"), Some(3600)));
      var refresh: TokenEndpoint :=
        rt => if rt == "RT1" then Some(TokenResponse("AT2", None, Some("RT2"), Some(3600))) else None;
      var signIn := SignInSpec(map[], PromptSuccess("code"), exchange, decode, t0);
      var access := AccessTokenSpec(signIn.store, t0 + 3601000, t0 + 3601000, refresh, decode);
      && signIn.result == Success(Credentials("AT1", "ada@example.org"))
      && ParseTime(signIn.store[ExpireTime]) == Some(t0 + 3600000)
      && access.sent == ["RT1"]
      && access.result == Some(Lookup(Some("AT2"), Some("ada@example.org")))
      && access.store[UserToken] == "AT2" && access.store[RefreshToken] == "RT2"
      && ParseTime(access.store[ExpireTime]) == Some(t0 + 3601000 + 3600000)
  {
  }
}
