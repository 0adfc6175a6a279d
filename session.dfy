/**
 * The authentication session as the persistent key-value store holds it, and what each
 * operation of the session manager does to that store, as functions of the old store and of
 * the outcomes of the calls the manager makes outside the repository (the browser prompt,
 * the token endpoint, the claim decoder and the clock).
 */
module Session {
  import opened Wrappers
  import opened TimeText

  type Store = map<string, string>

  /** The five keys of the session record, in the order the sign-out removes them. */
  const UserToken: string := "userToken"
  const RefreshToken: string := "refreshToken"
  const ExpireTime: string := "expireTime"
  const UserEmail: string := "userEmail"
  const UserName: string := "userName"
  const SessionKeys: seq<string> := [UserToken, RefreshToken, ExpireTime, UserEmail, UserName]

  /** Outcome of the interactive authorisation prompt; only `PromptSuccess` carries a code. */
  datatype PromptResult =
    | PromptSuccess(code: string)
    | PromptError
    | PromptCancel
    | PromptDismiss
    | PromptOpened
    | PromptLocked

  /** What the token endpoint answers to a code exchange or a refresh grant. */
  datatype TokenResponse = TokenResponse(
    accessToken: string,
    idToken: Option<string>,
    refreshToken: Option<string>,
    expiresIn: Option<int>)  // seconds

  /** The two claims the session keeps from a decoded token; either may be missing. */
  datatype Claims = Claims(name: Option<string>, preferredUsername: Option<string>)

  /** The token endpoint: given a code (exchange) or a refresh token (refresh), a response or a failure. */
  type TokenEndpoint = string -> Option<TokenResponse>

  /** The claim decoder: given a token, its claims or a failure to decode. */
  type ClaimDecoder = string -> Option<Claims>

  /** Why a sign-in raises. `StoreRejected(k)`: the store refused to write an absent value under `k`. */
  datatype AuthError =
    | AuthenticationFailed
    | TokenRequestFailed
    | ClaimsDecodeFailed
    | StoreRejected(key: string)

  /** What a sign-in returns. */
  datatype Credentials = Credentials(accessToken: string, userEmail: string)

  /** What an access-token request returns when it does not return null; stored values may be missing. */
  datatype Lookup = Lookup(accessToken: Option<string>, userEmail: Option<string>)

  /** The new store after a sequence of writes, and the key whose write was refused, if one was. */
  datatype Written = Written(store: Store, rejected: Option<string>)

  datatype SignInStep = SignInStep(result: Result<Credentials, AuthError>, store: Store)

  /** `sent` lists the refresh tokens handed to the token endpoint, one per refresh call. */
  datatype AccessStep = AccessStep(result: Option<Lookup>, store: Store, sent: seq<string>)

  function Get(store: Store, key: string): Option<string> {
    if key in store then Some(store[key]) else None
  }

  /** Every key outside the session record has the same presence and value in both stores. */
  ghost predicate OthersUnchanged(before: Store, after: Store) {
    forall k :: k !in SessionKeys ==> (k in after <==> k in before) && (k in after ==> after[k] == before[k])
  }

  /** The token whose claims are decoded: the identity token unless it is absent or empty. */
  function ClaimsSource(t: TokenResponse): (source: string)
    ensures source == t.accessToken || Some(source) == t.idToken
    ensures t.idToken.Some? && t.idToken.value != "" ==> source == t.idToken.value
    ensures source == "" ==> t.accessToken == ""
  {
    if t.idToken.Some? && t.idToken.value != "" then t.idToken.value else t.accessToken
  }

  /** Absolute expiry of a token issued at `issuedAt` (ms) and valid for `expiresIn` seconds. */
  function ExpiryAt(issuedAt: int, expiresIn: int): (expiry: int)
    ensures expiry - issuedAt == 1000 * expiresIn
    ensures expiresIn > 0 ==> expiry > issuedAt
  {
    issuedAt + expiresIn * 1000
  }

  /** The stored expiry parses and `now` has reached it (an unparsable expiry is never reached). */
  predicate Expired(store: Store, now: int)
    ensures Expired(store, now) ==> ExpireTime in store && ParseTime(store[ExpireTime]).Some?
    ensures ExpireTime in store && ParseTime(store[ExpireTime]).Some? ==>
      (Expired(store, now) <==> ParseTime(store[ExpireTime]).value <= now)
  {
    ExpireTime in store && ParseTime(store[ExpireTime]).Some? && now >= ParseTime(store[ExpireTime]).value
  }

  /**
   * The writes that follow a successful token response and claim decoding: access token,
   * refresh token (or ''), the expiry when the response has one, then the e-mail and name
   * claims. The store refuses an absent claim, which ends the sequence with the earlier
   * writes in place.
   */
  function Persist(store: Store, t: TokenResponse, c: Claims, issuedAt: int): (w: Written)
    ensures UserToken in w.store && w.store[UserToken] == t.accessToken
    ensures RefreshToken in w.store && w.store[RefreshToken] == t.refreshToken.GetOr("")
    ensures t.expiresIn.Some? ==>
      ExpireTime in w.store && ParseTime(w.store[ExpireTime]) == Some(ExpiryAt(issuedAt, t.expiresIn.value))
    ensures t.expiresIn.None? ==> Get(w.store, ExpireTime) == Get(store, ExpireTime)
    ensures w.rejected.None? <==> c.preferredUsername.Some? && c.name.Some?
    ensures w.rejected.None? ==>
      && UserEmail in w.store && w.store[UserEmail] == c.preferredUsername.value
      && UserName in w.store && w.store[UserName] == c.name.value
    ensures c.preferredUsername.None? ==>
      && w.rejected == Some(UserEmail)
      && Get(w.store, UserEmail) == Get(store, UserEmail)
      && Get(w.store, UserName) == Get(store, UserName)
    ensures c.preferredUsername.Some? && c.name.None? ==>
      && w.rejected == Some(UserName)
      && UserEmail in w.store && w.store[UserEmail] == c.preferredUsername.value
      && Get(w.store, UserName) == Get(store, UserName)
    ensures OthersUnchanged(store, w.store)
  {
    var tokens := store[UserToken := t.accessToken][RefreshToken := t.refreshToken.GetOr("")];
    var timed :=
      if t.expiresIn.Some? then
        var expiry := ExpiryAt(issuedAt, t.expiresIn.value);
        FormatParseRoundTrip(expiry);
        tokens[ExpireTime := FormatTime(expiry)]
      else tokens;
    if c.preferredUsername.None? then Written(timed, Some(UserEmail))
    else
      var mailed := timed[UserEmail := c.preferredUsername.value];
      if c.name.None? then Written(mailed, Some(UserName))
      else Written(mailed[UserName := c.name.value], None)
  }

  /**
   * Sign-in: a prompt that is not a success raises before anything is written; otherwise the
   * code is exchanged, the claims decoded, and the session written at clock reading `now`.
   */
  function SignInSpec(store: Store, prompt: PromptResult, exchange: TokenEndpoint, decode: ClaimDecoder, now: int)
    : (step: SignInStep)
    ensures !prompt.PromptSuccess? ==> step == SignInStep(Failure(AuthenticationFailed), store)
    ensures prompt.PromptSuccess? && exchange(prompt.code).None? ==>
      step == SignInStep(Failure(TokenRequestFailed), store)
    ensures prompt.PromptSuccess? && exchange(prompt.code).Some? &&
            decode(ClaimsSource(exchange(prompt.code).value)).None? ==>
      step == SignInStep(Failure(ClaimsDecodeFailed), store)
    ensures step.result.Success? <==>
      && prompt.PromptSuccess?
      && exchange(prompt.code).Some?
      && decode(ClaimsSource(exchange(prompt.code).value)).Some?
      && decode(ClaimsSource(exchange(prompt.code).value)).value.preferredUsername.Some?
      && decode(ClaimsSource(exchange(prompt.code).value)).value.name.Some?
    ensures step.result.Success? ==>
      && step.result.value.accessToken == exchange(prompt.code).value.accessToken
      && UserToken in step.store && step.store[UserToken] == step.result.value.accessToken
      && UserEmail in step.store && step.store[UserEmail] == step.result.value.userEmail
    ensures step.result.Failure? && step.result.error.StoreRejected? ==>
      UserToken in step.store && step.store[UserToken] == exchange(prompt.code).value.accessToken
    ensures OthersUnchanged(store, step.store)
  {
    if !prompt.PromptSuccess? then SignInStep(Failure(AuthenticationFailed), store)
    else
      var response := exchange(prompt.code);
      if response.None? then SignInStep(Failure(TokenRequestFailed), store)
      else
        var t := response.value;
        var claims := decode(ClaimsSource(t));
        if claims.None? then SignInStep(Failure(ClaimsDecodeFailed), store)
        else
          var w := Persist(store, t, claims.value, now);
          if w.rejected.Some? then SignInStep(Failure(StoreRejected(w.rejected.value)), w.store)
          else SignInStep(Success(Credentials(t.accessToken, claims.value.preferredUsername.value)), w.store)
  }

  /** How many removals a sign-out attempts successfully when the store fails at removal `fault`. */
  function Completed(fault: Option<nat>): (n: nat)
    ensures n <= |SessionKeys|
  {
    if fault.Some? && fault.value < |SessionKeys| then fault.value else |SessionKeys|
  }

  /** The first `n` session keys of the removal order, as a set. */
  function FirstKeys(n: nat): set<string>
    requires n <= |SessionKeys|
  {
    if n == 0 then {} else FirstKeys(n - 1) + {SessionKeys[n - 1]}
  }

  /** No two positions of the removal order hold the same key. */
  lemma SessionKeysDistinct()
    ensures forall i, j :: 0 <= i < j < |SessionKeys| ==> SessionKeys[i] != SessionKeys[j]
  {
  }

  /** The key at position i is among the first n exactly when i < n. */
  lemma {:induction false} FirstKeysExactly(n: nat)
    requires n <= |SessionKeys|
    ensures forall i :: 0 <= i < |SessionKeys| ==> (SessionKeys[i] in FirstKeys(n) <==> i < n)
    ensures forall k :: k in FirstKeys(n) ==> k in SessionKeys
  {
    if n > 0 {
      FirstKeysExactly(n - 1);
      SessionKeysDistinct();
    }
  }

  /** Sign-out: the session keys are removed in order until the store rejects one; nothing is raised. */
  function SignOutSpec(store: Store, fault: Option<nat>): (after: Store)
    ensures fault.None? ==> forall k :: k in SessionKeys ==> k !in after
    ensures OthersUnchanged(store, after)
    ensures after.Keys <= store.Keys
  {
    FirstKeysExactly(Completed(fault));
    store - FirstKeys(Completed(fault))
  }

  /**
   * Access-token request at clock reading `now`, with `refreshedAt` the clock reading taken
   * when the refreshed token is written. No stored expiry: null. Not yet expired: the stored
   * token and e-mail. Expired: one refresh with the stored refresh token (or ''); a failed
   * refresh, decode or write yields null.
   */
  function AccessTokenSpec(store: Store, now: int, refreshedAt: int, refresh: TokenEndpoint, decode: ClaimDecoder)
    : (step: AccessStep)
    ensures ExpireTime !in store ==> step == AccessStep(None, store, [])
    ensures ExpireTime in store && !Expired(store, now) ==>
      step == AccessStep(Some(Lookup(Get(store, UserToken), Get(store, UserEmail))), store, [])
    ensures Expired(store, now) ==> step.sent == [Get(store, RefreshToken).GetOr("")]
    ensures Expired(store, now) && refresh(step.sent[0]).None? ==> step.result.None? && step.store == store
    ensures Expired(store, now) && refresh(step.sent[0]).Some? &&
            decode(ClaimsSource(refresh(step.sent[0]).value)).None? ==>
      step.result.None? && step.store == store
    ensures Expired(store, now) && step.result.Some? ==>
      && refresh(step.sent[0]).Some?
      && var t := refresh(step.sent[0]).value;
      && step.result.value.accessToken == Some(t.accessToken)
      && UserToken in step.store && step.store[UserToken] == t.accessToken
      && RefreshToken in step.store && step.store[RefreshToken] == t.refreshToken.GetOr("")
      && step.result.value.userEmail.Some?
      && UserEmail in step.store && step.store[UserEmail] == step.result.value.userEmail.value
    ensures Expired(store, now) ==>
      var response := refresh(Get(store, RefreshToken).GetOr(""));
      && (step.result.Some? <==>
            && response.Some?
            && decode(ClaimsSource(response.value)).Some?
            && decode(ClaimsSource(response.value)).value.preferredUsername.Some?
            && decode(ClaimsSource(response.value)).value.name.Some?)
      && (step.result.Some? ==>
            step.result.value.userEmail == decode(ClaimsSource(response.value)).value.preferredUsername)
      && (response.Some? && decode(ClaimsSource(response.value)).Some? ==>
            step.store == Persist(store, response.value, decode(ClaimsSource(response.value)).value, refreshedAt).store)
    ensures |step.sent| <= 1
    ensures OthersUnchanged(store, step.store)
  {
    if ExpireTime !in store then AccessStep(None, store, [])
    else if !Expired(store, now) then
      AccessStep(Some(Lookup(Get(store, UserToken), Get(store, UserEmail))), store, [])
    else
      var sent := Get(store, RefreshToken).GetOr("");
      var response := refresh(sent);
      if response.None? then AccessStep(None, store, [sent])
      else
        var t := response.value;
        var claims := decode(ClaimsSource(t));
        if claims.None? then AccessStep(None, store, [sent])
        else
          var w := Persist(store, t, claims.value, refreshedAt);
          if w.rejected.Some? then AccessStep(None, w.store, [sent])
          else AccessStep(Some(Lookup(Some(t.accessToken), Some(claims.value.preferredUsername.value))), w.store, [sent])
  }
}
