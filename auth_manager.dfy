/**
 * The session manager. Its store is the persistent key-value store the operations update one
 * key at a time; each operation is proved to leave the store, and to return, what the matching
 * function of module Session says.
 */
module Auth {
  import opened Wrappers
  import opened TimeText
  import opened Session

  /** Removing keys one after another removes their union. */
  lemma MinusOneMore(m: Store, removed: set<string>, key: string)
    ensures m - removed - {key} == m - (removed + {key})
  {
  }

  class AuthManager {
    var store: Store

    constructor (initial: Store)
      ensures store == initial
    {
      store := initial;
    }

    /** Stored value under `key`, or null. */
    function GetItem(key: string): (v: Option<string>)
      reads this
      ensures v.Some? <==> key in store
      ensures v.Some? ==> v.value == store[key]
    {
      Get(store, key)
    }

    /** Writes `value` under `key`; the store refuses an absent value and then writes nothing. */
    method SetItem(key: string, value: Option<string>) returns (ok: bool)
      modifies this
      ensures ok == value.Some?
      ensures store == if ok then old(store)[key := value.value] else old(store)
    {
      ok := value.Some?;
      if ok {
        store := store[key := value.value];
      }
    }

    /** Removes `key`, unless the store fails (`fails`), in which case nothing changes. */
    method RemoveItem(key: string, fails: bool) returns (ok: bool)
      modifies this
      ensures ok == !fails
      ensures store == if ok then old(store) - {key} else old(store)
    {
      ok := !fails;
      if ok {
        store := store - {key};
      }
    }

    /** The writes shared by sign-in and refresh. */
    method StoreTokens(t: TokenResponse, c: Claims, issuedAt: int) returns (rejected: Option<string>)
      modifies this
      ensures Written(store, rejected) == Persist(old(store), t, c, issuedAt)
    {
      var ok := SetItem(UserToken, Some(t.accessToken));
      ok := SetItem(RefreshToken, Some(t.refreshToken.GetOr("")));
      if t.expiresIn.Some? {
        ok := SetItem(ExpireTime, Some(FormatTime(ExpiryAt(issuedAt, t.expiresIn.value))));
      }
      ok := SetItem(UserEmail, c.preferredUsername);
      if !ok {
        return Some(UserEmail);
      }
      ok := SetItem(UserName, c.name);
      if !ok {
        return Some(UserName);
      }
      rejected := None;
    }

    /**
     * Sign-in with the prompt's outcome, the token endpoint's answer to the code exchange,
     * the claim decoder and the clock reading `now`. A `Failure` stands for the raised error.
     */
    method SignIn(prompt: PromptResult, exchange: TokenEndpoint, decode: ClaimDecoder, now: int)
      returns (r: Result<Credentials, AuthError>)
      modifies this
      ensures SignInStep(r, store) == SignInSpec(old(store), prompt, exchange, decode, now)
      ensures r.Failure? && !r.error.StoreRejected? ==> store == old(store)
    {
      if !prompt.PromptSuccess? {
        return Failure(AuthenticationFailed);
      }
      var response := exchange(prompt.code);
      if response.None? {
        return Failure(TokenRequestFailed);
      }
      var t := response.value;
      var claims := decode(ClaimsSource(t));
      if claims.None? {
        return Failure(ClaimsDecodeFailed);
      }
      var rejected := StoreTokens(t, claims.value, now);
      if rejected.Some? {
        return Failure(StoreRejected(rejected.value));
      }
      r := Success(Credentials(t.accessToken, claims.value.preferredUsername.value));
    }

    /**
     * Sign-out. `fault` is the position of the removal the store fails on, if any; the failure
     * is caught, so the caller never sees an error and the later keys stay.
     */
    method SignOut(fault: Option<nat>)
      modifies this
      ensures store == SignOutSpec(old(store), fault)
    {
      // A failed removal is caught and logged; it ends the sequence without raising.
      // Removal number `stopAt` is the one the store fails on (none when it is 5).
      var stopAt := Completed(fault);
      var ok := RemoveItem(UserToken, stopAt == 0);
      if !ok {
        return;
      }
      assert store == old(store) - FirstKeys(1);
      ok := RemoveItem(RefreshToken, stopAt == 1);
      if !ok {
        return;
      }
      MinusOneMore(old(store), FirstKeys(1), RefreshToken);
      ok := RemoveItem(ExpireTime, stopAt == 2);
      if !ok {
        return;
      }
      MinusOneMore(old(store), FirstKeys(2), ExpireTime);
      ok := RemoveItem(UserEmail, stopAt == 3);
      if !ok {
        return;
      }
      MinusOneMore(old(store), FirstKeys(3), UserEmail);
      ok := RemoveItem(UserName, stopAt == 4);
      if !ok {
        return;
      }
      MinusOneMore(old(store), FirstKeys(4), UserName);
    }

    /**
     * Access-token request at clock reading `now`; `refreshedAt` is the later clock reading used
     * for the new expiry, `refresh` the token endpoint's answer to a refresh grant. `sent` lists
     * the refresh tokens the call hands to the endpoint.
     */
    method GetAccessToken(now: int, refreshedAt: int, refresh: TokenEndpoint, decode: ClaimDecoder)
      returns (r: Option<Lookup>, sent: seq<string>)
      modifies this
      ensures AccessStep(r, store, sent) == AccessTokenSpec(old(store), now, refreshedAt, refresh, decode)
      ensures r.None? && !Expired(old(store), now) ==> store == old(store)
    {
      sent := [];
      var expireTime := GetItem(ExpireTime);
      if expireTime.None? {
        return None, sent;
      }
      var expire := ParseTime(expireTime.value);
      if expire.Some? && now >= expire.value {
        var refreshToken := GetItem(RefreshToken);
        sent := [refreshToken.GetOr("")];
        var response := refresh(refreshToken.GetOr(""));
        if response.None? {
          return None, sent;
        }
        var t := response.value;
        var claims := decode(ClaimsSource(t));
        if claims.None? {
          return None, sent;
        }
        var rejected := StoreTokens(t, claims.value, refreshedAt);
        if rejected.Some? {
          return None, sent;
        }
        return Some(Lookup(Some(t.accessToken), claims.value.preferredUsername)), sent;
      }
      var accessToken := GetItem(UserToken);
      var userEmail := GetItem(UserEmail);
      r := Some(Lookup(accessToken, userEmail));
    }
  }
}
