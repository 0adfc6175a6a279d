# Authentication session manager of the mobile client, in Dafny

This project models `AuthManager`, the session manager of a React Native client that signs its
user in against an OAuth 2.0 / OpenID Connect provider (Authorization Code grant with PKCE,
RFC 7636; refresh grant, section 6 of RFC 6749). It is the repository's one piece of decision
logic. The manager keeps the session as five keys in the device's persistent key-value store:
`userToken`, `refreshToken`, `expireTime`, `userEmail` and `userName`. It has three operations.

- **sign-in** checks the outcome of the browser prompt, exchanges the code for tokens, decodes
  the claims of the identity token (or of the access token) and writes the session;
- **sign-out** removes the five keys and never raises;
- **access-token request** returns null when no expiry is stored. Before the expiry it returns
  the stored token and e-mail. Once the expiry is reached it makes one refresh call and writes
  the refreshed session.

Layout:

- `wrappers.dfy` (`Wrappers`): `Option` and `Result`.
- `time_text.dfy` (`TimeText`): instants as integer milliseconds and the text stored under
  `expireTime`. `FormatTime` plays the part of `toISOString`, and `ParseTime` the part of
  `new Date(text)`. Text that does not parse is an Invalid Date. The lemmas prove that every
  written instant reads back unchanged.
- `session.dfy` (`Session`): the store as a `map<string, string>`, the key names, and the
  outcomes of the calls made outside the repository. It also holds one specification function
  per operation, stating the new store and the result in terms of the old store and those
  outcomes: `SignInSpec`, `SignOutSpec`, `AccessTokenSpec`, and `Persist` for the write
  sequence that sign-in and refresh share.
- `auth_manager.dfy` (`Auth`): class `AuthManager`, whose `store` field is updated one
  `SetItem`/`RemoveItem` at a time, in the source's order. Each method is proved to produce
  what its specification function says.
- `session_properties.dfy` (`SessionProperties`): lemmas that relate several calls.

What is outside the repository becomes an input:

- the prompt outcome (`PromptResult`, the six result types of the prompt);
- the token endpoint, as a function from the code, or from the refresh token, to a
  `TokenResponse` or a failure. `GetAccessToken` returns in `sent` the refresh tokens it
  handed to that function, so "exactly one refresh call, with this token" can be stated;
- the claim decoder, as a function from a token to optional `name` and `preferred_username`
  claims, or a failure;
- the clock, as integer milliseconds. The access-token request reads the clock twice: once
  for the expiry test (line 81) and again when it writes the new expiry (line 102). The model
  takes both readings, `now` and `refreshedAt`.

Behaviours of the code worth knowing:

- When no `expireTime` is stored, the access-token request returns null. It does so even
  when a token is stored (`SignInWithoutExpiryYieldsNull`). It does not hand back the stored
  token.
- The five keys are written one at a time, not as one atomic record. `expireTime` keeps its
  old value when a response has no `expiresIn`. A missing `preferred_username` or `name`
  claim makes the store refuse that write (the store refuses null and undefined values).
  That refusal ends the sequence with the tokens already written
  (`MissingEmailClaimLeavesPartialSession`).
- A failed refresh returns null rather than raising a distinct refresh error.
- `idToken || accessToken` treats an empty identity token as absent. `refreshToken || ''`
  maps both an absent and an empty refresh token to `''`.
- Text under `expireTime` that is not a date compares as never reached
  (`UnreadableExpiryNeverRefreshes`).

## Model

| member | source | states |
|---|---|---|
| `Session.Persist` | Auth/AuthManager.ts:44-51 | `userToken` holds the access token and `refreshToken` holds the refresh token or `''`. With `expiresIn`, the stored expiry reads back as issue time + `expiresIn`·1000 ms. Without it, the earlier expiry (or its absence) stays. The claim writes come next: `preferred_username` to `userEmail`, then `name` to `userName`. A missing claim stops the sequence at that key and leaves that key and the later ones as before. No key outside the session changes. The same sequence is at lines 99-106 |
| `Session.SignInSpec` | Auth/AuthManager.ts:8-61 | A prompt that is not a success, a failed exchange or a failed decode each raise their own error and leave the store exactly as it was. Success holds exactly when all three succeed and both claims are present. It then returns the exchanged access token and the e-mail, and both are stored. A refused claim write raises with the new token already stored. Keys outside the session never change |
| `Session.FirstKeysExactly` | Auth/AuthManager.ts:65-69 | Removal follows the order userToken, refreshToken, expireTime, userEmail, userName. After n removals, the key at position i is gone exactly when i < n. Only session keys are ever removed |
| `Session.SignOutSpec` | Auth/AuthManager.ts:63-73 | Without a store failure no session key remains. Keys outside the session keep their presence and value. No key is added. The result is a store and never an error |
| `Session.AccessTokenSpec` | Auth/AuthManager.ts:75-121 | No stored expiry gives null, no write and no refresh. An unexpired token gives the stored token and e-mail unchanged, with no write and no refresh. Once expired, exactly one refresh is made, with the stored refresh token or `''`. A failed refresh or decode gives null with the store unchanged. Once expired, the result is non-null exactly when the refresh, the decoding of the identity token (else the access token) and both claims succeed; it then carries the refreshed token and the decoded `preferred_username`. Whenever refresh and decoding succeed, the new store is the one `Persist` gives at the second clock reading: tokens, expiry, e-mail and name, or the partial store after a refused claim. At most one refresh call is made. Keys outside the session never change |
| `Session.ClaimsSource` | Auth/AuthManager.ts:37 | The token decoded for claims (the identity token, else the access token) is one of the two tokens. A non-empty identity token is always chosen. The result is empty only when the access token is. The same choice is at line 94 |
| `Session.ExpiryAt` | Auth/AuthManager.ts:47 | The expiry lies exactly `expiresIn`·1000 ms after the issue instant, so a positive lifetime ends after issue. The same computation is at line 102 |
| `Session.Expired` | Auth/AuthManager.ts:79-83 | Only a stored expiry that reads as an instant can be reached. For such an expiry, `now >= expire` holds exactly when the clock has reached it. An absent or unreadable expiry is never reached |
| `Auth.AuthManager.GetItem` | Auth/AuthManager.ts:77 | Reading a key gives its stored value, or null exactly when it is absent |
| `Auth.AuthManager.SetItem` | Auth/AuthManager.ts:44 | Writing a present value updates only that key. An absent value is refused and changes nothing |
| `Auth.AuthManager.RemoveItem` | Auth/AuthManager.ts:65 | Removal deletes only that key, or changes nothing when the store fails |
| `Auth.AuthManager.StoreTokens` | Auth/AuthManager.ts:44-51 | The step-by-step writes leave the store, and report the refused key, exactly as `Persist` says |
| `Auth.AuthManager.SignIn` | Auth/AuthManager.ts:8-61 | The result and the new store are those of `SignInSpec`. Every failure other than a refused write leaves the store unchanged |
| `Auth.AuthManager.SignOut` | Auth/AuthManager.ts:63-73 | The new store is that of `SignOutSpec`: the old store without the keys whose removal came before the failing one. The method has no error result: a failure is swallowed |
| `Auth.AuthManager.GetAccessToken` | Auth/AuthManager.ts:75-121 | The result, the new store and the refresh tokens sent are those of `AccessTokenSpec`. A null result on an unexpired store changes nothing |
| `TimeText.NumeralValueOfNumeral` | Auth/AuthManager.ts:47 | The decimal text of a natural number reads back as that number |
| `TimeText.FormatTime` | Auth/AuthManager.ts:47 | The model's `toISOString`: non-empty text, the digits of the instant, with a leading `-` exactly for instants before the epoch |
| `TimeText.ParseTime` | Auth/AuthManager.ts:80 | The model's `new Date(text)`: a non-empty string of digits reads as a non-negative instant. Empty text, or text that starts with neither a digit nor `-`, is an Invalid Date. A negative instant comes only from text starting with `-` |
| `TimeText.FormatParseRoundTrip` | Auth/AuthManager.ts:80 | Text written as the expiry of instant t reads back as t |
| `SessionProperties.SignOutStopsAtFault` | Auth/AuthManager.ts:64-72 | A store failure at removal n leaves the first n keys removed and the rest exactly as before |
| `SessionProperties.SignOutIdempotent` | Auth/AuthManager.ts:63-73 | After a complete sign-out, a further sign-out changes nothing, whichever removal fails |
| `SessionProperties.SignInThenSignOut` | Auth/AuthManager.ts:44-51 | Whatever a sign-in did, a complete sign-out afterwards leaves no session key. Every other key is as it was before the sign-in |
| `SessionProperties.SignInStoresClaims` | Auth/AuthManager.ts:37-40 | After a successful sign-in, `userEmail` and `userName` hold the claims decoded from the non-empty identity token, or from the access token when there is none. `refreshToken` holds the response's refresh token or `''` |
| `SessionProperties.RefreshStoresClaims` | Auth/AuthManager.ts:83-108 | On an expired store, a request returns non-null exactly when the refresh, the decoding of the non-empty identity token (else the access token) and both claims succeed. It then returns the refreshed token and the decoded `preferred_username`, and stores the token, the new refresh token or `''`, the decoded e-mail and name, and, with `expiresIn`, an expiry that reads back as the second clock reading + `expiresIn`·1000 ms |
| `SessionProperties.SignInThenAccessBeforeExpiry` | Auth/AuthManager.ts:83 | After a sign-in with `expiresIn`, any request before now + `expiresIn`·1000 ms returns the signed-in token and e-mail, with no refresh and no write |
| `SessionProperties.SignInThenAccessAtExpiry` | Auth/AuthManager.ts:83-92 | From the expiry instant on (that instant included), the next request makes exactly one refresh call, with the refresh token the sign-in stored |
| `SessionProperties.SignInWithoutExpiryYieldsNull` | Auth/AuthManager.ts:79 | A sign-in without `expiresIn`, into a store with no expiry, stores a token, yet every request returns null and makes no refresh |
| `SessionProperties.ExpiryBoundary` | Auth/AuthManager.ts:83 | A stored expiry is reached at its own instant and not one millisecond before |
| `SessionProperties.UnreadableExpiryNeverRefreshes` | Auth/AuthManager.ts:80-83 | An `expireTime` that does not read as an instant never triggers a refresh. The stored token and e-mail are returned |
| `SessionProperties.RefreshWithoutExpiresInRefreshesAgain` | Auth/AuthManager.ts:101-104 | After a successful refresh whose response has no `expiresIn`, the old expiry is still reached at every later instant. The next request refreshes again, with the refresh token just stored |
| `SessionProperties.MissingEmailClaimLeavesPartialSession` | Auth/AuthManager.ts:44-50 | A sign-in whose claims lack `preferred_username` raises a refused write. The new access and refresh tokens are already stored, next to the e-mail and name of the earlier session |
| `SessionProperties.SignInRefreshScenario` | Auth/AuthManager.ts:83-108 | Sign-in at t0 with AT1/RT1, valid 3600 s, stores expiry t0 + 3600 s. At t0 + 3601 s one refresh with RT1 returns AT2, and stores AT2/RT2 with expiry t0 + 3601 s + 3600 s |

## Left out

- Building the authorisation request (redirect URI, client id, scopes, PKCE verifier and challenge, account-selection prompt, lines 9-18) is library code. Only the prompt's outcome is modelled. The code exchange's other arguments (verifier, client id, redirect URI) are held by the library and do not appear in the token endpoint's input.
- The browser prompt, the HTTP token exchange, the refresh grant and the token decoder are foreign calls. Their outcomes are inputs. Decoding does no signature check in the source, and none is modelled.
- ISO-8601 text and `Date` are replaced by integer milliseconds written as decimal text. `expiresIn` is whole seconds. The model leaves out the range error `toISOString` raises for instants beyond the range of `Date`, and fractional seconds.
- Store failures are modelled only for sign-out removals, where the source catches them. Other reads and writes succeed, except that the store refuses to write an absent value. The generic `catch` of the access-token request is therefore exercised only by failed refreshes, failed decodes and refused writes.
- Concurrency: the source has no lock and writes keys one at a time. The model is sequential and claims no guard against concurrent refreshes.
- Logging (`console.log`, `console.error`) is left out.
- The inline sign-in of the start screen and the three-key logout of the side menu are separate code under other keys, and are not part of this model. The same holds for the screens, the GraphQL client and the single-key readers.
