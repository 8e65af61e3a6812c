# Verified model of the authentication server

This project models the parts of the authentication server and of its client library that carry
unbounded behaviour, and proves what their callers rely on.

| file | what it models |
|---|---|
| `BitStrings.dfy`, `Words.dfy`, `Radix.dfy`, `JsText.dfy` | bit strings and 32-bit words, text in base 2^w, the JavaScript string operations in use |
| `Base32.dfy`, `Totp.dfy` | the base32 codec over an unmasked shift register, HOTP and TOTP |
| `Base64Url.dfy`, `PendingCookie.dfy` | the base64url codec and the signed cookie of a pending authorization |
| `UserRepository.dfy` | the user and grant tables, the grouped listing, the generated UPDATE, the replacement of grants |
| `LazyUpgrade.dfy`, `Credentials.dfy` | stored secrets upgraded on use, while others write; password hashes and client secrets, which are |
| `PasswordPolicy.dfy` | the complexity validator, its checklist, and which policies can be met |
| `EscapeHtml.dfy` | the HTML escaping of mails |
| `SessionRefresh.dfy`, `ScopeCache.dfy` | two caches whose staleness is bounded |
| `TokenManager.dfy` | the token holder of the client library, its calls one at a time and overlapping |
| `Challenges.dfy`, `CodeTries.dfy` | mailed codes as rows; tries of them that read, compare and write in separate steps |
| `SignIn.dfy`, `UserService.dfy`, `SignInServer.dfy` | the sign-in protocol and the user service as functions on tables and cookies; the same as methods that write them |
| `SignInGates.dfy`, `SignInFacts.dfy` | under exactly which conditions each entry point gives each answer, and what it leaves; how pre-flight and issuers agree |
| `SessionRuns.dfy`, `SessionFacts.dfy`, `SessionOrigins.dfy`, `AgreementRuns.dfy` | whole runs of the server with overlapping requests; what they keep; where sessions and codes come from; agreement at every moment of a run |

Code that works step by step is a method with its loops and early returns, proved equal to a
specification function; the lemmas are about that function. Objects whose fields are written are
classes. HMAC, Argon2, MD5, JSON, UTF-8 and `toUpperCase` are parameters, and what is assumed of them
is a named predicate (`Faithful`, `Unforged`, `Sound`, `Working`, `Md5Shape`, `Ideal`,
`IdealCodes`, `UpperCasing`). Services outside the model (TOTP enrolment, policy selection, password expiry, client
lookup, site settings, mail) are fields of `Host`, one per request, free to differ between requests.
Moments are whole milliseconds; ISO date strings are compared as such.

Runs assume that ids of users, challenges and exchange tokens never come twice, that the key of the
pending cookie stays the same and its MAC is not forged, that a reset link goes to no test user, and
that the constraints of `db/schema.sql` abort a statement that breaks them. They assume nothing about
who presents which cookie, let the settings, clients, services and clock differ at every event, and
let a request that redeems a code or a passkey token be interrupted by any others between its reads
and its writes. Statements from outside the user service may insert and change any rows; only the
agreement of pre-flight and issuer over runs excludes them.

## What the proofs found

- A mailed code can open two sessions: the code reads the challenge, compares, and deletes it in
  separate steps. Exactly when is `SecondAcceptedIff`; the run is `OneCodeTwoSessions`; sign-ins that
  do not overlap open one (`OneAcceptedWhenApart`, `CodeTwiceOnlyOverlapping`). A passkey token,
  consumed in one statement, opens one under every interleaving (`TokenOpensOnce`).
- Tries that overlap are all compared, however many (`OverlappingAllCompared`); the limit is exceeded
  exactly as `LimitExceededIff` says, and kept by calls that do not overlap (`ApartKeepsLimit`).
- An upgrade of a hash or of a client secret that overlaps a change puts the old one back
  (`OldPasswordComesBack`, `OldSecretComesBack`); exactly when is `ChangeSurvivesIff` and
  `RotationSurvivesIff`.
- Overlapping calls of one token holder send the same refresh token, exactly if no response is stored
  between them (`SameTokenSentIff`, `TwoSendOne`).
- Overlapping cache fills can put older scope names over newer ones (`OlderOverwritesNewer`), inside
  the same bound; exactly which runs do is `AnswersGoForward`.
- The pre-flight trims the user name and the password issuer does not. They agree exactly for names
  typed without surrounding space and a non-empty password (`AgreeInOneState`, `AgreeInEveryRun`,
  `PaddedNameDisagrees`).
- A new password of nothing but space is answered `ok` and not stored (`ChangeTakesEffect`,
  `BlankChangeAnswersOk`).
- Saved policy rules may be impossible to meet: the class minima are never compared with the maximum
  length (`AcceptedRulesSatisfiable`, `AcceptedButImpossible`).
- The token holder drops its refresh token when a refresh response carries none, although section 6
  of RFC 6749 lets the server keep the old one valid (`OmittedRefreshTokenIsLost`); the exact
  condition is `StrandedWhen`.
- Base32 text may end in white space and `=` in any mixture without white space after an `=`
  (`TailAccepted`); any other mixture is rejected.
- An MD5 hash stored with surrounding space passes the format test and can never match
  (`Md5AcceptedIffTrimmed`).
- Text after a second dot does not invalidate a pending-authorization cookie, and that is the only
  change that does not (`AcceptedIffIssued`).
- The separate email-verification challenge is unreachable from both the pre-flight and the password
  issuer (`PreflightNeverVerifies`, `IssuerNeverVerifies`); only a signed-in request creates one, and
  for that no password is asked (`ChallengeOrigin`).

## Model

| member | source | states |
|---|---|---|
| Base32.AlphabetSpelled | apps/auth/src/lib/auth/totp.ts:8 | the 32 symbols are the alphabet constant, in order |
| Base32.Base32Encode | apps/auth/src/lib/auth/totp.ts:12-28 | the shift-register loop writes the unpadded text of section 6 of RFC 4648 for every octet string: bits regrouped in fives, the last group filled with zeros |
| Base32.DebrisNeverRead | apps/auth/src/lib/auth/totp.ts:19-22 | a symbol depends only on the low twelve bits of the register, so its overflow is harmless |
| Base32.EncodedLength | apps/auth/src/lib/auth/totp.ts:12-28 | the text has ceil(8n/5) symbols |
| Base32.Base32Decode | apps/auth/src/lib/auth/totp.ts:30-48 | the loop gives the whole octets of the bits the cleaned text spells, or fails on the first foreign character |
| Base32.RoundTrip | apps/auth/src/lib/auth/totp.ts:12-48 | decoding undoes encoding after any change of case, any inserted white space and any number of `=` at the end |
| Base32.PlainRoundTrip | apps/auth/src/lib/auth/totp.ts:12-48 | decoding undoes encoding on the text as written |
| Base32.EncodeDecode | apps/auth/src/lib/auth/totp.ts:12-48 | encoding undoes decoding of an upper-case text if and only if its length mod 8 is 0, 2, 4, 5 or 7 and the left-over bits are zero |
| Base32.SpaceAfterPaddingRejected | apps/auth/src/lib/auth/totp.ts:31-39 | white space after `=` leaves an `=` in the text and makes decoding fail, for every text |
| Base32.TailAccepted | apps/auth/src/lib/auth/totp.ts:31-39 | for every text of every octet string and every tail of `=` and white space, decoding gives the octets back if and only if no white space follows an `=` in the tail, and fails as a foreign character otherwise |
| Totp.CounterBytes | apps/auth/src/lib/auth/totp.ts:55-63 | the loop fills the array with the big-endian octets of any integer |
| Totp.CounterOctets | apps/auth/src/lib/auth/totp.ts:55-63 | those eight octets are the counter modulo 2^64 |
| Totp.CounterInjective | apps/auth/src/lib/auth/totp.ts:55-63 | no two integers below 2^53 in size share them |
| Totp.Truncation | apps/auth/src/lib/auth/totp.ts:74-79 | section 5.3 of RFC 4226: for every 20-octet tag the reads stay inside it and the signed shifts give the 31-bit number at the offset, never negative |
| Totp.CodeIsSixDigits | apps/auth/src/lib/auth/totp.ts:80 | the code is six digits and reads back as the truncated value modulo 10^6 |
| Totp.ComputeHotp | apps/auth/src/lib/auth/totp.ts:65-81 | the code is that of the tag over the eight counter octets, and six digits |
| Totp.TryWindow | apps/auth/src/lib/auth/totp.ts:107-113 | the loop answers whether some step within the window has the code |
| Totp.VerifyTotp | apps/auth/src/lib/auth/totp.ts:95-114 | true if and only if the trimmed code is six digits and that of a 30-second step within the window of section 5.2 of RFC 6238; six digits against an unreadable secret fail |
| Totp.AcceptanceInterval | apps/auth/src/lib/auth/totp.ts:83-114 | the code of step s passes throughout [(s-w)*30000, (s+w+1)*30000) ms, and elsewhere only if another step in the window shares it |
| Totp.SkewTolerated | apps/auth/src/lib/auth/totp.ts:91-114 | with the default window clocks up to 30 s apart agree |
| Totp.SkewBoundTight | apps/auth/src/lib/auth/totp.ts:83-100 | 30 s is exact: any larger skew can put two instants more than one step apart |
| Totp.EnrolledCodeAccepted | apps/auth/src/lib/auth/totp.ts:12-114 | a code computed from the key octets is accepted against the base32 text stored for them, clocks within 30 s |
| Base64Url.Base64UrlEncode | apps/auth/src/lib/auth/oauth-pending-cookie.ts:51-57 | the output is the unpadded text of section 5 of RFC 4648 for every octet string |
| Base64Url.Base64UrlDecode | apps/auth/src/lib/auth/oauth-pending-cookie.ts:59-68 | the loop gives the octets `atob` yields for the re-padded text, or fails with it |
| Base64Url.RoundTrip | apps/auth/src/lib/auth/oauth-pending-cookie.ts:51-68 | decoding undoes encoding for every octet string |
| Base64Url.OutputAlphabet | apps/auth/src/lib/auth/oauth-pending-cookie.ts:56 | only `[A-Za-z0-9_-]` is written, so never a dot |
| Base64Url.TextLength | apps/auth/src/lib/auth/oauth-pending-cookie.ts:51-57 | the length is ceil(8n/6) and never 1 modulo 4 |
| Base64Url.PaddingRestored | apps/auth/src/lib/auth/oauth-pending-cookie.ts:60-61 | re-padding restores exactly the `=` that was taken off |
| PendingCookie.SanitizeParams | apps/auth/src/lib/auth/oauth-pending-cookie.ts:95-105 | the loop keeps exactly the ten known parameters that are non-blank texts, trimmed |
| PendingCookie.SanitizedIff | apps/auth/src/lib/auth/oauth-pending-cookie.ts:4-18 | a parameter survives if and only if it is one of the ten spelled out and a non-blank text; its value is then the trimmed text |
| PendingCookie.SanitizedIdempotent | apps/auth/src/lib/auth/oauth-pending-cookie.ts:95-105 | sanitising twice is sanitising once |
| PendingCookie.Verify | apps/auth/src/lib/auth/oauth-pending-cookie.ts:83-93 | the xor/or loop decides equality with the expected signature |
| PendingCookie.EncodePendingAuthorizationCookie | apps/auth/src/lib/auth/oauth-pending-cookie.ts:129-141 | payload, dot and signature of the sanitised parameters with expiry now + 300 s; no secret is an error |
| PendingCookie.DecodePendingAuthorizationCookie | apps/auth/src/lib/auth/oauth-pending-cookie.ts:143-164 | the parameters of a correctly signed unexpired envelope, otherwise nothing |
| PendingCookie.FramedParts | apps/auth/src/lib/auth/oauth-pending-cookie.ts:148 | splitting at the dot gives back payload and signature |
| PendingCookie.RoundTrip | apps/auth/src/lib/auth/oauth-pending-cookie.ts:129-164 | a cookie of second t reads back as its sanitised parameters at every second before t+300 and as nothing from then on |
| PendingCookie.Lifetime | apps/auth/src/lib/auth/oauth-pending-cookie.ts:129-164 | in milliseconds: always good for 299 s, never for 300 s |
| PendingCookie.AcceptedWasIssued | apps/auth/src/lib/auth/oauth-pending-cookie.ts:83-164 | under an unforgeable MAC any accepted value carries the parameters of a cookie issued less than 300 s before |
| PendingCookie.TrailingPartsIgnored | apps/auth/src/lib/auth/oauth-pending-cookie.ts:148 | text after a second dot changes nothing |
| PendingCookie.AcceptedIffIssued | apps/auth/src/lib/auth/oauth-pending-cookie.ts:143-164 | under an unforgeable MAC a value is accepted if and only if it is a cookie issued less than 300 s before, alone or followed by a dot and anything; it then reads as the parameters of that cookie |
| PendingCookie.NoKeyReadsNothing | apps/auth/src/lib/auth/oauth-pending-cookie.ts:143-164 | without a key no cookie is accepted |
| UserTable.FindById | apps/auth/src/lib/repositories/admin.repository.d1.ts:148-176 | a row with the id if there is one, none only if there is none |
| UserTable.FindByUsername | apps/auth/src/lib/repositories/admin.repository.d1.ts:78-110 | the same by user name |
| UserTable.FoundById | db/schema.sql:36-37 | with distinct ids a stored row is the one its id finds |
| UserTable.EnvironmentsOf | apps/auth/src/lib/repositories/admin.repository.d1.ts:266-272 | exactly the environments granted to the user |
| UserTable.EnvironmentsUpToOrder | apps/auth/src/lib/repositories/admin.repository.d1.ts:266-272 | the order in which a SELECT returns rows changes only the order of the answer |
| UserTable.FindInUpdated | apps/auth/src/lib/repositories/admin.repository.d1.ts:178-221 | an update is seen on its row and on no other |
| UserTable.HarmlessPatch | db/schema.sql:36-65 | an update of neither name nor admin flag meets no constraint |
| UserTable.UpdateAllowedIff | db/schema.sql:36-60 | an update of a stored row is aborted if and only if its new name is another row's or it would make a test user an admin |
| UserTable.FindInRemoved | apps/auth/src/lib/repositories/admin.repository.d1.ts:223-225 | a deletion removes that row and no other |
| UserRepository.Repository.Create | apps/auth/src/lib/repositories/admin.repository.d1.ts:12-39 | one row is added unless the id or name is taken or a test user would be an admin; the constraints are kept |
| UserRepository.Repository.List | apps/auth/src/lib/repositories/admin.repository.d1.ts:41-76 | whatever order the rows arrive in, the grouping loop gives each user exactly the grants `getUserEnvironments` would return |
| UserRepository.Repository.SetClauses | apps/auth/src/lib/repositories/admin.repository.d1.ts:178-213 | the i-th placeholder meets the i-th bound value: the statement built does to any row what a record update of the defined fields does |
| UserRepository.Repository.RunUpdate | apps/auth/src/lib/repositories/admin.repository.d1.ts:216-220 | only rows with the last bound value as id differ, and by the assignments; nothing changes if a constraint would break; the constraints hold afterwards |
| UserRepository.Repository.Update | apps/auth/src/lib/repositories/admin.repository.d1.ts:178-221 | the table afterwards is the record update of exactly the defined fields on that row, or unchanged if it would break a constraint; an empty update does nothing |
| UserRepository.Pushed | apps/auth/src/lib/repositories/admin.repository.d1.ts:182-213 | one more placeholder and value store one more field |
| UserRepository.Repository.Delete | apps/auth/src/lib/repositories/admin.repository.d1.ts:223-225 | the row and its grants go, the constraints stay |
| UserRepository.Repository.GetUserEnvironments | apps/auth/src/lib/repositories/admin.repository.d1.ts:266-272 | whatever order the rows arrive in, exactly the environments granted to the user, each as often as it is granted, so once where grants are distinct |
| UserRepository.Repository.SetUserEnvironments | apps/auth/src/lib/repositories/admin.repository.d1.ts:274-286 | the batch replaces the grants, or leaves them all if an environment or the user is missing |
| UserRepository.ReplacedEnvironments | apps/auth/src/lib/repositories/admin.repository.d1.ts:274-286 | afterwards the user has the requested environments without duplicates and everyone else the same as before |
| UserRepository.Repository.ListTestUsersByEnvironment | apps/auth/src/lib/repositories/admin.repository.d1.ts:227-264 | exactly the test users granted the environment, none an admin |
| UserRepository.JoinIsSelection | apps/auth/src/lib/repositories/admin.repository.d1.ts:229-242 | the join offers each of them once |
| PasswordHash.AcceptedIffOpens | apps/auth/src/lib/auth/password-hash.ts:123-182 | with the service up, argon mode accepts exactly what the stored hash stands for |
| PasswordHash.AcceptedOpens | apps/auth/src/lib/auth/password-hash.ts:123-182 | in either mode and with the service failing, nothing else is accepted, and a new hash is given only for the password just proved |
| PasswordHash.ServiceDecides | apps/auth/src/lib/auth/password-hash.ts:123-168 | an Argon2 hash is accepted if and only if, in argon mode, the bound service confirms the password; an exception if and only if it cannot be reached |
| PasswordHash.UnknownShapeRejected | apps/auth/src/lib/auth/password-hash.ts:123-182 | what is neither Argon2 nor 32 hexadecimal digits opens to nobody |
| PasswordHash.HashesIff | apps/auth/src/lib/auth/password-hash.ts:28-71 | a password is hashed with MD5 in its mode, and otherwise if and only if the bound service gives an Argon2 string |
| PasswordHash.HashThenVerify | apps/auth/src/lib/auth/password-hash.ts:60-182 | a new hash verifies with its password in its own mode, and in argon mode with no other |
| PasswordHash.NewHashRefusesOld | apps/auth/src/lib/auth/password-hash.ts:60-182 | a hash of a password that the old hash refused refuses the old password |
| PasswordHash.RehashAccepts | apps/auth/src/lib/auth/password-hash.ts:169-179 | an upgraded hash accepts the password that caused the upgrade |
| PasswordHash.EmptyHashNeverAccepted | apps/auth/src/lib/auth/password-hash.ts:123-182 | no password opens the empty hash of a test user, in any mode |
| PasswordHash.PaddedMd5NeverAccepted | apps/auth/src/lib/auth/password-hash.ts:12-14 | an MD5 hash with surrounding space passes the shape test and never matches |
| PasswordHash.Md5AcceptedIffTrimmed | apps/auth/src/lib/auth/password-hash.ts:123-182 | a stored MD5 hash of the password is accepted if and only if it has no surrounding space and, in argon mode, the service gives a new hash; rejected if and only if padded or the service is not bound |
| PasswordHash.OnlyHashChanges | apps/auth/src/auth.ts:95-118 | over any run of attempts only the hash of the row changes, so its age does not |
| PasswordHash.Argon2IsFinal | apps/auth/src/lib/auth/password-hash.ts:159-168 | over any run an Argon2 row stays as it is, so it never returns to MD5 |
| PasswordHash.NeverOpensMore | apps/auth/src/lib/auth/password-hash.ts:123-182 | over any run, modes mixed and the service up or down, the passwords a row stands for never grow |
| PasswordHash.AcceptedStaysAccepted | apps/auth/src/lib/auth/password-hash.ts:123-182 | a password accepted in argon mode is from then on the one and only password of the row |
| LazyUpgrade.ChangeSurvivesIff | apps/auth/src/auth.ts:95-118 | over any run of uses and changes: a change survives if and only if no upgrade earned before it is written after it |
| LazyUpgrade.UpgradeComesBack | apps/auth/src/auth.ts:116-118 | a run in which the upgrade is written over the change |
| PasswordHash.ChangeSurvivesIff | apps/auth/src/auth.ts:95-118 | a change of password survives the attempts that overlap it if and only if no upgrade they earned before it is written after it |
| PasswordHash.OldPasswordComesBack | apps/auth/src/auth.ts:116-118 | a run in which the upgrade puts the old password back |
| SecretAtRest.HexEqualDigits | apps/auth/src/lib/crypto/hmac-sha256.ts:21-28 | the comparison of decoded hex holds exactly if every digit has the same value |
| SecretAtRest.DigestAccepts | apps/auth/src/lib/auth/secret-at-rest.ts:22-46 | a stored digest matches exactly the secret it was made from |
| SecretAtRest.MigrationKeepsAccepted | apps/auth/src/lib/auth/secret-at-rest.ts:31-55 | over any run of presentations the accepted secrets stay the same |
| SecretAtRest.LegacyAccepts | apps/auth/src/lib/auth/secret-at-rest.ts:47-54 | a plain secret not starting with `h1:` is itself the one accepted; once upgraded it is refused without the key |
| SecretAtRest.RotationSurvivesIff | apps/auth/src/lib/services/oauth-token.service.ts:227-233 | a rotated secret survives the presentations that overlap the rotation if and only if no digest they earned before it is written after it |
| SecretAtRest.OldSecretComesBack | apps/auth/src/lib/services/client.service.ts:357-369 | a run after which the old secret is good and the rotated one is not |
| PasswordPolicy.ClassesPartition | apps/auth/src/lib/auth/password-policy-validation.ts:67-88 | the four character classes partition the length in UTF-16 units |
| PasswordPolicy.CountPlaces | apps/auth/src/lib/auth/password-policy-validation.ts:67-88 | upper-case, lower-case and digit counts are the numbers of places holding A-Z, a-z and 0-9 |
| PasswordPolicy.HasIdentifierIff | apps/auth/src/lib/auth/password-policy-validation.ts:89-105 | the identifier rule is broken if and only if the trimmed user name or the trimmed address up to its first `@`, of three units or more, stands in the password, case aside |
| PasswordPolicy.ValidatePasswordAgainstPolicy | apps/auth/src/lib/auth/password-policy-validation.ts:49-109 | the result lists the broken rules in order with their details, and is ok if and only if the password complies |
| PasswordPolicy.ViolationsAre | apps/auth/src/lib/auth/password-policy-validation.ts:49-109 | each violation is reported if and only if its rule is broken, with that bound and that count |
| PasswordPolicy.ListPolicyRequirements | apps/auth/src/lib/auth/password-policy-validation.ts:146-185 | the checklist is the rules of the policy in order |
| PasswordPolicy.ListedIff | apps/auth/src/lib/auth/password-policy-validation.ts:146-185 | a rule is on the checklist if and only if the policy has it |
| PasswordPolicy.ViolationsFollowChecklist | apps/auth/src/lib/auth/password-policy-validation.ts:140-145 | violation codes are an ordered sub-list of the checklist |
| PasswordPolicy.InOrder | apps/auth/src/lib/auth/password-policy-validation.ts:49-185 | both come in the order lengths, upper case, lower case, digits, special, identifier, each rule at most once |
| PasswordPolicy.ReportedIffBroken | apps/auth/src/lib/auth/password-policy-validation.ts:140-145 | a line of the checklist is unmet exactly if its code is among the violations |
| PasswordPolicy.Satisfiable | apps/auth/src/lib/auth/password-policy-validation.ts:49-109 | without the identifier rule an enabled policy can be met if and only if the maximum leaves room for the minimum length and for the class minima together |
| PasswordPolicy.LooseningKeeps | apps/auth/src/lib/auth/password-policy-validation.ts:49-109 | loosening any bound keeps every compliant password compliant |
| PasswordPolicy.AcceptedRulesSatisfiable | apps/auth/src/lib/services/password-policy.service.ts:32-74 | rules that pass the checks on saving can be met if and only if the class minima together fit under the maximum |
| PasswordPolicy.AcceptedButImpossible | apps/auth/src/lib/services/password-policy.service.ts:32-74 | a policy that passes those checks and that no password meets |
| EscapeHtml.OnePass | apps/auth/src/lib/email/transactional-html.ts:2-8 | the four passes are one map over characters |
| EscapeHtml.EscapeConcat | apps/auth/src/lib/email/transactional-html.ts:2-8 | escaping distributes over concatenation |
| EscapeHtml.OutputInert | apps/auth/src/lib/email/transactional-html.ts:2-8 | no `<`, `>` or `"` is left and every `&` starts one of the four entities |
| EscapeHtml.UnescapeEscape | apps/auth/src/lib/email/transactional-html.ts:2-8 | a left-to-right reader recovers the text |
| SessionRefresh.RefreshAdminClaim | apps/auth/src/lib/auth/session-admin-refresh.ts:31-59 | the claims are re-derived when due and read, and untouched otherwise |
| SessionRefresh.Jwt | apps/auth/src/auth.ts:521-545 | claims are stamped at sign-in with the profile of the user, and afterwards only the admin claim is refreshed |
| SessionRefresh.ClaimsOfLastSource | apps/auth/src/lib/auth/session-admin-refresh.ts:31-59 | over any run the claims are exactly those of the last successful look-up, or of the sign-in |
| SessionRefresh.BoundedStaleness | apps/auth/src/lib/auth/session-admin-refresh.ts:1-59 | after a call without a look-up error the claim was stamped less than an interval before |
| SessionRefresh.RevocationTakesEffect | apps/auth/src/lib/auth/session-admin-refresh.ts:1-9 | a lasting change of the flag or a deletion shows after one interval at the latest |
| SessionRefresh.DeletedStaysOut | apps/auth/src/lib/auth/session-admin-refresh.ts:55-58 | a deleted user's claim is false from the first successful look-up on |
| SessionRefresh.SuccessesSpaced | apps/auth/src/lib/auth/session-admin-refresh.ts:40-57 | successful look-ups are at least an interval apart |
| SessionRefresh.SuccessesSpan | apps/auth/src/lib/auth/session-admin-refresh.ts:40-57 | k of them span at least (k-1) intervals, and k from the sign-in |
| ScopeCache.DiscoveryCache.GetCachedScopeNames | apps/auth/src/lib/cache/scope-discovery-cache.ts:12-23 | a call alone answers from an unexpired entry or fetches and stores; a failing fetch changes nothing |
| ScopeCache.BoundedStaleness | apps/auth/src/lib/cache/scope-discovery-cache.ts:5-23 | under every interleaving each answer is the scope table as it stood at some moment of the run later than 300000 ms before the call began |
| ScopeCache.StepSound | apps/auth/src/lib/cache/scope-discovery-cache.ts:12-23 | every step of every call keeps the invariant behind it |
| ScopeCache.ReadingIsTable | apps/auth/src/lib/cache/scope-discovery-cache.ts:19-20 | every reading is the table as it stood at the event that took it |
| ScopeCache.OnlyFinishWrites | apps/auth/src/lib/cache/scope-discovery-cache.ts:19-22 | only a call that has read the table writes the cache |
| ScopeCache.StartAnswersIff | apps/auth/src/lib/cache/scope-discovery-cache.ts:12-18 | in every run a call is answered at once, with the names of the call that wrote the cache last, if and only if it starts less than 300000 ms after that call started; otherwise it reads the table |
| ScopeCache.FinishLowersExpiry | apps/auth/src/lib/cache/scope-discovery-cache.ts:19-21 | a write shortens the life of the entry if and only if its call began before the one that wrote it |
| ScopeCache.AnswersGoForward | apps/auth/src/lib/cache/scope-discovery-cache.ts:12-23 | a run answers from non-decreasing readings if and only if no call in it puts an older reading over a newer one |
| ScopeCache.ApartGoesForward | apps/auth/src/lib/cache/scope-discovery-cache.ts:12-23 | so do runs without overlapping calls |
| ScopeCache.AloneIsSequential | apps/auth/src/lib/cache/scope-discovery-cache.ts:12-23 | a call with no other in between behaves as the method |
| ScopeCache.OlderOverwritesNewer | apps/auth/src/lib/cache/scope-discovery-cache.ts:19-21 | a run in which an older fetch overwrites a newer one |
| TokenManager.Manager.GetAccessToken | packages/eetr-auth-client/src/tokens.ts:11-23 | a token in memory with more than 30000 ms left is returned and nothing changes; else a refresh, else an error, with the fields each leaves |
| TokenManager.Manager.SetTokens | packages/eetr-auth-client/src/tokens.ts:25-29 | all three fields come from the response |
| TokenManager.Manager.Refresh | packages/eetr-auth-client/src/tokens.ts:31-43 | a successful exchange is stored and its response returned, a failed one leaves the fields |
| TokenManager.FieldsAreLatest | packages/eetr-auth-client/src/tokens.ts:11-43 | over any run the fields are those of the latest response |
| TokenManager.GetFromLatest | packages/eetr-auth-client/src/tokens.ts:11-23 | what a call does from the latest response alone: while its token lasts 30000 ms more it is returned without a request; otherwise its refresh token is sent, or there is none and the call fails |
| TokenManager.ReturnedIsLatest | packages/eetr-auth-client/src/tokens.ts:11-23 | a returned token is that of the latest response, and comes from memory only with more than 30000 ms left |
| TokenManager.NoRefreshTokenTwice | packages/eetr-auth-client/src/tokens.ts:15-43 | if no response repeats a refresh token, none is presented again after a successful exchange |
| TokenManager.FailedExchangeRetries | packages/eetr-auth-client/src/tokens.ts:31-43 | a failed exchange changes nothing and the same token may be tried again |
| TokenManager.StrandedWhen | packages/eetr-auth-client/src/tokens.ts:11-29 | a call fails for want of a token exactly if the latest response had no refresh token and its access token cannot be used |
| TokenManager.OmittedRefreshTokenIsLost | packages/eetr-auth-client/src/tokens.ts:25-29 | a refresh response without a refresh token ends the session when its access token runs out |
| TokenOverlaps.HeldIsLastStored | packages/eetr-auth-client/src/tokens.ts:25-29 | under every interleaving of calls the fields are those of the response stored last |
| TokenOverlaps.SameTokenSentIff | packages/eetr-auth-client/src/tokens.ts:11-43 | two calls send the same refresh token if and only if no response is stored between them, provided no response repeats one |
| TokenOverlaps.TwoSendOne | packages/eetr-auth-client/src/tokens.ts:15-17 | a run in which two do |
| TokenOverlaps.ReturnFindsToken | packages/eetr-auth-client/src/tokens.ts:15-17 | a call that has refreshed finds a token to return, as the non-null assertion claims: that of the response stored last, its own if and only if none was stored since |
| TokenOverlaps.AloneIsGet | packages/eetr-auth-client/src/tokens.ts:11-23 | with nothing in between, the steps are the method |
| Challenges.AcceptedConsumes | apps/auth/src/lib/services/user-challenge.service.ts:257-285 | a code is accepted exactly if it is that of a live challenge of the user and kind; the challenge is then gone and no other is touched |
| Challenges.RefusedLeaves | apps/auth/src/lib/services/user-challenge.service.ts:263-283 | what each refusal means and leaves: an expired challenge goes, a wrong code is counted, and the challenge goes with the code that reaches the limit |
| Challenges.OnlyTheCode | apps/auth/src/lib/services/user-challenge.service.ts:270-271 | a challenge takes exactly the code it was made for, space around it aside |
| Challenges.StepsAreTheCall | apps/auth/src/lib/services/user-challenge.service.ts:257-285 | reading, comparing and writing with nothing in between is the whole verification |
| CodeTries.ReadDecides | apps/auth/src/lib/services/user-challenge.service.ts:257-285 | under every interleaving a call is accepted if and only if the challenge was there, live, and its code right, when it read; what happens before it writes makes no difference |
| CodeTries.RowOverTime | apps/auth/src/lib/services/user-challenge.service.ts:257-285 | a challenge once gone stays gone, and while there only its counter moves |
| CodeTries.SecondAcceptedIff | apps/auth/src/lib/services/user-challenge.service.ts:257-285 | of two calls with fitting codes, the first accepted, the second is too if and only if nothing has removed the challenge before it reads, and only if it reads before the first writes |
| CodeTries.OneAcceptedWhenApart | apps/auth/src/lib/services/user-challenge.service.ts:257-285 | after an accepted call has written, no later one is accepted |
| CodeTries.OneCodeTwice | apps/auth/src/lib/services/user-challenge.service.ts:257-285 | for every live challenge and its code, a run in which two calls are accepted |
| CodeTries.LimitExceededIff | apps/auth/src/lib/services/user-challenge.service.ts:270-283 | a challenge is compared with more codes than the limit leaves it if and only if some call reads while failures counted and calls under way reach the limit |
| CodeTries.ApartKeepsLimit | apps/auth/src/lib/services/user-challenge.service.ts:270-283 | calls that compare while nobody else is at work on the challenge keep the limit |
| CodeTries.OverlappingAllCompared | apps/auth/src/lib/services/user-challenge.service.ts:270-283 | any number of overlapping tries are all compared |
| SignIn.GatesAgree | apps/auth/src/lib/auth/email-mfa-enablement.ts:3-22 | the row-based gate is `mfaEnabled && mfaCanEnable` of the settings service |
| SignInServer.Server.VerifyUsernamePassword | apps/auth/src/lib/services/user-challenge.service.ts:134-147 | the user of the trimmed name if the password passes, with the upgraded hash stored |
| SignInServer.Server.CreateOtpAndSendEmail | apps/auth/src/lib/services/user-challenge.service.ts:149-255 | a challenge of the kind is stored, earlier verification challenges being dropped, and stays if the mail fails |
| SignInServer.Server.VerifyOtpAndConsume | apps/auth/src/lib/services/user-challenge.service.ts:257-285 | the store and result of a try, deletions and the failure counter included |
| SignInServer.Server.VerifyEmailVerificationOtpAndConsume | apps/auth/src/lib/services/user-challenge.service.ts:287-312 | the same for the code of an address, which an accepted code also marks verified |
| SignInServer.Server.RequestEmailVerification | apps/auth/src/lib/services/user-challenge.service.ts:327-341 | a signed-in user who is no admin and has an unverified address is mailed a code, with no password asked |
| SignInServer.Server.CreateUser | apps/auth/src/lib/services/user.service.ts:145-201 | one tidy row is added, or none and the table stays |
| SignInServer.Server.UpdateUser | apps/auth/src/lib/services/user.service.ts:236-328 | the table after the patch built field by field, still well kept; it throws and changes nothing exactly if the user is missing or the update refused |
| SignInServer.Server.ProfilePatch | apps/auth/src/lib/services/user.service.ts:253-276 | the profile fields of the patch, the address unverified when it changes |
| SignInServer.Server.RefusesAdmin | apps/auth/src/lib/services/user.service.ts:299-318 | a test user is made no admin, nobody gives up their own rights, and the last admin stays |
| SignInServer.Server.DeleteUser | apps/auth/src/lib/services/user.service.ts:388-420 | the row goes with its grants, challenges and tokens, or nothing changes |
| SignInServer.Server.MarkEmailVerified | apps/auth/src/lib/services/user-challenge.service.ts:319-325 | the address is stamped once, for a non-admin with an address |
| SignInServer.CookieJar.ClearSignInChallenge | apps/auth/src/app/actions/mfa-actions.ts:13-18 | both challenge cookies go, the pending one stays |
| SignInServer.Server.BeginSignInChallenge | apps/auth/src/app/actions/mfa-actions.ts:31-164 | tables, cookies and answer after the ordered gates: no access without a grant for the environment of the pending client, expiry, policy and second factor each exactly under its condition; never `verifyEmail` |
| SignInServer.Server.BeginChallenge | apps/auth/src/app/actions/mfa-actions.ts:97-133 | the choice of second factor |
| SignInServer.Server.SkipOrVerifyEmail | apps/auth/src/app/actions/mfa-actions.ts:135-162 | the end of the pre-flight for a user without one |
| SignInServer.Server.RequestEmailMfaCode | apps/auth/src/app/actions/mfa-actions.ts:220-246 | a code is mailed after the password; `ok` leaves its challenge stored and the cookie naming it |
| SignInServer.Server.ChangePasswordAtSignIn | apps/auth/src/app/actions/mfa-actions.ts:172-213 | `ok` if and only if the current password is right, the new one is another, the policy passes it and it can be stored |
| SignInServer.Server.UpdatePassword | apps/auth/src/lib/services/user.service.ts:277-292 | hash and date are written for a non-blank password, never for a test user |
| SignInServer.Server.AuthorizePassword | apps/auth/src/auth.ts:41-317 | tables, cookies and verdict; a session if and only if the user is entitled to it: right password, policy not failed, and an accepted authenticator code, the live mailed code, or no factor due |
| SignInServer.Server.CheckSecondFactor | apps/auth/src/auth.ts:163-317 | a session through each factor exactly under its conditions |
| SignInServer.Server.RedeemVerificationCode | apps/auth/src/auth.ts:251-299 | its branch for the verification challenge |
| SignInServer.Server.AuthorizeWithPasskey | apps/auth/src/auth.ts:324-421 | a session if and only if the token is live and its user neither a test user nor unverified; the token is then used up |
| SignInServer.Server.AuthorizeAsTestUser | apps/auth/src/auth.ts:452-516 | a session, never with admin rights, if and only if every condition re-derived holds |
| SignInGates.PendingIsNamed | apps/auth/src/lib/auth/pending-client.ts:21-30 | the pending client is the one the cookie names in a non-blank `client_id` |
| SignInGates.IssuerMintsIff | apps/auth/src/auth.ts:41-317 | the issuer opens a session for exactly the users entitled to one, in exactly the ways they are |
| SignInGates.AuthenticatorChecked | apps/auth/src/auth.ts:196-206 | a session opened with an authenticator: the user is enrolled and the code was accepted |
| SignInGates.FactorMintsIff | apps/auth/src/auth.ts:163-317 | which second factor lets a user through, exactly when |
| SignInGates.IssuerFailsIff | apps/auth/src/auth.ts:95-98 | the issuer fails, beyond refusing, if and only if the hashing service does |
| SignInGates.IssuerWrites | apps/auth/src/auth.ts:116-250 | whatever it answers, it leaves the upgraded hash of the user with the right password, the date of an address a mailed code has proved, and every other row as it was |
| SignInGates.MarkedRow | apps/auth/src/lib/services/user-challenge.service.ts:319-325 | the date is set if and only if the user is no admin, has an address and no date yet |
| SignInGates.PreflightIff | apps/auth/src/app/actions/mfa-actions.ts:31-164 | each answer of the pre-flight exactly under its condition: bad credentials, no access, expired, out of policy, then the second factor |
| SignInGates.ChoiceIff | apps/auth/src/app/actions/mfa-actions.ts:97-133 | what is offered after the password: nothing, the methods, or a refusal, each exactly when |
| SignInGates.PreflightLeaves | apps/auth/src/app/actions/mfa-actions.ts:31-164 | rows, challenges and cookies after each answer: a code is mailed exactly if it is all that is offered |
| SignInGates.WithoutFactorIff | apps/auth/src/app/actions/mfa-actions.ts:135-162 | the end of the pre-flight, each answer exactly when |
| SignInGates.RedeemVerificationIff | apps/auth/src/auth.ts:251-299 | the verification branch taken by itself: a session if and only if the code is that of the live challenge in the cookie, which then goes |
| SignInGates.RequestIff | apps/auth/src/app/actions/mfa-actions.ts:220-246 | each answer to a request for a code exactly when, and the challenge and cookie left |
| SignInGates.ChangeIff | apps/auth/src/app/actions/mfa-actions.ts:172-213 | each answer to a change of password exactly when |
| SignInGates.ChangePassesPolicy | apps/auth/src/app/actions/mfa-actions.ts:189-198 | an `ok` change has passed the policy of the pending environment |
| SignInGates.ChangeWrites | apps/auth/src/app/actions/mfa-actions.ts:172-213 | the row it leaves, whatever it answers, and every other as it was |
| SignInGates.TestUserIff | apps/auth/src/auth.ts:452-516 | the test-user provider opens a session if and only if the pending client is an unexpired test client in an environment granted to a test user who is no admin |
| SignInGates.PasskeyIff | apps/auth/src/auth.ts:324-421 | an exchange token opens a session if and only if it is live and its user may; a live one is used up either way |
| SignInGates.VerificationIff | apps/auth/src/lib/services/user-challenge.service.ts:201-341 | a signed-in request mails a code for an address if and only if there is one to verify; the challenge is then the only one of its user and kind |
| SignInFacts.BeginPassed | apps/auth/src/app/actions/mfa-actions.ts:41-95 | an answer of `none` or `mfa` means name, password and policy have passed |
| SignInFacts.IssuerFollows | apps/auth/src/auth.ts:41-317 | for any table: in any state with the same user and pending authorization the issuer follows the pre-flight |
| SignInFacts.AgreeOnTrimmedNames | apps/auth/src/app/actions/mfa-actions.ts:97-162 | in one state, for any table and a name without surrounding space: after `none` the issuer mints, without a code, if and only if name and password are not empty and the row is no test user's; after `mfa` it refuses without a code and mints only through a listed method |
| SignInFacts.AgreeInOneState | apps/auth/src/app/actions/mfa-actions.ts:97-162 | the same for any name as typed, in a table as the user service keeps it: the issuer mints if and only if there is no space around the name and the password is not empty |
| SignInFacts.AgreeAfterwards | apps/auth/src/auth.ts:120-299 | the same in the state the pre-flight leaves, new hash and cookies included |
| SignInFacts.MailedCodeOpens | apps/auth/src/auth.ts:219-250 | a code the pre-flight mails opens the session it was mailed for, with the same name and password, at any time within ten minutes |
| UserService.CreateWellKept | apps/auth/src/lib/services/user.service.ts:154-201 | a created user leaves names trimmed and test users without a hash |
| UserService.UserUpdateWellKept | apps/auth/src/lib/services/user.service.ts:236-328 | so does an update |
| UserService.ResetWellKept | apps/auth/src/lib/services/user-challenge.service.ts:487-511 | so does a reset of a password |
| UserService.PasswordAlone | apps/auth/src/app/actions/mfa-actions.ts:200-201 | the change of password at sign-in writes what an update of the password alone writes |
| UserService.NewUserIff | apps/auth/src/lib/services/user.service.ts:145-196 | exactly which row is created, field by field, if one is |
| UserService.CreatedOpens | apps/auth/src/lib/services/user.service.ts:154-201 | a created user is found by name and the password given opens the row |
| UserService.UpdatedFields | apps/auth/src/lib/services/user.service.ts:253-318 | every field after an update; a changed address of a non-admin is unverified, one that differs in case or space is not |
| UserService.RefusedIff | apps/auth/src/lib/services/user.service.ts:253-318 | exactly which updates are refused |
| UserService.UserUpdateWrites | apps/auth/src/lib/services/user.service.ts:236-328 | the row an update means gets the patch unless it is refused or the name is taken, and no other row changes |
| UserService.AnAdminStays | apps/auth/src/lib/services/user.service.ts:299-318 | no update leaves a table that had an admin without any |
| UserService.DeleteIff | apps/auth/src/lib/services/user.service.ts:388-420 | a user is deleted if and only if neither the actor nor the last admin; that row goes and every other stays |
| UserService.AnAdminSurvives | apps/auth/src/lib/services/user.service.ts:388-420 | no deletion leaves a table that had an admin without any, or takes the actor's own row |
| UserService.ResetWrites | apps/auth/src/lib/services/user-challenge.service.ts:487-511 | a reset writes hash and date of its user and nothing else |
| AgreementRuns.StepWellKept | apps/auth/src/lib/services/user.service.ts:145-328 | every event but a statement from outside the user service keeps the table so |
| AgreementRuns.RunWellKept | apps/auth/src/lib/services/user.service.ts:145-328 | and so does every run of them |
| AgreementRuns.AgreeInEveryRun | apps/auth/src/app/actions/mfa-actions.ts:97-162 | at every moment of every such run, pre-flight and issuer agree as in one state |
| AgreementRuns.AgreeAfterPreflight | apps/auth/src/auth.ts:120-299 | and when the pre-flight is an event of the run, in the state it leaves |
| SignInFacts.PaddedNameDisagrees | apps/auth/src/auth.ts:46-69 | with a space before the name the pre-flight answers as without and the issuer refuses |
| SignInFacts.UnverifiedNeedsCode | apps/auth/src/auth.ts:123-299 | while codes can be mailed, a session for an unverified non-admin used an authenticator or a mailed code, and a mailed code leaves the address verified |
| SignInFacts.PasskeyNeedsVerified | apps/auth/src/auth.ts:353-399 | a passkey opens no session for such a user or a test user |
| SignInFacts.PreflightNeverVerifies | apps/auth/src/app/actions/mfa-actions.ts:139-162 | the pre-flight never asks for the verification challenge and creates none |
| SignInFacts.IssuerNeverVerifies | apps/auth/src/auth.ts:251-299 | the issuer never opens a session with one and uses none up |
| SignInFacts.NeverBothCookies | apps/auth/src/app/actions/mfa-actions.ts:113-162 | in every run from an empty jar the two challenge cookies are never both present |
| SignInFacts.EmailCodeUsesChallenge | apps/auth/src/auth.ts:219-244 | a mailed-code session used up the live challenge of its own user that the cookie named |
| SignInFacts.ChangeTakesEffect | apps/auth/src/app/actions/mfa-actions.ts:179-211 | after an `ok` change the new password works, the old one does not and the age is reset, if and only if the new one is not blank |
| SignInFacts.BlankChangeAnswersOk | apps/auth/src/lib/services/user.service.ts:277-292 | a blank new password that the policy passes is answered `ok` and nothing is written |
| SignInFacts.ChangeTouchesOneUser | apps/auth/src/app/actions/mfa-actions.ts:200-201 | nobody else's row changes |
| SessionRuns.BeginBounded | apps/auth/src/app/actions/mfa-actions.ts:31-164 | the pre-flight keeps who is a user and of which kind, all grants, and every challenge in its owner's hands |
| SessionRuns.AuthorizeBounded | apps/auth/src/auth.ts:41-317 | so does the password issuer, which adds no challenge |
| SessionRuns.ChangeBounded | apps/auth/src/app/actions/mfa-actions.ts:172-213 | so does a change of password |
| SessionRuns.RequestVerificationBounded | apps/auth/src/app/api/users/email-verification/request/route.ts:25-38 | so does a request to verify an address |
| SessionRuns.DeletionIsComplete | db/schema.sql:486-548 | no row, grant, challenge or token of a deleted user is left |
| SessionRuns.StepsAreAuthorize | apps/auth/src/auth.ts:219-250 | the steps of a sign-in with a mailed code, with nothing in between, are the issuer |
| SessionRuns.TestSessionOpened | apps/auth/src/auth.ts:452-516 | a test session needs a pending authorization signed less than 300 s before that names a live test client in an environment of the user |
| SessionFacts.StepKeepsInv | apps/auth/src/auth.ts:32-555 | every step of every request, overlapping ones included, keeps the constraints, the registry of ids, spent tickets spent, passkey tokens with one holder and test users without admin sessions |
| SessionFacts.RunKeepsInv | apps/auth/src/auth.ts:32-555 | and so does every run |
| SessionOrigins.SessionOrigin | apps/auth/src/auth.ts:32-545 | every session was opened by a sign-in event under the conditions of its provider |
| SessionOrigins.FlyingOrigin | apps/auth/src/auth.ts:219-231 | every sign-in under way began with the event whose number it carries, under the conditions of its first step |
| SessionOrigins.TestUserSessions | apps/auth/src/auth.ts:423-516 | in every run no session of a test user carries the admin claim, and each was opened by the test-user provider while such a pending authorization was in flight |
| SessionOrigins.TokenOpensOnce | apps/auth/src/lib/repositories/passkey.repository.d1.ts:185-207 | in every run, under every interleaving, a passkey token opens at most one session |
| SessionOrigins.CodeTwiceOnlyOverlapping | apps/auth/src/auth.ts:219-250 | two sessions from one mailed code: only if each sign-in read the challenge before the other wrote |
| SessionOrigins.LaterReadHoldsIff | apps/auth/src/lib/services/user-challenge.service.ts:257-270 | in every run a sign-in finds a code right that once was right if and only if the challenge is still there when it reads |
| SessionOrigins.OneCodeTwoSessions | apps/auth/src/auth.ts:219-250 | from any world in which a code would open a session, a run in which it opens two |
| SessionOrigins.ChallengeOrigin | apps/auth/src/lib/services/user-challenge.service.ts:149-199 | in every run a stored sign-in challenge was mailed by the pre-flight or a request for a code that had given its user's password; a verification challenge by a signed-in request of its user |
| SessionOrigins.ChallengeOverTime | apps/auth/src/lib/services/user-challenge.service.ts:257-312 | in every run a challenge that is gone never comes back, and one still there is as it was, its counter aside |
| SessionOrigins.MailedCodeSessions | apps/auth/src/auth.ts:219-250 | in every run a mailed-code session was preceded by such a request for the same user, less than ten minutes before the sign-in read the challenge |
| SessionOrigins.PasswordSessions | apps/auth/src/auth.ts:41-250 | in every run every password session began with the right password of its user, not failed by the policy; where no mailed code was redeemed, an enrolled user's authenticator accepted the code, and no code could be mailed to one not enrolled |
| SessionFacts.AdminsAreReal | db/README.md:13 | a test user's row never reads as an admin's |

## Left out

- HMAC, SHA-256, Argon2, MD5, JSON and UTF-8 themselves: parameters with stated assumptions.
- `toUpperCase` and `toLowerCase` beyond ASCII: upper-casing is a parameter fixed only on ASCII and white space; hashes are lower-cased on ASCII, addresses by a parameter.
- Lone surrogates: text is a sequence of Unicode scalar values, except in the policy validator, which works on UTF-16 units.
- The labels and summary sentence of the policy checklist: wording only.
- SQL text, ORDER BY and D1: tables are sequences of rows, a statement or batch is atomic, and the two listings are stated for rows in any order or in table order.
- `findByEmail`, password-reset challenges and the audit log: the reset mail of an expired password is an outcome of the request, and a completed reset is an event for any user but a test user.
- `deleteExpiredBefore`: nothing calls it.
- Which policy applies, password expiry, TOTP enrolment and the check of a TOTP code at sign-in: outcomes of the request, functions of the user; TOTP itself is proved separately.
- Which environment variable the secrets come from, cookie attributes and the ten-minute life of cookies in the browser: requests present arbitrary cookies.
- The avatar URL in a session, logging, IP addresses and timing: no effect on the properties.
- Numbers in JSON beyond integers: `exp` is an integer, and a token's announced life is whole seconds.
- The clock arithmetic `Math.floor(nowMs / 1000 / 30)` is exact integer division.
- WebAuthn verification: a passkey exchange token appears in a run with any user and expiry.
- Overlap inside requests other than redeeming a code, consuming a passkey token, upgrading a secret, filling the scope cache and refreshing a token: the pre-flight, a change of password and the administration of users each run as one event, and marking an address verified goes with the write that accepts the code.
- Environments of `updateUser`: the event of a run that sets them is a separate one; promotion of a staged avatar is not part of this model.
- The guards of `deleteUser` in runs: a run may delete any user at any time; the guards are proved of the call.
- SignInServer.Server.CreateOtpAndSendEmail: does not model the contents of the mail, because only whether sending throws matters here.
- UserRepository.Repository.List: does not state the order by user name, because the order of rows is an input.
- UserRepository.Repository.ListTestUsersByEnvironment: answers whole rows in table order, because the ORDER BY and the choice of columns serve display only.
