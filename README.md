# OTP lifecycle engine — a Dafny model

This project models the one-time-passcode service of a NestJS application
(`otp.service.ts`): it issues short-lived passcodes bound to a user, a method
(Email, SMS or an authenticator app) and a purpose (confirm email, set
password, forgotten password, change email), stores one row per issued
passcode in an OTP table, and verifies and consumes them.

What is modelled:

- **The OTP row and its enumerations** (`otp_entity.dfy`): method, purpose,
  status (Active, Used, Skipped), meta, and the row with its user, HOTP counter
  and expiry instant.
- **The OTP table** (`otp_store.dfy`): a class holding the rows as a sequence,
  with `Create` (append) and `Save` (write a fetched row back); `findOne` is the
  function `FirstMatch`; the single-active invariant is `AtMostOneActive`.
- **The passcode primitives** (`passcode.dfy`): `hotp.generate` and
  `authenticator.check` are the two function-valued fields of a `Codec` value,
  about which nothing is assumed; `hotp.check` is equality with `generate`.
- **The service, as functions** (`otp_lifecycle.dfy`): parameter defaulting,
  the purpose-to-template mapping, the counter formula, the expiry, the new
  row, the table after `generateOtp` and after `setOtpUsed`, the answer of
  `verifyOtp` and the dispatch of `send` to a transport.
- **The service, as objects** (`otp_service.dfy`): the parameter object that
  the service defaults in place, and the service class whose methods read and
  write the table; each method's postcondition ties its result and the new
  table to the functions above.
- **Properties** (`otp_properties.dfy`): the single-active invariant is kept,
  the superseded row becomes Skipped and the new row is the only Active one,
  verification fails closed, dispatches on the method, and accepts the token
  just generated up to and including the expiry instant; marking used changes
  exactly the Active row; Used and Skipped rows are never written.

Time is a parameter `nowMs` (integer milliseconds since the epoch).
`Math.round(ms / 1000 / 2)` becomes `(nowMs + 1000) / 2000`, which agrees with
it for every non-negative `nowMs`. The expiry `addSeconds(now, ttl)` becomes
`nowMs + ttlSeconds * 1000`.

Two behaviours of the code worth knowing:

- At the expiry instant the code is still checked (strict `>` at
  otp.service.ts:160), so verification can succeed at `now == expires_at`.
  `ForgetPasswordScenario` shows this: with ttl = 300 s from t = 1000 s,
  verification succeeds at t = 1300 s and fails at t = 1301 s.
- A resend in the same 2-second step reuses the counter (otp.service.ts:118)
  and hence the code (otp.service.ts:130), so the first code still verifies
  against the new row (otp.service.ts:168), although the first row is now
  Skipped (`ResendInSameStepKeepsCode`). The comment at otp.service.ts:117
  ("Every call equals to unique integer") is guaranteed only for calls at least
  one step apart (`CounterAdvancesEachStep`).

## Model

| member | source | states |
|---|---|---|
| `OtpLifecycle.WithDefaults` | otp.service.ts:37-46 | A missing method becomes Email and a missing context becomes the empty object. Supplied method, context, purpose and meta are kept unchanged. |
| `Service.OtpSendParams.SetDefaults` | otp.service.ts:37-46 | Defaulting overwrites the object's own fields: its value afterwards is `WithDefaults` of its value before. |
| `OtpProperties.DefaultsIdempotent` | otp.service.ts:37-46 | Defaulting twice gives the same result as defaulting once. |
| `OtpProperties.DefaultsKeepKey` | otp.service.ts:142-150 | Defaulting does not change the (user, method, purpose) tuple a lookup addresses. Afterwards the method is present. |
| `OtpLifecycle.EmailTypeFor` | otp.service.ts:73-84 | Every purpose has a template. The inverse mapping recovers the purpose from its template. |
| `OtpProperties.EmailTypeInjective` | otp.service.ts:73-84 | Distinct purposes map to distinct templates. |
| `OtpLifecycle.SendContext` | otp.service.ts:52-55 | The send context has the caller's keys plus `token`. `token` is the passcode and every other key keeps its value. |
| `OtpLifecycle.SmsBody` | otp.service.ts:91 | The SMS body is the fixed prefix followed by exactly the passcode. |
| `OtpLifecycle.Dispatch` | otp.service.ts:57-104 | Email goes out only for Email, with the purpose's template and the send context. SMS goes out only for SMS, to the user's phone, or is only logged when no SMS client is wired. Authenticator gets no delivery. |
| `Service.OtpService.Send` | otp.service.ts:48-63 | Defaults the parameters and changes the table as `generateOtp` does. Returns the dispatch of the generated token, which is `generate(secret, counter)`. |
| `OtpLifecycle.HotpCounter` | otp.service.ts:118 | The counter is the 2-second mark nearest to the current instant, with ties going to the later mark. |
| `OtpProperties.CounterMonotone` | otp.service.ts:117-118 | The counter never decreases as time advances. |
| `OtpProperties.CounterAdvancesEachStep` | otp.service.ts:117-118 | Instants at least one 2-second step apart get different counters. |
| `OtpStore.FirstMatch` | otp.service.ts:144-151 | `findOne` returns a matching row with no earlier match, or nothing exactly when no row matches. |
| `OtpProperties.FirstMatchDeterminedByMatches` | otp.service.ts:144-151 | The lookup depends only on which rows match the query, not on their other fields. |
| `OtpProperties.FindsTheActive` | otp.service.ts:133-151 | Under the single-active invariant, the lookup for Active finds the Active row of the tuple. |
| `OtpProperties.MarkActiveFrame` | otp.service.ts:110-114 | With no assumption on the table: when `findOne` finds no Active row the table is unchanged; otherwise exactly the found row gets the new status, and every other row is unchanged. The same write is made by `setOtpUsed` (otp.service.ts:172-175). |
| `OtpProperties.MarkActiveExact` | otp.service.ts:171-176 | Under the invariant, exactly the Active row of the tuple gets the new status. All other rows are unchanged. |
| `OtpProperties.MarkActiveClearsKey` | otp.service.ts:110-114 | Under the invariant, after superseding or consuming, the tuple has no Active row left. |
| `OtpProperties.MarkActiveKeepsInvariant` | otp.service.ts:110-114 | Superseding or consuming keeps at most one Active row per tuple. |
| `OtpLifecycle.ExpiresAt` | otp.service.ts:122 | Definition with no contract of its own: `addSeconds(now, ttl)` in milliseconds, `nowMs + ttlSeconds * 1000`. |
| `OtpLifecycle.MetaOf` | entity/otp.entity.ts:80-84 | Definition with no contract of its own: the supplied meta (otp.service.ts:127), or the column default `{}` when it is missing. |
| `OtpLifecycle.MarkActive` | otp.service.ts:112-113 | Definition with no contract of its own: the table after the Active row `findOne` returns, if any, gets the given status and is saved (also otp.service.ts:174-175). Its properties are the `MarkActive…` lemmas. |
| `OtpLifecycle.AfterGenerate` | otp.service.ts:110-128 | Definition with no contract of its own: the table after `generateOtp`, the previous Active row skipped and the new row appended. Its properties are the `Generate…` lemmas. |
| `OtpLifecycle.NewOtp` | otp.service.ts:120-128 | The created row is Active for the tuple and carries the given counter, expiry and meta. |
| `OtpProperties.GenerateShape` | otp.service.ts:106-131 | After `generateOtp` the new row is last and Active with counter, expiry = now + ttl, and meta. The previously found Active row is Skipped. Rows of other tuples, Used or Skipped rows, and all other rows are unchanged. |
| `OtpProperties.GenerateKeepsInvariant` | otp.service.ts:110-128 | If at most one Active row per tuple existed before `generateOtp`, that still holds after. |
| `OtpProperties.GenerateLeavesExactlyOneActive` | otp.service.ts:110-128 | Under the invariant, the new row is the one and only Active row of the tuple after `generateOtp`, and the next lookup finds it. |
| `Service.OtpService.GenerateOtp` | otp.service.ts:106-131 | Skips the previous Active row, appends the new Active row and returns `generate(secret, counter)` for the new row's counter. Keeps the invariant. |
| `Service.OtpService.GetActiveOtp` | otp.service.ts:133-135 | Defaults the parameters and finds the Active row of the tuple. |
| `Service.OtpService.GetOtpByStatus` | otp.service.ts:137-152 | Defaults the parameters (in the caller's object). Returns a row of the tuple in the given status, or nothing exactly when there is none. |
| `Passcode.HotpCheck` | otp.service.ts:168 | Definition with no contract of its own: `hotp.check` is equality with `generate(secret, counter)`. |
| `OtpLifecycle.CodeCheck` | otp.service.ts:164-168 | Definition with no contract of its own: the time-based check for Authenticator, the counter check against the stored counter otherwise. |
| `OtpLifecycle.Verify` | otp.service.ts:159-168 | Definition with no contract of its own: the answer of `verifyOtp`, false without an Active row or after its expiry, else `CodeCheck`. Its properties are the `Verify…` lemmas. |
| `Service.OtpService.VerifyOtp` | otp.service.ts:154-169 | Leaves the table unchanged, and its answer is `Verify` on the table for the defaulted tuple. |
| `OtpProperties.VerifyFailsClosed` | otp.service.ts:159-162 | With no Active row, or with the Active row past its expiry, the answer is false whatever the codec says. |
| `OtpProperties.VerifyMeaning` | otp.service.ts:154-169 | Under the invariant, verification succeeds if and only if an unexpired Active row exists and its code check passes. At the expiry instant the row is not yet expired. |
| `OtpProperties.VerifyDispatch` | otp.service.ts:164-168 | For an unexpired Active row: with Authenticator the answer is the time-based check, otherwise it is equality with `generate(secret, stored counter)`. |
| `OtpProperties.VerifyAuthenticatorIgnoresCounter` | otp.service.ts:164-165 | For Authenticator, changing any row's stored counter changes no answer. |
| `OtpProperties.GeneratedTokenVerifies` | otp.service.ts:106-168 | Round trip: for Email and SMS, the token `generateOtp` returns verifies at every instant up to and including the new row's expiry. |
| `OtpProperties.ResendInSameStepKeepsCode` | otp.service.ts:110-130 | Two sends in the same 2-second step: the first row is Skipped, yet the first code still verifies. |
| `OtpProperties.ForgetPasswordScenario` | otp.service.ts:116-168 | A send at 1000 s with a 300 s ttl gives counter 500. Its code verifies at 1200 s and at 1300 s, but not at 1301 s. |
| `OtpLifecycle.AfterSetUsed` | otp.service.ts:171-176 | Definition with no contract of its own: the table after `setOtpUsed`, or nothing where the source dereferences a missing row. Its properties are the `SetUsed…` lemmas. |
| `Service.OtpService.SetOtpUsed` | otp.service.ts:171-176 | Marks the Active row Used. Fails with no change when there is none (the source dereferences a missing row). Keeps the invariant. |
| `OtpProperties.SetUsedFailsIffNoActive` | otp.service.ts:171-176 | `setOtpUsed` fails exactly when the tuple has no Active row. |
| `OtpProperties.SetUsedExact` | otp.service.ts:171-176 | Under the invariant, only the Active row changes, and only its status (to Used). Afterwards a second `setOtpUsed` fails and verification fails. |
| `OtpProperties.InactiveRowsNeverChange` | otp.service.ts:106-176 | Neither `generateOtp` nor `setOtpUsed` ever writes a Used or Skipped row. |
| `OtpStore.OtpTable.Create` | otp.service.ts:120-128 | Creating appends the row to the table. |
| `OtpStore.OtpTable.Save` | otp.service.ts:113 | Saving a fetched row replaces that row and no other. |

## Left out

- Email and SMS transport (`sendEmail`, the Twilio client call, the error log). The model records only the chosen channel, the template, the context and the body built. Whether an SMS client is wired is the constant `smsConfigured`.
- The module wiring that replaces the SMS client with null when no Twilio token is in the environment (otp.module.ts), the GraphQL resolver and the QR-code DTO. They hold no logic of the lifecycle.
- `getSecretQrcode`: it only calls the foreign `authenticator.keyuri` and `qrcode.toDataURL`.
- The HOTP and TOTP internals of `otplib`, and the global digit-length configuration set in the constructor. Both primitives are abstract functions given with the codec, so no property depends on the code length.
- The ORM layer, persistence I/O and `async`/`await` suspension. A fetched row is identified by its position in the table, its auto-increment id. The `id`, `user` association and cascade-delete are not modelled.
- `findOne` without an order may return any matching row; the model returns the first. For the Active lookup this matters only when the single-active invariant is already broken, since under it there is one candidate. For Used and Skipped there can be many matching rows with the invariant intact (every resend leaves a Skipped row): there, taking the first (oldest) row is the model's choice and not something the source promises. `Service.OtpService.GetOtpByStatus`'s clauses stating that a found row matches the query and that nothing is found exactly when nothing matches are what the source guarantees; its clause `found == FirstMatch(...)` is the model's choice.
- Concurrency: concurrent sends for one tuple can break the single-active invariant, because the source has no lock. The model runs one call at a time.
- Clock readings: `generateOtp` reads the clock twice (counter and expiry), and `verifyOtp` reads it for the expiry test while `authenticator.check` reads it again inside the library. The model passes one instant `nowMs` to each operation and uses it for all of that operation's readings. Instants before the epoch (negative milliseconds) are not modelled, and floating-point `Date` arithmetic is replaced by integers.
- The `ttl` configuration value is taken as a natural number of seconds. Conversion from a configuration string is not modelled.
- The user entity (`users/entities/user.entity`) is not part of this model beyond the three fields the service reads: id, OTP secret and phone number.
- Context values: the send context is an object of arbitrary values; the model narrows it to a map from strings to strings. No property depends on the type of the values.
- The email template enum (`@/email/types.enum`) is not part of this model; its four members used here are assumed to be distinct values, on which `EmailTypeInjective` rests.
