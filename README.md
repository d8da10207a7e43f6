# OTP signup core, modelled in Dafny

This project models the core of a mobile-number signup backend. A client asks for a one-time
passcode (OTP) for an Indian mobile number. The service refuses numbers that are already
registered. Otherwise it draws a six-digit code and caches it under `otp:<number>` for 300
seconds. Later the client submits the code. The service checks it against the cache and creates
the user row, or returns the existing one. Either way the cached code is then deleted.

Four pieces are modelled:

- `cache.dfy` (module `Cache`): the in-process fallback cache `InMemoryRedis`. It is a class whose
  `store` map the methods `Setex`, `Get` (with lazy expiry) and `Delete` update in place. Pure
  functions `Visible`, `Stored`, `Swept` and `Removed` state what a read sees and what each
  operation leaves behind.
- `auth.dfy` (module `Auth`): `AuthService.initiate_registration` and `verify_and_create`.
  `Initiate` and `Verify` give each call's effect on a `World` value (cache table, user table,
  next identifier). The class `AuthService` performs the calls step by step on an `InMemoryRedis`
  and a `UserStore`, and is proved to have exactly that effect. Lemmas state the per-number state
  machine New → OtpPending → Verified, the error cases, single use of a code, and isolation
  between numbers.
- `twilio.dfy` (module `Twilio`): `generate_otp` as the decimal rendering of the drawn integer,
  with the parse-back function `DecimalValue`.
- `schemas.dfy` (module `Schemas`): the request validators. The two regular expressions are
  anchored and fixed-length, so they are modelled as sequences of one-character atoms with a
  full-match predicate.

`users.dfy` (module `Users`) models the `users` table as a map from number to row, held by a
`UserStore` object. `wrappers.dfy` holds `Option` and `Result`.

The wall clock is an integer parameter `now`. The integer `random.randint(100000, 999999)`
returns is a parameter `draw` constrained to that range.

A comment in the source calls the user lookup in `verify_and_create` an "Idempotent check"
(app/services/auth_service.py:75), which suggests that repeating a successful verify succeeds again.
It cannot: every successful verify deletes the cache key (app/services/auth_service.py:83 and :93).
A repeat therefore stops at the first check and fails with "OTP has expired or request is
invalid.". The lookup only matters when the number was registered while a code was pending.
`ReplayFails` proves this.

## Model

| member | source | states |
|---|---|---|
| `Cache.Visible` | app/core/cache.py:33-44 | a read sees a value exactly when the key is present and `now` is not strictly after its expiry, and then it sees the stored value |
| `Cache.Stored` | app/core/cache.py:22-31 | `setex` leaves `name` mapped to (value, now + ttl) and every other key as it was |
| `Cache.Swept` | app/core/cache.py:35-42 | after `get`, `name` is present only if it was present and unexpired; no entry changes value; other keys stay |
| `Cache.Removed` | app/core/cache.py:46-51 | after `delete`, `name` is absent and every other key is as it was |
| `Cache.InMemoryRedis.constructor` | app/core/cache.py:14-15 | a new cache starts with an empty table |
| `Cache.InMemoryRedis.Setex` | app/core/cache.py:22-31 | overwrites the entry for `name` with expiry now + ttl and always returns true |
| `Cache.InMemoryRedis.Get` | app/core/cache.py:33-44 | returns what a read at `now` sees and deletes the entry only when it has expired |
| `Cache.InMemoryRedis.Delete` | app/core/cache.py:46-51 | returns 1 and removes the key when present; otherwise returns 0 and changes nothing |
| `Cache.ReadAfterSetex` | app/core/cache.py:24-25 | after `setex(k, ttl, v)` at `now`, reads up to and including now + ttl see `v`; later reads see nothing |
| `Cache.GetMissing` | app/core/cache.py:35-37 | reading an absent key returns nothing and leaves the table unchanged |
| `Cache.GetLive` | app/core/cache.py:40-44 | reading a live key returns its value and leaves the table unchanged |
| `Cache.GetExpired` | app/core/cache.py:40-42 | reading strictly after expiry returns nothing and removes the key |
| `Cache.SweepUnobservable` | app/core/cache.py:40-42 | lazy deletion is invisible: from `now` on, every key reads the same before and after the sweep |
| `Users.NewUser` | app/models/user.py:10-13 | the row `User(mobile_number=...)` becomes: the given identifier, that number, `is_verified` true by the column default, created at the commit time |
| `Users.InsertKeepsConsistent` | app/models/user.py:10-13 | adding a new number under the next identifier keeps numbers unique, rows verified and identifiers distinct |
| `Users.UserStore.FindByMobile` | app/services/auth_service.py:26-28 | finds a row exactly when the number is registered; the row carries that number and is verified |
| `Users.UserStore.Insert` | app/services/auth_service.py:87-90 | a new number gets one verified row with the next identifier; a duplicate is refused by the unique column and changes nothing |
| `Auth.OtpKey` | app/services/auth_service.py:41 | the cache key is "otp:" followed by the number: its first four characters are "otp:" and the rest is the number |
| `Auth.OtpKeyInjective` | app/services/auth_service.py:41 | different numbers have different cache keys |
| `Auth.Initiate` | app/services/auth_service.py:17-46 | initiate never changes the user table; it fails exactly when the number is registered, with 400 "User already exists and is verified." and nothing changed; on success the code passes the verify request's constraint and is readable under "otp:" + number up to now + 300 and not after |
| `Auth.Verify` | app/services/auth_service.py:48-95 | verify succeeds exactly when a live, non-empty code equal to the submitted one is cached; a failure is one of the two 400 errors, the expired one exactly when no live non-empty code is cached, and leaves the user table alone; a success removes the key and leaves the number in the user table with the returned row, adding at most that number |
| `Auth.AuthService.constructor` | app/services/auth_service.py:12-15 | the service works on the user store it is given and on the shared cache |
| `Auth.AuthService.InitiateRegistration` | app/services/auth_service.py:17-46 | has exactly the effect of `Initiate` on the cache and user store, and keeps the user store valid |
| `Auth.AuthService.VerifyAndCreate` | app/services/auth_service.py:48-95 | has exactly the effect of `Verify` on the cache and user store, and keeps the user store valid |
| `Auth.InitiateRegistered` | app/services/auth_service.py:26-35 | a registered number is refused with 400 "User already exists and is verified." and nothing changes |
| `Auth.InitiateNew` | app/services/auth_service.py:37-46 | for a new number, the generated code is returned and cached under "otp:" + number with a 300-second lifetime; the code passes the verify request's constraint; the user table is unchanged |
| `Auth.InitiateKeepsUsers` | app/services/auth_service.py:17-46 | initiate never changes the user table |
| `Auth.InitiatePhase` | app/services/auth_service.py:15 | after initiate, an unregistered number is OtpPending up to now + 300 and New after that |
| `Auth.VerifyWithoutCode` | app/services/auth_service.py:57-65 | with no live code, or an empty one, verify fails with "OTP has expired or request is invalid."; the user table is unchanged; the cache is unchanged if the key was absent and reads the same from `now` on otherwise |
| `Auth.VerifyWrongCode` | app/services/auth_service.py:67-73 | a wrong code fails with "Invalid OTP Code" and nothing changes; the code stays cached |
| `Auth.WrongThenRightCode` | app/services/auth_service.py:67-73 | after a wrong guess, the right code still succeeds at any time up to its expiry |
| `Auth.VerifyRegistered` | app/services/auth_service.py:75-84 | the right code for a registered number returns the existing row, adds nothing and deletes the code |
| `Auth.VerifyCreates` | app/services/auth_service.py:86-95 | the right code for a new number adds exactly one verified row with the next identifier, returns it and deletes the code |
| `Auth.ReplayFails` | app/services/auth_service.py:83-93 | after any successful verify, a repeat with any code at any time fails as expired or invalid |
| `Auth.VerifyPhase` | app/services/auth_service.py:75-95 | after a successful verify the number is Verified |
| `Auth.InitiateThenVerify` | app/services/auth_service.py:38-95 | asking for a code and submitting it within 300 seconds registers the number and consumes the code |
| `Auth.InitiateThenExpire` | app/services/auth_service.py:42-65 | a code submitted more than 300 seconds after it was issued is refused as expired, whatever it is |
| `Auth.OtherNumbersUntouched` | app/services/auth_service.py:41-93 | calls about one number change neither the row nor the phase of any other number, at any time |
| `Auth.InitiateKeepsWellFormed` | app/services/auth_service.py:37-46 | initiate keeps the user table consistent and the cache holding only codes the verify request accepts |
| `Auth.VerifyKeepsWellFormed` | app/services/auth_service.py:57-95 | verify keeps the user table consistent (unique numbers, verified rows, distinct identifiers) and the cache holding only acceptable codes |
| `Auth.ExpiredExactlyWhenAbsent` | app/services/auth_service.py:60-65 | in well-formed tables, verify fails as expired or invalid exactly when no live code is cached |
| `Twilio.DecimalString` | app/services/twilio_service.py:13 | `str(n)` is a non-empty digit string and has no leading zero when n ≥ 1 |
| `Twilio.DecimalRoundTrip` | app/services/twilio_service.py:13 | reading back the rendering of n gives n |
| `Twilio.DecimalLength` | app/services/twilio_service.py:13 | a number from 10^(k-1) up to but excluding 10^k renders as k characters |
| `Twilio.DecimalValueBounds` | app/services/twilio_service.py:13 | a k-digit string denotes less than 10^k, and at least 10^(k-1) when its first digit is not '0' |
| `Twilio.DecimalStringOfValue` | app/services/twilio_service.py:13 | a digit string without a leading zero is the rendering of its own value |
| `Twilio.GenerateOtp` | app/services/twilio_service.py:11-13 | the code has exactly 6 characters, all digits, does not start with '0', and denotes the drawn integer |
| `Twilio.GeneratedCodeAccepted` | app/services/twilio_service.py:13 | every generated code passes the `otp_code` constraint of the verify request |
| `Twilio.GenerateOtpInjective` | app/services/twilio_service.py:13 | different draws give different codes |
| `Twilio.GeneratedCodesExactly` | app/services/twilio_service.py:13 | every six-digit string without a leading zero is the code of exactly one draw in 100000..999999 |
| `Schemas.Repeat` | app/schemas/user_schemas.py:6 | `a{n}` is n copies of the atom |
| `Schemas.FullMatchPointwise` | app/schemas/user_schemas.py:15 | an anchored match holds exactly when pattern and string have equal length and match position by position |
| `Schemas.PhoneRegexIff` | app/schemas/user_schemas.py:6 | `^\+91\d{10}$` matches exactly the 13-character strings of "+91" and ten digits |
| `Schemas.ValidateMobile` | app/schemas/user_schemas.py:12-17 | accepts exactly "+91" followed by ten digits and returns the input unchanged; anything else raises the ValueError with the source's message |
| `Schemas.RejectsWithoutPrefix` | app/schemas/user_schemas.py:15-16 | a string not starting with "+91" is rejected |
| `Schemas.RejectsNonDigitTail` | app/schemas/user_schemas.py:6 | a non-digit after the prefix is rejected |
| `Schemas.OtpCodeAccepted` | app/schemas/user_schemas.py:23 | the `otp_code` constraint (length 6 to 6 and `^\d{6}$`) holds exactly of strings of 6 digits |
| `Schemas.ValidateVerify` | app/schemas/user_schemas.py:20-23 | the verify request is accepted exactly when the code has 6 digits, and keeps both fields unchanged |
| `Schemas.VerifyAcceptsAnyMobile` | app/schemas/user_schemas.py:21 | `mobile_number` is not checked at the verify endpoint: any string is accepted with a valid code |

## Left out

- `get_redis_client` and the networked Redis client (app/core/cache.py:53-71): a network probe with a one-second timeout. Only the in-memory fallback is modelled, and the service uses it.
- `TwilioService.send_otp_sms` (app/services/twilio_service.py:16-38): an external SMS call that swallows its errors. In mock mode it only logs and returns true. The HTTP routes and the background task that call it (app/api/v1/auth.py) are left out too.
- All logging, including the "[MOCK SMS]" line written inside `setex`.
- `time.time()` is a float; the model uses an integer `now`, and expiry is `now + ttl` on integers.
- `random.randint` is not modelled: the drawn integer is the parameter `draw`, required to lie in 100000..999999 as `randint` guarantees.
- Schemas.ValidateMobile: Python's `re.match` with `$` also accepts a single trailing "\n", and `\d` also matches non-ASCII Unicode digits. The model reads the pattern as ASCII digits and an exact length, so it rejects those inputs.
- Schemas.ValidateVerify: pydantic's `\d` is likewise read as an ASCII digit, and its detailed error objects are reduced to the name of the field that failed.
- The database engine, the SQLAlchemy session and its transactions (app/core/database.py): the user table is a map held by `UserStore`. `created_at` is the `now` of the call rather than the database server's clock, and `updated_at` is not modelled.
- Users.UserStore.Insert: identifiers are consecutive from 1. A real sequence may skip values, for example after a failed insert.
- Concurrency: each call runs to completion on its own. Interleaved requests for the same number are not modelled.
- app/core/config.py, main.py and the route registration: configuration loading, logging setup, CORS and server start-up.
