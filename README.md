# Pairing backend: a verified model

This is a Dafny model of the core of a small FastAPI backend. Users log in through Google. Any two users can then link their accounts with a short pairing code. The model covers five parts:

- **User table** (`user.dfy`, module `Users`). A `User` record has `id`, `email`, optional `full_name` and `picture`, an optional `pairing_code` and an optional `partner_id`. The table is a `map<int, User>` keyed by primary key, held in the class `UserTable`. Two predicates describe it:
  - `WellFormed`: ids equal their keys, ids are positive, and emails are unique.
  - `PairingInvariant`: pairing is symmetric, nobody holds a code while paired, codes are unique, and nobody is paired with themselves.
- **Pairing engine** (`pairings.dfy`, module `Pairings`). `generate_code` is a pure function. Each of the three endpoints `generate_pairing_code`, `pair_users` and `unpair_users` is a method that updates the table in place. It returns either a result or an `HttpError(status, detail)`. Every guard is modelled in the source's order, with the source's status codes and messages. Each method states its complete new state, and states that a rejection changes nothing. Each method also shows that it preserves `PairingInvariant`.
- **Identity resolver and token claims** (`auth.dfy`, module `Auth`). `google_callback` finds or creates the user by exact email. It then builds the claims `sub = str(id)` and `exp = now + ACCESS_TOKEN_EXPIRE_MINUTES` minutes.
- **Authentication gate** (`deps.dfy`, module `Deps`). `get_current_user` is a function of the decoded token and the table. A decode failure gives 403. Otherwise the user is looked up directly, then through the `int(...)` fallback, and 404 is returned when none is found.
- **Settings** (`config.dfy`, module `Config`). This covers the `BACKEND_CORS_ORIGINS` validator and the default token lifetime.

`pystr.dfy` (module `PyStr`) models the Python built-ins these parts rely on: `str.isspace`, `str.strip`, `str.split`, `str(int)` and base-10 `int(str)`. `int()` does not skip the information separators U+001C..U+001F, although `str.isspace()` accepts them; the model rejects them as `int()` does.

Inputs that the source draws from its environment are parameters here:
- the random indices `secrets.choice` picks, as a sequence of draws;
- the clock, as integer seconds;
- the key the database assigns to an inserted row;
- the outcome of Google verification;
- the outcome of `jwt.decode`.

In these points the model follows the code as written:
- Emails are matched exactly, not lower-cased.
- The code-collision retry loop has no cap.
- Every decode failure, expiry included, is 403.
- An unparseable `sub` gives 404, not an authentication error.
- `pairing_code` has no unique constraint. Its uniqueness rests only on the retry loop.
- `partner_id` is tested by Python truthiness (`Users.Truthy`), so a `partner_id` of 0 would read as "not paired". The model assumes database-assigned ids are positive (`Users.IdsPositive`). Under that assumption and the pairing invariant, truthiness and "has a partner" agree (`Users.TruthyIsPresent`).
- The foreign key on `partner_id` is declared but the store does not enforce it, and `unpair_users` handles a missing partner record. So the foreign key is not part of `WellFormed`. It follows from symmetric pairing instead.

## Model

| member | source | states |
|---|---|---|
| `Users.NewUser` | app/models/user.py:5-13 | A new record carries the given id, email, name and picture; `pairing_code` and `partner_id` take their default `None`, so the record is not paired. |
| `Users.Truthy` | app/api/v1/pairings.py:30 | Python's truth value of `partner_id`: truthy implies present, and a present positive id is truthy. |
| `Users.CodeInUse` | app/api/v1/pairings.py:35 | `select(User).where(User.pairing_code == code).first()` finds a record: some user holds the code. |
| `Users.EmailInUse` | app/api/v1/auth.py:60 | `select(User).where(User.email == email).first()` finds a record: some user has exactly that email. |
| `Users.InsertNewUser` | app/models/user.py:5-13 | A new record has no code and no partner. Inserting it under a fresh positive id with an unused email keeps the table well formed and keeps the pairing invariant. |
| `Users.SymmetricHasForeignKeys` | app/models/user.py:13 | When pairing is symmetric, every non-null `partner_id` names an existing user. |
| `Users.TruthyIsPresent` | app/api/v1/pairings.py:30 | In a well-formed table whose foreign keys hold, the truthiness test on `partner_id` agrees with "has a partner". |
| `Pairings.GenerateCode` | app/api/v1/pairings.py:17-19 | The code has one character per draw. Every character is in `A-Z` or `0-9`. |
| `Pairings.AlphabetIsCodeChars` | app/api/v1/pairings.py:18 | The alphabet has 36 characters, each an upper-case letter or a digit. |
| `Pairings.EveryCodeIsReachable` | app/api/v1/pairings.py:18 | Every 6-character string over `A-Z0-9` comes out of some draw. The alphabet is exactly upper-case letters and digits. |
| `Pairings.CharIndex` | app/api/v1/pairings.py:18 | Each code character has an index in the alphabet that maps back to it. |
| `Pairings.FirstFreeCode` | app/api/v1/pairings.py:33-36 | The retry loop's outcome is a 6-character code over `A-Z0-9` that no user holds. It is the code of some draw, and every earlier draw collided. It is absent exactly when every supplied draw collides with a held code. |
| `Pairings.WithCode` | app/api/v1/pairings.py:38 | The committed update of `generate_pairing_code`: the caller's code becomes the new one, every other field and every other record, and the set of keys, stay as they were. |
| `Pairings.GeneratePairingCode` | app/api/v1/pairings.py:22-42 | A caller whose `partner_id` is truthy gets 400 "User is already paired" and nothing changes. Otherwise the caller's code becomes the first drawn code that nobody held, replacing any earlier code, and no other record changes. The method preserves the pairing invariant. |
| `Pairings.WithCodeKeepsInvariant` | app/api/v1/pairings.py:38 | Giving an unpaired user a code that nobody holds keeps the table well formed and keeps the pairing invariant. |
| `Pairings.Paired` | app/api/v1/pairings.py:69-74 | The committed update of `pair_users`: the two records name each other as partner and lose their codes; other fields, other records and the set of keys are unchanged. |
| `Pairings.PartnerInfoOf` | app/api/v1/pairings.py:82-88 | The response's partner block carries the owner's id, email, name, picture and `partner_id`. |
| `Pairings.PairUsers` | app/api/v1/pairings.py:45-89 | Guards run in order: caller paired gives 400, no holder of the code gives 404, own code gives 400, target paired gives 400. A rejection changes nothing. On success the caller and the code's owner name each other, both codes are cleared, and nobody else changes. The response reports the owner as partner, with its email and `partner_id == caller`. The method preserves the pairing invariant. |
| `Pairings.PairedStaysSymmetric` | app/api/v1/pairings.py:69-72 | Linking two distinct unpaired users keeps every partner link two-way. |
| `Pairings.PairedKeepsInvariant` | app/api/v1/pairings.py:69-74 | Linking two distinct unpaired users keeps the table well formed and keeps the pairing invariant. |
| `Pairings.Unpaired` | app/api/v1/pairings.py:103-108 | The committed update of `unpair_users`: the caller's `partner_id` is cleared, and so is the partner's when that record exists; codes, other records and the set of keys are unchanged. |
| `Pairings.UnpairUsers` | app/api/v1/pairings.py:92-112 | A caller without a truthy `partner_id` gets 400 "Not paired" and nothing changes; no other error is possible. Otherwise the call succeeds with "Unpaired successfully": the caller's `partner_id` is cleared, and so is the partner's when that record exists. Codes, keys and all other users are unchanged. The method preserves the pairing invariant. |
| `Pairings.UnpairedStaysSymmetric` | app/api/v1/pairings.py:103-108 | Unpairing keeps every remaining partner link two-way. |
| `Pairings.UnpairedKeepsInvariant` | app/api/v1/pairings.py:103-108 | Unpairing keeps the table well formed and keeps the pairing invariant. |
| `Pairings.UnpairedReleasesBoth` | app/api/v1/pairings.py:103-108 | After unpairing, nobody names the caller or the former partner as partner. |
| `Pairings.UnpairUndoesPair` | app/api/v1/pairings.py:69-108 | Pairing two unpaired users and then unpairing restores every record, except that both pairing codes stay cleared. |
| `Auth.GoogleCallback` | app/api/v1/auth.py:45-90 | With no SSO client it returns 500. A verification error gives 400 "SSO Error: ..." and a missing or empty email gives 400; these rejections change nothing. An existing user with the exact email is returned as it is, with no write. Otherwise exactly one record is inserted with the email, display name and picture, and no code or partner. The response carries `token_type "bearer"`, the user, and claims built from the user's id. The method keeps the table well formed and preserves the pairing invariant. |
| `Auth.HasEmail` | app/api/v1/auth.py:56 | `not user_info or not user_info.email` is false: a result was returned and its email is present and non-empty. |
| `Auth.BuildClaims` | app/api/v1/auth.py:72-83 | `sub` is `str(user.id)`, and `int(sub)` gives back the user's id. `exp` lies exactly `ACCESS_TOKEN_EXPIRE_MINUTES` minutes, counted in seconds, after the issue time. |
| `Auth.DefaultLifetimeIsOneHour` | app/core/config.py:9 | With the default `ACCESS_TOKEN_EXPIRE_MINUTES` of 60, a token expires 3600 seconds after issue. |
| `Auth.IssuedTokenAuthenticates` | app/api/v1/auth.py:73 | Once decoded, the token issued for a user resolves through `get_current_user` to that same user. |
| `Deps.GetCurrentUser` | app/api/deps.py:28-60 | The result is 403 exactly when decoding fails. It is 404 when no user is found. Any returned user is a record of the table. The direct lookup plus the `int(...)` fallback give the same result as one lookup by `int(sub)`. |
| `Deps.DirectGet` | app/api/deps.py:41 | The first `session.get`: a user it returns is a record of the table; a missing `sub` loads nothing; an integer `n`, or the string `str(n)`, loads a user exactly when key `n` exists; any other string loads only a record whose id's decimal form it is, an exact-match under-approximation of the backend (see "## Left out"). |
| `Deps.IntOf` | app/api/deps.py:54 | `int(token_data)`: a missing `sub` raises; an integer is itself; the string `str(n)` gives `n`. |
| `Deps.CanonicalId` | app/api/deps.py:41 | The direct lookup with a string `sub` matches the one id whose decimal form is exactly `sub`, if there is one. |
| `Deps.FallbackAgrees` | app/api/deps.py:41-56 | Whenever the modelled direct lookup (an exact match with an id's decimal form) finds a user, the `int(...)` fallback would find the same user. |
| `Deps.UnparseableSubIsNotFound` | app/api/deps.py:53-59 | A missing `sub`, or one that `int()` rejects, ends in 404 "User not found", not 403. |
| `Deps.SeparatorSubIsNotFound` | app/api/deps.py:53-59 | Any `sub` that holds one of U+001C..U+001F is rejected by `int()` and matches no key, so the answer is 404. |
| `Deps.LookupId` | app/api/deps.py:54-59 | Loading by an integer key gives that record exactly when the key exists, and 404 "User not found" otherwise, including when `int()` failed. |
| `Deps.DecimalSubResolves` | app/api/deps.py:53-56 | A `sub` equal to `str(id)` for an existing record resolves to that record. |
| `PyStr.IntToString` | app/api/v1/auth.py:73 | `str(n)` is non-empty, starts with `-` exactly when `n` is negative, and is otherwise made of decimal digits. |
| `PyStr.ParseInt` | app/api/deps.py:54 | Base-10 `int()` rejects any string that holds one of the separators U+001C..U+001F. |
| `PyStr.ParseIntAcceptedChars` | app/api/deps.py:54 | A string `int()` accepts holds only whitespace, signs, digits and `_`, and at least one digit. |
| `PyStr.IntStringRoundTrip` | app/api/deps.py:54 | `int(str(n)) == n` for every integer, which ties the claim built in `auth.py` to the lookup here. |
| `PyStr.IntToStringInjective` | app/api/v1/auth.py:73 | Distinct ids have distinct `sub` strings. |
| `PyStr.NatDigitsRoundTrip` | app/api/deps.py:54 | The decimal digits of a natural number are well formed for `int()` and read back as that number. |
| `PyStr.NatToString` | app/api/v1/auth.py:73 | `str(n)` for `n >= 0` is a non-empty run of decimal digits with no leading zero. |
| `PyStr.IsSpace` | app/core/config.py:24 | The whitespace that `strip()` removes contains no digit, sign, `_` or comma. |
| `PyStr.LStrip` | app/core/config.py:24 | The result is a suffix of the input that does not start with whitespace. |
| `PyStr.LStripRemovesSpace` | app/core/config.py:24 | Everything `LStrip` removes is whitespace, so its result is the longest such suffix. |
| `PyStr.RStrip` | app/core/config.py:24 | The result is a prefix of the input that does not end with whitespace. |
| `PyStr.RStripRemovesSpace` | app/core/config.py:24 | Everything `RStrip` removes is whitespace, so its result is the longest such prefix. |
| `PyStr.Strip` | app/core/config.py:24 | The result of `strip()` neither starts nor ends with whitespace and is no longer than the input. |
| `PyStr.StripRemovesOnlySpace` | app/core/config.py:24 | `strip()` removes only whitespace, and only from the two ends. The input is whitespace, then the result, then whitespace. |
| `PyStr.StripAvoids` | app/core/config.py:24 | `strip()` introduces no character: a character absent from the input is absent from the result. |
| `PyStr.StripStripped` | app/core/config.py:24 | Stripping a string whose ends are not whitespace changes nothing. |
| `PyStr.Split` | app/core/config.py:24 | `split(',')` gives at least one piece, and no piece contains the separator. |
| `PyStr.JoinSplit` | app/core/config.py:24 | Joining the pieces of `split(',')` with `,` gives back the input. |
| `PyStr.SplitJoin` | app/core/config.py:24 | Splitting a `,`-join of comma-free pieces gives back those pieces. |
| `Config.AssembleCorsOrigins` | app/core/config.py:20-27 | A list passes through unchanged, and so does a string starting with `[`. Any other value raises `ValueError` carrying it. Any other string becomes a list no longer than its pieces, whose entries are non-empty, stripped and comma-free; which entries, in which order, is fixed by `KeepStrippedAppend` and `KeepStrippedSingle`. |
| `Config.DropBlank` | app/core/config.py:24 | The kept entries are non-empty entries of the input, and there are no more of them. |
| `Config.DropBlankMembers` | app/core/config.py:24 | A value is kept exactly when it is a non-empty entry of the input. |
| `Config.DropBlankAppend` | app/core/config.py:24 | Dropping blanks from a concatenation concatenates the results: entries keep their order and repetitions. |
| `Config.DropBlankNoBlanks` | app/core/config.py:24 | Without blank entries nothing is dropped. |
| `Config.KeepStripped` | app/core/config.py:24 | The kept pieces are non-empty and stripped, and there are no more of them than input pieces. |
| `Config.KeepStrippedAppend` | app/core/config.py:24 | The kept pieces of a concatenation are those of each part, in order, so surviving pieces keep their input order and their repetitions. |
| `Config.KeepStrippedSingle` | app/core/config.py:24 | A single piece is kept, in stripped form, exactly when it is not blank. With `KeepStrippedAppend` this fixes the whole output. |
| `Config.KeepStrippedMembers` | app/core/config.py:24 | A value is in the output exactly when it is the non-empty stripped form of some piece. |
| `Config.KeepStrippedNoBlanks` | app/core/config.py:24 | When no piece is blank, every piece survives, stripped, at its original position. |
| `Config.KeepStrippedAvoids` | app/core/config.py:24 | A character found in no piece is found in no kept value; this is why the split's comma never reaches an origin. |
| `Config.CleanOriginsKept` | app/core/config.py:24 | Pieces that are non-blank and already stripped are kept exactly as they are. |
| `Config.CorsRoundTrip` | app/core/config.py:23-24 | A list of clean origins written as a comma-separated string validates back to the same list, in the same order. |

## Left out

- Randomness: `secrets.choice` is replaced by a supplied sequence of draws. The source's retry loop has no bound. The model stops when the draws run out and returns `DrawsExhausted`, an outcome the source never produces; it leaves the table unchanged. Termination of the source's loop is not claimed.
- JWT signing and verification (`jwt.encode`, `jwt.decode`) are library calls. Decoding is an input: a failure, or the payload's `sub`. The token is represented by the claims it encodes. python-jose is documented to reject a non-string `sub` by default, which gives 403. The integer `sub` case is kept only for a decoder that does not check, and it was not confirmed against the library. Other JSON types under `sub` (floats, booleans, lists) are not modelled.
- Deps.GetCurrentUser: for a string `sub`, the first `session.get` relies on SQLite turning numeric text into an integer key. The model treats it as an exact match with an id's decimal form, which under-approximates the backend. Texts such as `01`, ` 1` or `+1` are missed by that step but found by the `int(...)` fallback, so the outcome is the same. Texts such as `1.0` or `1e0` are coerced by SQLite to key 1 but rejected by `int()`: the source returns user 1 and the model returns 404. No token this server signs carries such a `sub`, since it is always `str(id)`.
- Deps.DirectGet: the first `session.get` with a string `sub` is an exact match with an id's decimal form. This under-approximates SQLite, which also coerces `01`, `+1`, `1.0` or `1e0` to key 1; the consequences for `get_current_user` are on the line above.
- Deps.FallbackAgrees: holds for the modelled exact-match first lookup, not for SQLite's wider coercion of numeric text described above.
- `int()` and `str.strip()` cover ASCII digits and the whitespace set of `str.isspace()`; `int()` additionally rejects the separators U+001C..U+001F. Non-ASCII decimal digits, which Python's `int()` also accepts, are not modelled.
- Integer width: ids and `int(sub)` are unbounded. SQLite keys are 64-bit. An `int(sub)` past that range makes `session.get` raise `OverflowError`, which the bare `except` turns into 404. The model looks the value up and finds nothing, which is also 404. An integer `sub` past that range would already raise at the first `session.get`, which lies outside the `try`; the model does not capture that error. CPython 3.10.7 and later also refuse `int()` of a decimal text longer than 4300 digits, and `str()` of such an integer (`ValueError`). So `int(str(n)) == n` holds for every model integer but not for such huge ones in Python. The gate's outcome is unchanged, since the bare `except` gives 404. `utcnow() + timedelta(minutes=...)` raises `OverflowError` past the year 9999, and the model never does.
- Google SSO: creating the client, `get_login_redirect` and `verify_and_process` are network and OAuth plumbing. Only their outcome is an input. `google_login` (only a redirect) is not modelled.
- Time: `datetime.utcnow()` is an integer count of seconds. The token library drops fractional seconds, and whole-second issue times are assumed.
- Persistence and framework: the SQL session, `commit`, `refresh`, the engine, dependency injection and routing are not modelled. The key of an inserted row is an input (positive and unused). `app/main.py` and the hello-world router have no logic here.
- Concurrency: the source has no locking or transaction between check and write. The model runs one operation at a time, so races between concurrent requests are not captured.
- Pydantic's later validation of the CORS validator's output, such as JSON parsing of a `[`-string or checking list item types, is not modelled. A list input is a list of strings.
