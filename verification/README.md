# Trust Cars 4U backend: authentication and appointment ownership

A Dafny model of the logic core of the Trust Cars 4U API (`main.py`): the
salted password hasher, the user lookup by email, the in-memory session
registry, and the five endpoint handlers `signup`, `login`, `require_auth`,
`create_appointment` and `list_my_appointments`.

The whole server is one immutable `Api.State`:

- `users`: the `userauth` collection, a sequence of `User(id, name, email, passwordHash, salt)`;
- `sessions`: the global `sessions` dict, a `map<string, string>` from bearer token to user id;
- `appointments`: the `appointment` collection, a sequence of `Appointment` records, each with its owner's `userId`;
- `dbConfigured`: whether the `db` handle is set.

Each endpoint is a pure function. It returns `Http.Err(status, detail)` for the
`HTTPException` it raises, or `Http.Ok(Reply(body, next))` with the response
body and the state after the call. Outside inputs are parameters:

- SHA-256 is a function-typed parameter `H: seq<byte> -> Digest`, so every proof holds for every hash function.
- The salt from `secrets.token_bytes(16)`, the token bytes behind `secrets.token_hex(24)` and the MongoDB ObjectId of a new record are parameters with subset types of the right length (16, 24 and 12 octets).
- The hex text of all three is produced by `Hex.Encode`, which is Python's lower-case `bytes.hex()`.

Modules, leaf to root:

- `Wrappers`, `Bytes`, `Http`: options, octets with binary order, and status codes with detail texts.
- `Hex`: `bytes.hex()` and CPython's `bytes.fromhex`. The parser skips ASCII whitespace before each digit pair and accepts either case. Odd or malformed text is a ValueError.
- `Utf8`: `str.encode()`, with a strict decoder used as its inverse.
- `Lex`: Python's order on `str`. `Collation` proves it equals MongoDB's binary order on the UTF-8 octets of the strings.
- `Ids`: the text form of an ObjectId.
- `Hasher`: `hash_password`.
- `UserStore`: `get_user_by_email` on the collection.
- `Sessions`: the registry and `require_auth`.
- `AppointmentStore`: the owner filter and the ascending sort on `datetime_iso`.
- `Api`: the endpoints.
- `Lifecycle`: runs of requests, the state invariant `Valid`, and the set of issued tokens.
- `Properties`, `Scenarios`: properties that span several calls, and the documented example sequences.

Where the documented design and `main.py` differ, the model follows `main.py`:

- A malformed salt that is already stored is not reported as a validation error. `bytes.fromhex` raises, the handler does not catch it, and the framework answers 500 "Internal Server Error".
- The session dict has no lock.
- The only store failure the handlers check is the missing `db` handle.

## Model

| member | source | states |
|---|---|---|
| Hasher.HashPassword | main.py:28-31 | A falsy salt (None or "") always succeeds and yields 32 hex chars that parse back to the fresh 16 octets. Any other salt succeeds exactly when `fromhex` accepts it, and the returned salt parses to the same octets. The digest is 64 lower-case hex chars: SHA-256 over the returned salt's octets followed by the UTF-8 octets of the password. |
| Hasher.HashPasswordDeterministic | main.py:28-31 | With a truthy salt the result does not depend on the random salt: it is deterministic in (salt, password). |
| Hasher.HashPasswordEchoesSalt | main.py:29-31 | A non-empty lower-case even-length hex salt is returned unchanged. |
| Hasher.RehashReproduces | main.py:28-31 | Hashing again with the salt that hashing returned (when non-empty) gives back the same digest and salt, which is what login relies on. |
| Hasher.BlankSaltIsEmpty | main.py:29 | The truthy salt " " parses to no octets, so the returned salt is the falsy "". |
| Hex.Decode | main.py:29 | `bytes.fromhex` accepts only text made of ASCII whitespace and hex digits of either case, with exactly two digits per octet it returns. |
| Hex.DecodeRejectsStray | main.py:29 | A char that is neither ASCII whitespace nor a hex digit makes `fromhex` raise ValueError. |
| Hex.DecodeRejectsOddDigits | main.py:29 | An odd number of hex digits makes `fromhex` raise ValueError. |
| Hex.Encode | main.py:31 | `bytes.hex()` yields two lower-case hex digits per octet. |
| Hex.DecodeEncode | main.py:29-31 | `fromhex(b.hex()) == b` for every octet string. |
| Hex.EncodeDecode | main.py:29-31 | For lower-case hex of even length, `fromhex` succeeds and `hex()` of its result is the original text. |
| Hex.EncodeInjective | main.py:31 | Distinct octet strings have distinct hex text. |
| Utf8.Encode | main.py:30 | `password.encode()` takes at least one and at most four octets per char. |
| Utf8.DecodeEncode | main.py:30 | Strict UTF-8 decoding undoes the encoding. |
| Utf8.EncodeInjective | main.py:30 | Distinct passwords encode to distinct octets. |
| Ids.IdString | main.py:90 | `str(inserted_id)` is 24 lower-case hex chars that parse back to the ObjectId, so distinct ids print differently. |
| UserStore.FindByEmail | main.py:58-60 | The lookup finds a user exactly when some stored user has that exact email, and then it is the first such record. |
| UserStore.FindByEmailFirst | main.py:58-60 | The first record holding the email is the one found. |
| UserStore.FindByEmailUnique | main.py:58-60 | When emails are distinct, looking up a stored user's email finds that user. |
| UserStore.FindByEmailAppend | main.py:58-60 | Appending records never changes the result of a lookup that already succeeds. |
| Sessions.TokenHex | main.py:88 | `token_hex(24)` is 48 lower-case hex chars that parse back to the random octets. |
| Sessions.Issue | main.py:88-89 | The new token resolves to the given user id, every other token resolves as before, and the key set grows by exactly that token. |
| Sessions.RequireAuth | main.py:111-114 | Succeeds exactly for a present, non-empty token held by the registry, yielding the id it maps to; otherwise 401 "Unauthorized". |
| AppointmentStore.OwnedBy | main.py:144 | The filter keeps each record owned by the user as often as it is stored, and no other record. |
| AppointmentStore.InsertByDatetime | main.py:144 | Inserting into a sorted sequence keeps it sorted by `datetime_iso` and adds exactly that record. |
| AppointmentStore.SortByDatetime | main.py:144 | The result is sorted ascending by `datetime_iso` and is a permutation of the input. |
| AppointmentStore.ListByOwner | main.py:144 | The result is sorted ascending by `datetime_iso` and is a permutation of exactly the owner's records. |
| AppointmentStore.ListByOwnerMembers | main.py:143-144 | A record is listed if and only if it is stored and owned by the caller, so another user's records never appear. |
| AppointmentStore.ListByOwnerAll | main.py:144 | When the caller owns every record, all of them are listed. |
| Lex.StrLeCharacterised | main.py:144 | The recursive string order is the textbook one: a prefix comes first, otherwise the first differing char decides. |
| Lex.StrLeAtDifference | main.py:144 | Where two strings first differ, the smaller char puts its string strictly first. |
| Lex.StrLeReflexive | main.py:144 | Every string is ordered before itself, so equal time texts may sit side by side in a sorted listing. |
| Lex.StrLeTransitive | main.py:144 | The string order used by the sort is transitive. |
| Lex.StrLeTotal | main.py:144 | Any two strings are comparable. |
| Lex.StrLeAntisymmetric | main.py:144 | Strings ordered both ways are equal. |
| Collation.EncodingPreservesOrder | main.py:144 | Comparing UTF-8 octets, as the database's sort does, orders strings exactly as comparing code points does. |
| Collation.CharEncodingsDiffer | main.py:144 | For chars `c < d`, the encodings first differ at an octet that is smaller on `c`'s side. |
| Api.GetUserByEmail | main.py:58-60 | Finds a stored user with exactly that email if and only if a database is configured and the email is taken. |
| Api.Signup | main.py:68-90 | 500 without a database; 400 "Email already registered" exactly when the email is taken; then 500 "Internal Server Error" when the new ObjectId is already a user's id (`insert_one` raises). Otherwise exactly one user is appended, with that name and email, a 32-hex-char salt encoding the fresh octets, and the digest of the password under that salt. One session maps the new 48-char token to the new id. Appointments are unchanged. |
| Api.Login | main.py:93-108 | 500 without a database; 401 "Invalid credentials" for an unknown email and for a mismatched digest; 500 when the stored salt does not parse. It succeeds exactly when re-hashing with the stored salt reproduces the stored digest. Then one session maps the new token to the found user, the summary is that user's, and users and appointments are unchanged. |
| Api.CreateAppointment | main.py:117-135 | 500 before 401, then 500 "Internal Server Error" when the new ObjectId is already a booking's id (`insert_one` raises). Succeeds exactly when a database is configured, the token resolves and the id is new. Then exactly one record is appended: owner = the session's user id, fields copied verbatim, id = the new ObjectId's text, message "Appointment booked successfully". Users and sessions are unchanged. |
| Api.ListMyAppointments | main.py:138-148 | 500 before 401. Succeeds exactly when a database is configured and the token resolves. The result is sorted ascending by `datetime_iso` and is a permutation of exactly the caller's records. |
| Lifecycle.Step | main.py:68-148 | A call never changes the database flag, only appends users and appointments, and adds to the session keys exactly the token it issues. |
| Lifecycle.SignupKeepsValid | main.py:73-89 | A successful signup keeps emails and user ids pairwise distinct, booking ids distinct, salts 32 hex chars, tokens 48 hex chars, and every session and booking owned by a stored user. |
| Lifecycle.UserAddKeepsValid | main.py:73-86 | Appending a user whose email and id are new and whose salt is 32 hex chars keeps the invariant. |
| Lifecycle.SessionAddKeepsValid | main.py:106-107 | Registering a 48-hex-char token for a stored user keeps the invariant. |
| Lifecycle.LoginKeepsValid | main.py:98-107 | A successful login keeps the invariant: the new session maps to a stored user. |
| Lifecycle.CreateKeepsValid | main.py:119-134 | A successful booking keeps the invariant: its owner is a stored user and its id is new among bookings. |
| Lifecycle.StepValid | main.py:68-148 | Every call, successful or refused, keeps the invariant. |
| Lifecycle.RunValid | main.py:68-148 | The invariant, including email and id uniqueness, holds after any sequence of requests. |
| Lifecycle.InitValid | main.py:25 | The empty start state (no users, empty `sessions` dict, no bookings) satisfies the invariant. |
| Lifecycle.RunSessionKeys | main.py:25 | After any run the registry holds exactly its earlier tokens plus the tokens the run issued. |
| Lifecycle.RunGrowsUsers | main.py:68-148 | A run only appends users and keeps the database flag. |
| Properties.SignupRejectsDuplicate | main.py:73-75 | After a signup, a second signup with the same email is refused with 400 "Email already registered". |
| Properties.LoginAccepts | main.py:98-108 | Login succeeds for the found user when the stored salt is non-empty lower-case hex and the stored digest matches the password, whatever randomness the call draws. |
| Properties.LoginSucceedsIff | main.py:98-104 | In a valid state with a database, login succeeds if and only if the email is taken and the stored digest is SHA-256 of the stored salt and the password. |
| Properties.LoginNeverServerError | main.py:102 | In a valid state with a database, the only way login fails is 401 "Invalid credentials". |
| Properties.LoginMalformedSaltServerError | main.py:29-30 | A stored salt holding a char that is neither whitespace nor a hex digit makes login answer 500 "Internal Server Error". |
| Properties.SessionNamesOneUser | main.py:111-114 | In a reachable state the id a session resolves to belongs to exactly one stored user. |
| Properties.LoginFailuresIndistinguishable | main.py:98-104 | An unknown email and a wrong password give the identical result, 401 "Invalid credentials". |
| Properties.SignupUserFound | main.py:73-86 | After a signup, looking up its email finds the new user. |
| Properties.SignupThenLogin | main.py:77-81 | After a successful signup, login with the same email and password succeeds for the same user. |
| Properties.SignupThenLoginAfterRun | main.py:77-104 | That login still succeeds, for the same user, after any sequence of further requests. |
| Properties.SignupTokenResolves | main.py:88-89 | The token a signup returns resolves to the new user's id. |
| Properties.LoginTokenResolves | main.py:106-107 | The token a login returns resolves to the logged-in user's id. |
| Properties.UnissuedTokenRejected | main.py:111-113 | From a fresh start, any token that no call has issued is refused with 401 "Unauthorized". |
| Properties.BookingListedForOwnerOnly | main.py:122-144 | A new booking is listed for the token that made it, and never for a token of another user. |
| Scenarios.SignupBookList | main.py:68-148 | Signup, one booking, then a listing returns exactly that booking, owned by the new user and with the fields sent. |
| Scenarios.JanuaryBeforeMarch | main.py:144 | "2024-01-01T10:00:00" sorts strictly before "2024-03-01T09:00:00". |
| Scenarios.ListedInTimeOrder | main.py:144 | Two bookings made latest first, under distinct ObjectIds, are listed earliest first. |
| Scenarios.JanuaryListedBeforeMarch | main.py:144 | A March booking made before a January one, under distinct ObjectIds, is listed after it. |
| Scenarios.OtherUserListsNothing | main.py:68-148 | After Alice books, Bob (another email) signs up. That is refused with 500 exactly when his ObjectId is Alice's; otherwise Bob lists an empty sequence, even when his token collides with Alice's. |

## Left out

- SHA-256 internals (FIPS 180-4): the hash is a parameter, so nothing depends on collision resistance.
- Randomness from `secrets`: salts and tokens are parameters. Tokens are not assumed fresh. A reused token overwrites its entry, as the dict does.
- ObjectId generation: record ids are parameters, not assumed fresh. An id already held in the same collection makes `insert_one` raise DuplicateKeyError, modelled as 500 "Internal Server Error", so stored ids stay distinct and per-user isolation of bookings is isolation of one account.
- The `database` module, which is not part of this model: a configured database is the flag `dbConfigured`. Connection and driver failures are not modelled. In the source they surface as unhandled exceptions, answered with 500.
- `find_one` order: with several matches the model returns the first in insertion order. MongoDB does not promise a natural order, but the invariant keeps emails distinct, so the choice does not matter.
- Sort ties: MongoDB leaves the order of equal `datetime_iso` values open. The model sorts stably, and its contracts promise only sortedness and permutation.
- `created_at` / `updated_at` timestamps from `datetime.utcnow()`: no property depends on them.
- Pydantic `EmailStr` validation and normalisation: emails are opaque strings compared exactly.
- The framework's request validation (422 for a malformed body): not modelled.
- `password.encode()` on a lone surrogate raises UnicodeEncodeError. Dafny chars are Unicode scalar values, so such a password cannot be expressed.
- Response serialisation: the listing returns whole records, with the ObjectId text in `id` and the owner in `userId`. Only the `created_at` / `updated_at` fields are dropped.
- Concurrency: there is no lock on `sessions`, and signup's check-then-insert race is possible. A sequential model cannot show either.
- CORS setup, the `/` banner, the `/test` diagnostic endpoint and uvicorn start-up: none of them holds any logic of the core.
- `schemas.py`: record shapes only (field names used here); `Product` is unused.
