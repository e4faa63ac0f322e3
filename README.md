# Pass-manager vault, modelled in Dafny

The Kotlin/Ktor pass-manager service keeps three tables in a relational
database: `Users`, `PasswordEntries` and `UserSettings`. Its routes let a
caller register and log in, which mints a JWT bearer token. With that token
a caller can list, read, create, update and delete their own stored
credentials, change their master password, and read or change their
auto-logout setting. This project models that core and proves what it
promises.

- `Application.Vault` (vault.dfy) holds the three tables as `seq` fields and
  the next serial id of each. Each route handler is a method that changes
  them, or only reads them. `Valid()` is the conjunction of the schema's
  constraints (`Schema`, schema.dfy) and the assumed facts about the
  cryptographic primitives (`Security.Axioms`).
- `Queries` (queries.dfy) gives the meaning of each Exposed statement the
  handlers issue:
  - `select … where`;
  - `update(where) { … }` and `deleteWhere`, with the row count each reports.

  It also proves the owner-scoping rule: whatever one owner does to the
  password entries, no other owner's listing changes.
- `Jwt` (jwt.dfy) models the token `generateToken` mints and the gate every
  protected route sits behind: the HMAC256 verifier with audience and issuer,
  then the `validate` callback.
- `KotlinInt` (kotlin_int.dfy) models Kotlin's 32-bit `Int`, its wrapping
  multiplication, and `String.toIntOrNull()`. These are used for the token
  lifetime and the `{id}` path parameter.
- `Scenario` (scenario.dfy) plays out the end-to-end story: alice registers,
  logs in, stores a credential and reads it back; bob registers and sees
  none of it.

Modelling decisions:

- **Crypto.** bcrypt, PBKDF2/AES and the HMAC signer are uninterpreted
  functions, `Security.Primitives` and `Jwt.Signer`. The only facts used
  are stated in `Security.Axioms`:
  - a password verifies against its own hash;
  - a bcrypt hash is 60 characters long.

  The constructor demands these facts, and every method keeps them.
- **Clock and salt.** Each `Instant.now()` or `System.currentTimeMillis()`
  reading is a parameter, and so is the random bcrypt salt.
- **Error kinds.** Every outcome other than success is an `Error`:
  `BadRequest`, `NotFound`, `Unauthorized`, `Conflict`, or
  `ConstraintViolation`. The last stands for a statement the database layer
  refuses:
  - Exposed checks a `varchar` value against its declared length before the
    statement runs, so an over-long value is refused before any row is
    looked at.
  - The entries' `user_id` foreign key refuses an entry for a user id with
    no user row.
- **Encryption key.** The stored secret is `encrypt(password, password)`:
  the request's password is also the key. The `masterPassword` field of the
  request is ignored, and reads return the stored ciphertext. Secrets are
  therefore not protected under the owner's master password.
- **Token expiry.**
  - `exp` is kept in whole seconds, as a JWT `NumericDate` holds it: the
    expiry in milliseconds divided by 1000 with Java's `long` division,
    which truncates toward zero (`KotlinInt.DivTrunc`).
  - The lifetime product `lifetime * 60 * 1000` is taken in 32-bit `Int`.
    It is exact for lifetimes up to 35791 minutes. From 35792 to 71582
    minutes it wraps to a negative offset, so such a token is issued
    already expired (`Jwt.ExpiryOverflows`).

## Model

| member | source | states |
|---|---|---|
| KotlinInt.Wrap | src/main/kotlin/com/passmanager/Application.kt:302 | the Int an exact result becomes differs from it by a multiple of 2^32, and is the value itself when it fits |
| KotlinInt.WrapCongruent | src/main/kotlin/com/passmanager/Application.kt:302 | integers congruent modulo 2^32 become the same Int |
| KotlinInt.Mul | src/main/kotlin/com/passmanager/Application.kt:302 | Kotlin's Int product is congruent to the exact product modulo 2^32 |
| KotlinInt.ParseInt | src/main/kotlin/com/passmanager/Application.kt:150 | `toIntOrNull` yields a number only for text that is all digits, or a '+' or '-' followed by at least one digit and nothing else |
| KotlinInt.ParseSignedDigits | src/main/kotlin/com/passmanager/Application.kt:150 | an optional sign followed by digits, leading zeros allowed, reads as its signed value when that fits an Int, and as null when it does not |
| KotlinInt.DivTrunc | src/main/kotlin/com/passmanager/Application.kt:302 | the JVM quotient by a positive divisor leaves a remainder of the dividend's sign, smaller than the divisor |
| KotlinInt.ParseShowInt | src/main/kotlin/com/passmanager/Application.kt:297 | every Int written in decimal is read back by `toIntOrNull` as itself |
| Jwt.LifetimeMinutes | src/main/kotlin/com/passmanager/Application.kt:297 | the lifetime is 60, or else the Int the property reads as; whenever the property reads as an Int, it is that Int |
| Jwt.LifetimeFromProperty | src/main/kotlin/com/passmanager/Application.kt:297 | a lifetime property holding a decimal Int is the lifetime used; a missing or unreadable property means 60 minutes |
| Jwt.ExpiryMillis | src/main/kotlin/com/passmanager/Application.kt:302 | the expiry is the current time plus `lifetime * 60000` wrapped to Int, the two Int products taken one after the other |
| Jwt.ExpiryExact | src/main/kotlin/com/passmanager/Application.kt:302 | for lifetimes from 0 to 35791 minutes the expiry is exactly `now + lifetime * 60000` ms |
| Jwt.ExpiryOverflows | src/main/kotlin/com/passmanager/Application.kt:302 | for every lifetime from 35792 to 71582 minutes the Int product wraps to the exact product less 2^32, so the expiry lies before the issue time |
| Jwt.GenerateToken | src/main/kotlin/com/passmanager/Application.kt:296-305 | a minted token names the user, exactly the configured audience and issuer, carries the wrapped expiry truncated to seconds, and is signed with the secret |
| Jwt.VerifierAccepts | src/main/kotlin/com/passmanager/Application.kt:56-62 | definition: the library verifier accepts a correct signature, the configured audience among the token's audiences, the configured issuer, and a time before `exp` |
| Jwt.Validate | src/main/kotlin/com/passmanager/Application.kt:63-69 | the callback yields a principal exactly when the configured audience is among the token's audiences, and the principal is the token's user id |
| Jwt.Authenticate | src/main/kotlin/com/passmanager/Application.kt:52-69 | a caller id is produced exactly when the verifier accepts signature, audience, issuer and expiry, and it is the token's user id |
| Jwt.IssuedTokenAuthenticates | src/main/kotlin/com/passmanager/Application.kt:56-62 | a minted token authenticates its own user, and no one else, exactly before the second its `exp` names; for an expiry after 1970, exactly before the second in which it expires |
| Jwt.DefaultTokenLivesOneHour | src/main/kotlin/com/passmanager/Application.kt:297-302 | with no lifetime configured, the expiry is one hour after issue, and a token issued after 1970 is accepted exactly until the second in which that hour ends |
| Jwt.ForgedTokenRejected | src/main/kotlin/com/passmanager/Application.kt:56-62 | a token not signed with the secret is refused, whatever it claims |
| Jwt.ForeignTokenRejected | src/main/kotlin/com/passmanager/Application.kt:56-62 | a token for another audience or issuer is refused |
| Queries.SelectByOwner | src/main/kotlin/com/passmanager/Application.kt:129-143 | the listing holds exactly the rows owned by the caller, and no more rows than the table |
| Queries.SelectEmptyIff | src/main/kotlin/com/passmanager/Application.kt:129-143 | the listing is empty exactly when the caller owns no row |
| Queries.FindEntry | src/main/kotlin/com/passmanager/Application.kt:152-156 | a found row is in the table and matches both id and owner; nothing is found exactly when no row matches both |
| Queries.CountEntry | src/main/kotlin/com/passmanager/Application.kt:202-214 | the reported row count is zero exactly when no row matches both id and owner |
| Queries.UpdateEntry | src/main/kotlin/com/passmanager/Application.kt:202-212 | same length; every non-matching row is unchanged; every matching row keeps id, owner and creation time and takes the new name, username, ciphertext, notes and update time |
| Queries.DeleteEntry | src/main/kotlin/com/passmanager/Application.kt:226-230 | exactly the non-matching rows remain, and the table shrinks by the reported count |
| Queries.AtMostOneRow | src/main/kotlin/com/passmanager/Application.kt:202-204 | with distinct serial ids the (id, owner) filter matches at most one row |
| Queries.NoMatchUpdateUnchanged | src/main/kotlin/com/passmanager/Application.kt:214-216 | an update that matched nothing left the table as it was |
| Queries.NoMatchDeleteUnchanged | src/main/kotlin/com/passmanager/Application.kt:232-234 | a delete that matched nothing left the table as it was |
| Queries.DeleteKeepsIdsIncreasing | src/main/kotlin/com/passmanager/Application.kt:226-230 | deleting keeps the remaining ids distinct and in order |
| Queries.FindSeesOnlyOwnRows | src/main/kotlin/com/passmanager/Application.kt:152-156 | a lookup gives the same answer on the whole table as on the caller's own rows, so a missing id and another owner's id answer alike |
| Queries.UpdateInvisibleToOthers | src/main/kotlin/com/passmanager/Application.kt:202-212 | an update never changes another owner's listing |
| Queries.DeleteInvisibleToOthers | src/main/kotlin/com/passmanager/Application.kt:226-230 | a delete never changes another owner's listing |
| Queries.InsertVisibleOnlyToOwner | src/main/kotlin/com/passmanager/Application.kt:179-189 | an inserted row appears in its owner's listing and in no other |
| Queries.FindUserByName | src/main/kotlin/com/passmanager/Application.kt:79-81 | a found user has that username; nothing is found exactly when no user has it |
| Queries.FindUserById | src/main/kotlin/com/passmanager/Application.kt:244-246 | a found user has that id; nothing is found exactly when no user has it |
| Queries.SetMasterPassword | src/main/kotlin/com/passmanager/Application.kt:254-258 | only the hash of the user with that id changes; ids, usernames and creation times stay |
| Queries.FindSettings | src/main/kotlin/com/passmanager/Application.kt:266-277 | a found settings row belongs to the caller; nothing is found exactly when the caller has no row |
| Queries.SetAutoLogout | src/main/kotlin/com/passmanager/Application.kt:284-289 | the caller's rows take the new minutes and update time; every other row is unchanged |
| Schema.UsersTable | src/main/kotlin/com/passmanager/database/Tables.kt:6-11 | definition: serial ids increasing and below the next id, usernames unique and at most 50 characters, hashes at most 255 |
| Schema.EntriesTable | src/main/kotlin/com/passmanager/database/Tables.kt:13-21 | definition: serial ids increasing and below the next id, every owner an existing user, resource name and username at most 255 characters, ciphertext at most 1000 |
| Schema.SettingsTable | src/main/kotlin/com/passmanager/database/Tables.kt:23-26 | definition: serial ids increasing and below the next id, exactly one row for each existing user (at most one from the unique index on `userId`, at least one because registration inserts the settings row, Application.kt:97-103) |
| Application.StoredValues | src/main/kotlin/com/passmanager/Application.kt:177 | definition: create and update store the request's password encrypted under itself, and ignore its `masterPassword` |
| Application.Vault.Valid | src/main/kotlin/com/passmanager/database/Tables.kt:6-26 | definition: the three tables keep their schema constraints, and the primitives satisfy the stated facts |
| Application.UsernameIdentifiesUser | src/main/kotlin/com/passmanager/database/Tables.kt:7 | under the unique index two users with the same username are the same row |
| Application.RegisterKeepsTables | src/main/kotlin/com/passmanager/database/Tables.kt:6-26 | a user with a fresh id, an unused name of at most 50 characters and a hash of at most 255, plus one settings row for it, keep all three tables' constraints |
| Application.CreateKeepsEntriesTable | src/main/kotlin/com/passmanager/database/Tables.kt:13-21 | an entry with a fresh id, an existing owner and values within their column lengths keeps the entries table's constraints |
| Application.UpdateKeepsEntriesTable | src/main/kotlin/com/passmanager/database/Tables.kt:13-21 | rewriting rows with values within their column lengths keeps the entries table's constraints |
| Application.DeleteKeepsEntriesTable | src/main/kotlin/com/passmanager/database/Tables.kt:13-21 | removing rows keeps the entries table's constraints |
| Application.SetMasterPasswordKeepsUsersTable | src/main/kotlin/com/passmanager/database/Tables.kt:6-11 | a new hash of at most 255 characters keeps the users table's constraints and its set of ids |
| Application.SetAutoLogoutKeepsSettingsTable | src/main/kotlin/com/passmanager/database/Tables.kt:23-26 | changing auto-logout minutes keeps one settings row per user |
| Application.Vault.Register | src/main/kotlin/com/passmanager/Application.kt:77-106 | a taken username is Conflict and changes nothing; an over-long one is refused and changes nothing; otherwise exactly one user holding the hash of the master password and one settings row of 15 minutes are appended under the next serial ids, which advance by one, the entries are untouched, and the password verifies against the stored hash |
| Application.Vault.InsertUser | src/main/kotlin/com/passmanager/Application.kt:88-103 | the user row and then its settings row are appended under the next serial ids, which advance by one; the tables keep their constraints and the entries are untouched |
| Application.Vault.Login | src/main/kotlin/com/passmanager/Application.kt:108-121 | a token exactly when a user with that name verifies the password; it is the token minted for that user's id; unknown user and wrong password both give Unauthorized |
| Application.Vault.ListPasswords | src/main/kotlin/com/passmanager/Application.kt:125-145 | exactly the caller's entries, as stored |
| Application.Vault.GetPassword | src/main/kotlin/com/passmanager/Application.kt:147-170 | an unreadable id is BadRequest; an entry is returned exactly when one matches both id and caller; otherwise NotFound |
| Application.Vault.CreatePassword | src/main/kotlin/com/passmanager/Application.kt:172-192 | succeeds exactly when the caller exists and the values fit; then exactly one entry is appended, owned by the caller, holding `encrypt(password, password)` and the clock readings, with the next serial id returned and only that counter advanced; otherwise nothing changes |
| Application.Vault.UpdatePassword | src/main/kotlin/com/passmanager/Application.kt:194-219 | BadRequest, then ConstraintViolation, then NotFound when no row matched, each leaving the entries unchanged; success exactly when one row matched, and then the entries are the (id, caller) update of the old ones; users, settings and every id counter stay |
| Application.Vault.DeletePassword | src/main/kotlin/com/passmanager/Application.kt:221-237 | BadRequest on an unreadable id; otherwise the entries are the (id, caller) delete of the old ones; success exactly when one row went, NotFound with the table unchanged otherwise; users, settings and every id counter stay |
| Application.Vault.ChangeMasterPassword | src/main/kotlin/com/passmanager/Application.kt:239-261 | NotFound for an unknown caller; success exactly when the old password verifies, and then only the caller's hash becomes the hash of the new password, which verifies; Unauthorized otherwise with users unchanged; entries and settings are never touched |
| Application.Vault.GetSettings | src/main/kotlin/com/passmanager/Application.kt:264-279 | the caller's own settings row, found exactly when the caller is a registered user; NotFound otherwise |
| Application.Vault.UpdateSettings | src/main/kotlin/com/passmanager/Application.kt:281-291 | always succeeds; the caller's row takes the new minutes and update time; users, entries and every id counter stay |
| Scenario.AliceRegisters | src/main/kotlin/com/passmanager/Application.kt:77-121 | on a fresh vault alice's registration gets id 1, the stored row holds the hash of her password, and her login yields a token for user 1 |
| Scenario.AliceStoresACredential | src/main/kotlin/com/passmanager/Application.kt:172-192 | when the ciphertext of her secret fits its column, the entry alice creates gets id 1, and reading id 1 back returns her entry, resource name, username and ciphertext |
| Scenario.BobJoins | src/main/kotlin/com/passmanager/Application.kt:77-121 | bob registers next to alice and gets id 2, logs in, and the authentication gate accepts his token as user 2 a second later; the entries are untouched |
| Scenario.AliceAndBob | src/main/kotlin/com/passmanager/Application.kt:125-170 | with the default lifetime, bob is user 2 by his token, his listing is empty, and reading alice's entry id as bob is NotFound |

## Left out

- Concurrency and transactions are not modelled. The handlers run each `dbQuery` as its own transaction on an I/O dispatcher. Register's username check and its insert are two separate transactions, so two concurrent registrations can race. The model runs each handler atomically.
- Ktor plumbing is not modelled: JSON decoding of request bodies, `call.respond`, CORS, content negotiation, Swagger, and the mapping of each error kind to an HTTP status.
- Clocks and randomness are parameters: `Instant.now()`, `System.currentTimeMillis()` and `BCrypt.gensalt()`. The model does not bound the milliseconds to a `Long`.
- DefaultTokenLivesOneHour: the one-hour reading in whole seconds is stated for issue times from 1970 on. For earlier clocks the truncated `exp` is covered by `Jwt.IssuedTokenAuthenticates`.
- The internals of bcrypt, PBKDF2/AES-ECB and HMAC-SHA256 are not modelled. No cryptographic strength is claimed. Nothing is assumed about a different password failing to verify.
- `decryptPassword` is not modelled, because no route calls it.
- The `realm` setting is not modelled.
- Register: assumes the database accepts the user insert without a value for `encryptedMasterPassword`. That column is declared at Tables.kt:9 as a `varchar(255)` with no default and not nullable, and the insert at Application.kt:89-93 does not set it. As declared, the database would refuse every registration. The model follows the evident intent, an insert that succeeds, and does not model the column.
- Serial id exhaustion is not modelled: ids are unbounded integers.
- A serial value consumed by a failed insert is not modelled. Counters advance only when a row is added.
- Tokens without a `userId` claim are not modelled. Every token this service mints carries one. The `!!` and `?: throw UnauthorizedException()` paths for a missing claim are therefore not modelled.
- ListPasswords: the source's `select` has no `ORDER BY`, so the order of the listing is unspecified. The model lists rows in table order (ids increasing), an updated row keeping its place; the membership statements are the order-free part of its contract.
- KotlinInt.ParseInt: reads only ASCII digits. `toIntOrNull` also accepts other Unicode decimal digits.
- A per-record salt, a random IV and re-encryption when the master password changes are not modelled. These are desired fixes that the code does not contain.
- HTTP routing and the `authenticate` block are not modelled. Every protected handler takes the caller id that `Jwt.Authenticate` yields. The model does not join the two in one step.
