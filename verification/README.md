# shieldwall account lifecycle, in Dafny

A model of the account code of shieldwall (`database/user.go`). A user
registers with an email and a password. The code stores an unverified row
holding a bcrypt hash and a 64-digit hex verification token. The token is
mailed to the user, and presenting it verifies the account once. After that,
logins check the password and record the caller's address on the row.

The database is an explicit value. `Store` maps auto-increment primary keys
to `User` rows and records the key the next insert gets. gorm's
`Where(...).First(...)` finds the matching row with the lowest key
(`Users.First`). Each operation is a pure function. It takes the store and
returns a `Reply`: the store after the call, plus what the Go function
returned:

- `Users.Register`: `Result<User, Error>`, for `RegisterUser`'s `(*User, error)`.
- `Users.Verify`: `Outcome<Error>`, for `VerifyUser`'s `error`.
- `Users.Login`: `LoginOutcome` (`NoSuchAccount`, `Refused(err)` or
  `LoggedIn(user)`), for `LoginUser`'s `(nil, nil)`, `(nil, err)` and
  `(&user, nil)`.

The code also calls other libraries. These are values of `Foreign.Env` and
are never interpreted:

- `checkmail.ValidateFormat`;
- `bcrypt.GenerateFromPassword` and `CompareHashAndPassword`;
- `sha256.Sum256`.

The little the lemmas assume about them is stated as predicates:

- `HashSound`: bcrypt accepts the password a hash was made from.
- `HashExact`: it rejects every other password of at most 72 bytes. This is
  an assumption, not a property of bcrypt in general. bcrypt appends a NUL to
  the key and repeats it, so some distinct passwords hash alike.

Some inputs to a call come from the outside world. Each call receives them
as a `Foreign.Ctx`:

- the wall clock;
- the nanosecond clock reading and the 128 random bytes that feed the token;
- whether the store's lookup or write fails.

The helper modules model the byte-level library code the operations use:

- `Text`: islazy's `str.Trim`, applied to passwords, over byte strings, since
  Go's `len` counts bytes.
- `Decimal`: `strconv.FormatInt`.
- `Hex`: `hex.EncodeToString`, and `DecodeString` as its inverse.

`Lifecycle` runs any sequence of calls and proves what holds across them:

- emails stay pairwise distinct;
- every stored token keeps its shape;
- `Verified` never goes back to false;
- a token verifies at most once;
- a registered email cannot be registered again;
- the register, verify and login path works end to end.

Some of the code's behaviour is easy to misread. The model does what the code does:

- `VerifyUser` does not check the token's shape itself. Only the router's
  pattern at `api/setup.go:47` does. `Users.RouteAcceptsOnlyDigests` and the
  contract of `Users.MakeVerification` relate the two.
- Register checks the email before the password. An invalid email gives
  `InvalidEmail` even when the password is also too short.
- An unknown token returns gorm's "record not found" error as it is
  (`RecordNotFound`).
- Email uniqueness rests only on the lookup before the insert. There is no
  unique index and no duplicate error from `Create`.
- `LoginUser` compares the untrimmed password, although `RegisterUser` hashed
  the trimmed one. `Lifecycle.LoginDoesNotTrim` states the consequence.

## Model

| member | source | states |
|---|---|---|
| Text.TrimLeft | database/user.go:48 | The result is a suffix of the input that does not start with a space, and every byte dropped is a space (space, tab, LF or CR). |
| Text.TrimRight | database/user.go:48 | The result is a prefix of the input that does not end with a space, and every byte dropped is a space. |
| Text.Trim | database/user.go:48 | The trimmed password is a slice of the input with nothing but spaces cut from either side, and has no space left at either end. |
| Text.TrimUnique | database/user.go:48 | The properties in Trim's contract determine it: any unpadded slice surrounded only by spaces is the trimmed string. |
| Text.TrimIdempotent | database/user.go:48 | Trimming a trimmed password changes nothing. |
| Hex.Encode | database/user.go:42 | Hex encoding yields two characters per byte, all of them lower-case hex digits. |
| Hex.DecodeEncode | database/user.go:42 | Hex encoding loses nothing: `Hex.Decode`, the inverse, which accepts exactly even-length strings of hex digits in either case, gives back the encoded bytes. |
| Hex.EncodeDecode | database/user.go:42 | Every even-length string of lower-case hex digits is the encoding of the bytes it decodes to, so lower-case hex strings and encodings are the same thing. |
| Hex.EncodeInjective | database/user.go:42 | Distinct digests get distinct tokens. |
| Decimal.Digits | database/user.go:38 | The decimal rendering of a natural number is a non-empty string of ASCII digits, with a leading zero only for zero. |
| Decimal.DigitsValue | database/user.go:38 | The digits read back as the number they render. |
| Decimal.FormatInt | database/user.go:38 | The clock reading is rendered with a leading minus exactly when it is negative, followed by digits. |
| Decimal.FormatIntRoundTrip | database/user.go:38 | Parsing the rendered clock reading gives back the reading. |
| Decimal.FormatIntInjective | database/user.go:38 | Distinct clock readings render differently. |
| Users.FirstFrom | database/user.go:53 | A scan upward from a key finds the lowest matching key, or reports that no row matches. |
| Users.First | database/user.go:53 | The lookup returns the matching row with the lowest key, and returns not-found exactly when no row matches. |
| Users.FirstIsUnique | database/user.go:53 | At most one row is the first match of a query. |
| Users.Insert | database/user.go:72 | Create adds one row under a key never used before, and keeps every other row and the table's well-formedness. |
| Users.Save | database/user.go:87 | Save replaces one existing row and leaves every other row and key alone. |
| Users.MakeVerification | database/user.go:33-43 | The token is 64 lower-case hex digits, is admitted by the verify route's pattern, and decodes to SHA-256 of the decimal clock reading followed by the random bytes. |
| Users.RouteAcceptsOnlyDigests | api/setup.go:47 | Every string the verify route admits decodes to 32 bytes. It is the hex rendering of some digest exactly when it is a token, that is, all lower case. An upper-case string passes the route but is never issued. |
| Users.Register | database/user.go:45-77 | Register succeeds exactly when all of these hold: the email is valid, the trimmed password has at least 8 bytes, the lookup works and finds no row with the email, hashing works, and the insert works. Otherwise it returns the error of the first check that fails, in the code's order, and leaves the store unchanged. A success adds one row under the next key and touches no other row. That row has the given email and address, Verified false, the bcrypt hash of the trimmed password, the current time and a fresh token. |
| Users.Verify | database/user.go:79-89 | An unknown token gives not-found. A token whose first row is already verified gives "already verified". A lookup or save failure gives a store error. Every failure leaves the store unchanged. Otherwise exactly the matched row becomes verified, with a new update time. |
| Users.Login | database/user.go:91-110 | An unknown email gives NoSuchAccount. An unverified account is refused with NotVerified before the password is looked at. A wrong password gives NoSuchAccount. All of these leave the store unchanged. On success, only the matched row's address and update time change, and the returned row carries the new address. A failed save leaves the store unchanged but still reports success. |
| Users.InsertEvolves | database/user.go:72 | An insert is an evolution of the table and keeps every existing row exactly as it was. |
| Users.RegisterEvolves | database/user.go:65-76 | Register leaves every existing row exactly as it was. A row it adds gets a key above every earlier key. |
| Users.InsertKeepsEmailsDistinct | database/user.go:72 | Inserting a row whose email no row holds keeps emails pairwise distinct. |
| Users.RegisterKeepsEmailsDistinct | database/user.go:52-74 | Register never creates a second row for an email. |
| Users.RegisterKeepsTokensShaped | database/user.go:67 | Every token Register stores has the generator's shape. |
| Users.VerifyPreserves | database/user.go:86-87 | Verify changes no email, token, hash or key, adds no row, and never sets Verified to false. |
| Users.LoginPreserves | database/user.go:103-105 | Login changes no email, token, hash, key or Verified flag, and adds no row. |
| Users.LoginIgnoresSaveFailure | database/user.go:105-109 | Login returns the same outcome whether or not the final save fails. |
| Users.LoginHidesUnknownEmail | database/user.go:93-100 | An unknown email and a wrong password for a verified account get the identical reply, with the store unchanged. |
| Users.LoginUnverifiedIgnoresPassword | database/user.go:97-98 | An unverified account is refused with NotVerified whatever password is offered. |
| Lifecycle.RunPreserves | database/user.go:45-110 | Over any sequence of Register, Verify and Login calls: pairwise distinct emails stay distinct; well-shaped tokens stay well shaped; no row disappears or changes its email, token or hash; and Verified never goes from true to false. |
| Lifecycle.ReachableInvariants | database/user.go:45-110 | Every table reachable from the empty one has distinct emails and well-shaped tokens. |
| Lifecycle.VerifiedIsMonotonic | database/user.go:83-86 | A verified row stays verified through any sequence of calls. |
| Lifecycle.FirstPersists | database/user.go:81 | Once a row is the first match for an email or token, it stays the first match as the table evolves. |
| Lifecycle.SoleHolderPersists | database/user.go:52-54 | A row that alone holds an email still holds it alone after calls that add no row. |
| Lifecycle.VerifyIsSingleUse | database/user.go:81-88 | After a successful Verify, every later Verify with the same token fails, whatever happened in between. It fails with "already verified", or with a store error if the lookup fails. |
| Lifecycle.EmailStaysTaken | database/user.go:52-54 | Once Register succeeds for an email, no later Register for that email succeeds. |
| Lifecycle.RegisterCreatesFirst | database/user.go:65-76 | Whatever token it draws, a successful Register makes the new row the first match for its email, and no other row holds that email. The row is also the first match for its token when no earlier row drew the same token. |
| Lifecycle.Onboard | database/user.go:45-88 | Registering and then verifying the mailed token leaves a verified row for the email, holding the hash of the trimmed password. No other row holds the email. |
| Lifecycle.LoginSucceeds | database/user.go:99-109 | A verified row whose hash accepts the password logs in, and the returned row carries the caller's address. The stored row records that address, or keeps its old one when the save fails. |
| Lifecycle.RegisterVerifyLogin | database/user.go:45-110 | Register, verify, then log in with a password that has no surrounding whitespace. The login succeeds, returns the registered row, and the returned row carries the new address. The stored row records it too, or keeps the registration address when the final save fails. |
| Lifecycle.LoginDoesNotTrim | database/user.go:48-99 | Suppose bcrypt tells passwords apart, and a password with surrounding whitespace is registered. Logging in with the same raw password gives NoSuchAccount. Only its trimmed form logs in. |
| Lifecycle.ExampleSession | database/user.go:45-110 | The example session. Register a@example.com with "correct-horse", verify, then log in from a new address: the login succeeds and the returned row carries that address. The stored row records it too, or keeps the registration address when the final save fails. A later login with "wrong" gets NoSuchAccount. |

## Left out

- The internals of checkmail, bcrypt, SHA-256 and `math/rand` are not modelled. They are library code. They appear as function values, and only the two bcrypt properties above are assumed.
- The transport layer is not modelled: JSON decoding, the body-size limit, HTTP status mapping, and the verification email and its link (`api/user_register.go`). Neither is the router setup (`api/setup.go`), except the token pattern. All of this is I/O plumbing.
- Concurrency is not modelled. The code checks and then inserts without any atomicity, and the email column has only a plain index. Two concurrent registrations could both succeed; the sequential model cannot show that.
- gorm's soft delete (`DeletedAt`) and the `Agents` relation are not modelled. No operation here reads or writes them.
- Time is an integer supplied by the caller. gorm stamping `CreatedAt`/`UpdatedAt` on Create and Save is modelled as setting them to that value.
- SQL equality is modelled as exact string equality. A case-insensitive database collation would make email lookups coarser.
- Store errors other than "record not found" are one `StoreFailure` (or `CreateFailure` for the insert), selected by the call's inputs. Error message texts and logging are not modelled.
- The cutset of islazy's `str.Trim` is taken to be space, tab, LF and CR. That library is not part of this model.
- The bcrypt salt is not modelled. `GenerateFromPassword` draws a fresh salt on each call; here the hash function is one value of `Foreign.Env`, fixed for a whole run, so a password always hashes alike within it. No lemma depends on two hashes of one password being different.
- Token uniqueness is not modelled. It holds only with high probability, and the random bytes are an input here. Lemmas that need a token to be new require that no earlier row holds it.
