/** database/user.go: the account record, the store of records, the token
    generator and the three lifecycle operations. The database is an
    explicit value; each operation takes the store and returns the store
    after the call together with what the Go function returns. */
module Users {
  import opened Results
  import opened Text
  import opened Decimal
  import opened Foreign
  import Hex

  const MinPasswordLength: nat := 8

  /** One row of the users table (the soft-delete marker and the Agents
      relation are not modelled). */
  datatype User = User(
    id: nat,
    createdAt: int,
    updatedAt: int,
    email: string,
    verification: string,
    verified: bool,
    hash: string,
    address: string)

  /** The users table: rows keyed by their auto-increment primary key, and
      the key the next insert receives. */
  datatype Store = Store(users: map<nat, User>, nextId: nat)

  const Empty: Store := Store(map[], 1)

  /** Keys are handed out from 1 upwards, and each row carries its key. */
  ghost predicate Valid(db: Store) {
    && db.nextId >= 1
    && forall id :: id in db.users ==> 1 <= id < db.nextId && db.users[id].id == id
  }

  /** The errors the three operations return. */
  datatype Error =
    | InvalidEmail      // checkmail.ValidateFormat rejected the address
    | PasswordTooShort  // "minimum password length is 8"
    | EmailTaken        // "email address already used"
    | HashingFailure    // "error generating password hash"
    | CreateFailure     // "error creating new user"
    | RecordNotFound    // gorm.ErrRecordNotFound, passed through by VerifyUser
    | AlreadyVerified   // "user already verified"
    | NotVerified       // "account not verified"
    | StoreFailure      // any other database error

  /** What LoginUser returns: (nil, nil), (nil, err) or (&user, nil). */
  datatype LoginOutcome = NoSuchAccount | Refused(error: Error) | LoggedIn(user: User)

  /** The store after a call, and what the call returned. */
  datatype Reply<+T> = Reply(db: Store, out: T)

  // ---------------------------------------------------------------- lookup

  /** The two columns the code queries by. */
  datatype Column = EmailColumn | VerificationColumn

  predicate Matches(u: User, col: Column, value: string) {
    match col
    case EmailColumn => u.email == value
    case VerificationColumn => u.verification == value
  }

  /** Some row has `value` in column `col`. */
  ghost predicate Holds(db: Store, col: Column, value: string) {
    exists id :: id in db.users && Matches(db.users[id], col, value)
  }

  /** id is the row `Where(col = value).First()` finds: a match, and no
      row with a lower key matches. */
  ghost predicate IsFirst(db: Store, col: Column, value: string, id: nat) {
    && id in db.users
    && Matches(db.users[id], col, value)
    && forall other :: other in db.users && other < id ==> !Matches(db.users[other], col, value)
  }

  function FirstFrom(db: Store, col: Column, value: string, from: nat): (r: Option<nat>)
    requires Valid(db)
    requires forall other :: other in db.users && other < from ==> !Matches(db.users[other], col, value)
    ensures r.Some? ==> IsFirst(db, col, value, r.value)
    ensures r.None? ==> !Holds(db, col, value)
    decreases db.nextId - from
  {
    if from >= db.nextId then None
    else if from in db.users && Matches(db.users[from], col, value) then Some(from)
    else FirstFrom(db, col, value, from + 1)
  }

  /** gorm's `Where(col = value).First(&found)`: the matching row with the
      lowest primary key, or None for ErrRecordNotFound. */
  function First(db: Store, col: Column, value: string): (r: Option<nat>)
    requires Valid(db)
    ensures r.Some? ==> IsFirst(db, col, value, r.value)
    ensures r.None? <==> !Holds(db, col, value)
  {
    FirstFrom(db, col, value, 0)
  }

  /** There is at most one first match. */
  lemma FirstIsUnique(db: Store, col: Column, value: string, a: nat, b: nat)
    requires IsFirst(db, col, value, a) && IsFirst(db, col, value, b)
    ensures a == b
  {
  }

  /** gorm's `Save` of a row that already exists. */
  function Save(db: Store, u: User): (r: Store)
    requires Valid(db) && u.id in db.users
    ensures Valid(r)
    ensures r.nextId == db.nextId && r.users.Keys == db.users.Keys
    ensures r.users[u.id] == u
    ensures forall id :: id in db.users && id != u.id ==> r.users[id] == db.users[id]
  {
    Store(db.users[u.id := u], db.nextId)
  }

  // ---------------------------------------------------------------- tokens

  /** A token as the generator issues it: 64 lower-case hex digits. */
  predicate IsToken(t: string) {
    |t| == 64 && forall i :: 0 <= i < |t| ==> Hex.IsLowerHexDigit(t[i])
  }

  /** What the verify route's pattern `[A-Fa-f0-9]{64}` admits. */
  predicate RouteAccepts(t: string) {
    |t| == 64 && Hex.AllHex(t)
  }

  /** makeVerification: SHA-256 of the decimal nanosecond clock followed by
      128 random bytes, hex-encoded. The token is 64 lower-case digits the
      verify route admits, and it decodes back to that digest. */
  function MakeVerification(env: Env, nanos: Int64, noise: Noise): (token: string)
    ensures IsToken(token) && RouteAccepts(token)
    ensures Hex.Decode(token) == Some(env.sha256(FormatInt(nanos) + noise))
  {
    var digest := env.sha256(FormatInt(nanos) + noise);
    Hex.DecodeEncode(digest);
    Hex.Encode(digest)
  }

  /** Every string the verify route lets through decodes to 32 bytes. It is
      the rendering of some digest exactly when it is a token, that is, when
      all its digits are lower case: an upper-case string passes the route
      but is never issued. */
  lemma RouteAcceptsOnlyDigests(t: string)
    requires RouteAccepts(t)
    ensures Hex.Decode(t).Some? && |Hex.Decode(t).value| == 32
    ensures IsToken(t) <==> exists d: Digest :: Hex.Encode(d) == t
  {
    if IsToken(t) {
      Hex.EncodeDecode(t);
      var d: Digest := Hex.Decode(t).value;
      assert Hex.Encode(d) == t;
    }
  }

  // ------------------------------------------------------------ invariants

  /** No two rows share an email. */
  ghost predicate EmailsDistinct(db: Store) {
    forall a, b :: a in db.users && b in db.users && a != b ==> db.users[a].email != db.users[b].email
  }

  /** Every row's token has the generator's shape. */
  ghost predicate TokensShaped(db: Store) {
    forall id :: id in db.users ==> IsToken(db.users[id].verification)
  }

  /** What may happen to a row that already exists: its key, email, token,
      hash and creation time stay, and Verified can only go from false to
      true. */
  ghost predicate Stable(u: User, u': User) {
    && u'.id == u.id
    && u'.email == u.email
    && u'.verification == u.verification
    && u'.hash == u.hash
    && u'.createdAt == u.createdAt
    && (u.verified ==> u'.verified)
  }

  /** db' can follow db: no row disappears, existing rows change only as
      Stable allows, and new rows get keys never handed out before. */
  ghost predicate Evolves(db: Store, db': Store) {
    && db.nextId <= db'.nextId
    && (forall id :: id in db.users ==> id in db'.users && Stable(db.users[id], db'.users[id]))
    && (forall id :: id in db'.users && id !in db.users ==> id >= db.nextId)
  }

  // ------------------------------------------------------------ operations

  /** The email is well-formed and the trimmed password long enough. */
  predicate InputsPass(env: Env, email: string, password: Bytes) {
    env.validEmail(email) && |Trim(password)| >= MinPasswordLength
  }

  /** The conditions under which RegisterUser succeeds. */
  ghost predicate RegisterAdmits(db: Store, env: Env, ctx: Ctx, email: string, password: Bytes) {
    && InputsPass(env, email, password)
    && !ctx.lookupFails
    && !Holds(db, EmailColumn, email)
    && env.bcryptHash(Trim(password)).Some?
    && !ctx.writeFails
  }

  /** RegisterUser(address, email, password). */
  function Register(db: Store, env: Env, ctx: Ctx, address: string, email: string, password: Bytes)
    : (r: Reply<Result<User, Error>>)
    requires Valid(db)
    ensures Valid(r.db)
    // every failure leaves the store as it was
    ensures r.out.Failure? ==> r.db == db
    // the checks, in the order the code makes them
    ensures !env.validEmail(email) ==> r.out == Failure(InvalidEmail)
    ensures env.validEmail(email) && |Trim(password)| < MinPasswordLength ==>
      r.out == Failure(PasswordTooShort)
    ensures InputsPass(env, email, password) && ctx.lookupFails ==> r.out == Failure(StoreFailure)
    ensures (InputsPass(env, email, password) && !ctx.lookupFails && Holds(db, EmailColumn, email))
      ==> r.out == Failure(EmailTaken)
    ensures (InputsPass(env, email, password) && !ctx.lookupFails && !Holds(db, EmailColumn, email)
      && env.bcryptHash(Trim(password)).None?) ==> r.out == Failure(HashingFailure)
    ensures (InputsPass(env, email, password) && !ctx.lookupFails && !Holds(db, EmailColumn, email)
      && env.bcryptHash(Trim(password)).Some? && ctx.writeFails) ==> r.out == Failure(CreateFailure)
    ensures r.out.Success? <==> RegisterAdmits(db, env, ctx, email, password)
    // a success adds exactly one fresh, unverified row and touches no other
    ensures r.out.Success? ==>
      var u := r.out.value;
      && u.id == db.nextId && u.id !in db.users
      && r.db == Insert(db, u)
      && u.email == email && u.address == address && !u.verified
      && env.bcryptHash(Trim(password)) == Some(u.hash)
      && u.createdAt == ctx.now && u.updatedAt == ctx.now
      && u.verification == MakeVerification(env, ctx.nanos, ctx.noise)
  {
    if !env.validEmail(email) then Reply(db, Failure(InvalidEmail))
    else
      var trimmed := Trim(password);
      if |trimmed| < MinPasswordLength then Reply(db, Failure(PasswordTooShort))
      else if ctx.lookupFails then Reply(db, Failure(StoreFailure))
      else if First(db, EmailColumn, email).Some? then Reply(db, Failure(EmailTaken))
      else
        match env.bcryptHash(trimmed)
        case None => Reply(db, Failure(HashingFailure))
        case Some(hash) =>
          var user := User(db.nextId, ctx.now, ctx.now, email,
                           MakeVerification(env, ctx.nanos, ctx.noise), false, hash, address);
          if ctx.writeFails then Reply(db, Failure(CreateFailure))
          else Reply(Insert(db, user), Success(user))
  }

  /** gorm's `Create` of a new row under the next key. */
  function Insert(db: Store, u: User): (r: Store)
    requires Valid(db) && u.id == db.nextId
    ensures Valid(r) && r.nextId == db.nextId + 1
    ensures r.users == db.users[u.id := u] && u.id !in db.users
  {
    Store(db.users[u.id := u], db.nextId + 1)
  }

  /** VerifyUser(verification). */
  function Verify(db: Store, ctx: Ctx, verification: string): (r: Reply<Outcome<Error>>)
    requires Valid(db)
    ensures Valid(r.db)
    ensures r.out.Fail? ==> r.db == db
    ensures ctx.lookupFails ==> r.out == Fail(StoreFailure)
    // an unknown token is gorm's "record not found", passed through
    ensures !ctx.lookupFails && !Holds(db, VerificationColumn, verification) ==>
      r.out == Fail(RecordNotFound)
    // a known token: refused if already used, otherwise exactly the matched
    // row becomes verified
    ensures forall id | !ctx.lookupFails && IsFirst(db, VerificationColumn, verification, id) ::
      && (db.users[id].verified ==> r.out == Fail(AlreadyVerified))
      && (!db.users[id].verified && ctx.writeFails ==> r.out == Fail(StoreFailure))
      && (!db.users[id].verified && !ctx.writeFails ==>
            r.out == Pass && r.db == Save(db, db.users[id].(verified := true, updatedAt := ctx.now)))
  {
    if ctx.lookupFails then Reply(db, Fail(StoreFailure))
    else
      match First(db, VerificationColumn, verification)
      case None => Reply(db, Fail(RecordNotFound))
      case Some(id) =>
        var found := db.users[id];
        if found.verified then Reply(db, Fail(AlreadyVerified))
        else if ctx.writeFails then Reply(db, Fail(StoreFailure))
        else Reply(Save(db, found.(verified := true, updatedAt := ctx.now)), Pass)
  }

  /** LoginUser(address, email, password). */
  function Login(db: Store, env: Env, ctx: Ctx, address: string, email: string, password: Bytes)
    : (r: Reply<LoginOutcome>)
    requires Valid(db)
    ensures Valid(r.db)
    ensures !r.out.LoggedIn? ==> r.db == db
    ensures ctx.lookupFails ==> r.out == Refused(StoreFailure)
    ensures !ctx.lookupFails && !Holds(db, EmailColumn, email) ==> r.out == NoSuchAccount
    // an unverified account is refused before the password is looked at; a
    // wrong password looks like an unknown email; success refreshes the
    // address and timestamp of the matched row only, and a failed save is
    // not reported
    ensures forall id | !ctx.lookupFails && IsFirst(db, EmailColumn, email, id) ::
      var found := db.users[id];
      && (!found.verified ==> r.out == Refused(NotVerified))
      && (found.verified && !env.bcryptCompare(found.hash, password) ==> r.out == NoSuchAccount)
      && (found.verified && env.bcryptCompare(found.hash, password) ==>
            && r.out == LoggedIn(found.(address := address, updatedAt := ctx.now))
            && r.db == (if ctx.writeFails then db else Save(db, r.out.user)))
    ensures r.out.LoggedIn? ==>
      r.out.user.email == email && r.out.user.address == address && r.out.user.verified
  {
    if ctx.lookupFails then Reply(db, Refused(StoreFailure))
    else
      match First(db, EmailColumn, email)
      case None => Reply(db, NoSuchAccount)
      case Some(id) =>
        var found := db.users[id];
        if !found.verified then Reply(db, Refused(NotVerified))
        else if !env.bcryptCompare(found.hash, password) then Reply(db, NoSuchAccount)
        else
          var updated := found.(address := address, updatedAt := ctx.now);
          Reply(if ctx.writeFails then db else Save(db, updated), LoggedIn(updated))
  }

  // ------------------------------------------------- per-operation lemmas

  /** Register only ever appends a row under a fresh key. */
  lemma RegisterEvolves(db: Store, env: Env, ctx: Ctx, address: string, email: string, password: Bytes)
    requires Valid(db)
    ensures var db' := Register(db, env, ctx, address, email, password).db;
      && Evolves(db, db')
      && (forall id :: id in db.users ==> id in db'.users && db'.users[id] == db.users[id])
  {
    var r := Register(db, env, ctx, address, email, password);
    if r.out.Success? {
      InsertEvolves(db, r.out.value);
    }
  }

  /** Register never creates a second row for an email. */
  lemma RegisterKeepsEmailsDistinct(db: Store, env: Env, ctx: Ctx, address: string, email: string, password: Bytes)
    requires Valid(db) && EmailsDistinct(db)
    ensures EmailsDistinct(Register(db, env, ctx, address, email, password).db)
  {
    var r := Register(db, env, ctx, address, email, password);
    if r.out.Success? {
      assert !Holds(db, EmailColumn, email);
      InsertKeepsEmailsDistinct(db, r.out.value);
    }
  }

  lemma InsertKeepsEmailsDistinct(db: Store, u: User)
    requires Valid(db) && u.id == db.nextId && EmailsDistinct(db)
    requires !Holds(db, EmailColumn, u.email)
    ensures EmailsDistinct(Insert(db, u))
  {
    var users := Insert(db, u).users;
    forall a, b | a in users && b in users && a != b
      ensures users[a].email != users[b].email
    {
      if a != u.id && b != u.id {
        assert users[a] == db.users[a] && users[b] == db.users[b];
      } else if a == u.id {
        assert b in db.users && users[b] == db.users[b];
        assert !Matches(db.users[b], EmailColumn, u.email);
      } else {
        assert a in db.users && users[a] == db.users[a];
        assert !Matches(db.users[a], EmailColumn, u.email);
      }
    }
  }

  /** Register only stores tokens of the generator's shape. */
  lemma RegisterKeepsTokensShaped(db: Store, env: Env, ctx: Ctx, address: string, email: string, password: Bytes)
    requires Valid(db) && TokensShaped(db)
    ensures TokensShaped(Register(db, env, ctx, address, email, password).db)
  {
  }

  /** Inserting a row under the next key is an evolution of the table that
      keeps every existing row exactly as it was. */
  lemma InsertEvolves(db: Store, u: User)
    requires Valid(db) && u.id == db.nextId
    ensures Evolves(db, Insert(db, u))
    ensures forall id :: id in db.users ==> id in Insert(db, u).users && Insert(db, u).users[id] == db.users[id]
  {
  }

  /** Verify keeps every invariant of the table. */
  lemma VerifyPreserves(db: Store, ctx: Ctx, verification: string)
    requires Valid(db)
    ensures var db' := Verify(db, ctx, verification).db;
      && Evolves(db, db')
      && db'.users.Keys == db.users.Keys
      && (EmailsDistinct(db) ==> EmailsDistinct(db'))
      && (TokensShaped(db) ==> TokensShaped(db'))
  {
  }

  /** Login keeps every invariant of the table. */
  lemma LoginPreserves(db: Store, env: Env, ctx: Ctx, address: string, email: string, password: Bytes)
    requires Valid(db)
    ensures var db' := Login(db, env, ctx, address, email, password).db;
      && Evolves(db, db')
      && db'.users.Keys == db.users.Keys
      && (forall id :: id in db.users ==> db'.users[id].verified == db.users[id].verified)
      && (EmailsDistinct(db) ==> EmailsDistinct(db'))
      && (TokensShaped(db) ==> TokensShaped(db'))
  {
  }

  /** Whether the final save succeeds makes no difference to what Login
      returns. */
  lemma LoginIgnoresSaveFailure(db: Store, env: Env, ctx: Ctx, address: string, email: string, password: Bytes)
    requires Valid(db)
    ensures Login(db, env, ctx.(writeFails := true), address, email, password).out
         == Login(db, env, ctx.(writeFails := false), address, email, password).out
  {
  }

  /** An unknown email and a wrong password for a verified account get the
      same answer, and neither changes the store: a caller cannot tell them
      apart. */
  lemma LoginHidesUnknownEmail(
    db: Store, env: Env, ctx: Ctx,
    address: string, unknown: string, known: string, password: Bytes, guess: Bytes, id: nat)
    requires Valid(db) && !ctx.lookupFails
    requires !Holds(db, EmailColumn, unknown)
    requires IsFirst(db, EmailColumn, known, id) && db.users[id].verified
    requires !env.bcryptCompare(db.users[id].hash, guess)
    ensures Login(db, env, ctx, address, unknown, password)
         == Login(db, env, ctx, address, known, guess)
         == Reply(db, NoSuchAccount)
  {
  }

  /** An unverified account is refused whatever password is offered. */
  lemma LoginUnverifiedIgnoresPassword(
    db: Store, env: Env, ctx: Ctx, address: string, email: string, p: Bytes, q: Bytes, id: nat)
    requires Valid(db) && !ctx.lookupFails
    requires IsFirst(db, EmailColumn, email, id) && !db.users[id].verified
    ensures Login(db, env, ctx, address, email, p) == Login(db, env, ctx, address, email, q)
         == Reply(db, Refused(NotVerified))
  {
  }
}
