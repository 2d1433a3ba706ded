/** The account lifecycle over any sequence of calls: the table invariants
    every operation keeps, what stays true of a row once it exists, and the
    register-verify-login path end to end. */
module Lifecycle {
  import opened Results
  import opened Text
  import opened Foreign
  import opened Users

  /** One call to the account code, with what it sees of the outside world. */
  datatype Op =
    | RegisterOp(ctx: Ctx, address: string, email: string, password: Bytes)
    | VerifyOp(ctx: Ctx, verification: string)
    | LoginOp(ctx: Ctx, address: string, email: string, password: Bytes)

  /** The store after one call, whatever the call returned. */
  function Apply(env: Env, db: Store, op: Op): (db': Store)
    requires Valid(db)
    ensures Valid(db')
  {
    match op
    case RegisterOp(ctx, address, email, password) => Register(db, env, ctx, address, email, password).db
    case VerifyOp(ctx, verification) => Verify(db, ctx, verification).db
    case LoginOp(ctx, address, email, password) => Login(db, env, ctx, address, email, password).db
  }

  /** The store after a sequence of calls, one after the other. */
  function Run(env: Env, db: Store, ops: seq<Op>): (db': Store)
    requires Valid(db)
    ensures Valid(db')
    decreases |ops|
  {
    if ops == [] then db else Run(env, Apply(env, db, ops[0]), ops[1..])
  }

  lemma EvolvesTransitive(a: Store, b: Store, c: Store)
    requires Evolves(a, b) && Evolves(b, c)
    ensures Evolves(a, c)
  {
  }

  /** Every single call keeps the table's invariants. */
  lemma ApplyPreserves(env: Env, db: Store, op: Op)
    requires Valid(db)
    ensures Evolves(db, Apply(env, db, op))
    ensures EmailsDistinct(db) ==> EmailsDistinct(Apply(env, db, op))
    ensures TokensShaped(db) ==> TokensShaped(Apply(env, db, op))
  {
    match op
    case RegisterOp(ctx, address, email, password) =>
      RegisterEvolves(db, env, ctx, address, email, password);
      if EmailsDistinct(db) {
        RegisterKeepsEmailsDistinct(db, env, ctx, address, email, password);
      }
      if TokensShaped(db) {
        RegisterKeepsTokensShaped(db, env, ctx, address, email, password);
      }
    case VerifyOp(ctx, verification) =>
      VerifyPreserves(db, ctx, verification);
    case LoginOp(ctx, address, email, password) =>
      LoginPreserves(db, env, ctx, address, email, password);
  }

  /** Any sequence of calls keeps email uniqueness and the token shape, and
      only ever lets rows evolve: none disappears, none loses its email,
      token or hash, and none goes from verified back to unverified. */
  lemma {:induction false} RunPreserves(env: Env, db: Store, ops: seq<Op>)
    requires Valid(db)
    ensures Evolves(db, Run(env, db, ops))
    ensures EmailsDistinct(db) ==> EmailsDistinct(Run(env, db, ops))
    ensures TokensShaped(db) ==> TokensShaped(Run(env, db, ops))
    decreases |ops|
  {
    if ops != [] {
      var next := Apply(env, db, ops[0]);
      ApplyPreserves(env, db, ops[0]);
      RunPreserves(env, next, ops[1..]);
      EvolvesTransitive(db, next, Run(env, next, ops[1..]));
    }
  }

  /** Starting from the empty table, every reachable table has distinct
      emails and well-shaped tokens. */
  lemma ReachableInvariants(env: Env, ops: seq<Op>)
    ensures EmailsDistinct(Run(env, Empty, ops)) && TokensShaped(Run(env, Empty, ops))
  {
    RunPreserves(env, Empty, ops);
  }

  /** Once verified, a row stays verified. */
  lemma VerifiedIsMonotonic(env: Env, db: Store, ops: seq<Op>, id: nat)
    requires Valid(db) && id in db.users && db.users[id].verified
    ensures id in Run(env, db, ops).users && Run(env, db, ops).users[id].verified
  {
    RunPreserves(env, db, ops);
  }

  /** The row a lookup finds keeps being the one it finds: its own column
      never changes and rows added later have higher keys. */
  lemma FirstPersists(db: Store, db': Store, col: Column, value: string, id: nat)
    requires Valid(db) && Evolves(db, db') && IsFirst(db, col, value, id)
    ensures IsFirst(db', col, value, id)
  {
    forall other | other in db'.users && other < id
      ensures !Matches(db'.users[other], col, value)
    {
      assert other in db.users;
    }
  }

  /** A verification token works once: after a successful Verify, no later
      Verify with the same token succeeds, whatever happened in between. */
  lemma VerifyIsSingleUse(env: Env, db: Store, ctx: Ctx, token: string, ops: seq<Op>, later: Ctx)
    requires Valid(db) && Verify(db, ctx, token).out == Pass
    ensures var db' := Run(env, Verify(db, ctx, token).db, ops);
      Verify(db', later, token).out == (if later.lookupFails then Fail(StoreFailure) else Fail(AlreadyVerified))
  {
    var id := First(db, VerificationColumn, token).value;
    var db1 := Verify(db, ctx, token).db;
    VerifyPreserves(db, ctx, token);
    FirstPersists(db, db1, VerificationColumn, token, id);
    var db' := Run(env, db1, ops);
    RunPreserves(env, db1, ops);
    FirstPersists(db1, db', VerificationColumn, token, id);
  }

  /** Once an email is registered, no later Register for it succeeds. */
  lemma EmailStaysTaken(
    env: Env, db: Store, ctx: Ctx, address: string, email: string, password: Bytes,
    ops: seq<Op>, later: Ctx, address': string, password': Bytes)
    requires Valid(db) && Register(db, env, ctx, address, email, password).out.Success?
    ensures var db' := Run(env, Register(db, env, ctx, address, email, password).db, ops);
      !Register(db', env, later, address', email, password').out.Success?
  {
    var r := Register(db, env, ctx, address, email, password);
    var id := r.out.value.id;
    assert id in r.db.users && r.db.users[id].email == email;
    var db' := Run(env, r.db, ops);
    RunPreserves(env, r.db, ops);
    assert id in db'.users && db'.users[id].email == email;
  }

  /** A fresh registration followed by verification of its token leaves a
      verified row for the email, holding the hash of the trimmed password,
      and no other row holds the email. Needs that no earlier row drew the same token. */
  lemma Onboard(env: Env, db: Store, c1: Ctx, c2: Ctx, address: string, email: string, password: Bytes)
    requires Valid(db) && RegisterAdmits(db, env, c1, email, password)
    requires !Holds(db, VerificationColumn, MakeVerification(env, c1.nanos, c1.noise))
    requires !c2.lookupFails && !c2.writeFails
    ensures var r1 := Register(db, env, c1, address, email, password);
      && r1.out.Success?
      && var r2 := Verify(r1.db, c2, r1.out.value.verification);
      && r2.out == Pass
      && IsFirst(r2.db, EmailColumn, email, db.nextId)
      && r2.db.users[db.nextId].verified
      && Some(r2.db.users[db.nextId].hash) == env.bcryptHash(Trim(password))
      && (forall k :: k in r2.db.users && r2.db.users[k].email == email ==> k == db.nextId)
  {
    var r1 := Register(db, env, c1, address, email, password);
    RegisterCreatesFirst(env, db, c1, address, email, password);
    var u := r1.out.value;
    var r2 := Verify(r1.db, c2, u.verification);
    VerifyPreserves(r1.db, c2, u.verification);
    FirstPersists(r1.db, r2.db, EmailColumn, email, u.id);
    SoleHolderPersists(r1.db, r2.db, email, u.id);
  }

  /** A row that alone holds an email keeps holding it alone while the table
      evolves without gaining rows. */
  lemma SoleHolderPersists(db: Store, db': Store, email: string, id: nat)
    requires Valid(db) && Evolves(db, db') && db'.users.Keys == db.users.Keys
    requires forall k :: k in db.users && db.users[k].email == email ==> k == id
    ensures forall k :: k in db'.users && db'.users[k].email == email ==> k == id
  {
    forall k | k in db'.users && db'.users[k].email == email
      ensures k == id
    {
      assert db.users[k].email == email;
    }
  }

  /** A successful Register makes the new row the first and only one for its
      email and, when no earlier row drew the same token, the first one for
      its token. */
  lemma RegisterCreatesFirst(env: Env, db: Store, ctx: Ctx, address: string, email: string, password: Bytes)
    requires Valid(db) && RegisterAdmits(db, env, ctx, email, password)
    ensures var r := Register(db, env, ctx, address, email, password);
      && r.out.Success? && r.out.value.id == db.nextId && !r.out.value.verified
      && IsFirst(r.db, EmailColumn, email, db.nextId)
      && (forall k :: k in r.db.users && r.db.users[k].email == email ==> k == db.nextId)
      && (!Holds(db, VerificationColumn, r.out.value.verification) ==>
            IsFirst(r.db, VerificationColumn, r.out.value.verification, db.nextId))
  {
    var r := Register(db, env, ctx, address, email, password);
    var u := r.out.value;
    assert r.db.users == db.users[u.id := u];
    assert forall j :: j in db.users ==> !Matches(db.users[j], EmailColumn, email);
    forall other | other in r.db.users && other < u.id
      ensures !Matches(r.db.users[other], EmailColumn, email)
    {
      assert other in db.users && r.db.users[other] == db.users[other];
    }
    if !Holds(db, VerificationColumn, u.verification) {
      forall other | other in r.db.users && other < u.id
        ensures !Matches(r.db.users[other], VerificationColumn, u.verification)
      {
        assert other in db.users && r.db.users[other] == db.users[other];
      }
    }
  }

  /** Register, verify, log in: with a password that has no surrounding
      whitespace, the account logs in and the returned row carries the new
      address; the stored row records it unless the final save fails. */
  lemma RegisterVerifyLogin(
    env: Env, db: Store, c1: Ctx, c2: Ctx, c3: Ctx,
    address: string, origin: string, email: string, password: Bytes)
    requires Valid(db) && HashSound(env) && Unpadded(password)
    requires RegisterAdmits(db, env, c1, email, password)
    requires !Holds(db, VerificationColumn, MakeVerification(env, c1.nanos, c1.noise))
    requires !c2.lookupFails && !c2.writeFails && !c3.lookupFails
    ensures var r1 := Register(db, env, c1, address, email, password);
      && r1.out.Success?
      && var r2 := Verify(r1.db, c2, r1.out.value.verification);
      && r2.out == Pass
      && var r3 := Login(r2.db, env, c3, origin, email, password);
      && r3.out.LoggedIn?
      && r3.out.user.address == origin
      && r3.out.user.id == r1.out.value.id
      && r1.out.value.id in r3.db.users
      && r3.db.users[r1.out.value.id].address == (if c3.writeFails then address else origin)
  {
    Onboard(env, db, c1, c2, address, email, password);
    var r1 := Register(db, env, c1, address, email, password);
    var r2 := Verify(r1.db, c2, r1.out.value.verification);
    var id := db.nextId;
    assert env.bcryptCompare(r2.db.users[id].hash, password) by {
      TrimKeepsUnpadded(password);
    }
    LoginSucceeds(r2.db, env, c3, origin, email, password, id);
  }

  /** Login into a verified row with a password its hash accepts: the
      returned row carries the caller's address, and the stored row records
      it unless the save fails, in which case it keeps its old address. */
  lemma LoginSucceeds(db: Store, env: Env, ctx: Ctx, address: string, email: string, password: Bytes, id: nat)
    requires Valid(db) && !ctx.lookupFails
    requires IsFirst(db, EmailColumn, email, id) && db.users[id].verified
    requires env.bcryptCompare(db.users[id].hash, password)
    ensures var r := Login(db, env, ctx, address, email, password);
      && r.out.LoggedIn? && r.out.user.id == id && r.out.user.address == address
      && id in r.db.users
      && r.db.users[id].address == (if ctx.writeFails then db.users[id].address else address)
  {
  }

  /** Register trims the password but Login does not: when bcrypt tells
      passwords apart, a password registered with surrounding whitespace is
      turned away at login when typed the same way, and only its trimmed
      form gets in. */
  lemma LoginDoesNotTrim(
    env: Env, db: Store, c1: Ctx, c2: Ctx, c3: Ctx,
    address: string, origin: string, email: string, password: Bytes)
    requires Valid(db) && HashExact(env)
    requires Trim(password) != password && |password| <= BcryptMaxLength
    requires RegisterAdmits(db, env, c1, email, password)
    requires !Holds(db, VerificationColumn, MakeVerification(env, c1.nanos, c1.noise))
    requires !c2.lookupFails && !c2.writeFails && !c3.lookupFails
    ensures var r1 := Register(db, env, c1, address, email, password);
      && r1.out.Success?
      && var r2 := Verify(r1.db, c2, r1.out.value.verification);
      && Login(r2.db, env, c3, origin, email, password).out == NoSuchAccount
      && Login(r2.db, env, c3, origin, email, Trim(password)).out.LoggedIn?
  {
    Onboard(env, db, c1, c2, address, email, password);
    assert |Trim(password)| <= |password|;
  }

  /** The bytes of "correct-horse" and of "wrong". */
  const CorrectHorse: Bytes := [99, 111, 114, 114, 101, 99, 116, 45, 104, 111, 114, 115, 101]
  const Wrong: Bytes := [119, 114, 111, 110, 103]

  /** The example session: register a@example.com from 203.0.113.5 with
      "correct-horse", verify the mailed token, log in from 203.0.113.9 (the
      returned row carries that address, and so does the stored row unless
      the save fails, in which case it keeps 203.0.113.5), then a login with
      "wrong" is answered as for an unknown account. */
  lemma ExampleSession(env: Env, c1: Ctx, c2: Ctx, c3: Ctx, c4: Ctx)
    requires HashSound(env) && HashExact(env)
    requires env.validEmail("a@example.com")
    requires env.bcryptHash(CorrectHorse).Some?
    requires !c1.lookupFails && !c1.writeFails && !c2.lookupFails && !c2.writeFails
    requires !c3.lookupFails && !c4.lookupFails
    ensures var r1 := Register(Empty, env, c1, "203.0.113.5", "a@example.com", CorrectHorse);
      && r1.out.Success?
      && var r2 := Verify(r1.db, c2, r1.out.value.verification);
      && r2.out == Pass
      && var r3 := Login(r2.db, env, c3, "203.0.113.9", "a@example.com", CorrectHorse);
      && r3.out.LoggedIn? && r3.out.user.address == "203.0.113.9"
      && 1 in r3.db.users
      && r3.db.users[1].address == (if c3.writeFails then "203.0.113.5" else "203.0.113.9")
      && Login(r3.db, env, c4, "203.0.113.9", "a@example.com", Wrong).out == NoSuchAccount
  {
    var email, password := "a@example.com", CorrectHorse;
    assert Unpadded(password) && |password| == 13;
    TrimKeepsUnpadded(password);
    RegisterVerifyLogin(env, Empty, c1, c2, c3, "203.0.113.5", "203.0.113.9", email, password);
    Onboard(env, Empty, c1, c2, "203.0.113.5", email, password);
    var r1 := Register(Empty, env, c1, "203.0.113.5", email, password);
    var r2 := Verify(r1.db, c2, r1.out.value.verification);
    var r3 := Login(r2.db, env, c3, "203.0.113.9", email, password);
    LoginPreserves(r2.db, env, c3, "203.0.113.9", email, password);
    FirstPersists(r2.db, r3.db, EmailColumn, email, 1);
    assert !env.bcryptCompare(r3.db.users[1].hash, Wrong) by {
      assert |Wrong| == 5 && Wrong != password;
    }
  }
}
