/** The library calls the account code makes and cannot be looked into,
    and the per-call inputs it draws from the outside world. Each becomes
    a value handed to the operations; the little they are assumed to
    satisfy is stated as predicates that only the lemmas needing them
    require. */
module Foreign {
  import opened Results
  import opened Text
  import opened Decimal

  /** A SHA-256 digest. */
  type Digest = s: Bytes | |s| == 32 witness seq(32, _ => 0)

  /** The 128 bytes `math/rand`'s `Read` fills in for a new token. */
  type Noise = s: Bytes | |s| == 128 witness seq(128, _ => 0)

  /** The foreign functions:
      - validEmail: `checkmail.ValidateFormat` returns nil;
      - bcryptHash: `bcrypt.GenerateFromPassword` at the default cost, None
        when it returns an error (its salt is part of the function value);
      - bcryptCompare: `bcrypt.CompareHashAndPassword` returns nil;
      - sha256: `sha256.Sum256`. */
  datatype Env = Env(
    validEmail: string -> bool,
    bcryptHash: Bytes -> Option<string>,
    bcryptCompare: (string, Bytes) -> bool,
    sha256: Bytes -> Digest)

  /** bcrypt accepts the password a hash was made from. */
  ghost predicate HashSound(env: Env) {
    forall p :: env.bcryptHash(p).Some? ==> env.bcryptCompare(env.bcryptHash(p).value, p)
  }

  /** bcrypt only looks at the first 72 bytes of a password. */
  const BcryptMaxLength: nat := 72

  /** An assumption, not a fact about bcrypt in general: a hash accepts the
      password it was made from and no other password of up to 72 bytes.
      Real bcrypt appends a NUL to the key and repeats it, so some distinct
      short passwords ("ab" and "ab\0ab") hash alike. The lemmas that need
      this predicate compare passwords that contain no NUL: a password with
      its trimmed form, and "correct-horse" with "wrong". */
  ghost predicate HashExact(env: Env) {
    forall p, q ::
      |p| <= BcryptMaxLength && |q| <= BcryptMaxLength && env.bcryptHash(p).Some? ==>
        (env.bcryptCompare(env.bcryptHash(p).value, q) <==> p == q)
  }

  /** What one call sees of the outside world: the wall clock (stamped into
      CreatedAt/UpdatedAt), the nanosecond clock reading and the random bytes
      the token is made from, and whether the store's lookup or its write
      (Create or Save) fails with an error other than "record not found". */
  datatype Ctx = Ctx(
    now: int,
    nanos: Int64,
    noise: Noise,
    lookupFails: bool,
    writeFails: bool)
}
