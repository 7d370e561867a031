/**
  Password hashing (database/src/hash.rs): a SHA-512/256 pre-hash of
  `input ++ pepper`, base64-encoded, fed to bcrypt with cost 10 and a caller
  supplied 16-byte salt, and printed in bcrypt's "2b" format.

  The digest, the base64 engine and bcrypt itself are not modelled: they are
  the fields of `Primitives`, passed in, and `Sound` states the one fact about
  bcrypt the round trip needs.
 */
module PasswordHash {
  import opened Wrappers
  import Utf8

  type byte = Utf8.byte

  /** `BCRYPT_COST`. */
  const BCRYPT_COST: nat := 10

  /** Version tags of the modular-crypt format bcrypt prints. */
  datatype Version = TwoA | TwoX | TwoY | TwoB

  /** What `bcrypt::hash_with_salt` returns: the cost and the encoded salt and hash. */
  datatype HashParts = HashParts(cost: nat, salt: string, hash: string)

  /** An error reported by the bcrypt library (its variants are not modelled). */
  datatype BcryptError = BcryptError(reason: string)

  /** The external algorithms, left uninterpreted. */
  datatype Primitives = Primitives(
    sha512_256: seq<byte> -> seq<byte>,
    base64: seq<byte> -> string,
    bcryptHash: (string, nat, seq<byte>) -> Result<HashParts, BcryptError>,
    bcryptVerify: (string, string) -> Result<bool, BcryptError>)

  function VersionTag(v: Version): string {
    match v
    case TwoA => "2a"
    case TwoX => "2x"
    case TwoY => "2y"
    case TwoB => "2b"
  }

  function Digit(d: nat): char
    requires d < 10
  {
    "0123456789"[d]
  }

  /** Decimal digits of `n`, without leading zeros. */
  function Decimal(n: nat): (r: string)
    ensures |r| >= 1
    decreases n
  {
    if n < 10 then [Digit(n)] else Decimal(n / 10) + [Digit(n % 10)]
  }

  /** `{:02}`: at least two digits, padded with a leading zero. */
  function TwoDigits(n: nat): string {
    if n < 10 then "0" + Decimal(n) else Decimal(n)
  }

  /** `HashParts::format_for_version`: `$<version>$<cost:02>$<salt><hash>`. */
  function FormatForVersion(parts: HashParts, v: Version): string {
    "$" + VersionTag(v) + "$" + TwoDigits(parts.cost) + "$" + parts.salt + parts.hash
  }

  /**
    The property of bcrypt the model relies on: for a 16-byte salt, a
    successful hash records the requested cost, and `verify` accepts the same
    password against the hash printed in the 2b format.
   */
  ghost predicate Sound(p: Primitives) {
    forall password: string, cost: nat, salt: seq<byte> {:trigger p.bcryptHash(password, cost, salt)} ::
      |salt| == 16 && p.bcryptHash(password, cost, salt).Success? ==>
        p.bcryptHash(password, cost, salt).value.cost == cost &&
        p.bcryptVerify(password, FormatForVersion(p.bcryptHash(password, cost, salt).value, TwoB)) == Success(true)
  }

  /** The streaming SHA-512/256 hasher: the bytes absorbed so far. */
  datatype Hasher = Hasher(absorbed: seq<byte>)

  function NewHasher(): Hasher {
    Hasher([])
  }

  /** `hasher.update(data)`, for a string argument: absorbs its UTF-8 bytes. */
  function Update(h: Hasher, data: string): Hasher {
    Hasher(h.absorbed + Utf8.Encode(data))
  }

  /** Updating with `a` and then with `b` is one update with `a ++ b`. */
  lemma UpdateConcatenation(h: Hasher, a: string, b: string)
    ensures Update(Update(h, a), b) == Update(h, a + b)
  {
    Utf8.EncodeAppend(a, b);
    assert h.absorbed + Utf8.Encode(a) + Utf8.Encode(b) == h.absorbed + (Utf8.Encode(a) + Utf8.Encode(b));
  }

  function Finalize(p: Primitives, h: Hasher): seq<byte> {
    p.sha512_256(h.absorbed)
  }

  /** The pre-hash shared by `hash` and `verify`: base64 of SHA-512/256 over `input` then `pepper`. */
  function PreHash(p: Primitives, input: string, pepper: string): string {
    p.base64(Finalize(p, Update(Update(NewHasher(), input), pepper)))
  }

  /** The salt precondition of `hash`: it panics unless the salt is 16 bytes long. */
  predicate ValidSalt(salt: string) {
    |Utf8.Encode(salt)| == 16
  }

  /** `hash(input, salt, pepper)`. */
  function Hash(p: Primitives, input: string, salt: string, pepper: string): Result<string, BcryptError>
    requires ValidSalt(salt)
  {
    match p.bcryptHash(PreHash(p, input, pepper), BCRYPT_COST, Utf8.Encode(salt))
    case Success(parts) => Success(FormatForVersion(parts, TwoB))
    case Failure(e) => Failure(e)
  }

  /** `verify(stored_hash, input, pepper)`. */
  function Verify(p: Primitives, storedHash: string, input: string, pepper: string): Result<bool, BcryptError> {
    p.bcryptVerify(PreHash(p, input, pepper), storedHash)
  }

  /** The pre-hash sees only the concatenation `input ++ pepper`. */
  lemma PreHashOfConcatenation(p: Primitives, input: string, pepper: string)
    ensures PreHash(p, input, pepper) == p.base64(p.sha512_256(Utf8.Encode(input + pepper)))
  {
    UpdateConcatenation(NewHasher(), input, pepper);
    assert Update(NewHasher(), input + pepper).absorbed == Utf8.Encode(input + pepper);
  }

  /** So two (input, pepper) pairs with the same concatenation hash alike. */
  lemma PreHashDependsOnlyOnConcatenation(p: Primitives, i1: string, p1: string, i2: string, p2: string)
    requires i1 + p1 == i2 + p2
    ensures PreHash(p, i1, p1) == PreHash(p, i2, p2)
  {
    PreHashOfConcatenation(p, i1, p1);
    PreHashOfConcatenation(p, i2, p2);
  }

  /** With the same pre-hash, bcrypt receives identical arguments, so `hash` agrees. */
  lemma HashDependsOnlyOnConcatenation(p: Primitives, i1: string, p1: string, i2: string, p2: string, salt: string)
    requires ValidSalt(salt) && i1 + p1 == i2 + p2
    ensures Hash(p, i1, salt, p1) == Hash(p, i2, salt, p2)
  {
    PreHashDependsOnlyOnConcatenation(p, i1, p1, i2, p2);
  }

  /** A successful `hash` is printed as bcrypt version 2b with cost 10. */
  lemma HashIsTwoBCostTen(p: Primitives, input: string, salt: string, pepper: string)
    requires Sound(p) && ValidSalt(salt)
    requires Hash(p, input, salt, pepper).Success?
    ensures Hash(p, input, salt, pepper).value[..7] == "$2b$10$"
  {
    var parts := p.bcryptHash(PreHash(p, input, pepper), BCRYPT_COST, Utf8.Encode(salt)).value;
    assert parts.cost == 10;
    assert TwoDigits(parts.cost) == "10";
  }

  /** Round trip: what `hash` produced, `verify` accepts with the same input and pepper. */
  lemma HashVerifyRoundTrip(p: Primitives, input: string, salt: string, pepper: string)
    requires Sound(p) && ValidSalt(salt)
    requires Hash(p, input, salt, pepper).Success?
    ensures Verify(p, Hash(p, input, salt, pepper).value, input, pepper) == Success(true)
  {
  }

  /**
    The round trip holds for any input and pepper with the same concatenation,
    the reason "the same pepper must be used": verify only ever sees `input ++ pepper`.
   */
  lemma VerifyAcceptsSameConcatenation(p: Primitives, input: string, salt: string, pepper: string,
                                       input': string, pepper': string)
    requires Sound(p) && ValidSalt(salt)
    requires Hash(p, input, salt, pepper).Success?
    requires input' + pepper' == input + pepper
    ensures Verify(p, Hash(p, input, salt, pepper).value, input', pepper') == Success(true)
  {
    PreHashDependsOnlyOnConcatenation(p, input, pepper, input', pepper');
  }
}
