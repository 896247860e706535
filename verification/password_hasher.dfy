/** The salted password hasher: PBKDF2 (section 5.2 of RFC 8018) over HMAC with the
    parameter set's hash, a fresh random salt per hash, and the derived key stored as
    upper-case Base16 text.

    The key-derivation function and the random source are foreign code. They enter as
    function-valued parameters whose types carry the one fact the model relies on: each
    returns exactly as many bytes as it is asked for. */
module PasswordHashing {
  import opened Types
  import opened Wrappers
  import Constant
  import HexConvert
  import CryptographicOperations

  /** A deterministic PBKDF2: (password, salt, iterations, hash algorithm, output length)
      to exactly output-length bytes. */
  type Pbkdf2 = f: (string, seq<byte>, PositiveInt32, Constant.HashAlgorithmName, PositiveInt32) -> seq<byte>
    | forall password, salt, iterations, algorithm, outputLength ::
        |f(password, salt, iterations, algorithm, outputLength)| == outputLength
    witness (password: string, salt: seq<byte>, iterations: PositiveInt32,
             algorithm: Constant.HashAlgorithmName, outputLength: PositiveInt32) =>
      seq(outputLength, _ => 0 as byte)

  /** A source of random bytes: asked for `n` bytes, it yields some `n` bytes. */
  type RandomSource = f: PositiveInt32 -> seq<byte>
    | forall n :: |f(n)| == n
    witness (n: PositiveInt32) => seq(n, _ => 0 as byte)

  /** The hasher's state: the derived key size in bytes and the PBKDF2 iteration count. The
      hash algorithm is not part of it because every hasher uses `Constant.HASHALGORITHM`. */
  datatype PasswordHasher = PasswordHasher(keySize: PositiveInt32, iterations: PositiveInt32)

  /** What `HashPassword` hands back: the digest text and the salt it was derived with. */
  datatype HashedPassword = HashedPassword(digest: string, salt: seq<byte>)

  /** C#'s `string.IsNullOrEmpty`. */
  function IsNullOrEmpty(s: Option<string>): (b: bool)
    ensures b <==> s == None || s == Some("")
  {
    s.None? || |s.value| == 0
  }

  /** The hasher built from explicit parameters. */
  function NewPasswordHasher(keySize: int32, iterations: int32): (h: PasswordHasher)
    requires keySize > 0 && iterations > 0
    ensures h.keySize == keySize && h.iterations == iterations
  {
    PasswordHasher(keySize, iterations)
  }

  /** The hasher built from the parameter set: 64-byte keys, 350000 iterations. */
  function DefaultPasswordHasher(): (h: PasswordHasher)
    ensures h.keySize == 64 && h.iterations == 350_000
  {
    PasswordHasher(Constant.KEYSIZE, Constant.ITERATIONS)
  }

  /** The key a hasher derives from a password and salt. */
  function DeriveKey(h: PasswordHasher, kdf: Pbkdf2, password: string, salt: seq<byte>): (key: seq<byte>)
    ensures |key| == h.keySize
  {
    kdf(password, salt, h.iterations, Constant.HASHALGORITHM, h.keySize)
  }

  /** Hashes a password: a null or empty password gives the empty digest and the empty salt
      without drawing randomness or deriving anything; otherwise a `keySize`-byte salt is
      drawn and the derived key is returned as upper-case Base16 text. */
  function HashPassword(h: PasswordHasher, kdf: Pbkdf2, rng: RandomSource, password: Option<string>): (r: HashedPassword)
    ensures IsNullOrEmpty(password) ==> r == HashedPassword("", [])
    ensures !IsNullOrEmpty(password) ==>
      && r.salt == rng(h.keySize)
      && |r.salt| == h.keySize
      && |r.digest| == 2 * h.keySize
      && HexConvert.IsUpperHex(r.digest)
      && HexConvert.FromHexString(r.digest)
         == Success(kdf(password.value, r.salt, h.iterations, Constant.SHA512, h.keySize))
  {
    if IsNullOrEmpty(password) then HashedPassword("", [])
    else
      var salt := rng(h.keySize);
      var key := DeriveKey(h, kdf, password.value, salt);
      HexConvert.DecodeEncode(key);
      HashedPassword(HexConvert.ToHexString(key), salt)
  }

  /** The fast-reject guard of `VerifyHashPassword`: true when verification proceeds. */
  function PassesGuard(password: Option<string>, hash: Option<string>, salt: seq<byte>): (pass: bool)
    ensures !pass <==> password in {None, Some("")} || hash in {None, Some("")} || salt == []
  {
    !IsNullOrEmpty(password) && !IsNullOrEmpty(hash) && |salt| != 0
  }

  /** Independent statement of when a stored digest authenticates a password: the guard
      passes and the digest, read case-insensitively, is the Base16 text of the key
      re-derived from the password and salt. */
  predicate Authenticates(h: PasswordHasher, kdf: Pbkdf2, password: Option<string>, hash: Option<string>, salt: seq<byte>) {
    && PassesGuard(password, hash, salt)
    && HexConvert.ToUpperAscii(hash.value)
       == HexConvert.ToHexString(DeriveKey(h, kdf, password.value, salt))
  }

  /** Verifies a password against a stored digest and salt. `Success(b)` is the boolean the
      source returns; `Failure(e)` is the `FormatException` that decoding a digest which is
      not Base16 throws out of the call. */
  function VerifyHashPassword(h: PasswordHasher, kdf: Pbkdf2, password: Option<string>, hash: Option<string>, salt: seq<byte>): (r: Result<bool, HexConvert.HexError>)
    ensures !PassesGuard(password, hash, salt) ==> r == Success(false)
    ensures r.Failure? <==> PassesGuard(password, hash, salt) && !HexConvert.IsHexString(hash.value)
    ensures PassesGuard(password, hash, salt) && HexConvert.FromHexString(hash.value).Success? ==>
      r == Success(HexConvert.FromHexString(hash.value).value
                   == kdf(password.value, salt, h.iterations, Constant.SHA512, h.keySize))
    ensures r == Success(true) <==> Authenticates(h, kdf, password, hash, salt)
  {
    if !PassesGuard(password, hash, salt) then Success(false)
    else
      var hashToVerify := DeriveKey(h, kdf, password.value, salt);
      AcceptanceIsCanonicalMatch(hash.value, hashToVerify);
      match HexConvert.FromHexString(hash.value)
      case Failure(e) => Failure(e)
      case Success(stored) => Success(CryptographicOperations.FixedTimeEquals(hashToVerify, stored))
  }

  /** Decoding a text to a key is the same as the text matching the key's encoding up to case. */
  lemma AcceptanceIsCanonicalMatch(text: string, key: seq<byte>)
    ensures HexConvert.FromHexString(text) == Success(key)
            <==> HexConvert.ToUpperAscii(text) == HexConvert.ToHexString(key)
  {
    if HexConvert.FromHexString(text) == Success(key) {
      HexConvert.EncodeDecode(text);
    }
    if HexConvert.ToUpperAscii(text) == HexConvert.ToHexString(key) {
      HexConvert.DecodeEncode(key);
      HexConvert.DecodeIgnoresCase(text);
    }
  }

  /** Round trip: what a hasher produces for a non-empty password, a hasher built with the
      same key size and iteration count accepts for that password. A hasher is determined by
      those two parameters, so the second hasher is the first one rebuilt, as happens when the
      verifying process constructs its own instance. */
  lemma HashThenVerify(h1: PasswordHasher, h2: PasswordHasher, kdf: Pbkdf2, rng: RandomSource, password: string)
    requires |password| > 0
    requires h1.keySize == h2.keySize && h1.iterations == h2.iterations
    ensures var stored := HashPassword(h1, kdf, rng, Some(password));
      VerifyHashPassword(h2, kdf, Some(password), Some(stored.digest), stored.salt) == Success(true)
  {
    var stored := HashPassword(h1, kdf, rng, Some(password));
    assert |stored.digest| == 2 * h1.keySize > 0;
  }

  /** A digest that decodes to the wrong number of bytes is rejected, never accepted and never
      an error. */
  lemma LengthMismatchRejected(h: PasswordHasher, kdf: Pbkdf2, password: Option<string>, hash: Option<string>, salt: seq<byte>)
    requires PassesGuard(password, hash, salt)
    requires HexConvert.IsHexString(hash.value) && |hash.value| != 2 * h.keySize
    ensures VerifyHashPassword(h, kdf, password, hash, salt) == Success(false)
  {
    assert |HexConvert.FromHexString(hash.value).value| != h.keySize;
  }

  /** Verification reads the stored digest case-insensitively. */
  lemma VerifyIgnoresDigestCase(h: PasswordHasher, kdf: Pbkdf2, password: Option<string>, hash: string, salt: seq<byte>)
    ensures VerifyHashPassword(h, kdf, password, Some(HexConvert.ToUpperAscii(hash)), salt)
            == VerifyHashPassword(h, kdf, password, Some(hash), salt)
  {
    HexConvert.DecodeIgnoresCase(hash);
  }

  /** The pseudorandom function does not depend on the hasher: whichever constructor built
      it, every derivation is PBKDF2 with HMAC-SHA-512. */
  lemma EveryHasherUsesSha512(h: PasswordHasher, kdf: Pbkdf2, password: string, salt: seq<byte>)
    ensures DeriveKey(h, kdf, password, salt)
            == kdf(password, salt, h.iterations, Constant.HashAlgorithmName("SHA512"), h.keySize)
  {
  }

  /** The parameterless constructor is the explicit one applied to the parameter set. */
  lemma DefaultIsParameterSet()
    ensures DefaultPasswordHasher() == NewPasswordHasher(Constant.KEYSIZE, Constant.ITERATIONS)
  {
  }

  /** The default hasher's output sizes: 64-byte salts and 128-character digests. The salt
      follows the key size, not the unused 16-byte `SALTSIZE`. */
  lemma DefaultOutputSizes(kdf: Pbkdf2, rng: RandomSource, password: string)
    requires |password| > 0
    ensures var stored := HashPassword(DefaultPasswordHasher(), kdf, rng, Some(password));
      && |stored.salt| == 64
      && |stored.digest| == 128
      && |stored.salt| != Constant.SALTSIZE
  {
  }
}
