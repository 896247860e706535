# SecureCredentials password hasher, modelled in Dafny

The repository is a single salted password hasher. A `PasswordHasher` holds a key size
and an iteration count. `HashPassword` draws a random salt of key-size bytes, derives a
key-size-byte key with PBKDF2 (section 5.2 of RFC 8018) over HMAC-SHA-512, and returns
that key as upper-case Base16 text (section 8 of RFC 4648) together with the salt.
`VerifyHashPassword` re-derives the key from a candidate password and the stored salt,
decodes the stored digest from Base16, and compares the two byte sequences with a
fixed-time equality. The parameter defaults are 64-byte keys, 350000 iterations and SHA-512.

Files:

- `types.dfy`: bytes (`bv8`) and the C# 32-bit `int` range.
- `wrappers.dfy`: `Option` stands for a nullable C# reference. `Result` stands for a value
  or a thrown exception.
- `constant.dfy`: the parameter set (`KEYSIZE`, `SALTSIZE`, `ITERATIONS`, `HASHALGORITHM`).
- `hex_convert.dfy`: .NET's `Convert.ToHexString` and `Convert.FromHexString`, written out
  concretely. It proves both directions of the round trip and that decoding ignores case.
- `cryptographic_operations.dfy`: `CryptographicOperations.FixedTimeEquals`, computed as
  .NET computes it. It first checks the lengths, then ORs the 32-bit byte differences. The
  module proves that the result is exactly sequence equality.
- `password_hasher.dfy`: the hasher's constructors, `HashPassword` and `VerifyHashPassword`,
  plus the lemmas about them.

How foreign code is represented:

- PBKDF2 is the parameter `kdf` of type `Pbkdf2`. This is an arbitrary deterministic function
  whose only known property is that it returns exactly the requested number of bytes.
- The operating system's random source is the parameter `rng` of type `RandomSource`. This
  is an arbitrary function that returns exactly the requested number of bytes.
- A null or empty `password` or `hash` is `None` or `Some("")`.
- An exception thrown out of `VerifyHashPassword` is a `Failure` result.
- The hasher is an immutable value. `HashPassword` and `VerifyHashPassword` take it as input
  and return no new hasher, so neither can change `_keySize` or `_iterations`.
- The source keeps the hash algorithm in a private field, initialised to
  `Constant.HASHALGORITHM` and never reassigned. It is therefore the same for every hasher,
  so the model uses the constant directly instead of storing a field.

## Model

| member | source | states |
|---|---|---|
| PasswordHashing.NewPasswordHasher | PasswordHasher.cs:21-25 | the explicit constructor stores exactly the given key size and iteration count, with no other validation than positivity |
| PasswordHashing.DefaultPasswordHasher | PasswordHasher.cs:30-34 | the parameterless constructor gives a hasher with 64-byte keys and 350000 iterations |
| PasswordHashing.IsNullOrEmpty | PasswordHasher.cs:46 | a possibly-null string counts as null-or-empty exactly when it is null or the empty string |
| PasswordHashing.PassesGuard | PasswordHasher.cs:65-66 | verification is rejected up front exactly when the password is null or empty, the digest is null or empty, or the salt is empty |
| PasswordHashing.DeriveKey | PasswordHasher.cs:51 | the key derived for a hasher has exactly the hasher's key size in bytes |
| PasswordHashing.HashPassword | PasswordHasher.cs:42-54 | a null or empty password gives the empty digest and the empty salt; any other password gives a salt of key-size bytes taken from the random source and a digest of twice key-size upper-case hex digits that decodes to the PBKDF2-HMAC-SHA-512 key of that password and salt |
| PasswordHashing.VerifyHashPassword | PasswordHasher.cs:63-71 | a null or empty password or digest, or an empty salt, gives false; past that guard, a digest that is not Base16 is an error outcome, never true; a decodable digest gives true exactly when its bytes equal the re-derived key; overall true exactly when the independent `Authenticates` condition holds |
| PasswordHashing.AcceptanceIsCanonicalMatch | PasswordHasher.cs:70 | a text decodes to a key exactly when the text, upper-cased, is that key's Base16 encoding |
| PasswordHashing.HashThenVerify | PasswordHasher.cs:42-71 | what any hasher produces for a non-empty password, every hasher with the same key size and iteration count accepts for that password |
| PasswordHashing.LengthMismatchRejected | PasswordHasher.cs:70 | a valid hex digest whose length is not twice the key size is rejected with false, not an error |
| PasswordHashing.VerifyIgnoresDigestCase | PasswordHasher.cs:70 | verification gives the same outcome for a digest and its upper-cased form |
| PasswordHashing.EveryHasherUsesSha512 | Constant.cs:28 | for every hasher, the key is derived with the hash algorithm named SHA512 |
| PasswordHashing.DefaultIsParameterSet | Constant.cs:13-23 | the parameterless hasher is the explicit constructor applied to `KEYSIZE` and `ITERATIONS` |
| PasswordHashing.DefaultOutputSizes | Constant.cs:13-18 | a default hasher produces 64-byte salts and 128-character digests, so the salt length is not `SALTSIZE` |
| HexConvert.ToHexString | PasswordHasher.cs:53 | the encoding has two characters per byte and only upper-case hex digits |
| HexConvert.FromHexString | PasswordHasher.cs:70 | decoding succeeds exactly on even-length texts of hex digits of either case, giving half as many bytes; every other text fails with the one `FormatException` outcome |
| HexConvert.DecodeEncode | PasswordHasher.cs:53 | decoding an encoding gives back the original bytes |
| HexConvert.EncodeDecode | PasswordHasher.cs:70 | encoding a decoded text gives the text upper-cased |
| HexConvert.DecodeIgnoresCase | PasswordHasher.cs:70 | decoding a text and its upper-cased form give the same result, success or failure |
| HexConvert.ToHexStringInjective | PasswordHasher.cs:53 | distinct byte sequences have distinct encodings |
| CryptographicOperations.NoDifferencesIffEqual | PasswordHasher.cs:70 | for equal-length inputs, the OR of the byte differences is zero exactly when the sequences are equal |
| CryptographicOperations.FixedTimeEquals | PasswordHasher.cs:70 | the comparison is true exactly when both sequences have the same length and bytes, so a length mismatch gives false |

## Left out

- A digest that is not Base16 makes `Convert.FromHexString` throw, and nothing in the code
  catches it. The model therefore gives an error outcome, as the code does, rather than a
  plain `false`. `VerifyHashPassword` proves that this outcome is never acceptance.
- Passwords are Dafny strings, which are sequences of Unicode scalar values, while C#
  strings are sequences of UTF-16 code units. A password with an unpaired surrogate cannot
  be expressed. For such a password, the library's UTF-8 encoding inside PBKDF2 throws, in
  both `HashPassword` and `VerifyHashPassword`, and that exception is not modelled.
- HexConvert.FromHexString: counts length in scalar values, not UTF-16 code units. A
  character outside the Basic Multilingual Plane is never a hex digit, so whether decoding
  succeeds or fails, and the `FormatException` outcome, are the same either way. Only the
  exception's message is not modelled, and the caller never sees it.
- PBKDF2, HMAC and SHA-512 internals: these are library calls, modelled only as a
  deterministic function with exact output length.
- The random salt: it is an arbitrary function of the requested length. The claim that two
  hashes of one password get different salts needs probability, so it is not stated.
- A wrong password being rejected: this depends on collision resistance of the key
  derivation, not on logic in the code, so it is not stated.
- The timing behaviour of `FixedTimeEquals`: only its boolean result is modelled.
- Non-positive key sizes and iteration counts: the source does not validate them, and what
  the library then does is not visible. The constructors require both to be positive.
- Allocation limits of the library for very large key sizes (for example, the longest text
  `Convert.ToHexString` can produce) are not modelled.
- A null `salt` in `VerifyHashPassword` dereferences `salt.Length`; the salt is modelled as a
  non-null byte sequence.
- The order of work inside `VerifyHashPassword` is not observable in the model. The source
  derives the key before it decodes the digest.
- Thread safety: nothing is shared or mutable, so there is nothing to state.
- `SALTSIZE` is defined but never read, and salts are key-size bytes long. The model follows
  the code; `DefaultOutputSizes` records the difference.
