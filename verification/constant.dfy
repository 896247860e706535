/** The process-wide parameter set of the password hasher. */
module Constant {
  import opened Types

  /** A hash algorithm, identified by its name as in .NET's `HashAlgorithmName`. */
  datatype HashAlgorithmName = HashAlgorithmName(name: string)

  const SHA512: HashAlgorithmName := HashAlgorithmName("SHA512")

  /** The number of bytes of key to derive. */
  const KEYSIZE: int32 := 64

  /** The intended salt size in bytes. No operation reads it: salts are `KEYSIZE` long. */
  const SALTSIZE: int32 := 16

  /** The number of PBKDF2 iterations. */
  const ITERATIONS: int32 := 350_000

  /** The pseudorandom function's hash, the same for every hasher. */
  const HASHALGORITHM: HashAlgorithmName := SHA512
}
