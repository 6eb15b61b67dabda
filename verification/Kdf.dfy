/** Key derivation: parameter checks and labels around the uninterpreted KDFs. */
module Kdf {
  import opened Bytes
  import opened Primitives
  import opened Wrappers

  const MAX_PBKDF2_ITERATIONS: nat := 1_000_000

  datatype KdfParams = Pbkdf2(iterations: u32) | Scrypt(nLog2: byte, r: u32, p: u32)

  predicate ValidParams(kdf: KdfParams)
  {
    match kdf
    case Pbkdf2(iterations) => 0 < iterations <= MAX_PBKDF2_ITERATIONS
    case Scrypt(nLog2, r, p) => nLog2 <= 15 && 0 < r <= 8 && 0 < p <= 2
  }

  /** What a caller needs for a root key: a password, parameters in range, and scrypt's consent. */
  predicate KeyDerivable(P: Primitives, password: bytes, salt: bytes, kdf: KdfParams)
  {
    && password != []
    && match kdf
       case Pbkdf2(iterations) => 1 <= iterations <= 1_000_000
       case Scrypt(nLog2, r, p) =>
         nLog2 <= 15 && 1 <= r <= 8 && 1 <= p <= 2 && P.scrypt(password, salt, nLog2, r, p).Some?
  }

  /** `derive_root_key`; the scrypt library may itself refuse. */
  function DeriveRootKey(P: Primitives, password: bytes, salt: bytes, kdf: KdfParams): Result<Digest, KrcmError>
  {
    if password == [] || |salt| != 16 || !ValidParams(kdf) then Err(InvalidParameter) else
      match kdf
      case Pbkdf2(iterations) => Ok(P.pbkdf2Root(password, salt, iterations))
      case Scrypt(nLog2, r, p) =>
        match P.scrypt(password, salt, nLog2, r, p)
        case Some(root) => Ok(root)
        case None => Err(InvalidParameter)
  }

  datatype V5Keys = V5Keys(enc: Digest, auth: Digest, siv: Digest, block: Digest, segment: Digest)

  function Subkey(P: Primitives, root: Digest, info: bytes): Digest
  {
    P.hmac(root, Ascii("KRCM-v5-subkey") + info)
  }

  function DeriveV5Keys(P: Primitives, root: Digest): V5Keys
  {
    V5Keys(
      Subkey(P, root, Ascii("KRCM-v5-enc")),
      Subkey(P, root, Ascii("KRCM-v5-auth")),
      Subkey(P, root, Ascii("KRCM-v5-siv")),
      Subkey(P, root, Ascii("KRCM-v5-block")),
      Subkey(P, root, Ascii("KRCM-v5-segment")))
  }

  /** `derive_keys` of the older formats: encryption and authentication key. */
  function DeriveKeys(P: Primitives, password: bytes, salt: bytes, iterations: u32): Result<(Digest, Digest), KrcmError>
  {
    if password == [] then Err(InvalidPassword)
    else if |salt| != 16 || iterations == 0 || iterations > MAX_PBKDF2_ITERATIONS then Err(InvalidParameter)
    else
      var root := P.pbkdf2Wide(password, salt, iterations);
      Ok((P.hmac(root[..32], Ascii("AMPC-ENC")), P.hmac(root[32..], Ascii("AMPC-AUTH"))))
  }

  /** The tag of the older formats: no length fields. */
  function MakeTag(P: Primitives, authKey: Digest, header: bytes, ciphertext: bytes): Digest
  {
    P.hmac(authKey, header + ciphertext)
  }
}
