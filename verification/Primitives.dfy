/**
 * The cryptographic primitives, as arbitrary functions. A theorem holds for all values of
 * `Primitives`, whatever HMAC, SHA-256 and the KDFs compute, unless it names what it needs of them.
 */
module Primitives {
  import opened Bytes
  import opened Wrappers

  type Digest = s: bytes | |s| == 32 witness seq(32, _ => 0)
  type WideRoot = s: bytes | |s| == 64 witness seq(64, _ => 0)

  datatype Primitives = Primitives(
    hmac: (bytes, bytes) -> Digest,
    sha256: bytes -> Digest,
    pbkdf2Root: (bytes, bytes, u32) -> Digest,
    pbkdf2Wide: (bytes, bytes, u32) -> WideRoot,
    scrypt: (bytes, bytes, byte, u32, u32) -> Option<Digest>)
}
