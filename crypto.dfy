/** The cryptographic primitives the VMess handshake calls. They are library
    code (MD5, SHA-256, the HMAC-based `hash::kdf`, AES-128-GCM) and stay
    uninterpreted: the model is parameterised by a `Crypto` record of
    functions, and states the only facts of AES-GCM it relies on as
    predicates over that record. */
module Crypto {
  import opened Common

  type Digest32 = s: seq<byte> | |s| == 32 witness seq(32, _ => 0)

  /** The eight KDF salt labels of the VMess AEAD header (their byte values
      live in `src/common`, which is not part of this model). */
  datatype Salt =
    | HeaderLengthKey | HeaderLengthIv     // request header length field
    | HeaderPayloadKey | HeaderPayloadIv   // request header payload
    | RespLengthKey | RespLengthIv         // response header length field
    | RespHeaderKey | RespHeaderIv         // response header payload

  datatype Crypto = Crypto(
    md5: seq<byte> -> seq<byte>,                // MD5 of the concatenated parts
    sha256: seq<byte> -> Digest32,
    kdf: (seq<byte>, seq<seq<byte>>) -> Digest32, // hash::kdf(key, salts)
    salt: Salt -> seq<byte>,
    seal: (seq<byte>, seq<byte>, seq<byte>, seq<byte>) -> seq<byte>,        // (key, nonce, aad, plaintext)
    open: (seq<byte>, seq<byte>, seq<byte>, seq<byte>) -> Option<seq<byte>> // (key, nonce, aad, ciphertext)
  )

  /** AES-GCM's tag is 16 bytes: a ciphertext that opens is 16 bytes longer
      than its plaintext. */
  ghost predicate OpenLength(c: Crypto) {
    forall k, n, a, t :: c.open(k, n, a, t).Some? ==> |c.open(k, n, a, t).value| + 16 == |t|
  }

  /** The AEAD correctness law: sealing appends a 16-byte tag, and what was
      sealed opens again under the same key, nonce and associated data. */
  ghost predicate IsAead(c: Crypto) {
    && OpenLength(c)
    && (forall k, n, a, p :: |c.seal(k, n, a, p)| == |p| + 16)
    && (forall k, n, a, p :: c.open(k, n, a, c.seal(k, n, a, p)) == Some(p))
  }

  /** `&hash::kdf(key, salts)[..16]`: an AES-128 key. */
  function Kdf16(c: Crypto, key: seq<byte>, parts: seq<seq<byte>>): (k: seq<byte>)
    ensures |k| == 16
  {
    c.kdf(key, parts)[..16]
  }

  /** `&hash::kdf(key, salts)[..12]`: a 96-bit GCM nonce. */
  function Kdf12(c: Crypto, key: seq<byte>, parts: seq<seq<byte>>): (n: seq<byte>)
    ensures |n| == 12
  {
    c.kdf(key, parts)[..12]
  }
}
