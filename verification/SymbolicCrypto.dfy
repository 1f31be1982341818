/**
 * The cryptographic primitives as a free term algebra.
 *
 * A key, ciphertext or signature is the term that built it, so two terms are equal only
 * when they were built the same way.  This captures what the protocols rely on: HKDF
 * (section 2 of RFC 5869) is injective, AES-GCM opens under the key, nonce and
 * ciphertext it was made with and nothing else, Ed25519 (section 5.1 of RFC 8032)
 * verifies exactly what its private key signed, and X25519 (section 6.1 of RFC 7748) is
 * commutative.  Byte strings that are no such term appear as `Junk` or `Forged`, with
 * the length the callers test.
 */
module SymbolicCrypto {
  import opened Wrappers

  const GCM_IV_SIZE: nat := 12
  const GCM_TAG_SIZE: nat := 16
  const ED25519_SIGNATURE_SIZE: nat := 64

  datatype Iv = Iv(value: nat, size: nat)

  datatype Ciphertext<K> = Gcm(key: K, iv: Iv, plaintext: string) | Junk(junkSize: nat)
  {
    function Size(): nat {
      match this
      case Gcm(_, _, plaintext) => |plaintext| + GCM_TAG_SIZE
      case Junk(size) => size
    }
  }

  datatype Signature<K> = Ed25519(signer: nat, iv: Iv, ciphertext: Ciphertext<K>) | Forged(forgedSize: nat)
  {
    function Size(): nat {
      match this
      case Ed25519(_, _, _) => ED25519_SIGNATURE_SIZE
      case Forged(size) => size
    }
  }

  /** The empty string stands for failure; an empty text cannot be told from it. */
  function AesGcmDecrypt<K(==)>(key: K, iv: Iv, ciphertext: Ciphertext<K>): string {
    if iv.size != GCM_IV_SIZE || ciphertext.Size() < GCM_TAG_SIZE then ""
    else if ciphertext.Gcm? && ciphertext.key == key && ciphertext.iv == iv then ciphertext.plaintext
    else ""
  }

  /** `None` stands for a public key that is not 32 bytes long. */
  predicate Verify<K(==)>(publicKey: Option<nat>, iv: Iv, ciphertext: Ciphertext<K>, signature: Signature<K>) {
    publicKey.Some? && signature == Ed25519(publicKey.value, iv, ciphertext)
  }
}
