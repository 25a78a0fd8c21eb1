/** The authenticated cipher of the encrypted channel, AES-128-GCM (NIST SP 800-38D), kept
    abstract: a pair of functions and the laws the protocol relies on. The additional
    authenticated data is empty at every call site, so it is not a parameter. */
module Aead {
  import opened Bytes

  const KEY_LEN := 16
  const NONCE_LEN := 12
  const TAG_LEN := 16
  /** Section 5.2.1.1 of NIST SP 800-38D: at most 2^39 - 256 bits of plaintext. */
  const MAX_PLAINTEXT_LEN := 0x10_0000_0000 - 32

  type Key = k: Octets | |k| == KEY_LEN witness seq(KEY_LEN, _ => 0)
  type Nonce = n: Octets | |n| == NONCE_LEN witness seq(NONCE_LEN, _ => 0)
  type Tag = t: Octets | |t| == TAG_LEN witness seq(TAG_LEN, _ => 0)

  datatype Blob = Blob(tag: Tag, ciphertext: Octets)

  /** `seal` fails on a plaintext the mode cannot take; `open` fails on a forged or damaged one. */
  datatype Cipher = Cipher(
    seal: (Key, Nonce, Octets) -> Option<Blob>,
    open: (Key, Nonce, Octets, Tag) -> Option<Octets>)

  /** Plaintexts within the limit are accepted, opening undoes sealing under the same key and
      nonce, and a ciphertext is as long as its plaintext. */
  ghost predicate Lawful(c: Cipher) {
    && (forall k: Key, n: Nonce, p: Octets :: |p| <= MAX_PLAINTEXT_LEN ==> c.seal(k, n, p).Some?)
    && (forall k: Key, n: Nonce, p: Octets :: c.seal(k, n, p).Some? ==>
          && |c.seal(k, n, p).value.ciphertext| == |p|
          && c.open(k, n, c.seal(k, n, p).value.ciphertext, c.seal(k, n, p).value.tag) == Some(p))
  }

  /** The laws are consistent: the cipher that hides nothing obeys them. */
  const TRANSPARENT_CIPHER: Cipher :=
    Cipher((_, _, p) => Some(Blob(seq(TAG_LEN, _ => 0), p)), (_, _, c, _) => Some(c))

  lemma TransparentCipherIsLawful()
    ensures Lawful(TRANSPARENT_CIPHER)
  {
  }
}
