/** Byte strings, machine words, and the cryptographic primitives the ratchets are built on. */
module Primitives {
  import opened Wrappers

  type byte = x: int | 0 <= x < 256
  type Bytes = seq<byte>

  const U64_LIMIT: int := 0x1_0000_0000_0000_0000
  type u64 = x: int | 0 <= x < U64_LIMIT

  /** `n += 1` on a u64 in a release build. */
  function Inc(n: u64): u64 { (n + 1) % U64_LIMIT }

  const NONCE_SIZE: nat := 12
  const TAG_SIZE: nat := 16
  const MLKEM1024_CT_SIZE: nat := 1568

  /** The primitives, as arbitrary functions.  `hkdf(ikm, info)` is the 64-byte HKDF-Expand output (section 2.3 of
      RFC 5869) as its two halves; `seal`/`open` are AES-256-GCM under (key, nonce); `encaps`/`decaps` are
      ML-KEM-1024, with the encapsulation randomness explicit; `utf8` tells valid UTF-8. */
  datatype Suite = Suite(
    hkdf: (Bytes, string) -> (Bytes, Bytes),
    seal: (Bytes, Bytes, Bytes) -> Bytes,
    open: (Bytes, Bytes, Bytes) -> Option<Bytes>,
    publicKey: Bytes -> Bytes,
    encaps: (Bytes, Bytes) -> (Bytes, Bytes),
    decaps: (Bytes, Bytes) -> Bytes,
    utf8: Bytes -> bool)
  {
    /** All that the proofs assume of the primitives: opening undoes sealing, both parties of an encapsulation
        agree, and the sizes of a tag and of a ciphertext. */
    ghost predicate Lawful() {
      && (forall k, n, m :: open(k, n, seal(k, n, m)) == Some(m))
      && (forall k, n, m :: |seal(k, n, m)| == |m| + TAG_SIZE)
      && (forall dk, r :: decaps(dk, encaps(publicKey(dk), r).0) == encaps(publicKey(dk), r).1)
      && (forall ek, r :: |encaps(ek, r).0| == MLKEM1024_CT_SIZE)
    }

    /** Opening takes the tag off and no more, as in AES-GCM. */
    ghost predicate KeepsSizes() {
      forall k, n, s :: open(k, n, s).Some? ==> |s| == |open(k, n, s).value| + TAG_SIZE
    }

    /** The 64-byte output comes in two halves of 32 bytes. */
    ghost predicate HalvesSized() {
      forall ikm, info :: |hkdf(ikm, info).0| == |hkdf(ikm, info).1| == 32
    }

    /** Among the derivations used, (input, label) pairs, no two halves of the output collide. */
    ghost predicate Apart(used: set<(Bytes, string)>) {
      forall a, b :: a in used && b in used ==>
        && (hkdf(a.0, a.1).0 == hkdf(b.0, b.1).0 ==> a == b)
        && (hkdf(a.0, a.1).1 == hkdf(b.0, b.1).1 ==> a == b)
        && hkdf(a.0, a.1).0 != hkdf(b.0, b.1).1
    }

    /** A text sealed under `key` does not happen to open under another key that is tried. */
    predicate Separates(key: Bytes, tried: Bytes, nonce: Bytes, text: Bytes) {
      tried != key ==> open(tried, nonce, seal(key, nonce, text)) == None
    }
  }
}
