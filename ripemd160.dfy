/** The RIPEMD-160 primitive both labs call through `Crypto.Hash`. Its
 *  implementation is a foreign library, so the model treats it as an
 *  arbitrary function from messages to digests; every operation that hashes
 *  takes that function as its parameter `h`. Python's slicing never fails,
 *  so only the properties that speak of lengths need `Is160Bit(h)`. */
module Ripemd160 {
  import opened PyBytes

  /** Bytes of a RIPEMD-160 digest. */
  const DIGEST_SIZE: nat := 20

  type Digest = Bytes -> Bytes

  /** `h` returns 160 bits for every message, as RIPEMD-160 does. */
  ghost predicate Is160Bit(h: Digest)
  {
    forall m :: |h(m)| == DIGEST_SIZE
  }
}
