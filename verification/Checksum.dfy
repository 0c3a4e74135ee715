/** The checksum registry: digest sizes, and hashing as an arbitrary function of the right digest length. */
module Checksum {
  import opened Base

  const SHA1 := 0
  const SHA256 := 1
  const SHA512 := 2
  const SHA512_128 := 3

  /** Digest length of a checksum type, or the error for an unrecognised one. */
  function Size(t: nat): Result<nat> {
    if t == SHA1 then Ok(20)
    else if t == SHA256 then Ok(32)
    else if t == SHA512 then Ok(64)
    else if t == SHA512_128 then Ok(16)
    else Err(UnknownChecksumType(t))
  }

  predicate Known(t: nat) {
    t <= SHA512_128
  }

  /** Digest length, 0 for an unknown type. */
  function SizeOf(t: nat): nat {
    if Known(t) then Size(t).value else 0
  }

  /** A family of digest algorithms. Nothing is assumed of it but the digest lengths. */
  type Hasher = h: (nat, Bytes) -> Bytes | forall t: nat, x: Bytes :: |h(t, x)| == SizeOf(t)
    witness (t: nat, x: Bytes) => seq(SizeOf(t), i => 0)

  /** `ChecksumType.Sum`. */
  function Sum(h: Hasher, t: nat, x: Bytes): Result<Bytes> {
    if Known(t) then Ok(h(t, x)) else Err(UnknownChecksumType(t))
  }

  /** Two different strings with one digest. */
  ghost predicate Collide(h: Hasher, t: nat, x: Bytes, y: Bytes) {
    x != y && h(t, x) == h(t, y)
  }
}
