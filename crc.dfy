/** The CRC engine of an Ogg page: CRC-32 with the generator polynomial
    0x04c11db7, most significant bit first, no reflection, initial register 0
    and no final XOR (section 6 of RFC 3533). The register is a `bv32`, so the
    reduction modulo 2^32 after every step of lib/ogg.rb is the bit-vector
    shift itself. */
module OggCrc {

  import opened Binary
  import opened CrcTable

  /** One step of the register update: `(r << 8) ^ T[((r >> 24) & 0xff) ^ b]`,
      truncated to 32 bits. */
  function CrcStep(r: bv32, b: byte): bv32 {
    (r << 8) ^ CrcLookup(((r >> 24) as bv8) ^ (b as bv8))
  }

  /** The register after feeding `s` into it, starting from `r`: a left fold
      of CrcStep over the bytes of `s`. */
  function CrcFrom(r: bv32, s: Bytes): bv32
    decreases |s|
  {
    if s == [] then r else CrcStep(CrcFrom(r, s[..|s| - 1]), s[|s| - 1])
  }

  /** The CRC of a byte string: the fold started from register 0. */
  function Crc(s: Bytes): bv32 {
    CrcFrom(0, s)
  }

  /** The CRC of the empty input is 0. */
  lemma CrcEmpty()
    ensures Crc([]) == 0
  {
  }

  /** Feeding `a + b` is feeding `a`, then `b` from the register `a` left. */
  lemma {:induction false} CrcFromAppend(r: bv32, a: Bytes, b: Bytes)
    ensures CrcFrom(r, a + b) == CrcFrom(CrcFrom(r, a), b)
    decreases |b|
  {
    if b == [] {
      assert a + b == a;
    } else {
      var n := |b| - 1;
      assert (a + b)[..|a + b| - 1] == a + b[..n];
      CrcFromAppend(r, a, b[..n]);
    }
  }

  /** crc(a ++ b) is the fold of `b` started from crc(a). */
  lemma CrcAppend(a: Bytes, b: Bytes)
    ensures Crc(a + b) == CrcFrom(Crc(a), b)
  {
    CrcFromAppend(0, a, b);
  }
}
