/** The 32-bit word operations and the constants of SHA-256 (FIPS 180-4,
    sections 3.2, 4.1.2, 4.2.2 and 5.3.3). Every addition of words goes
    through WrappingAdd, as every addition in the source goes through
    `wrapping_add`. */
module Words {

  type Word = bv32
  type Byte = bv8

  /** `u32::wrapping_add`: addition modulo 2^32. */
  function WrappingAdd(x: Word, y: Word): Word
  {
    x + y
  }

  /** ROTR^n(x), written as the source writes it: the bits shifted out on the
      right come back in on the left. The source's shifts panic for n = 0
      (a shift by 32) and for n >= 32, so callers must keep n in 1..31. */
  function Rotr(x: Word, n: nat): (r: Word)
    requires 0 < n < 32
    ensures r == x.RotateRight(n)
  {
    (x >> n) | (x << (32 - n))
  }

  /** Ch(x, y, z): x chooses, bit by bit, between y and z. */
  function Ch(x: Word, y: Word, z: Word): Word
  {
    (x & y) ^ (!x & z)
  }

  /** Wherever x has a 1 bit Ch has y's bit, wherever x has a 0 bit it has
      z's bit; the two terms of the XOR never share a bit. */
  lemma ChChooses(x: Word, y: Word, z: Word)
    ensures Ch(x, y, z) & x == y & x
    ensures Ch(x, y, z) & !x == z & !x
    ensures (x & y) & (!x & z) == 0
  {
  }

  /** Maj(x, y, z): the bitwise majority of its three arguments. */
  function Maj(x: Word, y: Word, z: Word): Word
  {
    (x & y) ^ (x & z) ^ (y & z)
  }

  /** Where x and y agree Maj agrees with both; where they differ, z
      decides. */
  lemma MajIsMajority(x: Word, y: Word, z: Word)
    ensures !(x ^ y) & Maj(x, y, z) == !(x ^ y) & x
    ensures (x ^ y) & Maj(x, y, z) == (x ^ y) & z
  {
  }

  /** Σ0, applied to working variable a in every round. */
  function BigSigma0(x: Word): Word
  {
    Rotr(x, 2) ^ Rotr(x, 13) ^ Rotr(x, 22)
  }

  /** Σ1, applied to working variable e in every round. */
  function BigSigma1(x: Word): Word
  {
    Rotr(x, 6) ^ Rotr(x, 11) ^ Rotr(x, 25)
  }

  /** σ0, used by the message schedule; its third term is a plain shift. */
  function SmallSigma0(x: Word): Word
  {
    Rotr(x, 7) ^ Rotr(x, 18) ^ (x >> 3)
  }

  /** σ1, used by the message schedule; its third term is a plain shift. */
  function SmallSigma1(x: Word): Word
  {
    Rotr(x, 17) ^ Rotr(x, 19) ^ (x >> 10)
  }

  /** H(0): the first 32 bits of the fractional parts of the square roots of
      the first eight primes. */
  const InitialHash: seq<Word> := [
    0x6a09e667, 0xbb67ae85, 0x3c6ef372, 0xa54ff53a,
    0x510e527f, 0x9b05688c, 0x1f83d9ab, 0x5be0cd19
  ]

  /** The 64 round constants: the first 32 bits of the fractional parts of
      the cube roots of the first 64 primes. */
  const K: seq<Word> := [
    0x428a2f98, 0x71374491, 0xb5c0fbcf, 0xe9b5dba5,
    0x3956c25b, 0x59f111f1, 0x923f82a4, 0xab1c5ed5,
    0xd807aa98, 0x12835b01, 0x243185be, 0x550c7dc3,
    0x72be5d74, 0x80deb1fe, 0x9bdc06a7, 0xc19bf174,
    0xe49b69c1, 0xefbe4786, 0x0fc19dc6, 0x240ca1cc,
    0x2de92c6f, 0x4a7484aa, 0x5cb0a9dc, 0x76f988da,
    0x983e5152, 0xa831c66d, 0xb00327c8, 0xbf597fc7,
    0xc6e00bf3, 0xd5a79147, 0x06ca6351, 0x14292967,
    0x27b70a85, 0x2e1b2138, 0x4d2c6dfc, 0x53380d13,
    0x650a7354, 0x766a0abb, 0x81c2c92e, 0x92722c85,
    0xa2bfe8a1, 0xa81a664b, 0xc24b8b70, 0xc76c51a3,
    0xd192e819, 0xd6990624, 0xf40e3585, 0x106aa070,
    0x19a4c116, 0x1e376c08, 0x2748774c, 0x34b0bcb5,
    0x391c0cb3, 0x4ed8aa4a, 0x5b9cca4f, 0x682e6ff3,
    0x748f82ee, 0x78a5636f, 0x84c87814, 0x8cc70208,
    0x90befffa, 0xa4506ceb, 0xbef9a3f7, 0xc67178f2
  ]
}
