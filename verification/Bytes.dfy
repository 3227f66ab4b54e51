/** The integer types of the C sources: octets and 16-bit words, and the way a word is cut into octets. */
module Bytes {

  type byte = x: int | 0 <= x < 0x100

  type word = x: int | 0 <= x < 0x1_0000

  type dword = x: int | 0 <= x < 0x1_0000_0000

  // The empty `reads` clauses keep the verifier from working these out for literals, which leads it in circles: a word
  // that equals a literal has octets that do, and those give a word that does.

  /** What `v >> 8` becomes when it is stored in a `uint8_t`. */
  function Hi(v: int): byte
    reads {}
  {
    v / 0x100 % 0x100
  }

  /** `v & 0xff`. */
  function Lo(v: int): byte
    reads {}
  {
    v % 0x100
  }

  /** `(hi << 8) + lo`. */
  function Word(hi: byte, lo: byte): word
    reads {}
  {
    0x100 * hi + lo
  }

  lemma OctetsInFigures(v: word)
    ensures Hi(v) == v / 256 && Lo(v) == v % 256
  {
  }

  function U16(v: int): word {
    v % 0x1_0000
  }
}
