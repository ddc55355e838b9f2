/** Unsigned integers of the widths the register decoder works with:
    8-bit buffer bytes, 16-bit Modbus registers and 32-bit joint bit patterns. */
module Bytes {

  type Byte = b: int | 0 <= b < 0x100

  /** A Modbus holding register: a 16-bit unsigned word. */
  type Word = w: int | 0 <= w < 0x1_0000

  /** The bit pattern of an IEEE 754 binary32 value. */
  type Bits32 = n: int | 0 <= n < 0x1_0000_0000

  /** The byte a big-endian write of `w` stores first. */
  function Hi(w: Word): Byte
  {
    w / 0x100
  }

  /** The byte a big-endian write of `w` stores second. */
  function Lo(w: Word): Byte
  {
    w % 0x100
  }

  /** The word whose high and low bytes are `hi` and `lo`. */
  function FromBytes(hi: Byte, lo: Byte): Word
  {
    hi * 0x100 + lo
  }

  /** The bytes of a word built from two bytes are those two bytes. */
  lemma FromBytesSplits(hi: Byte, lo: Byte)
    ensures Hi(FromBytes(hi, lo)) == hi && Lo(FromBytes(hi, lo)) == lo
  {
  }

  /** A word and its two bytes determine each other. */
  lemma SplitJoin(w: Word)
    ensures FromBytes(Hi(w), Lo(w)) == w
  {
  }

  /** The word with the two bytes of `w` exchanged: what a little-endian
      read sees of a word that was written big-endian. */
  function Swap(w: Word): Word
  {
    FromBytes(Lo(w), Hi(w))
  }

  /** Exchanging the bytes twice gives the word back. */
  lemma SwapInvolutive(w: Word)
    ensures Swap(Swap(w)) == w
  {
    FromBytesSplits(Lo(w), Hi(w));
    SplitJoin(w);
  }

  /** The 32-bit pattern whose low half is `low` and high half is `high`. */
  function Join(low: Word, high: Word): Bits32
  {
    low + 0x1_0000 * high
  }

  /** The halves of a pattern joined from two words are those two words. */
  lemma JoinSplits(low: Word, high: Word)
    ensures LowHalf(Join(low, high)) == low && HighHalf(Join(low, high)) == high
  {
  }

  /** The low 16 bits of a 32-bit pattern. */
  function LowHalf(n: Bits32): Word
  {
    n % 0x1_0000
  }

  /** The high 16 bits of a 32-bit pattern. */
  function HighHalf(n: Bits32): Word
  {
    n / 0x1_0000
  }

  /** A 32-bit pattern and its two halves determine each other. */
  lemma HalvesJoin(n: Bits32)
    ensures Join(LowHalf(n), HighHalf(n)) == n
  {
  }
}
