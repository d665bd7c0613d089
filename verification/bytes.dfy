/**
 * Bytes on the wire and the 16-bit big-endian words built from them.
 *
 * A byte is an integer in 0..255. The Python tools compute on unbounded integers
 * and mask with `& 0xFF` / `& 0xFFFF`; for any integer (negative ones too)
 * those masks are the Euclidean remainders `% 256` / `% 65536`, and `>> 8` is
 * the floor division `/ 256`.
 */
module Bytes {

  type byte = x: int | 0 <= x < 256

  /** The 16-bit value `(msb << 8) | lsb` of a big-endian byte pair. */
  function Word16(msb: byte, lsb: byte): (r: nat)
    ensures r < 0x1_0000
    ensures r / 256 == msb && r % 256 == lsb
  {
    msb * 256 + lsb
  }

  /** `(v >> 8) & 0xFF` for an unbounded integer `v`. */
  function Msb(v: int): byte
  {
    ((v / 256) % 256)
  }

  /** `v & 0xFF` for an unbounded integer `v`. */
  function Lsb(v: int): byte
  {
    (v % 256)
  }

  /** Floor-dividing by 256 and then keeping 8 bits is the same as keeping
      16 bits and then floor-dividing by 256. */
  lemma HighByteOfLow16(v: int)
    ensures (v / 256) % 256 == (v % 0x1_0000) / 256
  {
    var q, r := v / 0x1_0000, v % 0x1_0000;
    assert v == 0x1_0000 * q + r;
    var hi, lo := r / 256, r % 256;
    assert r == 256 * hi + lo && 0 <= hi < 256;
    assert v == 256 * (256 * q + hi) + lo;
    assert v / 256 == 256 * q + hi;
  }

  /** Splitting an integer into its two low bytes and reassembling them keeps
      exactly its low 16 bits; for a value in 0..65535 the round trip is exact. */
  lemma WordOfSplit(v: int)
    ensures Word16(Msb(v), Lsb(v)) == v % 0x1_0000
    ensures 0 <= v < 0x1_0000 ==> Word16(Msb(v), Lsb(v)) == v
  {
    HighByteOfLow16(v);
    var hi, lo := (v % 0x1_0000) / 256, v % 256;
    assert Msb(v) == hi;
    assert Lsb(v) == lo;
    assert (v % 0x1_0000) % 256 == lo;
  }

  /** Splitting a 16-bit word recovers the two bytes it was made of. */
  lemma SplitOfWord(msb: byte, lsb: byte)
    ensures Msb(Word16(msb, lsb)) == msb && Lsb(Word16(msb, lsb)) == lsb
  {
    var w := Word16(msb, lsb);
    assert Msb(w) == msb;
    assert Lsb(w) == lsb;
  }
}
