/** Fixed-width integers of the GX data and the binary reader: little-endian
    assembly of 16- and 32-bit fields from bytes, and the sign extensions the
    loader and the display-list interpreter apply to packed fields. */
module Bits {

  type Byte = x: int | 0 <= x < 0x100
  type U16 = x: int | 0 <= x < 0x1_0000
  type U32 = x: int | 0 <= x < 0x1_0000_0000

  /** get16bit_LE: the 16-bit value whose low byte comes first. */
  function Le16(lo: Byte, hi: Byte): (r: U16)
    ensures r % 0x100 == lo && r / 0x100 == hi
  {
    lo + 0x100 * hi
  }

  /** get32bit_LE: the 32-bit value whose least significant byte comes first. */
  function Le32(b0: Byte, b1: Byte, b2: Byte, b3: Byte): (r: U32)
    ensures r % 0x100 == b0 && (r / 0x100) % 0x100 == b1
    ensures (r / 0x1_0000) % 0x100 == b2 && r / 0x100_0000 == b3
  {
    var low := b0 + 0x100 * b1;
    var high := b2 + 0x100 * b3;
    Split(b0, b1, 0x100);
    Split(b2, b3, 0x100);
    Split(low, high, 0x1_0000);
    Split(b0, b1 + 0x100 * high, 0x100);
    Split(b1, high, 0x100);
    Split(low + 0x1_0000 * b2, b3, 0x100_0000);
    low + 0x1_0000 * high
  }

  /** A word is the little-endian assembly of its own four bytes. */
  lemma Le32OfBytes(w: U32)
    ensures Le32(w % 0x100, (w / 0x100) % 0x100, (w / 0x1_0000) % 0x100, w / 0x100_0000) == w
  {
    var q1 := w / 0x100;
    var q2 := q1 / 0x100;
    assert q2 == w / 0x1_0000;
    assert q2 / 0x100 == w / 0x100_0000;
    assert w == w % 0x100 + 0x100 * (q1 % 0x100) + 0x1_0000 * (q2 % 0x100) + 0x100_0000 * (q2 / 0x100);
  }

  /** A value below `k` plus `k` times another splits back into the two by `%` and `/`. */
  lemma Split(lo: int, hi: nat, k: nat)
    requires k == 0x100 || k == 0x1_0000 || k == 0x100_0000
    requires 0 <= lo < k
    ensures (lo + k * hi) % k == lo && (lo + k * hi) / k == hi
  {
    if k == 0x100 {
      assert (lo + 0x100 * hi) % 0x100 == lo && (lo + 0x100 * hi) / 0x100 == hi;
    } else if k == 0x1_0000 {
      assert (lo + 0x1_0000 * hi) % 0x1_0000 == lo && (lo + 0x1_0000 * hi) / 0x1_0000 == hi;
    } else {
      assert (lo + 0x100_0000 * hi) % 0x100_0000 == lo && (lo + 0x100_0000 * hi) / 0x100_0000 == hi;
    }
  }

  /** Reads a little-endian 16-bit field at byte offset `ofs` of `data`. */
  function Read16(data: seq<Byte>, ofs: nat): (r: U16)
    requires ofs + 2 <= |data|
    ensures r % 0x100 == data[ofs] && r / 0x100 == data[ofs + 1]
  {
    Le16(data[ofs], data[ofs + 1])
  }

  /** Reads a little-endian 32-bit field at byte offset `ofs` of `data`. */
  function Read32(data: seq<Byte>, ofs: nat): (r: U32)
    requires ofs + 4 <= |data|
    ensures r % 0x100 == data[ofs] && (r / 0x100) % 0x100 == data[ofs + 1]
    ensures (r / 0x1_0000) % 0x100 == data[ofs + 2] && r / 0x100_0000 == data[ofs + 3]
  {
    Le32(data[ofs], data[ofs + 1], data[ofs + 2], data[ofs + 3])
  }

  /** A 10-bit field widened to a signed value: `if(x & 0x200) x |= 0xFFFFFC00`.
      The result reduced modulo 2^10 is the field again. */
  function SignExtend10(x: int): (r: int)
    requires 0 <= x < 0x400
    ensures -0x200 <= r < 0x200
    ensures r % 0x400 == x
    ensures (r < 0) == (x >= 0x200)
  {
    if x >= 0x200 then x - 0x400 else x
  }

  /** A 16-bit field widened to a signed value: `if(x & 0x8000) x |= 0xFFFF0000`,
      which is also what the `(s16)` cast of the node decoder does. */
  function SignExtend16(x: int): (r: int)
    requires 0 <= x < 0x1_0000
    ensures -0x8000 <= r < 0x8000
    ensures r % 0x1_0000 == x
    ensures (r < 0) == (x >= 0x8000)
  {
    if x >= 0x8000 then x - 0x1_0000 else x
  }

  /** The `(fx32)` reinterpretation of an unsigned 32-bit value. */
  function SignExtend32(x: U32): (r: int)
    ensures -0x8000_0000 <= r < 0x8000_0000
    ensures r % 0x1_0000_0000 == x
  {
    if x >= 0x8000_0000 then x - 0x1_0000_0000 else x
  }

  /** The 10-bit field of a word starting at bit 0, 10 or 20. */
  function Field10(w: U32, k: nat): (r: int)
    requires k < 3
    ensures 0 <= r < 0x400
  {
    if k == 0 then w % 0x400
    else if k == 1 then (w / 0x400) % 0x400
    else (w / 0x10_0000) % 0x400
  }

  /** The low and the high half of a word. */
  function Low16(w: U32): (r: int)
    ensures 0 <= r < 0x1_0000
  {
    w % 0x1_0000
  }

  function High16(w: U32): (r: int)
    ensures 0 <= r < 0x1_0000
    ensures w == Low16(w) + 0x1_0000 * r
  {
    w / 0x1_0000
  }

  /** The three 10-bit fields and the two unused top bits reassemble the word:
      the three fields are disjoint slices. */
  lemma Field10Slices(w: U32)
    ensures w == Field10(w, 0) + 0x400 * Field10(w, 1) + 0x10_0000 * Field10(w, 2) + 0x4000_0000 * (w / 0x4000_0000)
  {
  }

  /** The raw `(s16)` of 0xFFFF is -1, the "no node" link. */
  lemma NoLinkIsMinusOne()
    ensures SignExtend16(0xFFFF) == -1
  {
  }
}
