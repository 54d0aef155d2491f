/** Byte- and word-level helpers. The driver's `uint8_t` values are `bv8` and its
    `uint16_t` values `bv16`; every bit operation on the register mirror goes
    through the functions below. */
module Bits {

  type Byte = bv8
  type Word = bv16

  /** A `uint8_t` used as a number rather than as a bit pattern: a pin number, a
      register index, a chip-select pin. */
  type Uint8 = x: int | 0 <= x < 256

  /** A bit position inside a byte (the shift amount of `1 << k`). */
  type BitIndex = k: int | 0 <= k < 8

  /** The single-bit mask `1 << k`. */
  function Mask(k: BitIndex): (m: Byte)
    ensures m != 0 && m & (m - 1) == 0
  {
    1 << k
  }

  /** True when bit `k` of `x` is one (C's `x & (1 << k)` taken as a truth value). */
  predicate IsSet(x: Byte, k: BitIndex)
  {
    x & Mask(k) != 0
  }

  /** `x` and `y` agree on every bit except, possibly, bit `k`. */
  predicate SameOtherBits(x: Byte, y: Byte, k: BitIndex)
  {
    (x ^ y) & !Mask(k) == 0
  }

  /** `SameOtherBits` read bit by bit. */
  lemma SameOtherBitsMeaning(x: Byte, y: Byte, k: BitIndex)
    ensures SameOtherBits(x, y, k) <==> forall j: BitIndex :: j != k ==> IsSet(x, j) == IsSet(y, j)
  {
    if SameOtherBits(x, y, k) {
      forall j: BitIndex | j != k ensures IsSet(x, j) == IsSet(y, j) {
        SameOtherBitsAt(x, y, k, j);
      }
    }
    if forall j: BitIndex :: j != k ==> IsSet(x, j) == IsSet(y, j) {
      SameOtherBitsFromEachBit(x, y, k);
    }
  }

  lemma SameOtherBitsAt(x: Byte, y: Byte, k: BitIndex, j: BitIndex)
    requires SameOtherBits(x, y, k) && j != k
    ensures IsSet(x, j) == IsSet(y, j)
  {
    var mj, mk := Mask(j), Mask(k);
    assert mj & !mk == mj;
  }

  lemma SameOtherBitsFromEachBit(x: Byte, y: Byte, k: BitIndex)
    requires forall j: BitIndex :: j != k ==> IsSet(x, j) == IsSet(y, j)
    ensures SameOtherBits(x, y, k)
  {
    assert (0 != k ==> IsSet(x, 0) == IsSet(y, 0)) && (1 != k ==> IsSet(x, 1) == IsSet(y, 1));
    assert (2 != k ==> IsSet(x, 2) == IsSet(y, 2)) && (3 != k ==> IsSet(x, 3) == IsSet(y, 3));
    assert (4 != k ==> IsSet(x, 4) == IsSet(y, 4)) && (5 != k ==> IsSet(x, 5) == IsSet(y, 5));
    assert (6 != k ==> IsSet(x, 6) == IsSet(y, 6)) && (7 != k ==> IsSet(x, 7) == IsSet(y, 7));
  }

  /** `x | (1 << k)`: bit `k` becomes one, the other seven are kept. */
  function SetBit(x: Byte, k: BitIndex): (r: Byte)
    ensures IsSet(r, k) && SameOtherBits(x, r, k)
  {
    x | Mask(k)
  }

  /** `x & ~(1 << k)`: bit `k` becomes zero, the other seven are kept. */
  function ClearBit(x: Byte, k: BitIndex): (r: Byte)
    ensures !IsSet(r, k) && SameOtherBits(x, r, k)
  {
    x & !Mask(k)
  }

  /** The `if (on) x |= 1 << k; else x &= ~(1 << k);` idiom of the driver. */
  function AssignBit(x: Byte, k: BitIndex, on: bool): (r: Byte)
    ensures IsSet(r, k) == on && SameOtherBits(x, r, k)
  {
    if on then SetBit(x, k) else ClearBit(x, k)
  }

  /** Assigning the same bit twice with the same value is the same as once. */
  lemma AssignBitIdempotent(x: Byte, k: BitIndex, on: bool)
    ensures AssignBit(AssignBit(x, k, on), k, on) == AssignBit(x, k, on)
  {
  }

  /** Clearing a bit that was just set restores a byte in which it was clear. */
  lemma ClearUndoesSet(x: Byte, k: BitIndex)
    requires !IsSet(x, k)
    ensures ClearBit(SetBit(x, k), k) == x
  {
  }

  /** `(hi << 8) | lo`, the driver's way of joining bank B (high) and bank A (low). */
  function Combine(hi: Byte, lo: Byte): (w: Word)
    ensures HighByte(w) == hi && LowByte(w) == lo
  {
    ((hi as Word) << 8) | (lo as Word)
  }

  /** `v >> 8`, stored into a `uint8_t`. */
  function HighByte(v: Word): Byte
  {
    (v >> 8) as Byte
  }

  /** `v & 0xFF`, stored into a `uint8_t`. */
  function LowByte(v: Word): Byte
  {
    (v & 0xFF) as Byte
  }

  /** Splitting a word into its bytes and joining them again gives the word back. */
  lemma SplitCombine(v: Word)
    ensures Combine(HighByte(v), LowByte(v)) == v
  {
  }
}
