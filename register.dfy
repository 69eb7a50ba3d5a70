/**
 * The 16-bit register helpers shared by the SPN scripts: single bits and
 * 4-bit nibbles addressed from the least significant end, and the number of
 * one bits.  A register value is a `bv16`; indices and bit/nibble values are
 * plain integers, as in the scripts, and `SetBit`/`SetNibble` return `None`
 * for a value that does not fit the field.
 */
module Register {
  import opened Wrappers

  type Word = bv16

  // ---------------------------------------------------------------------------
  // Bit-vector level: indices are themselves bit-vectors, which keeps every
  // shift a bit-vector operation for the solver.

  function Bit(w: Word, k: Word): Word
    requires k < 16
  {
    (w & (1 << k)) >> k
  }

  function PutBit(w: Word, k: Word, v: Word): Word
    requires k < 16 && v < 2
  {
    (w & !(1 << k)) ^ (v << k)
  }

  function Nib(w: Word, k: Word): Word
    requires k < 4
  {
    (w & (0xf << (4 * k))) >> (4 * k)
  }

  function PutNib(w: Word, k: Word, v: Word): Word
    requires k < 4 && v < 16
  {
    (w & !(0xf << (4 * k))) ^ (v << (4 * k))
  }

  lemma BitBound(w: Word, k: Word)
    requires k < 16
    ensures Bit(w, k) < 2
  {}

  lemma NibBound(w: Word, k: Word)
    requires k < 4
    ensures Nib(w, k) < 16
  {}

  lemma PutBitSame(w: Word, k: Word, v: Word)
    requires k < 16 && v < 2
    ensures Bit(PutBit(w, k, v), k) == v
  {}

  lemma PutBitOther(w: Word, k: Word, v: Word, j: Word)
    requires k < 16 && v < 2 && j < 16 && j != k
    ensures Bit(PutBit(w, k, v), j) == Bit(w, j)
  {}

  lemma PutNibSame(w: Word, k: Word, v: Word)
    requires k < 4 && v < 16
    ensures Nib(PutNib(w, k, v), k) == v
  {}

  lemma PutNibOther(w: Word, k: Word, v: Word, j: Word)
    requires k < 4 && v < 16 && j < 4 && j != k
    ensures Nib(PutNib(w, k, v), j) == Nib(w, j)
  {}

  // ---------------------------------------------------------------------------
  // The helpers as the scripts call them.

  /** The index-th bit of w, counting from the least significant bit. */
  function GetBit(w: Word, index: nat): (b: int)
    requires index < 16
    ensures b == 0 || b == 1
  {
    if Bit(w, index as Word) == 1 then 1 else 0
  }

  /** w with its index-th bit replaced by value (0 or 1). */
  function WithBit(w: Word, index: nat, value: int): Word
    requires index < 16 && (value == 0 || value == 1)
  {
    PutBit(w, index as Word, value as Word)
  }

  /** set_bit: None when value is neither 0 nor 1. */
  function SetBit(w: Word, index: nat, value: int): (r: Option<Word>)
    requires index < 16
    ensures r.None? <==> value != 0 && value != 1
    ensures r.Some? ==> GetBit(r.value, index) == value
    ensures r.Some? ==> forall j :: 0 <= j < 16 && j != index ==> GetBit(r.value, j) == GetBit(w, j)
  {
    if value != 0 && value != 1 then None
    else
      WithBitAt(w, index, value);
      Some(WithBit(w, index, value))
  }

  /** The index-th 4-bit nibble of w, counting from the least significant end. */
  function GetNibble(w: Word, index: nat): (n: int)
    requires index < 4
    ensures 0 <= n < 16
  {
    NibBound(w, index as Word);
    Nib(w, index as Word) as int
  }

  /** w with its index-th nibble replaced by value (0..15). */
  function WithNibble(w: Word, index: nat, value: int): Word
    requires index < 4 && 0 <= value < 16
  {
    PutNib(w, index as Word, value as Word)
  }

  /** set_nibble: None when value lies outside 0..0xf. */
  function SetNibble(w: Word, index: nat, value: int): (r: Option<Word>)
    requires index < 4
    ensures r.None? <==> value < 0 || value > 0xf
    ensures r.Some? ==> GetNibble(r.value, index) == value
    ensures r.Some? ==> forall j :: 0 <= j < 4 && j != index ==> GetNibble(r.value, j) == GetNibble(w, j)
  {
    if value < 0 || value > 0xf then None
    else
      WithNibbleAt(w, index, value);
      Some(WithNibble(w, index, value))
  }

  lemma WithBitOther(w: Word, index: nat, value: int, j: nat)
    requires index < 16 && (value == 0 || value == 1) && j < 16 && j != index
    ensures GetBit(WithBit(w, index, value), j) == GetBit(w, j)
  {
    IndexRound(index);
    IndexRound(j);
    PutBitOther(w, index as Word, value as Word, j as Word);
  }

  lemma WithBitAt(w: Word, index: nat, value: int)
    requires index < 16 && (value == 0 || value == 1)
    ensures GetBit(WithBit(w, index, value), index) == value
    ensures forall j :: 0 <= j < 16 && j != index ==> GetBit(WithBit(w, index, value), j) == GetBit(w, j)
  {
    PutBitSame(w, index as Word, value as Word);
    forall j | 0 <= j < 16 && j != index
      ensures GetBit(WithBit(w, index, value), j) == GetBit(w, j)
    {
      WithBitOther(w, index, value, j);
    }
  }

  lemma WithNibbleOther(w: Word, index: nat, value: int, j: nat)
    requires index < 4 && 0 <= value < 16 && j < 4 && j != index
    ensures GetNibble(WithNibble(w, index, value), j) == GetNibble(w, j)
  {
    IndexRound(index);
    IndexRound(j);
    PutNibOther(w, index as Word, value as Word, j as Word);
  }

  lemma WithNibbleAt(w: Word, index: nat, value: int)
    requires index < 4 && 0 <= value < 16
    ensures GetNibble(WithNibble(w, index, value), index) == value
    ensures forall j :: 0 <= j < 4 && j != index ==> GetNibble(WithNibble(w, index, value), j) == GetNibble(w, j)
  {
    PutNibSame(w, index as Word, value as Word);
    forall j | 0 <= j < 4 && j != index
      ensures GetNibble(WithNibble(w, index, value), j) == GetNibble(w, j)
    {
      WithNibbleOther(w, index, value, j);
    }
  }

  /** A register is determined by its sixteen bits. */
  lemma BitsDetermineWord(a: Word, b: Word)
    requires forall i :: 0 <= i < 16 ==> GetBit(a, i) == GetBit(b, i)
    ensures a == b
  {
    assert GetBit(a, 0) == GetBit(b, 0) && GetBit(a, 1) == GetBit(b, 1);
    assert GetBit(a, 2) == GetBit(b, 2) && GetBit(a, 3) == GetBit(b, 3);
    assert GetBit(a, 4) == GetBit(b, 4) && GetBit(a, 5) == GetBit(b, 5);
    assert GetBit(a, 6) == GetBit(b, 6) && GetBit(a, 7) == GetBit(b, 7);
    assert GetBit(a, 8) == GetBit(b, 8) && GetBit(a, 9) == GetBit(b, 9);
    assert GetBit(a, 10) == GetBit(b, 10) && GetBit(a, 11) == GetBit(b, 11);
    assert GetBit(a, 12) == GetBit(b, 12) && GetBit(a, 13) == GetBit(b, 13);
    assert GetBit(a, 14) == GetBit(b, 14) && GetBit(a, 15) == GetBit(b, 15);
  }

  lemma NibsDetermineWord(a: Word, b: Word)
    requires Nib(a, 0) == Nib(b, 0) && Nib(a, 1) == Nib(b, 1) && Nib(a, 2) == Nib(b, 2) && Nib(a, 3) == Nib(b, 3)
    ensures a == b
  {}

  lemma WordRound(x: Word)
    ensures (x as int) as Word == x
  {}

  lemma SameInt(x: Word, y: Word)
    requires x as int == y as int
    ensures x == y
  {
    WordRound(x);
    WordRound(y);
  }

  /** Converting a bit index to a register value and back loses nothing. */
  lemma IndexRound(i: nat)
    requires i < 16
    ensures (i as Word) as int == i && i as Word < 16
  {}

  /** A register is determined by its four nibbles. */
  lemma NibblesDetermineWord(a: Word, b: Word)
    requires forall i :: 0 <= i < 4 ==> GetNibble(a, i) == GetNibble(b, i)
    ensures a == b
  {
    assert GetNibble(a, 0) == GetNibble(b, 0) && GetNibble(a, 1) == GetNibble(b, 1);
    assert GetNibble(a, 2) == GetNibble(b, 2) && GetNibble(a, 3) == GetNibble(b, 3);
    FourNibblesDetermineWord(a, b);
  }

  lemma FourNibblesDetermineWord(a: Word, b: Word)
    requires GetNibble(a, 0) == GetNibble(b, 0) && GetNibble(a, 1) == GetNibble(b, 1)
    requires GetNibble(a, 2) == GetNibble(b, 2) && GetNibble(a, 3) == GetNibble(b, 3)
    ensures a == b
  {
    SameInt(Nib(a, 0), Nib(b, 0));
    SameInt(Nib(a, 1), Nib(b, 1));
    SameInt(Nib(a, 2), Nib(b, 2));
    SameInt(Nib(a, 3), Nib(b, 3));
    NibsDetermineWord(a, b);
  }

  lemma ZeroNibbles()
    ensures forall i :: 0 <= i < 4 ==> GetNibble(0, i) == 0
  {
    forall i | 0 <= i < 4 ensures GetNibble(0, i) == 0 {
      assert Nib(0, i as Word) == 0;
    }
  }

  lemma ZeroBits()
    ensures forall i :: 0 <= i < 16 ==> GetBit(0, i) == 0
  {
    forall i | 0 <= i < 16 ensures GetBit(0, i) == 0 {
      assert Bit(0, i as Word) == 0;
    }
  }

  lemma NibBit(w: Word, k: Word, b: Word)
    requires k < 4 && b < 4
    ensures Nib(w, k) == 0xf ==> Bit(w, 4 * k + b) == 1
    ensures Nib(w, k) == 0 ==> Bit(w, 4 * k + b) == 0
  {}

  /** Bit 4i+b of a register lies in its nibble i: all ones in an 0xf nibble, all zeros in a zero nibble. */
  lemma NibbleBits(w: Word, i: nat, b: nat)
    requires i < 4 && b < 4
    ensures GetNibble(w, i) == 0xf ==> GetBit(w, 4 * i + b) == 1
    ensures GetNibble(w, i) == 0 ==> GetBit(w, 4 * i + b) == 0
  {
    NibBit(w, i as Word, b as Word);
    assert (4 * i + b) as Word == 4 * (i as Word) + b as Word;
  }

  lemma NibFromBits(w: Word, k: Word)
    requires k < 4
    ensures Nib(w, k) == (Bit(w, 4 * k + 3) << 3) | (Bit(w, 4 * k + 2) << 2) | (Bit(w, 4 * k + 1) << 1) | Bit(w, 4 * k)
  {}

  /** Bit c of nibble i, as a register index. */
  lemma NibbleBitIndex(i: nat, c: nat)
    requires i < 4 && c < 4
    ensures (4 * i + c) as Word == 4 * (i as Word) + c as Word
  {
  }

  lemma SmallBitsValue(b3: Word, b2: Word, b1: Word, b0: Word)
    requires b3 < 2 && b2 < 2 && b1 < 2 && b0 < 2
    ensures ((b3 << 3) | (b2 << 2) | (b1 << 1) | b0) as int == 8 * b3 as int + 4 * b2 as int + 2 * b1 as int + b0 as int
  {}

  lemma GetBitIsBit(w: Word, j: nat)
    requires j < 16
    ensures GetBit(w, j) == Bit(w, j as Word) as int && Bit(w, j as Word) < 2
  {
    BitBound(w, j as Word);
  }

  /** Nibble i of a register is made of its bits 4i..4i+3, the highest one weighing 8. */
  lemma NibbleWeights(w: Word, i: nat)
    requires i < 4
    ensures GetNibble(w, i) == 8 * GetBit(w, 4 * i + 3) + 4 * GetBit(w, 4 * i + 2) + 2 * GetBit(w, 4 * i + 1) + GetBit(w, 4 * i)
  {
    var k := i as Word;
    NibbleBitIndex(i, 3);
    NibbleBitIndex(i, 2);
    NibbleBitIndex(i, 1);
    NibbleBitIndex(i, 0);
    GetBitIsBit(w, 4 * i + 3);
    GetBitIsBit(w, 4 * i + 2);
    GetBitIsBit(w, 4 * i + 1);
    GetBitIsBit(w, 4 * i);
    assert GetNibble(w, i) == Nib(w, k) as int;
    NibFromBits(w, k);
    hide GetBit, GetNibble, Nib, Bit;
    SmallBitsValue(Bit(w, 4 * k + 3), Bit(w, 4 * k + 2), Bit(w, 4 * k + 1), Bit(w, 4 * k));
  }

  /** XOR of two 4-bit values, as Python's `^` on ints in 0..15. */
  function Xor4(a: int, b: int): (r: int)
    requires 0 <= a < 16 && 0 <= b < 16
    ensures 0 <= r < 16
  {
    ((a as bv4) ^ (b as bv4)) as int
  }

  lemma Bv4Xor(x: bv4, y: bv4)
    ensures (x ^ y) ^ y == x && x ^ y == y ^ x && x ^ 0 == x
    ensures x ^ y == 0 <==> x == y
  {}

  lemma Bv4OfInt(a: int)
    requires 0 <= a < 16
    ensures (a as bv4) as int == a
  {}

  lemma IntOfBv4(x: bv4)
    ensures (x as int) as bv4 == x
  {}

  /** XOR on 4-bit values is self-inverse and vanishes exactly on equal arguments. */
  lemma Xor4Facts(a: int, b: int)
    requires 0 <= a < 16 && 0 <= b < 16
    ensures Xor4(Xor4(a, b), b) == a
    ensures Xor4(a, b) == Xor4(b, a)
    ensures Xor4(a, b) == 0 <==> a == b
    ensures Xor4(a, 0) == a
  {
    var x, y := a as bv4, b as bv4;
    Bv4Xor(x, y);
    Bv4OfInt(a);
    Bv4OfInt(b);
    IntOfBv4(x ^ y);
    assert Xor4(a, b) as bv4 == x ^ y;
    assert (0 as int) as bv4 == 0;
  }

  // ---------------------------------------------------------------------------
  // Population count.

  /** The number of one bits of w at positions from..15. */
  function OnesFrom(w: Word, from: nat): (c: nat)
    requires from <= 16
    ensures c <= 16 - from
    decreases 16 - from
  {
    if from == 16 then 0 else GetBit(w, from) + OnesFrom(w, from + 1)
  }

  /** The number of one bits of w. */
  function PopCount(w: Word): nat
  {
    OnesFrom(w, 0)
  }

  /** The population count is the sum of the sixteen bits. */
  lemma PopCountSum(w: Word)
    ensures PopCount(w) == GetBit(w, 0) + GetBit(w, 1) + GetBit(w, 2) + GetBit(w, 3) + GetBit(w, 4) + GetBit(w, 5) + GetBit(w, 6) + GetBit(w, 7) + GetBit(w, 8) + GetBit(w, 9) + GetBit(w, 10) + GetBit(w, 11) + GetBit(w, 12) + GetBit(w, 13) + GetBit(w, 14) + GetBit(w, 15)
  {
    assert OnesFrom(w, 15) == GetBit(w, 15) + OnesFrom(w, 16);
    assert OnesFrom(w, 14) == GetBit(w, 14) + OnesFrom(w, 15);
    assert OnesFrom(w, 13) == GetBit(w, 13) + OnesFrom(w, 14);
    assert OnesFrom(w, 12) == GetBit(w, 12) + OnesFrom(w, 13);
    assert OnesFrom(w, 11) == GetBit(w, 11) + OnesFrom(w, 12);
    assert OnesFrom(w, 10) == GetBit(w, 10) + OnesFrom(w, 11);
    assert OnesFrom(w, 9) == GetBit(w, 9) + OnesFrom(w, 10);
    assert OnesFrom(w, 8) == GetBit(w, 8) + OnesFrom(w, 9);
    assert OnesFrom(w, 7) == GetBit(w, 7) + OnesFrom(w, 8);
    assert OnesFrom(w, 6) == GetBit(w, 6) + OnesFrom(w, 7);
    assert OnesFrom(w, 5) == GetBit(w, 5) + OnesFrom(w, 6);
    assert OnesFrom(w, 4) == GetBit(w, 4) + OnesFrom(w, 5);
    assert OnesFrom(w, 3) == GetBit(w, 3) + OnesFrom(w, 4);
    assert OnesFrom(w, 2) == GetBit(w, 2) + OnesFrom(w, 3);
    assert OnesFrom(w, 1) == GetBit(w, 1) + OnesFrom(w, 2);
    assert OnesFrom(w, 0) == GetBit(w, 0) + OnesFrom(w, 1);
  }

  lemma ShiftedBits(w: Word)
    ensures GetBit(w >> 1, 0) == GetBit(w, 1)
    ensures GetBit(w >> 1, 1) == GetBit(w, 2)
    ensures GetBit(w >> 1, 2) == GetBit(w, 3)
    ensures GetBit(w >> 1, 3) == GetBit(w, 4)
    ensures GetBit(w >> 1, 4) == GetBit(w, 5)
    ensures GetBit(w >> 1, 5) == GetBit(w, 6)
    ensures GetBit(w >> 1, 6) == GetBit(w, 7)
    ensures GetBit(w >> 1, 7) == GetBit(w, 8)
    ensures GetBit(w >> 1, 8) == GetBit(w, 9)
    ensures GetBit(w >> 1, 9) == GetBit(w, 10)
    ensures GetBit(w >> 1, 10) == GetBit(w, 11)
    ensures GetBit(w >> 1, 11) == GetBit(w, 12)
    ensures GetBit(w >> 1, 12) == GetBit(w, 13)
    ensures GetBit(w >> 1, 13) == GetBit(w, 14)
    ensures GetBit(w >> 1, 14) == GetBit(w, 15)
    ensures GetBit(w >> 1, 15) == 0
    ensures GetBit(w, 0) == (if w & 1 == 1 then 1 else 0)
  {
  }

  /** Shifting right by one drops the lowest bit from the count. */
  lemma PopCountShift(w: Word)
    ensures PopCount(w) == (if w & 1 == 1 then 1 else 0) + PopCount(w >> 1)
  {
    PopCountSum(w);
    PopCountSum(w >> 1);
    ShiftedBits(w);
  }

  /** count_one_bits: shifts a copy of the register right until it is zero. */
  method CountOneBits(bitString: Word) returns (count: nat)
    ensures count == PopCount(bitString)
  {
    count := 0;
    var bs := bitString;
    while bs > 0
      invariant count + PopCount(bs) == PopCount(bitString)
      decreases bs
    {
      PopCountShift(bs);
      if bs & 1 == 1 { count := count + 1; }
      bs := bs >> 1;
    }
    PopCountSum(bs);
    ZeroBits();
  }
}
