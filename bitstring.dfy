/**
 * The BitString class of BitString.py: a mutable wrapper around one
 * unbounded integer, with bit and nibble accessors counted from the least
 * significant end.  Python's shifts and masks on such integers are written
 * out as integer arithmetic: `v >> 1` is floor division by 2 (Dafny's `/` by a
 * positive divisor floors, as Python's does), `(v >> i) & 1` is the remainder
 * modulo 2 after i halvings, clearing a field subtracts its old digit times
 * its weight, and XOR-ing a value into a cleared field adds it.
 */
module BitStrings {
  import opened Wrappers

  function Pow2(k: nat): (p: int)
    ensures p > 0
  {
    if k == 0 then 1 else 2 * Pow2(k - 1)
  }

  lemma Pow2Nibble(i: nat)
    requires i > 0
    ensures Pow2(4 * i) == 16 * Pow2(4 * (i - 1))
  {
    assert Pow2(4 * i) == 2 * Pow2(4 * i - 1) == 4 * Pow2(4 * i - 2) == 8 * Pow2(4 * i - 3);
  }

  lemma QuarterQuarter(v: int)
    ensures ((v / 2) / 2 / 2) / 2 == v / 16
  {
  }

  // ---------------------------------------------------------------------------
  // Bits and nibbles. A right shift by one is floor division by 2, so the
  // index-th bit is the low bit after index halvings and the index-th nibble
  // the low nibble after index divisions by 16.

  /** get_bit on a value: `(v & (1 << index)) >> index`. */
  function BitOf(v: int, index: nat): (b: int)
    ensures b == 0 || b == 1
    decreases index
  {
    if index == 0 then v % 2 else BitOf(v / 2, index - 1)
  }

  /** get_nibble on a value: `(v & (0xf << 4 * index)) >> 4 * index`. */
  function NibbleOf(v: int, index: nat): (n: int)
    ensures 0 <= n < 16
    decreases index
  {
    if index == 0 then v % 16 else NibbleOf(v / 16, index - 1)
  }

  /** v with bit i cleared (`&= ~(1 << i)`) and then x XOR-ed in (`^= x << i`): the cleared bit takes x. */
  function WriteBit(v: int, i: nat, x: int): int
  {
    v - BitOf(v, i) * Pow2(i) + x * Pow2(i)
  }

  /** v with nibble i cleared (`&= ~(0xf << 4 * i)`) and then x XOR-ed in (`^= x << 4 * i`). */
  function WriteNibble(v: int, i: nat, x: int): int
  {
    v - NibbleOf(v, i) * Pow2(4 * i) + x * Pow2(4 * i)
  }

  /** Moving a digit of weight 2 * p (or 16 * p) out of v = k * q + r, regrouped over k. */
  lemma Regroup(v: int, k: int, q: int, r: int, d: int, x: int, p: int)
    requires v == k * q + r
    ensures v - d * (k * p) + x * (k * p) == k * (q - d * p + x * p) + r
  {
  }

  /** Writing bit i of v leaves bit i equal to the value written and every other bit as it was. */
  lemma {:induction false} WriteBitBits(v: int, i: nat, x: int, j: nat)
    requires x == 0 || x == 1
    ensures BitOf(WriteBit(v, i, x), j) == if j == i then x else BitOf(v, j)
    decreases i
  {
    var w := WriteBit(v, i, x);
    if i == 0 {
      assert w == 2 * (v / 2) + x;
      if j > 0 {
        assert w / 2 == v / 2;
      }
    } else {
      var w' := WriteBit(v / 2, i - 1, x);
      Regroup(v, 2, v / 2, v % 2, BitOf(v / 2, i - 1), x, Pow2(i - 1));
      hide BitOf, WriteBit, Pow2;
      assert w == 2 * w' + v % 2;
      assert w / 2 == w' && w % 2 == v % 2;
      if j > 0 {
        WriteBitBits(v / 2, i - 1, x, j - 1);
      }
    }
  }

  /** Writing nibble i of v leaves nibble i equal to the value written and every other nibble as it was. */
  lemma {:induction false} WriteNibbleNibbles(v: int, i: nat, x: int, j: nat)
    requires 0 <= x < 16
    ensures NibbleOf(WriteNibble(v, i, x), j) == if j == i then x else NibbleOf(v, j)
    decreases i
  {
    var w := WriteNibble(v, i, x);
    if i == 0 {
      assert w == 16 * (v / 16) + x;
      if j > 0 {
        assert w / 16 == v / 16;
      }
    } else {
      var w' := WriteNibble(v / 16, i - 1, x);
      Pow2Nibble(i);
      Regroup(v, 16, v / 16, v % 16, NibbleOf(v / 16, i - 1), x, Pow2(4 * (i - 1)));
      hide NibbleOf, WriteNibble, Pow2;
      assert w == 16 * w' + v % 16;
      assert w / 16 == w' && w % 16 == v % 16;
      if j > 0 {
        WriteNibbleNibbles(v / 16, i - 1, x, j - 1);
      }
    }
  }

  /** A nibble is made of its four bits, the highest one first. */
  lemma {:induction false} NibbleFromBits(v: int, i: nat)
    ensures NibbleOf(v, i) == 8 * BitOf(v, 4 * i + 3) + 4 * BitOf(v, 4 * i + 2) + 2 * BitOf(v, 4 * i + 1) + BitOf(v, 4 * i)
    decreases i
  {
    if i == 0 {
      var q1 := v / 2;
      var q2 := q1 / 2;
      var q3 := q2 / 2;
      QuarterQuarter(v);
      assert BitOf(v, 1) == q1 % 2;
      assert BitOf(v, 2) == BitOf(q1, 1) == q2 % 2;
      assert BitOf(v, 3) == BitOf(q1, 2) == BitOf(q2, 1) == q3 % 2;
      assert v == 16 * (q3 / 2) + 8 * (q3 % 2) + 4 * (q2 % 2) + 2 * (q1 % 2) + v % 2;
    } else {
      var n := 4 * (i - 1);
      NibbleFromBits(v / 16, i - 1);
      BitOfQuarterQuarter(v, n);
      BitOfQuarterQuarter(v, n + 1);
      BitOfQuarterQuarter(v, n + 2);
      BitOfQuarterQuarter(v, n + 3);
    }
  }

  /** Four halvings are one division by 16. */
  lemma BitOfQuarterQuarter(v: int, n: nat)
    ensures BitOf(v, n + 4) == BitOf(v / 16, n)
  {
    QuarterQuarter(v);
    assert BitOf(v, n + 4) == BitOf(v / 2, n + 3) == BitOf(v / 2 / 2, n + 2) == BitOf(v / 2 / 2 / 2, n + 1);
  }

  // ---------------------------------------------------------------------------
  // Population count

  /** The count count_one_bits reaches: the loop stops as soon as the copy is not positive. */
  function Ones(v: int): nat
    decreases if v > 0 then v else 0
  {
    if v <= 0 then 0 else v % 2 + Ones(v / 2)
  }

  /** The number of one bits among bits 0..n-1 of v. */
  function BitSum(v: int, n: nat): nat
  {
    if n == 0 then 0 else BitSum(v, n - 1) + BitOf(v, n - 1)
  }

  lemma {:induction false} BitSumHalf(v: int, n: nat)
    ensures BitSum(v, n + 1) == v % 2 + BitSum(v / 2, n)
  {
    if n > 0 {
      BitSumHalf(v, n - 1);
    }
  }

  /** For 0 <= v < 2^n the loop's count is the number of one bits among the n low bits. */
  lemma {:induction false} OnesIsBitSum(v: int, n: nat)
    requires 0 <= v < Pow2(n)
    ensures Ones(v) == BitSum(v, n)
  {
    if n == 0 {
      assert v == 0;
    } else {
      OnesIsBitSum(v / 2, n - 1);
      BitSumHalf(v, n - 1);
    }
  }

  /** A negative value counts no one bits: the loop does not run. */
  lemma OnesOfNegative(v: int)
    requires v < 0
    ensures Ones(v) == 0
  {
  }

  // ---------------------------------------------------------------------------
  // The class

  class BitString {
    var bitString: int

    constructor (bitString: int)
      ensures this.bitString == bitString
    {
      this.bitString := bitString;
    }

    /** get_bit: the index-th bit, counting from the least significant bit. */
    function GetBit(index: nat): (b: int)
      reads this
      ensures b == 0 || b == 1
    {
      BitOf(bitString, index)
    }

    /** get_nibble: the index-th 4-bit nibble, counting from the least significant end. */
    function GetNibble(index: nat): (n: int)
      reads this
      ensures 0 <= n < 16
    {
      NibbleOf(bitString, index)
    }

    /**
     * set_bit: a value other than 0 or 1 changes nothing and gives None;
     * otherwise bit index is cleared and the value XOR-ed in, and the new
     * integer is returned.
     */
    method SetBit(index: nat, value: int) returns (r: Option<int>)
      modifies this
      ensures value != 0 && value != 1 ==> r == None && bitString == old(bitString)
      ensures (value == 0 || value == 1) ==> r == Some(bitString) && GetBit(index) == value
      ensures (value == 0 || value == 1) ==> forall j: nat :: j != index ==> GetBit(j) == old(GetBit(j))
    {
      if value != 0 && value != 1 {
        return None;
      }
      ghost var before := bitString;
      var mask := Pow2(index);
      bitString := bitString - GetBit(index) * mask;
      bitString := bitString + value * mask;
      assert bitString == WriteBit(before, index, value);
      forall j: nat ensures GetBit(j) == if j == index then value else BitOf(before, j) {
        WriteBitBits(before, index, value, j);
      }
      return Some(bitString);
    }

    /**
     * set_nibble: a value outside 0..0xf changes nothing and gives None;
     * otherwise nibble index is cleared and the value XOR-ed in, and the new
     * integer is returned.
     */
    method SetNibble(index: nat, value: int) returns (r: Option<int>)
      modifies this
      ensures (value < 0 || value > 0xf) ==> r == None && bitString == old(bitString)
      ensures 0 <= value <= 0xf ==> r == Some(bitString) && GetNibble(index) == value
      ensures 0 <= value <= 0xf ==> forall j: nat :: j != index ==> GetNibble(j) == old(GetNibble(j))
    {
      if value < 0 || value > 0xf {
        return None;
      }
      ghost var before := bitString;
      var shift := 4 * index;
      var mask := Pow2(shift);
      bitString := bitString - GetNibble(index) * mask;
      bitString := bitString + value * mask;
      assert bitString == WriteNibble(before, index, value);
      forall j: nat ensures GetNibble(j) == if j == index then value else NibbleOf(before, j) {
        WriteNibbleNibbles(before, index, value, j);
      }
      return Some(bitString);
    }

    /** count_one_bits: shifts a local copy right while it is positive, counting its low one bits. */
    method CountOneBits() returns (count: nat)
      ensures count == Ones(bitString)
    {
      count := 0;
      var bs := bitString;
      while bs > 0
        invariant count + Ones(bs) == Ones(bitString)
        decreases bs
      {
        if bs % 2 == 1 {
          count := count + 1;
        }
        bs := bs / 2;
      }
    }

    /** __lt__: the order of the wrapped integers. */
    predicate Lt(other: BitString)
      reads this, other
    {
      bitString < other.bitString
    }
  }

  /** The order __lt__ gives is strict: irreflexive and transitive. */
  lemma LtIsStrict(a: BitString, b: BitString, c: BitString)
    ensures !a.Lt(a)
    ensures a.Lt(b) && b.Lt(c) ==> a.Lt(c)
  {
  }
}
