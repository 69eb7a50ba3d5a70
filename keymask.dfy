/**
 * Which round-key bits a trail lets the attack guess, and the enumeration of
 * every assignment of those bits: find_which_key_bits_will_be_broken and the
 * key-building loop of guess_key_bits in spn-diff-crypt.py.
 */
module KeyMask {
  import opened Wrappers
  import opened Register
  import opened Spn
  import opened Trails

  // ---------------------------------------------------------------------------
  // The key bits behind the active S-boxes

  /** The first n iterations of the nibble loop: nibble i becomes 0xf when nibble i of outputXor is non-zero. */
  function NibbleMaskUpTo(outputXor: Word, n: nat): Word
    requires n <= 4
  {
    if n == 0 then 0
    else
      var prev := NibbleMaskUpTo(outputXor, n - 1);
      if GetNibble(outputXor, n - 1) != 0 then SetNibble(prev, n - 1, 0xf).value else prev
  }

  /**
   * find_which_key_bits_will_be_broken: the nibbles of the active S-boxes,
   * moved through the bit permutation when the key sits in front of one
   * (rounds below 3).
   */
  function FindWhichKeyBitsWillBeBroken(roundNum: nat, outputXor: Word, pbox: seq<int>): Word
    requires IsBox(pbox)
  {
    var breakingKeyBits := NibbleMaskUpTo(outputXor, 4);
    if roundNum < 3 then Permutate(breakingKeyBits, pbox) else breakingKeyBits
  }

  lemma {:induction false} NibbleMaskUpToNibble(outputXor: Word, n: nat, j: nat)
    requires n <= 4 && j < 4
    ensures GetNibble(NibbleMaskUpTo(outputXor, n), j) == if j < n && GetNibble(outputXor, j) != 0 then 0xf else 0
  {
    hide GetNibble, WithNibble, SetNibble;
    if n == 0 {
      ZeroNibbles();
    } else {
      NibbleMaskUpToNibble(outputXor, n - 1, j);
    }
  }

  /** Nibble i of the unpermuted mask is 0xf exactly when nibble i of the difference is non-zero, and 0 otherwise. */
  lemma NibbleMaskNibbles(outputXor: Word)
    ensures forall i :: 0 <= i < 4 ==>
      GetNibble(NibbleMaskUpTo(outputXor, 4), i) == if GetNibble(outputXor, i) != 0 then 0xf else 0
  {
    forall i | 0 <= i < 4
      ensures GetNibble(NibbleMaskUpTo(outputXor, 4), i) == if GetNibble(outputXor, i) != 0 then 0xf else 0
    {
      NibbleMaskUpToNibble(outputXor, 4, i);
    }
  }

  /** Bit k of the unpermuted mask is set exactly when the nibble holding bit k is active. */
  lemma NibbleMaskBits(outputXor: Word)
    ensures forall k :: 0 <= k < 16 ==>
      GetBit(NibbleMaskUpTo(outputXor, 4), k) == if GetNibble(outputXor, k / 4) != 0 then 1 else 0
  {
    hide GetBit, GetNibble, NibbleMaskUpTo;
    NibbleMaskNibbles(outputXor);
    forall k | 0 <= k < 16
      ensures GetBit(NibbleMaskUpTo(outputXor, 4), k) == if GetNibble(outputXor, k / 4) != 0 then 1 else 0
    {
      NibbleBits(NibbleMaskUpTo(outputXor, 4), k / 4, k % 4);
      assert 4 * (k / 4) + k % 4 == k;
    }
  }

  /**
   * The mask marks the four key bits of every active S-box: bit k is set
   * exactly when the S-box fed by key bit k (through the permutation for
   * rounds below 3) is active.
   */
  lemma KeyBitsWillBeBroken(roundNum: nat, outputXor: Word, pbox: seq<int>)
    requires IsBox(pbox)
    ensures forall k :: 0 <= k < 16 ==>
      GetBit(FindWhichKeyBitsWillBeBroken(roundNum, outputXor, pbox), k) ==
        if GetNibble(outputXor, (if roundNum < 3 then pbox[k] else k) / 4) != 0 then 1 else 0
  {
    NibbleMaskBits(outputXor);
    PermutateBits(NibbleMaskUpTo(outputXor, 4), pbox);
  }

  lemma OnesFromNibble(w: Word, i: nat)
    requires i < 4
    ensures OnesFrom(w, 4 * i) ==
      GetBit(w, 4 * i) + GetBit(w, 4 * i + 1) + GetBit(w, 4 * i + 2) + GetBit(w, 4 * i + 3) + OnesFrom(w, 4 * i + 4)
  {
    assert OnesFrom(w, 4 * i + 2) == GetBit(w, 4 * i + 2) + OnesFrom(w, 4 * i + 3);
  }

  lemma NibbleMaskOnes(outputXor: Word, i: nat)
    requires i < 4
    ensures OnesFrom(NibbleMaskUpTo(outputXor, 4), 4 * i) ==
      4 * Active(GetNibble(outputXor, i)) + OnesFrom(NibbleMaskUpTo(outputXor, 4), 4 * i + 4)
  {
    hide GetBit, GetNibble, NibbleMaskUpTo;
    var mask := NibbleMaskUpTo(outputXor, 4);
    NibbleMaskBits(outputXor);
    OnesFromNibble(mask, i);
    assert (4 * i) / 4 == i && (4 * i + 1) / 4 == i && (4 * i + 2) / 4 == i && (4 * i + 3) / 4 == i;
  }

  /** The set of positions from `from` on where w has a one bit. */
  ghost function OnesSet(w: Word, from: nat): set<int>
  {
    set k | from <= k < 16 && GetBit(w, k) == 1
  }

  lemma {:induction false} OnesFromCard(w: Word, from: nat)
    requires from <= 16
    ensures OnesFrom(w, from) == |OnesSet(w, from)|
    decreases 16 - from
  {
    hide GetBit;
    if from == 16 {
      assert OnesSet(w, from) == {};
    } else {
      OnesFromCard(w, from + 1);
      if GetBit(w, from) == 1 {
        assert OnesSet(w, from) == OnesSet(w, from + 1) + {from};
      } else {
        assert OnesSet(w, from) == OnesSet(w, from + 1);
      }
    }
  }

  /** The members of s below n. */
  function Prefix(s: set<int>, n: int): set<int>
  {
    set i | i in s && i < n
  }

  lemma {:induction false} ImageCardPrefix(s: set<int>, b: seq<int>, n: nat)
    requires forall i :: i in s ==> 0 <= i < |b|
    requires Injective(b) && n <= |b|
    ensures |set i | i in Prefix(s, n) :: b[i]| == |Prefix(s, n)|
  {
    if n == 0 {
      assert Prefix(s, n) == {};
    } else {
      ImageCardPrefix(s, b, n - 1);
      var lo := Prefix(s, n - 1);
      var image := set i | i in lo :: b[i];
      if n - 1 in s {
        assert Prefix(s, n) == lo + {n - 1};
        assert (set i | i in Prefix(s, n) :: b[i]) == image + {b[n - 1]};
        assert b[n - 1] !in image;
        assert n - 1 !in lo;
      } else {
        assert Prefix(s, n) == lo;
      }
    }
  }

  /** An injective box maps a set of positions onto a set of the same size. */
  lemma ImageCard(s: set<int>, b: seq<int>)
    requires forall i :: i in s ==> 0 <= i < |b|
    requires Injective(b)
    ensures |set i | i in s :: b[i]| == |s|
  {
    ImageCardPrefix(s, b, |b|);
    assert Prefix(s, |b|) == s;
  }

  lemma OnesSetMember(w: Word, k: int)
    ensures k in OnesSet(w, 0) <==> 0 <= k < 16 && GetBit(w, k) == 1
  {
  }

  lemma OnesImageSubset(w: Word, pbox: seq<int>)
    requires IsBox(pbox)
    ensures (set i | i in OnesSet(Permutate(w, pbox), 0) :: pbox[i]) <= OnesSet(w, 0)
  {
    hide GetBit, Permutate, OnesSet;
    PermutateBits(w, pbox);
    forall i | i in OnesSet(Permutate(w, pbox), 0) ensures 0 <= i < 16 && pbox[i] in OnesSet(w, 0) {
      OnesSetMember(Permutate(w, pbox), i);
      OnesSetMember(w, pbox[i]);
    }
  }

  lemma OnesPreimage(w: Word, pbox: seq<int>, v: int)
    requires ValidBox(pbox) && v in OnesSet(w, 0)
    ensures IsBox(pbox)
    ensures v in pbox && IndexOf(pbox, v) in OnesSet(Permutate(w, pbox), 0)
  {
    hide GetBit, Permutate, OnesSet;
    ValidBoxIsPermutation(pbox);
    PermutateBits(w, pbox);
    OnesSetMember(w, v);
    OnesSetMember(Permutate(w, pbox), IndexOf(pbox, v));
  }

  lemma OnesImageSuperset(w: Word, pbox: seq<int>)
    requires ValidBox(pbox)
    ensures IsBox(pbox)
    ensures OnesSet(w, 0) <= (set i | i in OnesSet(Permutate(w, pbox), 0) :: pbox[i])
  {
    hide GetBit, Permutate;
    ValidBoxIsPermutation(pbox);
    forall v | v in OnesSet(w, 0) ensures v in (set i | i in OnesSet(Permutate(w, pbox), 0) :: pbox[i]) {
      OnesPreimage(w, pbox, v);
      assert pbox[IndexOf(pbox, v)] == v;
    }
  }

  lemma SameSet(x: set<int>, y: set<int>)
    requires x <= y && y <= x
    ensures x == y
  {
  }

  /** The bit permutation maps the one positions of its output onto the one positions of its input. */
  lemma ImageOfOnes(w: Word, pbox: seq<int>)
    requires ValidBox(pbox)
    ensures IsBox(pbox)
    ensures (set i | i in OnesSet(Permutate(w, pbox), 0) :: pbox[i]) == OnesSet(w, 0)
  {
    hide GetBit, Permutate;
    OnesImageSuperset(w, pbox);
    OnesImageSubset(w, pbox);
    SameSet(set i | i in OnesSet(Permutate(w, pbox), 0) :: pbox[i], OnesSet(w, 0));
  }

  /** A bit permutation keeps the number of one bits. */
  lemma PermutatePopCount(w: Word, pbox: seq<int>)
    requires ValidBox(pbox)
    ensures IsBox(pbox)
    ensures PopCount(Permutate(w, pbox)) == PopCount(w)
  {
    hide GetBit, Permutate;
    ValidBoxIsPermutation(pbox);
    ImageOfOnes(w, pbox);
    ImageCard(OnesSet(Permutate(w, pbox), 0), pbox);
    OnesFromCard(Permutate(w, pbox), 0);
    OnesFromCard(w, 0);
  }

  /** Before the permutation the mask has four bits per active S-box. */
  lemma MaskPopCount(outputXor: Word)
    ensures PopCount(NibbleMaskUpTo(outputXor, 4)) == 4 * ActiveCount(outputXor)
  {
    hide GetBit, GetNibble, NibbleMaskUpTo, OnesFrom;
    var mask := NibbleMaskUpTo(outputXor, 4);
    NibbleMaskOnes(outputXor, 0);
    NibbleMaskOnes(outputXor, 1);
    NibbleMaskOnes(outputXor, 2);
    NibbleMaskOnes(outputXor, 3);
    NoOnesFrom16(mask);
    ActiveCountSum(outputXor);
  }

  lemma NoOnesFrom16(w: Word)
    ensures OnesFrom(w, 16) == 0
  {
  }

  /** The mask has four bits per active S-box, with or without the permutation. */
  lemma KeyBitsCount(roundNum: nat, outputXor: Word, pbox: seq<int>)
    requires ValidBox(pbox)
    ensures IsBox(pbox)
    ensures PopCount(FindWhichKeyBitsWillBeBroken(roundNum, outputXor, pbox)) == 4 * ActiveCount(outputXor)
  {
    hide GetBit, GetNibble, Permutate, NibbleMaskUpTo, OnesFrom, PopCount;
    MaskPopCount(outputXor);
    PermutatePopCount(NibbleMaskUpTo(outputXor, 4), pbox);
  }

  // ---------------------------------------------------------------------------
  // Enumerating the assignments of the mask bits

  function Pow2(n: nat): (r: nat)
    ensures r >= 1
  {
    if n == 0 then 1 else 2 * Pow2(n - 1)
  }

  /** The number of assignments of the mask bits at positions j..15. */
  function Span(mask: Word, j: nat): (r: nat)
    requires j <= 16
    ensures r >= 1
  {
    Pow2(OnesFrom(mask, j))
  }

  /** total_needed_key_guesses: two to the number of mask bits. */
  function NumGuesses(mask: Word): nat
  {
    Span(mask, 0)
  }

  /**
   * The place value guess number i gives to mask bit j: two to the number of
   * mask bits above j. It is the value of div in guess_key_bits when the
   * inner loop reaches mask bit j.
   */
  function Weight(mask: Word, j: nat): (r: nat)
    requires j < 16
    ensures r >= 1
  {
    Span(mask, j + 1)
  }

  /** The bit of guess number i that goes to mask bit j. */
  predicate Takes(mask: Word, i: nat, j: nat)
    requires j < 16
  {
    GetBit(mask, j) == 1 && (i / Weight(mask, j)) % 2 == 1
  }

  /**
   * The key guess_key_bits builds in iteration i, restricted to bits below n:
   * mask bit j is set when the bit of i at place Weight(mask, j) is set, so
   * the lowest mask bit takes the most significant bit of i.
   */
  function GuessUpTo(mask: Word, i: nat, n: nat): Word
    requires n <= 16
  {
    if n == 0 then 0
    else
      var prev := GuessUpTo(mask, i, n - 1);
      if Takes(mask, i, n - 1) then WithBit(prev, n - 1, 1) else prev
  }

  function Guess(mask: Word, i: nat): Word
  {
    GuessUpTo(mask, i, 16)
  }

  /** Every one bit of g is a one bit of mask. */
  predicate IsSubMask(g: Word, mask: Word)
  {
    forall j :: 0 <= j < 16 ==> GetBit(g, j) == 1 ==> GetBit(mask, j) == 1
  }

  lemma {:induction false} GuessUpToBit(mask: Word, i: nat, n: nat, j: nat)
    requires n <= 16 && j < 16
    ensures GetBit(GuessUpTo(mask, i, n), j) == if j < n && Takes(mask, i, j) then 1 else 0
  {
    hide Takes;
    if n == 0 {
      ZeroBits();
    } else {
      GuessUpToBit(mask, i, n - 1, j);
      var prev := GuessUpTo(mask, i, n - 1);
      if Takes(mask, i, n - 1) {
        WithBitAt(prev, n - 1, 1);
      }
    }
  }

  /** Bit j of guess i is set exactly when mask bit j takes a one from i. */
  lemma GuessBits(mask: Word, i: nat)
    ensures forall j :: 0 <= j < 16 ==> GetBit(Guess(mask, i), j) == if Takes(mask, i, j) then 1 else 0
    ensures IsSubMask(Guess(mask, i), mask)
  {
    forall j | 0 <= j < 16 ensures GetBit(Guess(mask, i), j) == if Takes(mask, i, j) then 1 else 0 {
      GuessUpToBit(mask, i, 16, j);
    }
  }

  /** The inverse of Guess from position j on: the place values of the mask bits set in g. */
  function ExtractFrom(mask: Word, g: Word, j: nat): nat
    requires j <= 16
    decreases 16 - j
  {
    if j == 16 then 0
    else (if GetBit(mask, j) == 1 && GetBit(g, j) == 1 then Weight(mask, j) else 0) + ExtractFrom(mask, g, j + 1)
  }

  /** The guess number that produces the sub-mask g. */
  function Extract(mask: Word, g: Word): nat
  {
    ExtractFrom(mask, g, 0)
  }

  /** A mask bit doubles the number of assignments; any other bit leaves it alone. */
  lemma PlaceStep(mask: Word, j: nat)
    requires j < 16
    ensures Span(mask, j) == if GetBit(mask, j) == 1 then 2 * Weight(mask, j) else Weight(mask, j)
  {
    var r := OnesFrom(mask, j + 1);
    if GetBit(mask, j) == 1 {
      assert OnesFrom(mask, j) == 1 + r;
      assert Pow2(1 + r) == 2 * Pow2(r);
    } else {
      assert OnesFrom(mask, j) == r;
    }
  }

  lemma MulAtLeast(k: int, d: int)
    requires k >= 1 && d > 0
    ensures k * d >= d
  {
  }

  /** The only multiple of d strictly between -d and d is 0. */
  lemma SmallMultiple(k: int, d: int)
    requires d > 0 && -d < k * d < d
    ensures k == 0
  {
    if k >= 1 {
      MulAtLeast(k, d);
      assert false;
    } else if k <= -1 {
      MulAtLeast(-k, d);
      assert false;
    }
  }

  /** Quotient and remainder are unique. */
  lemma DivUnique(x: int, d: int, q: int, r: int)
    requires d > 0 && x == q * d + r && 0 <= r < d
    ensures x / d == q && x % d == r
  {
    var q', r' := x / d, x % d;
    assert (q - q') * d == r' - r;
    SmallMultiple(q - q', d);
  }

  /** Splitting i at place w: the remainder modulo 2w is the bit at place w plus the remainder modulo w. */
  lemma ModDouble(i: nat, w: nat)
    requires w >= 1
    ensures i % (2 * w) == (if (i / w) % 2 == 1 then w else 0) + i % w
  {
    var q, r := i / (2 * w), i % (2 * w);
    assert i == q * (2 * w) + r;
    if r >= w {
      assert i == (2 * q + 1) * w + (r - w);
      DivUnique(i, w, 2 * q + 1, r - w);
      DivUnique(2 * q + 1, 2, q, 1);
    } else {
      assert i == (2 * q) * w + r;
      DivUnique(i, w, 2 * q, r);
      DivUnique(2 * q, 2, q, 0);
    }
  }

  lemma {:induction false} ExtractBound(mask: Word, g: Word, j: nat)
    requires j <= 16
    ensures ExtractFrom(mask, g, j) < Span(mask, j)
    decreases 16 - j
  {
    if j < 16 {
      hide Span, Weight, GetBit;
      ExtractBound(mask, g, j + 1);
      PlaceStep(mask, j);
    }
  }

  lemma {:induction false} ExtractGuessFrom(mask: Word, i: nat, j: nat)
    requires j <= 16
    ensures ExtractFrom(mask, Guess(mask, i), j) == i % Span(mask, j)
    decreases 16 - j
  {
    if j < 16 {
      hide Span, Weight, GetBit, Guess;
      ExtractGuessFrom(mask, i, j + 1);
      PlaceStep(mask, j);
      GuessBits(mask, i);
      if GetBit(mask, j) == 1 {
        ModDouble(i, Weight(mask, j));
      }
    }
  }

  lemma ModSmall(i: nat, n: nat)
    requires i < n
    ensures i % n == i
  {
    DivUnique(i, n, 0, i);
  }

  /** Guess numbers below NumGuesses(mask) are recovered from their guesses, so no guess repeats. */
  lemma ExtractGuess(mask: Word, i: nat)
    requires i < NumGuesses(mask)
    ensures Extract(mask, Guess(mask, i)) == i
  {
    hide Span, Guess;
    ExtractGuessFrom(mask, i, 0);
    ModSmall(i, Span(mask, 0));
  }

  lemma Twice(q: int, w: int)
    ensures q * (2 * w) == (2 * q) * w
    ensures q * (2 * w) + w == (2 * q + 1) * w
  {
  }

  lemma {:induction false} ExtractSplit(mask: Word, g: Word, j: nat) returns (q: nat)
    requires j <= 16
    ensures Extract(mask, g) == q * Span(mask, j) + ExtractFrom(mask, g, j)
  {
    if j == 0 {
      q := 0;
    } else {
      hide Span, Weight, GetBit, Extract;
      var q0 := ExtractSplit(mask, g, j - 1);
      PlaceStep(mask, j - 1);
      var w := Weight(mask, j - 1);
      assert w == Span(mask, j);
      Twice(q0, w);
      if GetBit(mask, j - 1) == 1 && GetBit(g, j - 1) == 1 {
        assert ExtractFrom(mask, g, j - 1) == w + ExtractFrom(mask, g, j);
        q := 2 * q0 + 1;
      } else if GetBit(mask, j - 1) == 1 {
        assert ExtractFrom(mask, g, j - 1) == ExtractFrom(mask, g, j);
        q := 2 * q0;
      } else {
        assert ExtractFrom(mask, g, j - 1) == ExtractFrom(mask, g, j);
        q := q0;
      }
    }
  }

  /** The place of mask bit j in Extract(mask, g) holds the bit of g at j. */
  lemma ExtractPlace(mask: Word, g: Word, j: nat)
    requires j < 16 && GetBit(mask, j) == 1
    ensures (Extract(mask, g) / Weight(mask, j)) % 2 == GetBit(g, j)
  {
    var w := Weight(mask, j);
    assert w == Span(mask, j + 1);
    hide Span, Weight, GetBit, Extract;
    var q := ExtractSplit(mask, g, j);
    PlaceStep(mask, j);
    ExtractBound(mask, g, j + 1);
    var rest := ExtractFrom(mask, g, j + 1);
    Twice(q, w);
    if GetBit(g, j) == 1 {
      assert ExtractFrom(mask, g, j) == w + rest;
      DivUnique(Extract(mask, g), w, 2 * q + 1, rest);
      DivUnique(2 * q + 1, 2, q, 1);
    } else {
      assert ExtractFrom(mask, g, j) == rest;
      DivUnique(Extract(mask, g), w, 2 * q, rest);
      DivUnique(2 * q, 2, q, 0);
    }
  }

  /** Every sub-mask is produced by a guess number below NumGuesses(mask), namely Extract(mask, g). */
  lemma GuessExtract(mask: Word, g: Word)
    requires IsSubMask(g, mask)
    ensures Extract(mask, g) < NumGuesses(mask)
    ensures Guess(mask, Extract(mask, g)) == g
  {
    hide Span, Weight, Guess;
    ExtractBound(mask, g, 0);
    var x := Extract(mask, g);
    GuessBits(mask, x);
    forall j | 0 <= j < 16 ensures GetBit(Guess(mask, x), j) == GetBit(g, j) {
      if GetBit(mask, j) == 1 {
        ExtractPlace(mask, g, j);
      }
    }
    BitsDetermineWord(Guess(mask, x), g);
  }

  /**
   * The loop of guess_key_bits visits every assignment of the mask bits
   * exactly once: the guesses for 0 .. NumGuesses(mask) - 1 are sub-masks,
   * pairwise distinct, and every sub-mask is among them.
   */
  lemma GuessesEnumerateSubMasks(mask: Word)
    ensures forall i :: 0 <= i < NumGuesses(mask) ==> IsSubMask(Guess(mask, i), mask)
    ensures forall i, i' :: 0 <= i < i' < NumGuesses(mask) ==> Guess(mask, i) != Guess(mask, i')
    ensures forall g :: IsSubMask(g, mask) ==> exists i :: 0 <= i < NumGuesses(mask) && Guess(mask, i) == g
  {
    hide Span, Guess;
    forall i | 0 <= i < NumGuesses(mask) ensures IsSubMask(Guess(mask, i), mask) {
      GuessBits(mask, i);
    }
    forall i, i' | 0 <= i < i' < NumGuesses(mask) ensures Guess(mask, i) != Guess(mask, i') {
      ExtractGuess(mask, i);
      ExtractGuess(mask, i');
    }
    forall g | IsSubMask(g, mask) ensures exists i :: 0 <= i < NumGuesses(mask) && Guess(mask, i) == g {
      GuessExtract(mask, g);
    }
  }

  lemma {:induction false} ExtractAllFrom(mask: Word, j: nat)
    requires j <= 16
    ensures ExtractFrom(mask, mask, j) == Span(mask, j) - 1
    decreases 16 - j
  {
    if j < 16 {
      hide Span, Weight, GetBit;
      ExtractAllFrom(mask, j + 1);
      PlaceStep(mask, j);
    }
  }

  /** The last guess sets every mask bit: it is the mask itself. */
  lemma LastGuessIsMask(mask: Word)
    ensures Guess(mask, NumGuesses(mask) - 1) == mask
  {
    hide Span, Guess;
    ExtractAllFrom(mask, 0);
    GuessExtract(mask, mask);
  }
}
