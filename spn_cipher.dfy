/**
 * The 16-bit substitution-permutation network of spn-diff-crypt.py (the
 * construction of Stinson's "Cryptography: Theory and Practice"): four
 * rounds of key XOR, 4-bit S-box substitution on every nibble and a bit
 * permutation (omitted in the fourth round), then a fifth key XOR.
 * The S-box and P-box are parameters; the inverse boxes are derived from
 * them exactly as the module-level INV_SBOX / INV_PBOX lists are.
 */
module Spn {
  import opened Register

  // ---------------------------------------------------------------------------
  // Boxes

  /** The configuration check of validate_input: 16 entries containing every value 0..15. */
  predicate ValidBox(b: seq<int>)
  {
    |b| == 16 && forall v :: 0 <= v < 16 ==> v in b
  }

  /** 16 entries, each a legal nibble / bit index. */
  predicate IsBox(b: seq<int>)
  {
    |b| == 16 && forall i :: 0 <= i < 16 ==> 0 <= b[i] < 16
  }

  predicate Injective(b: seq<int>)
  {
    forall i, j :: 0 <= i < |b| && 0 <= j < |b| && i != j ==> b[i] != b[j]
  }

  /** Python's list.index: the first position holding v. */
  function IndexOf(b: seq<int>, v: int): (i: nat)
    requires v in b
    ensures i < |b| && b[i] == v
    ensures forall j :: 0 <= j < i ==> b[j] != v
  {
    if b[0] == v then 0 else 1 + IndexOf(b[1..], v)
  }

  function Below(n: nat): (r: set<int>)
    ensures |r| == n
    ensures forall i :: i in r <==> 0 <= i < n
  {
    if n == 0 then {} else Below(n - 1) + {n - 1}
  }

  /** The first positions of the values 0..n-1; there are n of them. */
  function FirstPositions(b: seq<int>, n: nat): (r: set<int>)
    requires n <= 16 && ValidBox(b)
    ensures |r| == n
    ensures forall i :: i in r ==> 0 <= i < 16 && 0 <= b[i] < n && IndexOf(b, b[i]) == i
  {
    if n == 0 then {} else
      var r := FirstPositions(b, n - 1);
      var p := IndexOf(b, n - 1);
      assert p !in r;
      r + {p}
  }

  lemma SameSizeSubset(p: set<int>, r: set<int>)
    requires p <= r && |p| == |r|
    ensures p == r
  {
    var d := r - p;
    assert r == p + d && p * d == {};
    assert |r| == |p| + |d|;
  }

  /** In a valid box every position is the first position of its value. */
  lemma AllPositionsFirst(b: seq<int>)
    requires ValidBox(b)
    ensures forall i :: 0 <= i < 16 ==> 0 <= b[i] < 16 && IndexOf(b, b[i]) == i
  {
    var P := FirstPositions(b, 16);
    SameSizeSubset(P, Below(16));
    forall i | 0 <= i < 16 ensures 0 <= b[i] < 16 && IndexOf(b, b[i]) == i {
      assert i in Below(16);
    }
  }

  /** A box that passes the configuration check is a permutation of 0..15. */
  lemma ValidBoxIsPermutation(b: seq<int>)
    requires ValidBox(b)
    ensures IsBox(b) && Injective(b)
  {
    AllPositionsFirst(b);
    forall i, j | 0 <= i < |b| && 0 <= j < |b| && i != j ensures b[i] != b[j] {
      assert IndexOf(b, b[i]) == i && IndexOf(b, b[j]) == j;
    }
  }

  /** INV_SBOX / INV_PBOX: position of the first occurrence of i, or i itself when i is absent. */
  function InvertBox(b: seq<int>): (inv: seq<int>)
    requires |b| == 16
    ensures IsBox(inv)
    ensures forall v :: 0 <= v < 16 && v in b ==> b[inv[v]] == v
    ensures forall v :: 0 <= v < 16 && v !in b ==> inv[v] == v
  {
    seq(16, i requires 0 <= i < 16 => if i in b then IndexOf(b, i) else i)
  }

  /** For a valid box the derived list is its two-sided inverse, and itself valid. */
  lemma InvertBoxInverse(b: seq<int>)
    requires ValidBox(b)
    ensures IsBox(b) && ValidBox(InvertBox(b))
    ensures forall i :: 0 <= i < 16 ==> InvertBox(b)[b[i]] == i
    ensures forall v :: 0 <= v < 16 ==> b[InvertBox(b)[v]] == v
  {
    ValidBoxIsPermutation(b);
    var inv := InvertBox(b);
    forall i | 0 <= i < 16 ensures inv[b[i]] == i {
      assert b[inv[b[i]]] == b[i];
    }
    forall v | 0 <= v < 16 ensures v in inv {
      assert inv[b[v]] == v;
    }
  }

  // ---------------------------------------------------------------------------
  // Round operations

  /** add_round_key: XOR with the round key; applying the same key again undoes it. */
  function AddRoundKey(state: Word, key: Word): (r: Word)
    ensures r ^ key == state
  {
    state ^ key
  }

  /** The loop of substitute after its first n iterations. */
  function SubstituteUpTo(state: Word, sbox: seq<int>, n: nat): Word
    requires IsBox(sbox) && n <= 4
  {
    if n == 0 then 0
    else WithNibble(SubstituteUpTo(state, sbox, n - 1), n - 1, sbox[GetNibble(state, n - 1)])
  }

  lemma {:induction false} SubstituteUpToNibble(state: Word, sbox: seq<int>, n: nat, j: nat)
    requires IsBox(sbox) && n <= 4 && j < 4
    ensures GetNibble(SubstituteUpTo(state, sbox, n), j) == if j < n then sbox[GetNibble(state, j)] else 0
  {
    if n > 0 {
      SubstituteUpToNibble(state, sbox, n - 1, j);
      WithNibbleAt(SubstituteUpTo(state, sbox, n - 1), n - 1, sbox[GetNibble(state, n - 1)]);
    }
  }

  /** substitute: the loop over the four nibbles. */
  function Substitute(state: Word, sbox: seq<int>): Word
    requires IsBox(sbox)
  {
    SubstituteUpTo(state, sbox, 4)
  }

  /** Every nibble of the result is the S-box image of the same nibble of the input. */
  lemma SubstituteNibbles(state: Word, sbox: seq<int>)
    requires IsBox(sbox)
    ensures forall i :: 0 <= i < 4 ==> GetNibble(Substitute(state, sbox), i) == sbox[GetNibble(state, i)]
  {
    forall i | 0 <= i < 4 ensures GetNibble(SubstituteUpTo(state, sbox, 4), i) == sbox[GetNibble(state, i)] {
      SubstituteUpToNibble(state, sbox, 4, i);
    }
  }

  /** The loop of permutate after its first n iterations. */
  function PermutateUpTo(state: Word, pbox: seq<int>, n: nat): Word
    requires IsBox(pbox) && n <= 16
  {
    if n == 0 then 0
    else WithBit(PermutateUpTo(state, pbox, n - 1), n - 1, GetBit(state, pbox[n - 1]))
  }

  lemma {:induction false} PermutateUpToBit(state: Word, pbox: seq<int>, n: nat, j: nat)
    requires IsBox(pbox) && n <= 16 && j < 16
    ensures GetBit(PermutateUpTo(state, pbox, n), j) == if j < n then GetBit(state, pbox[j]) else 0
  {
    if n > 0 {
      PermutateUpToBit(state, pbox, n - 1, j);
      WithBitAt(PermutateUpTo(state, pbox, n - 1), n - 1, GetBit(state, pbox[n - 1]));
    }
  }

  /** permutate: the loop over the sixteen bits. */
  function Permutate(state: Word, pbox: seq<int>): Word
    requires IsBox(pbox)
  {
    PermutateUpTo(state, pbox, 16)
  }

  /** Output bit i is input bit pbox[i]. */
  lemma PermutateBits(state: Word, pbox: seq<int>)
    requires IsBox(pbox)
    ensures forall i :: 0 <= i < 16 ==> GetBit(Permutate(state, pbox), i) == GetBit(state, pbox[i])
  {
    forall i | 0 <= i < 16 ensures GetBit(PermutateUpTo(state, pbox, 16), i) == GetBit(state, pbox[i]) {
      PermutateUpToBit(state, pbox, 16, i);
    }
  }

  // ---------------------------------------------------------------------------
  // The cipher

  /** One full round of encrypt: key XOR, substitution, permutation. */
  function FullRound(state: Word, key: Word, sbox: seq<int>, pbox: seq<int>): Word
    requires IsBox(sbox) && IsBox(pbox)
  {
    Permutate(Substitute(AddRoundKey(state, key), sbox), pbox)
  }

  /** The fourth round of encrypt, which has no permutation, and the final key XOR. */
  function LastRound(state: Word, key4: Word, key5: Word, sbox: seq<int>): Word
    requires IsBox(sbox)
  {
    AddRoundKey(Substitute(AddRoundKey(state, key4), sbox), key5)
  }

  /** encrypt: three full rounds, a fourth without permutation, a final key XOR. */
  function Encrypt(state: Word, key1: Word, key2: Word, key3: Word, key4: Word, key5: Word,
                   sbox: seq<int>, pbox: seq<int>): Word
    requires IsBox(sbox) && IsBox(pbox)
  {
    LastRound(FullRound(FullRound(FullRound(state, key1, sbox, pbox), key2, sbox, pbox), key3, sbox, pbox),
              key4, key5, sbox)
  }

  /** One full round of decrypt: inverse permutation, inverse substitution, key XOR. */
  function InverseFullRound(state: Word, key: Word, sbox: seq<int>, pbox: seq<int>): Word
    requires |sbox| == 16 && |pbox| == 16
  {
    AddRoundKey(Substitute(Permutate(state, InvertBox(pbox)), InvertBox(sbox)), key)
  }

  /** The first steps of decrypt: key5 XOR, inverse substitution, key4 XOR. */
  function InverseLastRound(state: Word, key4: Word, key5: Word, sbox: seq<int>): Word
    requires |sbox| == 16
  {
    AddRoundKey(Substitute(AddRoundKey(state, key5), InvertBox(sbox)), key4)
  }

  /** decrypt: the steps of encrypt undone in reverse order with the inverse boxes. */
  function Decrypt(state: Word, key1: Word, key2: Word, key3: Word, key4: Word, key5: Word,
                   sbox: seq<int>, pbox: seq<int>): Word
    requires |sbox| == 16 && |pbox| == 16
  {
    InverseFullRound(InverseFullRound(InverseFullRound(InverseLastRound(state, key4, key5, sbox),
      key3, sbox, pbox), key2, sbox, pbox), key1, sbox, pbox)
  }

  // ---------------------------------------------------------------------------
  // Inverses

  lemma SubstituteThenInverse(state: Word, sbox: seq<int>)
    requires ValidBox(sbox)
    ensures IsBox(sbox)
    ensures Substitute(Substitute(state, sbox), InvertBox(sbox)) == state
    ensures Substitute(Substitute(state, InvertBox(sbox)), sbox) == state
  {
    InvertBoxInverse(sbox);
    var inv := InvertBox(sbox);
    SubstituteNibbles(state, sbox);
    SubstituteNibbles(Substitute(state, sbox), inv);
    SubstituteNibbles(state, inv);
    SubstituteNibbles(Substitute(state, inv), sbox);
    NibblesDetermineWord(Substitute(Substitute(state, sbox), inv), state);
    NibblesDetermineWord(Substitute(Substitute(state, inv), sbox), state);
  }

  lemma PermutateThenInverse(state: Word, pbox: seq<int>)
    requires ValidBox(pbox)
    ensures IsBox(pbox)
    ensures Permutate(Permutate(state, pbox), InvertBox(pbox)) == state
    ensures Permutate(Permutate(state, InvertBox(pbox)), pbox) == state
  {
    InvertBoxInverse(pbox);
    var inv := InvertBox(pbox);
    PermutateBits(state, pbox);
    PermutateBits(Permutate(state, pbox), inv);
    PermutateBits(state, inv);
    PermutateBits(Permutate(state, inv), pbox);
    BitsDetermineWord(Permutate(Permutate(state, pbox), inv), state);
    BitsDetermineWord(Permutate(Permutate(state, inv), pbox), state);
  }

  /** XOR with the same key twice changes nothing. */
  lemma AddRoundKeyTwice(state: Word, key: Word)
    ensures AddRoundKey(AddRoundKey(state, key), key) == state
  {
  }

  /** A full round of decrypt undoes a full round of encrypt. */
  lemma UndoFullRound(state: Word, key: Word, sbox: seq<int>, pbox: seq<int>)
    requires ValidBox(sbox) && ValidBox(pbox)
    ensures IsBox(sbox) && IsBox(pbox)
    ensures InverseFullRound(FullRound(state, key, sbox, pbox), key, sbox, pbox) == state
  {
    ValidBoxIsPermutation(sbox);
    ValidBoxIsPermutation(pbox);
    var x := AddRoundKey(state, key);
    var t := Substitute(x, sbox);
    PermutateThenInverse(t, pbox);
    SubstituteThenInverse(x, sbox);
    AddRoundKeyTwice(state, key);
  }

  /** A full round of encrypt undoes a full round of decrypt. */
  lemma RedoFullRound(state: Word, key: Word, sbox: seq<int>, pbox: seq<int>)
    requires ValidBox(sbox) && ValidBox(pbox)
    ensures IsBox(sbox) && IsBox(pbox)
    ensures FullRound(InverseFullRound(state, key, sbox, pbox), key, sbox, pbox) == state
  {
    ValidBoxIsPermutation(sbox);
    ValidBoxIsPermutation(pbox);
    var p := Permutate(state, InvertBox(pbox));
    var q := Substitute(p, InvertBox(sbox));
    AddRoundKeyTwice(q, key);
    SubstituteThenInverse(p, sbox);
    PermutateThenInverse(state, pbox);
  }

  /** The first steps of decrypt undo the last round of encrypt. */
  lemma UndoLastRound(state: Word, key4: Word, key5: Word, sbox: seq<int>)
    requires ValidBox(sbox)
    ensures IsBox(sbox)
    ensures InverseLastRound(LastRound(state, key4, key5, sbox), key4, key5, sbox) == state
  {
    ValidBoxIsPermutation(sbox);
    var x := AddRoundKey(state, key4);
    AddRoundKeyTwice(Substitute(x, sbox), key5);
    SubstituteThenInverse(x, sbox);
    AddRoundKeyTwice(state, key4);
  }

  /** The last round of encrypt undoes the first steps of decrypt. */
  lemma RedoLastRound(state: Word, key4: Word, key5: Word, sbox: seq<int>)
    requires ValidBox(sbox)
    ensures IsBox(sbox)
    ensures LastRound(InverseLastRound(state, key4, key5, sbox), key4, key5, sbox) == state
  {
    ValidBoxIsPermutation(sbox);
    var x := AddRoundKey(state, key5);
    var y := Substitute(x, InvertBox(sbox));
    AddRoundKeyTwice(y, key4);
    SubstituteThenInverse(x, sbox);
    AddRoundKeyTwice(state, key5);
  }

  /** Decryption undoes encryption for every plaintext and key set. */
  lemma DecryptEncrypt(p: Word, key1: Word, key2: Word, key3: Word, key4: Word, key5: Word,
                       sbox: seq<int>, pbox: seq<int>)
    requires ValidBox(sbox) && ValidBox(pbox)
    ensures IsBox(sbox) && IsBox(pbox)
    ensures Decrypt(Encrypt(p, key1, key2, key3, key4, key5, sbox, pbox), key1, key2, key3, key4, key5, sbox, pbox) == p
  {
    ValidBoxIsPermutation(sbox);
    ValidBoxIsPermutation(pbox);
    var s1 := FullRound(p, key1, sbox, pbox);
    var s2 := FullRound(s1, key2, sbox, pbox);
    var s3 := FullRound(s2, key3, sbox, pbox);
    UndoLastRound(s3, key4, key5, sbox);
    UndoFullRound(s2, key3, sbox, pbox);
    UndoFullRound(s1, key2, sbox, pbox);
    UndoFullRound(p, key1, sbox, pbox);
  }

  /** Encryption undoes decryption: the cipher is a bijection on 16-bit blocks. */
  lemma EncryptDecrypt(c: Word, key1: Word, key2: Word, key3: Word, key4: Word, key5: Word,
                       sbox: seq<int>, pbox: seq<int>)
    requires ValidBox(sbox) && ValidBox(pbox)
    ensures IsBox(sbox) && IsBox(pbox)
    ensures Encrypt(Decrypt(c, key1, key2, key3, key4, key5, sbox, pbox), key1, key2, key3, key4, key5, sbox, pbox) == c
  {
    ValidBoxIsPermutation(sbox);
    ValidBoxIsPermutation(pbox);
    var d4 := InverseLastRound(c, key4, key5, sbox);
    var d3 := InverseFullRound(d4, key3, sbox, pbox);
    var d2 := InverseFullRound(d3, key2, sbox, pbox);
    RedoFullRound(d2, key1, sbox, pbox);
    RedoFullRound(d3, key2, sbox, pbox);
    RedoFullRound(d4, key3, sbox, pbox);
    RedoLastRound(c, key4, key5, sbox);
  }
}
