/**
 * The browser implementation of the 16-bit SPN (js/spn.js).  A state is an
 * array of four nibbles and a key likewise; bits are listed nibble by
 * nibble, the most significant bit of each nibble first.  The permutation
 * scatters: input bit i is written to output position pbox[i]
 * (spn-diff-crypt.py gathers instead: output bit i is read from input bit
 * pbox[i], with bit 0 the least significant).  The inverse boxes are passed
 * in by the caller.
 */
module JsSpn {
  import opened Register
  import opened Spn
  import opened JsToy

  predicate Nibbles(s: seq<int>)
  {
    forall i :: 0 <= i < |s| ==> 0 <= s[i] < 16
  }

  predicate Bits(s: seq<int>)
  {
    forall i :: 0 <= i < |s| ==> s[i] == 0 || s[i] == 1
  }

  /** A state or round key of the browser cipher: four nibbles. */
  predicate IsState(s: seq<int>)
  {
    |s| == 4 && Nibbles(s)
  }

  // ---------------------------------------------------------------------------
  // Bits and nibbles

  /** nibblesToBits: the four bits of every nibble in turn, each the most significant first. */
  function NibblesToBits(nibbles: seq<int>): (bits: seq<int>)
    requires Nibbles(nibbles)
    ensures |bits| == 4 * |nibbles| && Bits(bits)
  {
    seq(4 * |nibbles|, k requires 0 <= k < 4 * |nibbles| => NibbleToBits(nibbles[k / 4])[k % 4])
  }

  /**
   * bitsToNibbles: every group of four bits, the first the most significant.
   * The shifted bits `b << 3 | b' << 2 | ...` occupy different positions, so
   * the OR is their sum.
   */
  function BitsToNibbles(bits: seq<int>): (nibbles: seq<int>)
    requires |bits| % 4 == 0 && Bits(bits)
    ensures |nibbles| == |bits| / 4 && Nibbles(nibbles)
  {
    seq(|bits| / 4, i requires 0 <= i < |bits| / 4 =>
      8 * bits[4 * i] + 4 * bits[4 * i + 1] + 2 * bits[4 * i + 2] + bits[4 * i + 3])
  }

  /** Bits 4i..4i+3 of nibblesToBits are the bits of nibble i. */
  lemma NibbleGroup(nibbles: seq<int>, i: int)
    requires Nibbles(nibbles) && 0 <= i < |nibbles|
    ensures var bits, b := NibblesToBits(nibbles), NibbleToBits(nibbles[i]);
      bits[4 * i] == b[0] && bits[4 * i + 1] == b[1] && bits[4 * i + 2] == b[2] && bits[4 * i + 3] == b[3]
  {
    assert (4 * i) / 4 == i && (4 * i) % 4 == 0;
    assert (4 * i + 1) / 4 == i && (4 * i + 1) % 4 == 1;
    assert (4 * i + 2) / 4 == i && (4 * i + 2) % 4 == 2;
    assert (4 * i + 3) / 4 == i && (4 * i + 3) % 4 == 3;
  }

  /** Splitting nibbles into bits and regrouping gives the nibbles back. */
  lemma NibblesBitsNibbles(nibbles: seq<int>)
    requires Nibbles(nibbles)
    ensures BitsToNibbles(NibblesToBits(nibbles)) == nibbles
  {
    var bits := NibblesToBits(nibbles);
    forall i | 0 <= i < |nibbles|
      ensures BitsToNibbles(bits)[i] == nibbles[i]
    {
      NibbleGroup(nibbles, i);
      NibbleToBitsWeights(nibbles[i]);
      hide NibblesToBits, NibbleToBits;
      assert BitsToNibbles(bits)[i] == 8 * bits[4 * i] + 4 * bits[4 * i + 1] + 2 * bits[4 * i + 2] + bits[4 * i + 3];
    }
  }

  /** Regrouping bits into nibbles and splitting them again gives the bits back. */
  lemma BitsNibblesBits(bits: seq<int>)
    requires |bits| % 4 == 0 && Bits(bits)
    ensures NibblesToBits(BitsToNibbles(bits)) == bits
  {
    var nibbles := BitsToNibbles(bits);
    forall k | 0 <= k < |bits|
      ensures NibblesToBits(nibbles)[k] == bits[k]
    {
      var i, j := k / 4, k % 4;
      assert k == 4 * i + j && 0 <= i < |nibbles|;
      BitsToNibbleBits(bits[4 * i], bits[4 * i + 1], bits[4 * i + 2], bits[4 * i + 3]);
      assert nibbles[i] == 8 * bits[4 * i] + 4 * bits[4 * i + 1] + 2 * bits[4 * i + 2] + bits[4 * i + 3];
      hide BitsToNibbles, NibbleToBits;
      assert NibblesToBits(nibbles)[k] == NibbleToBits(nibbles[i])[j];
    }
  }

  // ---------------------------------------------------------------------------
  // Round operations

  /** spnSubstitute: every nibble through the S-box. */
  function Substitute(state: seq<int>, sbox: seq<int>): (r: seq<int>)
    requires IsBox(sbox) && Nibbles(state)
    ensures |r| == |state| && Nibbles(r)
  {
    seq(|state|, i requires 0 <= i < |state| => sbox[state[i]])
  }

  /** Substituting through the inverse box undoes a substitution. */
  lemma SubstituteThenInverse(state: seq<int>, sbox: seq<int>, invSbox: seq<int>)
    requires Inverses(sbox, invSbox) && Nibbles(state)
    ensures Substitute(Substitute(state, sbox), invSbox) == state
  {
  }

  /** The 16 output bits of spnPermutate after the writes for input bits 0..n-1 into a list of zeros. */
  function Scatter(bits: seq<int>, pbox: seq<int>, n: nat): (out: seq<int>)
    requires |bits| == 16 && Bits(bits) && IsBox(pbox) && n <= 16
    ensures |out| == 16 && Bits(out)
  {
    if n == 0 then seq(16, _ => 0) else Scatter(bits, pbox, n - 1)[pbox[n - 1] := bits[n - 1]]
  }

  /** With distinct targets every write survives: position pbox[i] holds input bit i. */
  lemma {:induction false} ScatterAt(bits: seq<int>, pbox: seq<int>, n: nat)
    requires |bits| == 16 && Bits(bits) && IsBox(pbox) && Injective(pbox) && n <= 16
    ensures forall i :: 0 <= i < n ==> Scatter(bits, pbox, n)[pbox[i]] == bits[i]
  {
    if n > 0 {
      ScatterAt(bits, pbox, n - 1);
    }
  }

  /** spnPermutate: the bits of the state scattered through the P-box, regrouped into nibbles. */
  function Permutate(state: seq<int>, pbox: seq<int>): (r: seq<int>)
    requires IsState(state) && IsBox(pbox)
    ensures IsState(r)
  {
    BitsToNibbles(Scatter(NibblesToBits(state), pbox, 16))
  }

  /** Output bit pbox[i] of spnPermutate is input bit i, when the P-box has an inverse. */
  lemma PermutateBits(state: seq<int>, pbox: seq<int>, invPbox: seq<int>)
    requires IsState(state) && Inverses(pbox, invPbox)
    ensures forall i :: 0 <= i < 16 ==> NibblesToBits(Permutate(state, pbox))[pbox[i]] == NibblesToBits(state)[i]
  {
    InversesInjective(pbox, invPbox);
    var out := Scatter(NibblesToBits(state), pbox, 16);
    ScatterAt(NibblesToBits(state), pbox, 16);
    BitsNibblesBits(out);
  }

  lemma InversesInjective(box: seq<int>, inv: seq<int>)
    requires Inverses(box, inv)
    ensures Injective(box) && Injective(inv)
  {
    forall i, j | 0 <= i < 16 && 0 <= j < 16 && i != j ensures box[i] != box[j] {
      assert inv[box[i]] == i && inv[box[j]] == j;
    }
    forall i, j | 0 <= i < 16 && 0 <= j < 16 && i != j ensures inv[i] != inv[j] {
      assert box[inv[i]] == i && box[inv[j]] == j;
    }
  }

  /** Scattering through the inverse P-box puts every bit back. */
  lemma ScatterThenInverse(bits: seq<int>, pbox: seq<int>, invPbox: seq<int>)
    requires |bits| == 16 && Bits(bits) && Inverses(pbox, invPbox)
    ensures Scatter(Scatter(bits, pbox, 16), invPbox, 16) == bits
  {
    InversesInjective(pbox, invPbox);
    var out1 := Scatter(bits, pbox, 16);
    var out2 := Scatter(out1, invPbox, 16);
    ScatterAt(bits, pbox, 16);
    ScatterAt(out1, invPbox, 16);
    hide Scatter;
    forall i | 0 <= i < 16 ensures out2[i] == bits[i] {
      assert out2[invPbox[pbox[i]]] == out1[pbox[i]];
    }
  }

  /** Permuting with the inverse P-box undoes a permutation. */
  lemma PermutateThenInverse(state: seq<int>, pbox: seq<int>, invPbox: seq<int>)
    requires IsState(state) && Inverses(pbox, invPbox)
    ensures Permutate(Permutate(state, pbox), invPbox) == state
  {
    var bits := NibblesToBits(state);
    var out1 := Scatter(bits, pbox, 16);
    BitsNibblesBits(out1);
    ScatterThenInverse(bits, pbox, invPbox);
    NibblesBitsNibbles(state);
    hide NibblesToBits, BitsToNibbles, Scatter;
    assert Permutate(state, pbox) == BitsToNibbles(out1);
  }

  // ---------------------------------------------------------------------------
  // The two bit orders

  /** The P-box both implementations ship with: bit 4j + i goes to bit 4i + j. */
  const DefaultPbox: seq<int> := [0, 4, 8, 12, 1, 5, 9, 13, 2, 6, 10, 14, 3, 7, 11, 15]

  /** A 16-bit register as the browser shows it: its hex digits, the most significant first. */
  function WordState(w: Word): (s: seq<int>)
    ensures IsState(s)
  {
    [GetNibble(w, 3), GetNibble(w, 2), GetNibble(w, 1), GetNibble(w, 0)]
  }

  /** Position p of the browser's bit list is register bit 15 - p. */
  lemma WordStateBit(w: Word, p: int)
    requires 0 <= p < 16
    ensures NibblesToBits(WordState(w))[p] == GetBit(w, 15 - p)
  {
    hide GetBit, GetNibble;
    var s := WordState(w);
    var i, k := p / 4, p % 4;
    var n := 3 - i;
    assert p == 4 * i + k && 15 - p == 4 * n + 3 - k;
    assert s[i] == GetNibble(w, n);
    var bits := [GetBit(w, 4 * n + 3), GetBit(w, 4 * n + 2), GetBit(w, 4 * n + 1), GetBit(w, 4 * n)];
    NibbleWeights(w, n);
    BitsToNibbleBits(bits[0], bits[1], bits[2], bits[3]);
    hide WordState;
    assert NibbleToBits(s[i]) == bits;
    hide NibbleToBits;
    assert NibblesToBits(s)[p] == NibbleToBits(s[i])[k];
  }

  lemma DefaultPboxFacts()
    ensures Inverses(DefaultPbox, DefaultPbox)
    ensures forall t :: 0 <= t < 16 ==> DefaultPbox[15 - t] == 15 - DefaultPbox[t]
  {
    var P := DefaultPbox;
    forall t | 0 <= t < 16 ensures 0 <= P[t] < 16 && P[P[t]] == t && P[15 - t] == 15 - P[t] {
      assert t / 4 < 4 && P[t] == 4 * (t % 4) + t / 4;
    }
  }

  /** Bit q of both outputs, in the browser's order, is register bit 15 - pbox[q] of the input. */
  lemma DefaultPboxAgreesAt(w: Word, q: int)
    requires 0 <= q < 16
    ensures NibblesToBits(WordState(Spn.Permutate(w, DefaultPbox)))[q] == NibblesToBits(Permutate(WordState(w), DefaultPbox))[q]
  {
    hide Spn.Permutate, Permutate, WordState;
    var P := DefaultPbox;
    DefaultPboxFacts();
    var out := Spn.Permutate(w, P);
    var i := P[q];
    assert 0 <= i < 16 && P[i] == q && P[15 - q] == 15 - i;
    Spn.PermutateBits(w, P);
    PermutateBits(WordState(w), P, P);
    WordStateBit(w, i);
    WordStateBit(out, q);
    assert GetBit(out, 15 - q) == GetBit(w, 15 - i);
  }

  /**
   * For the default P-box the browser's scatter and the script's gather
   * permute the same register: reading the script's output as hex digits
   * gives the browser's output on the input's hex digits.
   */
  lemma DefaultPboxAgrees(w: Word)
    ensures WordState(Spn.Permutate(w, DefaultPbox)) == Permutate(WordState(w), DefaultPbox)
  {
    hide Spn.Permutate, Permutate, WordState;
    var a := WordState(Spn.Permutate(w, DefaultPbox));
    var b := Permutate(WordState(w), DefaultPbox);
    forall q | 0 <= q < 16 ensures NibblesToBits(a)[q] == NibblesToBits(b)[q] {
      DefaultPboxAgreesAt(w, q);
    }
    NibblesBitsNibbles(a);
    NibblesBitsNibbles(b);
    assert NibblesToBits(a) == NibblesToBits(b);
  }

  /** spnAddRoundKey: nibble-wise XOR with the key. */
  function AddRoundKey(state: seq<int>, key: seq<int>): (r: seq<int>)
    requires Nibbles(state) && Nibbles(key) && |key| == |state|
    ensures |r| == |state| && Nibbles(r)
  {
    seq(|state|, i requires 0 <= i < |state| => Xor4(state[i], key[i]))
  }

  /** Adding the same key twice gives the state back. */
  lemma AddRoundKeyTwice(state: seq<int>, key: seq<int>)
    requires Nibbles(state) && Nibbles(key) && |key| == |state|
    ensures AddRoundKey(AddRoundKey(state, key), key) == state
  {
    forall i | 0 <= i < |state| ensures AddRoundKey(AddRoundKey(state, key), key)[i] == state[i] {
      Xor4Facts(state[i], key[i]);
    }
  }

  // ---------------------------------------------------------------------------
  // The cipher

  /** A round-key XOR, substitution and permutation, as spnEncrypt does three times. */
  function Round(state: seq<int>, key: seq<int>, sbox: seq<int>, pbox: seq<int>): (r: seq<int>)
    requires IsState(state) && IsState(key) && IsBox(sbox) && IsBox(pbox)
    ensures IsState(r)
  {
    Permutate(Substitute(AddRoundKey(state, key), sbox), pbox)
  }

  /** spnEncrypt: three full rounds, a fourth without permutation, a final key XOR. */
  function Encrypt(state: seq<int>, sbox: seq<int>, pbox: seq<int>,
                   key1: seq<int>, key2: seq<int>, key3: seq<int>, key4: seq<int>, key5: seq<int>): (r: seq<int>)
    requires IsState(state) && IsBox(sbox) && IsBox(pbox)
    requires IsState(key1) && IsState(key2) && IsState(key3) && IsState(key4) && IsState(key5)
    ensures IsState(r)
  {
    var s := Round(Round(Round(state, key1, sbox, pbox), key2, sbox, pbox), key3, sbox, pbox);
    AddRoundKey(Substitute(AddRoundKey(s, key4), sbox), key5)
  }

  /** One round of spnDecrypt: inverse permutation, inverse substitution, key XOR. */
  function InverseRound(state: seq<int>, key: seq<int>, invSbox: seq<int>, invPbox: seq<int>): (r: seq<int>)
    requires IsState(state) && IsState(key) && IsBox(invSbox) && IsBox(invPbox)
    ensures IsState(r)
  {
    AddRoundKey(Substitute(Permutate(state, invPbox), invSbox), key)
  }

  /** spnDecrypt: key-5 XOR, inverse substitution, key-4 XOR, then three inverse rounds with keys 3, 2, 1. */
  function Decrypt(state: seq<int>, invSbox: seq<int>, invPbox: seq<int>,
                   key1: seq<int>, key2: seq<int>, key3: seq<int>, key4: seq<int>, key5: seq<int>): (r: seq<int>)
    requires IsState(state) && IsBox(invSbox) && IsBox(invPbox)
    requires IsState(key1) && IsState(key2) && IsState(key3) && IsState(key4) && IsState(key5)
    ensures IsState(r)
  {
    var s := AddRoundKey(Substitute(AddRoundKey(state, key5), invSbox), key4);
    InverseRound(InverseRound(InverseRound(s, key3, invSbox, invPbox), key2, invSbox, invPbox), key1, invSbox, invPbox)
  }

  lemma UndoRound(state: seq<int>, key: seq<int>, sbox: seq<int>, pbox: seq<int>, invSbox: seq<int>, invPbox: seq<int>)
    requires IsState(state) && IsState(key) && Inverses(sbox, invSbox) && Inverses(pbox, invPbox)
    ensures InverseRound(Round(state, key, sbox, pbox), key, invSbox, invPbox) == state
  {
    var a := AddRoundKey(state, key);
    var b := Substitute(a, sbox);
    PermutateThenInverse(b, pbox, invPbox);
    SubstituteThenInverse(a, sbox, invSbox);
    AddRoundKeyTwice(state, key);
  }

  lemma RedoRound(state: seq<int>, key: seq<int>, sbox: seq<int>, pbox: seq<int>, invSbox: seq<int>, invPbox: seq<int>)
    requires IsState(state) && IsState(key) && Inverses(sbox, invSbox) && Inverses(pbox, invPbox)
    ensures Round(InverseRound(state, key, invSbox, invPbox), key, sbox, pbox) == state
  {
    var a := Permutate(state, invPbox);
    var b := Substitute(a, invSbox);
    AddRoundKeyTwice(b, key);
    SubstituteThenInverse(a, invSbox, sbox);
    PermutateThenInverse(state, invPbox, pbox);
  }

  /** Decryption with the inverse boxes undoes encryption. */
  lemma DecryptEncrypt(state: seq<int>, sbox: seq<int>, pbox: seq<int>, invSbox: seq<int>, invPbox: seq<int>,
                       key1: seq<int>, key2: seq<int>, key3: seq<int>, key4: seq<int>, key5: seq<int>)
    requires IsState(state) && Inverses(sbox, invSbox) && Inverses(pbox, invPbox)
    requires IsState(key1) && IsState(key2) && IsState(key3) && IsState(key4) && IsState(key5)
    ensures Decrypt(Encrypt(state, sbox, pbox, key1, key2, key3, key4, key5), invSbox, invPbox, key1, key2, key3, key4, key5) == state
  {
    var s1 := Round(state, key1, sbox, pbox);
    var s2 := Round(s1, key2, sbox, pbox);
    var s3 := Round(s2, key3, sbox, pbox);
    var a := AddRoundKey(s3, key4);
    var b := Substitute(a, sbox);
    AddRoundKeyTwice(b, key5);
    SubstituteThenInverse(a, sbox, invSbox);
    AddRoundKeyTwice(s3, key4);
    UndoRound(s2, key3, sbox, pbox, invSbox, invPbox);
    UndoRound(s1, key2, sbox, pbox, invSbox, invPbox);
    UndoRound(state, key1, sbox, pbox, invSbox, invPbox);
  }

  /** Encryption undoes decryption with the inverse boxes. */
  lemma EncryptDecrypt(state: seq<int>, sbox: seq<int>, pbox: seq<int>, invSbox: seq<int>, invPbox: seq<int>,
                       key1: seq<int>, key2: seq<int>, key3: seq<int>, key4: seq<int>, key5: seq<int>)
    requires IsState(state) && Inverses(sbox, invSbox) && Inverses(pbox, invPbox)
    requires IsState(key1) && IsState(key2) && IsState(key3) && IsState(key4) && IsState(key5)
    ensures Encrypt(Decrypt(state, invSbox, invPbox, key1, key2, key3, key4, key5), sbox, pbox, key1, key2, key3, key4, key5) == state
  {
    var a := AddRoundKey(state, key5);
    var b := Substitute(a, invSbox);
    var s := AddRoundKey(b, key4);
    var t1 := InverseRound(s, key3, invSbox, invPbox);
    var t2 := InverseRound(t1, key2, invSbox, invPbox);
    RedoRound(t1, key2, sbox, pbox, invSbox, invPbox);
    RedoRound(s, key3, sbox, pbox, invSbox, invPbox);
    RedoRound(t2, key1, sbox, pbox, invSbox, invPbox);
    AddRoundKeyTwice(b, key4);
    SubstituteThenInverse(a, invSbox, sbox);
    AddRoundKeyTwice(state, key5);
  }

  // ---------------------------------------------------------------------------
  // The step-by-step variants

  /** spnEncryptWithSteps: the input and the state after each of the twelve operations. */
  function EncryptWithSteps(state: seq<int>, sbox: seq<int>, pbox: seq<int>,
                            key1: seq<int>, key2: seq<int>, key3: seq<int>, key4: seq<int>, key5: seq<int>): (steps: seq<seq<int>>)
    requires IsState(state) && IsBox(sbox) && IsBox(pbox)
    requires IsState(key1) && IsState(key2) && IsState(key3) && IsState(key4) && IsState(key5)
    ensures |steps| == 13 && steps[0] == state
    ensures steps[12] == Encrypt(state, sbox, pbox, key1, key2, key3, key4, key5)
  {
    var s1 := AddRoundKey(state, key1);
    var s2 := Substitute(s1, sbox);
    var s3 := Permutate(s2, pbox);
    var s4 := AddRoundKey(s3, key2);
    var s5 := Substitute(s4, sbox);
    var s6 := Permutate(s5, pbox);
    var s7 := AddRoundKey(s6, key3);
    var s8 := Substitute(s7, sbox);
    var s9 := Permutate(s8, pbox);
    var s10 := AddRoundKey(s9, key4);
    var s11 := Substitute(s10, sbox);
    var s12 := AddRoundKey(s11, key5);
    [state, s1, s2, s3, s4, s5, s6, s7, s8, s9, s10, s11, s12]
  }

  /** spnDecryptWithSteps: the input and the state after each of the twelve operations. */
  function DecryptWithSteps(state: seq<int>, invSbox: seq<int>, invPbox: seq<int>,
                            key1: seq<int>, key2: seq<int>, key3: seq<int>, key4: seq<int>, key5: seq<int>): (steps: seq<seq<int>>)
    requires IsState(state) && IsBox(invSbox) && IsBox(invPbox)
    requires IsState(key1) && IsState(key2) && IsState(key3) && IsState(key4) && IsState(key5)
    ensures |steps| == 13 && steps[0] == state
    ensures steps[12] == Decrypt(state, invSbox, invPbox, key1, key2, key3, key4, key5)
  {
    var s1 := AddRoundKey(state, key5);
    var s2 := Substitute(s1, invSbox);
    var s3 := AddRoundKey(s2, key4);
    var s4 := Permutate(s3, invPbox);
    var s5 := Substitute(s4, invSbox);
    var s6 := AddRoundKey(s5, key3);
    var s7 := Permutate(s6, invPbox);
    var s8 := Substitute(s7, invSbox);
    var s9 := AddRoundKey(s8, key2);
    var s10 := Permutate(s9, invPbox);
    var s11 := Substitute(s10, invSbox);
    var s12 := AddRoundKey(s11, key1);
    [state, s1, s2, s3, s4, s5, s6, s7, s8, s9, s10, s11, s12]
  }
}
