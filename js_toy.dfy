/**
 * The browser implementation of the 4-bit toy cipher (js/toy.js): the same
 * cipher c = S(p ^ k1) ^ k2 as toy-cipher-diff-crypt.py, with the S-box
 * passed before the keys and the inverse S-box passed in by the caller, plus
 * the step-by-step variants the visualisation draws from.
 */
module JsToy {
  import opened Register
  import opened Spn
  import Toy

  /** box and inv undo each other on both sides. */
  predicate Inverses(box: seq<int>, inv: seq<int>)
  {
    IsBox(box) && IsBox(inv) &&
    (forall i :: 0 <= i < 16 ==> inv[box[i]] == i) &&
    (forall v :: 0 <= v < 16 ==> box[inv[v]] == v)
  }

  /** The INV_SBOX / INV_PBOX formula of the SPN script gives such an inverse for every valid box. */
  lemma InvertBoxInverses(box: seq<int>)
    requires ValidBox(box)
    ensures Inverses(box, InvertBox(box))
  {
    InvertBoxInverse(box);
  }

  /** nibbleToBits: the four bits of a nibble, the most significant first (`(n >> 3) & 1`, ..., `n & 1`). */
  function NibbleToBits(nibble: int): (bits: seq<int>)
    requires 0 <= nibble < 16
    ensures |bits| == 4 && forall k :: 0 <= k < 4 ==> bits[k] == 0 || bits[k] == 1
  {
    [(nibble / 8) % 2, (nibble / 4) % 2, (nibble / 2) % 2, nibble % 2]
  }

  /** The bits, read as a binary numeral, give the nibble back. */
  lemma NibbleToBitsWeights(nibble: int)
    requires 0 <= nibble < 16
    ensures var bits := NibbleToBits(nibble);
      8 * bits[0] + 4 * bits[1] + 2 * bits[2] + bits[3] == nibble
  {
    var b := NibbleToBits(nibble);
    assert nibble == 8 * (nibble / 8) + nibble % 8;
    assert nibble % 8 == 4 * ((nibble / 4) % 2) + nibble % 4;
    assert nibble % 4 == 2 * ((nibble / 2) % 2) + nibble % 2;
  }

  /** Four bits, the most significant first, are the bits of the nibble they spell. */
  lemma BitsToNibbleBits(b0: int, b1: int, b2: int, b3: int)
    requires (b0 == 0 || b0 == 1) && (b1 == 0 || b1 == 1) && (b2 == 0 || b2 == 1) && (b3 == 0 || b3 == 1)
    ensures NibbleToBits(8 * b0 + 4 * b1 + 2 * b2 + b3) == [b0, b1, b2, b3]
  {
    var n := 8 * b0 + 4 * b1 + 2 * b2 + b3;
    assert n / 8 == b0 && n / 4 == 2 * b0 + b1 && n / 2 == 4 * b0 + 2 * b1 + b2;
  }

  /** toySubstitute: the S-box lookup. */
  function Substitute(state: int, sbox: seq<int>): (r: int)
    requires IsBox(sbox) && 0 <= state < 16
    ensures 0 <= r < 16
  {
    sbox[state]
  }

  /** toyAddRoundKey: XOR with the key. */
  function AddRoundKey(state: int, key: int): (r: int)
    requires 0 <= state < 16 && 0 <= key < 16
    ensures 0 <= r < 16
  {
    Xor4(state, key)
  }

  /** Adding the same key twice gives the state back. */
  lemma AddRoundKeyTwice(state: int, key: int)
    requires 0 <= state < 16 && 0 <= key < 16
    ensures AddRoundKey(AddRoundKey(state, key), key) == state
  {
    Xor4Facts(state, key);
  }

  /** toyEncrypt: key-1 XOR, substitution, key-2 XOR. */
  function Encrypt(state: int, sbox: seq<int>, key1: int, key2: int): (r: int)
    requires IsBox(sbox) && 0 <= state < 16 && 0 <= key1 < 16 && 0 <= key2 < 16
    ensures 0 <= r < 16
  {
    AddRoundKey(Substitute(AddRoundKey(state, key1), sbox), key2)
  }

  /** toyDecrypt: key-2 XOR, substitution through the given inverse box, key-1 XOR. */
  function Decrypt(state: int, invSbox: seq<int>, key1: int, key2: int): (r: int)
    requires IsBox(invSbox) && 0 <= state < 16 && 0 <= key1 < 16 && 0 <= key2 < 16
    ensures 0 <= r < 16
  {
    AddRoundKey(Substitute(AddRoundKey(state, key2), invSbox), key1)
  }

  /** Decryption with the inverse box undoes encryption. */
  lemma DecryptEncrypt(state: int, sbox: seq<int>, invSbox: seq<int>, key1: int, key2: int)
    requires Inverses(sbox, invSbox) && 0 <= state < 16 && 0 <= key1 < 16 && 0 <= key2 < 16
    ensures Decrypt(Encrypt(state, sbox, key1, key2), invSbox, key1, key2) == state
  {
    var x := AddRoundKey(state, key1);
    AddRoundKeyTwice(Substitute(x, sbox), key2);
    AddRoundKeyTwice(state, key1);
  }

  /** Encryption undoes decryption with the inverse box. */
  lemma EncryptDecrypt(state: int, sbox: seq<int>, invSbox: seq<int>, key1: int, key2: int)
    requires Inverses(sbox, invSbox) && 0 <= state < 16 && 0 <= key1 < 16 && 0 <= key2 < 16
    ensures Encrypt(Decrypt(state, invSbox, key1, key2), sbox, key1, key2) == state
  {
    var y := AddRoundKey(state, key2);
    AddRoundKeyTwice(Substitute(y, invSbox), key1);
    AddRoundKeyTwice(state, key2);
  }

  /** The browser cipher and the Python toy cipher agree; with calculate_inv_sbox's box so do the decryptions. */
  lemma AgreesWithPython(state: int, sbox: seq<int>, key1: int, key2: int)
    requires IsBox(sbox) && 0 <= state < 16 && 0 <= key1 < 16 && 0 <= key2 < 16
    ensures Encrypt(state, sbox, key1, key2) == Toy.ToyEncrypt(state, key1, key2, sbox)
    ensures Decrypt(state, Toy.InvSbox(sbox), key1, key2) == Toy.ToyDecrypt(state, key1, key2, sbox)
  {
  }

  /** toyEncryptWithSteps: the input, then the state after each of the three operations. */
  function EncryptWithSteps(state: int, sbox: seq<int>, key1: int, key2: int): (steps: seq<int>)
    requires IsBox(sbox) && 0 <= state < 16 && 0 <= key1 < 16 && 0 <= key2 < 16
    ensures |steps| == 4 && steps[0] == state && steps[3] == Encrypt(state, sbox, key1, key2)
  {
    var s1 := AddRoundKey(state, key1);
    var s2 := Substitute(s1, sbox);
    var s3 := AddRoundKey(s2, key2);
    [state, s1, s2, s3]
  }

  /** toyDecryptWithSteps: the input, then the state after each of the three operations. */
  function DecryptWithSteps(state: int, invSbox: seq<int>, key1: int, key2: int): (steps: seq<int>)
    requires IsBox(invSbox) && 0 <= state < 16 && 0 <= key1 < 16 && 0 <= key2 < 16
    ensures |steps| == 4 && steps[0] == state && steps[3] == Decrypt(state, invSbox, key1, key2)
  {
    var s1 := AddRoundKey(state, key2);
    var s2 := Substitute(s1, invSbox);
    var s3 := AddRoundKey(s2, key1);
    [state, s1, s2, s3]
  }
}
