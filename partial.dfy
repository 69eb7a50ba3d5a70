/**
 * partial_decryption of spn-diff-crypt.py: peels the rounds above the
 * attacked one off a pair of ciphertexts, as the loop of the Python function does.
 */
module Partial {
  import opened Register
  import opened Spn
  import opened Peel

  /**
   * partial_decryption: undoes the rounds above roundNum on both ciphertexts
   * (key XOR, then the inverse permutation except in the fourth round, then
   * the inverse S-box) and XORs the two results.
   */
  method PartialDecryption(roundNum: nat, ciphertext1: Word, ciphertext2: Word, roundKeys: seq<Word>,
                           sbox: seq<int>, pbox: seq<int>) returns (partialXor: Word)
    requires |roundKeys| == 5 && |sbox| == 16 && |pbox| == 16
    ensures partialXor == PartialXor(roundNum, ciphertext1, ciphertext2, roundKeys, sbox, pbox)
  {
    hide PeelFrom;
    var text1, text2 := PeelPair(roundNum, ciphertext1, ciphertext2, roundKeys, sbox, pbox);
    partialXor := text1 ^ text2;
  }

  /** The loop of partial_decryption, which peels the same rounds off both ciphertexts. */
  method PeelPair(roundNum: nat, ciphertext1: Word, ciphertext2: Word, roundKeys: seq<Word>,
                  sbox: seq<int>, pbox: seq<int>) returns (text1: Word, text2: Word)
    requires |roundKeys| == 5 && |sbox| == 16 && |pbox| == 16
    ensures text1 == PeelFrom(ciphertext1, roundKeys, 4, roundNum, sbox, pbox)
    ensures text2 == PeelFrom(ciphertext2, roundKeys, 4, roundNum, sbox, pbox)
  {
    hide Substitute, Permutate, InvertBox, PeelFrom;
    text1, text2 := ciphertext1, ciphertext2;
    var i := 4;
    while i > roundNum
      invariant 0 <= i <= 4 && (i < 4 ==> roundNum <= i)
      invariant PeelFrom(text1, roundKeys, i, roundNum, sbox, pbox) == PeelFrom(ciphertext1, roundKeys, 4, roundNum, sbox, pbox)
      invariant PeelFrom(text2, roundKeys, i, roundNum, sbox, pbox) == PeelFrom(ciphertext2, roundKeys, 4, roundNum, sbox, pbox)
      decreases i
    {
      PeelFromUnfold(text1, roundKeys, i, roundNum, sbox, pbox);
      PeelFromUnfold(text2, roundKeys, i, roundNum, sbox, pbox);
      text1 := AddRoundKey(text1, roundKeys[i]);
      text2 := AddRoundKey(text2, roundKeys[i]);
      if i < 4 {
        text1 := Permutate(text1, InvertBox(pbox));
        text2 := Permutate(text2, InvertBox(pbox));
      }
      text1 := Substitute(text1, InvertBox(sbox));
      text2 := Substitute(text2, InvertBox(sbox));
      i := i - 1;
    }
    PeelFromUnfold(text1, roundKeys, i, roundNum, sbox, pbox);
    PeelFromUnfold(text2, roundKeys, i, roundNum, sbox, pbox);
  }
}
