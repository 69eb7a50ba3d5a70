/**
 * Peeling rounds off a ciphertext with guessed round keys: partial_decryption,
 * break_first_round_key and confirm_key_guesses of spn-diff-crypt.py (the
 * first two appear unchanged in python/spn-diff-crypt-simple.py).
 * The oracle keys KEY1..KEY5 and the random plaintexts are parameters.
 */
module Peel {
  import opened Register
  import opened Spn

  /** encrypt with a list of five round keys, keys[0] being KEY1. */
  function EncryptWith(p: Word, keys: seq<Word>, sbox: seq<int>, pbox: seq<int>): Word
    requires |keys| == 5 && IsBox(sbox) && IsBox(pbox)
  {
    Encrypt(p, keys[0], keys[1], keys[2], keys[3], keys[4], sbox, pbox)
  }

  /** The state after the first n full rounds of encrypt (n <= 3). */
  function Rounds(p: Word, keys: seq<Word>, n: nat, sbox: seq<int>, pbox: seq<int>): Word
    requires |keys| == 5 && n <= 3 && IsBox(sbox) && IsBox(pbox)
  {
    if n == 0 then p else FullRound(Rounds(p, keys, n - 1, sbox, pbox), keys[n - 1], sbox, pbox)
  }

  /** One iteration i of the loop of partial_decryption on one ciphertext. */
  function PeelStep(state: Word, key: Word, i: nat, sbox: seq<int>, pbox: seq<int>): Word
    requires |sbox| == 16 && |pbox| == 16
  {
    var keyed := AddRoundKey(state, key);
    var unpermuted := if i < 4 then Permutate(keyed, InvertBox(pbox)) else keyed;
    Substitute(unpermuted, InvertBox(sbox))
  }

  /** The iterations i = from, from - 1, ..., roundNum + 1 of that loop. */
  function PeelFrom(state: Word, roundKeys: seq<Word>, from: nat, roundNum: nat, sbox: seq<int>, pbox: seq<int>): Word
    requires |roundKeys| == 5 && from <= 4 && |sbox| == 16 && |pbox| == 16
    decreases from
  {
    if from <= roundNum then state
    else PeelFrom(PeelStep(state, roundKeys[from], from, sbox, pbox), roundKeys, from - 1, roundNum, sbox, pbox)
  }

  /**
   * One iteration of the loop, written out: XOR with round key i, then the
   * inverse permutation only when i < 4, then the inverse S-box; the loop
   * stops once i reaches roundNum.
   */
  lemma PeelFromUnfold(state: Word, roundKeys: seq<Word>, from: nat, roundNum: nat, sbox: seq<int>, pbox: seq<int>)
    requires |roundKeys| == 5 && from <= 4 && |sbox| == 16 && |pbox| == 16
    ensures from <= roundNum ==> PeelFrom(state, roundKeys, from, roundNum, sbox, pbox) == state
    ensures roundNum < from < 4 ==>
      PeelFrom(state, roundKeys, from, roundNum, sbox, pbox) ==
      PeelFrom(Substitute(Permutate(AddRoundKey(state, roundKeys[from]), InvertBox(pbox)), InvertBox(sbox)),
               roundKeys, from - 1, roundNum, sbox, pbox)
    ensures roundNum < from == 4 ==>
      PeelFrom(state, roundKeys, from, roundNum, sbox, pbox) ==
      PeelFrom(Substitute(AddRoundKey(state, roundKeys[4]), InvertBox(sbox)), roundKeys, 3, roundNum, sbox, pbox)
  {
  }

  /**
   * Attacking the last round (roundNum 3) peels only the final key XOR and the
   * inverse S-box, with no inverse permutation; attacking round 2 peels that
   * and then a full round with the inverse permutation.
   */
  lemma PeelLastRounds(ciphertext: Word, roundKeys: seq<Word>, sbox: seq<int>, pbox: seq<int>)
    requires |roundKeys| == 5 && |sbox| == 16 && |pbox| == 16
    ensures PeelFrom(ciphertext, roundKeys, 4, 3, sbox, pbox) ==
      Substitute(AddRoundKey(ciphertext, roundKeys[4]), InvertBox(sbox))
    ensures PeelFrom(ciphertext, roundKeys, 4, 2, sbox, pbox) ==
      Substitute(Permutate(AddRoundKey(Substitute(AddRoundKey(ciphertext, roundKeys[4]), InvertBox(sbox)), roundKeys[3]),
                           InvertBox(pbox)), InvertBox(sbox))
  {
    var peeled := Substitute(AddRoundKey(ciphertext, roundKeys[4]), InvertBox(sbox));
    PeelFromUnfold(ciphertext, roundKeys, 4, 3, sbox, pbox);
    PeelFromUnfold(peeled, roundKeys, 3, 3, sbox, pbox);
    PeelFromUnfold(ciphertext, roundKeys, 4, 2, sbox, pbox);
    var peeled2 := Substitute(Permutate(AddRoundKey(peeled, roundKeys[3]), InvertBox(pbox)), InvertBox(sbox));
    PeelFromUnfold(peeled, roundKeys, 3, 2, sbox, pbox);
    PeelFromUnfold(peeled2, roundKeys, 2, 2, sbox, pbox);
  }

  /** The value partial_decryption returns. */
  function PartialXor(roundNum: nat, ciphertext1: Word, ciphertext2: Word, roundKeys: seq<Word>,
                      sbox: seq<int>, pbox: seq<int>): Word
    requires |roundKeys| == 5 && |sbox| == 16 && |pbox| == 16
  {
    PeelFrom(ciphertext1, roundKeys, 4, roundNum, sbox, pbox) ^ PeelFrom(ciphertext2, roundKeys, 4, roundNum, sbox, pbox)
  }

  // ---------------------------------------------------------------------------
  // What peeling recovers

  /**
   * The state the loop of partial_decryption holds before iteration `from`
   * when the keys are right: the ciphertext for from = 4, otherwise the
   * input of the S-boxes of round from + 1.
   */
  function Stage(p: Word, keys: seq<Word>, from: nat, sbox: seq<int>, pbox: seq<int>): Word
    requires |keys| == 5 && from <= 4 && IsBox(sbox) && IsBox(pbox)
  {
    if from == 4 then EncryptWith(p, keys, sbox, pbox)
    else AddRoundKey(Rounds(p, keys, from, sbox, pbox), keys[from])
  }

  /** encrypt is three full rounds followed by the last round. */
  lemma EncryptIsRounds(p: Word, keys: seq<Word>, sbox: seq<int>, pbox: seq<int>)
    requires |keys| == 5 && IsBox(sbox) && IsBox(pbox)
    ensures EncryptWith(p, keys, sbox, pbox) == LastRound(Rounds(p, keys, 3, sbox, pbox), keys[3], keys[4], sbox)
  {
    hide FullRound, LastRound;
    assert Rounds(p, keys, 1, sbox, pbox) == FullRound(p, keys[0], sbox, pbox);
  }

  /** Iteration 4 with the right key takes the ciphertext to the S-box input of round 4. */
  lemma PeelLastStage(p: Word, keys: seq<Word>, sbox: seq<int>, pbox: seq<int>)
    requires |keys| == 5 && ValidBox(sbox) && ValidBox(pbox)
    ensures IsBox(sbox) && IsBox(pbox)
    ensures PeelStep(Stage(p, keys, 4, sbox, pbox), keys[4], 4, sbox, pbox) == Stage(p, keys, 3, sbox, pbox)
  {
    ValidBoxIsPermutation(sbox);
    ValidBoxIsPermutation(pbox);
    EncryptIsRounds(p, keys, sbox, pbox);
    hide Substitute, Permutate, InvertBox, Rounds, EncryptWith;
    var below := AddRoundKey(Rounds(p, keys, 3, sbox, pbox), keys[3]);
    AddRoundKeyTwice(Substitute(below, sbox), keys[4]);
    SubstituteThenInverse(below, sbox);
  }

  /** Iteration from < 4 with the right key takes the S-box input of round from + 1 to that of round from. */
  lemma PeelFullStage(p: Word, keys: seq<Word>, from: nat, sbox: seq<int>, pbox: seq<int>)
    requires |keys| == 5 && 1 <= from <= 3 && ValidBox(sbox) && ValidBox(pbox)
    ensures IsBox(sbox) && IsBox(pbox)
    ensures PeelStep(Stage(p, keys, from, sbox, pbox), keys[from], from, sbox, pbox) == Stage(p, keys, from - 1, sbox, pbox)
  {
    ValidBoxIsPermutation(sbox);
    ValidBoxIsPermutation(pbox);
    var below := AddRoundKey(Rounds(p, keys, from - 1, sbox, pbox), keys[from - 1]);
    assert Rounds(p, keys, from, sbox, pbox) == Permutate(Substitute(below, sbox), pbox);
    hide Substitute, Permutate, InvertBox, Rounds;
    AddRoundKeyTwice(Rounds(p, keys, from, sbox, pbox), keys[from]);
    PermutateThenInverse(Substitute(below, sbox), pbox);
    SubstituteThenInverse(below, sbox);
  }

  /** One iteration with the right key takes a stage to the one below it. */
  lemma PeelStepStage(p: Word, keys: seq<Word>, from: nat, sbox: seq<int>, pbox: seq<int>)
    requires |keys| == 5 && 1 <= from <= 4 && ValidBox(sbox) && ValidBox(pbox)
    ensures IsBox(sbox) && IsBox(pbox)
    ensures PeelStep(Stage(p, keys, from, sbox, pbox), keys[from], from, sbox, pbox) == Stage(p, keys, from - 1, sbox, pbox)
  {
    if from == 4 {
      PeelLastStage(p, keys, sbox, pbox);
    } else {
      PeelFullStage(p, keys, from, sbox, pbox);
    }
  }

  lemma {:induction false} PeelFromStage(p: Word, keys: seq<Word>, roundKeys: seq<Word>, from: nat, roundNum: nat,
                                         sbox: seq<int>, pbox: seq<int>)
    requires |keys| == 5 && |roundKeys| == 5 && roundNum <= from <= 4 && roundNum <= 3
    requires ValidBox(sbox) && ValidBox(pbox)
    requires forall i :: roundNum < i < 5 ==> roundKeys[i] == keys[i]
    ensures IsBox(sbox) && IsBox(pbox)
    ensures PeelFrom(Stage(p, keys, from, sbox, pbox), roundKeys, from, roundNum, sbox, pbox) == Stage(p, keys, roundNum, sbox, pbox)
  {
    ValidBoxIsPermutation(sbox);
    ValidBoxIsPermutation(pbox);
    if from > roundNum {
      var x := Stage(p, keys, from, sbox, pbox);
      assert PeelFrom(x, roundKeys, from, roundNum, sbox, pbox) ==
        PeelFrom(PeelStep(x, roundKeys[from], from, sbox, pbox), roundKeys, from - 1, roundNum, sbox, pbox);
      hide PeelFrom, Stage, PeelStep, EncryptWith, Rounds;
      assert roundKeys[from] == keys[from];
      PeelStepStage(p, keys, from, sbox, pbox);
      PeelFromStage(p, keys, roundKeys, from - 1, roundNum, sbox, pbox);
    }
  }

  /**
   * With the right keys above roundNum, peeling a ciphertext yields the input
   * of the S-boxes of round roundNum + 1: the state after roundNum full rounds
   * XORed with the key of round roundNum + 1.
   */
  lemma PeelEncrypt(p: Word, keys: seq<Word>, roundKeys: seq<Word>, roundNum: nat, sbox: seq<int>, pbox: seq<int>)
    requires |keys| == 5 && |roundKeys| == 5 && roundNum <= 3
    requires ValidBox(sbox) && ValidBox(pbox)
    requires forall i :: roundNum < i < 5 ==> roundKeys[i] == keys[i]
    ensures IsBox(sbox) && IsBox(pbox)
    ensures PeelFrom(EncryptWith(p, keys, sbox, pbox), roundKeys, 4, roundNum, sbox, pbox) ==
      AddRoundKey(Rounds(p, keys, roundNum, sbox, pbox), keys[roundNum])
  {
    PeelFromStage(p, keys, roundKeys, 4, roundNum, sbox, pbox);
  }

  /**
   * The point of the attack: with the right keys above roundNum, the value of
   * partial_decryption on the encryptions of two plaintexts is the XOR of the
   * two states after roundNum full rounds (the round key cancels out), so it
   * can be compared with the output XOR of a roundNum-round trail.
   */
  lemma PartialXorIsRoundDifference(p1: Word, p2: Word, keys: seq<Word>, roundKeys: seq<Word>, roundNum: nat,
                                    sbox: seq<int>, pbox: seq<int>)
    requires |keys| == 5 && |roundKeys| == 5 && roundNum <= 3
    requires ValidBox(sbox) && ValidBox(pbox)
    requires forall i :: roundNum < i < 5 ==> roundKeys[i] == keys[i]
    ensures IsBox(sbox) && IsBox(pbox)
    ensures PartialXor(roundNum, EncryptWith(p1, keys, sbox, pbox), EncryptWith(p2, keys, sbox, pbox), roundKeys, sbox, pbox) ==
      Rounds(p1, keys, roundNum, sbox, pbox) ^ Rounds(p2, keys, roundNum, sbox, pbox)
  {
    PeelEncrypt(p1, keys, roundKeys, roundNum, sbox, pbox);
    PeelEncrypt(p2, keys, roundKeys, roundNum, sbox, pbox);
    var k := keys[roundNum];
    var a, b := Rounds(p1, keys, roundNum, sbox, pbox), Rounds(p2, keys, roundNum, sbox, pbox);
    assert (a ^ k) ^ (b ^ k) == a ^ b;
  }

  // ---------------------------------------------------------------------------
  // The first round key

  /**
   * break_first_round_key: encrypts one plaintext with the oracle keys,
   * undoes rounds four to two with round_keys[4..1] and XORs what is left
   * with the plaintext.
   */
  function BreakFirstRoundKey(roundKeys: seq<Word>, plaintext: Word, keys: seq<Word>,
                              sbox: seq<int>, pbox: seq<int>): (key1: Word)
    requires |roundKeys| == 5 && |keys| == 5 && IsBox(sbox) && IsBox(pbox)
  {
    var ciphertext := EncryptWith(plaintext, keys, sbox, pbox);
    var c4 := Substitute(AddRoundKey(ciphertext, roundKeys[4]), InvertBox(sbox));
    var c3 := Substitute(Permutate(AddRoundKey(c4, roundKeys[3]), InvertBox(pbox)), InvertBox(sbox));
    var c2 := Substitute(Permutate(AddRoundKey(c3, roundKeys[2]), InvertBox(pbox)), InvertBox(sbox));
    var c1 := Substitute(Permutate(AddRoundKey(c2, roundKeys[1]), InvertBox(pbox)), InvertBox(sbox));
    plaintext ^ c1
  }

  /** The steps of break_first_round_key are the loop of partial_decryption for round 0. */
  lemma BreakFirstRoundKeyPeels(roundKeys: seq<Word>, plaintext: Word, keys: seq<Word>, sbox: seq<int>, pbox: seq<int>)
    requires |roundKeys| == 5 && |keys| == 5 && IsBox(sbox) && IsBox(pbox)
    ensures BreakFirstRoundKey(roundKeys, plaintext, keys, sbox, pbox) ==
      plaintext ^ PeelFrom(EncryptWith(plaintext, keys, sbox, pbox), roundKeys, 4, 0, sbox, pbox)
  {
    hide Substitute, Permutate, InvertBox, EncryptWith;
    var c := EncryptWith(plaintext, keys, sbox, pbox);
    var c4 := PeelStep(c, roundKeys[4], 4, sbox, pbox);
    var c3 := PeelStep(c4, roundKeys[3], 3, sbox, pbox);
    var c2 := PeelStep(c3, roundKeys[2], 2, sbox, pbox);
    var c1 := PeelStep(c2, roundKeys[1], 1, sbox, pbox);
    assert PeelFrom(c, roundKeys, 4, 0, sbox, pbox) == PeelFrom(c4, roundKeys, 3, 0, sbox, pbox);
    assert PeelFrom(c4, roundKeys, 3, 0, sbox, pbox) == PeelFrom(c3, roundKeys, 2, 0, sbox, pbox);
    assert PeelFrom(c3, roundKeys, 2, 0, sbox, pbox) == PeelFrom(c2, roundKeys, 1, 0, sbox, pbox);
    assert PeelFrom(c2, roundKeys, 1, 0, sbox, pbox) == c1;
  }

  /** With round_keys[1..4] equal to KEY2..KEY5, the first key comes out exactly, whatever the plaintext. */
  lemma BreakFirstRoundKeyCorrect(roundKeys: seq<Word>, plaintext: Word, keys: seq<Word>, sbox: seq<int>, pbox: seq<int>)
    requires |roundKeys| == 5 && |keys| == 5 && ValidBox(sbox) && ValidBox(pbox)
    requires roundKeys[1..] == keys[1..]
    ensures IsBox(sbox) && IsBox(pbox)
    ensures BreakFirstRoundKey(roundKeys, plaintext, keys, sbox, pbox) == keys[0]
  {
    ValidBoxIsPermutation(sbox);
    ValidBoxIsPermutation(pbox);
    forall i | 0 < i < 5 ensures roundKeys[i] == keys[i] {
      assert roundKeys[1..][i - 1] == keys[1..][i - 1];
    }
    BreakFirstRoundKeyPeels(roundKeys, plaintext, keys, sbox, pbox);
    PeelEncrypt(plaintext, keys, roundKeys, 0, sbox, pbox);
    assert plaintext ^ (plaintext ^ keys[0]) == keys[0];
  }

  // ---------------------------------------------------------------------------
  // Confirmation

  /**
   * confirm_key_guesses: the guessed keys are accepted when they encrypt each
   * of the given plaintexts (five random ones in spn-diff-crypt.py) as the oracle
   * keys do; the first disagreement rejects them.
   */
  method ConfirmKeyGuesses(roundKeys: seq<Word>, plaintexts: seq<Word>, keys: seq<Word>,
                           sbox: seq<int>, pbox: seq<int>) returns (confirmed: bool)
    requires |roundKeys| == 5 && |keys| == 5 && IsBox(sbox) && IsBox(pbox)
    ensures confirmed <==> forall i :: 0 <= i < |plaintexts| ==>
      EncryptWith(plaintexts[i], roundKeys, sbox, pbox) == EncryptWith(plaintexts[i], keys, sbox, pbox)
  {
    for i := 0 to |plaintexts|
      invariant forall k :: 0 <= k < i ==>
        EncryptWith(plaintexts[k], roundKeys, sbox, pbox) == EncryptWith(plaintexts[k], keys, sbox, pbox)
    {
      var encryptionGuess := EncryptWith(plaintexts[i], roundKeys, sbox, pbox);
      var encryptionCorrect := EncryptWith(plaintexts[i], keys, sbox, pbox);
      if encryptionGuess != encryptionCorrect {
        return false;
      }
    }
    return true;
  }
}
