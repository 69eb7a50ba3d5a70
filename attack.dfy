/**
 * Counting votes for guessed round-key bits: partial_decryption,
 * guess_key_bits and break_key_bits of spn-diff-crypt.py. The dictionary
 * key_count_dict is a class whose entries keep Python's insertion order;
 * its keys are the guessed words themselves (the Python code formats them as
 * hexadecimal strings and parses them back, a bijection on 16-bit values).
 */
module Attack {
  import opened Wrappers
  import opened Register
  import opened Spn
  import opened Sorting
  import opened Trails
  import opened KeyMask
  import opened Peel
  import opened Partial

  // ---------------------------------------------------------------------------
  // key_count_dict

  /** The keys of the dictionary in insertion order. */
  function Keys(entries: seq<(Word, nat)>): (r: seq<Word>)
    ensures |r| == |entries| && forall i :: 0 <= i < |entries| ==> r[i] == entries[i].0
  {
    if |entries| == 0 then [] else [entries[0].0] + Keys(entries[1..])
  }

  /** The count stored for key, 0 when the key is absent. */
  function Lookup(entries: seq<(Word, nat)>, key: Word): nat
  {
    if |entries| == 0 then 0
    else if entries[0].0 == key then entries[0].1
    else Lookup(entries[1..], key)
  }

  /** One vote for key: a new entry with count 1 at the end, or the existing count plus one. */
  function Tally(entries: seq<(Word, nat)>, key: Word): seq<(Word, nat)>
  {
    if |entries| == 0 then [(key, 1)]
    else if entries[0].0 == key then [(key, entries[0].1 + 1)] + entries[1..]
    else [entries[0]] + Tally(entries[1..], key)
  }

  /** The position of the first entry for key, which is present. */
  function KeyPosition(entries: seq<(Word, nat)>, key: Word): (i: nat)
    requires key in Keys(entries)
    ensures i < |entries| && entries[i].0 == key
    ensures forall k :: 0 <= k < i ==> entries[k].0 != key
  {
    if entries[0].0 == key then 0
    else
      assert Keys(entries) == [entries[0].0] + Keys(entries[1..]);
      KeyPosition(entries[1..], key) + 1
  }

  /** No key occurs twice. */
  predicate DistinctKeys(entries: seq<(Word, nat)>)
  {
    forall i, j :: 0 <= i < j < |entries| ==> entries[i].0 != entries[j].0
  }

  /** The count of a present key is the one stored at its first position. */
  lemma {:induction false} LookupAt(entries: seq<(Word, nat)>, key: Word)
    requires key in Keys(entries)
    ensures Lookup(entries, key) == entries[KeyPosition(entries, key)].1
  {
    if entries[0].0 != key {
      assert Keys(entries) == [entries[0].0] + Keys(entries[1..]);
      LookupAt(entries[1..], key);
    }
  }

  /** A vote adds one to the voted key and leaves every other count alone. */
  lemma {:induction false} TallyLookup(entries: seq<(Word, nat)>, key: Word, other: Word)
    ensures Lookup(Tally(entries, key), other) == Lookup(entries, other) + (if other == key then 1 else 0)
  {
    if |entries| > 0 && entries[0].0 != key {
      TallyLookup(entries[1..], key, other);
      assert Tally(entries, key)[1..] == Tally(entries[1..], key);
    }
  }

  /** A vote keeps the existing keys in place and appends a key it has not seen. */
  lemma {:induction false} TallyKeys(entries: seq<(Word, nat)>, key: Word)
    ensures Keys(Tally(entries, key)) == if key in Keys(entries) then Keys(entries) else Keys(entries) + [key]
  {
    if |entries| > 0 && entries[0].0 != key {
      TallyKeys(entries[1..], key);
      assert Tally(entries, key)[1..] == Tally(entries[1..], key);
      assert Keys(entries) == [entries[0].0] + Keys(entries[1..]);
      assert Keys(Tally(entries, key)) == [entries[0].0] + Keys(Tally(entries[1..], key));
    }
  }

  /** A vote keeps the keys distinct. */
  lemma TallyDistinct(entries: seq<(Word, nat)>, key: Word)
    requires DistinctKeys(entries)
    ensures DistinctKeys(Tally(entries, key))
  {
    TallyKeys(entries, key);
    var r := Tally(entries, key);
    forall i, j | 0 <= i < j < |r| ensures r[i].0 != r[j].0 {
      assert Keys(r)[i] == r[i].0 && Keys(r)[j] == r[j].0;
      if key !in Keys(entries) && j == |entries| {
        assert Keys(entries)[i] == r[i].0;
      } else {
        assert Keys(entries)[i] == r[i].0 && Keys(entries)[j] == r[j].0;
      }
    }
  }

  /** The first branch of the dictionary update in guess_key_bits: a new key is appended with count 1. */
  lemma {:induction false} TallyAbsent(entries: seq<(Word, nat)>, key: Word)
    requires key !in Keys(entries)
    ensures Tally(entries, key) == entries + [(key, 1)]
  {
    if |entries| > 0 {
      assert Keys(entries) == [entries[0].0] + Keys(entries[1..]);
      TallyAbsent(entries[1..], key);
      assert entries + [(key, 1)] == [entries[0]] + (entries[1..] + [(key, 1)]);
    }
  }

  /** The second branch: the count at the first position of a known key goes up by one in place. */
  lemma {:induction false} TallyPresent(entries: seq<(Word, nat)>, key: Word, i: nat)
    requires i < |entries| && entries[i].0 == key
    requires forall k :: 0 <= k < i ==> entries[k].0 != key
    ensures Tally(entries, key) == entries[i := (key, entries[i].1 + 1)]
  {
    if i > 0 {
      TallyPresent(entries[1..], key, i - 1);
      assert Tally(entries, key) == [entries[0]] + Tally(entries[1..], key);
      UpdateAfterHead(entries, i - 1, (key, entries[i].1 + 1));
    } else {
      assert entries[0 := (key, entries[0].1 + 1)] == [(key, entries[0].1 + 1)] + entries[1..];
    }
  }

  lemma UpdateAfterHead<T>(s: seq<T>, i: nat, v: T)
    requires i + 1 < |s|
    ensures [s[0]] + s[1..][i := v] == s[i + 1 := v]
  {
  }

  /**
   * key_count_dict: guessed key bits with the number of ciphertext pairs
   * they matched, in the order the keys were first counted.
   */
  class KeyCountDict {
    var entries: seq<(Word, nat)>

    constructor ()
      ensures entries == []
    {
      entries := [];
    }

    /** The update of guess_key_bits: a new key starts at 1, a known key is incremented. */
    method Count(key: Word)
      modifies this
      ensures entries == Tally(old(entries), key)
    {
      if key !in Keys(entries) {
        TallyAbsent(entries, key);
        entries := entries + [(key, 1)];
      } else {
        var i := KeyPosition(entries, key);
        TallyPresent(entries, key, i);
        entries := entries[i := (key, entries[i].1 + 1)];
      }
    }
  }

  // ---------------------------------------------------------------------------
  // guess_key_bits

  /** Whether the guessed key bits make the partial decryption of the ciphertext pair equal outputXor. */
  predicate Matches(roundNum: nat, ciphertext1: Word, ciphertext2: Word, outputXor: Word, roundKeys: seq<Word>,
                    guess: Word, sbox: seq<int>, pbox: seq<int>)
    requires roundNum < 4 && |roundKeys| == 5 && |sbox| == 16 && |pbox| == 16
  {
    PartialXor(roundNum, ciphertext1, ciphertext2, roundKeys[roundNum + 1 := guess], sbox, pbox) == outputXor
  }

  /** The dictionary after guesses 0..n-1 of one ciphertext pair. */
  function Votes(entries: seq<(Word, nat)>, roundNum: nat, ciphertext1: Word, ciphertext2: Word, outputXor: Word,
                 mask: Word, roundKeys: seq<Word>, sbox: seq<int>, pbox: seq<int>, n: nat): seq<(Word, nat)>
    requires roundNum < 4 && |roundKeys| == 5 && |sbox| == 16 && |pbox| == 16
  {
    if n == 0 then entries
    else
      var prev := Votes(entries, roundNum, ciphertext1, ciphertext2, outputXor, mask, roundKeys, sbox, pbox, n - 1);
      var guess := Guess(mask, n - 1);
      if Matches(roundNum, ciphertext1, ciphertext2, outputXor, roundKeys, guess, sbox, pbox) then Tally(prev, guess) else prev
  }

  /** The test of the inner loop of guess_key_bits, for a positive place value div. */
  lemma TakesCondition(i: nat, div: nat)
    requires div >= 1
    ensures (i > div - 1 && i % (div * 2) >= div) <==> (i / div) % 2 == 1
  {
    ModDouble(i, div);
    assert div * 2 == 2 * div;
    if (i / div) % 2 == 1 {
      assert i / div >= 1;
      MulAtLeast(i / div, div);
    }
  }

  /**
   * The inner loop of guess_key_bits for guess number i: walks the sixteen
   * bit positions, halving the place value div at every mask bit and setting
   * the bit when the place value's digit of i is one.
   */
  method BuildKeyGuess(breakingKeyBits: Word, i: nat, totalNeededKeyGuesses: nat) returns (keyGuessBits: Word)
    requires totalNeededKeyGuesses == NumGuesses(breakingKeyBits)
    ensures keyGuessBits == Guess(breakingKeyBits, i)
  {
    hide GetBit, WithBit, SetBit, GuessUpTo, Takes, Span;
    keyGuessBits := 0;
    var div := totalNeededKeyGuesses / 2;
    GuessUpToStep(breakingKeyBits, i, 0);
    for j := 0 to 16
      invariant keyGuessBits == GuessUpTo(breakingKeyBits, i, j)
      invariant div == Span(breakingKeyBits, j) / 2
    {
      PlaceStep(breakingKeyBits, j);
      GuessUpToStep(breakingKeyBits, i, j);
      if GetBit(breakingKeyBits, j) == 1 {
        TakesCondition(i, div);
        if i > div - 1 && i % (div * 2) >= div {
          SetBitOne(keyGuessBits, j);
          keyGuessBits := SetBit(keyGuessBits, j, 1).value;
        }
        div := div / 2;
      }
    }
  }

  lemma GuessUpToStep(mask: Word, i: nat, j: nat)
    requires j < 16
    ensures Takes(mask, i, j) <==> GetBit(mask, j) == 1 && (i / Span(mask, j + 1)) % 2 == 1
    ensures GuessUpTo(mask, i, 0) == 0
    ensures GuessUpTo(mask, i, j + 1) ==
      if Takes(mask, i, j) then WithBit(GuessUpTo(mask, i, j), j, 1) else GuessUpTo(mask, i, j)
  {
    hide GetBit, WithBit, Span;
  }

  lemma SetBitOne(w: Word, j: nat)
    requires j < 16
    ensures SetBit(w, j, 1) == Some(WithBit(w, j, 1))
  {
    hide WithBit;
  }

  /**
   * guess_key_bits: tries every assignment of the bits of breakingKeyBits as
   * round key roundNum + 1 (written into roundKeys, as spn-diff-crypt.py does) and
   * counts the assignments under which the partial decryption of the
   * ciphertext pair yields outputXor.
   */
  method GuessKeyBits(roundNum: nat, ciphertext1: Word, ciphertext2: Word, outputXor: Word,
                      keyCountDict: KeyCountDict, breakingKeyBits: Word, roundKeys: array<Word>,
                      sbox: seq<int>, pbox: seq<int>)
    requires roundNum < 4 && roundKeys.Length == 5 && |sbox| == 16 && |pbox| == 16
    modifies keyCountDict, roundKeys
    ensures keyCountDict.entries == Votes(old(keyCountDict.entries), roundNum, ciphertext1, ciphertext2, outputXor,
      breakingKeyBits, old(roundKeys[..]), sbox, pbox, NumGuesses(breakingKeyBits))
    ensures roundKeys[..] == old(roundKeys[..])[roundNum + 1 := breakingKeyBits]
  {
    hide Guess, PartialXor, Tally, Matches, OnesFrom;
    ghost var entries0 := keyCountDict.entries;
    ghost var roundKeys0 := roundKeys[..];
    var count := CountOneBits(breakingKeyBits);
    var totalNeededKeyGuesses := Pow2(count);
    assert totalNeededKeyGuesses == NumGuesses(breakingKeyBits) >= 1;
    for i := 0 to totalNeededKeyGuesses
      invariant keyCountDict.entries ==
        Votes(entries0, roundNum, ciphertext1, ciphertext2, outputXor, breakingKeyBits, roundKeys0, sbox, pbox, i)
      invariant roundKeys[..] == if i == 0 then roundKeys0 else roundKeys0[roundNum + 1 := Guess(breakingKeyBits, i - 1)]
    {
      var keyGuessBits := BuildKeyGuess(breakingKeyBits, i, totalNeededKeyGuesses);
      roundKeys[roundNum + 1] := keyGuessBits;
      assert roundKeys[..] == roundKeys0[roundNum + 1 := keyGuessBits];
      var partialXor := PartialDecryption(roundNum, ciphertext1, ciphertext2, roundKeys[..], sbox, pbox);
      VotesUnfold(entries0, roundNum, ciphertext1, ciphertext2, outputXor, breakingKeyBits, roundKeys0, sbox, pbox, i + 1);
      if partialXor == outputXor {
        keyCountDict.Count(keyGuessBits);
      }
    }
    LastGuessIsMask(breakingKeyBits);
    assert roundKeys[..] == roundKeys0[roundNum + 1 := Guess(breakingKeyBits, totalNeededKeyGuesses - 1)];
  }

  lemma VotesUnfold(entries: seq<(Word, nat)>, roundNum: nat, ciphertext1: Word, ciphertext2: Word, outputXor: Word,
                    mask: Word, roundKeys: seq<Word>, sbox: seq<int>, pbox: seq<int>, n: nat)
    requires roundNum < 4 && |roundKeys| == 5 && |sbox| == 16 && |pbox| == 16 && n >= 1
    ensures Votes(entries, roundNum, ciphertext1, ciphertext2, outputXor, mask, roundKeys, sbox, pbox, n) ==
      var prev := Votes(entries, roundNum, ciphertext1, ciphertext2, outputXor, mask, roundKeys, sbox, pbox, n - 1);
      var guess := Guess(mask, n - 1);
      if PartialXor(roundNum, ciphertext1, ciphertext2, roundKeys[roundNum + 1 := guess], sbox, pbox) == outputXor
      then Tally(prev, guess) else prev
  {
  }

  // ---------------------------------------------------------------------------
  // What the votes of one ciphertext pair amount to

  /** Guess number i is g exactly when g is a sub-mask whose own number is i. */
  lemma GuessIs(mask: Word, i: nat, g: Word)
    requires i < NumGuesses(mask)
    ensures Guess(mask, i) == g <==> IsSubMask(g, mask) && Extract(mask, g) == i
  {
    if Guess(mask, i) == g {
      GuessBits(mask, i);
      ExtractGuess(mask, i);
    }
    if IsSubMask(g, mask) && Extract(mask, g) == i {
      GuessExtract(mask, g);
    }
  }

  /**
   * After the first n guesses, a key has gained one vote exactly when it is
   * a sub-mask among those n guesses and matches.
   */
  lemma {:induction false} VotesLookup(entries: seq<(Word, nat)>, roundNum: nat, ciphertext1: Word, ciphertext2: Word,
                                      outputXor: Word, mask: Word, roundKeys: seq<Word>, sbox: seq<int>, pbox: seq<int>,
                                      n: nat, key: Word)
    requires roundNum < 4 && |roundKeys| == 5 && |sbox| == 16 && |pbox| == 16 && n <= NumGuesses(mask)
    ensures Lookup(Votes(entries, roundNum, ciphertext1, ciphertext2, outputXor, mask, roundKeys, sbox, pbox, n), key) ==
      Lookup(entries, key) +
      if IsSubMask(key, mask) && Extract(mask, key) < n &&
         Matches(roundNum, ciphertext1, ciphertext2, outputXor, roundKeys, key, sbox, pbox) then 1 else 0
  {
    if n > 0 {
      hide IsSubMask, Extract, Guess, Matches, NumGuesses, Tally, Lookup, Votes;
      VotesLookup(entries, roundNum, ciphertext1, ciphertext2, outputXor, mask, roundKeys, sbox, pbox, n - 1, key);
      var prev := Votes(entries, roundNum, ciphertext1, ciphertext2, outputXor, mask, roundKeys, sbox, pbox, n - 1);
      var guess := Guess(mask, n - 1);
      var hit := Matches(roundNum, ciphertext1, ciphertext2, outputXor, roundKeys, guess, sbox, pbox);
      VotesStep(entries, roundNum, ciphertext1, ciphertext2, outputXor, mask, roundKeys, sbox, pbox, n);
      GuessIs(mask, n - 1, key);
      TallyLookup(prev, guess, key);
      var sub, index := IsSubMask(key, mask), Extract(mask, key);
      var now := Votes(entries, roundNum, ciphertext1, ciphertext2, outputXor, mask, roundKeys, sbox, pbox, n);
      if guess == key {
        assert sub && index == n - 1;
        assert Lookup(now, key) == Lookup(prev, key) + if hit then 1 else 0;
      } else {
        assert !(sub && index == n - 1);
        assert Lookup(now, key) == Lookup(prev, key);
      }
    }
  }

  lemma VotesStep(entries: seq<(Word, nat)>, roundNum: nat, ciphertext1: Word, ciphertext2: Word, outputXor: Word,
                  mask: Word, roundKeys: seq<Word>, sbox: seq<int>, pbox: seq<int>, n: nat)
    requires roundNum < 4 && |roundKeys| == 5 && |sbox| == 16 && |pbox| == 16 && n >= 1
    ensures Votes(entries, roundNum, ciphertext1, ciphertext2, outputXor, mask, roundKeys, sbox, pbox, n) ==
      var prev := Votes(entries, roundNum, ciphertext1, ciphertext2, outputXor, mask, roundKeys, sbox, pbox, n - 1);
      var guess := Guess(mask, n - 1);
      if Matches(roundNum, ciphertext1, ciphertext2, outputXor, roundKeys, guess, sbox, pbox) then Tally(prev, guess) else prev
  {
    hide Guess, Matches, Tally;
  }

  /** One ciphertext pair gives one vote to every sub-mask that matches and to nothing else. */
  lemma VotesCount(entries: seq<(Word, nat)>, roundNum: nat, ciphertext1: Word, ciphertext2: Word, outputXor: Word,
                   mask: Word, roundKeys: seq<Word>, sbox: seq<int>, pbox: seq<int>, key: Word)
    requires roundNum < 4 && |roundKeys| == 5 && |sbox| == 16 && |pbox| == 16
    ensures Lookup(Votes(entries, roundNum, ciphertext1, ciphertext2, outputXor, mask, roundKeys, sbox, pbox, NumGuesses(mask)), key) ==
      Lookup(entries, key) +
      if IsSubMask(key, mask) && Matches(roundNum, ciphertext1, ciphertext2, outputXor, roundKeys, key, sbox, pbox) then 1 else 0
  {
    hide Votes, Matches, Lookup, Extract;
    VotesLookup(entries, roundNum, ciphertext1, ciphertext2, outputXor, mask, roundKeys, sbox, pbox, NumGuesses(mask), key);
    if IsSubMask(key, mask) {
      GuessExtract(mask, key);
    }
  }

  /** Every key of later that is not a key of earlier is a sub-mask of mask. */
  predicate NewKeysWithin(later: seq<(Word, nat)>, earlier: seq<(Word, nat)>, mask: Word)
  {
    forall k :: k in Keys(later) ==> k in Keys(earlier) || IsSubMask(k, mask)
  }

  lemma TallyNewKeys(prev: seq<(Word, nat)>, entries: seq<(Word, nat)>, mask: Word, guess: Word)
    requires NewKeysWithin(prev, entries, mask) && IsSubMask(guess, mask)
    ensures NewKeysWithin(Tally(prev, guess), entries, mask)
  {
    hide IsSubMask, Tally;
    TallyKeys(prev, guess);
  }

  /** The votes keep the keys distinct. */
  lemma {:induction false} VotesDistinct(entries: seq<(Word, nat)>, roundNum: nat, ciphertext1: Word, ciphertext2: Word,
                                        outputXor: Word, mask: Word, roundKeys: seq<Word>, sbox: seq<int>, pbox: seq<int>, n: nat)
    requires roundNum < 4 && |roundKeys| == 5 && |sbox| == 16 && |pbox| == 16
    requires DistinctKeys(entries)
    ensures DistinctKeys(Votes(entries, roundNum, ciphertext1, ciphertext2, outputXor, mask, roundKeys, sbox, pbox, n))
  {
    if n > 0 {
      hide Guess, Matches, DistinctKeys, Tally;
      VotesDistinct(entries, roundNum, ciphertext1, ciphertext2, outputXor, mask, roundKeys, sbox, pbox, n - 1);
      var prev := Votes(entries, roundNum, ciphertext1, ciphertext2, outputXor, mask, roundKeys, sbox, pbox, n - 1);
      TallyDistinct(prev, Guess(mask, n - 1));
    }
  }

  /** The votes add only sub-masks of the mask as keys. */
  lemma {:induction false} VotesNewKeys(entries: seq<(Word, nat)>, roundNum: nat, ciphertext1: Word, ciphertext2: Word,
                                       outputXor: Word, mask: Word, roundKeys: seq<Word>, sbox: seq<int>, pbox: seq<int>, n: nat)
    requires roundNum < 4 && |roundKeys| == 5 && |sbox| == 16 && |pbox| == 16
    ensures NewKeysWithin(Votes(entries, roundNum, ciphertext1, ciphertext2, outputXor, mask, roundKeys, sbox, pbox, n), entries, mask)
  {
    if n > 0 {
      hide Guess, Matches, NewKeysWithin, Tally, IsSubMask;
      VotesNewKeys(entries, roundNum, ciphertext1, ciphertext2, outputXor, mask, roundKeys, sbox, pbox, n - 1);
      var prev := Votes(entries, roundNum, ciphertext1, ciphertext2, outputXor, mask, roundKeys, sbox, pbox, n - 1);
      GuessBits(mask, n - 1);
      TallyNewKeys(prev, entries, mask, Guess(mask, n - 1));
    } else {
      assert NewKeysWithin(entries, entries, mask);
    }
  }

  /** Matching does not depend on the round key the guess overwrites. */
  lemma MatchesIgnoreGuessedKey(roundNum: nat, ciphertext1: Word, ciphertext2: Word, outputXor: Word, roundKeys: seq<Word>,
                                other: Word, guess: Word, sbox: seq<int>, pbox: seq<int>)
    requires roundNum < 4 && |roundKeys| == 5 && |sbox| == 16 && |pbox| == 16
    ensures Matches(roundNum, ciphertext1, ciphertext2, outputXor, roundKeys, guess, sbox, pbox) ==
      Matches(roundNum, ciphertext1, ciphertext2, outputXor, roundKeys[roundNum + 1 := other], guess, sbox, pbox)
  {
    hide PartialXor;
    assert roundKeys[roundNum + 1 := other][roundNum + 1 := guess] == roundKeys[roundNum + 1 := guess];
  }

  /** The votes do not depend on the round key the guesses overwrite. */
  lemma {:induction false} VotesIgnoreGuessedKey(entries: seq<(Word, nat)>, roundNum: nat, ciphertext1: Word, ciphertext2: Word,
                                                outputXor: Word, mask: Word, roundKeys: seq<Word>, other: Word,
                                                sbox: seq<int>, pbox: seq<int>, n: nat)
    requires roundNum < 4 && |roundKeys| == 5 && |sbox| == 16 && |pbox| == 16
    ensures Votes(entries, roundNum, ciphertext1, ciphertext2, outputXor, mask, roundKeys, sbox, pbox, n) ==
      Votes(entries, roundNum, ciphertext1, ciphertext2, outputXor, mask, roundKeys[roundNum + 1 := other], sbox, pbox, n)
  {
    if n > 0 {
      hide PartialXor, Guess, Tally, Matches;
      VotesIgnoreGuessedKey(entries, roundNum, ciphertext1, ciphertext2, outputXor, mask, roundKeys, other, sbox, pbox, n - 1);
      MatchesIgnoreGuessedKey(roundNum, ciphertext1, ciphertext2, outputXor, roundKeys, other, Guess(mask, n - 1), sbox, pbox);
    }
  }

  // ---------------------------------------------------------------------------
  // Reading counts out of the dictionary

  /** A key that was never counted has count 0. */
  lemma {:induction false} LookupAbsent(entries: seq<(Word, nat)>, key: Word)
    requires key !in Keys(entries)
    ensures Lookup(entries, key) == 0
  {
    if |entries| > 0 {
      assert Keys(entries) == [entries[0].0] + Keys(entries[1..]);
      LookupAbsent(entries[1..], key);
    }
  }

  /** With distinct keys, the count of an entry's key is that entry's count. */
  lemma {:induction false} LookupDistinct(entries: seq<(Word, nat)>, e: (Word, nat))
    requires DistinctKeys(entries) && e in entries
    ensures Lookup(entries, e.0) == e.1
  {
    if entries[0] != e {
      assert e in entries[1..];
      LookupDistinct(entries[1..], e);
    }
  }

  /** Every count in the dictionary is at least 1. */
  predicate PositiveCounts(entries: seq<(Word, nat)>)
  {
    forall i :: 0 <= i < |entries| ==> entries[i].1 >= 1
  }

  lemma {:induction false} TallyPositive(entries: seq<(Word, nat)>, key: Word)
    requires PositiveCounts(entries)
    ensures PositiveCounts(Tally(entries, key))
  {
    if |entries| > 0 && entries[0].0 != key {
      TallyPositive(entries[1..], key);
      assert Tally(entries, key) == [entries[0]] + Tally(entries[1..], key);
    }
  }

  lemma {:induction false} VotesPositive(entries: seq<(Word, nat)>, roundNum: nat, ciphertext1: Word, ciphertext2: Word,
                                        outputXor: Word, mask: Word, roundKeys: seq<Word>, sbox: seq<int>, pbox: seq<int>, n: nat)
    requires roundNum < 4 && |roundKeys| == 5 && |sbox| == 16 && |pbox| == 16
    requires PositiveCounts(entries)
    ensures PositiveCounts(Votes(entries, roundNum, ciphertext1, ciphertext2, outputXor, mask, roundKeys, sbox, pbox, n))
  {
    if n > 0 {
      hide Guess, Matches, PositiveCounts, Tally;
      VotesPositive(entries, roundNum, ciphertext1, ciphertext2, outputXor, mask, roundKeys, sbox, pbox, n - 1);
      var prev := Votes(entries, roundNum, ciphertext1, ciphertext2, outputXor, mask, roundKeys, sbox, pbox, n - 1);
      TallyPositive(prev, Guess(mask, n - 1));
    }
  }

  /** A key present with positive counts has a positive count. */
  lemma LookupPresent(entries: seq<(Word, nat)>, key: Word)
    requires PositiveCounts(entries) && key in Keys(entries)
    ensures Lookup(entries, key) >= 1
  {
    LookupAt(entries, key);
  }

  // ---------------------------------------------------------------------------
  // break_key_bits

  /** MIN_NUM_OPTIONS: how many candidate partial subkeys break_key_bits returns. */
  const MinNumOptions: nat := 3

  /** The order of sorting by count with reverse=True: more votes first, ties in dictionary order. */
  predicate MoreVotes(a: (Word, nat), b: (Word, nat))
  {
    a.1 > b.1
  }

  lemma MoreVotesIsStrict()
    ensures StrictOrder(MoreVotes)
  {
  }

  /** The ciphertext pair break_key_bits derives from a plaintext: both encrypted under the secret keys. */
  function PairOf(plaintext: Word, inputXor: Word, keys: seq<Word>, sbox: seq<int>, pbox: seq<int>): (Word, Word)
    requires |keys| == 5 && IsBox(sbox) && IsBox(pbox)
  {
    (EncryptWith(plaintext, keys, sbox, pbox), EncryptWith(plaintext ^ inputXor, keys, sbox, pbox))
  }

  /** The dictionary after the ciphertext pairs of all the plaintexts. */
  function Tallies(entries: seq<(Word, nat)>, roundNum: nat, plaintexts: seq<Word>, inputXor: Word, outputXor: Word,
                   mask: Word, roundKeys: seq<Word>, keys: seq<Word>, sbox: seq<int>, pbox: seq<int>): seq<(Word, nat)>
    requires roundNum < 4 && |roundKeys| == 5 && |keys| == 5 && IsBox(sbox) && IsBox(pbox)
  {
    if |plaintexts| == 0 then entries
    else
      var prev := Tallies(entries, roundNum, plaintexts[..|plaintexts| - 1], inputXor, outputXor, mask, roundKeys, keys, sbox, pbox);
      var pair := PairOf(plaintexts[|plaintexts| - 1], inputXor, keys, sbox, pbox);
      Votes(prev, roundNum, pair.0, pair.1, outputXor, mask, roundKeys, sbox, pbox, NumGuesses(mask))
  }

  /** How many of the plaintexts give a ciphertext pair that guess matches. */
  function MatchingPairs(roundNum: nat, plaintexts: seq<Word>, inputXor: Word, outputXor: Word, roundKeys: seq<Word>,
                         guess: Word, keys: seq<Word>, sbox: seq<int>, pbox: seq<int>): nat
    requires roundNum < 4 && |roundKeys| == 5 && |keys| == 5 && IsBox(sbox) && IsBox(pbox)
  {
    if |plaintexts| == 0 then 0
    else
      var pair := PairOf(plaintexts[|plaintexts| - 1], inputXor, keys, sbox, pbox);
      MatchingPairs(roundNum, plaintexts[..|plaintexts| - 1], inputXor, outputXor, roundKeys, guess, keys, sbox, pbox) +
      if Matches(roundNum, pair.0, pair.1, outputXor, roundKeys, guess, sbox, pbox) then 1 else 0
  }

  /** The count of a key is the number of pairs it matches when it is a sub-mask, and unchanged otherwise. */
  lemma {:induction false} TalliesLookup(entries: seq<(Word, nat)>, roundNum: nat, plaintexts: seq<Word>, inputXor: Word,
                                        outputXor: Word, mask: Word, roundKeys: seq<Word>, keys: seq<Word>,
                                        sbox: seq<int>, pbox: seq<int>, key: Word)
    requires roundNum < 4 && |roundKeys| == 5 && |keys| == 5 && IsBox(sbox) && IsBox(pbox)
    ensures Lookup(Tallies(entries, roundNum, plaintexts, inputXor, outputXor, mask, roundKeys, keys, sbox, pbox), key) ==
      Lookup(entries, key) +
      if IsSubMask(key, mask) then MatchingPairs(roundNum, plaintexts, inputXor, outputXor, roundKeys, key, keys, sbox, pbox) else 0
  {
    if |plaintexts| > 0 {
      hide Votes, Matches, IsSubMask, Lookup, PairOf, NumGuesses;
      var init := plaintexts[..|plaintexts| - 1];
      TalliesLookup(entries, roundNum, init, inputXor, outputXor, mask, roundKeys, keys, sbox, pbox, key);
      var prev := Tallies(entries, roundNum, init, inputXor, outputXor, mask, roundKeys, keys, sbox, pbox);
      var pair := PairOf(plaintexts[|plaintexts| - 1], inputXor, keys, sbox, pbox);
      VotesCount(prev, roundNum, pair.0, pair.1, outputXor, mask, roundKeys, sbox, pbox, key);
    }
  }

  /** The dictionary keeps distinct keys with positive counts and gains only sub-masks of the mask. */
  lemma {:induction false} TalliesKeys(entries: seq<(Word, nat)>, roundNum: nat, plaintexts: seq<Word>, inputXor: Word,
                                      outputXor: Word, mask: Word, roundKeys: seq<Word>, keys: seq<Word>,
                                      sbox: seq<int>, pbox: seq<int>)
    requires roundNum < 4 && |roundKeys| == 5 && |keys| == 5 && IsBox(sbox) && IsBox(pbox)
    requires DistinctKeys(entries) && PositiveCounts(entries)
    ensures var r := Tallies(entries, roundNum, plaintexts, inputXor, outputXor, mask, roundKeys, keys, sbox, pbox);
      DistinctKeys(r) && PositiveCounts(r) && NewKeysWithin(r, entries, mask)
  {
    if |plaintexts| > 0 {
      hide Votes, DistinctKeys, PositiveCounts, NewKeysWithin, PairOf, NumGuesses;
      var init := plaintexts[..|plaintexts| - 1];
      TalliesKeys(entries, roundNum, init, inputXor, outputXor, mask, roundKeys, keys, sbox, pbox);
      var prev := Tallies(entries, roundNum, init, inputXor, outputXor, mask, roundKeys, keys, sbox, pbox);
      var pair := PairOf(plaintexts[|plaintexts| - 1], inputXor, keys, sbox, pbox);
      var n := NumGuesses(mask);
      VotesDistinct(prev, roundNum, pair.0, pair.1, outputXor, mask, roundKeys, sbox, pbox, n);
      VotesPositive(prev, roundNum, pair.0, pair.1, outputXor, mask, roundKeys, sbox, pbox, n);
      VotesNewKeys(prev, roundNum, pair.0, pair.1, outputXor, mask, roundKeys, sbox, pbox, n);
      NewKeysWithinTrans(Tallies(entries, roundNum, plaintexts, inputXor, outputXor, mask, roundKeys, keys, sbox, pbox),
        prev, entries, mask);
    } else {
      hide DistinctKeys, PositiveCounts, IsSubMask;
      assert NewKeysWithin(entries, entries, mask);
    }
  }

  lemma NewKeysWithinTrans(c: seq<(Word, nat)>, b: seq<(Word, nat)>, a: seq<(Word, nat)>, mask: Word)
    requires NewKeysWithin(c, b, mask) && NewKeysWithin(b, a, mask)
    ensures NewKeysWithin(c, a, mask)
  {
    hide IsSubMask;
  }

  /** The candidates break_key_bits keeps: the MIN_NUM_OPTIONS entries with the most votes. */
  function MostProbable(entries: seq<(Word, nat)>): seq<(Word, nat)>
  {
    Take(SortBy(entries, MoreVotes), MinNumOptions)
  }

  /**
   * r holds min(MIN_NUM_OPTIONS, |entries|) of the entries, in descending
   * order of votes, and none of the entries left out has more votes than any
   * of r.
   */
  predicate TopOf(r: seq<(Word, nat)>, entries: seq<(Word, nat)>)
  {
    |r| == (if |entries| < MinNumOptions then |entries| else MinNumOptions) &&
    multiset(r) <= multiset(entries) && SortedBy(r, MoreVotes) &&
    forall i, e :: 0 <= i < |r| && e in entries && e !in r ==> r[i].1 >= e.1
  }

  lemma TopLength(r: seq<(Word, nat)>, entries: seq<(Word, nat)>)
    requires TopOf(r, entries)
    ensures |r| <= MinNumOptions
  {
  }

  /** The kept candidates are the top entries of the dictionary. */
  lemma MostProbableTop(entries: seq<(Word, nat)>)
    ensures TopOf(MostProbable(entries), entries)
  {
    MoreVotesIsStrict();
    SortByIsSorted(entries, MoreVotes);
    hide StrictOrder, SortedBy;
    PrefixTop(SortBy(entries, MoreVotes), entries);
  }

  /** The first MIN_NUM_OPTIONS entries of a sorted arrangement of the entries are the top ones. */
  lemma PrefixTop(sorted: seq<(Word, nat)>, entries: seq<(Word, nat)>)
    requires SortedBy(sorted, MoreVotes) && multiset(sorted) == multiset(entries)
    ensures TopOf(Take(sorted, MinNumOptions), entries)
  {
    var r := Take(sorted, MinNumOptions);
    assert r == sorted[..|r|];
    assert sorted == r + sorted[|r|..];
    assert multiset(sorted) == multiset(r) + multiset(sorted[|r|..]);
    forall i, e | 0 <= i < |r| && e in entries && e !in r
      ensures r[i].1 >= e.1
    {
      assert e in multiset(sorted);
      assert e !in multiset(r);
      assert e in multiset(sorted[|r|..]);
      var j :| 0 <= j < |sorted[|r|..]| && sorted[|r|..][j] == e;
      assert sorted[|r| + j] == e;
      assert !MoreVotes(sorted[|r| + j], sorted[i]);
    }
  }

  /**
   * break_key_bits: for every chosen plaintext, encrypts it and its partner
   * (XOR inputXor) under the secret keys, lets guess_key_bits vote on the
   * pair, and returns the keys of the MIN_NUM_OPTIONS entries with the most
   * votes, ties in first-counted order.
   */
  method BreakKeyBits(roundNum: nat, plaintexts: seq<Word>, inputXor: Word, outputXor: Word, breakingKeyBits: Word,
                      roundKeys: array<Word>, keys: seq<Word>, sbox: seq<int>, pbox: seq<int>)
    returns (mostProbableKeys: seq<Word>)
    requires roundNum < 4 && roundKeys.Length == 5 && |keys| == 5 && IsBox(sbox) && IsBox(pbox)
    modifies roundKeys
    ensures mostProbableKeys == Keys(MostProbable(Tallies([], roundNum, plaintexts, inputXor, outputXor, breakingKeyBits,
      old(roundKeys[..]), keys, sbox, pbox)))
    ensures roundKeys[..] == if |plaintexts| == 0 then old(roundKeys[..]) else old(roundKeys[..])[roundNum + 1 := breakingKeyBits]
  {
    var keyCountDict := CountKeyGuesses(roundNum, plaintexts, inputXor, outputXor, breakingKeyBits, roundKeys, keys, sbox, pbox);
    mostProbableKeys := Keys(Take(SortBy(keyCountDict.entries, MoreVotes), MinNumOptions));
  }

  /**
   * The counting loop of break_key_bits: encrypts every chosen plaintext and
   * its partner under the oracle keys and lets guess_key_bits vote.
   */
  method CountKeyGuesses(roundNum: nat, plaintexts: seq<Word>, inputXor: Word, outputXor: Word, breakingKeyBits: Word,
                         roundKeys: array<Word>, keys: seq<Word>, sbox: seq<int>, pbox: seq<int>)
    returns (keyCountDict: KeyCountDict)
    requires roundNum < 4 && roundKeys.Length == 5 && |keys| == 5 && IsBox(sbox) && IsBox(pbox)
    modifies roundKeys
    ensures fresh(keyCountDict)
    ensures keyCountDict.entries == Tallies([], roundNum, plaintexts, inputXor, outputXor, breakingKeyBits,
      old(roundKeys[..]), keys, sbox, pbox)
    ensures roundKeys[..] == if |plaintexts| == 0 then old(roundKeys[..]) else old(roundKeys[..])[roundNum + 1 := breakingKeyBits]
  {
    hide Votes, EncryptWith, NumGuesses;
    ghost var roundKeys0 := roundKeys[..];
    keyCountDict := new KeyCountDict();
    for i := 0 to |plaintexts|
      invariant fresh(keyCountDict)
      invariant keyCountDict.entries ==
        Tallies([], roundNum, plaintexts[..i], inputXor, outputXor, breakingKeyBits, roundKeys0, keys, sbox, pbox)
      invariant roundKeys[..] == if i == 0 then roundKeys0 else roundKeys0[roundNum + 1 := breakingKeyBits]
    {
      var text1 := plaintexts[i];
      var text2 := text1 ^ inputXor;
      text1 := EncryptWith(text1, keys, sbox, pbox);
      text2 := EncryptWith(text2, keys, sbox, pbox);
      ghost var entries := keyCountDict.entries;
      GuessKeyBits(roundNum, text1, text2, outputXor, keyCountDict, breakingKeyBits, roundKeys, sbox, pbox);
      VotesIgnoreGuessedKey(entries, roundNum, text1, text2, outputXor, breakingKeyBits, roundKeys0, breakingKeyBits,
        sbox, pbox, NumGuesses(breakingKeyBits));
      assert plaintexts[..i + 1][..i] == plaintexts[..i];
    }
    assert plaintexts[..|plaintexts|] == plaintexts;
  }

  /**
   * What break_key_bits returns: at most MIN_NUM_OPTIONS sub-masks of the
   * mask, each matched by at least one ciphertext pair, and no sub-mask left
   * out is matched by more pairs than any returned one.
   */
  lemma BreakKeyBitsRanks(roundNum: nat, plaintexts: seq<Word>, inputXor: Word, outputXor: Word, mask: Word,
                          roundKeys: seq<Word>, keys: seq<Word>, sbox: seq<int>, pbox: seq<int>)
    requires roundNum < 4 && |roundKeys| == 5 && |keys| == 5 && IsBox(sbox) && IsBox(pbox)
    ensures var result := Keys(MostProbable(Tallies([], roundNum, plaintexts, inputXor, outputXor, mask, roundKeys, keys, sbox, pbox)));
      |result| <= MinNumOptions &&
      (forall i :: 0 <= i < |result| ==>
        IsSubMask(result[i], mask) &&
        MatchingPairs(roundNum, plaintexts, inputXor, outputXor, roundKeys, result[i], keys, sbox, pbox) >= 1) &&
      (forall i, g :: 0 <= i < |result| && IsSubMask(g, mask) && g !in result ==>
        (MatchingPairs(roundNum, plaintexts, inputXor, outputXor, roundKeys, g, keys, sbox, pbox) <=
         MatchingPairs(roundNum, plaintexts, inputXor, outputXor, roundKeys, result[i], keys, sbox, pbox))) &&
      (forall i, j :: 0 <= i < j < |result| ==>
        MatchingPairs(roundNum, plaintexts, inputXor, outputXor, roundKeys, result[i], keys, sbox, pbox) >=
        MatchingPairs(roundNum, plaintexts, inputXor, outputXor, roundKeys, result[j], keys, sbox, pbox)) &&
      (|result| < MinNumOptions ==> forall g ::
        (IsSubMask(g, mask) && MatchingPairs(roundNum, plaintexts, inputXor, outputXor, roundKeys, g, keys, sbox, pbox) >= 1)
        ==> g in result)
  {
    hide Tallies, MostProbable, MatchingPairs, IsSubMask;
    BreakKeyBitsKept(roundNum, plaintexts, inputXor, outputXor, mask, roundKeys, keys, sbox, pbox);
    BreakKeyBitsOrdered(roundNum, plaintexts, inputXor, outputXor, mask, roundKeys, keys, sbox, pbox);
  }

  /** The first half of BreakKeyBitsRanks: what is kept, and that nothing left out outranks it. */
  lemma BreakKeyBitsKept(roundNum: nat, plaintexts: seq<Word>, inputXor: Word, outputXor: Word, mask: Word,
                         roundKeys: seq<Word>, keys: seq<Word>, sbox: seq<int>, pbox: seq<int>)
    requires roundNum < 4 && |roundKeys| == 5 && |keys| == 5 && IsBox(sbox) && IsBox(pbox)
    ensures var result := Keys(MostProbable(Tallies([], roundNum, plaintexts, inputXor, outputXor, mask, roundKeys, keys, sbox, pbox)));
      |result| <= MinNumOptions &&
      (forall i :: 0 <= i < |result| ==>
        IsSubMask(result[i], mask) &&
        MatchingPairs(roundNum, plaintexts, inputXor, outputXor, roundKeys, result[i], keys, sbox, pbox) >= 1) &&
      (forall i, g :: 0 <= i < |result| && IsSubMask(g, mask) && g !in result ==>
        (MatchingPairs(roundNum, plaintexts, inputXor, outputXor, roundKeys, g, keys, sbox, pbox) <=
         MatchingPairs(roundNum, plaintexts, inputXor, outputXor, roundKeys, result[i], keys, sbox, pbox)))
  {
    TalliesKeys([], roundNum, plaintexts, inputXor, outputXor, mask, roundKeys, keys, sbox, pbox);
    hide Tallies, MostProbable, MatchingPairs, IsSubMask, TopOf, DistinctKeys, PositiveCounts, NewKeysWithin;
    var tallies := Tallies([], roundNum, plaintexts, inputXor, outputXor, mask, roundKeys, keys, sbox, pbox);
    var top := MostProbable(tallies);
    MostProbableTop(tallies);
    TopLength(top, tallies);
    TopEntries(tallies, top, roundNum, plaintexts, inputXor, outputXor, mask, roundKeys, keys, sbox, pbox);
    LeftOutEntries(tallies, top, roundNum, plaintexts, inputXor, outputXor, mask, roundKeys, keys, sbox, pbox);
  }

  /** The second half of BreakKeyBitsRanks: the order of what is kept, and that a short result is complete. */
  lemma BreakKeyBitsOrdered(roundNum: nat, plaintexts: seq<Word>, inputXor: Word, outputXor: Word, mask: Word,
                            roundKeys: seq<Word>, keys: seq<Word>, sbox: seq<int>, pbox: seq<int>)
    requires roundNum < 4 && |roundKeys| == 5 && |keys| == 5 && IsBox(sbox) && IsBox(pbox)
    ensures var result := Keys(MostProbable(Tallies([], roundNum, plaintexts, inputXor, outputXor, mask, roundKeys, keys, sbox, pbox)));
      (forall i, j :: 0 <= i < j < |result| ==>
        MatchingPairs(roundNum, plaintexts, inputXor, outputXor, roundKeys, result[i], keys, sbox, pbox) >=
        MatchingPairs(roundNum, plaintexts, inputXor, outputXor, roundKeys, result[j], keys, sbox, pbox)) &&
      (|result| < MinNumOptions ==> forall g ::
        (IsSubMask(g, mask) && MatchingPairs(roundNum, plaintexts, inputXor, outputXor, roundKeys, g, keys, sbox, pbox) >= 1)
        ==> g in result)
  {
    TalliesKeys([], roundNum, plaintexts, inputXor, outputXor, mask, roundKeys, keys, sbox, pbox);
    hide Tallies, MostProbable, MatchingPairs, IsSubMask, TopOf, DistinctKeys, PositiveCounts, NewKeysWithin;
    var tallies := Tallies([], roundNum, plaintexts, inputXor, outputXor, mask, roundKeys, keys, sbox, pbox);
    var top := MostProbable(tallies);
    MostProbableTop(tallies);
    TopEntries(tallies, top, roundNum, plaintexts, inputXor, outputXor, mask, roundKeys, keys, sbox, pbox);
    TopOrdered(tallies, top, roundNum, plaintexts, inputXor, outputXor, mask, roundKeys, keys, sbox, pbox);
    if |top| < MinNumOptions {
      TopComplete(tallies, top, roundNum, plaintexts, inputXor, outputXor, mask, roundKeys, keys, sbox, pbox);
    }
  }

  /** The keys kept are in descending order of matched pairs. */
  lemma TopOrdered(tallies: seq<(Word, nat)>, top: seq<(Word, nat)>, roundNum: nat, plaintexts: seq<Word>,
                   inputXor: Word, outputXor: Word, mask: Word, roundKeys: seq<Word>, keys: seq<Word>,
                   sbox: seq<int>, pbox: seq<int>)
    requires roundNum < 4 && |roundKeys| == 5 && |keys| == 5 && IsBox(sbox) && IsBox(pbox)
    requires TopOf(top, tallies)
    requires forall i :: 0 <= i < |top| ==>
      MatchingPairs(roundNum, plaintexts, inputXor, outputXor, roundKeys, top[i].0, keys, sbox, pbox) == top[i].1
    ensures forall i, j :: 0 <= i < j < |top| ==>
      MatchingPairs(roundNum, plaintexts, inputXor, outputXor, roundKeys, Keys(top)[i], keys, sbox, pbox) >=
      MatchingPairs(roundNum, plaintexts, inputXor, outputXor, roundKeys, Keys(top)[j], keys, sbox, pbox)
  {
    hide MatchingPairs, TopOf;
    TopDescending(top, tallies);
  }

  /** The entries kept are in descending order of votes. */
  lemma TopDescending(top: seq<(Word, nat)>, entries: seq<(Word, nat)>)
    requires TopOf(top, entries)
    ensures forall i, j :: 0 <= i < j < |top| ==> top[i].1 >= top[j].1
  {
    forall i, j | 0 <= i < j < |top| ensures top[i].1 >= top[j].1 {
      assert !MoreVotes(top[j], top[i]);
    }
  }

  /** Fewer than MIN_NUM_OPTIONS entries kept means every entry was kept. */
  lemma TopKeepsAll(top: seq<(Word, nat)>, entries: seq<(Word, nat)>)
    requires TopOf(top, entries) && |top| < MinNumOptions
    ensures forall e :: e in entries ==> e in top
  {
    var rest := multiset(entries) - multiset(top);
    assert multiset(entries) == multiset(top) + rest;
    assert |rest| == 0;
    assert multiset(entries) == multiset(top);
    forall e | e in entries ensures e in top {
      assert e in multiset(entries);
    }
  }

  /** When fewer than MIN_NUM_OPTIONS are kept, every sub-mask matched by a pair is among them. */
  lemma TopComplete(tallies: seq<(Word, nat)>, top: seq<(Word, nat)>, roundNum: nat, plaintexts: seq<Word>,
                    inputXor: Word, outputXor: Word, mask: Word, roundKeys: seq<Word>, keys: seq<Word>,
                    sbox: seq<int>, pbox: seq<int>)
    requires roundNum < 4 && |roundKeys| == 5 && |keys| == 5 && IsBox(sbox) && IsBox(pbox)
    requires tallies == Tallies([], roundNum, plaintexts, inputXor, outputXor, mask, roundKeys, keys, sbox, pbox)
    requires TopOf(top, tallies) && |top| < MinNumOptions
    ensures forall g ::
      (IsSubMask(g, mask) && MatchingPairs(roundNum, plaintexts, inputXor, outputXor, roundKeys, g, keys, sbox, pbox) >= 1)
      ==> g in Keys(top)
  {
    hide Tallies, MatchingPairs, IsSubMask, TopOf;
    TopKeepsAll(top, tallies);
    forall g | IsSubMask(g, mask) && MatchingPairs(roundNum, plaintexts, inputXor, outputXor, roundKeys, g, keys, sbox, pbox) >= 1
      ensures g in Keys(top)
    {
      TalliesLookup([], roundNum, plaintexts, inputXor, outputXor, mask, roundKeys, keys, sbox, pbox, g);
      if g !in Keys(tallies) {
        LookupAbsent(tallies, g);
      }
      var e := tallies[KeyPosition(tallies, g)];
      assert e in top;
      var k :| 0 <= k < |top| && top[k] == e;
      assert Keys(top)[k] == g;
    }
  }

  lemma TopEntries(tallies: seq<(Word, nat)>, top: seq<(Word, nat)>, roundNum: nat, plaintexts: seq<Word>,
                   inputXor: Word, outputXor: Word, mask: Word, roundKeys: seq<Word>, keys: seq<Word>,
                   sbox: seq<int>, pbox: seq<int>)
    requires roundNum < 4 && |roundKeys| == 5 && |keys| == 5 && IsBox(sbox) && IsBox(pbox)
    requires tallies == Tallies([], roundNum, plaintexts, inputXor, outputXor, mask, roundKeys, keys, sbox, pbox)
    requires DistinctKeys(tallies) && PositiveCounts(tallies) && NewKeysWithin(tallies, [], mask) && TopOf(top, tallies)
    ensures forall i :: 0 <= i < |top| ==>
      IsSubMask(top[i].0, mask) &&
      MatchingPairs(roundNum, plaintexts, inputXor, outputXor, roundKeys, top[i].0, keys, sbox, pbox) == top[i].1 >= 1
  {
    hide Tallies, MatchingPairs, IsSubMask, TopOf, DistinctKeys, PositiveCounts, NewKeysWithin;
    forall i | 0 <= i < |top|
      ensures IsSubMask(top[i].0, mask)
      ensures MatchingPairs(roundNum, plaintexts, inputXor, outputXor, roundKeys, top[i].0, keys, sbox, pbox) == top[i].1 >= 1
    {
      TopEntry(tallies, top, i, roundNum, plaintexts, inputXor, outputXor, mask, roundKeys, keys, sbox, pbox);
    }
  }

  lemma LeftOutEntries(tallies: seq<(Word, nat)>, top: seq<(Word, nat)>, roundNum: nat, plaintexts: seq<Word>,
                       inputXor: Word, outputXor: Word, mask: Word, roundKeys: seq<Word>, keys: seq<Word>,
                       sbox: seq<int>, pbox: seq<int>)
    requires roundNum < 4 && |roundKeys| == 5 && |keys| == 5 && IsBox(sbox) && IsBox(pbox)
    requires tallies == Tallies([], roundNum, plaintexts, inputXor, outputXor, mask, roundKeys, keys, sbox, pbox)
    requires DistinctKeys(tallies) && TopOf(top, tallies)
    ensures forall i, g :: 0 <= i < |top| && IsSubMask(g, mask) && g !in Keys(top) ==>
      MatchingPairs(roundNum, plaintexts, inputXor, outputXor, roundKeys, g, keys, sbox, pbox) <= top[i].1
  {
    hide Tallies, MatchingPairs, IsSubMask, TopOf, DistinctKeys;
    forall i, g | 0 <= i < |top| && IsSubMask(g, mask) && g !in Keys(top)
      ensures MatchingPairs(roundNum, plaintexts, inputXor, outputXor, roundKeys, g, keys, sbox, pbox) <= top[i].1
    {
      LeftOutEntry(tallies, top, i, g, roundNum, plaintexts, inputXor, outputXor, mask, roundKeys, keys, sbox, pbox);
    }
  }

  lemma LeftOutEntry(tallies: seq<(Word, nat)>, top: seq<(Word, nat)>, i: nat, g: Word, roundNum: nat, plaintexts: seq<Word>,
                     inputXor: Word, outputXor: Word, mask: Word, roundKeys: seq<Word>, keys: seq<Word>,
                     sbox: seq<int>, pbox: seq<int>)
    requires roundNum < 4 && |roundKeys| == 5 && |keys| == 5 && IsBox(sbox) && IsBox(pbox)
    requires tallies == Tallies([], roundNum, plaintexts, inputXor, outputXor, mask, roundKeys, keys, sbox, pbox)
    requires DistinctKeys(tallies) && TopOf(top, tallies) && i < |top| && IsSubMask(g, mask) && g !in Keys(top)
    ensures MatchingPairs(roundNum, plaintexts, inputXor, outputXor, roundKeys, g, keys, sbox, pbox) <= top[i].1
  {
    hide Tallies, MatchingPairs, IsSubMask, DistinctKeys;
    TalliesLookup([], roundNum, plaintexts, inputXor, outputXor, mask, roundKeys, keys, sbox, pbox, g);
    if g in Keys(tallies) {
      var e := tallies[KeyPosition(tallies, g)];
      LookupDistinct(tallies, e);
      assert e !in top;
    } else {
      LookupAbsent(tallies, g);
    }
  }

  lemma TopEntry(tallies: seq<(Word, nat)>, top: seq<(Word, nat)>, i: nat, roundNum: nat, plaintexts: seq<Word>,
                 inputXor: Word, outputXor: Word, mask: Word, roundKeys: seq<Word>, keys: seq<Word>,
                 sbox: seq<int>, pbox: seq<int>)
    requires roundNum < 4 && |roundKeys| == 5 && |keys| == 5 && IsBox(sbox) && IsBox(pbox)
    requires tallies == Tallies([], roundNum, plaintexts, inputXor, outputXor, mask, roundKeys, keys, sbox, pbox)
    requires DistinctKeys(tallies) && PositiveCounts(tallies) && NewKeysWithin(tallies, [], mask)
    requires TopOf(top, tallies) && i < |top|
    ensures IsSubMask(top[i].0, mask)
    ensures MatchingPairs(roundNum, plaintexts, inputXor, outputXor, roundKeys, top[i].0, keys, sbox, pbox) == top[i].1 >= 1
  {
    hide Tallies, MatchingPairs, IsSubMask;
    var e := top[i];
    assert e in multiset(top);
    assert e in tallies;
    var k :| 0 <= k < |tallies| && tallies[k] == e;
    assert Keys(tallies)[k] == e.0;
    assert e.0 !in Keys([]);
    LookupDistinct(tallies, e);
    TalliesLookup([], roundNum, plaintexts, inputXor, outputXor, mask, roundKeys, keys, sbox, pbox, e.0);
  }

  /** The dictionary built by break_key_bits does not depend on the round key the guesses overwrite. */
  lemma {:induction false} TalliesIgnoreGuessedKey(entries: seq<(Word, nat)>, roundNum: nat, plaintexts: seq<Word>,
                                                  inputXor: Word, outputXor: Word, mask: Word, roundKeys: seq<Word>,
                                                  other: Word, keys: seq<Word>, sbox: seq<int>, pbox: seq<int>)
    requires roundNum < 4 && |roundKeys| == 5 && |keys| == 5 && IsBox(sbox) && IsBox(pbox)
    ensures Tallies(entries, roundNum, plaintexts, inputXor, outputXor, mask, roundKeys, keys, sbox, pbox) ==
      Tallies(entries, roundNum, plaintexts, inputXor, outputXor, mask, roundKeys[roundNum + 1 := other], keys, sbox, pbox)
  {
    if |plaintexts| > 0 {
      hide Votes, PairOf, NumGuesses;
      var init := plaintexts[..|plaintexts| - 1];
      TalliesIgnoreGuessedKey(entries, roundNum, init, inputXor, outputXor, mask, roundKeys, other, keys, sbox, pbox);
      var prev := Tallies(entries, roundNum, init, inputXor, outputXor, mask, roundKeys, keys, sbox, pbox);
      var pair := PairOf(plaintexts[|plaintexts| - 1], inputXor, keys, sbox, pbox);
      VotesIgnoreGuessedKey(prev, roundNum, pair.0, pair.1, outputXor, mask, roundKeys, other, sbox, pbox, NumGuesses(mask));
    }
  }
}
