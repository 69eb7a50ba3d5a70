/**
 * break_round_key of spn-diff-crypt.py: one list of candidate partial
 * subkeys per useful trail, with the bits an earlier trail already claimed
 * cleared and duplicates removed, combined into ranked full round keys.
 */
module RoundKey {
  import opened Register
  import opened Spn
  import opened Sorting
  import opened Trails
  import opened KeyMask
  import opened Attack
  import opened Combine

  /** broken_key_bits[i] & (~total_key_bits_broken & 0xffff) for every candidate. */
  function Claim(candidates: seq<Word>, total: Word): (r: seq<Word>)
    ensures |r| == |candidates|
  {
    seq(|candidates|, i requires 0 <= i < |candidates| => candidates[i] & (!total & 0xffff))
  }

  /** list(dict.fromkeys(s)): the first occurrence of every value, in order. */
  function Dedup(s: seq<Word>): seq<Word>
  {
    if |s| == 0 then []
    else
      var d := Dedup(s[..|s| - 1]);
      if s[|s| - 1] in d then d else d + [s[|s| - 1]]
  }

  /** No value occurs twice. */
  predicate Distinct(s: seq<Word>)
  {
    forall i, j :: 0 <= i < j < |s| ==> s[i] != s[j]
  }

  /** The position of the first occurrence of x in s. */
  function FirstIndex(s: seq<Word>, x: Word): (i: nat)
    requires x in s
    ensures i < |s| && s[i] == x && forall k :: 0 <= k < i ==> s[k] != x
  {
    if s[0] == x then 0 else 1 + FirstIndex(s[1..], x)
  }

  /** Appending a value does not move the first occurrence of a value already present. */
  lemma FirstIndexAppend(s: seq<Word>, last: Word, x: Word)
    requires x in s
    ensures FirstIndex(s + [last], x) == FirstIndex(s, x)
  {
    var i, j := FirstIndex(s + [last], x), FirstIndex(s, x);
    assert (s + [last])[j] == x;
  }

  /**
   * Removing duplicates keeps exactly the values of s, each once, in the
   * order of their first occurrences in s.
   */
  lemma {:induction false} DedupSpec(s: seq<Word>)
    ensures Distinct(Dedup(s))
    ensures forall x :: x in Dedup(s) <==> x in s
    ensures |Dedup(s)| <= |s|
    ensures forall i, j :: 0 <= i < j < |Dedup(s)| ==> FirstIndex(s, Dedup(s)[i]) < FirstIndex(s, Dedup(s)[j])
  {
    if |s| > 0 {
      var init, last := s[..|s| - 1], s[|s| - 1];
      DedupSpec(init);
      assert s == init + [last];
      AppendKeepsOrder(Dedup(init), init, last);
      assert InFirstOccurrenceOrder(Dedup(s), s);
    }
  }

  /** d lists values of s in the order of their first occurrences in s. */
  predicate InFirstOccurrenceOrder(d: seq<Word>, s: seq<Word>)
    requires forall x :: x in d ==> x in s
  {
    forall i, j :: 0 <= i < j < |d| ==> FirstIndex(s, d[i]) < FirstIndex(s, d[j])
  }

  /** Appending to s keeps that order, and a value new to s can follow the rest. */
  lemma AppendKeepsOrder(d: seq<Word>, init: seq<Word>, last: Word)
    requires forall x :: x in d ==> x in init
    requires InFirstOccurrenceOrder(d, init)
    ensures InFirstOccurrenceOrder(d, init + [last])
    ensures last !in init ==> InFirstOccurrenceOrder(d + [last], init + [last])
  {
    var s := init + [last];
    hide FirstIndex;
    forall x | x in d ensures FirstIndex(s, x) == FirstIndex(init, x) {
      FirstIndexAppend(init, last, x);
    }
    assert InFirstOccurrenceOrder(d, s) by {
      forall i, j | 0 <= i < j < |d| ensures FirstIndex(s, d[i]) < FirstIndex(s, d[j]) {
        assert d[i] in d && d[j] in d;
      }
    }
    if last !in init {
      assert FirstIndex(s, last) == |s| - 1 by {
        assert s[|s| - 1] == last;
      }
      var e := d + [last];
      forall i, j | 0 <= i < j < |e| ensures FirstIndex(s, e[i]) < FirstIndex(s, e[j]) {
        assert e[i] == d[i] && d[i] in d;
        if j < |d| {
          assert e[j] == d[j] && d[j] in d;
        }
      }
    }
  }

  /** A list without duplicates is left as it is. */
  lemma {:induction false} DedupDistinct(s: seq<Word>)
    requires Distinct(s)
    ensures Dedup(s) == s
  {
    if |s| > 0 {
      var init := s[..|s| - 1];
      DedupDistinct(init);
      assert s[|s| - 1] !in init;
      assert s == init + [s[|s| - 1]];
    }
  }

  /** The loop that removes duplicates, keeping first occurrences. */
  method RemoveDuplicates(s: seq<Word>) returns (d: seq<Word>)
    ensures d == Dedup(s)
  {
    d := [];
    for i := 0 to |s|
      invariant d == Dedup(s[..i])
    {
      assert s[..i + 1][..i] == s[..i];
      if s[i] !in d {
        d := d + [s[i]];
      }
    }
    assert s[..|s|] == s;
  }

  /** The key bits of the first t trails: total_key_bits_broken before trail t. */
  function ClaimedBefore(roundNum: nat, trails: seq<DiffTrail>, t: nat, pbox: seq<int>): Word
    requires t <= |trails| && IsBox(pbox)
  {
    if t == 0 then 0
    else ClaimedBefore(roundNum, trails, t - 1, pbox) | FindWhichKeyBitsWillBeBroken(roundNum, trails[t - 1].outputXor, pbox)
  }

  /** Trail t adds its own key-bit mask to the bits claimed before it. */
  lemma ClaimedBeforeStep(roundNum: nat, trails: seq<DiffTrail>, t: nat, pbox: seq<int>)
    requires t < |trails| && IsBox(pbox)
    ensures ClaimedBefore(roundNum, trails, t + 1, pbox) ==
      ClaimedBefore(roundNum, trails, t, pbox) | FindWhichKeyBitsWillBeBroken(roundNum, trails[t].outputXor, pbox)
  {
  }

  /**
   * What guess_key_bits leaves in round key roundNum + 1 after the first n
   * trails, starting from start: a trail with chosen plaintexts ends its
   * guesses on its own key-bit mask, a trail without any writes nothing.
   */
  function GuessedKeyAfter(roundNum: nat, trails: seq<DiffTrail>, plaintexts: seq<seq<Word>>, n: nat, start: Word,
                           pbox: seq<int>): Word
    requires n <= |trails| && n <= |plaintexts| && IsBox(pbox)
  {
    if n == 0 then start
    else if |plaintexts[n - 1]| == 0 then GuessedKeyAfter(roundNum, trails, plaintexts, n - 1, start, pbox)
    else FindWhichKeyBitsWillBeBroken(roundNum, trails[n - 1].outputXor, pbox)
  }

  /** One more trail: its mask if it had chosen plaintexts, else the key as it was. */
  lemma GuessedKeyStep(roundNum: nat, trails: seq<DiffTrail>, plaintexts: seq<seq<Word>>, n: nat, start: Word,
                       pbox: seq<int>)
    requires n < |trails| && n < |plaintexts| && IsBox(pbox)
    ensures GuessedKeyAfter(roundNum, trails, plaintexts, n + 1, start, pbox) ==
      if |plaintexts[n]| == 0 then GuessedKeyAfter(roundNum, trails, plaintexts, n, start, pbox)
      else FindWhichKeyBitsWillBeBroken(roundNum, trails[n].outputXor, pbox)
  {
  }

  /** With no chosen plaintexts in the first n trails, the guessed round key keeps its starting value. */
  lemma {:induction false} GuessedKeyUnwritten(roundNum: nat, trails: seq<DiffTrail>, plaintexts: seq<seq<Word>>, n: nat,
                                               start: Word, pbox: seq<int>)
    requires n <= |trails| && n <= |plaintexts| && IsBox(pbox)
    requires forall t :: 0 <= t < n ==> |plaintexts[t]| == 0
    ensures GuessedKeyAfter(roundNum, trails, plaintexts, n, start, pbox) == start
  {
    if n > 0 {
      GuessedKeyUnwritten(roundNum, trails, plaintexts, n - 1, start, pbox);
    }
  }

  /**
   * The guessed round key is the key-bit mask of the last trail t among the
   * first n that had chosen plaintexts.
   */
  lemma {:induction false} GuessedKeyIsLastMask(roundNum: nat, trails: seq<DiffTrail>, plaintexts: seq<seq<Word>>, n: nat,
                                                t: nat, start: Word, pbox: seq<int>)
    requires n <= |trails| && n <= |plaintexts| && IsBox(pbox)
    requires t < n && |plaintexts[t]| > 0 && forall u :: t < u < n ==> |plaintexts[u]| == 0
    ensures GuessedKeyAfter(roundNum, trails, plaintexts, n, start, pbox) ==
      FindWhichKeyBitsWillBeBroken(roundNum, trails[t].outputXor, pbox)
  {
    hide FindWhichKeyBitsWillBeBroken;
    if t < n - 1 {
      GuessedKeyIsLastMask(roundNum, trails, plaintexts, n - 1, t, start, pbox);
    }
  }

  /** What break_key_bits returns for trail t and its plaintexts. */
  function Candidates(roundNum: nat, trail: DiffTrail, plaintexts: seq<Word>, roundKeys: seq<Word>, keys: seq<Word>,
                      sbox: seq<int>, pbox: seq<int>): seq<Word>
    requires roundNum < 4 && |roundKeys| == 5 && |keys| == 5 && IsBox(sbox) && IsBox(pbox)
  {
    var mask := FindWhichKeyBitsWillBeBroken(roundNum, trail.outputXor, pbox);
    Keys(MostProbable(Tallies([], roundNum, plaintexts, trail.inputXor, trail.outputXor, mask, roundKeys, keys, sbox, pbox)))
  }

  /** partial_subkeys_to_combine after the first n trails. */
  function PartialSubkeys(roundNum: nat, trails: seq<DiffTrail>, plaintexts: seq<seq<Word>>, roundKeys: seq<Word>,
                          keys: seq<Word>, sbox: seq<int>, pbox: seq<int>, n: nat): (r: seq<seq<Word>>)
    requires roundNum < 4 && |roundKeys| == 5 && |keys| == 5 && IsBox(sbox) && IsBox(pbox)
    requires n <= |trails| && |plaintexts| == |trails|
    ensures |r| == n
  {
    if n == 0 then []
    else
      var candidates := Candidates(roundNum, trails[n - 1], plaintexts[n - 1], roundKeys, keys, sbox, pbox);
      PartialSubkeys(roundNum, trails, plaintexts, roundKeys, keys, sbox, pbox, n - 1) +
        [Dedup(Claim(candidates, ClaimedBefore(roundNum, trails, n - 1, pbox)))]
  }

  /**
   * break_round_key: for every useful trail, breaks the key bits its output
   * XOR reaches (with the trail's own chosen plaintexts), clears the bits an
   * earlier trail claimed, removes duplicates, and finally combines the lists.
   */
  method BreakRoundKey(roundNum: nat, usefulDiffTrails: seq<DiffTrail>, plaintexts: seq<seq<Word>>,
                       roundKeys: array<Word>, keys: seq<Word>, sbox: seq<int>, pbox: seq<int>)
    returns (roundKeyPossibilities: seq<Word>)
    requires roundNum < 4 && |plaintexts| == |usefulDiffTrails| && roundKeys.Length == 5 && |keys| == 5
    requires IsBox(sbox) && IsBox(pbox)
    modifies roundKeys
    ensures roundKeyPossibilities == Combined(PartialSubkeys(roundNum, usefulDiffTrails, plaintexts, old(roundKeys[..]),
      keys, sbox, pbox, |usefulDiffTrails|))
    ensures forall i :: 0 <= i < 5 && i != roundNum + 1 ==> roundKeys[i] == old(roundKeys[i])
    ensures roundKeys[..] == old(roundKeys[..])[roundNum + 1 :=
      GuessedKeyAfter(roundNum, usefulDiffTrails, plaintexts, |usefulDiffTrails|, old(roundKeys[roundNum + 1]), pbox)]
  {
    hide Candidates, Dedup, Claim, Combined, GuessedKeyAfter, FindWhichKeyBitsWillBeBroken;
    ghost var roundKeys0 := roundKeys[..];
    var totalKeyBitsBroken: Word := 0;
    var partialSubkeysToCombine: seq<seq<Word>> := [];
    GuessedKeyUnwritten(roundNum, usefulDiffTrails, plaintexts, 0, roundKeys0[roundNum + 1], pbox);
    assert totalKeyBitsBroken == ClaimedBefore(roundNum, usefulDiffTrails, 0, pbox);
    hide ClaimedBefore;
    for t := 0 to |usefulDiffTrails|
      invariant partialSubkeysToCombine == PartialSubkeys(roundNum, usefulDiffTrails, plaintexts, roundKeys0, keys, sbox, pbox, t)
      invariant totalKeyBitsBroken == ClaimedBefore(roundNum, usefulDiffTrails, t, pbox)
      invariant roundKeys[..] == roundKeys0[roundNum + 1 := roundKeys[roundNum + 1]]
      invariant roundKeys[roundNum + 1] == GuessedKeyAfter(roundNum, usefulDiffTrails, plaintexts, t, roundKeys0[roundNum + 1], pbox)
    {
      var breakingKeyBits := FindWhichKeyBitsWillBeBroken(roundNum, usefulDiffTrails[t].outputXor, pbox);
      GuessedKeyStep(roundNum, usefulDiffTrails, plaintexts, t, roundKeys0[roundNum + 1], pbox);
      ClaimedBeforeStep(roundNum, usefulDiffTrails, t, pbox);
      var brokenKeyBits := BreakTrail(roundNum, usefulDiffTrails[t], plaintexts[t], totalKeyBitsBroken, roundKeys,
        roundKeys0, keys, sbox, pbox);
      totalKeyBitsBroken := totalKeyBitsBroken | breakingKeyBits;
      partialSubkeysToCombine := partialSubkeysToCombine + [brokenKeyBits];
    }
    roundKeyPossibilities := CombinePartialSubkeys(partialSubkeysToCombine);
  }

  /**
   * One pass of break_round_key's loop: breaks the key bits of one trail,
   * clears those already claimed and removes the duplicates. The guesses
   * overwrite round key roundNum + 1 only, which the result does not depend on.
   */
  method BreakTrail(roundNum: nat, usefulDiffTrail: DiffTrail, plaintexts: seq<Word>, totalKeyBitsBroken: Word,
                    roundKeys: array<Word>, ghost roundKeys0: seq<Word>, keys: seq<Word>, sbox: seq<int>, pbox: seq<int>)
    returns (brokenKeyBits: seq<Word>)
    requires roundNum < 4 && roundKeys.Length == 5 && |keys| == 5 && IsBox(sbox) && IsBox(pbox)
    requires |roundKeys0| == 5 && roundKeys[..] == roundKeys0[roundNum + 1 := roundKeys[roundNum + 1]]
    modifies roundKeys
    ensures brokenKeyBits == Dedup(Claim(Candidates(roundNum, usefulDiffTrail, plaintexts, roundKeys0, keys, sbox, pbox),
      totalKeyBitsBroken))
    ensures roundKeys[..] == roundKeys0[roundNum + 1 := roundKeys[roundNum + 1]]
    ensures roundKeys[roundNum + 1] == if |plaintexts| == 0 then old(roundKeys[roundNum + 1])
      else FindWhichKeyBitsWillBeBroken(roundNum, usefulDiffTrail.outputXor, pbox)
  {
    hide Candidates, Tallies, MostProbable, Dedup, Claim;
    var inputXor := usefulDiffTrail.inputXor;
    var outputXor := usefulDiffTrail.outputXor;
    var breakingKeyBits := FindWhichKeyBitsWillBeBroken(roundNum, outputXor, pbox);
    ghost var current := roundKeys[..];
    assert current == roundKeys0[roundNum + 1 := current[roundNum + 1]];
    CandidatesIgnoreGuessedKey(roundNum, usefulDiffTrail, plaintexts, roundKeys0, current[roundNum + 1], keys, sbox, pbox);
    brokenKeyBits := BreakKeyBits(roundNum, plaintexts, inputXor, outputXor, breakingKeyBits, roundKeys,
      keys, sbox, pbox);
    brokenKeyBits := ClearClaimed(brokenKeyBits, totalKeyBitsBroken);
    brokenKeyBits := RemoveDuplicates(brokenKeyBits);
  }

  /** break_key_bits gives the same candidates whatever round key roundNum + 1 holds when it starts. */
  lemma CandidatesIgnoreGuessedKey(roundNum: nat, trail: DiffTrail, plaintexts: seq<Word>, roundKeys: seq<Word>,
                                   other: Word, keys: seq<Word>, sbox: seq<int>, pbox: seq<int>)
    requires roundNum < 4 && |roundKeys| == 5 && |keys| == 5 && IsBox(sbox) && IsBox(pbox)
    ensures Candidates(roundNum, trail, plaintexts, roundKeys, keys, sbox, pbox) ==
      Keys(MostProbable(Tallies([], roundNum, plaintexts, trail.inputXor, trail.outputXor,
        FindWhichKeyBitsWillBeBroken(roundNum, trail.outputXor, pbox), roundKeys[roundNum + 1 := other], keys, sbox, pbox)))
  {
    TalliesIgnoreGuessedKey([], roundNum, plaintexts, trail.inputXor, trail.outputXor,
      FindWhichKeyBitsWillBeBroken(roundNum, trail.outputXor, pbox), roundKeys, other, keys, sbox, pbox);
  }

  /** The loop that clears the bits earlier trails claimed, in place. */
  method ClearClaimed(brokenKeyBits: seq<Word>, totalKeyBitsBroken: Word) returns (claimed: seq<Word>)
    ensures claimed == Claim(brokenKeyBits, totalKeyBitsBroken)
  {
    claimed := brokenKeyBits;
    for i := 0 to |claimed|
      invariant |claimed| == |brokenKeyBits|
      invariant forall k :: 0 <= k < i ==> claimed[k] == brokenKeyBits[k] & (!totalKeyBitsBroken & 0xffff)
      invariant forall k :: i <= k < |claimed| ==> claimed[k] == brokenKeyBits[k]
    {
      claimed := claimed[i := claimed[i] & (!totalKeyBitsBroken & 0xffff)];
    }
  }

  lemma ClearedBits(c: Word, total: Word)
    ensures (c & (!total & 0xffff)) & total == 0
  {
  }

  /**
   * First claim wins: no candidate for trail t has a bit that an earlier
   * trail's key-bit mask covers, so ORing the lists together never
   * overwrites bits an earlier trail broke.
   */
  lemma FirstClaimWins(roundNum: nat, trails: seq<DiffTrail>, plaintexts: seq<seq<Word>>, roundKeys: seq<Word>,
                       keys: seq<Word>, sbox: seq<int>, pbox: seq<int>, t: nat, c: Word)
    requires roundNum < 4 && |roundKeys| == 5 && |keys| == 5 && IsBox(sbox) && IsBox(pbox)
    requires |plaintexts| == |trails| && t < |trails|
    requires c in PartialSubkeys(roundNum, trails, plaintexts, roundKeys, keys, sbox, pbox, |trails|)[t]
    ensures c & ClaimedBefore(roundNum, trails, t, pbox) == 0
  {
    hide Candidates, ClaimedBefore;
    PartialSubkeysPrefix(roundNum, trails, plaintexts, roundKeys, keys, sbox, pbox, t, |trails|);
    var candidates := Candidates(roundNum, trails[t], plaintexts[t], roundKeys, keys, sbox, pbox);
    var total := ClaimedBefore(roundNum, trails, t, pbox);
    DedupSpec(Claim(candidates, total));
    var i :| 0 <= i < |candidates| && Claim(candidates, total)[i] == c;
    ClearedBits(candidates[i], total);
  }

  /** Later trails leave the lists of earlier ones alone. */
  lemma {:induction false} PartialSubkeysPrefix(roundNum: nat, trails: seq<DiffTrail>, plaintexts: seq<seq<Word>>,
                                               roundKeys: seq<Word>, keys: seq<Word>, sbox: seq<int>, pbox: seq<int>,
                                               t: nat, n: nat)
    requires roundNum < 4 && |roundKeys| == 5 && |keys| == 5 && IsBox(sbox) && IsBox(pbox)
    requires |plaintexts| == |trails| && t < n <= |trails|
    ensures PartialSubkeys(roundNum, trails, plaintexts, roundKeys, keys, sbox, pbox, n)[t] ==
      Dedup(Claim(Candidates(roundNum, trails[t], plaintexts[t], roundKeys, keys, sbox, pbox), ClaimedBefore(roundNum, trails, t, pbox)))
  {
    hide Candidates, ClaimedBefore, Dedup, Claim;
    if n > t + 1 {
      PartialSubkeysPrefix(roundNum, trails, plaintexts, roundKeys, keys, sbox, pbox, t, n - 1);
    }
  }
}
