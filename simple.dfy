/**
 * The single-candidate attack of python/spn-diff-crypt-simple.py. Its
 * cipher, register helpers, trail search and selection, key masks,
 * guess_key_bits, partial_decryption and break_first_round_key are the same
 * code as in spn-diff-crypt.py and are modelled once, in the modules this
 * one imports. What differs: break_key_bits keeps only the best key and
 * stops when nothing was counted, and break_round_key OR-folds one key per
 * trail.
 */
module Simple {
  import opened Wrappers
  import opened Register
  import opened Spn
  import opened Sorting
  import opened Trails
  import opened KeyMask
  import opened Attack
  import opened RoundKey
  import opened PartialKeys

  /** The message sys.exit prints when no key guess was ever counted. */
  const NoKeyFound: string := "Error: Unable to find key. Run again or attempt to increase C value."

  // ---------------------------------------------------------------------------
  // break_key_bits

  /**
   * What break_key_bits yields from the dictionary: the key with the most
   * votes after a stable descending sort, or the exit when nothing was counted.
   */
  function MostProbableKey(entries: seq<(Word, nat)>): Result<Word>
  {
    if |entries| == 0 then Abort(NoKeyFound)
    else Ok(SortBy(entries, MoreVotes)[0].0)
  }

  /**
   * break_key_bits of the single-candidate variant: the dictionary is built
   * as in spn-diff-crypt.py, then either the run stops or the best key is returned.
   */
  method BreakKeyBitsSimple(roundNum: nat, plaintexts: seq<Word>, inputXor: Word, outputXor: Word, breakingKeyBits: Word,
                            roundKeys: array<Word>, keys: seq<Word>, sbox: seq<int>, pbox: seq<int>)
    returns (mostProbableKey: Result<Word>)
    requires roundNum < 4 && roundKeys.Length == 5 && |keys| == 5 && IsBox(sbox) && IsBox(pbox)
    modifies roundKeys
    ensures mostProbableKey == MostProbableKey(Tallies([], roundNum, plaintexts, inputXor, outputXor, breakingKeyBits,
      old(roundKeys[..]), keys, sbox, pbox))
    ensures roundKeys[..] == if |plaintexts| == 0 then old(roundKeys[..]) else old(roundKeys[..])[roundNum + 1 := breakingKeyBits]
  {
    var keyCountDict := CountKeyGuesses(roundNum, plaintexts, inputXor, outputXor, breakingKeyBits, roundKeys, keys, sbox, pbox);
    if |keyCountDict.entries| == 0 {
      return Abort(NoKeyFound);
    }
    var sorted := SortBy(keyCountDict.entries, MoreVotes);
    mostProbableKey := Ok(sorted[0].0);
  }

  /**
   * The key break_key_bits returns holds the most votes of all entries, and
   * it is the first entry (in insertion order) that does: the sort is stable.
   */
  lemma {:induction false} SortedHeadFirstMost(entries: seq<(Word, nat)>)
    requires |entries| > 0
    ensures var head := SortBy(entries, MoreVotes)[0];
      (forall k :: 0 <= k < |entries| ==> entries[k].1 <= head.1) &&
      exists k :: 0 <= k < |entries| && entries[k] == head && forall j :: 0 <= j < k ==> entries[j].1 < head.1
  {
    var init := entries[..|entries| - 1];
    var last := entries[|entries| - 1];
    var head := SortBy(entries, MoreVotes)[0];
    if |init| == 0 {
      assert head == last;
      assert entries[0] == head;
    } else {
      SortedHeadFirstMost(init);
      var sortedInit := SortBy(init, MoreVotes);
      SortByHead(entries, MoreVotes);
      hide SortBy, InsertBy;
      if MoreVotes(last, sortedInit[0]) {
        assert head == last;
        LastIsFirstMost(entries, init, head);
      } else {
        assert head == sortedInit[0];
        InitHeadIsFirstMost(entries, init, head);
      }
    }
  }

  lemma LastIsFirstMost(entries: seq<(Word, nat)>, init: seq<(Word, nat)>, head: (Word, nat))
    requires |entries| > 0 && init == entries[..|entries| - 1] && head == entries[|entries| - 1]
    requires forall k :: 0 <= k < |init| ==> init[k].1 < head.1
    ensures forall k :: 0 <= k < |entries| ==> entries[k].1 <= head.1
    ensures exists k :: 0 <= k < |entries| && entries[k] == head && forall j :: 0 <= j < k ==> entries[j].1 < head.1
  {
    assert forall j :: 0 <= j < |init| ==> entries[j] == init[j];
  }

  lemma InitHeadIsFirstMost(entries: seq<(Word, nat)>, init: seq<(Word, nat)>, head: (Word, nat))
    requires |entries| > 0 && init == entries[..|entries| - 1] && entries[|entries| - 1].1 <= head.1
    requires forall k :: 0 <= k < |init| ==> init[k].1 <= head.1
    requires exists k :: 0 <= k < |init| && init[k] == head && forall j :: 0 <= j < k ==> init[j].1 < head.1
    ensures forall k :: 0 <= k < |entries| ==> entries[k].1 <= head.1
    ensures exists k :: 0 <= k < |entries| && entries[k] == head && forall j :: 0 <= j < k ==> entries[j].1 < head.1
  {
    var k :| 0 <= k < |init| && init[k] == head && forall j :: 0 <= j < k ==> init[j].1 < head.1;
    assert forall j :: 0 <= j < |init| ==> entries[j] == init[j];
    assert entries[k] == head;
  }

  /**
   * What the single-candidate break_key_bits promises: it stops exactly when
   * no sub-mask of the mask matched any pair; otherwise its key is a sub-mask
   * matched by at least one pair and by at least as many as any other sub-mask.
   */
  lemma BreakKeyBitsSimpleBest(roundNum: nat, plaintexts: seq<Word>, inputXor: Word, outputXor: Word, mask: Word,
                               roundKeys: seq<Word>, keys: seq<Word>, sbox: seq<int>, pbox: seq<int>)
    requires roundNum < 4 && |roundKeys| == 5 && |keys| == 5 && IsBox(sbox) && IsBox(pbox)
    ensures var r := MostProbableKey(Tallies([], roundNum, plaintexts, inputXor, outputXor, mask, roundKeys, keys, sbox, pbox));
      (r.Abort? <==> (forall g :: IsSubMask(g, mask) ==>
        MatchingPairs(roundNum, plaintexts, inputXor, outputXor, roundKeys, g, keys, sbox, pbox) == 0)) &&
      (r.Ok? ==> (IsSubMask(r.value, mask) &&
        MatchingPairs(roundNum, plaintexts, inputXor, outputXor, roundKeys, r.value, keys, sbox, pbox) >= 1 &&
        forall g :: IsSubMask(g, mask) ==>
          MatchingPairs(roundNum, plaintexts, inputXor, outputXor, roundKeys, g, keys, sbox, pbox) <=
          MatchingPairs(roundNum, plaintexts, inputXor, outputXor, roundKeys, r.value, keys, sbox, pbox)))
  {
    TalliesKeys([], roundNum, plaintexts, inputXor, outputXor, mask, roundKeys, keys, sbox, pbox);
    var tallies := Tallies([], roundNum, plaintexts, inputXor, outputXor, mask, roundKeys, keys, sbox, pbox);
    hide Tallies, MatchingPairs, IsSubMask, DistinctKeys, PositiveCounts, NewKeysWithin, SortBy;
    if |tallies| == 0 {
      forall g | IsSubMask(g, mask)
        ensures MatchingPairs(roundNum, plaintexts, inputXor, outputXor, roundKeys, g, keys, sbox, pbox) == 0
      {
        TalliesLookup([], roundNum, plaintexts, inputXor, outputXor, mask, roundKeys, keys, sbox, pbox, g);
      }
    } else {
      BestOfTallies(tallies, roundNum, plaintexts, inputXor, outputXor, mask, roundKeys, keys, sbox, pbox);
    }
  }

  lemma BestOfTallies(tallies: seq<(Word, nat)>, roundNum: nat, plaintexts: seq<Word>,
                      inputXor: Word, outputXor: Word, mask: Word, roundKeys: seq<Word>, keys: seq<Word>,
                      sbox: seq<int>, pbox: seq<int>)
    requires roundNum < 4 && |roundKeys| == 5 && |keys| == 5 && IsBox(sbox) && IsBox(pbox)
    requires tallies == Tallies([], roundNum, plaintexts, inputXor, outputXor, mask, roundKeys, keys, sbox, pbox)
    requires DistinctKeys(tallies) && PositiveCounts(tallies) && NewKeysWithin(tallies, [], mask) && |tallies| > 0
    ensures var best := SortBy(tallies, MoreVotes)[0].0;
      IsSubMask(best, mask) &&
      MatchingPairs(roundNum, plaintexts, inputXor, outputXor, roundKeys, best, keys, sbox, pbox) >= 1 &&
      forall g :: IsSubMask(g, mask) ==>
        MatchingPairs(roundNum, plaintexts, inputXor, outputXor, roundKeys, g, keys, sbox, pbox) <=
        MatchingPairs(roundNum, plaintexts, inputXor, outputXor, roundKeys, best, keys, sbox, pbox)
  {
    var top := MostProbable(tallies);
    MostProbableTop(tallies);
    assert top[0] == SortBy(tallies, MoreVotes)[0];
    hide Tallies, MatchingPairs, IsSubMask, DistinctKeys, PositiveCounts, NewKeysWithin, SortBy, MostProbable, TopOf;
    TopEntry(tallies, top, 0, roundNum, plaintexts, inputXor, outputXor, mask, roundKeys, keys, sbox, pbox);
    BestAmongTop(tallies, top, roundNum, plaintexts, inputXor, outputXor, mask, roundKeys, keys, sbox, pbox);
  }

  lemma BestAmongTop(tallies: seq<(Word, nat)>, top: seq<(Word, nat)>, roundNum: nat, plaintexts: seq<Word>,
                     inputXor: Word, outputXor: Word, mask: Word, roundKeys: seq<Word>, keys: seq<Word>,
                     sbox: seq<int>, pbox: seq<int>)
    requires roundNum < 4 && |roundKeys| == 5 && |keys| == 5 && IsBox(sbox) && IsBox(pbox)
    requires tallies == Tallies([], roundNum, plaintexts, inputXor, outputXor, mask, roundKeys, keys, sbox, pbox)
    requires DistinctKeys(tallies) && PositiveCounts(tallies) && NewKeysWithin(tallies, [], mask)
    requires TopOf(top, tallies) && |top| > 0
    ensures forall g :: IsSubMask(g, mask) ==>
      MatchingPairs(roundNum, plaintexts, inputXor, outputXor, roundKeys, g, keys, sbox, pbox) <= top[0].1
  {
    hide Tallies, MatchingPairs, IsSubMask, DistinctKeys, PositiveCounts, NewKeysWithin;
    forall g | IsSubMask(g, mask)
      ensures MatchingPairs(roundNum, plaintexts, inputXor, outputXor, roundKeys, g, keys, sbox, pbox) <= top[0].1
    {
      if g in Keys(top) {
        var j :| 0 <= j < |top| && top[j].0 == g;
        TopEntry(tallies, top, j, roundNum, plaintexts, inputXor, outputXor, mask, roundKeys, keys, sbox, pbox);
        assert j == 0 || !MoreVotes(top[j], top[0]);
      } else {
        LeftOutEntry(tallies, top, 0, g, roundNum, plaintexts, inputXor, outputXor, mask, roundKeys, keys, sbox, pbox);
      }
    }
  }

  // ---------------------------------------------------------------------------
  // break_round_key

  /** What break_key_bits yields for one trail. */
  function BestKey(roundNum: nat, trail: DiffTrail, plaintexts: seq<Word>, roundKeys: seq<Word>, keys: seq<Word>,
                   sbox: seq<int>, pbox: seq<int>): Result<Word>
    requires roundNum < 4 && |roundKeys| == 5 && |keys| == 5 && IsBox(sbox) && IsBox(pbox)
  {
    var mask := FindWhichKeyBitsWillBeBroken(roundNum, trail.outputXor, pbox);
    MostProbableKey(Tallies([], roundNum, plaintexts, trail.inputXor, trail.outputXor, mask, roundKeys, keys, sbox, pbox))
  }

  /**
   * partial_keys_to_combine after the first n trails: each best key with
   * the bits of earlier trails cleared; the run stops at the first trail
   * whose dictionary stays empty.
   */
  function SimplePartialKeys(roundNum: nat, trails: seq<DiffTrail>, plaintexts: seq<seq<Word>>, roundKeys: seq<Word>,
                             keys: seq<Word>, sbox: seq<int>, pbox: seq<int>, n: nat): (r: Result<seq<Word>>)
    requires roundNum < 4 && |roundKeys| == 5 && |keys| == 5 && IsBox(sbox) && IsBox(pbox)
    requires n <= |trails| && |plaintexts| == |trails|
    ensures r.Ok? ==> |r.value| == n
  {
    if n == 0 then Ok([])
    else
      match SimplePartialKeys(roundNum, trails, plaintexts, roundKeys, keys, sbox, pbox, n - 1)
      case Abort(reason) => Abort(reason)
      case Ok(partialKeys) =>
        match BestKey(roundNum, trails[n - 1], plaintexts[n - 1], roundKeys, keys, sbox, pbox)
        case Abort(reason) => Abort(reason)
        case Ok(key) => Ok(partialKeys + [key & (!ClaimedBefore(roundNum, trails, n - 1, pbox) & 0xffff)])
  }

  /**
   * How many of the first n trails break_round_key runs: all of them, or up
   * to and including the first whose dictionary stays empty.
   */
  function TrailsRun(roundNum: nat, trails: seq<DiffTrail>, plaintexts: seq<seq<Word>>, roundKeys: seq<Word>,
                     keys: seq<Word>, sbox: seq<int>, pbox: seq<int>, n: nat): (r: nat)
    requires roundNum < 4 && |roundKeys| == 5 && |keys| == 5 && IsBox(sbox) && IsBox(pbox)
    requires n <= |trails| && |plaintexts| == |trails|
    ensures r <= n
  {
    if n == 0 then 0
    else if SimplePartialKeys(roundNum, trails, plaintexts, roundKeys, keys, sbox, pbox, n - 1).Abort? then
      TrailsRun(roundNum, trails, plaintexts, roundKeys, keys, sbox, pbox, n - 1)
    else n
  }

  /** Without a stop, every trail runs. */
  lemma TrailsRunAll(roundNum: nat, trails: seq<DiffTrail>, plaintexts: seq<seq<Word>>, roundKeys: seq<Word>,
                     keys: seq<Word>, sbox: seq<int>, pbox: seq<int>, n: nat)
    requires roundNum < 4 && |roundKeys| == 5 && |keys| == 5 && IsBox(sbox) && IsBox(pbox)
    requires n <= |trails| && |plaintexts| == |trails|
    requires SimplePartialKeys(roundNum, trails, plaintexts, roundKeys, keys, sbox, pbox, n).Ok?
    ensures TrailsRun(roundNum, trails, plaintexts, roundKeys, keys, sbox, pbox, n) == n
  {
    if n > 0 {
      hide BestKey, ClaimedBefore, Tallies, MostProbableKey, FindWhichKeyBitsWillBeBroken;
      assert SimplePartialKeys(roundNum, trails, plaintexts, roundKeys, keys, sbox, pbox, n - 1).Ok?;
    }
  }

  /** When trail t is the first to stop the run, trails 0..t run and none after it. */
  lemma {:induction false} TrailsRunStops(roundNum: nat, trails: seq<DiffTrail>, plaintexts: seq<seq<Word>>,
                                          roundKeys: seq<Word>, keys: seq<Word>, sbox: seq<int>, pbox: seq<int>,
                                          t: nat, n: nat)
    requires roundNum < 4 && |roundKeys| == 5 && |keys| == 5 && IsBox(sbox) && IsBox(pbox)
    requires t < n <= |trails| && |plaintexts| == |trails|
    requires SimplePartialKeys(roundNum, trails, plaintexts, roundKeys, keys, sbox, pbox, t).Ok?
    requires SimplePartialKeys(roundNum, trails, plaintexts, roundKeys, keys, sbox, pbox, t + 1).Abort?
    ensures TrailsRun(roundNum, trails, plaintexts, roundKeys, keys, sbox, pbox, n) == t + 1
  {
    hide BestKey, ClaimedBefore, Tallies, MostProbableKey, FindWhichKeyBitsWillBeBroken;
    if n > t + 1 {
      AbortPersists(roundNum, trails, plaintexts, roundKeys, keys, sbox, pbox, t + 1, n - 1);
      hide SimplePartialKeys;
      TrailsRunStops(roundNum, trails, plaintexts, roundKeys, keys, sbox, pbox, t, n - 1);
    }
  }

  /** What break_round_key of the single-candidate variant returns. */
  function SimpleRoundKey(roundNum: nat, trails: seq<DiffTrail>, plaintexts: seq<seq<Word>>, roundKeys: seq<Word>,
                          keys: seq<Word>, sbox: seq<int>, pbox: seq<int>): Result<Word>
    requires roundNum < 4 && |roundKeys| == 5 && |keys| == 5 && IsBox(sbox) && IsBox(pbox)
    requires |plaintexts| == |trails|
  {
    match SimplePartialKeys(roundNum, trails, plaintexts, roundKeys, keys, sbox, pbox, |trails|)
    case Abort(reason) => Abort(reason)
    case Ok(partialKeys) => Ok(OrAll(partialKeys))
  }

  /** Once the run has stopped, later trails do not restart it. */
  lemma {:induction false} AbortPersists(roundNum: nat, trails: seq<DiffTrail>, plaintexts: seq<seq<Word>>,
                                        roundKeys: seq<Word>, keys: seq<Word>, sbox: seq<int>, pbox: seq<int>,
                                        n: nat, m: nat)
    requires roundNum < 4 && |roundKeys| == 5 && |keys| == 5 && IsBox(sbox) && IsBox(pbox)
    requires n <= m <= |trails| && |plaintexts| == |trails|
    requires SimplePartialKeys(roundNum, trails, plaintexts, roundKeys, keys, sbox, pbox, n).Abort?
    ensures SimplePartialKeys(roundNum, trails, plaintexts, roundKeys, keys, sbox, pbox, m) ==
      SimplePartialKeys(roundNum, trails, plaintexts, roundKeys, keys, sbox, pbox, n)
  {
    hide BestKey, ClaimedBefore, Tallies, MostProbableKey, FindWhichKeyBitsWillBeBroken;
    if m > n {
      AbortPersists(roundNum, trails, plaintexts, roundKeys, keys, sbox, pbox, n, m - 1);
    }
  }

  /** A trail whose dictionary is not empty extends the run by its best key, less the bits claimed before it. */
  lemma SimpleStepOk(roundNum: nat, trails: seq<DiffTrail>, plaintexts: seq<seq<Word>>, roundKeys: seq<Word>,
                     keys: seq<Word>, sbox: seq<int>, pbox: seq<int>, t: nat, partialKeys: seq<Word>, key: Word)
    requires roundNum < 4 && |roundKeys| == 5 && |keys| == 5 && IsBox(sbox) && IsBox(pbox)
    requires t < |trails| && |plaintexts| == |trails|
    requires SimplePartialKeys(roundNum, trails, plaintexts, roundKeys, keys, sbox, pbox, t) == Ok(partialKeys)
    requires BestKey(roundNum, trails[t], plaintexts[t], roundKeys, keys, sbox, pbox) == Ok(key)
    ensures SimplePartialKeys(roundNum, trails, plaintexts, roundKeys, keys, sbox, pbox, t + 1) ==
      Ok(partialKeys + [key & (!ClaimedBefore(roundNum, trails, t, pbox) & 0xffff)])
  {
    hide BestKey, ClaimedBefore, Tallies, MostProbableKey, FindWhichKeyBitsWillBeBroken;
  }

  /** When trail t is the first whose dictionary stays empty, the run ends with its abort after t + 1 trails. */
  lemma StoppedRun(roundNum: nat, trails: seq<DiffTrail>, plaintexts: seq<seq<Word>>, roundKeys: seq<Word>,
                   keys: seq<Word>, sbox: seq<int>, pbox: seq<int>, t: nat, reason: string)
    requires roundNum < 4 && |roundKeys| == 5 && |keys| == 5 && IsBox(sbox) && IsBox(pbox)
    requires t < |trails| && |plaintexts| == |trails|
    requires SimplePartialKeys(roundNum, trails, plaintexts, roundKeys, keys, sbox, pbox, t).Ok?
    requires BestKey(roundNum, trails[t], plaintexts[t], roundKeys, keys, sbox, pbox) == Abort(reason)
    ensures SimpleRoundKey(roundNum, trails, plaintexts, roundKeys, keys, sbox, pbox) == Abort(reason)
    ensures TrailsRun(roundNum, trails, plaintexts, roundKeys, keys, sbox, pbox, |trails|) == t + 1
  {
    hide BestKey, ClaimedBefore, Tallies, MostProbableKey, FindWhichKeyBitsWillBeBroken;
    assert SimplePartialKeys(roundNum, trails, plaintexts, roundKeys, keys, sbox, pbox, t + 1) == Abort(reason);
    AbortPersists(roundNum, trails, plaintexts, roundKeys, keys, sbox, pbox, t + 1, |trails|);
    TrailsRunStops(roundNum, trails, plaintexts, roundKeys, keys, sbox, pbox, t, |trails|);
  }

  /** When every trail's dictionary is filled, the round key is the OR of the partial keys and every trail ran. */
  lemma FinishedRun(roundNum: nat, trails: seq<DiffTrail>, plaintexts: seq<seq<Word>>, roundKeys: seq<Word>,
                    keys: seq<Word>, sbox: seq<int>, pbox: seq<int>, partialKeys: seq<Word>)
    requires roundNum < 4 && |roundKeys| == 5 && |keys| == 5 && IsBox(sbox) && IsBox(pbox)
    requires |plaintexts| == |trails|
    requires SimplePartialKeys(roundNum, trails, plaintexts, roundKeys, keys, sbox, pbox, |trails|) == Ok(partialKeys)
    ensures SimpleRoundKey(roundNum, trails, plaintexts, roundKeys, keys, sbox, pbox) == Ok(OrAll(partialKeys))
    ensures TrailsRun(roundNum, trails, plaintexts, roundKeys, keys, sbox, pbox, |trails|) == |trails|
  {
    hide BestKey, ClaimedBefore, Tallies, MostProbableKey, FindWhichKeyBitsWillBeBroken, OrAll;
    TrailsRunAll(roundNum, trails, plaintexts, roundKeys, keys, sbox, pbox, |trails|);
  }

  /**
   * break_round_key of the single-candidate variant: one best key per trail,
   * the bits of earlier trails cleared, all ORed together; the run stops
   * when a trail's dictionary stays empty. Round key roundNum + 1 is left
   * holding the mask of the last trail run that had plaintexts.
   */
  method BreakRoundKeySimple(roundNum: nat, usefulDiffTrails: seq<DiffTrail>, plaintexts: seq<seq<Word>>,
                             roundKeys: array<Word>, keys: seq<Word>, sbox: seq<int>, pbox: seq<int>)
    returns (roundKey: Result<Word>)
    requires roundNum < 4 && |plaintexts| == |usefulDiffTrails| && roundKeys.Length == 5 && |keys| == 5
    requires IsBox(sbox) && IsBox(pbox)
    modifies roundKeys
    ensures roundKey == SimpleRoundKey(roundNum, usefulDiffTrails, plaintexts, old(roundKeys[..]), keys, sbox, pbox)
    ensures forall i :: 0 <= i < 5 && i != roundNum + 1 ==> roundKeys[i] == old(roundKeys[i])
    ensures roundKeys[roundNum + 1] == GuessedKeyAfter(roundNum, usefulDiffTrails, plaintexts,
      TrailsRun(roundNum, usefulDiffTrails, plaintexts, old(roundKeys[..]), keys, sbox, pbox, |usefulDiffTrails|),
      old(roundKeys[roundNum + 1]), pbox)
  {
    hide BestKey, OrAll, Tallies, MostProbableKey, FindWhichKeyBitsWillBeBroken, GuessedKeyAfter, TrailsRun,
      SimpleRoundKey;
    ghost var roundKeys0 := roundKeys[..];
    var totalKeyBitsBroken: Word := 0;
    var partialKeysToCombine: seq<Word> := [];
    GuessedKeyUnwritten(roundNum, usefulDiffTrails, plaintexts, 0, roundKeys0[roundNum + 1], pbox);
    assert Ok(partialKeysToCombine) == SimplePartialKeys(roundNum, usefulDiffTrails, plaintexts, roundKeys0, keys, sbox, pbox, 0);
    assert totalKeyBitsBroken == ClaimedBefore(roundNum, usefulDiffTrails, 0, pbox);
    hide SimplePartialKeys, ClaimedBefore;
    for t := 0 to |usefulDiffTrails|
      invariant Ok(partialKeysToCombine) ==
        SimplePartialKeys(roundNum, usefulDiffTrails, plaintexts, roundKeys0, keys, sbox, pbox, t)
      invariant totalKeyBitsBroken == ClaimedBefore(roundNum, usefulDiffTrails, t, pbox)
      invariant roundKeys[..] == roundKeys0[roundNum + 1 := roundKeys[roundNum + 1]]
      invariant roundKeys[roundNum + 1] == GuessedKeyAfter(roundNum, usefulDiffTrails, plaintexts, t, roundKeys0[roundNum + 1], pbox)
    {
      var breakingKeyBits := FindWhichKeyBitsWillBeBroken(roundNum, usefulDiffTrails[t].outputXor, pbox);
      GuessedKeyStep(roundNum, usefulDiffTrails, plaintexts, t, roundKeys0[roundNum + 1], pbox);
      ClaimedBeforeStep(roundNum, usefulDiffTrails, t, pbox);
      var brokenKeyBits := BreakTrailSimple(roundNum, usefulDiffTrails[t], plaintexts[t], roundKeys, roundKeys0,
        keys, sbox, pbox);
      if brokenKeyBits.Abort? {
        StoppedRun(roundNum, usefulDiffTrails, plaintexts, roundKeys0, keys, sbox, pbox, t, brokenKeyBits.reason);
        return Abort(brokenKeyBits.reason);
      }
      SimpleStepOk(roundNum, usefulDiffTrails, plaintexts, roundKeys0, keys, sbox, pbox, t, partialKeysToCombine,
        brokenKeyBits.value);
      var partialKey := brokenKeyBits.value & (!totalKeyBitsBroken & 0xffff);
      totalKeyBitsBroken := totalKeyBitsBroken | breakingKeyBits;
      partialKeysToCombine := partialKeysToCombine + [partialKey];
    }
    FinishedRun(roundNum, usefulDiffTrails, plaintexts, roundKeys0, keys, sbox, pbox, partialKeysToCombine);
    var fullKey := CombinePartialKeys(partialKeysToCombine);
    roundKey := Ok(fullKey);
  }

  /** One break_key_bits call of the loop; the result does not depend on the guessed round key it overwrites. */
  method BreakTrailSimple(roundNum: nat, usefulDiffTrail: DiffTrail, plaintexts: seq<Word>, roundKeys: array<Word>,
                          ghost roundKeys0: seq<Word>, keys: seq<Word>, sbox: seq<int>, pbox: seq<int>)
    returns (brokenKeyBits: Result<Word>)
    requires roundNum < 4 && roundKeys.Length == 5 && |keys| == 5 && IsBox(sbox) && IsBox(pbox)
    requires |roundKeys0| == 5 && roundKeys[..] == roundKeys0[roundNum + 1 := roundKeys[roundNum + 1]]
    modifies roundKeys
    ensures brokenKeyBits == BestKey(roundNum, usefulDiffTrail, plaintexts, roundKeys0, keys, sbox, pbox)
    ensures roundKeys[..] == roundKeys0[roundNum + 1 := roundKeys[roundNum + 1]]
    ensures roundKeys[roundNum + 1] == if |plaintexts| == 0 then old(roundKeys[roundNum + 1])
      else FindWhichKeyBitsWillBeBroken(roundNum, usefulDiffTrail.outputXor, pbox)
  {
    hide Tallies, MostProbableKey;
    var breakingKeyBits := FindWhichKeyBitsWillBeBroken(roundNum, usefulDiffTrail.outputXor, pbox);
    ghost var current := roundKeys[..];
    assert current == roundKeys0[roundNum + 1 := current[roundNum + 1]];
    TalliesIgnoreGuessedKey([], roundNum, plaintexts, usefulDiffTrail.inputXor, usefulDiffTrail.outputXor,
      breakingKeyBits, roundKeys0, current[roundNum + 1], keys, sbox, pbox);
    brokenKeyBits := BreakKeyBitsSimple(roundNum, plaintexts, usefulDiffTrail.inputXor, usefulDiffTrail.outputXor,
      breakingKeyBits, roundKeys, keys, sbox, pbox);
  }

  /**
   * First claim wins: no partial key has a bit that an earlier trail's
   * key-bit mask covers, so ORing them never overwrites an earlier trail's bits.
   */
  lemma {:induction false} FirstClaimWinsSimple(roundNum: nat, trails: seq<DiffTrail>, plaintexts: seq<seq<Word>>,
                                               roundKeys: seq<Word>, keys: seq<Word>, sbox: seq<int>, pbox: seq<int>,
                                               n: nat, t: nat)
    requires roundNum < 4 && |roundKeys| == 5 && |keys| == 5 && IsBox(sbox) && IsBox(pbox)
    requires n <= |trails| && |plaintexts| == |trails| && t < n
    requires SimplePartialKeys(roundNum, trails, plaintexts, roundKeys, keys, sbox, pbox, n).Ok?
    ensures SimplePartialKeys(roundNum, trails, plaintexts, roundKeys, keys, sbox, pbox, n).value[t] &
      ClaimedBefore(roundNum, trails, t, pbox) == 0
  {
    hide BestKey, ClaimedBefore, Tallies, MostProbableKey, FindWhichKeyBitsWillBeBroken;
    var prev := SimplePartialKeys(roundNum, trails, plaintexts, roundKeys, keys, sbox, pbox, n - 1);
    var key := BestKey(roundNum, trails[n - 1], plaintexts[n - 1], roundKeys, keys, sbox, pbox);
    if t < n - 1 {
      FirstClaimWinsSimple(roundNum, trails, plaintexts, roundKeys, keys, sbox, pbox, n - 1, t);
    } else {
      ClearedBits(key.value, ClaimedBefore(roundNum, trails, t, pbox));
    }
  }
}

/** combine_partial_keys of python/spn-diff-crypt-simple.py, kept apart from the attack's larger vocabulary. */
module PartialKeys {
  import opened Register

  /** The OR of all partial keys; 0 for none. */
  function OrAll(partialKeys: seq<Word>): Word
  {
    if |partialKeys| == 0 then 0
    else OrAll(partialKeys[..|partialKeys| - 1]) | partialKeys[|partialKeys| - 1]
  }

  /** combine_partial_keys: ORs every partial key into full_key, which starts at 0. */
  method CombinePartialKeys(partialKeysToCombine: seq<Word>) returns (fullKey: Word)
    ensures fullKey == OrAll(partialKeysToCombine)
  {
    fullKey := 0;
    for i := 0 to |partialKeysToCombine|
      invariant fullKey == OrAll(partialKeysToCombine[..i])
    {
      assert partialKeysToCombine[..i + 1][..i] == partialKeysToCombine[..i];
      fullKey := fullKey | partialKeysToCombine[i];
    }
    assert partialKeysToCombine[..|partialKeysToCombine|] == partialKeysToCombine;
  }

  /** Every bit set in a is set in w. */
  predicate Within(a: Word, w: Word)
  {
    a | w == w
  }

  lemma OrWithin(a: Word, b: Word, w: Word)
    ensures Within(a | b, w) <==> Within(a, w) && Within(b, w)
  {
    OrBits(a, b, w);
  }

  lemma OrBits(a: Word, b: Word, w: Word)
    ensures (a | b) | w == w <==> (a | w == w && b | w == w)
  {
  }

  /** Every bit of every partial key is set in the combined key. */
  lemma {:induction false} OrAllCovers(partialKeys: seq<Word>, i: nat)
    requires i < |partialKeys|
    ensures Within(partialKeys[i], OrAll(partialKeys))
  {
    var init := partialKeys[..|partialKeys| - 1];
    var last := partialKeys[|partialKeys| - 1];
    var all := OrAll(partialKeys);
    OrWithin(OrAll(init), last, all);
    if i < |init| {
      OrAllCovers(init, i);
      WithinTrans(partialKeys[i], OrAll(init), all);
    }
  }

  /**
   * The combined key is the least word covering every partial key: when
   * every partial key lies within w, so does the combined key (with w == 0,
   * no partial keys or only zero ones combine to 0).
   */
  lemma {:induction false} OrAllLeast(partialKeys: seq<Word>, w: Word)
    requires forall i :: 0 <= i < |partialKeys| ==> Within(partialKeys[i], w)
    ensures Within(OrAll(partialKeys), w)
  {
    if |partialKeys| == 0 {
      ZeroWithin(w);
    } else {
      var init := partialKeys[..|partialKeys| - 1];
      var last := partialKeys[|partialKeys| - 1];
      OrAllLeast(init, w);
      OrWithin(OrAll(init), last, w);
    }
  }

  lemma WithinTrans(a: Word, b: Word, c: Word)
    requires Within(a, b) && Within(b, c)
    ensures Within(a, c)
  {
    assert a | c == a | (b | c) == (a | b) | c;
  }

  lemma ZeroWithin(w: Word)
    ensures Within(0, w)
  {
  }
}
