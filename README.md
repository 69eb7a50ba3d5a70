# Differential cryptanalysis of toy ciphers, in Dafny

This project models the deterministic machinery of a tutorial on differential
cryptanalysis. The tutorial attacks two small ciphers:

- a 4-bit toy cipher `c = S(p ^ k1) ^ k2`;
- a 16-bit substitution-permutation network (SPN) with five round keys, after
  the construction in Stinson's *Cryptography: Theory and Practice*.

The model covers both ciphers and their inverses, the difference distribution
table (DDT), the greedy search for differential trails and its preference
score, and the choice of trails that together reach every S-box. For the key
recovery it covers the key-bit masks, the enumeration of every guess for the
masked bits, and the vote counting over partial decryptions. It also covers
the ranking and combination of partial subkeys, the direct recovery of the
first round key, and the confirmation of guessed keys. The single-candidate
variant of the attack, the toy-cipher attack with its witness DDT, the
browser implementations of both ciphers and the mutable `BitString` class
are modelled as well.

The secret keys, the S-box and the P-box are parameters. So are the random
plaintexts and draws: each becomes a sequence the caller supplies. A 16-bit
register is a `bv16` (`Register.Word`), and a 4-bit value is an `int` in
0..15, as in the scripts. Probabilities are exact `real`s. They are products
of `count/16` and a division by 4, so no rounding occurs.

Modules, in dependency order:

- `Wrappers`: `Option`, and `Result`, which carries the abort (`sys.exit`) of
  the scripts.
- `Register`: the bit and nibble helpers and the popcount.
- `Spn`: the 16-bit cipher and the derived inverse boxes.
- `Ddt`: the 16 x 16 count table.
- `Sorting`: Python's stable sort, as a stable insertion sort over a strict
  order.
- `Trails`: the greedy trails, their ranking and their selection.
- `KeyMask`: the key-bit masks and the enumeration of guesses.
- `Peel` and `Partial`: partial decryption, first-key recovery and
  confirmation.
- `Attack`: the vote dictionary and `break_key_bits`.
- `Combine` and `RoundKey`: combining the ranked candidates into round keys.
- `Simple` and `PartialKeys`: the single-candidate variant.
- `Toy`: the 4-bit cipher and its attack.
- `BitStrings`: the `BitString` class.
- `JsToy` and `JsSpn`: the browser ciphers.

Where the code and its documentation differ, the model follows the code:

- `INV_SBOX`/`INV_PBOX` take the first position of each value, and the value
  itself when it is absent (`Spn.InvertBox`).
- `calculate_inv_sbox` takes the last position written, and 0 for a value
  that is absent (`Toy.InvSbox`).
- Both are proved to be the two-sided inverse of a box that passes the
  configuration check.
- An empty list of candidates in `combine_partial_subkeys` throws away the
  keys built so far. The lists after it then combine as if they came first.
  This is modelled as written (`Combine.CombinationResetsOnEmpty`).
- The browser `spnPermutate` moves input bit `i` to output bit `pbox[i]`.
  The Python `permutate` sets output bit `i` from input bit `pbox[i]`. The
  browser also numbers bits most-significant first within the nibble
  array, while Python numbers them from the least significant bit of the
  word. Each is modelled in its own direction, and each is proved to be
  undone by its own inverse. For the default P-box, an involution that also
  commutes with reversing the bit order, the two directions agree
  (`JsSpn.DefaultPboxAgrees`).

## Model

| member | source | states |
|---|---|---|
| Register.GetBit | spn-diff-crypt.py:590-601 | the index-th bit, counted from the least significant end, is 0 or 1 |
| Register.SetBit | spn-diff-crypt.py:603-619 | None exactly when the value is neither 0 nor 1; otherwise the bit reads back as the value and the other fifteen bits are unchanged |
| Register.GetNibble | spn-diff-crypt.py:621-634 | the index-th nibble lies in 0..15 |
| Register.SetNibble | spn-diff-crypt.py:636-654 | None exactly when the value lies outside 0..0xf; otherwise the nibble reads back as the value and the other three nibbles are unchanged |
| Register.WithBitAt | spn-diff-crypt.py:612-619 | clearing a bit and XOR-ing the value in sets that bit and no other |
| Register.WithNibbleAt | spn-diff-crypt.py:645-654 | clearing a nibble and XOR-ing the value in sets that nibble and no other |
| Register.BitsDetermineWord | spn-diff-crypt.py:590-601 | two registers with the same sixteen bits are equal |
| Register.NibblesDetermineWord | spn-diff-crypt.py:621-634 | two registers with the same four nibbles are equal |
| Register.NibbleWeights | spn-diff-crypt.py:621-634 | nibble i is 8*b(4i+3) + 4*b(4i+2) + 2*b(4i+1) + b(4i) |
| Register.PopCountSum | spn-diff-crypt.py:576-588 | the number of one bits is the sum of the sixteen bits |
| Register.PopCountShift | spn-diff-crypt.py:583-586 | shifting right by one removes the low bit from the count |
| Register.CountOneBits | spn-diff-crypt.py:576-588 | the shifting loop returns the number of one bits |
| Spn.IndexOf | spn-diff-crypt.py:36 | list.index: the first position holding the value |
| Spn.ValidBoxIsPermutation | spn-diff-crypt.py:660-673 | a box of 16 entries that contains every value 0..15 is a permutation of 0..15 |
| Spn.InvertBox | spn-diff-crypt.py:36-37 | the derived list is a box; it maps each present value to a position holding it, and each absent value to itself |
| Spn.InvertBoxInverse | spn-diff-crypt.py:36-37 | for a valid box, the derived list is its two-sided inverse and is itself valid |
| Spn.AddRoundKey | spn-diff-crypt.py:551-554 | XOR-ing the result with the key gives the state back |
| Spn.SubstituteNibbles | spn-diff-crypt.py:556-562 | every output nibble is the S-box image of the same input nibble |
| Spn.PermutateBits | spn-diff-crypt.py:564-570 | output bit i is input bit pbox[i] |
| Spn.Substitute | spn-diff-crypt.py:556-562 | the loop over the four nibbles; Spn.SubstituteNibbles states that every output nibble is the S-box image of the same input nibble |
| Spn.Permutate | spn-diff-crypt.py:564-570 | the loop over the sixteen bits; Spn.PermutateBits states that output bit i is input bit pbox[i] |
| Spn.Encrypt | spn-diff-crypt.py:511-529 | three full rounds, the fourth without permutation, the final key XOR; Spn.DecryptEncrypt and Spn.EncryptDecrypt state that Decrypt undoes it and it undoes Decrypt |
| Spn.Decrypt | spn-diff-crypt.py:531-549 | the encryption steps undone in reverse order with the derived inverse boxes; Spn.DecryptEncrypt and Spn.EncryptDecrypt state the round trips |
| Spn.SubstituteThenInverse | spn-diff-crypt.py:556-562 | substituting with the box and then with the derived inverse, in either order, gives the state back |
| Spn.PermutateThenInverse | spn-diff-crypt.py:564-570 | permuting with the P-box and then with the derived inverse, in either order, gives the state back |
| Spn.AddRoundKeyTwice | spn-diff-crypt.py:551-554 | adding the same round key twice changes nothing |
| Spn.UndoFullRound | spn-diff-crypt.py:537-547 | a full decryption round undoes a full encryption round |
| Spn.RedoFullRound | spn-diff-crypt.py:512-522 | a full encryption round undoes a full decryption round |
| Spn.UndoLastRound | spn-diff-crypt.py:532-535 | the first steps of decrypt undo the fourth round and the final key XOR |
| Spn.RedoLastRound | spn-diff-crypt.py:524-527 | the fourth round and the final key XOR undo the first steps of decrypt |
| Spn.DecryptEncrypt | spn-diff-crypt.py:511-549 | decrypt(encrypt(p, k1..k5), k1..k5) == p for every plaintext and key set, given valid boxes |
| Spn.EncryptDecrypt | python/spn-diff-crypt-simple.py:455-493 | encrypt(decrypt(c, k1..k5), k1..k5) == c: the cipher is a bijection on 16-bit blocks |
| Ddt.OutDiff | spn-diff-crypt.py:497-498 | the output difference of an input pair is a nibble |
| Ddt.CountUpTo | spn-diff-crypt.py:495-500 | counting over the inputs 0..n-1 gives at most n |
| Ddt.BuildDifferenceDistributionTable | spn-diff-crypt.py:492-502 | the table built by in-place increments is Table(sbox), which counts, for each (a, b), the inputs x with sbox[x] ^ sbox[x ^ a] == b |
| Ddt.RowsSumTo16 | spn-diff-crypt.py:492-502 | every row of the table sums to 16 |
| Ddt.ZeroRow | spn-diff-crypt.py:492-502 | table[0][0] == 16 and every other entry of row 0 is 0 |
| Ddt.NonZeroRowsMissColumnZero | spn-diff-crypt.py:492-502 | for a bijective S-box, table[a][0] == 0 for every a != 0 |
| Ddt.EntriesBounded | spn-diff-crypt.py:492-502 | every entry lies in 0..16, and every row has a positive entry |
| Sorting.SortBy | spn-diff-crypt.py:423 | the sorted list has the same length and is a permutation of the input |
| Sorting.SortByIsSorted | spn-diff-crypt.py:423 | for a strict order, the sorted list is sorted |
| Sorting.SortByStable | spn-diff-crypt.py:423 | for a strict weak order, the elements tied with any given element keep their input order: the sort is stable |
| Sorting.Take | spn-diff-crypt.py:242 | s[:n] keeps the first min(n, len(s)) elements in order |
| Trails.DdtIsProper | spn-diff-crypt.py:492-502 | the DDT of any S-box has entries in 0..16 and a positive entry in every row |
| Trails.RowMax | spn-diff-crypt.py:451 | max over a row is an element of it and no element exceeds it |
| Trails.GreedyOut | spn-diff-crypt.py:451-452 | the chosen output difference is the first position of the row maximum |
| Trails.LayerNibbles | spn-diff-crypt.py:447-456 | one S-box layer replaces every nibble by its own greedy output |
| Trails.TrailProbabilityBounds | spn-diff-crypt.py:439-459 | with a proper table, every trail probability lies in (0, 1] |
| Trails.TrailProbabilityDecreases | spn-diff-crypt.py:443-459 | one more round never increases the probability |
| Trails.ActiveCountExtremes | spn-diff-crypt.py:469-473 | at most four S-boxes are active; none exactly for the zero difference; four exactly when no nibble is zero |
| Trails.PreferenceBounds | spn-diff-crypt.py:475-488 | preference <= probability; it equals probability below three active S-boxes, probability/4 at three, and is 0 exactly at four |
| Trails.GreedyLayer | spn-diff-crypt.py:447-456 | the inner loop computes the greedy layer's difference and probability |
| Trails.CountActiveSboxes | spn-diff-crypt.py:469-473 | the loop counts the non-zero nibbles |
| Trails.FindDifferentialTrail | spn-diff-crypt.py:427-490 | returns the greedy trail's difference, probability and preference; zero rounds return the input difference with probability 1; the probability lies in (0, 1] |
| Trails.ComposeNibbles | spn-diff-crypt.py:412-417 | the difference built from the counters (i, j, k, l) has nibbles l, k, j, i from the low end |
| Trails.EntriesEnumerateInputs | spn-diff-crypt.py:405-421 | the list holds 65535 trails whose input differences are pairwise distinct, non-zero, and cover every non-zero difference |
| Trails.TrailBeforeIsStrictOrder | spn-diff-crypt.py:423 | descending order on the tuples is a strict order |
| Trails.FindHighlyProbableDifferentialTrails | spn-diff-crypt.py:393-425 | the method returns the recorded trails, sorted |
| Trails.HighlyProbableTrailsSorted | spn-diff-crypt.py:423 | the returned list is sorted best first and is a permutation of the trails computed |
| Trails.FirstUsefulFrom | python/spn-diff-crypt-simple.py:323-335 | the search from position k finds the first trail with an active nibble at an unused position, or reports that none exists |
| Trails.FindUsefulDiffTrail | spn-diff-crypt.py:379-391 | None exactly when no trail is useful; otherwise the first useful trail in list order |
| Trails.MarkAt | spn-diff-crypt.py:371-373 | after marking, a position is used exactly when it was used before or is active in the output difference |
| Trails.MarkUseful | spn-diff-crypt.py:365-375 | marking a useful trail strictly reduces the unused positions, so the loop ends |
| Trails.FindDifferentialTrailsToBreakFullKey | spn-diff-crypt.py:356-377 | the while loop returns Select of the trails from no used positions |
| Trails.SelectSucceeds | spn-diff-crypt.py:356-377 | the selection succeeds exactly when every position is used already or active in some trail |
| Trails.SelectLength | spn-diff-crypt.py:365-377 | at most one trail is chosen per unused position, so at most four in all |
| Trails.SelectCoverage | spn-diff-crypt.py:365-377 | after the selection, every position is active in some chosen trail |
| Trails.SelectNew | spn-diff-crypt.py:379-391 | every chosen trail activates a position that no earlier chosen trail covers |
| KeyMask.NibbleMaskNibbles | spn-diff-crypt.py:345-349 | before the permutation, the mask is 0xf exactly in the nibbles where the difference is non-zero, and 0 elsewhere |
| KeyMask.NibbleMaskBits | spn-diff-crypt.py:345-349 | bit k of that mask is set exactly when nibble k/4 of the difference is active |
| KeyMask.FindWhichKeyBitsWillBeBroken | spn-diff-crypt.py:338-354 | the mask of key bits the trail breaks; KeyMask.KeyBitsWillBeBroken and KeyMask.KeyBitsCount state which bits and how many |
| KeyMask.KeyBitsWillBeBroken | spn-diff-crypt.py:338-354 | bit k of the mask is set exactly when the S-box fed by key bit k (through the P-box for rounds below 3) is active |
| KeyMask.ImageOfOnes | spn-diff-crypt.py:564-570 | the P-box maps the one positions of the permuted word onto those of the original |
| KeyMask.PermutatePopCount | spn-diff-crypt.py:564-570 | a bit permutation keeps the number of one bits |
| KeyMask.MaskPopCount | spn-diff-crypt.py:345-349 | the unpermuted mask has four bits per active S-box |
| KeyMask.KeyBitsCount | spn-diff-crypt.py:338-354 | the mask has 4 x (number of active S-boxes) one bits, with or without the permutation |
| KeyMask.GuessBits | spn-diff-crypt.py:257-270 | bit j of guess i is set exactly when mask bit j takes a one from i, so every guess is a sub-mask |
| KeyMask.ExtractGuess | spn-diff-crypt.py:257-270 | guess numbers below 2^popcount are recovered from their guesses |
| KeyMask.GuessExtract | spn-diff-crypt.py:257-270 | every sub-mask is the guess of some number below 2^popcount |
| KeyMask.GuessesEnumerateSubMasks | spn-diff-crypt.py:255-270 | the 2^n guesses are sub-masks, pairwise distinct, and cover every sub-mask: each sub-mask exactly once |
| KeyMask.LastGuessIsMask | spn-diff-crypt.py:257-270 | the last guess sets every mask bit |
| Peel.EncryptIsRounds | spn-diff-crypt.py:511-529 | encrypt is three full rounds followed by the last round |
| Peel.PeelLastRounds | spn-diff-crypt.py:323-332 | peeling down to round 3 is the key-5 XOR and the inverse S-box, with no inverse permutation; down to round 2 it adds the key-4 XOR, the inverse permutation and the inverse S-box |
| Peel.PeelStepStage | spn-diff-crypt.py:323-332 | with the right key, one iteration takes the S-box input of round i+1 to that of round i |
| Peel.PeelFromStage | spn-diff-crypt.py:323-332 | with the right keys above round_num, the loop takes any stage down to the stage of round_num |
| Peel.PeelEncrypt | spn-diff-crypt.py:317-336 | with the right keys above round_num, peeling a ciphertext gives the state after round_num rounds XOR the next round key |
| Peel.PartialXorIsRoundDifference | spn-diff-crypt.py:317-336 | with the right keys, partial_decryption of two ciphertexts is the XOR of the states after round_num rounds: the round key cancels |
| Peel.BreakFirstRoundKeyPeels | spn-diff-crypt.py:287-315 | break_first_round_key is the plaintext XOR the loop of partial_decryption down to round 0 |
| Peel.BreakFirstRoundKey | spn-diff-crypt.py:287-315 | what break_first_round_key returns; Peel.BreakFirstRoundKeyCorrect states that it is KEY1 when the later round keys are right |
| Peel.BreakFirstRoundKeyCorrect | python/spn-diff-crypt-simple.py:231-259 | when round_keys[1..4] equal KEY2..KEY5, the result is exactly KEY1, whatever the plaintext |
| Peel.ConfirmKeyGuesses | spn-diff-crypt.py:118-135 | True exactly when the guessed keys encrypt every given plaintext as the secret keys do |
| Partial.PartialDecryption | spn-diff-crypt.py:317-336 | the method returns PartialXor |
| Partial.PeelPair | spn-diff-crypt.py:323-332 | the loop peels the same rounds off both ciphertexts |
| Attack.TallyLookup | spn-diff-crypt.py:281-285 | a vote adds one to the voted key and leaves every other count unchanged |
| Attack.TallyKeys | spn-diff-crypt.py:282-285 | a vote keeps the existing keys in place and appends an unseen key |
| Attack.TallyDistinct | spn-diff-crypt.py:282-285 | a vote keeps the keys distinct |
| Attack.TallyAbsent | spn-diff-crypt.py:282-283 | an unseen key is appended with count 1 |
| Attack.TallyPresent | spn-diff-crypt.py:284-285 | a known key's count goes up by one in place |
| Attack.KeyCountDict.Count | spn-diff-crypt.py:282-285 | the dictionary after the update is the vote for the key |
| Attack.TakesCondition | spn-diff-crypt.py:267 | `i > div - 1 and i % (div * 2) >= div` holds exactly when the div-place digit of i is 1 |
| Attack.BuildKeyGuess | spn-diff-crypt.py:255-270 | the inner loop, with div halved at every mask bit, builds Guess(mask, i) |
| Attack.GuessKeyBits | spn-diff-crypt.py:247-285 | the dictionary gets the votes of guesses 0..2^n-1; of round_keys only index round_num+1 changes, and it ends holding the mask |
| Attack.VotesLookup | spn-diff-crypt.py:257-285 | after the first n guesses, a key has gained one vote exactly when it is a sub-mask among them that matches |
| Attack.VotesCount | spn-diff-crypt.py:247-285 | one ciphertext pair adds exactly one vote to every matching sub-mask and none to anything else |
| Attack.VotesDistinct | spn-diff-crypt.py:281-285 | the votes keep the dictionary's keys distinct |
| Attack.VotesNewKeys | spn-diff-crypt.py:281-285 | the votes add only sub-masks of the mask as keys |
| Attack.VotesPositive | spn-diff-crypt.py:281-285 | every stored count stays at least 1 |
| Attack.VotesIgnoreGuessedKey | spn-diff-crypt.py:273-275 | the votes do not depend on what round key round_num+1 held before |
| Attack.MoreVotesIsStrict | spn-diff-crypt.py:241 | sorting by count in reverse is ordering by a strict order |
| Attack.TalliesLookup | spn-diff-crypt.py:228-238 | after all pairs, a sub-mask's count is the number of pairs it matches |
| Attack.TalliesKeys | spn-diff-crypt.py:228-238 | the dictionary keeps distinct keys with positive counts and gains only sub-masks |
| Attack.MostProbableTop | spn-diff-crypt.py:241-242 | the kept entries are at most MIN_NUM_OPTIONS, in descending vote order, and none left out has more votes |
| Attack.MostProbable | spn-diff-crypt.py:241-242 | the entries break_key_bits keeps; Attack.MostProbableTop states that they are the top entries |
| Attack.PrefixTop | spn-diff-crypt.py:241-242 | the first MIN_NUM_OPTIONS entries of a sorted permutation are the top entries |
| Attack.TopKeepsAll | spn-diff-crypt.py:241-242 | when fewer than MIN_NUM_OPTIONS entries are kept, every entry of the dictionary is kept |
| Attack.CountKeyGuesses | spn-diff-crypt.py:228-238 | the counting loop builds Tallies and writes only round key round_num+1 |
| Attack.BreakKeyBits | spn-diff-crypt.py:211-245 | returns the keys of the top MIN_NUM_OPTIONS entries of the tallies; writes only round key round_num+1 |
| Attack.BreakKeyBitsRanks | spn-diff-crypt.py:211-245 | at most MIN_NUM_OPTIONS sub-masks, each matched by at least one pair, in descending order of matching pairs; no sub-mask left out matches more pairs than a returned one, and when fewer than MIN_NUM_OPTIONS come back, every sub-mask matched by some pair is among them |
| Attack.TalliesIgnoreGuessedKey | spn-diff-crypt.py:228-238 | the tallies do not depend on what round key round_num+1 held before |
| Combine.Rows | spn-diff-crypt.py:197-200 | the nested loops produce |full_keys| x |candidates| entries |
| Combine.RowsAt | spn-diff-crypt.py:197-200 | entry a*|candidates|+j extends full key a by candidate j |
| Combine.TupleBeforeIsStrict | spn-diff-crypt.py:204 | tuple order on (index sum, key) is a strict order |
| Combine.CombinePartialSubkeys | spn-diff-crypt.py:177-209 | the method returns Combined of the lists |
| Combine.ExtendFullKeys | spn-diff-crypt.py:191-202 | one pass of the outer loop computes Extend |
| Combine.EnumerateCandidates | spn-diff-crypt.py:194-196 | the enumerate loop computes Enumerate |
| Combine.ExtendOne | spn-diff-crypt.py:198-200 | the inner loop computes one Row |
| Combine.CombinationLength | spn-diff-crypt.py:191-202 | with no empty list, the number of full keys is the product of the list lengths, and none for no lists |
| Combine.CombinationAt | spn-diff-crypt.py:191-202 | the full key at a choice's mixed-radix position is the sum of its indices and the OR of its candidates |
| Combine.ChoiceIndexBound | spn-diff-crypt.py:191-202 | a choice's position lies below the product of the list lengths, which is the number of full keys |
| Combine.ChoiceIndexInjective | spn-diff-crypt.py:191-202 | two choices of candidates at the same position are the same choice |
| Combine.CombinationFrom | spn-diff-crypt.py:191-202 | every full key in the list comes from a choice of one candidate per list, at that choice's position: with CombinationAt, ChoiceIndexBound and ChoiceIndexInjective, the positions of the full keys correspond one to one to the choices |
| Combine.CombinationResetsOnEmpty | spn-diff-crypt.py:194-196 | an empty list of candidates wipes the full keys built so far |
| Combine.CombinationAfterEmpty | spn-diff-crypt.py:191-202 | after an empty list, the combination starts over as if the next list were the first |
| Combine.CombinedOrdered | spn-diff-crypt.py:204-207 | the result is the keys of a permutation of the combinations, ordered by non-decreasing index sum and, on ties, by key |
| Combine.Combined | spn-diff-crypt.py:204-209 | what combine_partial_subkeys returns; Combine.CombinedOrdered and Combine.CombinedLength state its order and its size |
| Combine.CombinedLength | spn-diff-crypt.py:177-209 | with no empty list, the result has one key per combination |
| RoundKey.ClearClaimed | spn-diff-crypt.py:163-164 | the in-place loop computes Claim, whose entries share no bit with the claimed bits (RoundKey.ClearedBits) |
| RoundKey.ClearedBits | spn-diff-crypt.py:164 | a cleared candidate shares no bit with the claimed bits |
| RoundKey.DedupSpec | spn-diff-crypt.py:167 | list(dict.fromkeys(s)) has no duplicates, the same values as s, is no longer than s, and lists the values in the order of their first occurrence in s |
| RoundKey.DedupDistinct | spn-diff-crypt.py:167 | a list without duplicates is left as it is |
| RoundKey.RemoveDuplicates | spn-diff-crypt.py:167 | the loop computes Dedup |
| RoundKey.BreakRoundKey | spn-diff-crypt.py:137-175 | returns Combined of the cleared, deduplicated candidate lists; round keys other than round_num+1 are unchanged, and round key round_num+1 ends as GuessedKeyAfter over all trails: the mask of the last trail that had plaintexts, or its old value when none had |
| RoundKey.GuessedKeyIsLastMask | spn-diff-crypt.py:273 | when trail t is the last of the first n trails to have plaintexts, round key round_num+1 holds t's key-bit mask |
| RoundKey.GuessedKeyUnwritten | spn-diff-crypt.py:273 | when none of the first n trails has plaintexts, round key round_num+1 keeps its old value |
| RoundKey.BreakTrail | spn-diff-crypt.py:149-171 | one pass breaks the trail's key bits, clears the claimed bits and removes duplicates; round key round_num+1 ends holding the trail's key-bit mask, or keeps its value when the trail has no plaintexts |
| RoundKey.CandidatesIgnoreGuessedKey | spn-diff-crypt.py:155 | the candidates do not depend on what round key round_num+1 held before |
| RoundKey.FirstClaimWins | spn-diff-crypt.py:163-169 | no candidate for trail t has a bit of an earlier trail's mask, so ORing never overwrites an earlier trail's bits |
| RoundKey.PartialSubkeysPrefix | spn-diff-crypt.py:149-171 | later trails leave the lists of earlier trails unchanged |
| Simple.BreakKeyBitsSimple | python/spn-diff-crypt-simple.py:154-189 | aborts when nothing was counted, else returns the head of the stable descending sort; writes only round key round_num+1 |
| Simple.SortedHeadFirstMost | python/spn-diff-crypt-simple.py:186 | the head of the sort has the most votes and is the first such entry in insertion order |
| Simple.MostProbableKey | python/spn-diff-crypt-simple.py:183-189 | the key break_key_bits returns, or the exit; Simple.SortedHeadFirstMost and Simple.BreakKeyBitsSimpleBest state that it has the most votes |
| Simple.BreakKeyBitsSimpleBest | python/spn-diff-crypt-simple.py:183-189 | aborts exactly when no sub-mask matched any pair; otherwise returns a sub-mask matched by at least one pair and by at least as many as any other sub-mask |
| Simple.SimplePartialKeys | python/spn-diff-crypt-simple.py:118-135 | when the run has not stopped, there is one partial key per trail |
| Simple.AbortPersists | python/spn-diff-crypt-simple.py:183-184 | once a trail aborts, later trails do not restart the run |
| Simple.BreakRoundKeySimple | python/spn-diff-crypt-simple.py:106-139 | returns the OR of the cleared best keys, or the abort; round keys other than round_num+1 are unchanged, and round key round_num+1 ends as GuessedKeyAfter over the TrailsRun trails: those up to and including the one that aborts |
| Simple.TrailsRunAll | python/spn-diff-crypt-simple.py:118-135 | when no trail aborts, every trail runs |
| Simple.TrailsRunStops | python/spn-diff-crypt-simple.py:183-184 | when trail t is the first to abort, exactly trails 0..t run, whatever follows |
| Simple.StoppedRun | python/spn-diff-crypt-simple.py:183-184 | when trail t is the first whose dictionary stays empty, break_round_key ends with that abort after t+1 trails |
| Simple.FinishedRun | python/spn-diff-crypt-simple.py:118-139 | when no dictionary stays empty, the round key is the OR of the partial keys and every trail ran |
| Simple.BreakTrailSimple | python/spn-diff-crypt-simple.py:123-124 | one break_key_bits call, independent of the round key it overwrites; round key round_num+1 ends holding the trail's key-bit mask, or keeps its value when the trail has no plaintexts |
| Simple.FirstClaimWinsSimple | python/spn-diff-crypt-simple.py:131-135 | no partial key has a bit of an earlier trail's mask |
| PartialKeys.CombinePartialKeys | python/spn-diff-crypt-simple.py:141-152 | the OR-accumulating loop returns OrAll, which is 0 for no keys |
| PartialKeys.OrWithin | python/spn-diff-crypt-simple.py:150 | a \| b lies within w exactly when both a and b do |
| PartialKeys.OrAllCovers | python/spn-diff-crypt-simple.py:141-152 | every bit of every partial key is set in the result |
| PartialKeys.OrAllLeast | python/spn-diff-crypt-simple.py:141-152 | the result is the least word covering every partial key |
| Toy.Sub | toy-cipher-diff-crypt.py:234-235 | the S-box lookup gives a nibble |
| Toy.ToyEncrypt | toy-cipher-diff-crypt.py:217-222 | the ciphertext is a nibble |
| Toy.CalculateInvSbox | toy-cipher-diff-crypt.py:259-265 | the in-place loop computes InvSbox |
| Toy.InvSbox | toy-cipher-diff-crypt.py:259-265 | the list calculate_inv_sbox builds; Toy.InvSboxInverse and Toy.InvSboxIsInvertBox state that it inverts a valid box and equals INV_SBOX |
| Toy.InvSboxUpToLastWriter | toy-cipher-diff-crypt.py:262-263 | after n writes, an entry holds the last position written for its value, and 0 when nothing was written |
| Toy.InvSboxInverse | toy-cipher-diff-crypt.py:259-265 | for a valid box, inv[sbox[i]] == i and sbox[inv[v]] == v |
| Toy.InvSboxIsInvertBox | toy-cipher-diff-crypt.py:259-265 | for a valid box, calculate_inv_sbox and INV_SBOX give the same list |
| Toy.ToyDecrypt | toy-cipher-diff-crypt.py:224-232 | the plaintext is a nibble |
| Toy.ToyDecryptEncrypt | toy-cipher-diff-crypt.py:217-232 | decrypt(encrypt(p, k1, k2)) == p for a valid S-box |
| Toy.ToyEncryptDecrypt | toy-cipher-diff-crypt.py:217-232 | encrypt(decrypt(c, k1, k2)) == c for a valid S-box |
| Toy.BuildWitnessTable | toy-cipher-diff-crypt.py:181-211 | the append loops build WitnessTable |
| Toy.CellSound | toy-cipher-diff-crypt.py:199-211 | every tuple (x, x*, y, y*) in cell [a][b] has x ^ x* == a, y == sbox[x], y* == sbox[x*] and y ^ y* == b |
| Toy.CellCount | toy-cipher-diff-crypt.py:199-211 | the length of a cell is the count of the plain DDT |
| Toy.CellComplete | toy-cipher-diff-crypt.py:201-209 | every input x has its tuple in the cell of its output difference |
| Toy.WitnessTableShape | toy-cipher-diff-crypt.py:181-211 | the cell lengths are the DDT, every row holds 16 tuples, and cell [0][0] holds 16 |
| Toy.GetGoodPair | toy-cipher-diff-crypt.py:132-157 | None exactly when no plain1 works; otherwise the first plain1 whose pair has the input difference and whose real ciphertexts have the output difference |
| Toy.PlainDifference | toy-cipher-diff-crypt.py:146 | plain2 = plain1 ^ input_xor differs from plain1 by input_xor |
| Toy.GetPossibleKeyPairs | toy-cipher-diff-crypt.py:91-130 | one key pair (plain1 ^ x, cipher1 ^ y) per tuple of the cell, in order |
| Toy.KeyPairs | toy-cipher-diff-crypt.py:108-128 | there are as many key pairs as tuples in the cell |
| Toy.KeyPairsEncrypt | toy-cipher-diff-crypt.py:116-128 | every key pair encrypts plain1 to cipher1 and plain2 to cipher2 |
| Toy.KeyPairSolves | toy-cipher-diff-crypt.py:122-126 | the key pair of a sound tuple solves both encryptions |
| Toy.KeyPairsComplete | toy-cipher-diff-crypt.py:108-128 | for a genuine good pair under (KEY1, KEY2), (KEY1, KEY2) is among the key pairs |
| Toy.FirstAgreeing | toy-cipher-diff-crypt.py:74-89 | None exactly when no pair agrees with the secret keys on all 16 plaintexts; otherwise the first that does |
| Toy.ConfirmKeyGuesses | toy-cipher-diff-crypt.py:66-89 | the nested early-exit loops compute FirstAgreeing |
| Toy.ToyAttackFindsKeys | toy-cipher-diff-crypt.py:66-130 | from a genuine good pair, the confirmation accepts some key pair, and it agrees with the secret keys on every plaintext |
| Toy.PickRandomDifferentialCharacteristic | toy-cipher-diff-crypt.py:159-179 | returns the first draw that is not (0, 0) and has a non-empty cell; None only when the draws run out |
| Toy.UsableHasWitness | toy-cipher-diff-crypt.py:172-177 | a usable draw is a characteristic some input pair follows |
| BitStrings.BitOf | BitString.py:27-31 | a bit of an unbounded integer is 0 or 1 |
| BitStrings.NibbleOf | BitString.py:58-64 | a nibble of an unbounded integer lies in 0..15 |
| BitStrings.WriteBitBits | BitString.py:45-47 | clearing a bit and XOR-ing the value in sets that bit and no other |
| BitStrings.WriteNibbleNibbles | BitString.py:78-82 | clearing a nibble and XOR-ing the value in sets that nibble and no other |
| BitStrings.NibbleFromBits | BitString.py:51-64 | nibble i is 8*b(4i+3) + 4*b(4i+2) + 2*b(4i+1) + b(4i) |
| BitStrings.OnesIsBitSum | BitString.py:5-18 | for 0 <= v < 2^n, the loop's count is the number of one bits among the n low bits |
| BitStrings.OnesOfNegative | BitString.py:13 | a negative value counts no one bits |
| BitStrings.BitString.constructor | BitString.py:2-3 | the object wraps the given integer |
| BitStrings.BitString.GetBit | BitString.py:20-31 | the index-th bit is 0 or 1 |
| BitStrings.BitString.GetNibble | BitString.py:51-64 | the index-th nibble lies in 0..15 |
| BitStrings.BitString.SetBit | BitString.py:33-49 | None and no change for a value other than 0/1; otherwise the bit reads back as the value, every other bit keeps its old value, and the new integer is returned |
| BitStrings.BitString.SetNibble | BitString.py:66-84 | None and no change for a value outside 0..0xf; otherwise the nibble reads back as the value, every other nibble keeps its old value, and the new integer is returned |
| BitStrings.BitString.CountOneBits | BitString.py:5-18 | returns the loop's count of one bits and modifies nothing |
| BitStrings.LtIsStrict | BitString.py:89-90 | the order of the wrapped integers is irreflexive and transitive |
| JsToy.InvertBoxInverses | spn-diff-crypt.py:36 | the derived list is a two-sided inverse of a valid box, as the browser ciphers require |
| JsToy.NibbleToBits | js/toy.js:1-10 | four bits, each 0 or 1 |
| JsToy.NibbleToBitsWeights | js/toy.js:1-10 | the bits, most significant first, weighted 8, 4, 2, 1 sum to the nibble |
| JsToy.BitsToNibbleBits | js/spn.js:18 | four bits spell a nibble whose bits are those four |
| JsToy.Substitute | js/toy.js:12-14 | the lookup gives a nibble |
| JsToy.AddRoundKeyTwice | js/toy.js:16-18 | adding the same key twice gives the state back |
| JsToy.Encrypt | js/toy.js:20-26 | the ciphertext is a nibble; JsToy.DecryptEncrypt, JsToy.EncryptDecrypt and JsToy.AgreesWithPython state the round trips and the agreement with the Python cipher |
| JsToy.Decrypt | js/toy.js:28-34 | the plaintext is a nibble; JsToy.DecryptEncrypt and JsToy.EncryptDecrypt state the round trips |
| JsToy.DecryptEncrypt | js/toy.js:20-34 | toyDecrypt undoes toyEncrypt when invSbox is the inverse of sbox |
| JsToy.EncryptDecrypt | js/toy.js:20-34 | toyEncrypt undoes toyDecrypt when invSbox is the inverse of sbox |
| JsToy.AgreesWithPython | js/toy.js:20-34 | the browser toy cipher equals the Python one; with calculate_inv_sbox's box so does decryption |
| JsToy.EncryptWithSteps | js/toy.js:36-51 | four states, the first the input and the last the encryption |
| JsToy.DecryptWithSteps | js/toy.js:53-68 | four states, the first the input and the last the decryption |
| JsSpn.NibblesToBits | js/spn.js:1-12 | four bits per nibble, each 0 or 1 |
| JsSpn.BitsToNibbles | js/spn.js:14-23 | one nibble per four bits |
| JsSpn.NibbleGroup | js/spn.js:4-9 | bits 4i..4i+3 are the bits of nibble i, most significant first |
| JsSpn.NibblesBitsNibbles | js/spn.js:1-23 | bitsToNibbles(nibblesToBits(ns)) == ns |
| JsSpn.BitsNibblesBits | js/spn.js:1-23 | nibblesToBits(bitsToNibbles(bs)) == bs for a bit list whose length is a multiple of 4 |
| JsSpn.Substitute | js/spn.js:25-33 | keeps the length and gives nibbles |
| JsSpn.SubstituteThenInverse | js/spn.js:25-33 | substituting through the inverse box undoes a substitution |
| JsSpn.Scatter | js/spn.js:36-42 | the written list has 16 bits |
| JsSpn.ScatterAt | js/spn.js:40-42 | with distinct targets, position pbox[i] holds input bit i |
| JsSpn.Permutate | js/spn.js:35-45 | the result is a four-nibble state |
| JsSpn.PermutateBits | js/spn.js:35-45 | output bit pbox[i] is input bit i |
| JsSpn.ScatterThenInverse | js/spn.js:40-42 | scattering through the inverse P-box puts every bit back |
| JsSpn.PermutateThenInverse | js/spn.js:35-45 | permuting with the inverse P-box restores the state |
| JsSpn.WordStateBit | js/spn.js:1-12 | reading a register as hex digits, most significant first, puts register bit 15 - p at position p of the browser's bit list |
| JsSpn.DefaultPboxAgrees | js/spn.js:35-45 | for the default P-box of spn-diff-crypt.py, the browser's permutation of a register's hex digits is the hex digits of the Python permutation of the register |
| JsSpn.AddRoundKey | js/spn.js:47-55 | element-wise XOR keeps the length and gives nibbles |
| JsSpn.AddRoundKeyTwice | js/spn.js:47-55 | adding the same key twice gives the state back |
| JsSpn.UndoRound | js/spn.js:84-98 | an inverse round undoes a round |
| JsSpn.RedoRound | js/spn.js:60-72 | a round undoes an inverse round |
| JsSpn.Encrypt | js/spn.js:57-77 | the ciphertext is a four-nibble state; JsSpn.DecryptEncrypt and JsSpn.EncryptDecrypt state the round trips |
| JsSpn.Decrypt | js/spn.js:79-101 | the plaintext is a four-nibble state; JsSpn.DecryptEncrypt and JsSpn.EncryptDecrypt state the round trips |
| JsSpn.DecryptEncrypt | js/spn.js:57-101 | spnDecrypt undoes spnEncrypt when invSbox and invPbox are the inverses |
| JsSpn.EncryptDecrypt | js/spn.js:57-101 | spnEncrypt undoes spnDecrypt when invSbox and invPbox are the inverses |
| JsSpn.EncryptWithSteps | js/spn.js:103-139 | thirteen states, the first the input and the last the encryption |
| JsSpn.DecryptWithSteps | js/spn.js:141-177 | thirteen states, the first the input and the last the decryption |

## Left out

- Randomness: `choose_random_plaintext` and the `random.randint` draws are
  sequences the caller supplies. `pick_random_differential_characteristic`
  retries until it finds a usable draw; the model returns None when the
  supplied draws run out.
- The number of chosen plaintexts, `round(C / probability)`, is the length of
  the plaintext sequence the caller supplies. The constant `C` is not
  modelled.
- The orchestration in each `main`, together with printing, timing,
  `get_diff_dist_table_string`, `get_hex_array` and `BitString.__str__`.
  This covers the backtracking over candidate round keys in
  spn-diff-crypt.py, the linear peeling in python/spn-diff-crypt-simple.py,
  and the retry loop of the toy attack.
- `validate_input`: its checks become preconditions. A box must pass
  `Spn.ValidBox` where a proof needs it, and the keys are 16-bit words or
  nibbles by type or requirement.
- The dictionary keys of `key_count_dict` are the guessed words themselves,
  not their hexadecimal strings. The formatting and parsing are a bijection
  on 16-bit values.
- `math.pow` and the float `div` of `guess_key_bits` are integer powers of two.
- `sys.exit` in the single-candidate `break_key_bits` is the `Abort` value of
  `Result`. A `None` from `find_useful_diff_trail`, which the caller would
  index and crash on, is None of `Option`.
- The browser code assumes what it does not check: a state of four nibbles,
  keys as long as the state, and a bit list for `bitsToNibbles` whose length
  is a multiple of 4 and whose entries are 0 or 1. These are preconditions.
  The inverse boxes are supplied by the caller, as in the browser. The `|`
  of `bitsToNibbles` is a sum, which equals it on such bits.
- `BitStrings.BitString.Lt`: a plain predicate. What it promises is stated by
  `BitStrings.LtIsStrict`.
- BitStrings.BitString.GetBit, SetBit, GetNibble and SetNibble take a
  `nat` index, so the `ValueError` ("negative shift count") that Python
  raises on a negative index (BitString.py:28, 44, 61, 79) is not modelled.
- Trails.FindDifferentialTrailsToBreakFullKey: where spn-diff-crypt.py would crash
  on a missing trail, the model returns None.
- The visualisation scripts, the page-generation scripts and
  include-components.c are not part of this model.
- The statistical claim that enough random pairs single out the true key
  depends on the sampling and is not stated.
