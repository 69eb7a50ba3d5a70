/**
 * combine_partial_subkeys of spn-diff-crypt.py: every way of taking one
 * candidate from each list of partial subkeys, ORed into a full round key
 * and ranked by the sum of the candidates' positions in their lists.
 */
module Combine {
  import opened Register
  import opened Sorting

  /** A full key under construction: the sum of the candidate indices used, and the OR of the candidates. */
  type Ranked = (nat, Word)

  /** partial_subkey_value | key: a candidate ORed into a full key. */
  function Merge(candidate: Word, key: Word): Word
  {
    candidate | key
  }

  lemma MergeZero(candidate: Word)
    ensures Merge(candidate, 0) == candidate
  {
  }

  /** The candidates of the first list, each with its own index. */
  function Enumerate(candidates: seq<Word>): (r: seq<Ranked>)
    ensures |r| == |candidates|
  {
    seq(|candidates|, j requires 0 <= j < |candidates| => (j, candidates[j]))
  }

  /** One full key extended by every candidate of the next list, in list order. */
  function Row(fullKey: Ranked, candidates: seq<Word>): (r: seq<Ranked>)
    ensures |r| == |candidates|
  {
    seq(|candidates|, j requires 0 <= j < |candidates| => (fullKey.0 + j, Merge(candidates[j], fullKey.1)))
  }

  /** Entry j of a row extends the full key by candidate j. */
  lemma RowAt(fullKey: Ranked, candidates: seq<Word>, j: nat)
    requires j < |candidates|
    ensures Row(fullKey, candidates)[j] == (fullKey.0 + j, Merge(candidates[j], fullKey.1))
  {
  }

  /** Every full key extended by every candidate: the nested loops over full_keys and the next list. */
  function Rows(fullKeys: seq<Ranked>, candidates: seq<Word>): (r: seq<Ranked>)
    ensures |r| == |fullKeys| * |candidates|
  {
    if |fullKeys| == 0 then []
    else
      var rest := Rows(fullKeys[1..], candidates);
      assert |fullKeys| * |candidates| == |candidates| + (|fullKeys| - 1) * |candidates|;
      Row(fullKeys[0], candidates) + rest
  }

  /**
   * One pass of the outer loop: an empty full_keys (at the start, or after a
   * list with no candidates) takes the enumerated list; otherwise every
   * full key is extended by every candidate.
   */
  function Extend(fullKeys: seq<Ranked>, candidates: seq<Word>): seq<Ranked>
  {
    if |fullKeys| == 0 then Enumerate(candidates) else Rows(fullKeys, candidates)
  }

  /** full_keys after the first n lists. */
  function Combination(lists: seq<seq<Word>>, n: nat): seq<Ranked>
    requires n <= |lists|
  {
    if n == 0 then [] else Extend(Combination(lists, n - 1), lists[n - 1])
  }

  /** The order of Python's sort on (index sum, key) tuples. */
  predicate TupleBefore(a: Ranked, b: Ranked)
  {
    a.0 < b.0 || (a.0 == b.0 && a.1 as int < b.1 as int)
  }

  lemma TupleBeforeIsStrict()
    ensures StrictOrder(TupleBefore)
  {
  }

  /** The keys of the ranked full keys, in order. */
  function Project(fullKeys: seq<Ranked>): (r: seq<Word>)
    ensures |r| == |fullKeys|
  {
    seq(|fullKeys|, i requires 0 <= i < |fullKeys| => fullKeys[i].1)
  }

  /** What combine_partial_subkeys returns. */
  function Combined(lists: seq<seq<Word>>): seq<Word>
  {
    Project(SortBy(Combination(lists, |lists|), TupleBefore))
  }

  /**
   * combine_partial_subkeys: builds full_keys list by list with append loops,
   * sorts the (index sum, key) tuples and keeps the keys.
   */
  method CombinePartialSubkeys(partialSubkeysToCombine: seq<seq<Word>>) returns (fullKeysOut: seq<Word>)
    ensures fullKeysOut == Combined(partialSubkeysToCombine)
  {
    var fullKeys: seq<Ranked> := [];
    for n := 0 to |partialSubkeysToCombine|
      invariant fullKeys == Combination(partialSubkeysToCombine, n)
    {
      var partialSubkeyValues := partialSubkeysToCombine[n];
      var newFullKeys := ExtendFullKeys(fullKeys, partialSubkeyValues);
      fullKeys := newFullKeys;
    }
    var sorted := SortBy(fullKeys, TupleBefore);
    fullKeysOut := [];
    for k := 0 to |sorted|
      invariant fullKeysOut == Project(sorted[..k])
    {
      fullKeysOut := fullKeysOut + [sorted[k].1];
    }
    assert sorted[..|sorted|] == sorted;
  }

  /** The body of the outer loop of combine_partial_subkeys. */
  method ExtendFullKeys(fullKeys: seq<Ranked>, partialSubkeyValues: seq<Word>) returns (newFullKeys: seq<Ranked>)
    ensures newFullKeys == Extend(fullKeys, partialSubkeyValues)
  {
    if |fullKeys| == 0 {
      newFullKeys := EnumerateCandidates(partialSubkeyValues);
    } else {
      newFullKeys := [];
      for a := 0 to |fullKeys|
        invariant newFullKeys == Rows(fullKeys[..a], partialSubkeyValues)
      {
        var row := ExtendOne(fullKeys[a], partialSubkeyValues);
        newFullKeys := newFullKeys + row;
        RowsAppend(fullKeys[..a], fullKeys[a], partialSubkeyValues);
        assert fullKeys[..a + 1] == fullKeys[..a] + [fullKeys[a]];
      }
      assert fullKeys[..|fullKeys|] == fullKeys;
    }
  }

  /** The loop over the first list: each candidate with its own index. */
  method EnumerateCandidates(partialSubkeyValues: seq<Word>) returns (newFullKeys: seq<Ranked>)
    ensures newFullKeys == Enumerate(partialSubkeyValues)
  {
    newFullKeys := [];
    for i := 0 to |partialSubkeyValues|
      invariant |newFullKeys| == i
      invariant forall k :: 0 <= k < i ==> newFullKeys[k] == (k, partialSubkeyValues[k])
    {
      newFullKeys := newFullKeys + [(i, partialSubkeyValues[i])];
    }
  }

  /** The inner loop over the next list for one full key. */
  method ExtendOne(fullKey: Ranked, partialSubkeyValues: seq<Word>) returns (row: seq<Ranked>)
    ensures row == Row(fullKey, partialSubkeyValues)
  {
    hide Merge;
    var (i, key) := fullKey;
    row := [];
    for j := 0 to |partialSubkeyValues|
      invariant |row| == j
      invariant forall k :: 0 <= k < j ==> row[k] == (i + k, Merge(partialSubkeyValues[k], key))
    {
      row := row + [(i + j, Merge(partialSubkeyValues[j], key))];
    }
    forall k | 0 <= k < |row|
      ensures row[k] == Row(fullKey, partialSubkeyValues)[k]
    {
      RowAt(fullKey, partialSubkeyValues, k);
    }
  }

  lemma {:induction false} RowsAppend(fullKeys: seq<Ranked>, last: Ranked, candidates: seq<Word>)
    ensures Rows(fullKeys + [last], candidates) == Rows(fullKeys, candidates) + Row(last, candidates)
  {
    if |fullKeys| > 0 {
      RowsAppend(fullKeys[1..], last, candidates);
      assert (fullKeys + [last])[1..] == fullKeys[1..] + [last];
    }
  }

  // ---------------------------------------------------------------------------
  // Properties

  /** Row-major indexing: entry a * |candidates| + j extends full key a by candidate j. */
  lemma {:induction false} RowsAt(fullKeys: seq<Ranked>, candidates: seq<Word>, a: nat, j: nat)
    requires a < |fullKeys| && j < |candidates|
    ensures a * |candidates| + j < |Rows(fullKeys, candidates)|
    ensures Rows(fullKeys, candidates)[a * |candidates| + j] == (fullKeys[a].0 + j, Merge(candidates[j], fullKeys[a].1))
  {
    hide Merge, Row;
    var l := |candidates|;
    if a > 0 {
      RowsAt(fullKeys[1..], candidates, a - 1, j);
      NextRow(a, l, j);
    } else {
      RowAt(fullKeys[0], candidates, j);
    }
  }

  lemma NextRow(a: nat, l: nat, j: nat)
    requires a >= 1
    ensures a * l + j == l + ((a - 1) * l + j)
  {
  }

  /** The product of the lengths of the first n lists. */
  function Product(lists: seq<seq<Word>>, n: nat): nat
    requires n <= |lists|
  {
    if n == 0 then 1 else Product(lists, n - 1) * |lists[n - 1]|
  }

  /** Every list has at least one candidate. */
  predicate AllNonEmpty(lists: seq<seq<Word>>)
  {
    forall i :: 0 <= i < |lists| ==> |lists[i]| > 0
  }

  /**
   * With no empty list, the number of full keys is the product of the list
   * lengths, and no lists give no keys.
   */
  lemma {:induction false} CombinationLength(lists: seq<seq<Word>>, n: nat)
    requires n <= |lists| && AllNonEmpty(lists)
    ensures |Combination(lists, n)| == if n == 0 then 0 else Product(lists, n)
  {
    if n > 0 {
      CombinationLength(lists, n - 1);
      assert |lists[n - 1]| > 0;
      if n == 1 {
        assert Product(lists, 1) == |lists[0]|;
      }
    }
  }

  /** The index sum of a choice of one candidate per list. */
  function ChoiceSum(choice: seq<nat>): nat
  {
    if |choice| == 0 then 0 else ChoiceSum(choice[..|choice| - 1]) + choice[|choice| - 1]
  }

  /** choice picks a valid candidate position in each of the first |choice| lists. */
  predicate ValidChoice(lists: seq<seq<Word>>, choice: seq<nat>)
  {
    |choice| <= |lists| && forall i :: 0 <= i < |choice| ==> choice[i] < |lists[i]|
  }

  /** The OR of the chosen candidates. */
  function ChoiceKey(lists: seq<seq<Word>>, choice: seq<nat>): Word
    requires ValidChoice(lists, choice)
  {
    if |choice| == 0 then 0
    else Merge(lists[|choice| - 1][choice[|choice| - 1]], ChoiceKey(lists, choice[..|choice| - 1]))
  }

  /** The mixed-radix position of a choice: the first list is the most significant digit. */
  function ChoiceIndex(lists: seq<seq<Word>>, choice: seq<nat>): nat
    requires ValidChoice(lists, choice)
  {
    if |choice| == 0 then 0
    else ChoiceIndex(lists, choice[..|choice| - 1]) * |lists[|choice| - 1]| + choice[|choice| - 1]
  }

  lemma MixedRadixBound(a: nat, p: nat, j: nat, l: nat)
    requires a < p && j < l
    ensures a * l + j < p * l
  {
    assert (a + 1) * l <= p * l by {
      MulMono(a + 1, p, l);
    }
  }

  lemma MulMono(x: nat, y: nat, l: nat)
    requires x <= y
    ensures x * l <= y * l
  {
  }

  /**
   * Each result is the OR of one candidate per list: with no empty list,
   * the full key at the position of a choice carries that choice's index
   * sum and the OR of its candidates.
   */
  lemma {:induction false} CombinationAt(lists: seq<seq<Word>>, choice: seq<nat>)
    requires AllNonEmpty(lists) && ValidChoice(lists, choice) && |choice| > 0
    ensures ChoiceIndex(lists, choice) < |Combination(lists, |choice|)|
    ensures Combination(lists, |choice|)[ChoiceIndex(lists, choice)] == (ChoiceSum(choice), ChoiceKey(lists, choice))
  {
    hide Merge;
    var n := |choice|;
    var init := choice[..n - 1];
    assert ValidChoice(lists, init);
    CombinationLength(lists, n - 1);
    if n == 1 {
      assert init == [];
      MergeZero(lists[0][choice[0]]);
    } else {
      CombinationAt(lists, init);
      var prev := Combination(lists, n - 1);
      RowsAt(prev, lists[n - 1], ChoiceIndex(lists, init), choice[n - 1]);
    }
  }

  /** A choice's position lies below the product of the list lengths, which is the number of full keys. */
  lemma {:induction false} ChoiceIndexBound(lists: seq<seq<Word>>, choice: seq<nat>)
    requires ValidChoice(lists, choice)
    ensures ChoiceIndex(lists, choice) < Product(lists, |choice|)
  {
    if |choice| > 0 {
      var n := |choice|;
      ChoiceIndexBound(lists, choice[..n - 1]);
      MixedRadixBound(ChoiceIndex(lists, choice[..n - 1]), Product(lists, n - 1), choice[n - 1], |lists[n - 1]|);
    }
  }

  /** Different choices of the same length sit at different positions. */
  lemma {:induction false} ChoiceIndexInjective(lists: seq<seq<Word>>, choice1: seq<nat>, choice2: seq<nat>)
    requires ValidChoice(lists, choice1) && ValidChoice(lists, choice2) && |choice1| == |choice2|
    requires ChoiceIndex(lists, choice1) == ChoiceIndex(lists, choice2)
    ensures choice1 == choice2
  {
    var n := |choice1|;
    if n > 0 {
      var init1, init2 := choice1[..n - 1], choice2[..n - 1];
      assert ValidChoice(lists, init1) && ValidChoice(lists, init2);
      DigitsUnique(ChoiceIndex(lists, init1), ChoiceIndex(lists, init2), choice1[n - 1], choice2[n - 1], |lists[n - 1]|);
      ChoiceIndexInjective(lists, init1, init2);
      assert choice1 == init1 + [choice1[n - 1]] && choice2 == init2 + [choice2[n - 1]];
    }
  }

  /** The quotient and the remainder of a mixed-radix digit are unique. */
  lemma DigitsUnique(a: nat, b: nat, x: nat, y: nat, l: nat)
    requires x < l && y < l && a * l + x == b * l + y
    ensures a == b && x == y
  {
    if a < b {
      MulMono(a + 1, b, l);
    } else if b < a {
      MulMono(b + 1, a, l);
    }
  }

  lemma {:induction false} ProductPositive(lists: seq<seq<Word>>, n: nat)
    requires n <= |lists| && AllNonEmpty(lists)
    ensures Product(lists, n) > 0
  {
    if n > 0 {
      ProductPositive(lists, n - 1);
      assert |lists[n - 1]| > 0;
    }
  }

  /**
   * Every full key comes from a choice: with no empty list, the full key at
   * each position carries the index sum and the OR of the candidates of the
   * choice at that position.
   */
  lemma {:induction false} CombinationFrom(lists: seq<seq<Word>>, n: nat, p: nat)
    requires AllNonEmpty(lists) && 0 < n <= |lists| && p < |Combination(lists, n)|
    ensures exists choice ::
      && ValidChoice(lists, choice) && |choice| == n && ChoiceIndex(lists, choice) == p
      && Combination(lists, n)[p] == (ChoiceSum(choice), ChoiceKey(lists, choice))
  {
    var choice := ChoiceAt(lists, n, p);
    CombinationAt(lists, choice);
  }

  /** The choice at position p of the first n lists. */
  lemma {:induction false} ChoiceAt(lists: seq<seq<Word>>, n: nat, p: nat) returns (choice: seq<nat>)
    requires AllNonEmpty(lists) && 0 < n <= |lists| && p < |Combination(lists, n)|
    ensures ValidChoice(lists, choice) && |choice| == n && ChoiceIndex(lists, choice) == p
  {
    var l := |lists[n - 1]|;
    assert l > 0;
    if n == 1 {
      assert |Combination(lists, 1)| == l;
      choice := [p];
      assert choice[..0] == [];
    } else {
      var q, j := CombinationDigits(lists, n, p);
      var init := ChoiceAt(lists, n - 1, q);
      choice := init + [j];
      hide Combination, Rows, Product;
      assert choice[..n - 1] == init && choice[n - 1] == j;
      assert ValidChoice(lists, choice);
      assert ChoiceIndex(lists, choice) == ChoiceIndex(lists, init) * l + j;
    }
  }

  /** Position p among the full keys of n lists: full key q of n - 1 lists, extended by candidate j of list n. */
  lemma CombinationDigits(lists: seq<seq<Word>>, n: nat, p: nat) returns (q: nat, j: nat)
    requires AllNonEmpty(lists) && 1 < n <= |lists| && p < |Combination(lists, n)|
    ensures q < |Combination(lists, n - 1)| && j < |lists[n - 1]| && p == q * |lists[n - 1]| + j
  {
    var l := |lists[n - 1]|;
    var prev := Combination(lists, n - 1);
    assert l > 0;
    CombinationLength(lists, n - 1);
    ProductPositive(lists, n - 1);
    assert |Combination(lists, n)| == |prev| * l;
    q, j := p / l, p % l;
    hide Combination;
    assert p == q * l + j;
    if q >= |prev| {
      MulMono(|prev|, q, l);
    }
  }

  /** An empty list of candidates wipes the keys built so far. */
  lemma CombinationResetsOnEmpty(lists: seq<seq<Word>>, k: nat)
    requires k < |lists| && |lists[k]| == 0
    ensures Combination(lists, k + 1) == []
  {
  }

  /** After an empty list, the combination starts over from the next list as if it were the first. */
  lemma {:induction false} CombinationAfterEmpty(lists: seq<seq<Word>>, k: nat, n: nat)
    requires k < n <= |lists| && |lists[k]| == 0
    ensures Combination(lists, n) == Combination(lists[k + 1..], n - k - 1)
  {
    if n > k + 1 {
      CombinationAfterEmpty(lists, k, n - 1);
      assert lists[k + 1..][n - k - 2] == lists[n - 1];
    }
  }

  /**
   * The result lists every full key once per combination, ordered by
   * non-decreasing index sum and, for equal sums, by non-decreasing key.
   */
  lemma CombinedOrdered(lists: seq<seq<Word>>)
    ensures var sorted := SortBy(Combination(lists, |lists|), TupleBefore);
      multiset(sorted) == multiset(Combination(lists, |lists|)) &&
      Combined(lists) == Project(sorted) &&
      forall i, j :: 0 <= i < j < |sorted| ==>
        sorted[i].0 <= sorted[j].0 && (sorted[i].0 == sorted[j].0 ==> sorted[i].1 as int <= sorted[j].1 as int)
  {
    var sorted := SortBy(Combination(lists, |lists|), TupleBefore);
    TupleBeforeIsStrict();
    SortByIsSorted(Combination(lists, |lists|), TupleBefore);
    forall i, j | 0 <= i < j < |sorted|
      ensures sorted[i].0 <= sorted[j].0 && (sorted[i].0 == sorted[j].0 ==> sorted[i].1 as int <= sorted[j].1 as int)
    {
      assert !TupleBefore(sorted[j], sorted[i]);
    }
  }

  /** With no empty list, the result has one key per combination. */
  lemma CombinedLength(lists: seq<seq<Word>>)
    requires AllNonEmpty(lists)
    ensures |Combined(lists)| == if |lists| == 0 then 0 else Product(lists, |lists|)
  {
    CombinationLength(lists, |lists|);
  }
}
