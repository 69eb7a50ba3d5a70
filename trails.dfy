/**
 * Differential trails of the 16-bit SPN, as spn-diff-crypt.py searches for
 * them: a greedy walk through the difference distribution table for a
 * number of rounds, a "preference" that penalises trails ending in many
 * active S-boxes, the list of trails for every non-zero input difference,
 * and the choice of trails that together touch all four S-box positions.
 * Probabilities are exact rationals (products of count/16 and a division by
 * 4, all dyadic).
 */
module Trails {
  import opened Wrappers
  import opened Register
  import opened Spn
  import opened Ddt
  import opened Sorting
  import BitStrings

  /** A trail as spn-diff-crypt.py stores it: (preference, probability, input_xor, output_xor). */
  datatype DiffTrail = DiffTrail(preference: real, probability: real, inputXor: Word, outputXor: Word)

  /** A 16 x 16 table whose entries are 0..16 and whose every row has a positive entry. */
  ghost predicate ProperTable(t: seq<seq<int>>)
  {
    IsGrid(t) &&
    (forall a, b :: 0 <= a < 16 && 0 <= b < 16 ==> 0 <= t[a][b] <= 16) &&
    (forall a :: 0 <= a < 16 ==> HasPositive(t[a]))
  }

  ghost predicate HasPositive(row: seq<int>)
  {
    exists b :: 0 <= b < |row| && row[b] >= 1
  }

  /** The difference distribution table of any S-box is proper. */
  lemma DdtIsProper(sbox: seq<int>)
    requires IsBox(sbox)
    ensures ProperTable(Table(sbox))
  {
    EntriesBounded(sbox);
    forall a | 0 <= a < 16 ensures HasPositive(Table(sbox)[a]) {
      var b := OutDiff(sbox, a, 0);
      assert Table(sbox)[a][b] >= 1;
    }
  }

  // ---------------------------------------------------------------------------
  // One greedy S-box layer

  /** Python's max over a list. */
  function RowMax(row: seq<int>): (m: int)
    requires |row| > 0
    ensures m in row
    ensures forall i :: 0 <= i < |row| ==> row[i] <= m
  {
    if |row| == 1 then row[0]
    else
      var m := RowMax(row[1..]);
      assert forall i :: 1 <= i < |row| ==> row[i] == row[1..][i - 1];
      if row[0] >= m then row[0] else m
  }

  /** The greedy choice for one S-box: the first most frequent output difference of its row. */
  function GreedyOut(t: seq<seq<int>>, a: int): (b: int)
    requires IsGrid(t) && 0 <= a < 16
    ensures 0 <= b < 16
    ensures a == 0 ==> b == 0
    ensures a > 0 ==> forall c :: 0 <= c < 16 ==> t[a][c] <= t[a][b]
    ensures a > 0 ==> forall c :: 0 <= c < b ==> t[a][c] < t[a][b]
  {
    if a > 0 then IndexOf(t[a], RowMax(t[a])) else 0
  }

  /** The probability scaled by the count of a table entry over 16. */
  function Scale(probability: real, count: int): real
  {
    probability * (count as real / 16.0)
  }

  /**
   * The difference after the first n iterations of the inner loop of
   * find_differential_trail: every active nibble among the first n is
   * replaced by its greedy output.
   */
  function LayerXorUpTo(x: Word, t: seq<seq<int>>, n: nat): Word
    requires IsGrid(t) && n <= 4
  {
    if n == 0 then x
    else
      var prev := LayerXorUpTo(x, t, n - 1);
      var a := GetNibble(prev, n - 1);
      if a > 0 then WithNibble(prev, n - 1, GreedyOut(t, a)) else prev
  }

  /** The probability after the first n iterations of the inner loop, starting from p. */
  function LayerProbUpTo(x: Word, p: real, t: seq<seq<int>>, n: nat): real
    requires IsGrid(t) && n <= 4
  {
    if n == 0 then p
    else
      var prev := LayerProbUpTo(x, p, t, n - 1);
      var a := GetNibble(x, n - 1);
      if a > 0 then Scale(prev, RowMax(t[a])) else prev
  }

  /** The difference after r rounds: the greedy S-box layer, then the bit permutation. */
  function TrailXorAfter(x: Word, t: seq<seq<int>>, pbox: seq<int>, r: nat): Word
    requires IsGrid(t) && IsBox(pbox)
  {
    if r == 0 then x else Permutate(LayerXorUpTo(TrailXorAfter(x, t, pbox, r - 1), t, 4), pbox)
  }

  /** The probability after r rounds. */
  function TrailProbAfter(x: Word, t: seq<seq<int>>, pbox: seq<int>, r: nat): real
    requires IsGrid(t) && IsBox(pbox)
  {
    if r == 0 then 1.0
    else LayerProbUpTo(TrailXorAfter(x, t, pbox, r - 1), TrailProbAfter(x, t, pbox, r - 1), t, 4)
  }

  lemma {:induction false} LayerXorNibble(x: Word, t: seq<seq<int>>, n: nat, j: nat)
    requires IsGrid(t) && n <= 4 && j < 4
    ensures GetNibble(LayerXorUpTo(x, t, n), j) == if j < n then GreedyOut(t, GetNibble(x, j)) else GetNibble(x, j)
  {
    if n > 0 {
      LayerXorNibble(x, t, n - 1, j);
      LayerXorNibble(x, t, n - 1, n - 1);
      var prev := LayerXorUpTo(x, t, n - 1);
      var a := GetNibble(prev, n - 1);
      if a > 0 {
        WithNibbleAt(prev, n - 1, GreedyOut(t, a));
      }
    }
  }

  /**
   * One S-box layer acts on every nibble independently: each nibble becomes
   * the greedy output of its own S-box.
   */
  lemma LayerNibbles(x: Word, t: seq<seq<int>>)
    requires IsGrid(t)
    ensures forall j :: 0 <= j < 4 ==> GetNibble(LayerXorUpTo(x, t, 4), j) == GreedyOut(t, GetNibble(x, j))
  {
    forall j | 0 <= j < 4 ensures GetNibble(LayerXorUpTo(x, t, 4), j) == GreedyOut(t, GetNibble(x, j)) {
      LayerXorNibble(x, t, 4, j);
    }
  }

  lemma RowMaxBounds(t: seq<seq<int>>, a: int)
    requires ProperTable(t) && 0 <= a < 16
    ensures 1 <= RowMax(t[a]) <= 16
  {
    assert HasPositive(t[a]);
    var b :| 0 <= b < |t[a]| && t[a][b] >= 1;
    assert RowMax(t[a]) >= t[a][b];
  }

  lemma ScaleBounds(q: real, count: int, bound: real)
    requires 0.0 < q <= bound && 1 <= count <= 16
    ensures 0.0 < Scale(q, count) <= bound
  {
    var f := count as real / 16.0;
    assert 0.0 < f <= 1.0;
    assert q * f <= q * 1.0;
  }

  lemma {:induction false} LayerProbBounds(x: Word, p: real, t: seq<seq<int>>, n: nat)
    requires ProperTable(t) && n <= 4 && 0.0 < p
    ensures 0.0 < LayerProbUpTo(x, p, t, n) <= p
  {
    if n > 0 {
      LayerProbBounds(x, p, t, n - 1);
      var a := GetNibble(x, n - 1);
      if a > 0 {
        RowMaxBounds(t, a);
        ScaleBounds(LayerProbUpTo(x, p, t, n - 1), RowMax(t[a]), p);
      }
    }
  }

  /** With a proper table every trail probability lies in (0, 1]. */
  lemma {:induction false} TrailProbabilityBounds(x: Word, t: seq<seq<int>>, pbox: seq<int>, r: nat)
    requires ProperTable(t) && IsBox(pbox)
    ensures 0.0 < TrailProbAfter(x, t, pbox, r) <= 1.0
  {
    hide TrailXorAfter;
    if r > 0 {
      TrailProbabilityBounds(x, t, pbox, r - 1);
      LayerProbBounds(TrailXorAfter(x, t, pbox, r - 1), TrailProbAfter(x, t, pbox, r - 1), t, 4);
    }
  }

  /** Each further round multiplies the probability by factors in (0, 1]: it never grows. */
  lemma TrailProbabilityDecreases(x: Word, t: seq<seq<int>>, pbox: seq<int>, r: nat)
    requires ProperTable(t) && IsBox(pbox)
    ensures TrailProbAfter(x, t, pbox, r + 1) <= TrailProbAfter(x, t, pbox, r)
  {
    TrailProbabilityBounds(x, t, pbox, r);
    LayerProbBounds(TrailXorAfter(x, t, pbox, r), TrailProbAfter(x, t, pbox, r), t, 4);
  }

  // ---------------------------------------------------------------------------
  // Active S-boxes and the preference

  function ActiveUpTo(x: Word, n: nat): (c: nat)
    requires n <= 4
    ensures c <= n
  {
    if n == 0 then 0 else ActiveUpTo(x, n - 1) + Active(GetNibble(x, n - 1))
  }

  /** The number of non-zero nibbles of a difference, i.e. of active S-boxes. */
  function ActiveCount(x: Word): nat
  {
    ActiveUpTo(x, 4)
  }

  function Active(n: int): nat
  {
    if n > 0 then 1 else 0
  }

  lemma ActiveCountSum(x: Word)
    ensures ActiveCount(x) ==
      Active(GetNibble(x, 0)) + Active(GetNibble(x, 1)) + Active(GetNibble(x, 2)) + Active(GetNibble(x, 3))
  {
    assert ActiveUpTo(x, 1) == Active(GetNibble(x, 0));
    assert ActiveUpTo(x, 2) == ActiveUpTo(x, 1) + Active(GetNibble(x, 1));
    assert ActiveUpTo(x, 3) == ActiveUpTo(x, 2) + Active(GetNibble(x, 2));
    assert ActiveUpTo(x, 4) == ActiveUpTo(x, 3) + Active(GetNibble(x, 3));
  }

  /** A difference activates no S-box exactly when it is zero, and all four exactly when no nibble is zero. */
  lemma ActiveCountExtremes(x: Word)
    ensures ActiveCount(x) <= 4
    ensures ActiveCount(x) == 0 <==> x == 0
    ensures ActiveCount(x) == 4 <==> forall i :: 0 <= i < 4 ==> GetNibble(x, i) != 0
  {
    ZeroNibbles();
    ActiveCountSum(x);
    if ActiveCount(x) == 0 {
      NibblesDetermineWord(x, 0);
    }
  }

  /** The preference rule: 3 active S-boxes divide the probability by 4, 4 active S-boxes make it 0. */
  function Preference(probability: real, active: nat): real
  {
    var preference := probability;
    var preference := if active == 3 then preference / 4.0 else preference;
    if active == 4 then 0.0 else preference
  }

  /**
   * For a positive probability the preference never exceeds it, it is a
   * quarter of it with three S-boxes active at the end, and it vanishes
   * exactly when all four are active.
   */
  lemma PreferenceBounds(probability: real, active: nat)
    requires 0.0 < probability && active <= 4
    ensures 0.0 <= Preference(probability, active) <= probability
    ensures Preference(probability, active) == 0.0 <==> active == 4
    ensures active < 3 ==> Preference(probability, active) == probability
    ensures active == 3 ==> 4.0 * Preference(probability, active) == probability
  {
  }

  /**
   * The inner loop of find_differential_trail for one round: every active
   * S-box takes its most probable output difference, and the probability is
   * scaled by that count over 16.
   */
  method GreedyLayer(x: Word, p: real, t: seq<seq<int>>) returns (y: Word, q: real)
    requires IsGrid(t)
    ensures y == LayerXorUpTo(x, t, 4)
    ensures q == LayerProbUpTo(x, p, t, 4)
  {
    y, q := x, p;
    for i := 0 to 4
      invariant y == LayerXorUpTo(x, t, i)
      invariant q == LayerProbUpTo(x, p, t, i)
    {
      LayerXorNibble(x, t, i, i);
      if GetNibble(y, i) > 0 {
        var row := t[GetNibble(y, i)];
        var maxCount := RowMax(row);
        var mostProbableOutputXor := IndexOf(row, maxCount);
        q := Scale(q, maxCount);
        y := WithNibble(y, i, mostProbableOutputXor);
      }
    }
  }

  /** The loop of find_differential_trail that counts the active S-boxes of the final difference. */
  method CountActiveSboxes(x: Word) returns (n: nat)
    ensures n == ActiveCount(x)
  {
    n := 0;
    for i := 0 to 4
      invariant n == ActiveUpTo(x, i)
    {
      if GetNibble(x, i) > 0 {
        n := n + 1;
      }
    }
  }

  /**
   * find_differential_trail: the greedy trail of roundNum rounds from
   * inputXor, its probability and its preference.
   */
  method FindDifferentialTrail(inputXor: Word, t: seq<seq<int>>, pbox: seq<int>, roundNum: nat)
    returns (outputXor: Word, probability: real, preference: real)
    requires IsGrid(t) && IsBox(pbox)
    ensures outputXor == TrailXorAfter(inputXor, t, pbox, roundNum)
    ensures probability == TrailProbAfter(inputXor, t, pbox, roundNum)
    ensures preference == Preference(probability, ActiveCount(outputXor))
    ensures roundNum == 0 ==> outputXor == inputXor && probability == 1.0
    ensures ProperTable(t) ==> 0.0 < probability <= 1.0
  {
    hide Permutate;
    probability := 1.0;
    var currentXor := inputXor;
    for r := 0 to roundNum
      invariant currentXor == TrailXorAfter(inputXor, t, pbox, r)
      invariant probability == TrailProbAfter(inputXor, t, pbox, r)
    {
      currentXor, probability := GreedyLayer(currentXor, probability, t);
      currentXor := Permutate(currentXor, pbox);
    }
    var numFinalActiveSboxes := CountActiveSboxes(currentXor);
    preference := probability;
    if numFinalActiveSboxes == 3 {
      preference := preference / 4.0;
    }
    if numFinalActiveSboxes == 4 {
      preference := 0.0;
    }
    outputXor := currentXor;
    if ProperTable(t) {
      TrailProbabilityBounds(inputXor, t, pbox, roundNum);
    }
  }

  // ---------------------------------------------------------------------------
  // The trails for every non-zero input difference

  /** The input difference built from the loop counters i, j, k, l (nibbles 3, 2, 1, 0). */
  function Compose(i: int, j: int, k: int, l: int): Word
    requires 0 <= i < 16 && 0 <= j < 16 && 0 <= k < 16 && 0 <= l < 16
  {
    var inputXor := WithNibble(0, 0, l);
    var inputXor := WithNibble(inputXor, 1, k);
    var inputXor := WithNibble(inputXor, 2, j);
    WithNibble(inputXor, 3, i)
  }

  lemma ComposeNibbles(i: int, j: int, k: int, l: int)
    requires 0 <= i < 16 && 0 <= j < 16 && 0 <= k < 16 && 0 <= l < 16
    ensures GetNibble(Compose(i, j, k, l), 0) == l && GetNibble(Compose(i, j, k, l), 1) == k
    ensures GetNibble(Compose(i, j, k, l), 2) == j && GetNibble(Compose(i, j, k, l), 3) == i
  {
    var w0 := WithNibble(0, 0, l);
    var w1 := WithNibble(w0, 1, k);
    var w2 := WithNibble(w1, 2, j);
    WithNibbleAt(0, 0, l);
    WithNibbleAt(w0, 1, k);
    WithNibbleAt(w1, 2, j);
    WithNibbleAt(w2, 3, i);
  }

  /** The position of the counters (i, j, k, l) in the order the four nested loops visit them. */
  function Flat(i: int, j: int, k: int, l: int): int
  {
    ((i * 16 + j) * 16 + k) * 16 + l
  }

  lemma DivMod16(a: int, l: int)
    requires 0 <= a && 0 <= l < 16
    ensures (a * 16 + l) / 16 == a && (a * 16 + l) % 16 == l
  {
  }

  lemma DigitsOfFlat(i: int, j: int, k: int, l: int)
    requires 0 <= i < 16 && 0 <= j < 16 && 0 <= k < 16 && 0 <= l < 16
    ensures BitStrings.NibbleOf(Flat(i, j, k, l), 0) == l && BitStrings.NibbleOf(Flat(i, j, k, l), 1) == k
    ensures BitStrings.NibbleOf(Flat(i, j, k, l), 2) == j && BitStrings.NibbleOf(Flat(i, j, k, l), 3) == i
  {
    var n := Flat(i, j, k, l);
    DivMod16((i * 16 + j) * 16 + k, l);
    DivMod16(i * 16 + j, k);
    DivMod16(i, j);
    DivMod16(0, i);
    assert n / 16 == (i * 16 + j) * 16 + k;
    assert n / 16 / 16 == i * 16 + j;
    assert n / 16 / 16 / 16 == i;
    assert BitStrings.NibbleOf(n, 1) == BitStrings.NibbleOf(n / 16, 0);
    assert BitStrings.NibbleOf(n, 2) == BitStrings.NibbleOf(n / 16 / 16, 0);
    assert BitStrings.NibbleOf(n, 3) == BitStrings.NibbleOf(n / 16 / 16, 1) == BitStrings.NibbleOf(n / 16 / 16 / 16, 0);
  }

  lemma FlatOfDigits(n: nat)
    requires n < 65536
    ensures Flat(BitStrings.NibbleOf(n, 3), BitStrings.NibbleOf(n, 2), BitStrings.NibbleOf(n, 1), BitStrings.NibbleOf(n, 0)) == n
  {
    var a := n / 16;
    var b := a / 16;
    var c := b / 16;
    assert n == a * 16 + n % 16;
    assert a == b * 16 + a % 16;
    assert b == c * 16 + b % 16;
    assert c < 16;
    assert BitStrings.NibbleOf(n, 1) == BitStrings.NibbleOf(a, 0);
    assert BitStrings.NibbleOf(n, 2) == BitStrings.NibbleOf(b, 0);
    assert BitStrings.NibbleOf(n, 3) == BitStrings.NibbleOf(b, 1) == BitStrings.NibbleOf(c, 0) == c;
  }

  /** The input difference visited at flat position n. */
  function InputAt(n: nat): Word
  {
    Compose(BitStrings.NibbleOf(n, 3), BitStrings.NibbleOf(n, 2), BitStrings.NibbleOf(n, 1), BitStrings.NibbleOf(n, 0))
  }

  /** The trail recorded for the input difference at flat position n. */
  function EntryAt(t: seq<seq<int>>, pbox: seq<int>, roundNum: nat, n: nat): DiffTrail
    requires IsGrid(t) && IsBox(pbox)
  {
    var outputXor := TrailXorAfter(InputAt(n), t, pbox, roundNum);
    var probability := TrailProbAfter(InputAt(n), t, pbox, roundNum);
    DiffTrail(Preference(probability, ActiveCount(outputXor)), probability, InputAt(n), outputXor)
  }

  /** The trails recorded before flat position n (position 0, the zero difference, is skipped). */
  function EntriesBefore(t: seq<seq<int>>, pbox: seq<int>, roundNum: nat, n: nat): seq<DiffTrail>
    requires IsGrid(t) && IsBox(pbox)
  {
    seq(if n == 0 then 0 else n - 1, m requires 0 <= m => EntryAt(t, pbox, roundNum, m + 1))
  }

  lemma EntriesBeforeStep(t: seq<seq<int>>, pbox: seq<int>, roundNum: nat, n: nat)
    requires IsGrid(t) && IsBox(pbox) && n >= 1
    ensures EntriesBefore(t, pbox, roundNum, n + 1) ==
            EntriesBefore(t, pbox, roundNum, n) + [EntryAt(t, pbox, roundNum, n)]
  {
  }

  /** The order of find_highly_probable_differential_trails: descending on the whole tuple. */
  predicate TrailBefore(a: DiffTrail, b: DiffTrail)
  {
    a.preference > b.preference ||
    (a.preference == b.preference && a.probability > b.probability) ||
    (a.preference == b.preference && a.probability == b.probability && a.inputXor > b.inputXor) ||
    (a.preference == b.preference && a.probability == b.probability && a.inputXor == b.inputXor &&
     a.outputXor > b.outputXor)
  }

  lemma TrailBeforeIsStrictOrder()
    ensures StrictOrder(TrailBefore)
  {
  }

  /** find_highly_probable_differential_trails: one trail per non-zero input difference, sorted. */
  method FindHighlyProbableDifferentialTrails(t: seq<seq<int>>, pbox: seq<int>, roundNum: nat)
    returns (differentialTrails: seq<DiffTrail>)
    requires IsGrid(t) && IsBox(pbox)
    ensures differentialTrails == SortBy(EntriesBefore(t, pbox, roundNum, 65536), TrailBefore)
  {
    hide GetNibble, WithNibble, TrailXorAfter, TrailProbAfter;
    differentialTrails := [];
    for i := 0 to 16
      invariant differentialTrails == EntriesBefore(t, pbox, roundNum, Flat(i, 0, 0, 0))
    {
      for j := 0 to 16
        invariant differentialTrails == EntriesBefore(t, pbox, roundNum, Flat(i, j, 0, 0))
      {
        for k := 0 to 16
          invariant differentialTrails == EntriesBefore(t, pbox, roundNum, Flat(i, j, k, 0))
        {
          for l := 0 to 16
            invariant differentialTrails == EntriesBefore(t, pbox, roundNum, Flat(i, j, k, l))
          {
            if i == 0 && j == 0 && k == 0 && l == 0 {
              continue;
            }
            var inputXor := 0;
            inputXor := WithNibble(inputXor, 0, l);
            inputXor := WithNibble(inputXor, 1, k);
            inputXor := WithNibble(inputXor, 2, j);
            inputXor := WithNibble(inputXor, 3, i);
            var outputXor, probability, preference := FindDifferentialTrail(inputXor, t, pbox, roundNum);
            DigitsOfFlat(i, j, k, l);
            assert inputXor == InputAt(Flat(i, j, k, l));
            EntriesBeforeStep(t, pbox, roundNum, Flat(i, j, k, l));
            differentialTrails := differentialTrails + [DiffTrail(preference, probability, inputXor, outputXor)];
          }
        }
      }
    }
    differentialTrails := SortBy(differentialTrails, TrailBefore);
  }

  /**
   * The list holds one trail per loop position 1..0xffff; the inputs at those
   * positions are non-zero, pairwise distinct, and every non-zero difference
   * is among them: every non-zero difference exactly once, and zero never.
   */
  lemma EntriesEnumerateInputs(t: seq<seq<int>>, pbox: seq<int>, roundNum: nat)
    requires IsGrid(t) && IsBox(pbox)
    ensures |EntriesBefore(t, pbox, roundNum, 65536)| == 65535
    ensures forall m :: 0 <= m < 65535 ==> EntriesBefore(t, pbox, roundNum, 65536)[m].inputXor == InputAt(m + 1)
    ensures forall m :: 1 <= m < 65536 ==> InputAt(m) != 0
    ensures forall m, m' :: 1 <= m < m' < 65536 ==> InputAt(m) != InputAt(m')
    ensures forall w: Word :: w != 0 ==> InputAt(FlatIndex(w) + 1) == w
  {
    forall m | 1 <= m < 65536 ensures InputAt(m) != 0 {
      InputAtNonZero(m);
    }
    forall m, m' | 1 <= m < m' < 65536 ensures InputAt(m) != InputAt(m') {
      InputAtInjective(m, m');
    }
    forall w: Word | w != 0 ensures InputAt(FlatIndex(w) + 1) == w {
      FlatIndexInverse(w);
    }
  }

  lemma InputAtNibbles(n: nat)
    ensures forall q :: 0 <= q < 4 ==> GetNibble(InputAt(n), q) == BitStrings.NibbleOf(n, q)
  {
    ComposeNibbles(BitStrings.NibbleOf(n, 3), BitStrings.NibbleOf(n, 2), BitStrings.NibbleOf(n, 1), BitStrings.NibbleOf(n, 0));
  }

  lemma InputAtNonZero(n: nat)
    requires 1 <= n < 65536
    ensures InputAt(n) != 0
  {
    InputAtNibbles(n);
    FlatOfDigits(n);
    ZeroNibbles();
  }

  lemma InputAtInjective(n: nat, n': nat)
    requires n < 65536 && n' < 65536 && n != n'
    ensures InputAt(n) != InputAt(n')
  {
    InputAtNibbles(n);
    InputAtNibbles(n');
    FlatOfDigits(n);
    FlatOfDigits(n');
  }

  /** Where a non-zero difference sits in the list. */
  function FlatIndex(w: Word): (m: nat)
    requires w != 0
    ensures m < 65535
  {
    FlatBounds(w);
    Flat(GetNibble(w, 3), GetNibble(w, 2), GetNibble(w, 1), GetNibble(w, 0)) - 1
  }

  lemma FlatBounds(w: Word)
    requires w != 0
    ensures 1 <= Flat(GetNibble(w, 3), GetNibble(w, 2), GetNibble(w, 1), GetNibble(w, 0)) < 65536
  {
    if Flat(GetNibble(w, 3), GetNibble(w, 2), GetNibble(w, 1), GetNibble(w, 0)) == 0 {
      NibblesDetermineWord(w, 0);
    }
  }

  lemma FlatIndexInverse(w: Word)
    requires w != 0
    ensures InputAt(FlatIndex(w) + 1) == w
  {
    hide Flat, InputAt;
    var a, b, c, d := GetNibble(w, 3), GetNibble(w, 2), GetNibble(w, 1), GetNibble(w, 0);
    var n := Flat(a, b, c, d);
    assert FlatIndex(w) + 1 == n;
    DigitsOfFlat(a, b, c, d);
    InputAtNibbles(n);
    FourNibblesDetermineWord(InputAt(n), w);
  }

  /** The list returned is sorted best first and is a permutation of the trails computed. */
  lemma HighlyProbableTrailsSorted(t: seq<seq<int>>, pbox: seq<int>, roundNum: nat)
    requires IsGrid(t) && IsBox(pbox)
    ensures SortedBy(SortBy(EntriesBefore(t, pbox, roundNum, 65536), TrailBefore), TrailBefore)
    ensures multiset(SortBy(EntriesBefore(t, pbox, roundNum, 65536), TrailBefore)) ==
            multiset(EntriesBefore(t, pbox, roundNum, 65536))
  {
    TrailBeforeIsStrictOrder();
    SortByIsSorted(EntriesBefore(t, pbox, roundNum, 65536), TrailBefore);
  }

  // ---------------------------------------------------------------------------
  // Choosing trails that cover every S-box position

  /** The trail would break key bits behind S-box position i, which is not used yet. */
  predicate UsefulAt(trail: DiffTrail, used: seq<bool>, i: int)
    requires |used| == 4 && 0 <= i < 4
  {
    GetNibble(trail.outputXor, i) != 0 && !used[i]
  }

  predicate Useful(trail: DiffTrail, used: seq<bool>)
    requires |used| == 4
  {
    exists i :: 0 <= i < 4 && UsefulAt(trail, used, i)
  }

  function FirstUsefulFrom(trails: seq<DiffTrail>, used: seq<bool>, k: nat): (r: Option<nat>)
    requires |used| == 4 && k <= |trails|
    ensures r.Some? ==> k <= r.value < |trails| && Useful(trails[r.value], used)
    ensures r.Some? ==> forall m :: k <= m < r.value ==> !Useful(trails[m], used)
    ensures r.None? ==> forall m :: k <= m < |trails| ==> !Useful(trails[m], used)
    decreases |trails| - k
  {
    if k == |trails| then None
    else if Useful(trails[k], used) then Some(k)
    else FirstUsefulFrom(trails, used, k + 1)
  }

  /**
   * find_useful_diff_trail: the first trail in list order that has a
   * non-zero output nibble at a position not used yet; None when there is none.
   */
  function FindUsefulDiffTrail(trails: seq<DiffTrail>, used: seq<bool>): (r: Option<DiffTrail>)
    requires |used| == 4
    ensures r.None? <==> forall m :: 0 <= m < |trails| ==> !Useful(trails[m], used)
    ensures r.Some? ==> exists m :: 0 <= m < |trails| && trails[m] == r.value && Useful(r.value, used) &&
                          forall m' :: 0 <= m' < m ==> !Useful(trails[m'], used)
  {
    match FirstUsefulFrom(trails, used, 0)
    case None => None
    case Some(m) => Some(trails[m])
  }

  function Unused(used: seq<bool>): nat
    requires |used| == 4
  {
    (if used[0] then 0 else 1) + (if used[1] then 0 else 1) + (if used[2] then 0 else 1) + (if used[3] then 0 else 1)
  }

  function MarkUpTo(used: seq<bool>, outputXor: Word, n: nat): (r: seq<bool>)
    requires |used| == 4 && n <= 4
    ensures |r| == 4
  {
    if n == 0 then used
    else
      var u := MarkUpTo(used, outputXor, n - 1);
      if GetNibble(outputXor, n - 1) != 0 then u[n - 1 := true] else u
  }

  /** The positions used after a trail is chosen: the old ones and the active nibbles of its output. */
  function Mark(used: seq<bool>, outputXor: Word): seq<bool>
    requires |used| == 4
  {
    MarkUpTo(used, outputXor, 4)
  }

  lemma {:induction false} MarkUpToAt(used: seq<bool>, outputXor: Word, n: nat)
    requires |used| == 4 && n <= 4
    ensures forall i :: 0 <= i < 4 ==>
      MarkUpTo(used, outputXor, n)[i] == (used[i] || (i < n && GetNibble(outputXor, i) != 0))
  {
    if n > 0 {
      MarkUpToAt(used, outputXor, n - 1);
    }
  }

  lemma MarkAt(used: seq<bool>, outputXor: Word)
    requires |used| == 4
    ensures forall i :: 0 <= i < 4 ==> Mark(used, outputXor)[i] == (used[i] || GetNibble(outputXor, i) != 0)
  {
    MarkUpToAt(used, outputXor, 4);
  }

  lemma MarkUseful(used: seq<bool>, trail: DiffTrail)
    requires |used| == 4 && Useful(trail, used)
    ensures Unused(Mark(used, trail.outputXor)) < Unused(used)
  {
    MarkAt(used, trail.outputXor);
  }

  predicate AllUsed(used: seq<bool>)
    requires |used| == 4
  {
    used[0] && used[1] && used[2] && used[3]
  }

  /** Prepends the chosen trails to a result that may be missing. */
  function Prepend(chosen: seq<DiffTrail>, rest: Option<seq<DiffTrail>>): Option<seq<DiffTrail>>
  {
    match rest
    case None => None
    case Some(l) => Some(chosen + l)
  }

  lemma PrependTwice(a: seq<DiffTrail>, b: seq<DiffTrail>, rest: Option<seq<DiffTrail>>)
    ensures Prepend(a, Prepend(b, rest)) == Prepend(a + b, rest)
    ensures Prepend([], rest) == rest
  {
    if rest.Some? {
      assert a + (b + rest.value) == (a + b) + rest.value;
      assert [] + rest.value == rest.value;
    }
  }

  /**
   * The trails the loop of find_differential_trails_to_break_full_key picks
   * from a state of used positions: None when find_useful_diff_trail runs
   * dry before every position is used.
   */
  function Select(trails: seq<DiffTrail>, used: seq<bool>): Option<seq<DiffTrail>>
    requires |used| == 4
    decreases Unused(used)
  {
    if AllUsed(used) then Some([])
    else
      match FindUsefulDiffTrail(trails, used)
      case None => None
      case Some(trail) =>
        MarkUseful(used, trail);
        Prepend([trail], Select(trails, Mark(used, trail.outputXor)))
  }

  /**
   * find_differential_trails_to_break_full_key. Where spn-diff-crypt.py would fail
   * on the None that find_useful_diff_trail returns, the model returns None.
   */
  method FindDifferentialTrailsToBreakFullKey(roundNum: nat, mostProbableDiffTrails: seq<DiffTrail>)
    returns (r: Option<seq<DiffTrail>>)
    ensures r == Select(mostProbableDiffTrails, [false, false, false, false])
  {
    hide GetNibble;
    var usefulDiffTrails := [];
    var sboxesAlreadyUsed := [false, false, false, false];
    PrependTwice([], [], Select(mostProbableDiffTrails, sboxesAlreadyUsed));
    while !(sboxesAlreadyUsed[0] && sboxesAlreadyUsed[1] && sboxesAlreadyUsed[2] && sboxesAlreadyUsed[3])
      invariant |sboxesAlreadyUsed| == 4
      invariant Select(mostProbableDiffTrails, [false, false, false, false]) ==
                Prepend(usefulDiffTrails, Select(mostProbableDiffTrails, sboxesAlreadyUsed))
      decreases Unused(sboxesAlreadyUsed)
    {
      var usefulDiffTrail := FindUsefulDiffTrail(mostProbableDiffTrails, sboxesAlreadyUsed);
      if usefulDiffTrail.None? {
        return None;
      }
      var outputXor := usefulDiffTrail.value.outputXor;
      ghost var before := sboxesAlreadyUsed;
      for i := 0 to 4
        invariant |sboxesAlreadyUsed| == 4
        invariant sboxesAlreadyUsed == MarkUpTo(before, outputXor, i)
      {
        if GetNibble(outputXor, i) != 0 {
          sboxesAlreadyUsed := sboxesAlreadyUsed[i := true];
        }
      }
      MarkUseful(before, usefulDiffTrail.value);
      assert Select(mostProbableDiffTrails, before) ==
             Prepend([usefulDiffTrail.value], Select(mostProbableDiffTrails, sboxesAlreadyUsed));
      PrependTwice(usefulDiffTrails, [usefulDiffTrail.value], Select(mostProbableDiffTrails, sboxesAlreadyUsed));
      usefulDiffTrails := usefulDiffTrails + [usefulDiffTrail.value];
    }
    assert Select(mostProbableDiffTrails, sboxesAlreadyUsed) == Some([]);
    assert usefulDiffTrails + [] == usefulDiffTrails;
    return Some(usefulDiffTrails);
  }

  /** Trail m of the chosen list activates position i, which is not used and not activated by an earlier chosen trail. */
  predicate NewAt(chosen: seq<DiffTrail>, used: seq<bool>, m: int, i: int)
    requires |used| == 4 && 0 <= m < |chosen|
  {
    0 <= i < 4 && GetNibble(chosen[m].outputXor, i) != 0 && !used[i] &&
    forall m' :: 0 <= m' < m ==> GetNibble(chosen[m'].outputXor, i) == 0
  }

  ghost predicate NewPosition(chosen: seq<DiffTrail>, used: seq<bool>, m: int)
    requires |used| == 4 && 0 <= m < |chosen|
  {
    exists i :: NewAt(chosen, used, m, i)
  }

  /** Position i is used already or is activated by some trail of the list. */
  predicate Reachable(trails: seq<DiffTrail>, used: seq<bool>, i: int)
    requires |used| == 4 && 0 <= i < 4
  {
    used[i] || exists m :: 0 <= m < |trails| && GetNibble(trails[m].outputXor, i) != 0
  }

  /** Some trail of the list activates position i. */
  ghost predicate Covered(trails: seq<DiffTrail>, i: int)
    requires 0 <= i < 4
  {
    exists m :: 0 <= m < |trails| && GetNibble(trails[m].outputXor, i) != 0
  }

  /** Choosing a useful trail does not change which positions can still be reached. */
  lemma MarkKeepsReachable(trails: seq<DiffTrail>, used: seq<bool>, trail: DiffTrail)
    requires |used| == 4 && trail in trails
    ensures forall i :: 0 <= i < 4 ==> Reachable(trails, used, i) == Reachable(trails, Mark(used, trail.outputXor), i)
  {
    MarkAt(used, trail.outputXor);
    forall i | 0 <= i < 4 ensures Reachable(trails, used, i) == Reachable(trails, Mark(used, trail.outputXor), i) {
      if GetNibble(trail.outputXor, i) != 0 {
        var m :| 0 <= m < |trails| && trails[m] == trail;
        assert GetNibble(trails[m].outputXor, i) != 0;
      }
    }
  }

  /** The selection succeeds exactly when every position is used already or activated by some trail. */
  lemma {:induction false} SelectSucceeds(trails: seq<DiffTrail>, used: seq<bool>)
    requires |used| == 4
    ensures Select(trails, used).Some? <==> forall i :: 0 <= i < 4 ==> Reachable(trails, used, i)
    decreases Unused(used)
  {
    if !AllUsed(used) {
      match FindUsefulDiffTrail(trails, used)
      case None =>
        var i :| 0 <= i < 4 && !used[i];
        if Reachable(trails, used, i) {
          var m :| 0 <= m < |trails| && GetNibble(trails[m].outputXor, i) != 0;
          assert UsefulAt(trails[m], used, i);
        }
      case Some(trail) =>
        MarkUseful(used, trail);
        SelectSucceeds(trails, Mark(used, trail.outputXor));
        MarkKeepsReachable(trails, used, trail);
    }
  }

  /** At most one trail is chosen per position not used at the start. */
  lemma {:induction false} SelectLength(trails: seq<DiffTrail>, used: seq<bool>)
    requires |used| == 4 && Select(trails, used).Some?
    ensures |Select(trails, used).value| <= Unused(used)
    decreases Unused(used)
  {
    if !AllUsed(used) {
      var trail := FindUsefulDiffTrail(trails, used).value;
      MarkUseful(used, trail);
      SelectLength(trails, Mark(used, trail.outputXor));
    }
  }

  /** Every position ends up used or activated by one of the chosen trails. */
  lemma {:induction false} SelectCoverage(trails: seq<DiffTrail>, used: seq<bool>)
    requires |used| == 4 && Select(trails, used).Some?
    ensures forall i :: 0 <= i < 4 ==> used[i] || Covered(Select(trails, used).value, i)
    decreases Unused(used)
  {
    hide GetNibble;
    if !AllUsed(used) {
      var trail := FindUsefulDiffTrail(trails, used).value;
      MarkUseful(used, trail);
      var used' := Mark(used, trail.outputXor);
      SelectCoverage(trails, used');
      MarkAt(used, trail.outputXor);
      var rest := Select(trails, used').value;
      var chosen := [trail] + rest;
      assert Select(trails, used).value == chosen;
      forall i | 0 <= i < 4 && !used[i] ensures Covered(chosen, i) {
        if GetNibble(trail.outputXor, i) != 0 {
          assert chosen[0] == trail;
        } else {
          assert Covered(rest, i);
          var m :| 0 <= m < |rest| && GetNibble(rest[m].outputXor, i) != 0;
          assert chosen[m + 1] == rest[m];
        }
      }
    }
  }

  /** Each chosen trail activates a position that neither the used set nor an earlier chosen trail covers. */
  lemma {:induction false} SelectNew(trails: seq<DiffTrail>, used: seq<bool>)
    requires |used| == 4 && Select(trails, used).Some?
    ensures forall m :: 0 <= m < |Select(trails, used).value| ==> NewPosition(Select(trails, used).value, used, m)
    decreases Unused(used)
  {
    hide GetNibble;
    if !AllUsed(used) {
      var trail := FindUsefulDiffTrail(trails, used).value;
      MarkUseful(used, trail);
      var used' := Mark(used, trail.outputXor);
      SelectNew(trails, used');
      MarkAt(used, trail.outputXor);
      var rest := Select(trails, used').value;
      var chosen := [trail] + rest;
      assert Select(trails, used).value == chosen;
      forall m | 0 <= m < |chosen| ensures NewPosition(chosen, used, m) {
        if m == 0 {
          var i :| 0 <= i < 4 && UsefulAt(trail, used, i);
          assert NewAt(chosen, used, 0, i);
        } else {
          assert NewPosition(rest, used', m - 1);
          var i :| NewAt(rest, used', m - 1, i);
          forall m' | 0 <= m' < m ensures GetNibble(chosen[m'].outputXor, i) == 0 {
            if m' > 0 {
              assert chosen[m'] == rest[m' - 1];
            }
          }
          assert chosen[m] == rest[m - 1];
          assert NewAt(chosen, used, m, i);
        }
      }
    }
  }
}
