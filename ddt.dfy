/**
 * The difference distribution table of a 4-bit S-box, as built by
 * build_difference_distribution_table in spn-diff-crypt.py: entry [a][b]
 * counts the inputs x for which x and x ^ a are mapped to outputs whose
 * XOR is b.
 */
module Ddt {
  import opened Register
  import opened Spn

  /** The output difference produced by the input x and the input difference a. */
  function OutDiff(sbox: seq<int>, a: int, x: int): (y: int)
    requires IsBox(sbox) && 0 <= a < 16 && 0 <= x < 16
    ensures 0 <= y < 16
  {
    Xor4(sbox[x], sbox[Xor4(x, a)])
  }

  /** How many of the inputs 0..n-1 produce output difference b from input difference a. */
  function CountUpTo(sbox: seq<int>, a: int, b: int, n: nat): (c: nat)
    requires IsBox(sbox) && 0 <= a < 16 && n <= 16
    ensures c <= n
  {
    if n == 0 then 0
    else CountUpTo(sbox, a, b, n - 1) + (if OutDiff(sbox, a, n - 1) == b then 1 else 0)
  }

  /** The table the Python code builds: a 16 x 16 grid of counts over all 16 inputs. */
  function Table(sbox: seq<int>): seq<seq<int>>
    requires IsBox(sbox)
  {
    seq(16, a requires 0 <= a < 16 => seq(16, b requires 0 <= b < 16 => CountUpTo(sbox, a, b, 16)))
  }

  predicate IsGrid(t: seq<seq<int>>)
  {
    |t| == 16 && forall a :: 0 <= a < 16 ==> |t[a]| == 16
  }

  /**
   * build_difference_distribution_table: starts from a grid of zeros and, for
   * every input difference and every input, increments one entry in place.
   */
  method BuildDifferenceDistributionTable(sbox: seq<int>) returns (table: seq<seq<int>>)
    requires IsBox(sbox)
    ensures table == Table(sbox)
  {
    table := seq(16, j => seq(16, i => 0));
    for xPrime := 0 to 16
      invariant IsGrid(table)
      invariant forall a, b :: 0 <= a < xPrime && 0 <= b < 16 ==> table[a][b] == CountUpTo(sbox, a, b, 16)
      invariant forall a, b :: xPrime <= a < 16 && 0 <= b < 16 ==> table[a][b] == 0
    {
      for x := 0 to 16
        invariant IsGrid(table)
        invariant forall a, b :: 0 <= a < xPrime && 0 <= b < 16 ==> table[a][b] == CountUpTo(sbox, a, b, 16)
        invariant forall b :: 0 <= b < 16 ==> table[xPrime][b] == CountUpTo(sbox, xPrime, b, x)
        invariant forall a, b :: xPrime < a < 16 && 0 <= b < 16 ==> table[a][b] == 0
      {
        var xStar := Xor4(x, xPrime);
        var yPrime := Xor4(sbox[x], sbox[xStar]);
        table := table[xPrime := table[xPrime][yPrime := table[xPrime][yPrime] + 1]];
      }
    }
    assert forall a :: 0 <= a < 16 ==> table[a] == Table(sbox)[a];
  }

  // ---------------------------------------------------------------------------
  // Shape of the table

  /** The sum of a row. */
  function Sum(s: seq<int>): int
  {
    if |s| == 0 then 0 else Sum(s[..|s| - 1]) + s[|s| - 1]
  }

  /** The counts of output differences 0..m-1 over the inputs 0..n-1, added up. */
  function RowSumUpTo(sbox: seq<int>, a: int, n: nat, m: nat): int
    requires IsBox(sbox) && 0 <= a < 16 && n <= 16
  {
    if m == 0 then 0 else RowSumUpTo(sbox, a, n, m - 1) + CountUpTo(sbox, a, m - 1, n)
  }

  lemma {:induction false} RowSumStep(sbox: seq<int>, a: int, n: nat, m: nat)
    requires IsBox(sbox) && 0 <= a < 16 && n < 16
    ensures RowSumUpTo(sbox, a, n + 1, m) == RowSumUpTo(sbox, a, n, m) + (if OutDiff(sbox, a, n) < m then 1 else 0)
  {
    if m > 0 {
      RowSumStep(sbox, a, n, m - 1);
    }
  }

  lemma {:induction false} RowSumNoInputs(sbox: seq<int>, a: int, m: nat)
    requires IsBox(sbox) && 0 <= a < 16
    ensures RowSumUpTo(sbox, a, 0, m) == 0
  {
    if m > 0 {
      RowSumNoInputs(sbox, a, m - 1);
    }
  }

  lemma {:induction false} RowSumAll(sbox: seq<int>, a: int, n: nat)
    requires IsBox(sbox) && 0 <= a < 16 && n <= 16
    ensures RowSumUpTo(sbox, a, n, 16) == n
  {
    if n == 0 {
      RowSumNoInputs(sbox, a, 16);
    } else {
      RowSumAll(sbox, a, n - 1);
      RowSumStep(sbox, a, n - 1, 16);
    }
  }

  lemma {:induction false} SumOfRowPrefix(sbox: seq<int>, a: int, m: nat)
    requires IsBox(sbox) && 0 <= a < 16 && m <= 16
    ensures Sum(Table(sbox)[a][..m]) == RowSumUpTo(sbox, a, 16, m)
  {
    if m > 0 {
      var row := Table(sbox)[a];
      assert row[..m][..m - 1] == row[..m - 1];
      SumOfRowPrefix(sbox, a, m - 1);
    }
  }

  /** Every row of the table adds up to 16: each of the 16 inputs lands in exactly one column. */
  lemma RowsSumTo16(sbox: seq<int>)
    requires IsBox(sbox)
    ensures forall a :: 0 <= a < 16 ==> Sum(Table(sbox)[a]) == 16
  {
    forall a | 0 <= a < 16 ensures Sum(Table(sbox)[a]) == 16 {
      SumOfRowPrefix(sbox, a, 16);
      RowSumAll(sbox, a, 16);
      assert Table(sbox)[a][..16] == Table(sbox)[a];
    }
  }

  lemma {:induction false} CountZeroDiff(sbox: seq<int>, b: int, n: nat)
    requires IsBox(sbox) && n <= 16
    ensures CountUpTo(sbox, 0, b, n) == if b == 0 then n else 0
  {
    if n > 0 {
      CountZeroDiff(sbox, b, n - 1);
      Xor4Facts(n - 1, 0);
      Xor4Facts(sbox[n - 1], sbox[n - 1]);
    }
  }

  /** Input difference 0 always gives output difference 0: row 0 is 16 followed by zeros. */
  lemma ZeroRow(sbox: seq<int>)
    requires IsBox(sbox)
    ensures Table(sbox)[0][0] == 16
    ensures forall b :: 1 <= b < 16 ==> Table(sbox)[0][b] == 0
  {
    forall b | 0 <= b < 16 ensures Table(sbox)[0][b] == if b == 0 then 16 else 0 {
      CountZeroDiff(sbox, b, 16);
    }
  }

  lemma {:induction false} CountNoZeroDiff(sbox: seq<int>, a: int, n: nat)
    requires ValidBox(sbox) && 1 <= a < 16 && n <= 16
    ensures IsBox(sbox)
    ensures CountUpTo(sbox, a, 0, n) == 0
  {
    ValidBoxIsPermutation(sbox);
    if n > 0 {
      CountNoZeroDiff(sbox, a, n - 1);
      var x := n - 1;
      Xor4Facts(x, a);
      Xor4Facts(a, x);
      Xor4Facts(x, x);
      assert Xor4(x, a) != x;
      Xor4Facts(sbox[x], sbox[Xor4(x, a)]);
    }
  }

  /** For a bijective S-box no non-zero input difference can vanish at the output. */
  lemma NonZeroRowsMissColumnZero(sbox: seq<int>)
    requires ValidBox(sbox)
    ensures IsBox(sbox)
    ensures forall a :: 1 <= a < 16 ==> Table(sbox)[a][0] == 0
  {
    ValidBoxIsPermutation(sbox);
    forall a | 1 <= a < 16 ensures Table(sbox)[a][0] == 0 {
      CountNoZeroDiff(sbox, a, 16);
    }
  }

  /** Each row has an entry of at least 1 (the column reached by input 0), and none above 16. */
  lemma EntriesBounded(sbox: seq<int>)
    requires IsBox(sbox)
    ensures IsGrid(Table(sbox))
    ensures forall a, b :: 0 <= a < 16 && 0 <= b < 16 ==> 0 <= Table(sbox)[a][b] <= 16
    ensures forall a :: 0 <= a < 16 ==> Table(sbox)[a][OutDiff(sbox, a, 0)] >= 1
  {
    forall a | 0 <= a < 16 ensures CountUpTo(sbox, a, OutDiff(sbox, a, 0), 16) >= 1 {
      CountAtLeastOne(sbox, a, 16);
    }
  }

  lemma {:induction false} CountAtLeastOne(sbox: seq<int>, a: int, n: nat)
    requires IsBox(sbox) && 0 <= a < 16 && 1 <= n <= 16
    ensures CountUpTo(sbox, a, OutDiff(sbox, a, 0), n) >= 1
  {
    if n > 1 {
      CountAtLeastOne(sbox, a, n - 1);
    }
  }
}
