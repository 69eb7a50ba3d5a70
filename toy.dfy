/**
 * The attack on the 4-bit toy cipher of toy-cipher-diff-crypt.py: the
 * cipher c = S(p ^ k1) ^ k2, a difference distribution table that keeps
 * the witnesses (x, x*, y, y*) of every count, the search for a good pair,
 * the key pairs a good pair leaves possible, and the exhaustive
 * confirmation. The secret keys and the random draws are parameters.
 * Values are ints in 0..15, as in toy-cipher-diff-crypt.py.
 */
module Toy {
  import opened Wrappers
  import opened Register
  import opened Spn
  import opened Ddt

  predicate IsNibble(v: int)
  {
    0 <= v < 16
  }

  /** (a ^ b) ^ c == a ^ (b ^ c) and a ^ b == b ^ a on 4-bit values. */
  lemma Xor4Algebra(a: int, b: int, c: int)
    requires IsNibble(a) && IsNibble(b) && IsNibble(c)
    ensures Xor4(Xor4(a, b), c) == Xor4(a, Xor4(b, c))
    ensures Xor4(a, b) == Xor4(b, a)
  {
    Xor4Assoc(a, b, c);
    Xor4Facts(a, b);
  }

  lemma Xor4Assoc(a: int, b: int, c: int)
    requires IsNibble(a) && IsNibble(b) && IsNibble(c)
    ensures Xor4(Xor4(a, b), c) == Xor4(a, Xor4(b, c))
  {
    var x, y, z := a as bv4, b as bv4, c as bv4;
    Xor4Bv(a, b);
    Xor4Bv(b, c);
    Bv4Assoc(x, y, z);
    assert Xor4(Xor4(a, b), c) == ((x ^ y) ^ z) as int;
    assert Xor4(a, Xor4(b, c)) == (x ^ (y ^ z)) as int;
  }

  lemma Xor4Bv(a: int, b: int)
    requires IsNibble(a) && IsNibble(b)
    ensures Xor4(a, b) as bv4 == (a as bv4) ^ (b as bv4)
  {
    IntOfBv4((a as bv4) ^ (b as bv4));
  }

  lemma Bv4Assoc(x: bv4, y: bv4, z: bv4)
    ensures (x ^ y) ^ z == x ^ (y ^ z)
  {
  }

  /** a ^ b ^ b == a, and a ^ a == 0. */
  lemma Xor4Cancel(a: int, b: int)
    requires IsNibble(a) && IsNibble(b)
    ensures Xor4(Xor4(a, b), b) == a && Xor4(Xor4(b, a), b) == a && Xor4(b, Xor4(b, a)) == a
    ensures Xor4(a, a) == 0
  {
    hide Xor4;
    Xor4Facts(a, b);
    Xor4Facts(a, a);
    Xor4Facts(b, Xor4(b, a));
  }

  // ---------------------------------------------------------------------------
  // The cipher

  /** sub: the S-box lookup. */
  function Sub(state: int, sbox: seq<int>): (r: int)
    requires IsBox(sbox) && IsNibble(state)
    ensures IsNibble(r)
  {
    sbox[state]
  }

  /** encrypt: key XOR, substitution, key XOR. */
  function ToyEncrypt(state: int, key1: int, key2: int, sbox: seq<int>): (r: int)
    requires IsBox(sbox) && IsNibble(state) && IsNibble(key1) && IsNibble(key2)
    ensures IsNibble(r)
  {
    Xor4(Sub(Xor4(state, key1), sbox), key2)
  }

  /** The list calculate_inv_sbox holds after its first n writes: inv[sbox[i]] = i for i < n over a list of zeros. */
  function InvSboxUpTo(sbox: seq<int>, n: nat): (inv: seq<int>)
    requires IsBox(sbox) && n <= 16
    ensures IsBox(inv)
  {
    if n == 0 then seq(16, _ => 0) else InvSboxUpTo(sbox, n - 1)[sbox[n - 1] := n - 1]
  }

  function InvSbox(sbox: seq<int>): (inv: seq<int>)
    requires IsBox(sbox)
    ensures IsBox(inv)
  {
    InvSboxUpTo(sbox, 16)
  }

  /** calculate_inv_sbox: a list of 16 zeros in which position sbox[i] receives i, for i in order. */
  method CalculateInvSbox(sbox: seq<int>) returns (invSbox: seq<int>)
    requires IsBox(sbox)
    ensures invSbox == InvSbox(sbox)
  {
    invSbox := seq(16, _ => 0);
    for i := 0 to 16
      invariant invSbox == InvSboxUpTo(sbox, i)
    {
      invSbox := invSbox[sbox[i] := i];
    }
  }

  /**
   * The last write wins: a value of the box maps to the last position that
   * holds it, a value the box misses keeps the initial 0.
   */
  lemma {:induction false} InvSboxUpToLastWriter(sbox: seq<int>, n: nat)
    requires IsBox(sbox) && n <= 16
    ensures forall v :: 0 <= v < 16 && v in sbox[..n] ==>
      var i := InvSboxUpTo(sbox, n)[v];
      i < n && sbox[i] == v && forall j :: i < j < n ==> sbox[j] != v
    ensures forall v :: 0 <= v < 16 && v !in sbox[..n] ==> InvSboxUpTo(sbox, n)[v] == 0
  {
    if n > 0 {
      InvSboxUpToLastWriter(sbox, n - 1);
      assert sbox[..n] == sbox[..n - 1] + [sbox[n - 1]];
    }
  }

  /** For a box that passes the configuration check, the inverse list undoes the box on both sides. */
  lemma InvSboxInverse(sbox: seq<int>)
    requires ValidBox(sbox)
    ensures IsBox(sbox)
    ensures forall i :: 0 <= i < 16 ==> InvSbox(sbox)[sbox[i]] == i
    ensures forall v :: 0 <= v < 16 ==> sbox[InvSbox(sbox)[v]] == v
  {
    ValidBoxIsPermutation(sbox);
    InvSboxUpToLastWriter(sbox, 16);
    assert sbox[..16] == sbox;
    forall i | 0 <= i < 16 ensures InvSbox(sbox)[sbox[i]] == i {
      assert sbox[i] in sbox;
    }
  }

  /** For such a box calculate_inv_sbox and the INV_SBOX formula of the SPN script give the same list. */
  lemma InvSboxIsInvertBox(sbox: seq<int>)
    requires ValidBox(sbox)
    ensures IsBox(sbox) && InvSbox(sbox) == InvertBox(sbox)
  {
    InvSboxInverse(sbox);
    InvertBoxInverse(sbox);
    ValidBoxIsPermutation(sbox);
    forall v | 0 <= v < 16 ensures InvSbox(sbox)[v] == InvertBox(sbox)[v] {
      assert sbox[InvSbox(sbox)[v]] == sbox[InvertBox(sbox)[v]];
    }
  }

  /** decrypt: key-2 XOR, inverse substitution through calculate_inv_sbox, key-1 XOR. */
  function ToyDecrypt(state: int, key1: int, key2: int, sbox: seq<int>): (r: int)
    requires IsBox(sbox) && IsNibble(state) && IsNibble(key1) && IsNibble(key2)
    ensures IsNibble(r)
  {
    Xor4(Sub(Xor4(state, key2), InvSbox(sbox)), key1)
  }

  /** Decryption undoes encryption for a box that passes the configuration check. */
  lemma ToyDecryptEncrypt(p: int, key1: int, key2: int, sbox: seq<int>)
    requires ValidBox(sbox) && IsNibble(p) && IsNibble(key1) && IsNibble(key2)
    ensures IsBox(sbox) && ToyDecrypt(ToyEncrypt(p, key1, key2, sbox), key1, key2, sbox) == p
  {
    hide Xor4;
    InvSboxInverse(sbox);
    Xor4Cancel(Sub(Xor4(p, key1), sbox), key2);
    Xor4Cancel(p, key1);
  }

  /** Encryption undoes decryption for such a box. */
  lemma ToyEncryptDecrypt(c: int, key1: int, key2: int, sbox: seq<int>)
    requires ValidBox(sbox) && IsNibble(c) && IsNibble(key1) && IsNibble(key2)
    ensures IsBox(sbox) && ToyEncrypt(ToyDecrypt(c, key1, key2, sbox), key1, key2, sbox) == c
  {
    hide Xor4;
    InvSboxInverse(sbox);
    Xor4Cancel(Sub(Xor4(c, key2), InvSbox(sbox)), key1);
    Xor4Cancel(c, key2);
  }

  // ---------------------------------------------------------------------------
  // The difference distribution table with witnesses

  /** The 4-tuple (x, x*, y, y*) the table stores. */
  datatype Witness = Witness(x: int, xStar: int, y: int, yStar: int)

  /** The witness input x contributes for input difference a. */
  function WitnessOf(sbox: seq<int>, a: int, x: int): Witness
    requires IsBox(sbox) && IsNibble(a) && IsNibble(x)
  {
    Witness(x, Xor4(x, a), sbox[x], sbox[Xor4(x, a)])
  }

  /** The witnesses of entry [a][b] among the inputs 0..n-1, in input order. */
  function CellUpTo(sbox: seq<int>, a: int, b: int, n: nat): seq<Witness>
    requires IsBox(sbox) && IsNibble(a) && n <= 16
  {
    if n == 0 then []
    else CellUpTo(sbox, a, b, n - 1) + if OutDiff(sbox, a, n - 1) == b then [WitnessOf(sbox, a, n - 1)] else []
  }

  function WitnessTable(sbox: seq<int>): seq<seq<seq<Witness>>>
    requires IsBox(sbox)
  {
    seq(16, a requires 0 <= a < 16 => seq(16, b requires 0 <= b < 16 => CellUpTo(sbox, a, b, 16)))
  }

  predicate IsWitnessGrid(t: seq<seq<seq<Witness>>>)
  {
    |t| == 16 && forall a :: 0 <= a < 16 ==> |t[a]| == 16
  }

  /**
   * build_difference_distribution_table of the toy script: a 16 x 16 grid of
   * empty lists; for every input difference and input, the witness is
   * appended to the entry of its output difference.
   */
  method BuildWitnessTable(sbox: seq<int>) returns (table: seq<seq<seq<Witness>>>)
    requires IsBox(sbox)
    ensures table == WitnessTable(sbox)
  {
    hide Xor4;
    table := seq(16, j => seq(16, i => []));
    for xPrime := 0 to 16
      invariant IsWitnessGrid(table)
      invariant forall a, b :: 0 <= a < xPrime && 0 <= b < 16 ==> table[a][b] == CellUpTo(sbox, a, b, 16)
      invariant forall a, b :: xPrime <= a < 16 && 0 <= b < 16 ==> table[a][b] == []
    {
      for x := 0 to 16
        invariant IsWitnessGrid(table)
        invariant forall a, b :: 0 <= a < xPrime && 0 <= b < 16 ==> table[a][b] == CellUpTo(sbox, a, b, 16)
        invariant forall b :: 0 <= b < 16 ==> table[xPrime][b] == CellUpTo(sbox, xPrime, b, x)
        invariant forall a, b :: xPrime < a < 16 && 0 <= b < 16 ==> table[a][b] == []
      {
        var xStar := Xor4(x, xPrime);
        var y := sbox[x];
        var yStar := sbox[xStar];
        var yPrime := Xor4(y, yStar);
        table := table[xPrime := table[xPrime][yPrime := table[xPrime][yPrime] + [Witness(x, xStar, y, yStar)]]];
      }
    }
    assert forall a :: 0 <= a < 16 ==> table[a] == WitnessTable(sbox)[a];
  }

  /** What a witness of entry [a][b] guarantees. */
  predicate Sound(w: Witness, sbox: seq<int>, a: int, b: int)
    requires IsBox(sbox)
  {
    IsNibble(w.x) && IsNibble(w.xStar) && IsNibble(w.y) && IsNibble(w.yStar) && Xor4(w.x, w.xStar) == a &&
    w.y == sbox[w.x] && w.yStar == sbox[w.xStar] && Xor4(w.y, w.yStar) == b
  }

  /** Every stored tuple is an input pair with difference a whose outputs differ by b. */
  lemma {:induction false} CellSound(sbox: seq<int>, a: int, b: int, n: nat)
    requires IsBox(sbox) && IsNibble(a) && n <= 16
    ensures forall w :: w in CellUpTo(sbox, a, b, n) ==> Sound(w, sbox, a, b)
  {
    hide Xor4;
    if n > 0 {
      CellSound(sbox, a, b, n - 1);
      Xor4Cancel(a, n - 1);
    }
  }

  /** The witness lists are as long as the counts of the counting table. */
  lemma {:induction false} CellCount(sbox: seq<int>, a: int, b: int, n: nat)
    requires IsBox(sbox) && IsNibble(a) && n <= 16
    ensures |CellUpTo(sbox, a, b, n)| == CountUpTo(sbox, a, b, n)
  {
    hide Xor4;
    if n > 0 {
      CellCount(sbox, a, b, n - 1);
    }
  }

  /** Every input x is stored, under the output difference it produces. */
  lemma {:induction false} CellComplete(sbox: seq<int>, a: int, x: int, n: nat)
    requires IsBox(sbox) && IsNibble(a) && 0 <= x < n <= 16
    ensures WitnessOf(sbox, a, x) in CellUpTo(sbox, a, OutDiff(sbox, a, x), n)
  {
    hide Xor4;
    if x < n - 1 {
      CellComplete(sbox, a, x, n - 1);
    }
  }

  /**
   * The shape of the witness table: entry [a][b] holds as many tuples as the
   * counting table's entry, so every row holds 16 tuples in total and entry
   * [0][0] holds all 16 inputs.
   */
  lemma WitnessTableShape(sbox: seq<int>)
    requires IsBox(sbox)
    ensures IsWitnessGrid(WitnessTable(sbox))
    ensures forall a, b :: 0 <= a < 16 && 0 <= b < 16 ==> |WitnessTable(sbox)[a][b]| == Table(sbox)[a][b]
    ensures forall a :: 0 <= a < 16 ==> Sum(seq(16, b requires 0 <= b < 16 => |WitnessTable(sbox)[a][b]|)) == 16
    ensures |WitnessTable(sbox)[0][0]| == 16
  {
    hide Xor4;
    forall a, b | 0 <= a < 16 && 0 <= b < 16 ensures |WitnessTable(sbox)[a][b]| == Table(sbox)[a][b] {
      CellCount(sbox, a, b, 16);
    }
    RowsSumTo16(sbox);
    ZeroRow(sbox);
    forall a | 0 <= a < 16
      ensures Sum(seq(16, b requires 0 <= b < 16 => |WitnessTable(sbox)[a][b]|)) == 16
    {
      assert seq(16, b requires 0 <= b < 16 => |WitnessTable(sbox)[a][b]|) == Table(sbox)[a];
    }
  }

  // ---------------------------------------------------------------------------
  // Good pairs and the key pairs they leave possible

  /** (plaintext1, plaintext2, ciphertext1, ciphertext2). */
  datatype GoodPair = GoodPair(plain1: int, plain2: int, cipher1: int, cipher2: int)

  /** plain1 and plain1 ^ inputXor encrypt, under the secret keys, to ciphertexts that differ by outputXor. */
  predicate IsGood(plain1: int, inputXor: int, outputXor: int, key1: int, key2: int, sbox: seq<int>)
    requires IsBox(sbox) && IsNibble(plain1) && IsNibble(inputXor) && IsNibble(key1) && IsNibble(key2)
  {
    Xor4(ToyEncrypt(plain1, key1, key2, sbox), ToyEncrypt(Xor4(plain1, inputXor), key1, key2, sbox)) == outputXor
  }

  /**
   * get_good_pair: tries plain1 = 0..15 with plain2 = plain1 ^ input_xor
   * and returns the first pair whose ciphertexts differ by output_xor, or
   * None when there is none.
   */
  method GetGoodPair(inputXor: int, outputXor: int, key1: int, key2: int, sbox: seq<int>) returns (r: Option<GoodPair>)
    requires IsBox(sbox) && IsNibble(inputXor) && IsNibble(outputXor) && IsNibble(key1) && IsNibble(key2)
    ensures r.None? <==> forall q :: 0 <= q < 16 ==> !IsGood(q, inputXor, outputXor, key1, key2, sbox)
    ensures r.Some? ==>
      var g := r.value;
      IsNibble(g.plain1) && IsNibble(g.plain2) && Xor4(g.plain1, g.plain2) == inputXor &&
      g.cipher1 == ToyEncrypt(g.plain1, key1, key2, sbox) && g.cipher2 == ToyEncrypt(g.plain2, key1, key2, sbox) &&
      Xor4(g.cipher1, g.cipher2) == outputXor &&
      forall q :: 0 <= q < g.plain1 ==> !IsGood(q, inputXor, outputXor, key1, key2, sbox)
  {
    hide Xor4, ToyEncrypt;
    for plain1 := 0 to 16
      invariant forall q :: 0 <= q < plain1 ==> !IsGood(q, inputXor, outputXor, key1, key2, sbox)
    {
      var plain2 := Xor4(plain1, inputXor);
      var cipher1 := ToyEncrypt(plain1, key1, key2, sbox);
      var cipher2 := ToyEncrypt(plain2, key1, key2, sbox);
      PlainDifference(plain1, inputXor);
      if Xor4(cipher1, cipher2) == outputXor {
        assert IsGood(plain1, inputXor, outputXor, key1, key2, sbox);
        return Some(GoodPair(plain1, plain2, cipher1, cipher2));
      }
    }
    return None;
  }

  lemma PlainDifference(plain1: int, inputXor: int)
    requires IsNibble(plain1) && IsNibble(inputXor)
    ensures IsNibble(Xor4(plain1, inputXor)) && Xor4(plain1, Xor4(plain1, inputXor)) == inputXor
  {
    hide Xor4;
    Xor4Cancel(inputXor, plain1);
  }

  predicate IsNibblePair(g: GoodPair)
  {
    IsNibble(g.plain1) && IsNibble(g.plain2) && IsNibble(g.cipher1) && IsNibble(g.cipher2)
  }

  /** The key guesses one witness gives: plain1 ^ x and cipher1 ^ y. */
  function KeyPairOf(g: GoodPair, w: Witness): (int, int)
    requires IsNibblePair(g) && IsNibble(w.x) && IsNibble(w.y)
  {
    (Xor4(g.plain1, w.x), Xor4(g.cipher1, w.y))
  }

  predicate IsWitnessCell(cell: seq<Witness>)
  {
    forall i :: 0 <= i < |cell| ==> IsNibble(cell[i].x) && IsNibble(cell[i].y)
  }

  /** get_possible_key_pairs: one key pair per tuple of entry [plain1 ^ plain2][cipher1 ^ cipher2], in order. */
  method GetPossibleKeyPairs(goodPair: GoodPair, table: seq<seq<seq<Witness>>>) returns (possibleKeyPairs: seq<(int, int)>)
    requires IsNibblePair(goodPair) && IsWitnessGrid(table)
    requires IsWitnessCell(table[Xor4(goodPair.plain1, goodPair.plain2)][Xor4(goodPair.cipher1, goodPair.cipher2)])
    ensures var cell := table[Xor4(goodPair.plain1, goodPair.plain2)][Xor4(goodPair.cipher1, goodPair.cipher2)];
      |possibleKeyPairs| == |cell| &&
      forall i :: 0 <= i < |cell| ==> possibleKeyPairs[i] == KeyPairOf(goodPair, cell[i])
  {
    hide Xor4;
    possibleKeyPairs := [];
    var inputXor := Xor4(goodPair.plain1, goodPair.plain2);
    var outputXor := Xor4(goodPair.cipher1, goodPair.cipher2);
    var diffDistEntry := table[inputXor][outputXor];
    for i := 0 to |diffDistEntry|
      invariant |possibleKeyPairs| == i
      invariant forall k :: 0 <= k < i ==> possibleKeyPairs[k] == KeyPairOf(goodPair, diffDistEntry[k])
    {
      var entry := diffDistEntry[i];
      var key1Guess := Xor4(goodPair.plain1, entry.x);
      var key2Guess := Xor4(goodPair.cipher1, entry.y);
      possibleKeyPairs := possibleKeyPairs + [(key1Guess, key2Guess)];
    }
  }

  /** The key pairs of the witness table's entry for a pair. */
  function KeyPairs(g: GoodPair, sbox: seq<int>): (r: seq<(int, int)>)
    requires IsBox(sbox) && IsNibblePair(g)
    ensures |r| == |WitnessTable(sbox)[Xor4(g.plain1, g.plain2)][Xor4(g.cipher1, g.cipher2)]|
  {
    var cell := WitnessTable(sbox)[Xor4(g.plain1, g.plain2)][Xor4(g.cipher1, g.cipher2)];
    CellSound(sbox, Xor4(g.plain1, g.plain2), Xor4(g.cipher1, g.cipher2), 16);
    seq(|cell|, i requires 0 <= i < |cell| => assert cell[i] in cell; KeyPairOf(g, cell[i]))
  }

  /**
   * Every key pair that get_possible_key_pairs returns encrypts plain1 to
   * cipher1 and plain2 to cipher2, whatever the pair is.
   */
  lemma KeyPairsEncrypt(g: GoodPair, sbox: seq<int>)
    requires IsBox(sbox) && IsNibblePair(g)
    ensures forall i :: 0 <= i < |KeyPairs(g, sbox)| ==>
      var (k1, k2) := KeyPairs(g, sbox)[i];
      IsNibble(k1) && IsNibble(k2) &&
      ToyEncrypt(g.plain1, k1, k2, sbox) == g.cipher1 && ToyEncrypt(g.plain2, k1, k2, sbox) == g.cipher2
  {
    hide Xor4;
    var a, b := Xor4(g.plain1, g.plain2), Xor4(g.cipher1, g.cipher2);
    var cell := WitnessTable(sbox)[a][b];
    CellSound(sbox, a, b, 16);
    forall i | 0 <= i < |cell|
      ensures var (k1, k2) := KeyPairs(g, sbox)[i];
        ToyEncrypt(g.plain1, k1, k2, sbox) == g.cipher1 && ToyEncrypt(g.plain2, k1, k2, sbox) == g.cipher2
    {
      assert cell[i] in cell;
      KeyPairSolves(g, cell[i], sbox, a, b);
    }
  }

  lemma KeyPairSolves(g: GoodPair, w: Witness, sbox: seq<int>, a: int, b: int)
    requires IsBox(sbox) && IsNibblePair(g) && a == Xor4(g.plain1, g.plain2) && b == Xor4(g.cipher1, g.cipher2)
    requires Sound(w, sbox, a, b)
    ensures var (k1, k2) := KeyPairOf(g, w);
      ToyEncrypt(g.plain1, k1, k2, sbox) == g.cipher1 && ToyEncrypt(g.plain2, k1, k2, sbox) == g.cipher2
  {
    hide Xor4;
    var (k1, k2) := KeyPairOf(g, w);
    var (p1, p2, c1, c2) := (g.plain1, g.plain2, g.cipher1, g.cipher2);
    // plain1 ^ k1 == x, and y ^ (cipher1 ^ y) == cipher1
    Xor4Cancel(w.x, p1);
    Xor4Facts(c1, w.y);
    Xor4Cancel(c1, w.y);
    assert Xor4(p1, k1) == w.x;
    // plain2 ^ k1 == (plain2 ^ plain1) ^ x == (x ^ x*) ^ x == x*
    Xor4Assoc(p2, p1, w.x);
    Xor4Facts(p2, p1);
    Xor4Facts(w.x, w.xStar);
    Xor4Cancel(w.xStar, w.x);
    assert Xor4(p2, k1) == w.xStar;
    // y* ^ (y ^ cipher1) == (y ^ y*) ^ cipher1 == (cipher1 ^ cipher2) ^ cipher1 == cipher2
    Xor4Assoc(w.yStar, w.y, c1);
    Xor4Facts(w.yStar, w.y);
    Xor4Facts(c1, c2);
    Xor4Cancel(c2, c1);
    assert Xor4(w.yStar, k2) == c2;
  }

  /** A pair that really is a good pair under (key1, key2) leaves (key1, key2) among the possible key pairs. */
  lemma KeyPairsComplete(g: GoodPair, key1: int, key2: int, sbox: seq<int>)
    requires IsBox(sbox) && IsNibblePair(g) && IsNibble(key1) && IsNibble(key2)
    requires g.cipher1 == ToyEncrypt(g.plain1, key1, key2, sbox) && g.cipher2 == ToyEncrypt(g.plain2, key1, key2, sbox)
    ensures (key1, key2) in KeyPairs(g, sbox)
  {
    hide Xor4;
    var a, b := Xor4(g.plain1, g.plain2), Xor4(g.cipher1, g.cipher2);
    var x := Xor4(g.plain1, key1);
    // x ^ a == key1 ^ (plain1 ^ (plain1 ^ plain2)) == plain2 ^ key1
    Xor4Facts(g.plain1, key1);
    Xor4Assoc(key1, g.plain1, a);
    Xor4Cancel(g.plain2, g.plain1);
    Xor4Facts(key1, g.plain2);
    assert Xor4(x, a) == Xor4(g.plain2, key1);
    // (y ^ key2) ^ (y* ^ key2) == y ^ (key2 ^ (key2 ^ y*)) == y ^ y*
    var y, yStar := sbox[x], sbox[Xor4(x, a)];
    Xor4Assoc(y, key2, Xor4(yStar, key2));
    Xor4Facts(yStar, key2);
    Xor4Cancel(yStar, key2);
    assert OutDiff(sbox, a, x) == b;
    CellComplete(sbox, a, x, 16);
    var cell := WitnessTable(sbox)[a][b];
    var i :| 0 <= i < |cell| && cell[i] == WitnessOf(sbox, a, x);
    // plain1 ^ x == key1 and cipher1 ^ y == key2
    Xor4Cancel(key1, g.plain1);
    Xor4Cancel(key2, y);
    assert KeyPairs(g, sbox)[i] == (key1, key2);
  }

  // ---------------------------------------------------------------------------
  // confirm_key_guesses

  /** The guessed keys encrypt all 16 plaintexts as the secret keys do. */
  predicate AgreesOnAll(k1: int, k2: int, key1: int, key2: int, sbox: seq<int>)
    requires IsBox(sbox) && IsNibble(k1) && IsNibble(k2) && IsNibble(key1) && IsNibble(key2)
  {
    forall p :: 0 <= p < 16 ==> ToyEncrypt(p, k1, k2, sbox) == ToyEncrypt(p, key1, key2, sbox)
  }

  predicate NibblePairs(pairs: seq<(int, int)>)
  {
    forall i :: 0 <= i < |pairs| ==> IsNibble(pairs[i].0) && IsNibble(pairs[i].1)
  }

  /** The first pair, in list order, that agrees with the secret keys on every plaintext. */
  function FirstAgreeing(pairs: seq<(int, int)>, key1: int, key2: int, sbox: seq<int>): (r: Option<(int, int)>)
    requires IsBox(sbox) && NibblePairs(pairs) && IsNibble(key1) && IsNibble(key2)
    ensures r.None? <==> forall i :: 0 <= i < |pairs| ==> !AgreesOnAll(pairs[i].0, pairs[i].1, key1, key2, sbox)
    ensures r.Some? ==> exists i :: (0 <= i < |pairs| && pairs[i] == r.value &&
      AgreesOnAll(pairs[i].0, pairs[i].1, key1, key2, sbox) &&
      forall j :: 0 <= j < i ==> !AgreesOnAll(pairs[j].0, pairs[j].1, key1, key2, sbox))
  {
    if |pairs| == 0 then None
    else if AgreesOnAll(pairs[0].0, pairs[0].1, key1, key2, sbox) then Some(pairs[0])
    else
      var r := FirstAgreeing(pairs[1..], key1, key2, sbox);
      assert forall i :: 1 <= i < |pairs| ==> pairs[i] == pairs[1..][i - 1];
      r
  }

  /**
   * confirm_key_guesses: for each pair in order, compares the encryptions of
   * all 16 plaintexts with those under the secret keys, stopping at the first
   * mismatch; returns the first pair with none, or None.
   */
  method ConfirmKeyGuesses(possibleKeyPairs: seq<(int, int)>, key1: int, key2: int, sbox: seq<int>)
    returns (r: Option<(int, int)>)
    requires IsBox(sbox) && NibblePairs(possibleKeyPairs) && IsNibble(key1) && IsNibble(key2)
    ensures r == FirstAgreeing(possibleKeyPairs, key1, key2, sbox)
  {
    hide Xor4, ToyEncrypt;
    for k := 0 to |possibleKeyPairs|
      invariant FirstAgreeing(possibleKeyPairs, key1, key2, sbox) == FirstAgreeing(possibleKeyPairs[k..], key1, key2, sbox)
    {
      var (key1Guess, key2Guess) := possibleKeyPairs[k];
      var correct := true;
      ghost var mismatch := 0;
      for plaintext := 0 to 16
        invariant correct
        invariant forall p :: 0 <= p < plaintext ==> ToyEncrypt(p, key1Guess, key2Guess, sbox) == ToyEncrypt(p, key1, key2, sbox)
      {
        var encryptionGuess := ToyEncrypt(plaintext, key1Guess, key2Guess, sbox);
        var encryptionCorrect := ToyEncrypt(plaintext, key1, key2, sbox);
        if encryptionGuess != encryptionCorrect {
          correct := false;
          mismatch := plaintext;
          break;
        }
      }
      assert !correct ==> (IsNibble(mismatch) &&
        ToyEncrypt(mismatch, key1Guess, key2Guess, sbox) != ToyEncrypt(mismatch, key1, key2, sbox));
      assert possibleKeyPairs[k..][0] == possibleKeyPairs[k];
      assert possibleKeyPairs[k..][1..] == possibleKeyPairs[k + 1..];
      if correct {
        return Some((key1Guess, key2Guess));
      }
    }
    return None;
  }

  /**
   * End to end: from a genuine good pair, the possible key pairs contain one
   * the confirmation accepts, and whatever it accepts encrypts every
   * plaintext as the secret keys do.
   */
  lemma ToyAttackFindsKeys(g: GoodPair, key1: int, key2: int, sbox: seq<int>)
    requires IsBox(sbox) && IsNibblePair(g) && IsNibble(key1) && IsNibble(key2)
    requires g.cipher1 == ToyEncrypt(g.plain1, key1, key2, sbox) && g.cipher2 == ToyEncrypt(g.plain2, key1, key2, sbox)
    ensures NibblePairs(KeyPairs(g, sbox))
    ensures var r := FirstAgreeing(KeyPairs(g, sbox), key1, key2, sbox);
      r.Some? && AgreesOnAll(r.value.0, r.value.1, key1, key2, sbox)
  {
    hide Xor4;
    KeyPairsEncrypt(g, sbox);
    KeyPairsComplete(g, key1, key2, sbox);
    var pairs := KeyPairs(g, sbox);
    var i :| 0 <= i < |pairs| && pairs[i] == (key1, key2);
    assert AgreesOnAll(pairs[i].0, pairs[i].1, key1, key2, sbox);
  }

  // ---------------------------------------------------------------------------
  // pick_random_differential_characteristic

  /** A draw the loop accepts: not (0, 0) and with a non-empty table entry. */
  predicate Usable(table: seq<seq<seq<Witness>>>, d: (int, int))
    requires IsWitnessGrid(table) && IsNibble(d.0) && IsNibble(d.1)
  {
    !(d.0 == 0 && d.1 == 0) && |table[d.0][d.1]| != 0
  }

  predicate NibbleDraws(draws: seq<(int, int)>)
  {
    forall i :: 0 <= i < |draws| ==> IsNibble(draws[i].0) && IsNibble(draws[i].1)
  }

  /**
   * pick_random_differential_characteristic over a given sequence of
   * random draws: the first usable one, or None when the draws run out.
   */
  method PickRandomDifferentialCharacteristic(table: seq<seq<seq<Witness>>>, draws: seq<(int, int)>)
    returns (diffChar: Option<(int, int)>)
    requires IsWitnessGrid(table) && NibbleDraws(draws)
    ensures diffChar.None? <==> forall i :: 0 <= i < |draws| ==> !Usable(table, draws[i])
    ensures diffChar.Some? ==> exists i :: (0 <= i < |draws| && draws[i] == diffChar.value && Usable(table, draws[i]) &&
      forall j :: 0 <= j < i ==> !Usable(table, draws[j]))
  {
    hide Xor4;
    diffChar := None;
    var n := 0;
    while diffChar == None && n < |draws|
      invariant 0 <= n <= |draws|
      invariant diffChar.None? ==> forall j :: 0 <= j < n ==> !Usable(table, draws[j])
      invariant diffChar.Some? ==> (0 < n && draws[n - 1] == diffChar.value && Usable(table, draws[n - 1]) &&
        forall j :: 0 <= j < n - 1 ==> !Usable(table, draws[j]))
    {
      var (inputXor, outputXor) := draws[n];
      n := n + 1;
      if inputXor == 0 && outputXor == 0 {
        continue;
      }
      if |table[inputXor][outputXor]| != 0 {
        diffChar := Some((inputXor, outputXor));
      }
    }
  }

  /** With the witness table, a usable draw is a characteristic some input pair follows. */
  lemma UsableHasWitness(sbox: seq<int>, d: (int, int))
    requires IsBox(sbox) && IsNibble(d.0) && IsNibble(d.1)
    requires IsWitnessGrid(WitnessTable(sbox)) && Usable(WitnessTable(sbox), d)
    ensures exists x :: 0 <= x < 16 && OutDiff(sbox, d.0, x) == d.1
  {
    hide Xor4;
    var cell := WitnessTable(sbox)[d.0][d.1];
    CellSound(sbox, d.0, d.1, 16);
    var w := cell[0];
    assert w in cell;
    Xor4Cancel(w.x, d.0);
    Xor4Algebra(w.x, w.x, w.xStar);
    Xor4Cancel(w.xStar, w.x);
    assert Xor4(w.x, d.0) == w.xStar;
    assert OutDiff(sbox, d.0, w.x) == d.1;
  }
}
