/** Counting leading zeros: the bit length of a word, and the table-driven macro
    that looks up the top non-zero byte. */
module CountZeros {
  import opened Words

  /** Position of the highest set bit, counted from one; zero has none. */
  function BitLength(x: nat): nat {
    if x == 0 then 0 else 1 + BitLength(x / 2)
  }

  lemma {:induction false} BitLengthBounds(x: nat)
    requires x > 0
    ensures BitLength(x) >= 1
    ensures Pow2(BitLength(x) - 1) <= x < Pow2(BitLength(x))
  {
    if x == 1 {
      assert BitLength(1) == 1 + BitLength(0);
    } else {
      BitLengthBounds(x / 2);
    }
  }

  /** The bounds determine the length. */
  lemma BitLengthUnique(x: nat, k: nat)
    requires k >= 1 && Pow2(k - 1) <= x < Pow2(k)
    ensures BitLength(x) == k
  {
    BitLengthBounds(x);
    if BitLength(x) < k {
      Pow2Monotone(BitLength(x), k - 1);
      assert false;
    } else if BitLength(x) > k {
      Pow2Monotone(k, BitLength(x) - 1);
      assert false;
    }
  }

  /** Dropping low bits shortens a number by as many bits, as long as one is left. */
  lemma {:induction false} BitLengthShift(x: nat, k: nat)
    requires x >= Pow2(k)
    ensures BitLength(x) == BitLength(x / Pow2(k)) + k
    decreases k
  {
    if k > 0 {
      var p := Pow2(k - 1);
      assert Pow2(k) == 2 * p;
      assert x / 2 >= p;
      BitLengthShift(x / 2, k - 1);
      HalveThenDivide(x, p);
      assert BitLength(x) == 1 + BitLength(x / 2);
    }
  }

  lemma WordLength(x: Word)
    requires x > 0
    ensures 1 <= BitLength(x) <= 32
  {
    Pow2Values();
    BitLengthBounds(x);
    if BitLength(x) > 32 {
      Pow2Monotone(32, BitLength(x) - 1);
      assert false;
    }
  }

  /** The number of zero bits above the highest set bit. */
  function LeadingZeros(x: Word): (n: nat)
    ensures n <= 32
    ensures x > 0 ==> n < 32
  {
    if x == 0 then 32 else
      assert BitLength(x) <= 32 && BitLength(x) >= 1 by { WordLength(x); }
      32 - BitLength(x)
  }

  /** Normalising: shifting out the leading zeros brings the highest bit to the top. */
  lemma Normalises(x: Word)
    requires x > 0
    ensures TOP_BIT <= x * Pow2(LeadingZeros(x)) < W
    ensures LeadingZeros(x) == 0 <==> x >= TOP_BIT
  {
    var n, len := LeadingZeros(x), BitLength(x);
    WordLength(x);
    BitLengthBounds(x);
    Pow2Add(len - 1, n);
    Pow2Complement(len);
    Pow2Values();
    Scale(Pow2(len - 1), x, Pow2(len), Pow2(n));
    if n > 0 {
      Pow2Monotone(len, 31);
    }
  }

  // ---- the table ----

  function Run(n: nat, v: nat): (s: seq<nat>)
    ensures |s| == n
    ensures forall i :: 0 <= i < n ==> s[i] == v
  {
    seq(n, _ => v)
  }

  /** The 256 entries, run by run: `0,1,2,2,3,3,3,3,4,...`. */
  const CLZ_TAB: seq<nat> :=
    Run(1, 0) + Run(1, 1) + Run(2, 2) + Run(4, 3) + Run(8, 4)
    + Run(16, 5) + Run(32, 6) + Run(64, 7) + Run(128, 8)

  /** The value of the run that entry `i` lies in. */
  function RunValue(i: nat): nat {
    if i == 0 then 0 else if i < 2 then 1 else if i < 4 then 2 else if i < 8 then 3 else if i < 16 then 4
    else if i < 32 then 5 else if i < 64 then 6 else if i < 128 then 7 else 8
  }

  lemma TableRuns(i: nat)
    requires i < 256
    ensures |CLZ_TAB| == 256 && CLZ_TAB[i] == RunValue(i)
  {
  }

  /** Every table entry is the bit length of its index. */
  lemma TableIsBitLength(i: nat)
    requires i < 256
    ensures |CLZ_TAB| == 256
    ensures CLZ_TAB[i] == BitLength(i)
  {
    TableRuns(i);
    hide CLZ_TAB;
    if i > 0 {
      var k := RunValue(i);
      assert Pow2(8) == 0x100;
      assert Pow2(k - 1) <= i < Pow2(k);
      BitLengthUnique(i, k);
    }
  }

  lemma DivBelow(x: nat, p: int, k: nat)
    requires p >= 1 && x < k * p
    ensures 0 <= x / p < k
  {
    DivShrinks(x, p);
    if x / p >= k {
      MulMonotone(p, k, x / p);
      assert false;
    }
  }

  lemma ByteRange(x: Word, a: nat)
    requires a == 0 || a == 8 || a == 16 || a == 24
    requires a < 24 ==> x < Pow2(a + 8)
    ensures 0 <= x / Pow2(a) < 256
  {
    Pow2Add(a, 8);
    Pow2Values();
    Pow2Add(24, 8);
    hide Pow2;
    assert x < 256 * Pow2(a);
    DivBelow(x, Pow2(a), 256);
  }

  /** The byte picked by the comparisons holds the highest bit. */
  lemma TopByte(x: Word, a: nat)
    requires a == 0 || a == 8 || a == 16 || a == 24
    requires a > 0 ==> x >= Pow2(a)
    requires a < 24 ==> x < Pow2(a + 8)
    ensures 0 <= Shr(x, a) < 256 == |CLZ_TAB|
    ensures CLZ_TAB[Shr(x, a)] + a == BitLength(x)
  {
    ByteRange(x, a);
    assert Pow2(0) == 1;
    hide Pow2, CLZ_TAB, BitLength;
    TableIsBitLength(x / Pow2(a));
    if a > 0 {
      BitLengthShift(x, a);
    } else {
      assert x / 1 == x;
    }
  }

  /** `count_leading_zeros` in its table form: pick the byte that holds the highest
      bit, then look that byte up. */
  method CountLeadingZeros(x: Word) returns (count: nat)
    ensures count == LeadingZeros(x)
  {
    var a: nat;
    if x < HALF {
      a := if x < 0x100 then 0 else 8;
    } else {
      a := if x < 0x100_0000 then 16 else 24;
    }
    Pow2Values();
    var byte := Shr(x, a);
    TopByte(x, a);
    count := 32 - (CLZ_TAB[byte] + a);
  }
}
