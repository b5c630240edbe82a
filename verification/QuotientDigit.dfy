/** Two words divided by one: the quotient digit and the remainder. */
module QuotientDigit {
  import opened Words

  /** What a divide instruction delivers when the quotient fits in a word. */
  ghost predicate IsDigit(n1: Word, n0: Word, d: Word, q: Word, r: Word) {
    r < d && q * d + r == Join(n1, n0)
  }

  /** The quotient fits exactly when the high word is below the divisor. */
  lemma DigitExists(n1: Word, n0: Word, d: Word)
    requires n1 < d
    ensures 0 <= Join(n1, n0) / d < W
    ensures IsDigit(n1, n0, d, Join(n1, n0) / d, Join(n1, n0) % d)
  {
    var n := Join(n1, n0);
    assert n == d * (n / d) + n % d;
    assert n < d * W by { MulMonotone(W, n1 + 1, d); }
    if n / d >= W {
      MulMonotone(d, W, n / d);
      assert false;
    }
  }

  lemma DigitUnique(n1: Word, n0: Word, d: Word, q: Word, r: Word)
    requires IsDigit(n1, n0, d, q, r)
    ensures q == Join(n1, n0) / d && r == Join(n1, n0) % d
  {
    DivModUnique(Join(n1, n0), d, q, r);
  }

  /** `udiv_qrnnd` where the machine has a divide instruction. */
  method UdivQrnnd(n1: Word, n0: Word, d: Word) returns (q: Word, r: Word)
    requires n1 < d
    ensures IsDigit(n1, n0, d, q, r)
  {
    DigitExists(n1, n0, d);
    var n := Join(n1, n0);
    q, r := n / d, n % d;
  }

  // ---- the macro version, built from half words ----

  function HighHalf(x: Word): Word { x / HALF }
  function LowHalf(x: Word): Word { x % HALF }

  lemma Halves(x: Word)
    ensures x == HighHalf(x) * HALF + LowHalf(x)
    ensures 0 <= HighHalf(x) < HALF && 0 <= LowHalf(x) < HALF
    ensures x >= TOP_BIT ==> HighHalf(x) >= 0x8000
  {
  }

  /** `x * 2^16 | y` joins a half-word pair without losing a bit. */
  lemma JoinHalves(x: Word, y: Word)
    requires x < HALF && y < HALF
    ensures Or(Mul(x, HALF), y) == x * HALF + y
  {
    Pow2Values();
    assert x * HALF < W;
    assert Mul(x, HALF) == x * HALF;
    OrIsAdd(x, 16, y);
  }

  lemma GuessRange(n1: Word, d: Word, d1: int, d0: int, q: int, r: int)
    requires d >= TOP_BIT && n1 < d
    requires d == d1 * HALF + d0 && 0 <= d0 < HALF
    requires n1 == q * d1 + r && 0 <= r < d1
    ensures 0 <= q <= HALF + 1
  {
    if q >= HALF + 2 {
      MulMonotone(d1, HALF + 2, q);
      assert false;
    }
    if q < 0 {
      MulMonotone(d1, q, -1);
      assert false;
    }
  }

  /** The guess at a half digit: `q*d0` fits in a word, the digit still to divide is
      below the divisor, and the guess is at most two too large. */
  lemma GuessBounds(n1: Word, half: Word, d: Word, d1: int, d0: int, q: int, r: int)
    requires d >= TOP_BIT && n1 < d && half < HALF
    requires d == d1 * HALF + d0 && 0 <= d0 < HALF
    requires n1 == q * d1 + r && 0 <= r < d1
    ensures 0 <= q <= HALF + 1
    ensures 0 <= q * d0 < W
    ensures r * HALF + half < d
    ensures n1 * HALF + half == q * d + (r * HALF + half - q * d0)
    ensures q * d0 < r * HALF + half + 2 * d
  {
    GuessRange(n1, d, d1, d0, q, r);
    MulMonotone(d0, 0, q);
    MulMonotone(d0, q, HALF + 1);
    assert q * d == (q * d1) * HALF + q * d0;
  }

  /** After the corrections the half digit is exact and fits in half a word. */
  lemma HalfDigitFits(n1: Word, half: Word, d: Word, q: int, r: int)
    requires n1 < d && half < HALF && 0 <= r < d
    requires q * d + r == n1 * HALF + half
    ensures 0 <= q < HALF
  {
    if q < 0 {
      MulMonotone(d, q, -1);
      assert false;
    } else if q >= HALF {
      MulMonotone(d, HALF, q);
      MulMonotone(HALF, n1 + 1, d);
      assert false;
    }
  }

  lemma NoWrap(x: Word, y: Word)
    requires 0 <= x * y < W
    ensures Mul(x, y) == x * y
  {
  }

  /** A guess whose product with the low half is positive is at least one; if the
      product exceeds the divisor it is at least two. */
  lemma PositiveFactors(q: int, d0: int, d: int)
    requires q >= 0 && 0 <= d0 < HALF <= d
    ensures q * d0 > 0 ==> q >= 1
    ensures q * d0 > d ==> q >= 2
  {
    if q == 1 {
      assert q * d0 == d0;
    }
  }

  /** The first three statements of a half digit: the guess `q`, the digits `x` left
      to divide, and the product `m` that the guess takes away from them. */
  method Guess(n1: Word, half: Word, d: Word) returns (q: Word, x: Word, m: Word)
    requires d >= TOP_BIT && n1 < d && half < HALF
    ensures n1 * HALF + half == q * d + (x - m)
    ensures x < d
    ensures m > x ==> q >= 1
    ensures m > x + d ==> q >= 2
  {
    Halves(d);
    var d1, d0 := HighHalf(d), LowHalf(d);
    DivShrinks(n1, d1);
    var r := n1 % d1;
    q := n1 / d1;
    GuessBounds(n1, half, d, d1, d0, q, r);
    JoinHalves(r, half);
    PositiveFactors(q, d0, d);
    NoWrap(q, d0);
    hide Wrap, Mul, Or;
    m := Mul(q, d0);
    x := Or(Mul(r, HALF), half);
  }

  /** The corrections of a half digit. The test `r >= d` after the wrapping addition
      stands for "no carry was lost"; the result is exact after at most two. */
  method Correct(guess: Word, x: Word, m: Word, d: Word) returns (q: Word, r: Word)
    requires d >= TOP_BIT && x < d
    requires m > x ==> guess >= 1
    requires m > x + d ==> guess >= 2
    ensures r < d
    ensures (q == guess && r == x - m)
         || (q == guess - 1 && r == x - m + d)
         || (q == guess - 2 && r == x - m + d + d)
  {
    q, r := guess, x;
    if r < m {
      q, r := Sub(q, 1), Add(r, d);
      if r >= d {
        assert r == x + d;
        if r < m {
          q, r := Sub(q, 1), Add(r, d);
        }
      }
    }
    r := Sub(r, m);
  }

  lemma Corrected(guess: int, q: int, r: int, d: int, n: int, e: int)
    requires n == guess * d + e
    requires (q == guess && r == e) || (q == guess - 1 && r == e + d) || (q == guess - 2 && r == e + d + d)
    ensures n == q * d + r
  {
  }

  /** One half of `__udiv_qrnnd_c`, a text the macro writes out twice. */
  method HalfDigit(n1: Word, half: Word, d: Word) returns (q: Word, r: Word)
    requires d >= TOP_BIT && n1 < d && half < HALF
    ensures q * d + r == n1 * HALF + half
    ensures r < d && q < HALF
  {
    var guess, x, m := Guess(n1, half, d);
    q, r := Correct(guess, x, m, d);
    Corrected(guess, q, r, d, n1 * HALF + half, x as int - m);
    HalfDigitFits(n1, half, d, q, r);
  }

  /** Long division by half words: two half digits make the digit. */
  lemma TwoHalfDigits(n1: nat, half1: nat, half0: nat, d: nat, q1: nat, r1: nat, q0: nat, r0: nat)
    requires q1 * d + r1 == n1 * 0x1_0000 + half1
    requires q0 * d + r0 == r1 * 0x1_0000 + half0
    ensures (q1 * 0x1_0000 + q0) * d + r0 == n1 * 0x1_0000_0000 + half1 * 0x1_0000 + half0
  {
    assert (q1 * 0x1_0000 + q0) * d == (q1 * d) * 0x1_0000 + q0 * d;
  }

  /** `__udiv_qrnnd_c`: two half digits make the digit. */
  method UdivQrnndC(n1: Word, n0: Word, d: Word) returns (q: Word, r: Word)
    requires d >= TOP_BIT && n1 < d
    ensures IsDigit(n1, n0, d, q, r)
  {
    var q1, r1 := HalfDigit(n1, HighHalf(n0), d);
    var q0, r0 := HalfDigit(r1, LowHalf(n0), d);
    JoinHalves(q1, q0);
    hide Or, Mul;
    q := Or(Mul(q1, HALF), q0);
    r := r0;
    TwoHalfDigits(n1, HighHalf(n0), LowHalf(n0), d, q1, r1, q0, r0);
  }
}
