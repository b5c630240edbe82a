/** `__udivmoddi4`: 64-by-64-bit unsigned division by normalised schoolbook long
    division, for machines with and without a divide instruction. */
module UDivMod {
  import opened Words
  import opened CountZeros
  import opened QuotientDigit

  /** The two conditional compilations of the function. */
  datatype Build = Plain | Normalizing

  /** The function divides by zero on purpose when the divisor is zero. */
  datatype Outcome = Trap | Value(ll: DWord)

  /** The object that the `rp` argument points at. */
  class Remainder {
    var ll: DWord
    constructor ()
    {
      ll := 0;
    }
  }

  method Digit(build: Build, n1: Word, n0: Word, d: Word) returns (q: Word, r: Word)
    requires n1 < d
    requires build.Normalizing? ==> d >= TOP_BIT
    ensures IsDigit(n1, n0, d, q, r)
  {
    match build
    case Plain => q, r := UdivQrnnd(n1, n0, d);
    case Normalizing => q, r := UdivQrnndC(n1, n0, d);
  }

  // ---- shifting word pairs ----

  /** The middle word of a pair shifted left, `(hi << k) | (lo >> (32 - k))`. */
  function ShiftedWord(hi: Word, lo: Word, k: nat): nat
    requires 1 <= k < 32
  {
    Or(Shl(hi, k), Shr(lo, 32 - k))
  }

  lemma Regroup(x: int, top: int, rest: int, s: int, p: int)
    requires x == top * s + rest
    ensures x * p == top * (p * s) + rest * p
  {
  }

  /** A word cut into its `k` high bits and the rest: a left shift moves the rest up
      and loses the high bits, a right shift by `32 - k` keeps the high bits alone. */
  lemma ShiftParts(x: Word, k: nat) returns (top: nat, rest: nat)
    requires 1 <= k < 32
    ensures x == top * Pow2(32 - k) + rest
    ensures top < Pow2(k) && rest < Pow2(32 - k)
    ensures Shr(x, 32 - k) == top
    ensures Shl(x, k) == rest * Pow2(k)
    ensures x * Pow2(k) == top * W + rest * Pow2(k)
    ensures rest * Pow2(k) <= W - Pow2(k)
  {
    var p, s := Pow2(k), Pow2(32 - k);
    Pow2Complement(k);
    top, rest := x / s, x % s;
    DivShrinks(x, s);
    Scale(0, rest, s, p);
    Regroup(x, top, rest, s, p);
    DivModUnique(x * p, W, top, rest * p);
    DivBelow(x, s, p);
  }

  lemma ShiftedLeft(hi: int, lo: int, p: int, a: int, cp: int, e: int, fp: int)
    requires hi * p == a * W + cp && lo * p == e * W + fp
    ensures (a * W + (cp + e)) * W + fp == (hi * W + lo) * p
  {
    assert (hi * W) * p == (hi * p) * W;
  }

  /** Shifting a pair left by `k` multiplies it by `2^k`, spread over three words. */
  lemma ShiftLeftPair(hi: Word, lo: Word, k: nat)
    requires 1 <= k < 32
    ensures Shr(hi, 32 - k) < Pow2(k)
    ensures 0 <= ShiftedWord(hi, lo, k) < W
    ensures (Shr(hi, 32 - k) * W + ShiftedWord(hi, lo, k)) * W + Shl(lo, k) == Join(hi, lo) * Pow2(k)
    ensures Shl(lo, k) <= W - Pow2(k)
  {
    var p := Pow2(k);
    var a, c := ShiftParts(hi, k);
    var e, f := ShiftParts(lo, k);
    OrIsAdd(c, k, e);
    ShiftedLeft(hi, lo, p, a, c * p, e, f * p);
  }

  lemma ShiftedRight(a: int, c: int, e: int, f: int, p: int, s: int)
    requires p * s == W
    ensures (a * p + c) * W + (e * p + f) == (a * W + (c * s + e)) * p + f
  {
    assert (a * W + (c * s + e)) * p == (a * W) * p + (c * s) * p + e * p;
    assert (c * s) * p == c * W;
    assert (a * p) * W == (a * W) * p;
  }

  /** Shifting a pair right by `k` divides it by `2^k`. */
  lemma ShiftRightPair(hi: Word, lo: Word, k: nat)
    requires 1 <= k < 32
    ensures 0 <= Or(Shl(hi, 32 - k), Shr(lo, k)) < W
    ensures Join(Shr(hi, k), Or(Shl(hi, 32 - k), Shr(lo, k))) == Join(hi, lo) / Pow2(k)
  {
    var p, s := Pow2(k), Pow2(32 - k);
    assert 32 - (32 - k) == k;
    var a, c := ShiftParts(hi, 32 - k);
    var e, f := ShiftParts(lo, 32 - k);
    assert hi == a * p + c && lo == e * p + f;
    OrIsAdd(c, 32 - k, e);
    Pow2Complement(k);
    ShiftedRight(a, c, e, f, p, s);
    DivModUnique(Join(hi, lo), p, a * W + (c * s + e), f);
  }

  /** Scaling dividend and divisor leaves the quotient and scales the remainder. */
  lemma ScaledDivision(n: nat, d: nat, p: int, q: int, r: int)
    requires p >= 1 && 0 <= r < d * p && n * p == q * (d * p) + r
    ensures q == n / d && r == (n % d) * p && r / p == n % d
  {
    var e := n - q * d;
    assert r == e * p by { assert (q * d) * p == q * (d * p); }
    if e < 0 {
      MulMonotone(p, e, -1);
      assert false;
    }
    if e >= d {
      MulMonotone(p, d, e);
      assert false;
    }
    DivModUnique(n, d, q, e);
    DivModUnique(r, p, e, 0);
  }

  // ---- the specified two-word primitives ----

  /** `sub_ddmmss`: two-word subtraction, a final borrow is lost. */
  method SubDdmmss(ah: Word, al: Word, bh: Word, bl: Word) returns (sh: Word, sl: Word)
    ensures Join(sh, sl) == if Join(ah, al) >= Join(bh, bl) then Join(ah, al) as int - Join(bh, bl)
                            else Join(ah, al) as int - Join(bh, bl) + W * W
  {
    sl := Sub(al, bl);
    sh := Sub(ah, bh);
    if al < bl {
      sh := Sub(sh, 1);
    }
  }

  /** `umul_ppmm`: the full product of two words. */
  method UmulPpmm(u: Word, v: Word) returns (high: Word, low: Word)
    ensures Join(high, low) == u * v
  {
    assert 0 <= u * v < W * W by {
      MulMonotone(u, 0, v);
      MulMonotone(u, v, W - 1);
      MulMonotone(W - 1, u, W - 1);
    }
    var product: DWord := u * v;
    high, low := High(product), Low(product);
  }

  // ---- the digit guessed from the top divisor word ----

  /** What a guess from the top divisor word leaves of the dividend. */
  lemma GuessLeaves(hi: nat, n0: Word, d1: Word, d0: Word, q: Word, r: Word)
    requires hi == q * d1 + r && r < d1
    ensures hi * 0x1_0000_0000 + n0
            == q * (d1 * 0x1_0000_0000 + d0) + ((r * 0x1_0000_0000 + n0) as int - q * d0)
    ensures r * 0x1_0000_0000 + n0 < d1 * 0x1_0000_0000 + d0
  {
    assert q * (d1 * 0x1_0000_0000 + d0) == (q * d1) * 0x1_0000_0000 + q * d0;
  }

  lemma OneLess(q: int, d: int)
    ensures (q - 1) * d == q * d - d
  {
  }

  lemma GuessTimesLow(top: Word, n1: Word, d1: Word, d0: Word, k: nat, q: Word, r: Word)
    requires 1 <= k < 32
    requires d1 >= TOP_BIT && top < Pow2(k) && d0 <= W - Pow2(k)
    requires IsDigit(top, n1, d1, q, r)
    ensures 0 <= q * d0 < TOP_BIT * W
  {
    var p := Pow2(k);
    Pow2Values();
    MulMonotone(d0, 0, q);
    if k == 31 {
      MulMonotone(q, d0, TOP_BIT);
      MulMonotone(TOP_BIT, q, W - 1);
    } else {
      Pow2Monotone(k, 30);
      assert Pow2(31) == 2 * Pow2(30);
      assert q * d1 < p * W;
      MulMonotone(q, TOP_BIT, d1);
      assert q < 2 * p;
      MulMonotone(q, d0, W);
    }
  }

  /** Dividing the top words alone gives the true quotient or exactly one more. The
      guess stays below `2^(k+1)` because the dividend was shifted by `k`, and the
      `k` low bits of the divisor are zero, so the guess times the low divisor word
      never reaches the divisor itself. */
  lemma TopWordGuess(top: Word, n1: Word, n0: Word, d1: Word, d0: Word, k: nat, q: Word, r: Word)
    requires 1 <= k < 32
    requires d1 >= TOP_BIT && top < Pow2(k) && d0 <= W - Pow2(k)
    requires IsDigit(top, n1, d1, q, r)
    ensures
      var n, d := Join(top, n1) * W + n0, Join(d1, d0);
      var rest := Join(r, n0) as int - q * d0;
      && 0 <= q * d0 < d
      && n == q * d + rest
      && (rest >= 0 ==> q == n / d && rest == n % d)
      && (rest < 0 ==> q == n / d + 1 && rest + d == n % d)
  {
    var n, d := Join(top, n1) * W + n0, Join(d1, d0);
    var rest := Join(r, n0) as int - q * d0;
    GuessTimesLow(top, n1, d1, d0, k, q, r);
    GuessLeaves(Join(top, n1), n0, d1, d0, q, r);
    hide IsDigit;
    if rest >= 0 {
      DivModUnique(n, d, q, rest);
    } else {
      OneLess(q, d);
      DivModUnique(n, d, q - 1, rest + d);
    }
  }

  // ---- the three shapes of the division ----

  /** Long division of three words by one, a digit at a time. */
  lemma TwoDigits(n2: Word, n1: Word, n0: Word, d: Word, q1: Word, r1: Word, q0: Word, r0: Word)
    requires IsDigit(n2, n1, d, q1, r1)
    requires IsDigit(r1, n0, d, q0, r0)
    ensures Join(n2, n1) * W + n0 == Join(q1, q0) * d + r0
  {
    assert Join(q1, q0) * d == (q1 * d) * W + q0 * d;
  }

  /** One-word divisor on a machine that divides two words by one directly. */
  method OneWordPlain(n: DWord, d0: Word, rp: Remainder?) returns (q1: Word, q0: Word)
    requires d0 > 0
    modifies rp
    ensures Join(q1, q0) == n / d0
    ensures rp != null ==> rp.ll == n % d0
  {
    var n1, n0 := High(n), Low(n);
    if d0 > n1 {
      q0, n0 := Digit(Plain, n1, n0, d0);
      q1 := 0;
    } else {
      ghost var high, low := n1, n0;
      q1, n1 := Digit(Plain, 0, n1, d0);
      ghost var between := n1;
      q0, n0 := Digit(Plain, n1, n0, d0);
      TwoDigits(0, high, low, d0, q1, between, q0, n0);
    }
    hide IsDigit;
    DivModUnique(n, d0, Join(q1, q0), n0);
    if rp != null {
      rp.ll := Join(0, n0);
    }
  }

  lemma BelowScaled(hi: Word, lo: Word, d: Word, p: nat, top: nat, mid: nat, low: nat)
    requires hi < d && p >= 1 && d * p < W
    requires (top * W + mid) * W + low == (hi * W + lo) * p
    ensures top == 0 && mid < d * p
  {
    assert hi * W + lo < d * W;
    MulMonotone(p, hi * W + lo, d * W);
    assert (d * W) * p == (d * p) * W;
    assert (top * W + mid) * W <= (d * p) * W;
    if top * W + mid >= d * p {
      assert low == 0 && top * W + mid == d * p;
      MulMonotone(p, hi * W + lo + 1, d * W);
      assert false;
    }
  }

  /** A divisor and a dividend normalised by the divisor's leading zeros: the top bit of
      the divisor is set, and what is shifted out of the dividend is below it. */
  lemma NormalisedPair(hi: Word, lo: Word, d: Word)
    requires d > 0 && LeadingZeros(d) > 0
    ensures
      var k := LeadingZeros(d);
      var top, mid, low := Shr(hi, 32 - k), ShiftedWord(hi, lo, k), Shl(lo, k);
      && Shl(d, k) == d * Pow2(k)
      && Shl(d, k) >= TOP_BIT
      && 0 <= mid < W
      && top < Shl(d, k)
      && (top * W + mid) * W + low == Join(hi, lo) * Pow2(k)
      && (hi < d ==> top == 0 && mid < Shl(d, k))
  {
    var k := LeadingZeros(d);
    var p := Pow2(k);
    var top, mid, low := Shr(hi, 32 - k), ShiftedWord(hi, lo, k), Shl(lo, k);
    Normalises(d);
    ShiftLeftPair(hi, lo, k);
    Pow2Monotone(k, 31);
    Pow2Values();
    if hi < d {
      BelowScaled(hi, lo, d, p, top, mid, low);
    }
  }

  /** The quotient is one digit: `d0 > n1`. The remainder is left shifted by `bm`. */
  method OneDigit(n1: Word, n0: Word, d0: Word, bm: nat) returns (q0: Word, r: Word)
    requires d0 > n1 && bm == LeadingZeros(d0)
    ensures r < d0 * Pow2(bm)
    ensures Join(n1, n0) * Pow2(bm) == q0 * (d0 * Pow2(bm)) + r
  {
    Normalises(d0);
    if bm != 0 {
      NormalisedPair(n1, n0, d0);
      q0, r := Digit(Normalizing, ShiftedWord(n1, n0, bm), Shl(n0, bm), Shl(d0, bm));
    } else {
      q0, r := Digit(Normalizing, n1, n0, d0);
    }
  }

  /** The quotient is two digits: `d0 <= n1`. The remainder is left shifted by `bm`. */
  method BothDigits(n1: Word, n0: Word, d0: Word, bm: nat) returns (q1: Word, q0: Word, r: Word)
    requires 0 < d0 <= n1 && bm == LeadingZeros(d0)
    ensures r < d0 * Pow2(bm)
    ensures Join(n1, n0) * Pow2(bm) == Join(q1, q0) * (d0 * Pow2(bm)) + r
  {
    Normalises(d0);
    if bm == 0 {
      q1 := 1;
      q0, r := Digit(Normalizing, n1 - d0, n0, d0);
      TwoDigits(0, n1, n0, d0, q1, n1 - d0, q0, r);
    } else {
      var b := 32 - bm;
      NormalisedPair(n1, n0, d0);
      var d := Shl(d0, bm);
      var n2, mid, low := Shr(n1, b), ShiftedWord(n1, n0, bm), Shl(n0, bm);
      var r1: Word;
      q1, r1 := Digit(Normalizing, n2, mid, d);
      q0, r := Digit(Normalizing, r1, low, d);
      TwoDigits(n2, mid, low, d, q1, r1, q0, r);
    }
  }

  /** One-word divisor on a machine that needs the divisor's top bit set. */
  method OneWordNormalizing(n: DWord, d0: Word, rp: Remainder?) returns (q1: Word, q0: Word)
    requires d0 > 0
    modifies rp
    ensures Join(q1, q0) == n / d0
    ensures rp != null ==> rp.ll == n % d0
  {
    var n1, n0 := High(n), Low(n);
    var bm := CountLeadingZeros(d0);
    if d0 > n1 {
      q0, n0 := OneDigit(n1, n0, d0, bm);
      q1 := 0;
    } else {
      q1, q0, n0 := BothDigits(n1, n0, d0, bm);
    }
    ScaledDivision(n, d0, Pow2(bm), Join(q1, q0), n0);
    if rp != null {
      rp.ll := Join(0, Shr(n0, bm));
    }
  }

  /** A two-word divisor not above the dividend, top bit already set: the quotient is
      zero or one. */
  method TwoWordTop(n: DWord, d: DWord, rp: Remainder?) returns (q0: Word)
    requires High(d) >= TOP_BIT && High(n) >= High(d)
    modifies rp
    ensures q0 == n / d
    ensures rp != null ==> rp.ll == n % d
  {
    var d1, d0, n1, n0 := High(d), Low(d), High(n), Low(n);
    if n1 > d1 || n0 >= d0 {
      q0 := 1;
      n1, n0 := SubDdmmss(n1, n0, d1, d0);
    } else {
      q0 := 0;
    }
    DivModUnique(n, d, q0, Join(n1, n0));
    if rp != null {
      rp.ll := Join(n1, n0);
    }
  }

  lemma PairOrder(m1: Word, m0: Word, n1: Word, n0: Word)
    ensures Join(m1, m0) > Join(n1, n0) <==> m1 > n1 || (m1 == n1 && m0 > n0)
  {
  }

  /** Shifting a two-word divisor left by the leading zeros of its high word loses
      nothing and sets its top bit. */
  lemma NormalisedDivisor(d: DWord, k: nat)
    requires High(d) > 0 && k == LeadingZeros(High(d)) && k > 0
    ensures ShiftedWord(High(d), Low(d), k) >= TOP_BIT
    ensures 0 <= ShiftedWord(High(d), Low(d), k) < W
    ensures Shl(Low(d), k) <= W - Pow2(k)
    ensures Join(ShiftedWord(High(d), Low(d), k), Shl(Low(d), k)) == d * Pow2(k)
  {
    var hi, lo, p := High(d), Low(d), Pow2(k);
    Normalises(hi);
    ShiftLeftPair(hi, lo, k);
    var a, c := ShiftParts(hi, k);
    var e, f := ShiftParts(lo, k);
    OrIsAdd(c, k, e);
    assert a == 0;
  }

  lemma ScaledDivMod(n: nat, d: nat, p: int, r: int)
    requires d > 0 && p >= 1 && d * p > 0
    requires r == (n * p) % (d * p)
    ensures (n * p) / (d * p) == n / d
    ensures r / p == n % d
  {
    ScaledDivision(n, d, p, (n * p) / (d * p), r);
  }

  /** The quotient and remainder of three words by a normalised divisor of two: guess from
      the top divisor word, take one back if the product overshoots. */
  method GuessedDigit(build: Build, n2: Word, n1: Word, n0: Word, d1: Word, d0: Word, bm: nat)
    returns (q0: Word, r1: Word, r0: Word)
    requires 1 <= bm < 32
    requires d1 >= TOP_BIT && n2 < Pow2(bm) <= TOP_BIT && d0 <= W - Pow2(bm)
    ensures q0 == (Join(n2, n1) * W + n0) / Join(d1, d0)
    ensures Join(r1, r0) == (Join(n2, n1) * W + n0) % Join(d1, d0)
  {
    hide Pow2;
    q0, r1 := Digit(build, n2, n1, d1);
    var m1, m0 := UmulPpmm(q0, d0);
    TopWordGuess(n2, n1, n0, d1, d0, bm, q0, r1);
    PairOrder(m1, m0, r1, n0);
    hide IsDigit;
    if m1 > r1 || (m1 == r1 && m0 > n0) {
      q0 := Sub(q0, 1);
      m1, m0 := SubDdmmss(m1, m0, d1, d0);
    }
    r1, r0 := SubDdmmss(r1, n0, m1, m0);
  }

  /** A two-word divisor that has leading zeros: shift both operands, divide, shift the
      remainder back. */
  method TwoWordShifted(build: Build, n: DWord, d: DWord, bm: nat, rp: Remainder?) returns (q0: Word)
    requires High(d) > 0 && bm == LeadingZeros(High(d)) && bm > 0
    modifies rp
    ensures q0 == n / d
    ensures rp != null ==> rp.ll == n % d
  {
    var d1, d0, n1, n0 := High(d), Low(d), High(n), Low(n);
    var b := 32 - bm;
    NormalisedDivisor(d, bm);
    ShiftLeftPair(n1, n0, bm);
    Pow2Monotone(bm, 31);
    Pow2Values();
    hide Shl, Shr, Or, Pow2, LeadingZeros, ShiftedWord;
    d1, d0 := ShiftedWord(d1, d0, bm), Shl(d0, bm);
    var n2 := Shr(n1, b);
    n1, n0 := ShiftedWord(n1, n0, bm), Shl(n0, bm);
    ghost var num, den := n * Pow2(bm), d * Pow2(bm);
    assert Join(n2, n1) * W + n0 == num && Join(d1, d0) == den;
    q0, n1, n0 := GuessedDigit(build, n2, n1, n0, d1, d0, bm);
    ScaledDivMod(n, d, Pow2(bm), Join(n1, n0));
    if rp != null {
      ShiftRightPair(n1, n0, bm);
      rp.ll := Join(Shr(n1, bm), Or(Shl(n1, b), Shr(n0, bm)));
    }
  }

  // ---- the function itself ----

  /** `__udivmoddi4`: the quotient is returned, the remainder stored through `rp` when
      there is one, and a zero divisor traps. */
  method Udivmoddi4(build: Build, n: DWord, d: DWord, rp: Remainder?) returns (res: Outcome)
    modifies rp
    ensures d == 0 <==> res.Trap?
    ensures d > 0 ==> res.ll == n / d
    ensures rp != null ==> rp.ll == if d > 0 then n % d else old(rp.ll)
  {
    var d0, d1, n0, n1 := Low(d), High(d), Low(n), High(n);
    var q0, q1: Word;
    if d1 == 0 {
      if d0 <= n1 && d0 == 0 {
        return Trap;
      }
      match build
      case Plain => q1, q0 := OneWordPlain(n, d0, rp);
      case Normalizing => q1, q0 := OneWordNormalizing(n, d0, rp);
    } else if d1 > n1 {
      q0, q1 := 0, 0;
      DivModUnique(n, d, 0, n);
      if rp != null {
        rp.ll := Join(n1, n0);
      }
    } else {
      q1 := 0;
      var bm := CountLeadingZeros(d1);
      Normalises(d1);
      if bm == 0 {
        q0 := TwoWordTop(n, d, rp);
      } else {
        q0 := TwoWordShifted(build, n, d, bm, rp);
      }
    }
    res := Value(Join(q1, q0));
  }

  lemma QuotientIsDWord(n: DWord, d: DWord)
    ensures d > 0 ==> 0 <= n / d < W * W && 0 <= n % d < W * W
  {
    if d > 0 {
      DivShrinks(n, d);
    }
  }

  /** `__udivdi3` and `__umoddi3`. */
  method Udivdi3(build: Build, n: DWord, d: DWord) returns (res: Outcome)
    ensures res == if d == 0 then Trap else Value(n / d)
  {
    QuotientIsDWord(n, d);
    res := Udivmoddi4(build, n, d, null);
  }

  method Umoddi3(build: Build, u: DWord, v: DWord) returns (res: Outcome)
    ensures res == if v == 0 then Trap else Value(u % v)
  {
    var w := new Remainder();
    res := Udivmoddi4(build, u, v, w);
    if res.Value? {
      res := Value(w.ll);
    }
  }
}
