/** Unsigned 32-bit machine words as bounded integers, with the wrap-around of
    C's unsigned arithmetic written out, and double words split into halves. */
module Words {

  const W: int := 0x1_0000_0000
  const HALF: int := 0x1_0000
  const TOP_BIT: int := 0x8000_0000

  type Word = x: int | 0 <= x < 0x1_0000_0000
  type DWord = x: int | 0 <= x < 0x1_0000_0000_0000_0000

  function Wrap(x: int): Word {
    x % W
  }

  /** Unsigned addition: the carry out of the top bit is lost. */
  function Add(a: Word, b: Word): Word {
    if a + b < W then a + b else a + b - W
  }

  /** Unsigned subtraction: a borrow adds 2^32. */
  function Sub(a: Word, b: Word): Word {
    if a >= b then a - b else a - b + W
  }

  function Mul(a: Word, b: Word): Word {
    Wrap(a * b)
  }

  lemma AddSubWrap(a: Word, b: Word)
    ensures Add(a, b) == Wrap(a + b)
    ensures Sub(a, b) == Wrap(a - b)
  {
    if a + b >= W {
      assert (a + b - W) % W == (a + b) % W;
    }
    if a < b {
      assert (a - b + W) % W == (a - b) % W;
    }
  }

  function Join(high: Word, low: Word): DWord {
    high * W + low
  }

  function High(x: DWord): Word {
    x / W
  }

  function Low(x: DWord): Word {
    x % W
  }

  // ---- powers of two ----

  function Pow2(k: nat): (p: nat)
    ensures p >= 1
  {
    if k == 0 then 1 else 2 * Pow2(k - 1)
  }

  lemma {:induction false} Pow2Add(j: nat, k: nat)
    ensures Pow2(j + k) == Pow2(j) * Pow2(k)
  {
    if j == 0 {
    } else {
      Pow2Add(j - 1, k);
      assert Pow2(j + k) == 2 * Pow2((j - 1) + k);
      assert 2 * (Pow2(j - 1) * Pow2(k)) == (2 * Pow2(j - 1)) * Pow2(k);
    }
  }

  lemma {:induction false} Pow2Monotone(j: nat, k: nat)
    requires j <= k
    ensures Pow2(j) <= Pow2(k)
  {
    if j < k {
      Pow2Monotone(j, k - 1);
    }
  }

  lemma Pow2Values()
    ensures Pow2(8) == 0x100
    ensures Pow2(16) == HALF
    ensures Pow2(24) == 0x100_0000
    ensures Pow2(31) == TOP_BIT
    ensures Pow2(32) == W
  {
    assert Pow2(8) == 0x100;
    Pow2Add(8, 8);
    Pow2Add(8, 16);
    Pow2Add(7, 24);
    Pow2Add(8, 24);
  }

  /** The factors of 2^32 on the two sides of a shift count. */
  lemma Pow2Complement(k: nat)
    requires k <= 32
    ensures Pow2(k) * Pow2(32 - k) == W
  {
    Pow2Add(k, 32 - k);
    Pow2Values();
  }

  // ---- shifts and bitwise or ----

  /** `x << k`; C leaves a count of 32 or more undefined. */
  function Shl(x: Word, k: nat): Word
    requires k < 32
  {
    Wrap(x * Pow2(k))
  }

  lemma MulMonotone(a: int, x: int, y: int)
    requires a >= 0 && x <= y
    ensures a * x <= a * y
    ensures x * a <= y * a
  {
  }

  lemma DivShrinks(x: nat, p: int)
    requires p >= 1
    ensures 0 <= x / p <= x
    ensures x == (x / p) * p + x % p
  {
    var q := x / p;
    assert x == q * p + x % p;
    assert q >= 0;
    assert q * p >= q by { MulMonotone(q, 1, p); }
  }

  /** `x >> k`; C leaves a count of 32 or more undefined. */
  function Shr(x: Word, k: nat): (r: Word)
    requires k < 32
  {
    DivShrinks(x, Pow2(k));
    x / Pow2(k)
  }

  /** Scaling by a positive factor keeps a half-open interval. */
  lemma Scale(lo: int, x: int, hi: int, p: int)
    requires lo <= x < hi && p >= 1
    ensures lo * p <= x * p <= hi * p - p
  {
    MulMonotone(p, lo, x);
    MulMonotone(p, x, hi - 1);
    assert (hi - 1) * p == hi * p - p;
  }

  /** Bitwise or, one bit at a time. */
  function Or(a: nat, b: nat): nat {
    if a == 0 && b == 0 then 0
    else 2 * Or(a / 2, b / 2) + (if a % 2 == 1 || b % 2 == 1 then 1 else 0)
  }

  lemma {:induction false} OrZero(b: nat)
    ensures Or(0, b) == b
  {
    if b != 0 {
      OrZero(b / 2);
    }
  }

  lemma {:induction false} OrComm(a: nat, b: nat)
    ensures Or(a, b) == Or(b, a)
    decreases a + b
  {
    if a != 0 || b != 0 {
      OrComm(a / 2, b / 2);
    }
  }

  /** Bits that cannot meet: or is addition. */
  lemma {:induction false} OrIsAdd(a: nat, k: nat, b: nat)
    requires b < Pow2(k)
    ensures Or(a * Pow2(k), b) == a * Pow2(k) + b
    decreases k
  {
    if k == 0 {
      assert b == 0;
      OrComm(a, 0);
      OrZero(a);
    } else {
      var p := Pow2(k - 1);
      var x := a * Pow2(k);
      assert x == 2 * (a * p) by { assert Pow2(k) == 2 * p; }
      assert x / 2 == a * p && x % 2 == 0;
      OrIsAdd(a, k - 1, b / 2);
      if x == 0 && b == 0 {
      } else {
        assert Or(x, b) == 2 * Or(a * p, b / 2) + b % 2;
      }
    }
  }

  /** Bitwise and, one bit at a time. */
  function And(a: nat, b: nat): nat {
    if a == 0 || b == 0 then 0
    else 2 * And(a / 2, b / 2) + (if a % 2 == 1 && b % 2 == 1 then 1 else 0)
  }

  /** Division with remainder has one answer. */
  lemma DivModUnique(n: int, d: int, q: int, r: int)
    requires 0 <= r < d
    requires n == q * d + r
    ensures q == n / d && r == n % d
  {
    var q' := n / d;
    var r' := n % d;
    assert n == d * q' + r';
    var e := q - q';
    assert e * d == r' - r;
    if e >= 1 {
      MulMonotone(d, 1, e);
      assert false;
    } else if e <= -1 {
      MulMonotone(d, e, -1);
      assert false;
    }
  }

  lemma HalveMod(a: nat, p: int)
    requires p >= 1
    ensures a % (2 * p) == 2 * ((a / 2) % p) + a % 2
  {
    var h := a / 2;
    var q, r := h / p, h % p;
    DivShrinks(h, p);
    assert 0 <= r < p;
    assert a == 2 * (q * p + r) + a % 2;
    assert q * (2 * p) == 2 * (q * p);
    DivModUnique(a, 2 * p, q, 2 * r + a % 2);
  }

  /** Masking with a power of two less one leaves the remainder. */
  lemma {:induction false} AndMask(a: nat, k: nat)
    ensures And(a, Pow2(k) - 1) == a % Pow2(k)
    decreases k
  {
    if k == 0 {
      assert a % 1 == 0;
    } else {
      var p := Pow2(k - 1);
      assert (2 * p - 1) / 2 == p - 1 && (2 * p - 1) % 2 == 1;
      AndMask(a / 2, k - 1);
      HalveMod(a, p);
    }
  }

  /** Halving first and dividing then is one division. */
  lemma HalveThenDivide(x: nat, p: int)
    requires p >= 1
    ensures (x / 2) / p == x / (2 * p)
  {
    var q := x / (2 * p);
    var r := x % (2 * p);
    assert x == (2 * p) * q + r;
    assert x == 2 * (p * q) + r;
    assert x / 2 == p * q + r / 2;
    assert 0 <= r / 2 < p;
    DivModUnique(x / 2, p, q, r / 2);
  }

  /** Bit `k` of a number. */
  function Bit(x: nat, k: nat): (b: nat)
    ensures b <= 1
  {
    (x / Pow2(k)) % 2
  }

  lemma HalveBit(x: nat, k: nat)
    ensures Bit(x / 2, k) == Bit(x, k + 1)
  {
    HalveThenDivide(x, Pow2(k));
  }

  lemma ZeroBit(k: nat)
    ensures Bit(0, k) == 0
  {
    DivModUnique(0, Pow2(k), 0, 0);
  }

  lemma LowBit(x: nat)
    ensures Bit(x, 0) == x % 2
  {
    assert x / 1 == x;
  }

  /** A bit of the and of two numbers is set exactly if it is set in both. */
  lemma {:induction false} AndBits(a: nat, b: nat, k: nat)
    ensures Bit(And(a, b), k) == Bit(a, k) * Bit(b, k)
    decreases k
  {
    ZeroBit(k);
    if a != 0 && b != 0 {
      if k == 0 {
        LowBit(a);
        LowBit(b);
        LowBit(And(a, b));
      } else {
        AndBits(a / 2, b / 2, k - 1);
        HalveBit(a, k - 1);
        HalveBit(b, k - 1);
        HalveBit(And(a, b), k - 1);
        assert And(a, b) / 2 == And(a / 2, b / 2);
      }
    }
  }

  function Abs(x: int): nat {
    if x < 0 then -x else x
  }
}
