/** The configuration words go into flash with their sixteen bits reversed. */
module BitSwap {
  import opened Words
  import opened FlashChip

  /** The low `n` bits of `x`, the lowest first. */
  function Reverse(x: nat, n: nat): (r: nat)
    ensures r < Pow2(n)
  {
    if n == 0 then 0
    else
      assert (x % 2) * Pow2(n - 1) <= Pow2(n - 1) by { MulMonotone(Pow2(n - 1), x % 2, 1); }
      (x % 2) * Pow2(n - 1) + Reverse(x / 2, n - 1)
  }

  function Swap(x: Cell): Cell {
    Pow2Values();
    Reverse(x, 16)
  }

  function SwapAll(s: seq<Cell>): (r: seq<Cell>)
    ensures |r| == |s|
  {
    seq(|s|, i requires 0 <= i < |s| => Swap(s[i]))
  }

  lemma SwapAllConcat(a: seq<Cell>, b: seq<Cell>)
    ensures SwapAll(a + b) == SwapAll(a) + SwapAll(b)
  {
  }

  /** One more bit goes in at the low end. */
  lemma {:induction false} ReverseSnoc(x: nat, n: nat)
    ensures Reverse(x, n + 1) == 2 * Reverse(x, n) + Bit(x, n)
  {
    if n == 0 {
    } else {
      ReverseSnoc(x / 2, n - 1);
      HalveBit(x, n - 1);
      assert (x % 2) * Pow2(n) == 2 * ((x % 2) * Pow2(n - 1));
    }
  }

  lemma Fold(r: nat, v: nat, p: nat)
    ensures r * (2 * p) + v * p == (2 * r + v) * p
    ensures (2 * r) * p + v * p == (2 * r + v) * p
  {
  }

  lemma ParityKept(r: nat, p: nat, low: nat)
    requires p >= 1
    ensures (((2 * r) * p + low) / p) % 2 == (low / p) % 2
  {
    var q, m := low / p, low % p;
    DivShrinks(low, p);
    Fold(r, q, p);
    DivModUnique((2 * r) * p + low, p, 2 * r + q, m);
  }

  /** A bit is not touched by a power of two above it. */
  lemma BitBelow(low: nat, gap: nat, k: nat)
    ensures Bit(Pow2(gap + 1 + k) + low, k) == Bit(low, k)
  {
    Pow2Add(gap + 1, k);
    assert Pow2(gap + 1) == 2 * Pow2(gap);
    hide Pow2;
    ParityKept(Pow2(gap), Pow2(k), low);
  }

  lemma BitOfSum(high: nat, low: nat, n: nat, k: nat)
    requires low < Pow2(n) && high <= 1 && k <= n
    ensures Bit(high * Pow2(n) + low, k) == if k == n then high else Bit(low, k)
  {
    hide Pow2;
    if k == n {
      DivModUnique(high * Pow2(n) + low, Pow2(n), high, low);
    } else if high == 1 {
      BitBelow(low, n - k - 1, k);
    }
  }

  /** What reversing means: bit `k` comes from bit `n - 1 - k`. */
  lemma {:induction false} ReverseMirrors(x: nat, n: nat, k: nat)
    requires k < n
    ensures Bit(Reverse(x, n), k) == Bit(x, n - 1 - k)
    decreases n
  {
    BitOfSum(x % 2, Reverse(x / 2, n - 1), n - 1, k);
    if k < n - 1 {
      ReverseMirrors(x / 2, n - 1, k);
      HalveBit(x, n - 2 - k);
    } else {
      assert x / 1 == x;
    }
  }

  /** Below a power of two, the bits determine the number. */
  lemma {:induction false} SameBits(x: nat, y: nat, n: nat)
    requires x < Pow2(n) && y < Pow2(n)
    requires forall k :: 0 <= k < n ==> Bit(x, k) == Bit(y, k)
    ensures x == y
  {
    if n > 0 {
      assert Bit(x, 0) == Bit(y, 0);
      assert x / 1 == x && y / 1 == y;
      forall k | 0 <= k < n - 1 ensures Bit(x / 2, k) == Bit(y / 2, k) {
        HalveBit(x, k);
        HalveBit(y, k);
      }
      SameBits(x / 2, y / 2, n - 1);
    }
  }

  /** One word is the other with its sixteen bits in the opposite order. */
  ghost predicate Mirrored(x: nat, y: nat) {
    forall k :: 0 <= k < 16 ==> Bit(y, k) == Bit(x, 15 - k)
  }

  lemma SwapMirrors(x: Cell)
    ensures Mirrored(x, Swap(x))
  {
    forall k | 0 <= k < 16
      ensures Bit(Swap(x), k) == Bit(x, 15 - k)
    {
      ReverseMirrors(x, 16, k);
    }
  }

  /** Reversing twice gives the word back, so no two words are stored alike. */
  lemma SwapInvolution(x: Cell)
    ensures Swap(Swap(x)) == x
  {
    Pow2Values();
    SwapMirrors(x);
    SwapMirrors(Swap(x));
    forall k | 0 <= k < 16
      ensures Bit(Swap(Swap(x)), k) == Bit(x, k)
    {
      assert Bit(Swap(x), 15 - k) == Bit(x, 15 - (15 - k));
    }
    SameBits(Swap(Swap(x)), x, 16);
  }

  /** Masking one bit out. */
  lemma {:induction false} AndBit(x: nat, k: nat)
    ensures And(x, Pow2(k)) == Bit(x, k) * Pow2(k)
    decreases k
  {
    if x == 0 {
      assert 0 / Pow2(k) == 0 by { DivModUnique(0, Pow2(k), 0, 0); }
    } else if k == 0 {
      assert x / 1 == x;
      assert And(x / 2, 0) == 0;
    } else {
      AndBit(x / 2, k - 1);
      HalveBit(x, k - 1);
      assert And(x, Pow2(k)) == 2 * And(x / 2, Pow2(k - 1));
      assert Bit(x, k) * Pow2(k) == 2 * (Bit(x, k) * Pow2(k - 1));
    }
  }

  /** One bit moved to its mirror position, to the left in the low half of the word and to
      the right in the high half. */
  method MoveBit(src: Cell, i: nat) returns (b: nat)
    requires i < 16
    ensures b == Bit(src, i) * Pow2(15 - i)
  {
    AndBit(src, i);
    var masked := And(src, Pow2(i));
    hide *;
    if i < 8 {
      b := masked * Pow2(15 - i * 2);
      Pow2Add(i, 15 - i * 2);
      assert Bit(src, i) == 0 || Bit(src, i) == 1;
    } else {
      var p, q := Pow2(2 * i - 15), Pow2(15 - i);
      b := masked / p;
      Pow2Add(15 - i, 2 * i - 15);
      assert masked == (Bit(src, i) * q) * p by {
        assert Bit(src, i) == 0 || Bit(src, i) == 1;
      }
      DivModUnique(masked, p, Bit(src, i) * q, 0);
    }
  }

  lemma Combine(r: nat, v: nat, p: nat, big: nat)
    requires big == 2 * p
    ensures r * big + v * p == (2 * r + v) * p
  {
    Fold(r, v, p);
  }

  /** The next bit fits below the ones already placed. */
  lemma PlaceBit(x: nat, n: nat, p: nat, b: nat)
    requires n < 16 && p == Pow2(15 - n) && b == Bit(x, n) * p
    ensures Or(Reverse(x, n) * Pow2(16 - n), b) == Reverse(x, n + 1) * p
  {
    ReverseSnoc(x, n);
    var r, v, big := Reverse(x, n), Bit(x, n), Pow2(16 - n);
    assert big == 2 * p;
    hide *;
    MulMonotone(p, v, 1);
    OrIsAdd(r, 16 - n, b);
    Combine(r, v, p, big);
  }

  /** `bit_swap`: bit `k` of the result is bit `15 - k` of the source. */
  method SwapBits(src: Cell) returns (dst: Cell)
    ensures forall k :: 0 <= k < 16 ==> Bit(dst, k) == Bit(src, 15 - k)
    ensures dst == Swap(src)
  {
    var d, i := 0, 0;
    while i < 16
      invariant 0 <= i <= 16
      invariant d == Reverse(src, i) * Pow2(16 - i)
    {
      hide *;
      var b := MoveBit(src, i);
      PlaceBit(src, i, Pow2(15 - i), b);
      d, i := Or(d, b), i + 1;
    }
    Pow2Values();
    assert Pow2(0) == 1;
    dst := d;
    SwapMirrors(src);
  }
}
