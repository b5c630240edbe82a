/** Signed 64-bit division on two's complement double words. */
module SignedDiv {
  import opened Words
  import opened UDivMod

  const DW: int := 0x1_0000_0000_0000_0000
  const SIGN: int := 0x8000_0000_0000_0000

  /** The two's complement reading of a double word, and its inverse modulo 2^64. */
  function Signed(u: DWord): int {
    if u >= SIGN then u - DW else u
  }

  function Unsigned(x: int): DWord {
    x % DW
  }

  lemma SignedRoundTrip(u: DWord)
    ensures -SIGN <= Signed(u) < SIGN
    ensures Unsigned(Signed(u)) == u
  {
    if u >= SIGN {
      assert (u - DW) % DW == u % DW;
    }
  }

  lemma UnsignedRoundTrip(x: int)
    requires -SIGN <= x < SIGN
    ensures Signed(Unsigned(x)) == x
  {
    if x < 0 {
      assert x % DW == (x + DW) % DW == x + DW;
    }
  }

  function TruncQuotient(a: int, b: int): int
    requires b != 0
  {
    if (a < 0) != (b < 0) then -(Abs(a) / Abs(b)) else Abs(a) / Abs(b)
  }

  function TruncRemainder(a: int, b: int): int
    requires b != 0
  {
    if a < 0 then -(Abs(a) % Abs(b)) else Abs(a) % Abs(b)
  }

  /** Section 6.5.5 of ISO/IEC 9899:1999: quotients truncate toward zero, and
      `(a/b)*b + a%b` is `a`, so the remainder has the sign of the dividend. */
  ghost predicate IsTruncDivision(a: int, b: int, q: int, r: int) {
    && a == q * b + r
    && Abs(r) < Abs(b)
    && (r != 0 ==> (r < 0 <==> a < 0))
  }

  lemma Signs(x: int, y: int)
    ensures (-x) * y == -(x * y)
    ensures x * (-y) == -(x * y)
    ensures (-x) * (-y) == x * y
  {
  }

  lemma TruncDivisionExists(a: int, b: int)
    requires b != 0
    ensures IsTruncDivision(a, b, TruncQuotient(a, b), TruncRemainder(a, b))
  {
    var q, r := Abs(a) / Abs(b), Abs(a) % Abs(b);
    DivShrinks(Abs(a), Abs(b));
    assert 0 <= r < Abs(b);
    Signs(q, b);
  }

  /** A multiple smaller than its factor is zero. */
  lemma SmallMultiple(e: int, b: int, x: int)
    requires e * b == x && Abs(x) < Abs(b)
    ensures e == 0 && x == 0
  {
    Signs(e, b);
    if e >= 1 {
      MulMonotone(Abs(b), 1, e);
      assert false;
    } else if e <= -1 {
      MulMonotone(Abs(b), e, -1);
      assert false;
    }
  }

  /** Two remainders of the same dividend lie on the same side of zero. */
  lemma SameSign(a: int, b: int, r: int, r': int)
    requires Abs(r) < Abs(b) && Abs(r') < Abs(b)
    requires r != 0 ==> (r < 0 <==> a < 0)
    requires r' != 0 ==> (r' < 0 <==> a < 0)
    ensures Abs(r' - r) < Abs(b)
  {
  }

  /** The conditions of the standard leave one answer. */
  lemma TruncDivisionUnique(a: int, b: int, q: int, r: int)
    requires b != 0 && IsTruncDivision(a, b, q, r)
    ensures q == TruncQuotient(a, b) && r == TruncRemainder(a, b)
  {
    var q' := TruncQuotient(a, b);
    var r' := TruncRemainder(a, b);
    TruncDivisionExists(a, b);
    hide TruncQuotient, TruncRemainder;
    SameSign(a, b, r, r');
    assert (q - q') * b == q * b - q' * b;
    SmallMultiple(q - q', b, r' - r);
  }

  /** `__negdi2`: negate the low word, and take its borrow from the negated high word. */
  method Negdi2(u: DWord) returns (w: DWord)
    ensures w == Unsigned(-Signed(u))
    ensures w == Unsigned(-(u as int))
  {
    var low := Sub(0, Low(u));
    var high := Sub(Sub(0, High(u)), if low > 0 then 1 else 0);
    w := Join(high, low);
    assert w == if u == 0 then 0 else DW - u;
    assert (-(u as int)) % DW == if u == 0 then 0 else DW - u;
    if u >= SIGN {
      assert (DW - u) % DW == DW - u;
    }
  }

  /** The high word of the pair carries the sign. */
  lemma SignOfHighWord(u: DWord)
    ensures High(u) >= TOP_BIT <==> Signed(u) < 0
  {
  }

  /** The magnitude of a negative operand, read as unsigned, is its absolute value, even
      for the most negative one. */
  lemma MagnitudeOf(u: DWord)
    ensures Signed(u) < 0 ==> Unsigned(-Signed(u)) == Abs(Signed(u))
    ensures Signed(u) >= 0 ==> u == Abs(Signed(u))
  {
  }

  lemma SmallUnsigned(x: int)
    requires 0 <= x < DW
    ensures Unsigned(x) == x
  {
  }

  /** The quotient of the magnitudes, negated if exactly one operand is negative, and their
      remainder, negated if the dividend is, are the truncating ones. */
  lemma SignedFromMagnitudes(u: DWord, v: DWord, uu: DWord, vv: DWord)
    requires v != 0 && uu == Abs(Signed(u)) && vv == Abs(Signed(v))
    ensures vv != 0 && 0 <= uu / vv < DW && 0 <= uu % vv < DW
    ensures Unsigned(TruncQuotient(Signed(u), Signed(v)))
            == if (Signed(u) < 0) != (Signed(v) < 0) then Unsigned(-(uu / vv)) else uu / vv
    ensures Unsigned(TruncRemainder(Signed(u), Signed(v))) == if Signed(u) < 0 then Unsigned(-(uu % vv)) else uu % vv
  {
    QuotientIsDWord(uu, vv);
    SmallUnsigned(uu / vv);
    SmallUnsigned(uu % vv);
    hide Unsigned;
  }

  /** `__divdi3`: divide the magnitudes, negate once for each negative operand. */
  method Divdi3(build: Build, u: DWord, v: DWord) returns (res: Outcome)
    ensures res == if v == 0 then Trap
                   else Value(Unsigned(TruncQuotient(Signed(u), Signed(v))))
  {
    var c := false;
    var uu, vv := u, v;
    SignOfHighWord(u);
    SignOfHighWord(v);
    MagnitudeOf(u);
    MagnitudeOf(v);
    if High(uu) >= TOP_BIT {
      c := !c;
      uu := Negdi2(uu);
    }
    if High(vv) >= TOP_BIT {
      c := !c;
      vv := Negdi2(vv);
    }
    QuotientIsDWord(uu, vv);
    if v != 0 {
      SignedFromMagnitudes(u, v, uu, vv);
    }
    hide *;
    res := Udivmoddi4(build, uu, vv, null);
    if res.Value? {
      if c {
        var w := Negdi2(res.ll);
        res := Value(w);
      }
    }
  }

  /** `__moddi3`: the remainder takes the sign of the dividend alone. */
  method Moddi3(build: Build, u: DWord, v: DWord) returns (res: Outcome)
    ensures res == if v == 0 then Trap
                   else Value(Unsigned(TruncRemainder(Signed(u), Signed(v))))
  {
    var c := false;
    var uu, vv := u, v;
    SignOfHighWord(u);
    SignOfHighWord(v);
    MagnitudeOf(u);
    MagnitudeOf(v);
    if High(uu) >= TOP_BIT {
      c := !c;
      uu := Negdi2(uu);
    }
    if High(vv) >= TOP_BIT {
      vv := Negdi2(vv);
    }
    QuotientIsDWord(uu, vv);
    if v != 0 {
      SignedFromMagnitudes(u, v, uu, vv);
    }
    hide *;
    var w := new Remainder();
    res := Udivmoddi4(build, uu, vv, w);
    if res.Value? {
      var rem := w.ll;
      if c {
        rem := Negdi2(rem);
      }
      res := Value(rem);
    }
  }

  lemma QuotientInRange(a: int, b: int)
    requires -SIGN <= a < SIGN && b != 0 && !(a == -SIGN && b == -1)
    ensures -SIGN <= TruncQuotient(a, b) < SIGN
  {
    var q := Abs(a) / Abs(b);
    DivShrinks(Abs(a), Abs(b));
    if a == -SIGN && b < 0 {
      assert Abs(b) >= 2;
      if q >= SIGN {
        MulMonotone(q, 2, Abs(b));
        assert false;
      }
    }
  }

  /** The results fit their type, and so are the mathematical ones, except for the most
      negative dividend over minus one, whose quotient wraps around to itself. */
  lemma OnlyOverflow(u: DWord, v: DWord)
    requires v != 0
    ensures
      var a, b := Signed(u), Signed(v);
      && (Signed(Unsigned(TruncQuotient(a, b))) == TruncQuotient(a, b) <==> !(a == -SIGN && b == -1))
      && Signed(Unsigned(TruncRemainder(a, b))) == TruncRemainder(a, b)
      && (a == -SIGN && b == -1 ==> Signed(Unsigned(TruncQuotient(a, b))) == a)
  {
    var a, b := Signed(u), Signed(v);
    SignedRoundTrip(u);
    SignedRoundTrip(v);
    var q, r := Abs(a) / Abs(b), Abs(a) % Abs(b);
    DivShrinks(Abs(a), Abs(b));
    UnsignedRoundTrip(TruncRemainder(a, b));
    if a == -SIGN && b == -1 {
      assert q == SIGN;
    } else {
      QuotientInRange(a, b);
      UnsignedRoundTrip(TruncQuotient(a, b));
    }
  }
}
