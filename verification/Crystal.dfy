/** The clock discipline loop around a real crystal: what a sample measures, how the estimate
    finds the crystal, and what the frequency word does to the next pulse. */
module Crystal {
  import Words
  import opened Clock

  /** The synthesiser gives a pulse whenever the crystal's ticks times the word add up to
      2^58, and a second has 2^32 steps. */
  const TURN: int := 0x400_0000_0000_0000_0000_0000

  /** Pulses of a crystal of `f` Hz that runs on word `dds` come `delta` apart, to one step. */
  predicate Ticks(f: nat, delta: int, dds: nat) {
    -(f * dds) <= delta * (f * dds) - TURN <= f * dds
  }

  // ---- what a sample measures ----

  lemma Quotient(n: int, d: int)
    requires d > 0
    ensures (n / d) * d <= n < (n / d) * d + d
  {
  }

  lemma BelowNext(x: int, p: nat, n: int)
    requires p > 0 && x * p < n * p
    ensures x < n
  {
    if x >= n {
      Words.MulMonotone(p, n, x);
    }
  }

  /** The reciprocal and the quotient lose less than two units together. */
  lemma SampleBounds(delta: nat, dds: nat)
    requires delta > 0 && dds > 0
    ensures
      var t, p := Sample(delta, dds), dds * delta;
      TURN - 0x400_0000 * delta - p < t * p <= TURN - 0x400_0000
  {
    var q := 0xffff_ffff_ffff_ffff / delta;
    var t := Sample(delta, dds);
    Quotient(0xffff_ffff_ffff_ffff, delta);
    Quotient(q * 0x400_0000, dds);
    var u := t * dds;
    assert u <= q * 0x400_0000 < u + dds;
    hide Sample;
    Words.MulMonotone(delta, u, q * 0x400_0000);
    Words.MulMonotone(delta, q * 0x400_0000 + 1, u + dds);
    assert u * delta == t * (dds * delta);
    assert (q * 0x400_0000) * delta == 0x400_0000 * (q * delta);
    assert (u + dds) * delta == u * delta + dds * delta;
    assert (q * 0x400_0000 + 1) * delta == 0x400_0000 * (q * delta) + delta;
  }

  lemma Regroup(a: int, b: int, c: int)
    ensures (a * b) * c == a * (b * c) == c * (a * b)
  {
  }

  lemma Differ(t: int, f: int, delta: int, dds: int)
    ensures ((t - f) * delta) * dds == t * (dds * delta) - f * (dds * delta)
  {
    var p := dds * delta;
    assert (t - f) * p == t * p - f * p;
    assert ((t - f) * delta) * dds == (t - f) * p;
  }

  lemma Widen(x: int, delta: int, dds: int)
    ensures (x + 2 * delta) * dds == x * dds + 2 * (dds * delta)
  {
  }

  /** With times read to `j` steps a sample is off by `j` crystal ticks a second, and up to two
      too low for the divisions: for host time in microseconds, a millionth and two. */
  lemma SampleWithin(f: nat, delta: nat, dds: nat, j: nat)
    requires delta > 0 && 0x1800_0000 <= dds
    requires -(j * (f * dds)) <= delta * (f * dds) - TURN <= j * (f * dds)
    ensures
      var t := Sample(delta, dds);
      (t - f) * delta < j * f && (f - t) * delta < j * f + 2 * delta
  {
    var t, p := Sample(delta, dds), dds * delta;
    SampleBounds(delta, dds);
    hide Sample;
    assert 6 * (0x400_0000 * delta) <= p by {
      Words.MulMonotone(delta, 0x1800_0000, dds);
    }
    Regroup(f, dds, delta);
    Regroup(j, f, dds);
    Differ(t, f, delta, dds);
    Differ(f, t, delta, dds);
    Widen(j * f, delta, dds);
    BelowNext((t - f) * delta, dds, j * f);
    BelowNext((f - t) * delta, dds, j * f + 2 * delta);
  }

  /** From pulses about a second apart, a sample is the crystal's frequency or one less. */
  lemma SampleRecovers(f: nat, delta: int, dds: nat)
    requires f < 0x2000_0000 && 0xff00_0000 < delta && 0x1800_0000 <= dds
    requires Ticks(f, delta, dds)
    ensures f - 1 <= Sample(delta, dds) <= f
  {
    var t, p := Sample(delta, dds), dds * delta;
    SampleBounds(delta, dds);
    hide Sample;
    assert delta * (f * dds) == f * p;
    var e := f * dds;
    assert 7 * e < p by {
      Words.MulMonotone(dds, 7 * f + 1, delta);
      assert (7 * f + 1) * dds == 7 * e + dds;
    }
    assert 6 * (0x400_0000 * delta) <= p by {
      Words.MulMonotone(delta, 0x1800_0000, dds);
    }
    assert (f - 2) * p == f * p - 2 * p && (f + 1) * p == f * p + p;
    BelowNext(t, p, f + 1);
    BelowNext(f - 2, p, t);
  }

  // ---- a run on a steady crystal ----

  /** The crystals whose word and estimate fit in 32 bits with room for a sample too low. */
  predicate Usable(f: nat) {
    83886082 <= f && 8 * f + 7 < WORD
  }

  /** If this pulse is measured, it comes when the crystal says. */
  predicate TicksAt(f: nat, s: State, cardNow: nat, hostNow: nat) {
    var delta := hostNow as int - s.last;
    !s.halted && !FarApart(cardNow, hostNow) && s.last != 0 && OneSecond(delta) ==> Ticks(f, delta, s.dds)
  }

  /** Every pulse that is measured comes when the crystal, on the word set by then, says. */
  ghost predicate Steady(times: seq<(nat, nat)>, f: nat) {
    forall i :: 0 <= i < |times| ==> TicksAt(f, Pulses(times[..i]), times[i].0, times[i].1)
  }

  function Low(f: nat): nat
    requires Usable(f)
  {
    if f - 1 < START_CFREQ / 8 then f - 1 else START_CFREQ / 8
  }

  function High(f: nat): nat {
    if f < START_CFREQ / 8 then START_CFREQ / 8 else f
  }

  /** The samples taken are the crystal's frequency or one less, the word is of the right
      size, and the estimate is between the nominal frequency and the crystal's. */
  ghost predicate OnCrystal(s: State, f: nat)
    requires Usable(f)
  {
    && InRange(s.samples, f - 1, f) && 0x1800_0000 <= s.dds < WORD && !s.halted
    && s.cfreq == Filter(START_CFREQ, s.samples)
    && 8 * Low(f) <= s.cfreq <= 8 * High(f) + 7
  }

  lemma OnCrystalIsSound(s: State, f: nat)
    requires Usable(f) && OnCrystal(s, f)
    ensures Bounds(Low(f), High(f)) && Sound(s, Low(f), High(f)) && InRange(s.samples, Low(f), High(f))
  {
  }

  lemma StartOnCrystal(last: nat, f: nat)
    requires Usable(f)
    ensures OnCrystal(Start().(last := last), f)
  {
  }

  lemma WordAtLeast(want: int, cfreq: nat)
    requires SECOND - 0x4000_0000 <= want && 0 < cfreq < WORD
    ensures Word(want, cfreq) >= 0x1800_0000
  {
    var n := want * WIDTH_FACTOR * 8;
    var q := n / cfreq;
    Quotient(n, cfreq);
    assert (q + 1) * cfreq == q * cfreq + cfreq;
    BelowNext(0x1800_0000, cfreq, q + 1);
  }

  lemma SampleTaken(s: State, f: nat, delta: int)
    requires Usable(f) && OnCrystal(s, f) && OneSecond(delta) && Ticks(f, delta, s.dds)
    ensures
      var t := Sample(delta, s.dds);
      f - 1 <= t <= f && OnCrystal(Filtered(s, t), f)
  {
    var t := Sample(delta, s.dds);
    SampleRecovers(f, delta, s.dds);
    OnCrystalIsSound(s, f);
    FilteredSound(s, t, Low(f), High(f));
    InRangeSnoc(s.samples, t, f - 1, f);
    InRangeSnoc(s.samples, t, Low(f), High(f));
    hide Sample, Filter, InRange;
  }

  lemma WordSet(s: State, f: nat, want: int, now: nat)
    requires Usable(f) && OnCrystal(s, f)
    requires SECOND - 0x4000_0000 <= want <= SECOND + 0x4000_0000
    ensures NewWord(s, want, now) == s.(dds := Word(want, s.cfreq), last := now)
    ensures OnCrystal(NewWord(s, want, now), f)
  {
    OnCrystalIsSound(s, f);
    NewWordSound(s, want, now, Low(f), High(f));
    WordAtLeast(want, s.cfreq);
    hide Filter, Word;
  }

  /** One pulse of a steady crystal, whichever branch it takes. */
  lemma PulseOnCrystal(s: State, f: nat, cardNow: nat, hostNow: nat)
    requires Usable(f) && OnCrystal(s, f) && TicksAt(f, s, cardNow, hostNow)
    ensures OnCrystal(Pulse(s, cardNow, hostNow), f)
  {
    var delta := hostNow as int - s.last;
    WantRange(hostNow);
    hide Sample, Word, Filtered, Ticks, Filter;
    if FarApart(cardNow, hostNow) {
      StartOnCrystal(s.last, f);
    } else if s.last != 0 && delta != 0 {
      if OneSecond(delta) {
        var t := Sample(delta, s.dds);
        SampleTaken(s, f, delta);
        WordSet(Filtered(s, t), f, Want(PhaseError(hostNow)), hostNow);
      } else {
        WordSet(s, f, SECOND, hostNow);
      }
    }
  }

  lemma SteadyFront(times: seq<(nat, nat)>, f: nat, n: nat)
    requires n <= |times| && Steady(times, f)
    ensures Steady(times[..n], f)
  {
    forall i | 0 <= i < n
      ensures TicksAt(f, Pulses(times[..n][..i]), times[..n][i].0, times[..n][i].1)
    {
      assert times[..n][..i] == times[..i];
    }
  }

  /** So it is over any run. */
  lemma {:induction false} RunOnCrystal(times: seq<(nat, nat)>, f: nat)
    requires Usable(f) && Steady(times, f)
    ensures OnCrystal(Pulses(times), f)
    decreases |times|
  {
    if times == [] {
      StartOnCrystal(0, f);
    } else {
      var n := |times| - 1;
      SteadyFront(times, f, n);
      RunOnCrystal(times[..n], f);
      hide OnCrystal, Pulse, TicksAt;
      PulseOnCrystal(Pulses(times[..n]), f, times[n].0, times[n].1);
    }
  }

  // ---- how the estimate finds the crystal ----

  /** How far the estimate is from the values that stand for the crystal, to one unit. */
  function Gap(cfreq: nat, f: nat): nat
    requires f >= 1
  {
    if cfreq < 8 * (f - 1) then 8 * (f - 1) - cfreq
    else if cfreq > 8 * f + 7 then cfreq - (8 * f + 7)
    else 0
  }

  /** Every sample closes an eighth of the gap. */
  lemma StepCloses(cfreq: nat, f: nat, t: int)
    requires f >= 1 && f - 1 <= t <= f && cfreq < WORD && 8 * f + 7 < WORD
    ensures Gap(Step(cfreq, t), f) <= 7 * Gap(cfreq, f) / 8
  {
    assert 0 <= cfreq - cfreq / 8 + t < WORD;
  }

  /** A bound on the gap after `n` samples. */
  function Decay(gap: nat, n: nat): nat {
    if n == 0 then gap else 7 * Decay(gap, n - 1) / 8
  }

  lemma {:induction false} FilterCloses(cfreq: nat, samples: seq<int>, f: nat)
    requires f >= 1 && cfreq < WORD && 8 * f + 7 < WORD && InRange(samples, f - 1, f)
    ensures Filter(cfreq, samples) < WORD
    ensures Gap(Filter(cfreq, samples), f) <= Decay(Gap(cfreq, f), |samples|)
  {
    if samples != [] {
      var n := |samples| - 1;
      FilterCloses(cfreq, samples[..n], f);
      hide Gap, Step;
      StepCloses(Filter(cfreq, samples[..n]), f, samples[n]);
    }
  }

  lemma EightHalve(gap: nat, n: nat)
    ensures Decay(gap, n + 8) <= Decay(gap, n) / 2
  {
    var a, b := Decay(gap, n + 1), Decay(gap, n + 2);
    var c, d := Decay(gap, n + 3), Decay(gap, n + 4);
    var e, g := Decay(gap, n + 5), Decay(gap, n + 6);
    var h, i := Decay(gap, n + 7), Decay(gap, n + 8);
    assert 8 * a <= 7 * Decay(gap, n) && 8 * b <= 7 * a && 8 * c <= 7 * b && 8 * d <= 7 * c;
    assert 8 * e <= 7 * d && 8 * g <= 7 * e && 8 * h <= 7 * g && 8 * i <= 7 * h;
  }

  /** After `8 * k` samples less than 2^-k of it is left. */
  lemma {:induction false} DecayHalf(gap: nat, k: nat, m: nat)
    requires gap < Words.Pow2(k + m)
    ensures Decay(gap, 8 * k) < Words.Pow2(m)
    decreases k
  {
    if k > 0 {
      DecayHalf(gap, k - 1, m + 1);
      hide Decay;
      EightHalve(gap, 8 * (k - 1));
    }
  }

  lemma {:induction false} DecayIsZero(gap: nat, k: nat, n: nat)
    requires gap < Words.Pow2(k) && n >= 8 * k
    ensures Decay(gap, n) == 0
    decreases n
  {
    if n > 8 * k {
      DecayIsZero(gap, k, n - 1);
    } else if k > 0 {
      DecayHalf(gap, k, 0);
    }
  }

  /** Within 184 samples of a crystal less than a megahertz off. */
  lemma Settles(cfreq: nat, samples: seq<int>, f: nat)
    requires f >= 1 && cfreq < WORD && 8 * f + 7 < WORD && InRange(samples, f - 1, f)
    requires Gap(cfreq, f) <= 8000000 && |samples| >= 184
    ensures 8 * (f - 1) <= Filter(cfreq, samples) <= 8 * f + 7
  {
    FilterCloses(cfreq, samples, f);
    assert Words.Pow2(23) == 0x80_0000 by {
      Words.Pow2Values();
      assert Words.Pow2(24) == 2 * Words.Pow2(23);
    }
    DecayIsZero(Gap(cfreq, f), 23, |samples|);
  }

  // ---- what the word does to the next pulse ----

  /** The crystal runs on the word at the rate asked for, to one part in 2^24. */
  lemma RateError(f: nat, cfreq: nat, want: int, dds: nat)
    requires Usable(f) && 8 * (f - 1) <= cfreq <= 8 * f + 7
    requires 0 < dds == Word(want, cfreq) < WORD
    ensures -0x1_0000_0000 < f * dds - want * WIDTH_FACTOR < 0x1_0000_0000
  {
    var n := want * WIDTH_FACTOR * 8;
    var c: int := cfreq;
    Quotient(n, c);
    hide Word;
    assert dds * c <= n < dds * c + c;
    Words.MulMonotone(dds, c - 7, 8 * f);
    Words.MulMonotone(dds, 8 * f, c + 8);
    assert (c - 7) * dds == dds * c - 7 * dds && (c + 8) * dds == dds * c + 8 * dds;
    assert (8 * f) * dds == 8 * (f * dds);
  }

  lemma Cancel(x: int, y: int, g: int)
    requires g > 0 && x * g <= y * g
    ensures x <= y
  {
    assert (y + 1) * g == y * g + g;
    BelowNext(x, g, y + 1);
  }

  /** The product that decides how far the next pulse is from where it should be. */
  lemma PeriodProduct(g: int, y: int, h: int, delta: int)
    requires g == (SECOND - h) * 0x400_0000 + y
    ensures g * (delta - SECOND - h) == (delta * g - TURN) + 0x400_0000 * (h * h) - y * (SECOND + h)
  {
    assert (SECOND - h) * (SECOND + h) == SECOND * SECOND - h * h;
    assert g * (SECOND + h) == ((SECOND - h) * 0x400_0000) * (SECOND + h) + y * (SECOND + h);
    assert ((SECOND - h) * 0x400_0000) * (SECOND + h) == 0x400_0000 * ((SECOND - h) * (SECOND + h));
    assert g * (delta - SECOND - h) == g * delta - g * (SECOND + h);
  }

  /** The rate in ticks, when `h` less than a second is asked for. */
  predicate RateFor(g: int, h: int) {
    && -0x4000_0000 <= h <= 0x4000_0000
    && -0x1_0000_0000 < g - (SECOND - h) * 0x400_0000 < 0x1_0000_0000
  }

  lemma CrossTerm(g: int, h: int, y: int)
    requires RateFor(g, h) && y == g - (SECOND - h) * 0x400_0000
    ensures -107 * g <= y * (SECOND + h) <= 107 * g
  {
    Words.MulMonotone(SECOND + h, -0x1_0000_0000, y);
    Words.MulMonotone(SECOND + h, y, 0x1_0000_0000);
  }

  lemma SquareTerm(g: int, h: int)
    requires RateFor(g, h)
    ensures 0 <= h * h
    ensures h >= 0 ==> 2 * (0x400_0000 * (h * h)) <= h * g
    ensures h < 0 ==> 4 * (0x400_0000 * (h * h)) <= -(h * g)
  {
    if h >= 0 {
      Words.MulMonotone(h, 0x800_0000 * h, g);
      assert (0x800_0000 * h) * h == 0x800_0000 * (h * h);
    } else {
      Words.MulMonotone(-h, 0x1000_0000 * -h, g);
      assert (0x1000_0000 * -h) * -h == 0x1000_0000 * (h * h);
      assert g * -h == -(h * g);
    }
  }

  lemma PeriodEnds(g: int, z: int, h: int, square: int)
    requires g > 0 && -108 * g <= g * z <= 108 * g + square
    requires h >= 0 ==> 2 * square <= h * g
    requires h < 0 ==> 4 * square <= -(h * g)
    ensures -108 <= z && (h >= 0 ==> 2 * z <= h + 216) && (h < 0 ==> 4 * z <= -h + 432)
  {
    assert (2 * z) * g == 2 * (g * z) && (4 * z) * g == 4 * (g * z) && z * g == g * z;
    assert (h + 216) * g == h * g + 216 * g && (-h + 432) * g == -(h * g) + 432 * g;
    Cancel(-108, z, g);
    if h >= 0 {
      Cancel(2 * z, h + 216, g);
    } else {
      Cancel(4 * z, -h + 432, g);
    }
  }

  /** Asked for a rate that is `h` below nominal, the crystal gives a period that is `h` longer
      than a second, less the second-order term and a hundred units. */
  lemma PeriodError(g: int, h: int, delta: int)
    requires RateFor(g, h) && -g <= delta * g - TURN <= g
    ensures
      var z := delta - SECOND - h;
      -108 <= z && (h >= 0 ==> 2 * z <= h + 216) && (h < 0 ==> 4 * z <= -h + 432)
  {
    var y, z := g - (SECOND - h) * 0x400_0000, delta - SECOND - h;
    assert g > 0;
    PeriodProduct(g, y, h, delta);
    CrossTerm(g, h, y);
    SquareTerm(g, h);
    PeriodEnds(g, z, h, 0x400_0000 * (h * h));
  }

  /** The phase error that a pulse `delta` later finds. */
  lemma PhaseMoves(now: nat, delta: int)
    requires delta >= 0 && Words.Abs(PhaseError(now) - (delta - SECOND)) < 0x8000_0000
    ensures PhaseError(now + delta) == PhaseError(now) - (delta - SECOND)
  {
    var low := now % SECOND;
    var e := PhaseError(now);
    var next := e - (delta - SECOND);
    var m := (now + e) / SECOND + 1;
    assert now + e == (m - 1) * SECOND by {
      Words.DivModUnique(now + e, SECOND, if low < SECOND / 2 then now / SECOND else now / SECOND + 1, 0);
    }
    assert now + delta == m * SECOND - next;
    if next <= 0 {
      Words.DivModUnique(now + delta, SECOND, m, -next);
    } else {
      Words.DivModUnique(now + delta, SECOND, m - 1, SECOND - next);
    }
  }

  /** Once the estimate has settled, the word set for a phase error leaves at most five eighths
      of it to the next pulse, beyond 300 units or 70 nanoseconds. */
  lemma PhaseShrinks(f: nat, cfreq: nat, now: nat, dds: nat, delta: nat)
    requires Usable(f) && Gap(cfreq, f) == 0
    requires 0 < dds == Word(Want(PhaseError(now)), cfreq) < WORD && Ticks(f, delta, dds)
    ensures 8 * (Words.Abs(PhaseError(now + delta)) - 300) <= 5 * (Words.Abs(PhaseError(now)) - 300)
  {
    var e := PhaseError(now);
    var h := e / 2;
    RateError(f, cfreq, Want(e), dds);
    hide Word;
    assert Want(e) == SECOND - h;
    PeriodError(f * dds, h, delta);
    PhaseMoves(now, delta);
  }

  /** A word set for a full second keeps the phase error. */
  lemma PhaseHolds(f: nat, cfreq: nat, now: nat, dds: nat, delta: nat)
    requires Usable(f) && Gap(cfreq, f) == 0
    requires 0 < dds == Word(SECOND, cfreq) < WORD && Ticks(f, delta, dds)
    requires Words.Abs(PhaseError(now)) < 0x7000_0000
    ensures Words.Abs(PhaseError(now + delta) - PhaseError(now)) <= 108
  {
    RateError(f, cfreq, SECOND, dds);
    hide Word;
    PeriodError(f * dds, 0, delta);
    PhaseMoves(now, delta);
  }

  // ---- the closed loop ----

  /** Samples of such a crystal are close to any estimate between its frequency and the
      nominal one. */
  predicate Near(f: nat) {
    99000001 < f < 101000000
  }

  /** Samples of such a crystal are never close to the nominal frequency. */
  predicate Far(f: nat) {
    f <= 99000000 || 101000001 <= f
  }

  lemma NearOrFar(s: State, f: nat, t: int)
    requires Usable(f) && OnCrystal(s, f) && f - 1 <= t <= f
    ensures Near(f) ==> Accepted(s.cfreq, t)
    ensures Far(f) && s.cfreq == START_CFREQ ==> !Accepted(s.cfreq, t)
  {
    assert Low(f) <= s.cfreq / 8 <= High(f);
  }

  /** Pulse after pulse about a second apart, with the card never far off the host. */
  ghost predicate Unbroken(times: seq<(nat, nat)>) {
    forall i :: 0 <= i < |times| ==>
      && times[i].1 != 0 && !FarApart(times[i].0, times[i].1)
      && (i > 0 ==> OneSecond(times[i].1 as int - times[i - 1].1))
  }

  /** What a pulse that is measured leaves behind. */
  lemma MeasuredPulse(s: State, f: nat, cardNow: nat, hostNow: nat)
    requires Usable(f) && OnCrystal(s, f) && TicksAt(f, s, cardNow, hostNow)
    requires !FarApart(cardNow, hostNow) && s.last != 0 && OneSecond(hostNow as int - s.last)
    ensures
      var after := Pulse(s, cardNow, hostNow);
      && after.last == hostNow && after.dds == Word(Want(PhaseError(hostNow)), after.cfreq)
      && (Near(f) ==> |after.samples| == |s.samples| + 1)
      && (Far(f) && s.cfreq == START_CFREQ ==> after.samples == s.samples && after.cfreq == START_CFREQ)
  {
    var t := Sample(hostNow as int - s.last, s.dds);
    SampleTaken(s, f, hostNow as int - s.last);
    NearOrFar(s, f, t);
    WantRange(hostNow);
    hide Sample, Word, OnCrystal, Ticks, Accepted, Step, Near, Far;
    WordSet(Filtered(s, t), f, Want(PhaseError(hostNow)), hostNow);
  }

  lemma UnbrokenFront(times: seq<(nat, nat)>, n: nat)
    requires n <= |times| && Unbroken(times)
    ensures Unbroken(times[..n])
  {
  }

  /** The last pulse of a run. */
  lemma LastPulse(times: seq<(nat, nat)>, f: nat)
    requires Usable(f) && Steady(times, f) && Unbroken(times) && |times| >= 1
    ensures
      var n := |times| - 1;
      var front, before := times[..n], Pulses(times[..n]);
      && Steady(front, f) && Unbroken(front)
      && OnCrystal(before, f) && OnCrystal(Pulses(times), f)
      && Pulses(times) == Pulse(before, times[n].0, times[n].1)
      && TicksAt(f, before, times[n].0, times[n].1)
      && times[n].1 != 0 && !FarApart(times[n].0, times[n].1)
      && (n > 0 ==> OneSecond(times[n].1 as int - front[n - 1].1))
  {
    RunOnCrystal(times, f);
    SteadyFront(times, f, |times| - 1);
    UnbrokenFront(times, |times| - 1);
    RunOnCrystal(times[..|times| - 1], f);
    hide OnCrystal, TicksAt;
  }

  /** What an unbroken run has come to. */
  ghost predicate Tracks(s: State, pulses: nat, now: nat, f: nat)
    requires Usable(f)
  {
    && OnCrystal(s, f) && s.last == now && s.cfreq > 0
    && (pulses >= 2 ==> s.dds == Word(Want(PhaseError(now)), s.cfreq))
    && (Near(f) ==> |s.samples| == pulses - 1)
    && (Far(f) ==> s.samples == [] && s.cfreq == START_CFREQ)
  }

  lemma FirstPulse(f: nat, cardNow: nat, hostNow: nat)
    requires Usable(f) && !FarApart(cardNow, hostNow)
    ensures Tracks(Pulse(Start(), cardNow, hostNow), 1, hostNow, f)
  {
  }

  lemma NextPulse(s: State, pulses: nat, was: nat, cardNow: nat, hostNow: nat, f: nat)
    requires Usable(f) && pulses >= 1 && Tracks(s, pulses, was, f) && was != 0
    requires TicksAt(f, s, cardNow, hostNow) && !FarApart(cardNow, hostNow) && OneSecond(hostNow as int - was)
    ensures Tracks(Pulse(s, cardNow, hostNow), pulses + 1, hostNow, f)
  {
    PulseOnCrystal(s, f, cardNow, hostNow);
    MeasuredPulse(s, f, cardNow, hostNow);
    hide Word, Near, Far, Filter, TicksAt, Pulse;
  }

  /** In an unbroken run every sample of a near crystal is taken, and none of a far one. */
  lemma {:induction false} UnbrokenRun(times: seq<(nat, nat)>, f: nat)
    requires Usable(f) && Steady(times, f) && Unbroken(times) && |times| >= 1
    ensures Tracks(Pulses(times), |times|, times[|times| - 1].1, f)
    decreases |times|
  {
    var n := |times| - 1;
    LastPulse(times, f);
    if n == 0 {
      assert times[..0] == [] && Pulses([]) == Start();
      FirstPulse(f, times[0].0, times[0].1);
    } else {
      var front := times[..n];
      UnbrokenRun(front, f);
      LastPulse(front, f);
      hide *;
      NextPulse(Pulses(front), n, front[n - 1].1, times[n].0, times[n].1, f);
    }
  }

  lemma TracksSettled(s: State, pulses: nat, now: nat, f: nat)
    requires Usable(f) && Near(f) && Tracks(s, pulses, now, f) && pulses >= 185
    ensures 8 * (f - 1) <= s.cfreq <= 8 * f + 7 && Gap(s.cfreq, f) == 0
  {
    assert Gap(START_CFREQ, f) <= 8000000;
    hide Filter, InRange, Word, Far;
    Settles(START_CFREQ, s.samples, f);
  }

  /** From the 185th pulse on the estimate is the crystal's frequency, to one unit. */
  lemma EstimateSettles(times: seq<(nat, nat)>, f: nat)
    requires Usable(f) && Near(f) && Steady(times, f) && Unbroken(times) && |times| >= 185
    ensures 8 * (f - 1) <= Pulses(times).cfreq <= 8 * f + 7
  {
    UnbrokenRun(times, f);
    hide *;
    TracksSettled(Pulses(times), |times|, times[|times| - 1].1, f);
  }

  function PhaseAt(times: seq<(nat, nat)>): nat
    requires |times| >= 1
  {
    Words.Abs(PhaseError(times[|times| - 1].1))
  }

  lemma PhaseStep(s: State, pulses: nat, was: nat, cardNow: nat, hostNow: nat, f: nat)
    requires Usable(f) && Near(f) && Tracks(s, pulses, was, f) && pulses >= 185 && was != 0
    requires TicksAt(f, s, cardNow, hostNow) && !FarApart(cardNow, hostNow) && OneSecond(hostNow as int - was)
    ensures 8 * (Words.Abs(PhaseError(hostNow)) - 300) <= 5 * (Words.Abs(PhaseError(was)) - 300)
  {
    TracksSettled(s, pulses, was, f);
    hide Filter, InRange, Word, Near, Far, Ticks, PhaseError;
    PhaseShrinks(f, s.cfreq, was, s.dds, hostNow - was);
  }

  /** From then on each pulse brings the phase error nearer to 300 units, or keeps it below. */
  lemma PhaseCloses(times: seq<(nat, nat)>, f: nat)
    requires Usable(f) && Near(f) && Steady(times, f) && Unbroken(times) && |times| >= 186
    ensures 8 * (PhaseAt(times) - 300) <= 5 * (PhaseAt(times[..|times| - 1]) - 300)
  {
    var n := |times| - 1;
    var front := times[..n];
    var was, now := front[n - 1].1, times[n].1;
    assert PhaseAt(times) == Words.Abs(PhaseError(now)) && PhaseAt(front) == Words.Abs(PhaseError(was));
    hide *;
    LastPulse(times, f);
    LastPulse(front, f);
    UnbrokenRun(front, f);
    PhaseStep(Pulses(front), n, was, times[n].0, now, f);
  }

  lemma TwoSteps(x: int, y: int, z: int, p: nat)
    requires 8 * (z - 300) <= 5 * (y - 300) && 8 * (y - 300) <= 5 * (x - 300) && x - 300 < 2 * p && p >= 1
    ensures z - 300 < p
  {
  }

  lemma TwoBefore(times: seq<(nat, nat)>, f: nat)
    requires Usable(f) && Near(f) && Steady(times, f) && Unbroken(times) && |times| >= 187
    ensures
      var one, two := times[..|times| - 1], times[..|times| - 2];
      && Steady(two, f) && Unbroken(two)
      && 8 * (PhaseAt(times) - 300) <= 5 * (PhaseAt(one) - 300)
      && 8 * (PhaseAt(one) - 300) <= 5 * (PhaseAt(two) - 300)
  {
    var n := |times|;
    var one, two := times[..n - 1], times[..n - 2];
    SteadyFront(times, f, n - 1);
    SteadyFront(times, f, n - 2);
    UnbrokenFront(times, n - 1);
    UnbrokenFront(times, n - 2);
    hide Steady, Unbroken, PhaseAt, Near;
    assert one[..n - 2] == two;
    PhaseCloses(times, f);
    PhaseCloses(one, f);
  }

  lemma Powers()
    ensures Words.Pow2(1) == 2 && Words.Pow2(32) == 0x1_0000_0000
  {
    Words.Pow2Values();
  }

  lemma AnyPhase(times: seq<(nat, nat)>)
    requires |times| >= 1
    ensures PhaseAt(times) <= 0x8000_0000
  {
  }

  lemma {:induction false} PhaseHalves(times: seq<(nat, nat)>, f: nat, k: nat)
    requires Usable(f) && Near(f) && Steady(times, f) && Unbroken(times)
    requires k <= 32 && |times| >= 185 + 2 * k
    ensures PhaseAt(times) - 300 < Words.Pow2(32 - k)
    decreases k
  {
    hide *;
    var n := |times|;
    Powers();
    if k == 0 {
      AnyPhase(times);
    } else {
      Words.Pow2Add(1, 32 - k);
      TwoBefore(times, f);
      PhaseHalves(times[..n - 2], f, k - 1);
      TwoSteps(PhaseAt(times[..n - 2]), PhaseAt(times[..n - 1]), PhaseAt(times), Words.Pow2(32 - k));
    }
  }

  /** The clock locks: from the 249th pulse of an unbroken run on, the phase error is at most
      300 units. */
  lemma ClockLocks(times: seq<(nat, nat)>, f: nat)
    requires Usable(f) && Near(f) && Steady(times, f) && Unbroken(times) && |times| >= 249
    ensures PhaseAt(times) <= 300
  {
    PhaseHalves(times, f, 32);
  }

  /** What one pulse makes of the estimate, for any crystal that fits its distance. */
  lemma PulseMeasures(s: State, f: nat, cardNow: nat, hostNow: nat)
    requires f < 0x2000_0000 && 0x1800_0000 <= s.dds && !s.halted && s.last != 0 && !FarApart(cardNow, hostNow)
    requires OneSecond(hostNow as int - s.last) && Ticks(f, hostNow as int - s.last, s.dds)
    ensures
      var after := Pulse(s, cardNow, hostNow);
      after.cfreq == s.cfreq || after.cfreq == Step(s.cfreq, f) || after.cfreq == Step(s.cfreq, f - 1)
  {
    SampleRecovers(f, hostNow as int - s.last, s.dds);
    hide Sample, Word, Accepted, Want, PhaseError;
  }

  /** What a run on a crystal comes to. The samples are its frequency, to one unit, and the
      clock never stops. Without a break, a near crystal is found to one unit and the clock
      locks to the second; a far one is never followed. */
  ghost predicate Follows(times: seq<(nat, nat)>, f: nat, s: State)
    requires Usable(f)
  {
    && OnCrystal(s, f)
    && (Unbroken(times) && Near(f) && |times| >= 185 ==> 8 * (f - 1) <= s.cfreq <= 8 * f + 7)
    && (Unbroken(times) && Near(f) && |times| >= 249 ==> PhaseAt(times) <= 300)
    && (Unbroken(times) && Far(f) ==> s.samples == [] && s.cfreq == START_CFREQ)
  }

  lemma RunFollows(times: seq<(nat, nat)>, f: nat)
    requires Usable(f) && Steady(times, f)
    ensures Follows(times, f, Pulses(times))
  {
    RunOnCrystal(times, f);
    hide OnCrystal, Steady, Unbroken, Near, Far, PhaseAt;
    if Unbroken(times) && |times| >= 1 {
      UnbrokenRun(times, f);
      if Near(f) && |times| >= 185 {
        EstimateSettles(times, f);
      }
      if Near(f) && |times| >= 249 {
        ClockLocks(times, f);
      }
    }
  }

  // ---- such runs exist ----

  const NOMINAL: nat := 100000000

  lemma UnbrokenSnoc(times: seq<(nat, nat)>, next: nat)
    requires Unbroken(times) && |times| >= 1 && OneSecond(next as int - times[|times| - 1].1)
    ensures Unbroken(times + [(next, next)])
  {
  }

  lemma SteadySnoc(times: seq<(nat, nat)>, next: nat, f: nat)
    requires Steady(times, f) && TicksAt(f, Pulses(times), next, next)
    ensures Steady(times + [(next, next)], f)
  {
    hide Pulses, TicksAt;
    var n, more := |times|, times + [(next, next)];
    assert more[..n] == times;
    forall i | 0 <= i < |more|
      ensures TicksAt(f, Pulses(more[..i]), more[i].0, more[i].1)
    {
      if i < n {
        assert more[..i] == times[..i];
      }
    }
  }

  /** The first pulse of a run leaves the nominal word. */
  lemma FirstRate(times: seq<(nat, nat)>)
    requires |times| == 1 && times[0].1 == SECOND && Unbroken(times)
    ensures RateFor(NOMINAL * Pulses(times).dds, PhaseError(times[0].1) / 2)
  {
    assert times[..0] == [];
    assert Pulses([]) == Start();
  }

  /** On the nominal crystal the estimate is settled from the start. */
  lemma NominalSettled(samples: seq<int>)
    requires InRange(samples, NOMINAL - 1, NOMINAL)
    ensures Gap(Filter(START_CFREQ, samples), NOMINAL) == 0
  {
    FilterCloses(START_CFREQ, samples, NOMINAL);
    assert Gap(START_CFREQ, NOMINAL) == 0;
    Powers();
    hide Filter, Gap, InRange;
    DecayIsZero(0, 0, |samples|);
  }

  /** The rate of the nominal crystal on the word set for a phase error. */
  lemma NominalRate(s: State, pulses: nat, now: nat)
    requires Tracks(s, pulses, now, NOMINAL) && pulses >= 2
    ensures RateFor(NOMINAL * s.dds, PhaseError(now) / 2)
  {
    NominalSettled(s.samples);
    WantRange(now);
    hide Filter, Word, InRange, Near, Far;
    RateError(NOMINAL, s.cfreq, Want(PhaseError(now)), s.dds);
  }

  /** From a small phase error at that rate, the next pulse comes in time with a small one. */
  lemma StaysSmall(g: int, now: nat) returns (delta: nat)
    requires RateFor(g, PhaseError(now) / 2) && Words.Abs(PhaseError(now)) <= 300
    ensures -g <= delta * g - TURN <= g && OneSecond(delta)
    ensures Words.Abs(PhaseError(now + delta)) <= 300
  {
    delta := TURN / g;
    Quotient(TURN, g);
    PeriodError(g, PhaseError(now) / 2, delta);
    hide RateFor;
    PhaseMoves(now, delta);
  }

  lemma RateOf(times: seq<(nat, nat)>)
    requires Steady(times, NOMINAL) && Unbroken(times) && |times| >= 1
    requires |times| == 1 ==> times[0].1 == SECOND
    ensures RateFor(NOMINAL * Pulses(times).dds, PhaseError(times[|times| - 1].1) / 2)
  {
    if |times| == 1 {
      FirstRate(times);
    } else {
      UnbrokenRun(times, NOMINAL);
      hide *;
      NominalRate(Pulses(times), |times|, times[|times| - 1].1);
    }
  }

  lemma InTicks(delta: nat, dds: nat)
    requires -(NOMINAL * dds) <= delta * (NOMINAL * dds) - TURN <= NOMINAL * dds
    ensures Ticks(NOMINAL, delta, dds)
  {
  }

  lemma TicksNext(s: State, pulses: nat, now: nat, delta: nat)
    requires Tracks(s, pulses, now, NOMINAL) && Ticks(NOMINAL, delta, s.dds)
    ensures TicksAt(NOMINAL, s, now + delta, now + delta)
  {
    hide Ticks;
  }

  lemma OnePulse() returns (times: seq<(nat, nat)>)
    ensures times == [(SECOND, SECOND)] && times[0].1 == SECOND
    ensures Steady(times, NOMINAL) && Unbroken(times) && Words.Abs(PhaseError(SECOND)) == 0
  {
    times := [(SECOND, SECOND)];
    assert times[..0] == [];
  }

  /** One more pulse. */
  lemma NominalNext(front: seq<(nat, nat)>) returns (next: nat)
    requires |front| >= 1 && Steady(front, NOMINAL) && Unbroken(front)
    requires Words.Abs(PhaseError(front[|front| - 1].1)) <= 300 && (|front| == 1 ==> front[0].1 == SECOND)
    ensures Steady(front + [(next, next)], NOMINAL) && Unbroken(front + [(next, next)])
    ensures Words.Abs(PhaseError(next)) <= 300
  {
    RateOf(front);
    UnbrokenRun(front, NOMINAL);
    hide *;
    var s, now := Pulses(front), front[|front| - 1].1;
    var delta := StaysSmall(NOMINAL * s.dds, now);
    InTicks(delta, s.dds);
    TicksNext(s, |front|, now, delta);
    next := now + delta;
    SteadySnoc(front, next, NOMINAL);
    UnbrokenSnoc(front, next);
  }

  /** A crystal at the nominal frequency has unbroken steady runs of any length: the premises
      of the results above can be met. */
  lemma {:induction false} NominalRun(n: nat) returns (times: seq<(nat, nat)>)
    requires n >= 1
    ensures |times| == n && Steady(times, NOMINAL) && Unbroken(times)
    ensures Words.Abs(PhaseError(times[n - 1].1)) <= 300 && (n == 1 ==> times[0].1 == SECOND)
  {
    hide *;
    if n == 1 {
      times := OnePulse();
    } else {
      var front := NominalRun(n - 1);
      var next := NominalNext(front);
      times := front + [(next, next)];
    }
  }
}
