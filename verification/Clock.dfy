/** The clock discipline of `duck_intr` when the card synchronises to the host: an integer
    exponential filter estimates the crystal frequency, and a frequency word for the card's
    synthesiser is divided out of it. */
module Clock {
  import Words

  const SECOND: int := 0x1_0000_0000
  const WORD: int := 0x1_0000_0000
  const WIDTH_FACTOR: int := 0x400_0000
  const START_CFREQ: nat := 800000000
  const START_DDS: nat := 0xabcc7712
  const ACCEPT: int := 1000000

  // ---- the filter ----

  /** The filter keeps eight times the frequency and lets an eighth of it go for each new
      sample, in a 32-bit field. */
  function Step(cfreq: nat, sample: int): nat {
    (cfreq - cfreq / 8 + sample) % WORD
  }

  /** A sample is taken only if it is close to the estimate. */
  predicate Accepted(cfreq: nat, sample: int) {
    Words.Abs(sample - cfreq / 8) < ACCEPT
  }

  /** The filter over the accepted samples, oldest first. */
  function Filter(cfreq: nat, samples: seq<int>): nat {
    if samples == [] then cfreq
    else Step(Filter(cfreq, samples[..|samples| - 1]), samples[|samples| - 1])
  }

  lemma FilterSnoc(cfreq: nat, samples: seq<int>, t: int)
    ensures Filter(cfreq, samples + [t]) == Step(Filter(cfreq, samples), t)
  {
    assert (samples + [t])[..|samples|] == samples;
  }

  lemma StepStaysInBand(c: nat, t: int, lo: nat, hi: nat)
    requires 8 * lo <= c <= 8 * hi + 7 && 8 * hi + 7 < WORD && lo <= t <= hi
    ensures 8 * lo <= Step(c, t) <= 8 * hi + 7
    ensures Step(c, t) == c - c / 8 + t
  {
  }

  /** Estimates stay within the band of the samples. */
  lemma {:induction false} FilterStaysInBand(cfreq: nat, samples: seq<int>, lo: nat, hi: nat)
    requires 8 * lo <= cfreq <= 8 * hi + 7 && 8 * hi + 7 < WORD
    requires forall i :: 0 <= i < |samples| ==> lo <= samples[i] <= hi
    ensures 8 * lo <= Filter(cfreq, samples) <= 8 * hi + 7
  {
    if samples != [] {
      var front := samples[..|samples| - 1];
      FilterStaysInBand(cfreq, front, lo, hi);
      StepStaysInBand(Filter(cfreq, front), samples[|samples| - 1], lo, hi);
    }
  }

  /** How far the estimate is from the values that eight times the sample allows. */
  function Distance(cfreq: nat, sample: nat): nat {
    if cfreq < 8 * sample then 8 * sample - cfreq
    else if cfreq > 8 * sample + 7 then cfreq - (8 * sample + 7)
    else 0
  }

  /** A step changes the estimate by the sample less an eighth of the estimate. */
  lemma StepIs(c: nat, t: nat)
    requires c < WORD && 8 * t + 7 < WORD
    ensures Step(c, t) == c - c / 8 + t
  {
  }

  lemma StepEighth(c: nat, t: nat, k: nat)
    requires 8 * k <= c < 8 * k + 8
    ensures k < t ==> k <= (c - k + t) / 8 <= t
    ensures k > t ==> t <= (c - k + t) / 8 <= k
    ensures k == t ==> (c - k + t) / 8 == t
  {
  }

  /** One step toward a sample: closer on the same side, or at rest; and a sample accepted
      once stays accepted. */
  lemma StepApproaches(c: nat, t: nat)
    requires c < WORD && 8 * t + 7 < WORD
    ensures Distance(c, t) == 0 ==> Step(c, t) == c
    ensures Distance(c, t) > 0 ==> Distance(Step(c, t), t) < Distance(c, t)
    ensures c < 8 * t ==> c < Step(c, t) <= 8 * t
    ensures c > 8 * t + 7 ==> 8 * t + 7 <= Step(c, t) < c
    ensures Accepted(c, t) ==> Accepted(Step(c, t), t)
  {
    var k := c / 8;
    assert 8 * k <= c < 8 * k + 8;
    StepIs(c, t);
    StepEighth(c, t, k);
    hide Step;
  }

  function Constant(t: nat, n: nat): (s: seq<int>)
    ensures |s| == n
  {
    seq(n, _ => t)
  }

  /** A constant sample draws the estimate into `[8t, 8t + 7]` in finitely many pulses, and
      there it rests. On the way the sample is always accepted. */
  lemma {:induction false} FilterConverges(c: nat, t: nat, n: nat)
    requires c < WORD && 8 * t + 7 < WORD && Accepted(c, t)
    ensures Filter(c, Constant(t, n)) < WORD
    ensures Accepted(Filter(c, Constant(t, n)), t)
    ensures Distance(Filter(c, Constant(t, n)), t) <= if n >= Distance(c, t) then 0 else Distance(c, t) - n
    ensures n >= Distance(c, t) ==> 8 * t <= Filter(c, Constant(t, n)) <= 8 * t + 7
    ensures n > Distance(c, t) ==> Filter(c, Constant(t, n)) == Filter(c, Constant(t, n - 1))
    decreases n
  {
    if n > 0 {
      FilterConverges(c, t, n - 1);
      assert Constant(t, n)[..n - 1] == Constant(t, n - 1);
      StepApproaches(Filter(c, Constant(t, n - 1)), t);
    }
  }

  // ---- the frequency word ----

  /** The signed distance of a time from the nearest full second, negated. */
  function PhaseError(now: nat): int {
    var low := now % SECOND;
    if low < SECOND / 2 then -low else SECOND - low
  }

  /** The rate asked for, in steps a second: nominal less half the phase error, rounded down. */
  function Want(phase: int): int {
    SECOND - phase / 2
  }

  /** The word before it is cut to 32 bits. */
  function Word(want: int, cfreq: nat): int
    requires cfreq > 0
  {
    (want * WIDTH_FACTOR * 8) / cfreq
  }

  lemma WantRange(now: nat)
    ensures SECOND - 0x4000_0000 <= Want(PhaseError(now)) <= SECOND + 0x4000_0000
  {
  }

  lemma QuotientBelow(q: int, d: nat, n: int, k: nat)
    requires d > 0 && q * d <= n < k * d
    ensures q < k
  {
  }

  lemma QuotientAbove(q: int, d: nat, n: int)
    requires d > 0 && n >= d && n - d < q * d
    ensures q > 0
  {
  }

  /** With a crystal above 83886080 Hz the word fits in 32 bits, and it is never zero. */
  lemma WordFits(want: int, cfreq: nat)
    requires SECOND - 0x4000_0000 <= want <= SECOND + 0x4000_0000
    requires 8 * 83886081 <= cfreq < WORD
    ensures 0 < Word(want, cfreq) < WORD
  {
    var n := want * WIDTH_FACTOR * 8;
    var q := n / cfreq;
    assert n == q * cfreq + n % cfreq;
    QuotientBelow(q, cfreq, n, WORD);
    QuotientAbove(q, cfreq, n);
  }

  lemma Fits32(x: int)
    ensures 0 <= x % WORD < WORD
    ensures 0 <= x < WORD ==> x % WORD == x
  {
  }

  // ---- one pulse after another ----

  /** A pulse distance within about one per cent of a second. */
  predicate OneSecond(delta: int) {
    0xff00_0000 < delta < 0x1_0100_0000
  }

  /** The estimate, the synthesiser word, the time of the last pulse, the samples accepted
      since the last reset, and whether a division by zero has stopped the clock. */
  datatype State = State(cfreq: nat, dds: nat, last: nat, samples: seq<int>, halted: bool)

  function Start(): State {
    State(START_CFREQ, START_DDS, 0, [], false)
  }

  /** The crystal frequency over the last second: the wavelength of the pulses times the
      word the synthesiser ran on. */
  function Sample(delta: int, dds: nat): int
    requires delta > 0 && dds > 0
  {
    ((0xffff_ffff_ffff_ffff / delta) * WIDTH_FACTOR) / dds
  }

  function NewWord(s: State, want: int, now: nat): State {
    if s.cfreq == 0 then s.(halted := true)
    else
      Fits32(Word(want, s.cfreq));
      s.(dds := Word(want, s.cfreq) % WORD, last := now)
  }

  function Filtered(s: State, t: int): State {
    if Accepted(s.cfreq, t) then s.(cfreq := Step(s.cfreq, t), samples := s.samples + [t]) else s
  }

  predicate FarApart(cardNow: nat, hostNow: nat) {
    Words.Abs(cardNow as int - hostNow) > 0xffff_ffff
  }

  /** What a pulse at host time `hostNow` makes of the state. */
  function Pulse(s: State, cardNow: nat, hostNow: nat): State {
    var delta := hostNow as int - s.last;
    if s.halted then s
    else if FarApart(cardNow, hostNow) then Start().(last := s.last)
    else if s.last == 0 || delta == 0 then s.(last := hostNow)
    else if !OneSecond(delta) then NewWord(s, SECOND, hostNow)
    else if s.dds == 0 then s.(halted := true)
    else NewWord(Filtered(s, Sample(delta, s.dds)), Want(PhaseError(hostNow)), hostNow)
  }

  function Pulses(times: seq<(nat, nat)>): State {
    if times == [] then Start()
    else Pulse(Pulses(times[..|times| - 1]), times[|times| - 1].0, times[|times| - 1].1)
  }

  ghost predicate InRange(samples: seq<int>, lo: nat, hi: nat) {
    forall i :: 0 <= i < |samples| ==> lo <= samples[i] <= hi
  }

  /** Bounds on a crystal that the loop can follow: they include the nominal frequency,
      leave the word 32 bits and the estimate 32 bits. */
  predicate Bounds(lo: nat, hi: nat) {
    83886081 <= lo <= START_CFREQ / 8 <= hi && 8 * hi + 7 < WORD
  }

  /** The estimate is the filter over the accepted samples; and as long as these lie between
      `lo` and `hi` so does the estimate, there is a word to run on, and no division by zero
      has happened. */
  ghost predicate Sound(s: State, lo: nat, hi: nat) {
    && s.cfreq == Filter(START_CFREQ, s.samples) && s.cfreq < WORD && s.dds < WORD
    && (InRange(s.samples, lo, hi) ==> !s.halted && 8 * lo <= s.cfreq <= 8 * hi + 7 && s.dds > 0)
  }

  lemma InRangeSnoc(samples: seq<int>, t: int, lo: nat, hi: nat)
    ensures InRange(samples + [t], lo, hi) <==> InRange(samples, lo, hi) && lo <= t <= hi
  {
    var more := samples + [t];
    assert more[|samples|] == t;
    assert forall i :: 0 <= i < |samples| ==> more[i] == samples[i];
  }

  lemma FilteredSound(s: State, t: int, lo: nat, hi: nat)
    requires Bounds(lo, hi) && Sound(s, lo, hi)
    ensures Sound(Filtered(s, t), lo, hi)
    ensures InRange(Filtered(s, t).samples, lo, hi) ==> InRange(s.samples, lo, hi)
  {
    FilterSnoc(START_CFREQ, s.samples, t);
    InRangeSnoc(s.samples, t, lo, hi);
    hide Filter, InRange, Accepted;
    if Accepted(s.cfreq, t) && InRange(s.samples + [t], lo, hi) {
      StepStaysInBand(s.cfreq, t, lo, hi);
    }
  }

  /** Within the band the new word is the exact quotient: nothing is cut off, and it is
      positive. */
  lemma NewWordSound(s: State, want: int, now: nat, lo: nat, hi: nat)
    requires Bounds(lo, hi) && Sound(s, lo, hi) && !s.halted
    requires SECOND - 0x4000_0000 <= want <= SECOND + 0x4000_0000
    ensures Sound(NewWord(s, want, now), lo, hi)
    ensures InRange(s.samples, lo, hi) ==>
              s.cfreq > 0 && 0 < Word(want, s.cfreq) < WORD
              && NewWord(s, want, now) == s.(dds := Word(want, s.cfreq), last := now)
  {
    if s.cfreq > 0 {
      Fits32(Word(want, s.cfreq));
    }
    if InRange(s.samples, lo, hi) {
      WordFits(want, s.cfreq);
    }
  }

  lemma StartSound(last: nat, lo: nat, hi: nat)
    requires Bounds(lo, hi)
    ensures Sound(Start().(last := last), lo, hi)
  {
  }

  /** A pulse keeps the state sound, and sets a word that asks for the right rate. */
  lemma PulseSound(s: State, cardNow: nat, hostNow: nat, lo: nat, hi: nat)
    requires Bounds(lo, hi) && Sound(s, lo, hi)
    ensures Sound(Pulse(s, cardNow, hostNow), lo, hi)
    ensures
      var after, delta := Pulse(s, cardNow, hostNow), hostNow as int - s.last;
      !s.halted && !FarApart(cardNow, hostNow) && s.last != 0 && delta != 0 && InRange(after.samples, lo, hi) ==>
        after.last == hostNow
        && 0 < after.dds == Word(if OneSecond(delta) then Want(PhaseError(hostNow)) else SECOND, after.cfreq)
  {
    hide Word, Sample, Filter;
    StartSound(s.last, lo, hi);
    WantRange(hostNow);
    var delta := hostNow as int - s.last;
    if !s.halted && !FarApart(cardNow, hostNow) && s.last != 0 && delta != 0 {
      if !OneSecond(delta) {
        NewWordSound(s, SECOND, hostNow, lo, hi);
      } else if s.dds != 0 {
        var t := Sample(delta, s.dds);
        FilteredSound(s, t, lo, hi);
        NewWordSound(Filtered(s, t), Want(PhaseError(hostNow)), hostNow, lo, hi);
      }
    }
  }

  /** Over any run of pulses: the estimate is the filter over the samples accepted since the
      last reset; while these lie between `lo` and `hi`, so does the estimate, to the last
      eighth, the synthesiser has a 32-bit word and the clock never divides by zero. */
  lemma {:induction false} PulsesSound(times: seq<(nat, nat)>, lo: nat, hi: nat)
    requires Bounds(lo, hi)
    ensures Sound(Pulses(times), lo, hi)
  {
    if times == [] {
      StartSound(0, lo, hi);
    } else {
      var n := |times| - 1;
      PulsesSound(times[..n], lo, hi);
      PulseSound(Pulses(times[..n]), times[n].0, times[n].1, lo, hi);
    }
  }
}
