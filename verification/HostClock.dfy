/** The host-synchronised branch of `duck_intr` as the driver runs it, one interrupt after
    another. */
module HostClock {
  import Words
  import opened Clock
  import opened Crystal

  class Duck {
    var cfreq: nat
    var dds: nat
    var last: nat
    var pulses: nat
    var badPulses: nat
    var resyncs: nat
    /** The samples accepted since the last reset. */
    ghost var samples: seq<int>

    ghost function Now(halted: bool): State
      reads this
    {
      State(cfreq, dds, last, samples, halted)
    }

    constructor ()
      ensures Now(false) == Start()
    {
      cfreq, dds, last := START_CFREQ, START_DDS, 0;
      pulses, badPulses, resyncs := 0, 0, 0;
      samples := [];
    }

    /** `duck_set`: back to the nominal crystal. */
    method Reset()
      modifies this`cfreq, this`dds, this`samples
      ensures Now(false) == Start().(last := last)
    {
      cfreq, dds, samples := START_CFREQ, START_DDS, [];
    }

    /** The filter with its test: a sample far from the estimate is counted as bad. */
    method TakeSample(t: int)
      modifies this`cfreq, this`badPulses, this`samples
      ensures Now(false) == Filtered(old(Now(false)), t)
      ensures badPulses == old(badPulses) + if Accepted(old(cfreq), t) then 0 else 1
    {
      if Words.Abs(t - cfreq / 8) < ACCEPT {
        cfreq := (cfreq - cfreq / 8 + t) % WORD;
        samples := samples + [t];
      } else {
        badPulses := badPulses + 1;
      }
    }

    lemma Measures(cardNow: nat, hostNow: nat)
      ensures !FarApart(cardNow, hostNow) && last != 0 && OneSecond(hostNow as int - last) ==>
                forall f: nat :: f < 0x2000_0000 && 0x1800_0000 <= dds && Ticks(f, hostNow as int - last, dds) ==>
                  var after := Pulse(Now(false), cardNow, hostNow);
                  after.cfreq == cfreq || after.cfreq == Step(cfreq, f) || after.cfreq == Step(cfreq, f - 1)
    {
      hide Pulse, Ticks, Step;
      if !FarApart(cardNow, hostNow) && last != 0 && OneSecond(hostNow as int - last) {
        forall f: nat | f < 0x2000_0000 && 0x1800_0000 <= dds && Ticks(f, hostNow as int - last, dds)
          ensures
            var after := Pulse(Now(false), cardNow, hostNow);
            after.cfreq == cfreq || after.cfreq == Step(cfreq, f) || after.cfreq == Step(cfreq, f - 1)
        {
          PulseMeasures(Now(false), f, cardNow, hostNow);
        }
      }
    }

    /** The host-synchronised branch of `duck_intr`, with the card's time and the host's as
        read. A card more than a second off is reset. Otherwise the length of the last
        second gives a sample, if it is within about one per cent, and a new word is set;
        `ok` is false if that would divide by zero. */
    method HostPulse(cardNow: nat, hostNow: nat) returns (ok: bool)
      modifies this
      ensures Now(!ok) == Pulse(old(Now(false)), cardNow, hostNow)
      ensures !(-0xffff_ffff <= cardNow as int - hostNow <= 0xffff_ffff) ==>
                ok && cfreq == 800000000 && dds == 0xabcc7712 && last == old(last)
      ensures -0xffff_ffff <= cardNow as int - hostNow <= 0xffff_ffff ==>
                && (ok ==> last == hostNow)
                && (old(last) == 0 || hostNow == old(last) ==> ok && cfreq == old(cfreq) && dds == old(dds))
                && (!(0xff00_0000 < hostNow as int - old(last) < 0x1_0100_0000) ==> cfreq == old(cfreq))
                && (old(last) != 0 && 0xff00_0000 < hostNow as int - old(last) < 0x1_0100_0000 ==>
                      forall f: nat :: f < 0x2000_0000 && 0x1800_0000 <= old(dds)
                                       && Ticks(f, hostNow as int - old(last), old(dds)) ==>
                        cfreq == old(cfreq) || cfreq == Step(old(cfreq), f) || cfreq == Step(old(cfreq), f - 1))
      ensures resyncs == old(resyncs) + if FarApart(cardNow, hostNow) then 1 else 0
      ensures pulses == old(pulses) + 1
    {
      hide Word, Want, PhaseError, Sample, Filtered, Ticks;
      Measures(cardNow, hostNow);
      ok := true;
      pulses := pulses + 1;
      if cardNow as int - hostNow > 0xffffffff || cardNow as int - hostNow < -0xffffffff {
        resyncs := resyncs + 1;
        Reset();
        return;
      }
      var delta := hostNow as int - last;
      if last != 0 && delta != 0 {
        var want := SECOND;
        if OneSecond(delta) {
          if dds == 0 {
            return false;
          }
          TakeSample(Sample(delta, dds));
          want := Want(PhaseError(hostNow));
        }
        if cfreq == 0 {
          return false;
        }
        var word := Word(want, cfreq);
        Fits32(word);
        dds := word % WORD;
      }
      last := hostNow;
    }
  }

  lemma {:induction false} StaysHalted(times: seq<(nat, nat)>, i: nat)
    requires i <= |times| && Pulses(times[..i]).halted
    ensures Pulses(times) == Pulses(times[..i])
    decreases |times|
  {
    if i < |times| {
      var front := times[..|times| - 1];
      assert front[..i] == times[..i];
      StaysHalted(front, i);
    } else {
      assert times[..i] == times;
    }
  }

  /** A run of pulses from a fresh start, until a division by zero. It follows any steady
      crystal that fits the times. While the samples accepted
      since the last reset are frequencies between two bounds, there is none, the estimate is
      between them too, and the synthesiser has a positive 32-bit word. */
  method Run(times: seq<(nat, nat)>) returns (cfreq: nat, dds: nat, ok: bool, ghost samples: seq<int>)
    ensures cfreq == Pulses(times).cfreq && dds == Pulses(times).dds && ok == !Pulses(times).halted
    ensures samples == Pulses(times).samples && cfreq == Filter(START_CFREQ, samples)
    ensures forall lo: nat, hi: nat :: Bounds(lo, hi) && InRange(samples, lo, hi) ==>
              ok && 8 * lo <= cfreq <= 8 * hi + 7 && 0 < dds < WORD
    ensures forall f: nat :: Usable(f) && Steady(times, f) ==> Follows(times, f, Pulses(times))
  {
    var duck := new Duck();
    ok := true;
    var i := 0;
    while i < |times| && ok
      invariant 0 <= i <= |times| && fresh(duck)
      invariant duck.Now(!ok) == Pulses(times[..i])
    {
      hide Pulse;
      assert times[..i + 1][..i] == times[..i];
      ok := duck.HostPulse(times[i].0, times[i].1);
      i := i + 1;
    }
    cfreq, dds, samples := duck.cfreq, duck.dds, duck.samples;
    if ok {
      assert times[..i] == times;
    } else {
      StaysHalted(times, i);
    }
    hide Filter, InRange, Pulses;
    PulsesSound(times, 100000000, 100000000);
    forall lo: nat, hi: nat | Bounds(lo, hi) && InRange(samples, lo, hi)
      ensures ok && 8 * lo <= cfreq <= 8 * hi + 7 && 0 < dds < WORD
    {
      PulsesSound(times, lo, hi);
    }
    hide Usable, Steady, Follows;
    forall f: nat | Usable(f) && Steady(times, f)
      ensures Follows(times, f, Pulses(times))
    {
      RunFollows(times, f);
    }
  }
}
