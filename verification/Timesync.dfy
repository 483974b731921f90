/** The sliding-window estimate of the clock rate (src/driver/linux_onload/timesync.c). */
module Timesync {
  import opened Arith
  import opened Words

  const SAMPLES := 16
  const SECOND := 1_000_000_000
  const TEN_SECONDS := 10_000_000_000
  const WORD64 := 0x1_0000_0000_0000_0000

  /** The value a 64-bit register holds when the true value is x. */
  function Wrap64(x: int): (r: nat)
    ensures r < WORD64
  {
    x % WORD64
  }

  /** A sample used: ticks and nanoseconds since the sample before it. */
  datatype Sample = Sample(ticks: nat, ns: nat)

  // ----- Sums over a window -----

  /** Samples used are positive and at most ten seconds long. */
  ghost predicate SamplesOk(h: seq<Sample>) {
    forall s | s in h :: s.ticks < WORD64 && 0 < s.ns <= TEN_SECONDS
  }

  /** The sums over the last n samples of a history. */
  function TicksOver(h: seq<Sample>, n: nat): nat {
    if n == 0 || h == [] then 0 else TicksOver(h[..|h| - 1], n - 1) + h[|h| - 1].ticks
  }

  function NsOver(h: seq<Sample>, n: nat): nat {
    if n == 0 || h == [] then 0 else NsOver(h[..|h| - 1], n - 1) + h[|h| - 1].ns
  }

  /** The sample that leaves a window of n when another one comes, or nothing. */
  function Leaving(h: seq<Sample>, n: nat): Sample {
    if 0 < n <= |h| then h[|h| - n] else Sample(0, 0)
  }

  lemma {:induction false} WindowGrows(h: seq<Sample>, n: nat)
    requires n > 0
    ensures TicksOver(h, n) == TicksOver(h, n - 1) + Leaving(h, n).ticks
    ensures NsOver(h, n) == NsOver(h, n - 1) + Leaving(h, n).ns
  {
    if h != [] && n > 1 {
      WindowGrows(h[..|h| - 1], n - 1);
    }
  }

  /** A window slides by adding the new sample and taking away the one that leaves. */
  lemma WindowSlides(h: seq<Sample>, n: nat, s: Sample)
    requires n > 0
    ensures TicksOver(h + [s], n) == TicksOver(h, n) + s.ticks - Leaving(h, n).ticks
    ensures NsOver(h + [s], n) == NsOver(h, n) + s.ns - Leaving(h, n).ns
  {
    WindowGrows(h, n);
    assert (h + [s])[..|h|] == h;
  }

  lemma {:induction false} NsBounded(h: seq<Sample>, n: nat)
    requires SamplesOk(h)
    ensures NsOver(h, n) <= n * TEN_SECONDS && (h != [] && n > 0 ==> NsOver(h, n) > 0)
  {
    if n > 0 && h != [] {
      NsBounded(h[..|h| - 1], n - 1);
    }
  }

  // ----- One reading of the clocks -----

  /** Nanoseconds between two readings of the monotonic clock, if they are in order and not far apart. */
  datatype Elapsed = Use(ns: nat) | Ignore

  function ElapsedNs(sec0: nat, nsec0: nat, sec: nat, nsec: nat): Elapsed
    requires nsec0 < SECOND
  {
    if sec == sec0 && nsec > nsec0 then Use(nsec - nsec0)
    else if sec > sec0 then
      var ns := nsec + (SECOND - nsec0) + (sec - sec0 - 1) * SECOND;
      if ns > TEN_SECONDS then Ignore else Use(ns)
    else Ignore
  }

  /** A reading is used exactly when the clock has gone forward by at most ten seconds, and the nanoseconds are that. */
  lemma ElapsedExactly(sec0: nat, nsec0: nat, sec: nat, nsec: nat)
    requires nsec0 < SECOND && nsec < SECOND
    ensures var d := (sec * SECOND + nsec) - (sec0 * SECOND + nsec0);
            ElapsedNs(sec0, nsec0, sec, nsec) == if 0 < d <= TEN_SECONDS then Use(d) else Ignore
  {
  }

  /** Ticks in a millisecond, as the program works them out. */
  function Khz(ticks: nat, ns: nat): (r: nat)
    requires 0 < ns <= WORD64
    ensures r < WORD
    ensures r == ticks * 1_000_000 / ns <==> ticks * 1_000_000 < WORD64 && ticks * 1_000_000 / ns < WORD
  {
    RatioExactly(ticks * 1_000_000, ns);
    Wrap64(ticks * 1_000_000) / ns % WORD
  }

  class TimeSync {
    var monoSec: nat
    var monoNsec: nat
    var clockMade: nat
    var smoothedTicks: nat
    var smoothedNs: nat
    var generation: nat
    const tickSamples: array<nat>
    const nsSamples: array<nat>
    var smoothI: nat
    var signal: nat
    var cpuKhz: nat
    /** Set when those waiting for the estimate are released. */
    var completed: bool
    /** The samples used so far. */
    ghost var history: seq<Sample>

    ghost predicate Valid()
      reads this, tickSamples, nsSamples
    {
      && WindowOk() && monoNsec < SECOND && clockMade < WORD64
      && SamplesOk(history)
      && generation < WORD && generation % 2 == 0
      && signal == (if |history| < 2 then |history| else 2)
      && (completed <==> |history| >= 2)
      && (|history| >= 2 ==> smoothedNs > 0 && cpuKhz == Khz(smoothedTicks, smoothedNs))
    }

    /** oo_timesync_ctor, with the clocks as they are read. */
    constructor (sec: nat, nsec: nat, frc: nat)
      requires nsec < SECOND && frc < WORD64
      ensures Valid() && history == [] && fresh(tickSamples) && fresh(nsSamples)
    {
      monoSec, monoNsec, clockMade := sec, nsec, frc;
      smoothedTicks, smoothedNs, generation, smoothI := 0, 0, 0, 0;
      signal, cpuKhz, completed := 0, 0, false;
      tickSamples := new nat[SAMPLES](_ => 0);
      nsSamples := new nat[SAMPLES](_ => 0);
      history := [];
      new;
      assert forall k | 0 <= k < SAMPLES :: Slot(history, k) == Sample(0, 0);
    }

    /** Once a sample has been used, dividing by the smoothed nanoseconds is safe; they stay below 2^64. */
    lemma DivisionSafe()
      requires Valid() && history != []
      ensures 0 < smoothedNs <= SAMPLES * TEN_SECONDS < WORD64
    {
      NsBounded(history, SAMPLES);
    }

    /** Slide the window of samples. */
    method UseSample(ticks: nat, ns: nat)
      requires WindowOk() && ticks < WORD64 && 0 < ns <= TEN_SECONDS
      requires SamplesOk(history)
      modifies this`smoothedTicks, this`smoothedNs, this`smoothI, this`history, tickSamples, nsSamples
      ensures history == old(history) + [Sample(ticks, ns)] && WindowOk() && smoothedNs == NsOver(history, SAMPLES)
      ensures SamplesOk(history)
    {
      ghost var h, s := history, Sample(ticks, ns);
      hide TicksOver, NsOver, Slot, Wrap64;
      SumsSlide(h, s);
      SlotsStore(h, s);
      smoothedTicks := Wrap64(smoothedTicks + ticks);
      smoothedTicks := Wrap64(smoothedTicks - tickSamples[smoothI]);
      tickSamples[smoothI] := ticks;
      smoothedNs := Wrap64(smoothedNs + ns);
      smoothedNs := Wrap64(smoothedNs - nsSamples[smoothI]);
      nsSamples[smoothI] := ns;
      smoothI := (smoothI + 1) % SAMPLES;
      history := h + [s];
    }

    /** The ring holds the last samples, and the sums are theirs. */
    ghost predicate WindowOk()
      reads this`smoothI, this`history, this`smoothedTicks, this`smoothedNs, tickSamples, nsSamples
    {
      && tickSamples.Length == nsSamples.Length == SAMPLES && tickSamples != nsSamples
      && smoothI == |history| % SAMPLES
      && (forall k | 0 <= k < SAMPLES :: tickSamples[k] == Slot(history, k).ticks && nsSamples[k] == Slot(history, k).ns)
      && smoothedTicks == Wrap64(TicksOver(history, SAMPLES))
      && smoothedNs == NsOver(history, SAMPLES) <= WORD64
    }

    /** oo_timesync_stabilize_cpu_khz: from the second sample on, the estimate is the ticks in a millisecond,
        exactly if neither the product nor the result overflows. */
    method StabilizeCpuKhz()
      requires 0 < smoothedNs <= WORD64
      modifies this`signal, this`cpuKhz, this`completed
      ensures signal == if old(signal) < 2 then old(signal) + 1 else old(signal)
      ensures completed == (old(completed) || old(signal) == 1)
      ensures old(signal) == 0 ==> cpuKhz == old(cpuKhz)
      ensures old(signal) > 0 ==>
                (cpuKhz == smoothedTicks * 1_000_000 / smoothedNs <==>
                 smoothedTicks * 1_000_000 < WORD64 && smoothedTicks * 1_000_000 / smoothedNs < WORD)
      ensures old(signal) > 0 ==> cpuKhz == Khz(smoothedTicks, smoothedNs)
    {
      hide Khz;
      if signal == 0 {
        signal := signal + 1;
        return;
      }
      cpuKhz := Khz(smoothedTicks, smoothedNs);
      if signal == 1 {
        completed := true;
        signal := signal + 1;
      }
    }

    /** Nanoseconds since the last update, and whether to use them. */
    method Since(sec: nat, nsec: nat) returns (use: bool, ns: nat)
      requires monoNsec < SECOND && nsec < SECOND
      ensures use ==> 0 < ns <= TEN_SECONDS
      ensures ElapsedNs(monoSec, monoNsec, sec, nsec) == if use then Use(ns) else Ignore
    {
      ns, use := 0, true;
      if sec == monoSec && nsec > monoNsec {
        ns := nsec - monoNsec;
      } else if sec > monoSec {
        ns := nsec + (SECOND - monoNsec) + (sec - monoSec - 1) * SECOND;
        if ns > TEN_SECONDS {
          use := false;
        }
      } else {
        use := false;
      }
    }

    /** The end of an update: the generation count is even again, and never zero. */
    method EndGeneration()
      requires generation < WORD && generation % 2 == 1
      modifies this`generation
      ensures generation < WORD && generation % 2 == 0 && generation != 0 && generation != old(generation) - 1
    {
      if (generation + 1) % WORD == 0 {
        generation := 2;
      } else {
        generation := generation + 1;
      }
    }

    /** The protected part of an update. mid is the generation count while it is under way. */
    method Record(use: bool, ticks: nat, ns: nat, frc: nat, sec: nat, nsec: nat) returns (ghost mid: nat)
      requires Valid() && frc < WORD64 && nsec < SECOND && ticks < WORD64 && (use ==> 0 < ns <= TEN_SECONDS)
      modifies this`generation, this`monoSec, this`monoNsec, this`clockMade
      modifies this`smoothedTicks, this`smoothedNs, this`smoothI, this`history, tickSamples, nsSamples
      ensures WindowOk() && SamplesOk(history)
      ensures history == if use then old(history) + [Sample(ticks, ns)] else old(history)
      ensures use ==> 0 < smoothedNs <= SAMPLES * TEN_SECONDS
      ensures !use ==> smoothedTicks == old(smoothedTicks) && smoothedNs == old(smoothedNs)
      ensures (monoSec, monoNsec, clockMade) == (sec, nsec, frc)
      ensures mid % 2 == 1 && generation < WORD && generation % 2 == 0 && generation != 0
      ensures generation != old(generation)
    {
      hide WindowOk, NsOver, SamplesOk;
      generation := generation + 1;
      mid := generation;
      if use {
        UseSample(ticks, ns);
        NsBounded(history, SAMPLES);
      }
      monoSec, monoNsec, clockMade := sec, nsec, frc;
      EndGeneration();
    }

    /** oo_timesync_update, with the clocks as they are read when an update is due. */
    method Update(due: bool, frc: nat, sec: nat, nsec: nat) returns (ghost mid: nat)
      requires Valid() && frc < WORD64 && sec < HALF && nsec < SECOND
      modifies this, tickSamples, nsSamples
      ensures Valid()
      ensures !due ==> unchanged(this) && unchanged(tickSamples) && unchanged(nsSamples)
      ensures !due || old(ElapsedNs(monoSec, monoNsec, sec, nsec)).Ignore? ==> history == old(history)
      ensures due && old(ElapsedNs(monoSec, monoNsec, sec, nsec)).Use? ==>
                history == old(history) + [Sample(Wrap64(frc - old(clockMade)),
                                                  old(ElapsedNs(monoSec, monoNsec, sec, nsec)).ns)]
      ensures due ==> (monoSec, monoNsec, clockMade) == (sec, nsec, frc)
      ensures due ==> mid % 2 == 1 && generation % 2 == 0 && generation != 0 && generation != old(generation)
    {
      hide WindowOk, NsOver, ElapsedNs, Wrap64, SamplesOk, Khz;
      mid := 0;
      if due {
        var ticks := Wrap64(frc - clockMade);
        var use, ns := Since(sec, nsec);
        mid := Record(use, ticks, ns, frc, sec, nsec);
        if use {
          StabilizeCpuKhz();
        }
      }
    }
  }

  /** What a slot of the ring holds: the last sample stored there. */
  ghost function Slot(h: seq<Sample>, k: nat): Sample
    requires k < SAMPLES
  {
    if h == [] then Sample(0, 0)
    else if (|h| - 1) % SAMPLES == k then h[|h| - 1]
    else Slot(h[..|h| - 1], k)
  }

  lemma {:induction false} SlotIs(h: seq<Sample>, j: nat)
    requires j < |h| <= j + SAMPLES
    ensures Slot(h, j % SAMPLES) == h[j]
    decreases |h|
  {
    if j < |h| - 1 {
      assert (|h| - 1) % SAMPLES != j % SAMPLES;
      SlotIs(h[..|h| - 1], j);
    }
  }

  lemma {:induction false} SlotUnused(h: seq<Sample>, k: nat)
    requires |h| <= k < SAMPLES
    ensures Slot(h, k) == Sample(0, 0)
  {
    if h != [] {
      SlotUnused(h[..|h| - 1], k);
    }
  }

  lemma SameSlot(n: nat)
    requires n >= SAMPLES
    ensures (n - SAMPLES) % SAMPLES == n % SAMPLES
  {
  }

  /** The slot stored into next holds the sample that leaves the window. */
  lemma SlotLeaving(h: seq<Sample>)
    ensures Slot(h, |h| % SAMPLES) == Leaving(h, SAMPLES)
  {
    if |h| >= SAMPLES {
      hide Slot;
      SameSlot(|h|);
      SlotIs(h, |h| - SAMPLES);
    } else {
      SlotUnused(h, |h|);
    }
  }

  lemma WrapChain(sum: nat, x: nat, y: nat)
    requires y <= sum + x
    ensures Wrap64(Wrap64(Wrap64(sum) + x) - y) == Wrap64(sum + x - y)
  {
  }

  lemma NoWrap(sum: nat, x: nat, y: nat)
    requires y <= sum + x < WORD64
    ensures Wrap64(Wrap64(sum + x) - y) == sum + x - y
  {
  }

  /** Adding the new sample to the sums and taking away what the slot held gives the sums of the new window. */
  lemma SumsSlide(h: seq<Sample>, s: Sample)
    requires SamplesOk(h) && 0 < s.ns <= TEN_SECONDS
    ensures var slot := Slot(h, |h| % SAMPLES);
            && Wrap64(Wrap64(Wrap64(TicksOver(h, SAMPLES)) + s.ticks) - slot.ticks) ==
               Wrap64(TicksOver(h + [s], SAMPLES))
            && Wrap64(Wrap64(NsOver(h, SAMPLES) + s.ns) - slot.ns) == NsOver(h + [s], SAMPLES)
  {
    hide TicksOver, NsOver, Slot, Leaving, Wrap64;
    SlotLeaving(h);
    WindowSlides(h, SAMPLES, s);
    WrapChain(TicksOver(h, SAMPLES), s.ticks, Leaving(h, SAMPLES).ticks);
    NsBounded(h, SAMPLES);
    NoWrap(NsOver(h, SAMPLES), s.ns, Leaving(h, SAMPLES).ns);
  }

  /** Storing a sample changes its slot only. */
  lemma SlotsStore(h: seq<Sample>, s: Sample)
    ensures forall k: nat | k < SAMPLES :: Slot(h + [s], k) == if k == |h| % SAMPLES then s else Slot(h, k)
  {
    assert (h + [s])[..|h|] == h;
  }

  /** Dividing a wrapped product and keeping a word of the result gives the ratio exactly if neither is cut short. */
  lemma RatioExactly(product: nat, ns: nat)
    requires 0 < ns <= WORD64
    ensures 0 <= Wrap64(product) / ns && 0 <= product / ns
    ensures Wrap64(product) / ns % WORD == product / ns <==> product < WORD64 && product / ns < WORD
  {
    var kept := Wrap64(product);
    assert kept <= product && (product >= WORD64 ==> kept + WORD64 <= product) && (product < WORD64 ==> kept == product);
    if product >= WORD64 {
      QuotientLess(kept, product, ns);
    }
    hide Wrap64;
    WordAtMost(kept / ns);
  }

  lemma WordAtMost(x: nat)
    ensures x % WORD <= x && (x % WORD == x <==> x < WORD)
  {
    assert x == WORD * (x / WORD) + x % WORD;
  }
}
