/** The position within a frame of one framing bit and any number of eight-bit timeslots,
    advanced by a strobe at the end of each bit. */
module SystemTiming {
  import opened GrayCode
  import opened Numbers

  datatype Timing = Timing(
    bitCount: nat, bitInTimeslot: nat, timeslotInFrame: nat,
    fBit: bool, timeslotMsBit: bool, timeslotLsBit: bool, frameLastBit: bool,
    timeslotFirst: bool, timeslotLast: bool,
    timeslotStartStrobe: bool, frameStrobe: bool, bitStartStrobe: bool, clockCount: nat)

  const RESET := Timing(0, 0, 0, false, false, false, false, false, false, false, false, false, 0)

  function BitsPerFrame(timeslots: nat): nat { 1 + 8 * timeslots }

  /** The registers after the clock at the end of a bit. */
  function BitStep(timeslots: nat, t: Timing): Timing
    requires timeslots >= 1
  {
    var last := BitsPerFrame(timeslots) - 1;
    var bitCountNext := if t.bitCount == last then 0 else t.bitCount + 1;
    var phase := t.bitCount % 8;
    var fBitNext := bitCountNext == 0;
    var msBitNext := phase == 0 && !fBitNext;
    var timeslotNext := if t.frameLastBit then 0 else t.bitCount / 8;
    Timing(
      bitCountNext, if t.frameLastBit then 0 else 7 - phase, timeslotNext,
      fBitNext, msBitNext, phase == 7, t.bitCount == last - 1,
      if msBitNext then timeslotNext == 0 else t.timeslotFirst,
      if msBitNext || fBitNext then timeslotNext == timeslots - 1 else t.timeslotLast,
      msBitNext, fBitNext, true, 0)
  }

  function TimingStep(timeslots: nat, t: Timing, bitEnd: bool): Timing
    requires timeslots >= 1
  {
    if bitEnd then BitStep(timeslots, t)
    else t.(timeslotStartStrobe := false, frameStrobe := false, bitStartStrobe := false,
            clockCount := (t.clockCount + 1) % 256)
  }

  /** The strobe at the end of a timeslot's last bit. */
  predicate TimeslotEnd(t: Timing, bitEnd: bool) { t.timeslotLsBit && bitEnd }

  class TimingGenerator {
    const timeslots: nat
    var bitCount: nat
    var bitInTimeslot: nat
    var timeslotInFrame: nat
    var fBit: bool
    var timeslotMsBit: bool
    var timeslotLsBit: bool
    var frameLastBit: bool
    var timeslotFirst: bool
    var timeslotLast: bool
    var timeslotStartStrobe: bool
    var frameStrobe: bool
    var bitStartStrobe: bool
    var clockCount: nat

    constructor (timeslots: nat)
      requires timeslots >= 1
      ensures this.timeslots == timeslots && State() == RESET
    {
      this.timeslots := timeslots;
      bitCount, bitInTimeslot, timeslotInFrame, clockCount := 0, 0, 0, 0;
      fBit, timeslotMsBit, timeslotLsBit, frameLastBit := false, false, false, false;
      timeslotFirst, timeslotLast := false, false;
      timeslotStartStrobe, frameStrobe, bitStartStrobe := false, false, false;
    }

    function State(): Timing
      reads this
    {
      Timing(bitCount, bitInTimeslot, timeslotInFrame, fBit, timeslotMsBit, timeslotLsBit, frameLastBit,
             timeslotFirst, timeslotLast, timeslotStartStrobe, frameStrobe, bitStartStrobe, clockCount)
    }

    /** One system clock. `timeslotEnd` is the strobe at the end of a timeslot's last bit. */
    method Clock(bitEnd: bool) returns (timeslotEnd: bool)
      requires timeslots >= 1
      modifies this
      ensures timeslotEnd == TimeslotEnd(old(State()), bitEnd)
      ensures State() == TimingStep(timeslots, old(State()), bitEnd)
    {
      timeslotEnd := timeslotLsBit && bitEnd;
      if bitEnd {
        BitEnd();
      } else {
        timeslotStartStrobe, frameStrobe, bitStartStrobe := false, false, false;
        clockCount := (clockCount + 1) % 256;
      }
    }

    /** The registers at the end of a bit. */
    method BitEnd()
      requires timeslots >= 1
      modifies this
      ensures State() == BitStep(timeslots, old(State()))
    {
      var last := BitsPerFrame(timeslots) - 1;
      var bitCountNext := if bitCount == last then 0 else bitCount + 1;
      var phase := bitCount % 8;
      var fBitNext := bitCountNext == 0;
      var msBitNext := phase == 0 && !fBitNext;
      var timeslotNext := if frameLastBit then 0 else bitCount / 8;
      var bitNext := if frameLastBit then 0 else 7 - phase;
      var lastBitNext := bitCount == last - 1;
      bitInTimeslot, timeslotInFrame, bitCount, clockCount := bitNext, timeslotNext, bitCountNext, 0;
      Raise(fBitNext, msBitNext, phase == 7, lastBitNext, timeslotNext);
    }

    /** The flags and strobes of the bit that begins. */
    method Raise(f: bool, ms: bool, ls: bool, last: bool, timeslot: nat)
      modifies `fBit, `timeslotMsBit, `timeslotLsBit, `frameLastBit, `timeslotFirst, `timeslotLast,
               `timeslotStartStrobe, `frameStrobe, `bitStartStrobe
      ensures fBit == frameStrobe == f && timeslotMsBit == timeslotStartStrobe == ms
      ensures timeslotLsBit == ls && frameLastBit == last && bitStartStrobe
      ensures timeslotFirst == if ms then timeslot == 0 else old(timeslotFirst)
      ensures timeslotLast == if ms || f then timeslot == timeslots - 1 else old(timeslotLast)
    {
      fBit, timeslotMsBit, timeslotLsBit, frameLastBit := f, ms, ls, last;
      timeslotStartStrobe, frameStrobe, bitStartStrobe := ms, f, true;
      if ms {
        timeslotFirst, timeslotLast := timeslot == 0, timeslot == timeslots - 1;
      } else if f {
        timeslotLast := timeslot == timeslots - 1;
      }
    }
  }

  /** Every registered flag is a function of the bit position. `started` says that at least
      one bit has ended; before that the framing bit is not flagged. */
  predicate FlagsExact(timeslots: nat, t: Timing, started: bool) {
    var n := t.bitCount;
    && n <= 8 * timeslots
    && (t.fBit <==> n == 0 && started)
    && (t.timeslotMsBit <==> n % 8 == 1)
    && (t.timeslotLsBit <==> n % 8 == 0 && n > 0)
    && (t.frameLastBit <==> n == 8 * timeslots)
    && t.timeslotInFrame == (if n == 0 then 0 else (n - 1) / 8)
    && t.bitInTimeslot == (if n == 0 then 0 else 7 - (n - 1) % 8)
    && (n > 0 ==> (t.timeslotFirst <==> n <= 8) && (t.timeslotLast <==> n > 8 * (timeslots - 1)))
    && (t.frameStrobe ==> n == 0) && (t.timeslotStartStrobe ==> n % 8 == 1)
    && (t.bitStartStrobe ==> (t.frameStrobe <==> n == 0) && (t.timeslotStartStrobe <==> n % 8 == 1))
    && (!t.bitStartStrobe ==> !t.frameStrobe && !t.timeslotStartStrobe)
  }

  lemma StepKeepsFlags(timeslots: nat, t: Timing, started: bool, bitEnd: bool)
    requires timeslots >= 1 && FlagsExact(timeslots, t, started)
    ensures FlagsExact(timeslots, TimingStep(timeslots, t, bitEnd), started || bitEnd)
  {
  }

  function TimingRun(timeslots: nat, clocks: seq<bool>): Timing
    requires timeslots >= 1
  {
    if clocks == [] then RESET
    else TimingStep(timeslots, TimingRun(timeslots, clocks[..|clocks| - 1]), clocks[|clocks| - 1])
  }

  function BitEnds(clocks: seq<bool>): nat {
    if clocks == [] then 0 else BitEnds(clocks[..|clocks| - 1]) + Count(clocks[|clocks| - 1])
  }

  /** Strobes seen after each clock of a run. */
  function FrameStrobes(timeslots: nat, clocks: seq<bool>): nat
    requires timeslots >= 1
  {
    if clocks == [] then 0
    else FrameStrobes(timeslots, clocks[..|clocks| - 1]) + Count(TimingRun(timeslots, clocks).frameStrobe)
  }

  function TimeslotStarts(timeslots: nat, clocks: seq<bool>): nat
    requires timeslots >= 1
  {
    if clocks == [] then 0
    else TimeslotStarts(timeslots, clocks[..|clocks| - 1]) + Count(TimingRun(timeslots, clocks).timeslotStartStrobe)
  }

  ghost predicate PositionExact(timeslots: nat, t: Timing, bits: nat, frames: nat, starts: nat) {
    && FlagsExact(timeslots, t, bits > 0)
    && bits == frames * BitsPerFrame(timeslots) + t.bitCount
    && starts == frames * timeslots + (t.bitCount + 7) / 8
  }

  lemma PositionStep(timeslots: nat, t: Timing, bits: nat, frames: nat, starts: nat, bitEnd: bool)
    requires timeslots >= 1 && PositionExact(timeslots, t, bits, frames, starts)
    ensures var n := TimingStep(timeslots, t, bitEnd);
            PositionExact(timeslots, n, bits + Count(bitEnd), frames + Count(n.frameStrobe),
                          starts + Count(n.timeslotStartStrobe))
  {
    StepKeepsFlags(timeslots, t, bits > 0, bitEnd);
    OneMoreFrame(frames, BitsPerFrame(timeslots));
    OneMoreFrame(frames, timeslots);
  }

  /** For any spacing of the bit strobes: after `bits` bits the position is the remainder by
      the frame length, there has been one frame strobe per whole frame, and a start strobe
      for each timeslot of each whole frame and each begun since. */
  lemma {:induction false} TimingExact(timeslots: nat, clocks: seq<bool>)
    requires timeslots >= 1
    ensures PositionExact(timeslots, TimingRun(timeslots, clocks), BitEnds(clocks),
                          FrameStrobes(timeslots, clocks), TimeslotStarts(timeslots, clocks))
  {
    if clocks != [] {
      hide PositionExact, TimingStep;
      var init := clocks[..|clocks| - 1];
      TimingExact(timeslots, init);
      PositionStep(timeslots, TimingRun(timeslots, init), BitEnds(init),
                   FrameStrobes(timeslots, init), TimeslotStarts(timeslots, init), clocks[|clocks| - 1]);
    }
  }

  lemma OneMoreFrame(f: nat, b: nat)
    ensures (f + 1) * b == f * b + b
  {
  }

  lemma BitsBound(timeslots: nat, clocks: seq<bool>)
    requires timeslots >= 1
    ensures TimingRun(timeslots, clocks).bitCount < BitsPerFrame(timeslots)
  {
    TimingExact(timeslots, clocks);
  }

  /** Clocks since the newest bit end. */
  function ClocksSince(clocks: seq<bool>): nat {
    if clocks == [] then 0 else if clocks[|clocks| - 1] then 0 else 1 + ClocksSince(clocks[..|clocks| - 1])
  }

  /** The strobes and the clock counter, in every run: a bit-start strobe in the clock after each bit
      end, a timeslot-end strobe with the last bit of each timeslot, and the clocks since the
      newest bit end. */
  lemma StrobesExact(timeslots: nat, clocks: seq<bool>, bitEnd: bool)
    requires timeslots >= 1
    ensures var t := TimingRun(timeslots, clocks);
            var q := BitEnds(clocks) % BitsPerFrame(timeslots);
            && (t.bitStartStrobe <==> clocks != [] && clocks[|clocks| - 1])
            && (TimeslotEnd(t, bitEnd) <==> bitEnd && q > 0 && q % 8 == 0)
            && t.clockCount == ClocksSince(clocks) % 256
  {
    ClockCounted(timeslots, clocks);
    TimingExact(timeslots, clocks);
    hide TimingRun, FrameStrobes, TimeslotStarts, BitEnds, ClocksSince;
    ModUnique(TimingRun(timeslots, clocks).bitCount, FrameStrobes(timeslots, clocks), BitsPerFrame(timeslots));
  }

  lemma {:induction false} ClockCounted(timeslots: nat, clocks: seq<bool>)
    requires timeslots >= 1
    ensures var t := TimingRun(timeslots, clocks);
            && t.clockCount == ClocksSince(clocks) % 256
            && (t.bitStartStrobe <==> clocks != [] && clocks[|clocks| - 1])
  {
    if clocks != [] {
      hide BitStep;
      ClockCounted(timeslots, clocks[..|clocks| - 1]);
      NextCount(ClocksSince(clocks[..|clocks| - 1]));
      BitRestarts(timeslots, TimingRun(timeslots, clocks[..|clocks| - 1]));
    }
  }

  lemma NextCount(n: nat)
    ensures (n % 256 + 1) % 256 == (n + 1) % 256
  {
  }

  lemma BitRestarts(timeslots: nat, t: Timing)
    requires timeslots >= 1
    ensures BitStep(timeslots, t).clockCount == 0 && BitStep(timeslots, t).bitStartStrobe
  {
  }

  lemma PositionUnique(f: nat, n: nat, g: nat, m: nat, b: nat)
    requires n < b && m < b && f * b + n == g * b + m
    ensures f == g && n == m
  {
    ModUnique(n, f, b);
    ModUnique(m, g, b);
    assert (f - g) * b == 0;
  }

  /** Any stretch of clocks in which one frame's worth of bits ends, wherever it starts and
      however the strobes are spaced, carries exactly one frame strobe and one start strobe
      for each timeslot, and returns to the same position. */
  lemma WholeFrame(timeslots: nat, before: seq<bool>, clocks: seq<bool>)
    requires timeslots >= 1
    requires BitEnds(before + clocks) == BitEnds(before) + BitsPerFrame(timeslots)
    ensures FrameStrobes(timeslots, before + clocks) == FrameStrobes(timeslots, before) + 1
    ensures TimeslotStarts(timeslots, before + clocks) == TimeslotStarts(timeslots, before) + timeslots
    ensures TimingRun(timeslots, before + clocks).bitCount == TimingRun(timeslots, before).bitCount
  {
    hide TimingStep, TimingRun, FrameStrobes, TimeslotStarts, BitEnds, FlagsExact, BitsPerFrame;
    TimingExact(timeslots, before);
    TimingExact(timeslots, before + clocks);
    var f, g := FrameStrobes(timeslots, before), FrameStrobes(timeslots, before + clocks);
    var b := BitsPerFrame(timeslots);
    OneMoreFrame(f, b);
    OneMoreFrame(f, timeslots);
    BitsBound(timeslots, before);
    BitsBound(timeslots, before + clocks);
    PositionUnique(g, TimingRun(timeslots, before + clocks).bitCount, f + 1, TimingRun(timeslots, before).bitCount, b);
  }
}
