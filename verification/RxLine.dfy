/** The receive blocks in front of the framer adapter: what it is given follows from the serial
    lines, leaves it the time it needs, and makes each record a serial frame. */
module RxLine {
  import opened BitTiming
  import opened Chunks
  import opened GrayCode
  import opened HostPackets
  import opened Numbers
  import opened PagedFifo
  import opened PagedFifoRuns
  import opened RxFramer
  import opened RxFramerRuns
  import opened SerialBlocks
  import opened SerialRuns
  import opened SystemTiming

  /** One system clock at the pins: whether a bit ends, and each channel's two lines. */
  datatype LineClock = LineClock(bitEnd: bool, ser: nat -> bool, crc: nat -> bool)

  function Strobes(clocks: seq<LineClock>): (s: seq<bool>)
    ensures |s| == |clocks|
  {
    seq(|clocks|, i requires 0 <= i < |clocks| => clocks[i].bitEnd)
  }

  /** What one channel's receive block sees. */
  function Channel(clocks: seq<LineClock>, c: nat): (r: seq<RxClock>)
    ensures |r| == |clocks|
  {
    seq(|clocks|, i requires 0 <= i < |clocks| => RxClock(clocks[i].bitEnd, clocks[i].ser(c), clocks[i].crc(c)))
  }

  function OctetValue(o: Octet): nat { Value([o[7], o[6], o[5], o[4], o[3], o[2], o[1], o[0]]) }

  /** The report's byte of multiframe bits, the first channel's lowest. */
  function MultiframeByte(bits: seq<bool>): nat { Value(bits) % 256 }

  // ----- What the adapter is given -----

  function Octets(l: Layout, clocks: seq<LineClock>): (r: seq<int>)
    requires l.Ok()
    ensures |r| == l.channels
  {
    seq(l.channels, (c: nat) => OctetValue(RxRun(l.timeslots, Channel(clocks, c)).data))
  }

  function Flags(l: Layout, clocks: seq<LineClock>): (r: seq<int>)
    requires l.Ok()
    ensures |r| == 1
  {
    [MultiframeByte(seq(l.channels, (c: nat) => RxRun(l.timeslots, Channel(clocks, c)).mf))]
  }

  /** The adapter's inputs, clock by clock, when the lines drive the receive blocks. */
  function Cycles(l: Layout, clocks: seq<LineClock>): (r: seq<SyncCycle>)
    requires l.Ok()
    ensures |r| == |clocks|
  {
    if |clocks| == 0 then [] else
      var init, c := clocks[..|clocks| - 1], clocks[|clocks| - 1];
      Cycles(l, init) + [SyncCycle(c.bitEnd, Octets(l, init), Flags(l, init))]
  }

  function SystemCycles(evs: seq<JointEvent>): seq<SyncCycle> {
    if evs == [] then [] else
      var s := evs[|evs| - 1].s;
      SystemCycles(evs[..|evs| - 1]) + if s.Some? then [s.value] else []
  }

  /** The system clocks of a run are those of the lines. The report is the frame count and
      one byte of multiframe bits. */
  ghost predicate Driven(l: Layout, evs: seq<JointEvent>, clocks: seq<LineClock>)
    requires l.Ok()
  {
    l.report == 5 && SystemCycles(evs) == Cycles(l, clocks)
  }

  lemma DrivenIdle(l: Layout, evs: seq<JointEvent>, clocks: seq<LineClock>)
    requires l.Ok() && Driven(l, evs, clocks) && evs != [] && evs[|evs| - 1].s.None?
    ensures Driven(l, evs[..|evs| - 1], clocks)
  {
    hide Octets, Flags;
  }

  lemma DrivenStep(l: Layout, evs: seq<JointEvent>, clocks: seq<LineClock>)
    requires l.Ok() && Driven(l, evs, clocks) && evs != [] && evs[|evs| - 1].s.Some?
    ensures |clocks| > 0
    ensures var init, c := clocks[..|clocks| - 1], clocks[|clocks| - 1];
            && Driven(l, evs[..|evs| - 1], init)
            && evs[|evs| - 1].s.value == SyncCycle(c.bitEnd, Octets(l, init), Flags(l, init))
  {
    hide Octets, Flags;
    var init, c := clocks[..|clocks| - 1], clocks[|clocks| - 1];
    var cycles, before := SystemCycles(evs), SystemCycles(evs[..|evs| - 1]);
    assert before == cycles[..|cycles| - 1] && Cycles(l, init) == Cycles(l, clocks)[..|cycles| - 1];
  }

  // ----- The adapter's time -----

  /** Bits since the first bit of the timeslot that the age counts from. */
  function BitsSince(t: Timing): int {
    if t.bitCount == 1 && t.timeslotStartStrobe then 9
    else if t.bitCount == 0 || t.timeslotStartStrobe then 8
    else (t.bitCount - 1) % 8
  }

  /** The strobe of the timeslot was raised by the bit end in clock `at`. */
  ghost predicate RaisedAt(strobes: seq<bool>, since: int, at: nat) {
    && at < |strobes| && strobes[at]
    && BitEnds(strobes) == BitEnds(strobes[..at]) + 1 + since
  }

  /** While the age is short, it is exactly the time since that timeslot's strobe was raised. */
  ghost predicate AgeExact(gap: nat, strobes: seq<bool>, t: Timing, age: int) {
    age < gap ==> 1 <= age < |strobes| && RaisedAt(strobes, BitsSince(t), |strobes| - 1 - age)
  }

  ghost predicate StrobeJustRaised(strobes: seq<bool>, t: Timing) {
    t.timeslotStartStrobe || t.frameStrobe ==> strobes != [] && strobes[|strobes| - 1]
  }

  /** Eight bits leave the adapter the time to write the record, and nine to be waiting again. */
  ghost predicate Roomy(l: Layout, strobes: seq<bool>) {
    Spread(8, l.RecordTime(), strobes) && Spread(9, l.Busy(), strobes)
  }

  /** Eight bits have ended since the timeslot's strobe whenever the next strobe is up, and nine
      at the first timeslot of a frame. */
  lemma RoomAtStrobe(l: Layout, strobes: seq<bool>, t: Timing, age: int, timeslots: nat, started: bool)
    requires Roomy(l, strobes) && AgeExact(l.Busy(), strobes, t, age) && StrobeJustRaised(strobes, t)
    requires FlagsExact(timeslots, t, started) && (t.timeslotStartStrobe || t.frameStrobe)
    ensures age >= l.RecordTime() && (t.timeslotStartStrobe && t.timeslotFirst ==> age >= l.Busy())
  {
    assert BitsSince(t) >= 8 && (t.timeslotStartStrobe && t.timeslotFirst ==> BitsSince(t) == 9);
    hide FlagsExact, BitsSince;
  }

  lemma BitsSinceStep(timeslots: nat, t: Timing, bitEnd: bool, started: bool)
    requires timeslots >= 1 && FlagsExact(timeslots, t, started)
    ensures var n := TimingStep(timeslots, t, bitEnd);
            BitsSince(n) == Count(bitEnd) + if t.timeslotStartStrobe then 0 else BitsSince(t)
  {
  }

  lemma AgeStep(gap: nat, strobes: seq<bool>, t: Timing, age: int, timeslots: nat, bitEnd: bool)
    requires timeslots >= 1 && FlagsExact(timeslots, t, BitEnds(strobes) > 0)
    requires AgeExact(gap, strobes, t, age) && StrobeJustRaised(strobes, t)
    ensures var n, s := TimingStep(timeslots, t, bitEnd), strobes + [bitEnd];
            AgeExact(gap, s, n, if t.timeslotStartStrobe then 1 else age + 1)
  {
    hide TimingStep, FlagsExact, BitsSince, RaisedAt, BitEnds;
    BitsSinceStep(timeslots, t, bitEnd, BitEnds(strobes) > 0);
    if t.timeslotStartStrobe {
      RaisedNow(strobes);
      RaisedStep(strobes, 0, |strobes| - 1, bitEnd);
    } else if age < gap {
      RaisedStep(strobes, BitsSince(t), |strobes| - 1 - age, bitEnd);
    }
  }

  lemma RaisedNow(strobes: seq<bool>)
    requires strobes != [] && strobes[|strobes| - 1]
    ensures RaisedAt(strobes, 0, |strobes| - 1)
  {
  }

  lemma RaisedStep(strobes: seq<bool>, since: int, at: nat, bitEnd: bool)
    requires RaisedAt(strobes, since, at)
    ensures RaisedAt(strobes + [bitEnd], since + Count(bitEnd), at)
  {
    var s := strobes + [bitEnd];
    assert s[..|strobes|] == strobes && s[..at] == strobes[..at];
  }

  lemma StrobesStep(timeslots: nat, strobes: seq<bool>, t: Timing, bitEnd: bool)
    requires timeslots >= 1
    ensures StrobeJustRaised(strobes + [bitEnd], TimingStep(timeslots, t, bitEnd))
  {
  }

  // ----- The bytes meanwhile -----

  lemma ChannelStep(timeslots: nat, clocks: seq<LineClock>, c: LineClock, k: nat)
    requires timeslots >= 1
    ensures RxRun(timeslots, Channel(clocks + [c], k))
         == RxStep(RxRun(timeslots, Channel(clocks, k)), TimingRun(timeslots, Strobes(clocks)),
                   c.bitEnd, c.ser(k), c.crc(k))
  {
    hide RxStep, TimingRun;
    var all := Channel(clocks + [c], k);
    assert all[..|clocks|] == Channel(clocks, k);
    assert RxStrobes(Channel(clocks, k)) == Strobes(clocks);
  }

  /** The octets change only at the end of a timeslot. */
  lemma OctetsHeld(l: Layout, clocks: seq<LineClock>, c: LineClock)
    requires l.Ok() && !(c.bitEnd && TimeslotCapture(TimingRun(l.timeslots, Strobes(clocks))))
    ensures Octets(l, clocks + [c]) == Octets(l, clocks)
  {
    hide RxRun, TimingRun, OctetValue, TimeslotCapture;
    forall k | 0 <= k < l.channels ensures Octets(l, clocks + [c])[k] == Octets(l, clocks)[k] {
      ChannelStep(l.timeslots, clocks, c, k);
    }
  }

  /** A bit end that captures octets raises a timeslot's start strobe. */
  lemma CaptureStarts(timeslots: nat, t: Timing, started: bool)
    requires timeslots >= 1 && FlagsExact(timeslots, t, started) && TimeslotCapture(t)
    ensures TimingStep(timeslots, t, true).timeslotStartStrobe && !t.timeslotStartStrobe
  {
  }

  ghost predicate PaceInv(l: Layout, j: Joint, clocks: seq<LineClock>)
    requires l.Ok()
  {
    && j.t == TimingRun(l.timeslots, Strobes(clocks))
    && FlagsExact(l.timeslots, j.t, BitEnds(Strobes(clocks)) > 0)
    && StrobeJustRaised(Strobes(clocks), j.t)
    && AgeExact(l.Busy(), Strobes(clocks), j.t, j.age)
    && (j.age < l.RecordTime() ==> j.slots != [] && j.slots[|j.slots| - 1] == Octets(l, clocks))
  }

  lemma SpreadPrefix(bits: nat, gap: nat, strobes: seq<bool>, n: nat)
    requires Spread(bits, gap, strobes) && n <= |strobes|
    ensures Spread(bits, gap, strobes[..n])
  {
    hide BitEnds;
    var s := strobes[..n];
    forall i, k | 0 <= i < k < n && s[i] && s[k] ensures BitEnds(s[..k]) < BitEnds(s[..i]) + bits || k - i >= gap {
      assert s[..k] == strobes[..k] && s[..i] == strobes[..i] && strobes[i] && strobes[k];
    }
  }

  lemma PacedNow(l: Layout, j: Joint, e: JointEvent, clocks: seq<LineClock>)
    requires l.Ok() && PaceInv(l, j, clocks) && Roomy(l, Strobes(clocks))
    requires e.s.Some? ==> e.s.value.data == Octets(l, clocks)
    ensures Paced(l, j, e)
  {
    hide Octets, Roomy, AgeExact, StrobeJustRaised, TimingRun, FlagsExact;
    if j.t.timeslotStartStrobe || j.t.frameStrobe {
      RoomAtStrobe(l, Strobes(clocks), j.t, j.age, l.timeslots, BitEnds(Strobes(clocks)) > 0);
    }
  }

  lemma PaceTiming(p: Params, l: Layout, j: Joint, e: JointEvent, clocks: seq<LineClock>, c: LineClock)
    requires WellSized(p, j.w.st) && Sized(p, l, j) && CycleSized(l, e) && e.s.Some?
    requires PaceInv(l, j, clocks) && e.s.value == SyncCycle(c.bitEnd, Octets(l, clocks), Flags(l, clocks))
    ensures var n, s := JointStep(p, l, j, e), Strobes(clocks + [c]);
            && n.t == TimingStep(l.timeslots, j.t, c.bitEnd) == TimingRun(l.timeslots, s)
            && FlagsExact(l.timeslots, n.t, BitEnds(s) > 0)
            && StrobeJustRaised(s, n.t) && AgeExact(l.Busy(), s, n.t, n.age)
  {
    hide WorldStep, Overflow, OutputsOf, AdapterStep, Octets, Flags, FifoCycle, TimingStep, FlagsExact, FrameRecord,
         Report, AgeExact, StrobeJustRaised;
    var s := Strobes(clocks + [c]);
    assert s == Strobes(clocks) + [c.bitEnd] && s[..|clocks|] == Strobes(clocks);
    AgeStep(l.Busy(), Strobes(clocks), j.t, j.age, l.timeslots, c.bitEnd);
    StrobesStep(l.timeslots, Strobes(clocks), j.t, c.bitEnd);
    StepKeepsFlags(l.timeslots, j.t, BitEnds(Strobes(clocks)) > 0, c.bitEnd);
  }

  lemma StepFields(p: Params, l: Layout, j: Joint, e: JointEvent)
    requires WellSized(p, j.w.st) && Sized(p, l, j) && CycleSized(l, e) && e.s.Some?
    ensures var n, start, frame := JointStep(p, l, j, e), j.t.timeslotStartStrobe, j.t.frameStrobe;
            && n.t == TimingStep(l.timeslots, j.t, e.s.value.bitEnd)
            && n.age == (if start then 1 else j.age + 1)
            && n.slots == (if frame then [] else if start then j.slots + [e.s.value.data] else j.slots)
  {
    hide WorldStep, Overflow, OutputsOf, AdapterStep, FifoCycle, TimingStep, FrameRecord, Report;
  }

  lemma PaceStep(p: Params, l: Layout, j: Joint, e: JointEvent, clocks: seq<LineClock>, c: LineClock)
    requires WellSized(p, j.w.st) && Sized(p, l, j) && CycleSized(l, e) && e.s.Some?
    requires PaceInv(l, j, clocks) && e.s.value == SyncCycle(c.bitEnd, Octets(l, clocks), Flags(l, clocks))
    requires Roomy(l, Strobes(clocks + [c]))
    ensures PaceInv(l, JointStep(p, l, j, e), clocks + [c])
  {
    assert !(j.t.timeslotStartStrobe && j.t.frameStrobe);
    hide Octets, Flags, TimingStep, TimingRun, FlagsExact, Roomy, AgeExact, StrobeJustRaised, TimeslotCapture,
         Strobes, JointStep, BitEnds;
    PaceTiming(p, l, j, e, clocks, c);
    var n, s := JointStep(p, l, j, e), Strobes(clocks + [c]);
    StrobesPrefix(l, clocks, c);
    PacedNow(l, j, e, clocks);
    StepFields(p, l, j, e);
    if n.t.timeslotStartStrobe {
      RoomAtStrobe(l, s, n.t, n.age, l.timeslots, BitEnds(s) > 0);
    } else {
      if c.bitEnd && TimeslotCapture(j.t) { CaptureStarts(l.timeslots, j.t, BitEnds(Strobes(clocks)) > 0); }
      OctetsHeld(l, clocks, c);
    }
  }

  lemma StrobesPrefix(l: Layout, clocks: seq<LineClock>, c: LineClock)
    requires Roomy(l, Strobes(clocks + [c]))
    ensures Roomy(l, Strobes(clocks))
  {
    hide Spread;
    SpreadPrefix(8, l.RecordTime(), Strobes(clocks + [c]), |clocks|);
    SpreadPrefix(9, l.Busy(), Strobes(clocks + [c]), |clocks|);
    assert Strobes(clocks + [c])[..|clocks|] == Strobes(clocks);
  }

  /** If eight bits leave the adapter its time, whatever the lines carry and whatever the read
      side does, then every clock of the run is paced: the adapter is idle at each strobe and
      its bytes are held while it collects them. */
  lemma {:induction false} LinesPace(p: Params, l: Layout, evs: seq<JointEvent>, clocks: seq<LineClock>)
    requires p.Ok() && l.Ok() && AllSized(l, evs) && Driven(l, evs, clocks)
    requires Roomy(l, Strobes(clocks))
    ensures AllPaced(p, l, evs) && PaceInv(l, JointRun(p, l, evs), clocks)
  {
    hide JointStep, PaceInv, Roomy, Driven, Strobes, Paced, Octets, Flags, CycleSized;
    if evs == [] {
      PaceStart(p, l, evs, clocks);
    } else {
      var init, e := evs[..|evs| - 1], evs[|evs| - 1];
      if e.s.None? {
        DrivenIdle(l, evs, clocks);
        LinesPace(p, l, init, clocks);
        PaceIdle(p, l, JointRun(p, l, init), e, clocks);
        PacedNow(l, JointRun(p, l, init), e, clocks);
      } else {
        DrivenStep(l, evs, clocks);
        var before, c := clocks[..|clocks| - 1], clocks[|clocks| - 1];
        assert before + [c] == clocks;
        StrobesPrefix(l, before, c);
        LinesPace(p, l, init, before);
        PaceStep(p, l, JointRun(p, l, init), e, before, c);
        PacedNow(l, JointRun(p, l, init), e, before);
      }
      PacedJoined(p, l, evs);
    }
  }

  lemma PaceStart(p: Params, l: Layout, evs: seq<JointEvent>, clocks: seq<LineClock>)
    requires p.Ok() && l.Ok() && evs == [] && Driven(l, evs, clocks)
    ensures PaceInv(l, JointRun(p, l, evs), clocks)
  {
    assert |clocks| == 0;
  }

  lemma PaceIdle(p: Params, l: Layout, j: Joint, e: JointEvent, clocks: seq<LineClock>)
    requires WellSized(p, j.w.st) && Sized(p, l, j) && CycleSized(l, e) && e.s.None? && PaceInv(l, j, clocks)
    ensures PaceInv(l, JointStep(p, l, j, e), clocks)
  {
    hide WorldStep, Octets, FlagsExact, AgeExact, StrobeJustRaised, TimingRun;
  }

  lemma PacedJoined(p: Params, l: Layout, evs: seq<JointEvent>)
    requires p.Ok() && l.Ok() && evs != [] && AllSized(l, evs) && AllPaced(p, l, evs[..|evs| - 1])
    requires Paced(l, JointRun(p, l, evs[..|evs| - 1]), evs[|evs| - 1])
    ensures AllPaced(p, l, evs)
  {
    hide JointRun, Paced;
    var init := evs[..|evs| - 1];
    forall i | 0 <= i < |evs| ensures Paced(l, JointRun(p, l, evs[..i]), evs[i]) {
      if i < |init| { assert init[..i] == evs[..i] && init[i] == evs[i]; }
    }
  }

  /** Two system clocks for each bit, all that the recovered strobe guarantees, leave the time
      for up to fifteen channels and report bytes. */
  lemma SerialClockRoomy(l: Layout, serclk: seq<bool>, clocks: seq<LineClock>)
    requires l.channels + l.report <= 15 && Strobes(clocks) == EndStrobes(serclk)
    ensures Roomy(l, Strobes(clocks))
  {
    hide BitEnds, EndStrobes, Strobes;
    FallsSpread(serclk, 8);
    FallsSpread(serclk, 9);
  }

  // ----- The records are the serial frames -----

  /** The clocks in which a bit ends. */
  function LineBits(clocks: seq<LineClock>): (r: seq<LineClock>)
    ensures forall i :: 0 <= i < |r| ==> r[i].bitEnd
  {
    if |clocks| == 0 then [] else
      var c := clocks[|clocks| - 1];
      LineBits(clocks[..|clocks| - 1]) + if c.bitEnd then [c] else []
  }

  lemma {:induction false} ChannelBits(clocks: seq<LineClock>, c: nat)
    ensures RxBits(Channel(clocks, c)) == Channel(LineBits(clocks), c)
  {
    if |clocks| > 0 {
      var init, last := clocks[..|clocks| - 1], clocks[|clocks| - 1];
      ChannelBits(init, c);
      assert Channel(clocks, c)[..|clocks| - 1] == Channel(init, c);
      assert LineBits(clocks) == LineBits(init) + if last.bitEnd then [last] else [];
      assert Channel(LineBits(init) + [last], c)
          == Channel(LineBits(init), c) + [RxClock(last.bitEnd, last.ser(c), last.crc(c))];
    }
  }

  lemma {:induction false} LineBitsCount(clocks: seq<LineClock>)
    ensures |LineBits(clocks)| == BitEnds(Strobes(clocks))
  {
    if |clocks| > 0 {
      LineBitsCount(clocks[..|clocks| - 1]);
      assert Strobes(clocks)[..|clocks| - 1] == Strobes(clocks[..|clocks| - 1]);
    }
  }

  /** Position of the F bit of serial frame `k` among all bits: eight before system frame `k`. */
  function FBitAt(l: Layout, k: nat): int { k * BitsPerFrame(l.timeslots) - 8 }

  lemma FrameRoom(l: Layout, k: nat)
    requires l.Ok() && k >= 1
    ensures 1 <= FBitAt(l, k) && FBitAt(l, k + 1) == FBitAt(l, k) + 1 + 8 * l.timeslots
  {
    FramesBefore(k, l.timeslots);
    OneMoreFrame(k, BitsPerFrame(l.timeslots));
  }

  /** Eight bits of one channel's line, the most significant first. */
  function LineOctet(bits: seq<LineClock>, at: nat, c: nat): (o: Octet)
    requires at + 8 <= |bits|
  {
    seq(8, j requires 0 <= j < 8 => bits[at + j].ser(c))
  }

  /** The octets of all channels, in one timeslot of the serial frame whose F bit is at `f`. */
  function LineSlot(l: Layout, bits: seq<LineClock>, f: nat, n: nat): (r: seq<int>)
    requires f + 9 + 8 * n <= |bits|
    ensures |r| == l.channels
  {
    seq(l.channels, c requires 0 <= c < l.channels => OctetValue(LineOctet(bits, f + 1 + 8 * n, c)))
  }

  function LineFlags(l: Layout, bits: seq<LineClock>, f: nat): seq<int>
    requires f < |bits|
  {
    [MultiframeByte(seq(l.channels, c requires 0 <= c < l.channels => bits[f].crc(c)))]
  }

  /** The record of the `k`th frame, read off the serial lines. */
  function LineFrame(l: Layout, bits: seq<LineClock>, k: nat): seq<int>
    requires l.Ok() && k >= 1 && FBitAt(l, k + 1) <= |bits|
  {
    FrameRoom(l, k);
    FrameRecord(seq(l.timeslots, n requires 0 <= n < l.timeslots => LineSlot(l, bits, FBitAt(l, k), n)),
                Le32(k % 0x1_0000_0000) + LineFlags(l, bits, FBitAt(l, k)))
  }

  /** What the receive blocks hold while bit `q` of frame `k` arrives. */
  lemma BlocksHold(l: Layout, clocks: seq<LineClock>, k: nat, q: nat)
    requires l.Ok() && k >= 1 && q < BitsPerFrame(l.timeslots)
    requires |LineBits(clocks)| == k * BitsPerFrame(l.timeslots) + q
    ensures 1 <= FBitAt(l, k) < |LineBits(clocks)|
    ensures Flags(l, clocks) == LineFlags(l, LineBits(clocks), FBitAt(l, k))
    ensures q >= 1 ==>
      && FBitAt(l, k) + 9 + 8 * ((q - 1) / 8) <= |LineBits(clocks)|
      && Octets(l, clocks) == LineSlot(l, LineBits(clocks), FBitAt(l, k), (q - 1) / 8)
  {
    hide RxRun, LineBits, OctetValue, BitsPerFrame, MultiframeByte;
    var bits, f := LineBits(clocks), FBitAt(l, k);
    FrameRoom(l, k);
    forall c | 0 <= c < l.channels
      ensures var r := RxRun(l.timeslots, Channel(clocks, c));
              r.mf == bits[f].crc(c) && (q >= 1 ==> r.data == LineOctet(bits, f + 1 + 8 * ((q - 1) / 8), c))
    {
      BlockHolds(l, clocks, k, q, c);
    }
    assert seq(l.channels, (c: nat) => RxRun(l.timeslots, Channel(clocks, c)).mf)
        == seq(l.channels, c requires 0 <= c < l.channels => bits[f].crc(c));
  }

  lemma BlockHolds(l: Layout, clocks: seq<LineClock>, k: nat, q: nat, c: nat)
    requires l.Ok() && k >= 1 && q < BitsPerFrame(l.timeslots)
    requires |LineBits(clocks)| == k * BitsPerFrame(l.timeslots) + q
    ensures 1 <= FBitAt(l, k) < |LineBits(clocks)|
    ensures var r, bits, f := RxRun(l.timeslots, Channel(clocks, c)), LineBits(clocks), FBitAt(l, k);
            && r.mf == bits[f].crc(c)
            && (q >= 1 ==> f + 9 + 8 * ((q - 1) / 8) <= |bits|)
            && (q >= 1 ==> r.data == LineOctet(bits, f + 1 + 8 * ((q - 1) / 8), c))
  {
    hide RxRun, LineBits, BitsPerFrame, Recent;
    FrameRoom(l, k);
    ChannelBits(clocks, c);
    ReceiverRecoversFrames(l.timeslots, Channel(clocks, c), k, q);
  }

  /** The records of complete frames, and what is held of the frame in progress, are those of
      the lines. What preceded the first whole serial frame is not. */
  ghost predicate OnLines(l: Layout, j: Joint, bits: seq<LineClock>)
    requires l.Ok()
  {
    var k := |j.records|;
    && (k >= 1 ==> Begun(l, j.slots, j.flags, bits, k))
    && forall i :: 1 <= i < k ==> IsLineFrame(l, j.records[i], bits, i)
  }

  ghost predicate IsLineFrame(l: Layout, record: seq<int>, bits: seq<LineClock>, i: nat)
    requires l.Ok() && i >= 1
  {
    FBitAt(l, i + 1) <= |bits| && record == LineFrame(l, bits, i)
  }

  ghost predicate Begun(l: Layout, slots: seq<seq<int>>, flags: seq<int>, bits: seq<LineClock>, k: nat)
    requires l.Ok() && k >= 1
  {
    && 1 <= FBitAt(l, k) && FBitAt(l, k) + 1 + 8 * |slots| <= |bits|
    && flags == LineFlags(l, bits, FBitAt(l, k))
    && forall n :: 0 <= n < |slots| ==> slots[n] == LineSlot(l, bits, FBitAt(l, k), n)
  }

  ghost predicate Positioned(l: Layout, j: Joint, bits: nat) {
    bits == (|j.records| + Count(j.t.frameStrobe)) * BitsPerFrame(l.timeslots) + j.t.bitCount
  }

  lemma SlotExtends(l: Layout, bits: seq<LineClock>, c: LineClock, f: nat, n: nat)
    requires f + 9 + 8 * n <= |bits|
    ensures LineSlot(l, bits + [c], f, n) == LineSlot(l, bits, f, n)
  {
    hide OctetValue;
    forall k | 0 <= k < l.channels ensures LineSlot(l, bits + [c], f, n)[k] == LineSlot(l, bits, f, n)[k] {
      assert LineOctet(bits + [c], f + 1 + 8 * n, k) == LineOctet(bits, f + 1 + 8 * n, k);
    }
  }

  lemma FlagsExtend(l: Layout, bits: seq<LineClock>, c: LineClock, f: nat)
    requires f < |bits|
    ensures LineFlags(l, bits + [c], f) == LineFlags(l, bits, f)
  {
    assert (bits + [c])[f] == bits[f];
  }

  lemma FrameExtends(l: Layout, bits: seq<LineClock>, c: LineClock, k: nat)
    requires l.Ok() && k >= 1 && FBitAt(l, k + 1) <= |bits|
    ensures LineFrame(l, bits + [c], k) == LineFrame(l, bits, k)
  {
    hide LineSlot, LineFlags, Le32, FBitAt;
    FrameRoom(l, k);
    FlagsExtend(l, bits, c, FBitAt(l, k));
    forall n | 0 <= n < l.timeslots
      ensures LineSlot(l, bits + [c], FBitAt(l, k), n) == LineSlot(l, bits, FBitAt(l, k), n)
    {
      SlotExtends(l, bits, c, FBitAt(l, k), n);
    }
    assert seq(l.timeslots, n requires 0 <= n < l.timeslots => LineSlot(l, bits + [c], FBitAt(l, k), n))
        == seq(l.timeslots, n requires 0 <= n < l.timeslots => LineSlot(l, bits, FBitAt(l, k), n));
  }

  lemma LinesExtend(l: Layout, j: Joint, bits: seq<LineClock>, c: LineClock)
    requires l.Ok() && OnLines(l, j, bits)
    ensures OnLines(l, j, bits + [c])
  {
    hide LineSlot, LineFlags, LineFrame, FBitAt;
    var k := |j.records|;
    if k >= 1 {
      FlagsExtend(l, bits, c, FBitAt(l, k));
      forall n | 0 <= n < |j.slots| ensures j.slots[n] == LineSlot(l, bits + [c], FBitAt(l, k), n) {
        SlotExtends(l, bits, c, FBitAt(l, k), n);
      }
    }
    forall i | 1 <= i < k ensures IsLineFrame(l, j.records[i], bits + [c], i) {
      assert IsLineFrame(l, j.records[i], bits, i);
      FrameExtends(l, bits, c, i);
    }
  }

  lemma PositionedStep(p: Params, l: Layout, j: Joint, e: JointEvent, bits: nat, started: bool)
    requires WellSized(p, j.w.st) && Sized(p, l, j) && CycleSized(l, e) && e.s.Some?
    requires FlagsExact(l.timeslots, j.t, started) && Positioned(l, j, bits)
    ensures Positioned(l, JointStep(p, l, j, e), bits + Count(e.s.value.bitEnd))
  {
    hide WorldStep, Overflow, OutputsOf, AdapterStep, FifoCycle, FrameRecord, Report;
    OneMoreFrame(|j.records| + Count(j.t.frameStrobe), BitsPerFrame(l.timeslots));
  }

  /** A completed frame becomes its record. */
  lemma FrameDone(l: Layout, slots: seq<seq<int>>, flags: seq<int>, bits: seq<LineClock>, k: nat)
    requires l.Ok() && k >= 1 && Begun(l, slots, flags, bits, k) && |slots| == l.timeslots
    requires FBitAt(l, k + 1) <= |bits|
    ensures IsLineFrame(l, FrameRecord(slots, Le32(k % 0x1_0000_0000) + flags), bits, k)
  {
    hide LineSlot, LineFlags, Le32, FBitAt, Flatten;
    FrameRoom(l, k);
    assert slots == seq(l.timeslots, n requires 0 <= n < l.timeslots => LineSlot(l, bits, FBitAt(l, k), n));
  }

  lemma SlotFacts(l: Layout, j: Joint) returns (started: bool)
    requires SlotsInv(l, j)
    ensures FlagsExact(l.timeslots, j.t, started)
    ensures !(j.t.timeslotStartStrobe && j.t.frameStrobe) && j.t.bitCount < BitsPerFrame(l.timeslots)
    ensures j.t.frameStrobe ==> j.t.bitCount == 0 && |j.slots| == l.timeslots
    ensures j.t.timeslotStartStrobe ==> j.t.bitCount >= 1 && (j.t.bitCount - 1) / 8 == |j.slots|
  {
    started :| FlagsExact(l.timeslots, j.t, started);
  }

  lemma OnLinesFrame(l: Layout, j: Joint, n: Joint, clocks: seq<LineClock>)
    requires l.Ok() && OnLines(l, j, LineBits(clocks)) && Positioned(l, j, |LineBits(clocks)|)
    requires j.t.frameStrobe && j.t.bitCount == 0 && |j.slots| == l.timeslots
    requires n.slots == [] && n.flags == Flags(l, clocks)
    requires n.records == j.records + [FrameRecord(j.slots, Le32(|j.records| % 0x1_0000_0000) + j.flags)]
    ensures OnLines(l, n, LineBits(clocks))
  {
    hide FrameRecord, LineFlags, IsLineFrame, Flags, LineBits, BitsPerFrame, Le32;
    var k, bits := |j.records|, LineBits(clocks);
    assert n.records[k] == FrameRecord(j.slots, Le32(k % 0x1_0000_0000) + j.flags);
    FrameBits(l);
    BlocksHold(l, clocks, k + 1, 0);
    if k >= 1 { FrameDone(l, j.slots, j.flags, bits, k); }
    assert Begun(l, n.slots, n.flags, bits, k + 1);
    hide Begun;
    forall i | 1 <= i <= k ensures IsLineFrame(l, n.records[i], bits, i) {
      if i < k { assert IsLineFrame(l, j.records[i], bits, i); }
    }
  }

  lemma FrameBits(l: Layout)
    ensures BitsPerFrame(l.timeslots) >= 1
  {
  }

  lemma OnLinesStart(l: Layout, j: Joint, n: Joint, clocks: seq<LineClock>)
    requires l.Ok() && OnLines(l, j, LineBits(clocks)) && Positioned(l, j, |LineBits(clocks)|)
    requires !j.t.frameStrobe && 1 <= j.t.bitCount < BitsPerFrame(l.timeslots)
    requires (j.t.bitCount - 1) / 8 == |j.slots|
    requires n.slots == j.slots + [Octets(l, clocks)] && n.flags == j.flags && n.records == j.records
    ensures OnLines(l, n, LineBits(clocks))
  {
    hide LineSlot, LineFlags, IsLineFrame, Octets, Flags, LineBits, BitsPerFrame;
    if |j.records| >= 1 { BlocksHold(l, clocks, |j.records|, j.t.bitCount); }
  }

  lemma OnLinesStep(p: Params, l: Layout, j: Joint, e: JointEvent, clocks: seq<LineClock>, bitEnd: bool)
    requires WellSized(p, j.w.st) && Sized(p, l, j) && CycleSized(l, e) && e.s.Some?
    requires e.s.value == SyncCycle(bitEnd, Octets(l, clocks), Flags(l, clocks))
    requires SlotsInv(l, j) && RecordsInv(l, j) && OnLines(l, j, LineBits(clocks))
    requires Positioned(l, j, |LineBits(clocks)|)
    ensures OnLines(l, JointStep(p, l, j, e), LineBits(clocks))
  {
    hide SlotsInv, FrameRecord, Begun, IsLineFrame, Octets, Flags, LineBits, BitsPerFrame, JointStep, FlagsExact,
         Le32, CountedRecord, Positioned, WellSized;
    var started := SlotFacts(l, j);
    StepFields(p, l, j, e);
    StepRecords(p, l, j, e);
    var n := JointStep(p, l, j, e);
    if j.t.frameStrobe {
      OnLinesFrame(l, j, n, clocks);
    } else if j.t.timeslotStartStrobe {
      OnLinesStart(l, j, n, clocks);
    } else {
      assert n.records == j.records;
    }
  }

  lemma StepRecords(p: Params, l: Layout, j: Joint, e: JointEvent)
    requires WellSized(p, j.w.st) && Sized(p, l, j) && CycleSized(l, e) && e.s.Some?
    ensures var n, frame := JointStep(p, l, j, e), j.t.frameStrobe;
            && n.flags == (if frame then e.s.value.flags else j.flags)
            && n.records == j.records + (if frame then [FrameRecord(j.slots, Le32(j.frameCount) + j.flags)] else [])
            && n.granted == j.granted + if frame then [!Overflow(p, j.w.st.ctr, FifoEvent(l, j, e))] else []
  {
    hide WorldStep, Overflow, AdapterStep, FifoCycle, TimingStep, FrameRecord, Le32;
  }

  lemma {:induction false} LinesRecorded(p: Params, l: Layout, evs: seq<JointEvent>, clocks: seq<LineClock>)
    requires p.Ok() && l.Ok() && p.pageSize >= l.RecordSize() && AllSized(l, evs) && Driven(l, evs, clocks)
    requires Roomy(l, Strobes(clocks))
    ensures OnLines(l, JointRun(p, l, evs), LineBits(clocks))
    ensures Positioned(l, JointRun(p, l, evs), |LineBits(clocks)|)
  {
    hide JointStep, OnLines, Positioned, Roomy, Driven, Strobes, Paced, Octets, Flags, CycleSized, PaceInv, SpacedBy,
         PageInv, LogInv, StrobeInv, AdapterInv, SlotsInv, RecordsInv, WellSized;
    if evs == [] {
      RecordedStart(p, l, evs, clocks);
    } else {
      var init, e := evs[..|evs| - 1], evs[|evs| - 1];
      var j := JointRun(p, l, init);
      if e.s.None? {
        DrivenIdle(l, evs, clocks);
        LinesRecorded(p, l, init, clocks);
        RecordedIdle(p, l, j, e, LineBits(clocks));
      } else {
        DrivenStep(l, evs, clocks);
        var before, c := clocks[..|clocks| - 1], clocks[|clocks| - 1];
        assert before + [c] == clocks;
        StrobesPrefix(l, before, c);
        LinesRecorded(p, l, init, before);
        LinesPace(p, l, init, before);
        JointCore(p, l, init);
        RecordedStep(p, l, j, e, before, c);
      }
    }
  }

  lemma RecordedStart(p: Params, l: Layout, evs: seq<JointEvent>, clocks: seq<LineClock>)
    requires p.Ok() && l.Ok() && evs == [] && Driven(l, evs, clocks)
    ensures OnLines(l, JointRun(p, l, evs), LineBits(clocks))
    ensures Positioned(l, JointRun(p, l, evs), |LineBits(clocks)|)
  {
    assert |clocks| == 0;
  }

  lemma RecordedIdle(p: Params, l: Layout, j: Joint, e: JointEvent, bits: seq<LineClock>)
    requires WellSized(p, j.w.st) && Sized(p, l, j) && CycleSized(l, e) && e.s.None?
    requires OnLines(l, j, bits) && Positioned(l, j, |bits|)
    ensures OnLines(l, JointStep(p, l, j, e), bits) && Positioned(l, JointStep(p, l, j, e), |bits|)
  {
    hide WorldStep, Begun, IsLineFrame;
  }

  lemma RecordedStep(p: Params, l: Layout, j: Joint, e: JointEvent, clocks: seq<LineClock>, c: LineClock)
    requires WellSized(p, j.w.st) && Sized(p, l, j) && CycleSized(l, e) && e.s.Some?
    requires e.s.value == SyncCycle(c.bitEnd, Octets(l, clocks), Flags(l, clocks))
    requires SlotsInv(l, j) && RecordsInv(l, j) && OnLines(l, j, LineBits(clocks))
    requires Positioned(l, j, |LineBits(clocks)|)
    ensures var n, bits := JointStep(p, l, j, e), LineBits(clocks + [c]);
            OnLines(l, n, bits) && Positioned(l, n, |bits|)
  {
    hide JointStep, SlotsInv, RecordsInv, OnLines, Positioned, LineBits, Octets, Flags, CycleSized, WellSized,
         FlagsExact;
    var started := SlotFacts(l, j);
    OneMoreBit(clocks, c);
    PositionedStep(p, l, j, e, |LineBits(clocks)|, started);
    OnLinesStep(p, l, j, e, clocks, c.bitEnd);
    if c.bitEnd {
      LinesExtend(l, JointStep(p, l, j, e), LineBits(clocks), c);
    } else {
      assert LineBits(clocks + [c]) == LineBits(clocks);
    }
  }

  lemma OneMoreBit(clocks: seq<LineClock>, c: LineClock)
    ensures LineBits(clocks + [c]) == LineBits(clocks) + if c.bitEnd then [c] else []
  {
    assert (clocks + [c])[..|clocks|] == clocks;
  }

  /** From the pins to the records: each record after the first is exactly one serial frame, of
      which the F bit arrived eight bits before the system frame: its octets at their places,
      the frame's number, and the multiframe bits that came with its F bit. */
  lemma RecordsAreSerialFrames(p: Params, l: Layout, evs: seq<JointEvent>, clocks: seq<LineClock>, i: nat)
    requires p.Ok() && l.Ok() && p.pageSize >= l.RecordSize() && AllSized(l, evs) && Driven(l, evs, clocks)
    requires Roomy(l, Strobes(clocks))
    requires 1 <= i < |JointRun(p, l, evs).records|
    ensures FBitAt(l, i + 1) <= |LineBits(clocks)|
    ensures JointRun(p, l, evs).records[i] == LineFrame(l, LineBits(clocks), i)
  {
    hide JointRun, LineBits, Strobes, Roomy, Driven, LineFrame, Begun, FBitAt;
    LinesRecorded(p, l, evs, clocks);
    assert IsLineFrame(l, JointRun(p, l, evs).records[i], LineBits(clocks), i);
  }
}
