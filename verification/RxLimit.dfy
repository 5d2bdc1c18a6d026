/** How many channels the framer adapter has time for. */
module RxLimit {
  import AsyncFifo
  import opened BitTiming
  import opened Chunks
  import opened GrayCode
  import opened HostPackets
  import opened Numbers
  import opened PagedFifo
  import opened PagedFifoRuns
  import opened RxFramer
  import opened RxFramerRuns
  import opened RxLine
  import opened SerialRuns
  import opened SystemTiming
  import opened Wrappers

  /** The pages committed are the frame records that the FIFO took, in order. */
  ghost predicate Committed(l: Layout, j: Joint) {
    && |j.records| == |j.granted|
    && (forall i :: 0 <= i < |j.w.hist.log| ==> |j.w.hist.log[i]| >= l.RecordSize())
    && Trim(j.w.hist.log, l.RecordSize()) == Taken(j.records, j.granted)
  }

  /** So it is in every run, whatever the serial clock does, the lines carry and the reader does. */
  ghost predicate AlwaysCommitted(p: Params, l: Layout)
    requires p.Ok() && l.Ok()
  {
    forall serclk, clocks, evs :: Strobes(clocks) == EndStrobes(serclk) && Driven(l, evs, clocks) ==>
      !AllSized(l, evs) || Committed(l, JointRun(p, l, evs))
  }

  // ----- Runs with one event for each clock of the lines -----

  function LineEvents(l: Layout, clocks: seq<LineClock>): (r: seq<JointEvent>)
    requires l.Ok()
    ensures |r| == |clocks|
  {
    var cycles := Cycles(l, clocks);
    seq(|clocks|, i requires 0 <= i < |clocks| => JointEvent(Some(cycles[i]), None, [], []))
  }

  lemma LineEventsPrefix(l: Layout, clocks: seq<LineClock>)
    requires l.Ok() && |clocks| > 0
    ensures var init, c := clocks[..|clocks| - 1], clocks[|clocks| - 1];
            && LineEvents(l, clocks)[..|clocks| - 1] == LineEvents(l, init)
            && LineEvents(l, clocks)[|clocks| - 1].s == Some(SyncCycle(c.bitEnd, Octets(l, init), Flags(l, init)))
  {
    hide Octets, Flags;
  }

  lemma {:induction false} LineEventsDriven(l: Layout, clocks: seq<LineClock>)
    requires l.Ok() && l.report == 5
    ensures AllSized(l, LineEvents(l, clocks)) && Driven(l, LineEvents(l, clocks), clocks)
  {
    hide Octets, Flags;
    if |clocks| > 0 {
      var init, evs := clocks[..|clocks| - 1], LineEvents(l, clocks);
      LineEventsDriven(l, init);
      LineEventsPrefix(l, clocks);
      forall i | 0 <= i < |evs| ensures CycleSized(l, evs[i]) {
        if i < |init| { assert CycleSized(l, LineEvents(l, init)[i]); }
      }
    }
  }

  // ----- A serial clock that hurries at the end of the second frame -----

  /** The bit end that raises the last timeslot of the second frame. */
  function LastStart(l: Layout): (n: nat)
    requires l.Ok()
  {
    16 * l.timeslots - 6
  }

  /** Until then each bit takes the adapter's whole time, afterwards two clocks. */
  function Slow(l: Layout): (n: nat)
    requires l.Ok()
  {
    LastStart(l) * l.Busy()
  }

  predicate LateEnd(l: Layout, i: nat)
    requires l.Ok()
  {
    if i < Slow(l) then i % l.Busy() == l.Busy() - 1 else (i - Slow(l)) % 2 == 1
  }

  function LateClocks(l: Layout, n: nat): (r: seq<LineClock>)
    requires l.Ok()
    ensures |r| == n
  {
    seq(n, i requires 0 <= i < n => LineClock(LateEnd(l, i), c => false, c => true))
  }

  function Late(l: Layout, n: nat): seq<JointEvent>
    requires l.Ok()
  {
    LineEvents(l, LateClocks(l, n))
  }

  function LateStrobes(l: Layout, n: nat): (r: seq<bool>)
    requires l.Ok()
    ensures |r| == n
  {
    Strobes(LateClocks(l, n))
  }

  lemma SlowWhole(l: Layout)
    requires l.Ok()
    ensures LastStart(l) >= 10 && Slow(l) >= l.Busy() >= 8
    ensures Slow(l) / l.Busy() == LastStart(l) && (Slow(l) - 1) % l.Busy() == l.Busy() - 1
  {
    var n, s := LastStart(l), l.Busy();
    assert (n - 1) * s >= 0 && n * s == (n - 1) * s + s;
    QuotientOf(n * s, s, n, 0);
    QuotientOf(n * s - 1, s, n - 1, s - 1);
  }

  lemma QuotientOf(x: int, s: nat, q: int, r: int)
    requires 0 <= r < s && x == q * s + r
    ensures x / s == q && x % s == r
  {
    ModUnique(r, q, s);
    assert s * (x / s) == s * q;
    assert s * (x / s - q) == 0;
  }

  lemma NextQuotient(i: nat, s: nat)
    requires s >= 2
    ensures (i + 1) / s == i / s + Count(i % s == s - 1)
    ensures i % s == s - 1 ==> (i + 1) % s == 0
  {
    var q, r := i / s, i % s;
    assert i == q * s + r;
    if r == s - 1 {
      assert (q + 1) * s == q * s + s;
      QuotientOf(i + 1, s, q + 1, 0);
    } else {
      QuotientOf(i + 1, s, q, r + 1);
    }
  }

  lemma LateStep(l: Layout, n: nat)
    requires l.Ok()
    ensures LateClocks(l, n + 1) == LateClocks(l, n) + [LateClocks(l, n + 1)[n]]
    ensures LateClocks(l, n + 1)[..n] == LateClocks(l, n) && LateClocks(l, n + 1)[n].bitEnd == LateEnd(l, n)
    ensures LateStrobes(l, n + 1) == LateStrobes(l, n) + [LateEnd(l, n)]
  {
  }

  lemma OneMoreClock(l: Layout, n: nat)
    requires l.Ok()
    ensures BitEnds(LateStrobes(l, n + 1)) == BitEnds(LateStrobes(l, n)) + Count(LateEnd(l, n))
  {
    LateStep(l, n);
    hide LateStrobes, LateEnd;
    OneMoreStrobe(LateStrobes(l, n), LateEnd(l, n));
  }

  lemma OneMoreStrobe(strobes: seq<bool>, bitEnd: bool)
    ensures BitEnds(strobes + [bitEnd]) == BitEnds(strobes) + Count(bitEnd)
  {
    assert (strobes + [bitEnd])[..|strobes|] == strobes;
  }

  lemma {:induction false} SlowBits(l: Layout, n: nat)
    requires l.Ok() && n <= Slow(l)
    ensures BitEnds(LateStrobes(l, n)) == n / l.Busy()
  {
    hide LateStrobes, Slow;
    if n > 0 {
      SlowBits(l, n - 1);
      OneMoreClock(l, n - 1);
      NextQuotient(n - 1, l.Busy());
    } else {
      NoBits(l);
      QuotientOf(0, l.Busy(), 0, 0);
    }
  }

  lemma NoBits(l: Layout)
    requires l.Ok()
    ensures BitEnds(LateStrobes(l, 0)) == 0
  {
  }

  lemma FastEnd(l: Layout, a: nat)
    requires l.Ok()
    ensures LateEnd(l, Slow(l) + a) <==> a % 2 == 1
  {
    hide Slow;
  }

  lemma {:induction false} LateBits(l: Layout, a: nat)
    requires l.Ok()
    ensures BitEnds(LateStrobes(l, Slow(l) + a)) == LastStart(l) + a / 2
  {
    if a > 0 {
      hide LateStrobes, LateEnd, Slow, LastStart, BitEnds;
      LateBits(l, a - 1);
      OneMoreClock(l, Slow(l) + a - 1);
      FastEnd(l, a - 1);
    } else {
      SlowWhole(l);
      hide LateStrobes, Slow, LastStart, BitEnds;
      SlowBits(l, Slow(l));
    }
  }

  /** The strobes never come in two successive clocks. */
  lemma LateSparse(l: Layout, n: nat)
    requires l.Ok()
    ensures forall x :: 0 <= x < n && LateStrobes(l, n)[x] ==> x >= 3
    ensures forall x :: 1 <= x < n && LateStrobes(l, n)[x] ==> !LateStrobes(l, n)[x - 1]
  {
    SlowWhole(l);
    hide LastStart, Slow;
    forall x | 0 <= x < n && LateStrobes(l, n)[x] ensures x >= 3 {
      if x < 3 { QuotientOf(x, l.Busy(), 0, x); }
    }
    forall x | 1 <= x < n && LateStrobes(l, n)[x] ensures !LateStrobes(l, n)[x - 1] {
      if x <= Slow(l) { NextQuotient(x - 1, l.Busy()); }
    }
  }

  lemma SameResidue(i: nat, k: nat, s: nat)
    requires s >= 1 && i < k && i % s == k % s
    ensures k - i >= s
  {
    var a, b := i / s, k / s;
    assert i == a * s + i % s && k == b * s + k % s;
    if b <= a {
      MulMonotone(b, a, s);
    } else {
      MulMonotone(a + 1, b, s);
      assert (a + 1) * s == a * s + s;
    }
  }

  /** Up to its last bit but one the run leaves all the time there is. */
  lemma LateRoomy(l: Layout)
    requires l.Ok()
    ensures Roomy(l, Strobes(LateClocks(l, Slow(l) + 15)))
  {
    var n := Slow(l) + 15;
    var s := LateStrobes(l, n);
    SlowWhole(l);
    LateSparse(l, n);
    forall i, k | 0 <= i < k < n && s[i] && s[k] ensures BitEnds(s[..k]) < BitEnds(s[..i]) + 8 || k - i >= l.Busy() {
      hide LastStart, Slow, BitEnds;
      SparseStrobes(s, i, k);
      if i < Slow(l) - 1 {
        SameResidue(i, Slow(l) - 1, l.Busy());
        if k < Slow(l) { SameResidue(i, k, l.Busy()); }
      }
    }
  }

  lemma LatePaced(p: Params, l: Layout, n: nat)
    requires p.Ok() && l.Ok() && l.report == 5 && Roomy(l, Strobes(LateClocks(l, n)))
    ensures AllSized(l, Late(l, n)) && AllPaced(p, l, Late(l, n))
    ensures PaceInv(l, JointRun(p, l, Late(l, n)), LateClocks(l, n))
  {
    hide Late, LateClocks, AllPaced, PaceInv, Roomy, Driven, AllSized;
    LateSized(l, n);
    LinesPace(p, l, Late(l, n), LateClocks(l, n));
  }

  lemma LatePacedNext(p: Params, l: Layout, n: nat)
    requires p.Ok() && l.Ok() && l.report == 5 && Roomy(l, Strobes(LateClocks(l, n)))
    ensures AllSized(l, Late(l, n + 1)) && AllPaced(p, l, Late(l, n + 1))
  {
    hide Late, LateClocks, AllPaced, PaceInv, Roomy, Driven, AllSized, JointRun, Paced, Octets, Flags;
    LateSized(l, n + 1);
    LatePaced(p, l, n);
    LateNext(l, n);
    PacedNow(l, JointRun(p, l, Late(l, n)), Late(l, n + 1)[n], LateClocks(l, n));
    PacedJoined(p, l, Late(l, n + 1));
  }

  lemma LateSized(l: Layout, n: nat)
    requires l.Ok() && l.report == 5
    ensures AllSized(l, Late(l, n)) && Driven(l, Late(l, n), LateClocks(l, n)) && |Late(l, n)| == n
  {
    LineEventsDriven(l, LateClocks(l, n));
  }

  lemma LateNext(l: Layout, n: nat)
    requires l.Ok()
    ensures |Late(l, n + 1)| == n + 1 && Late(l, n + 1)[..n] == Late(l, n)
    ensures Late(l, n + 1)[n].s
         == Some(SyncCycle(LateEnd(l, n), Octets(l, LateClocks(l, n)), Flags(l, LateClocks(l, n))))
  {
    hide Octets, Flags;
    LateStep(l, n);
    LineEventsPrefix(l, LateClocks(l, n + 1));
  }

  // ----- The clock in which the second frame ends -----

  lemma LastStrobe(timeslots: nat, s: seq<bool>)
    requires timeslots >= 1 && s != []
    ensures TimingRun(timeslots, s).bitStartStrobe == s[|s| - 1]
  {
  }

  lemma LatePosition(l: Layout, a: nat)
    requires l.Ok() && a <= 16
    ensures var s := LateStrobes(l, Slow(l) + a);
            var t := TimingRun(l.timeslots, s);
            && FlagsExact(l.timeslots, t, BitEnds(s) > 0) && BitEnds(s) == LastStart(l) + a / 2
            && t.bitCount == if a < 16 then 8 * l.timeslots - 7 + a / 2 else 0
  {
    LateBits(l, a);
    hide LateStrobes, Slow, TimingRun, FrameStrobes, TimeslotStarts, FlagsExact, BitEnds;
    var s := LateStrobes(l, Slow(l) + a);
    TimingExact(l.timeslots, s);
    BitsBound(l.timeslots, s);
    var frames, q, b := FrameStrobes(l.timeslots, s), TimingRun(l.timeslots, s).bitCount, BitsPerFrame(l.timeslots);
    if a < 16 {
      PositionUnique(frames, q, 1, 8 * l.timeslots - 7 + a / 2, b);
    } else {
      PositionUnique(frames, q, 2, 0, b);
    }
  }

  lemma LateTiming(l: Layout, a: nat)
    requires l.Ok() && a <= 16
    ensures var t := TimingRun(l.timeslots, LateStrobes(l, Slow(l) + a));
            && (t.timeslotStartStrobe <==> a == 0)
            && (a == 16 ==> t.frameStrobe && t.bitCount == 0)
  {
    LatePosition(l, a);
    SlowWhole(l);
    LastEnd(l, a);
    hide Slow, LastStart, TimingRun, BitEnds, LateStrobes, LateEnd;
    LastStrobe(l.timeslots, LateStrobes(l, Slow(l) + a));
  }

  lemma LastEnd(l: Layout, a: nat)
    requires l.Ok() && a <= 16
    ensures Slow(l) > 0 && (LateStrobes(l, Slow(l) + a)[Slow(l) + a - 1] <==> a % 2 == 0)
  {
    SlowWhole(l);
    hide Slow, LastStart;
  }

  lemma {:induction false} LateFollows(p: Params, l: Layout, n: nat)
    requires p.Ok() && l.Ok() && l.report == 5 && AllSized(l, Late(l, n))
    ensures JointRun(p, l, Late(l, n)).t == TimingRun(l.timeslots, LateStrobes(l, n))
  {
    hide Late, LateStrobes, LateEnd, JointStep, TimingStep, Octets, Flags;
    if n > 0 {
      LateNext(l, n - 1);
      LateSized(l, n - 1);
      LateStep(l, n - 1);
      LateFollows(p, l, n - 1);
      LastStep(p, l, Late(l, n));
      LastSized(l, Late(l, n));
      LastTiming(l.timeslots, LateStrobes(l, n - 1), LateEnd(l, n - 1));
      hide JointRun, TimingRun, AllSized;
      StepFields(p, l, JointRun(p, l, Late(l, n - 1)), Late(l, n)[n - 1]);
    } else {
      LateSized(l, 0);
      assert Late(l, 0) == [] && LateStrobes(l, 0) == [];
    }
  }

  lemma LastTiming(timeslots: nat, strobes: seq<bool>, bitEnd: bool)
    requires timeslots >= 1
    ensures TimingRun(timeslots, strobes + [bitEnd]) == TimingStep(timeslots, TimingRun(timeslots, strobes), bitEnd)
  {
    assert (strobes + [bitEnd])[..|strobes|] == strobes;
  }

  /** Sixteen clocks is all the last timeslot gets. */
  lemma {:induction false} LateAge(p: Params, l: Layout, a: nat)
    requires p.Ok() && l.Ok() && l.report == 5 && 1 <= a <= 16 && AllSized(l, Late(l, Slow(l) + a))
    ensures JointRun(p, l, Late(l, Slow(l) + a)).age == a
  {
    hide Late, LateStrobes, LateEnd, JointStep, TimingRun, Octets, Flags, Slow;
    var n := Slow(l) + a - 1;
    LateNext(l, n);
    LateSized(l, n);
    LateFollows(p, l, n);
    LateTiming(l, a - 1);
    if a > 1 { LateAge(p, l, a - 1); }
    StepFields(p, l, JointRun(p, l, Late(l, n)), Late(l, n + 1)[n]);
  }

  ghost predicate CrcHigh(clocks: seq<LineClock>) { forall i :: 0 <= i < |clocks| ==> clocks[i].crc(0) }

  lemma {:induction false} BitsHigh(clocks: seq<LineClock>)
    requires CrcHigh(clocks)
    ensures CrcHigh(LineBits(clocks))
  {
    if |clocks| > 0 { BitsHigh(clocks[..|clocks| - 1]); }
  }

  lemma OddByte(bits: seq<bool>)
    requires bits != [] && bits[0]
    ensures MultiframeByte(bits) != 0
  {
  }

  lemma FlagsHigh(l: Layout, bits: seq<LineClock>, f: nat)
    requires l.Ok() && CrcHigh(bits) && f < |bits|
    ensures LineFlags(l, bits, f)[0] != 0
  {
    OddByte(seq(l.channels, c requires 0 <= c < l.channels => bits[f].crc(c)));
  }

  lemma OneRecord(l: Layout, records: nat)
    requires l.Ok() && (records + 1) * BitsPerFrame(l.timeslots) == 2 * BitsPerFrame(l.timeslots)
    ensures records == 1
  {
    PositionUnique(records + 1, 0, 2, 0, BitsPerFrame(l.timeslots));
  }

  lemma DueRecord(l: Layout, j: Joint, bits: seq<LineClock>)
    requires l.Ok() && OnLines(l, j, bits) && Positioned(l, j, |bits|) && CrcHigh(bits)
    requires j.t.frameStrobe && j.t.bitCount == 0 && |bits| == 2 * BitsPerFrame(l.timeslots)
    ensures |j.records| == 1 && |j.flags| == 1 && j.flags[0] != 0
  {
    OneRecord(l, |j.records|);
    hide LineSlot, IsLineFrame;
    FlagsHigh(l, bits, FBitAt(l, 1));
  }

  lemma LateBitCount(l: Layout)
    requires l.Ok()
    ensures |LineBits(LateClocks(l, Slow(l) + 16))| == 2 * BitsPerFrame(l.timeslots)
    ensures CrcHigh(LineBits(LateClocks(l, Slow(l) + 16)))
  {
    var n := Slow(l) + 16;
    LatePosition(l, 16);
    LineBitsCount(LateClocks(l, n));
    LateHigh(l, n);
    BitsHigh(LateClocks(l, n));
    hide TimingRun, LineBits, Slow, LateClocks, CrcHigh, BitEnds, SystemTiming.FlagsExact;
  }

  lemma LateDue(p: Params, l: Layout)
    requires p.Ok() && l.Ok() && l.report == 5
    ensures AllSized(l, Late(l, Slow(l) + 16)) && AllPaced(p, l, Late(l, Slow(l) + 16))
    ensures var j := JointRun(p, l, Late(l, Slow(l) + 16));
            j.t.frameStrobe && j.t.bitCount == 0 && !j.t.timeslotStartStrobe && j.age == 16
  {
    hide Late, LateStrobes, LateClocks, JointRun, TimingRun, Slow, Roomy, AllPaced, AllSized;
    LateRoomy(l);
    LatePacedNext(p, l, Slow(l) + 15);
    LateAge(p, l, 16);
    LateFollows(p, l, Slow(l) + 16);
    LateTiming(l, 16);
  }

  /** What the second frame's end finds: its record is due, with a last byte that is not zero. */
  lemma LateRecord(p: Params, l: Layout)
    requires p.Ok() && l.Ok() && l.report == 5 && p.pageSize >= l.RecordSize()
    ensures AllSized(l, Late(l, Slow(l) + 16))
    ensures var j := JointRun(p, l, Late(l, Slow(l) + 16));
            |j.records| == 1 && |j.flags| == 1 && j.flags[0] != 0
  {
    hide Late, LateClocks, JointRun, Slow, Roomy, AllPaced, AllSized, OnLines, Positioned, LineBits, CrcHigh,
         BitsPerFrame;
    LateDue(p, l);
    LateRoomy(l);
    LateOnLines(p, l, Slow(l) + 15);
    LateBitCount(l);
    DueRecord(l, JointRun(p, l, Late(l, Slow(l) + 16)), LineBits(LateClocks(l, Slow(l) + 16)));
  }

  lemma LateHigh(l: Layout, n: nat)
    requires l.Ok()
    ensures CrcHigh(LateClocks(l, n))
  {
  }

  lemma LateOnLines(p: Params, l: Layout, n: nat)
    requires p.Ok() && l.Ok() && l.report == 5 && p.pageSize >= l.RecordSize()
    requires Roomy(l, Strobes(LateClocks(l, n))) && AllSized(l, Late(l, n + 1))
    ensures var j, bits := JointRun(p, l, Late(l, n + 1)), LineBits(LateClocks(l, n + 1));
            OnLines(l, j, bits) && Positioned(l, j, |bits|)
  {
    hide Late, LateClocks, JointStep, OnLines, Positioned, LineBits, Roomy, AllPaced, Octets, Flags, Driven, PageInv,
         LogInv, StrobeInv, AdapterInv, SlotsInv, RecordsInv, WellSized, SpacedBy, CycleSized;
    LateSized(l, n);
    LateNext(l, n);
    LateStep(l, n);
    LatePaced(p, l, n);
    LinesRecorded(p, l, Late(l, n), LateClocks(l, n));
    JointCore(p, l, Late(l, n));
    RecordedStep(p, l, JointRun(p, l, Late(l, n)), Late(l, n + 1)[n], LateClocks(l, n), LateClocks(l, n + 1)[n]);
  }

  // ----- A byte that is not there -----

  predicate Deep(p: Params, l: Layout) { p.Ok() && l.Ok() && p.Depth() >= 4 && p.pageSize >= l.RecordSize() }

  /** The last byte of a record, on the second page. */
  function LastByte(p: Params, l: Layout, w: World): int
    requires Deep(p, l) && WellSized(p, w.st)
  {
    PageAt(p, w.st.mem, 1)[l.RecordSize() - 1]
  }

  /** The first record goes to the first page, and the second has not been finished. */
  ghost predicate Untouched(p: Params, l: Layout, j: Joint)
    requires Deep(p, l) && WellSized(p, j.w.st)
  {
    |j.records| <= 1 ==>
      && |j.w.hist.log| == |j.records|
      && (|j.records| == 0 || Filled(l, j) < l.RecordSize() ==> LastByte(p, l, j.w) == 0)
  }

  lemma NotFull(p: Params, w: World)
    requires Inv(p, w) && p.Depth() >= 4 && |w.hist.log| <= 2
    ensures !WFull(p, w.st.ctr)
  {
    hide Gray;
  }

  lemma LastByteStep(p: Params, l: Layout, w: World, e: Event)
    requires Deep(p, l) && Inv(p, w)
    requires e.w.Some? && e.w.value.en ==> e.w.value.addr < p.pageSize
    requires e.w.Some? && e.w.value.en && w.sh.produced == 1 ==> e.w.value.addr != l.RecordSize() - 1
    requires w.sh.produced <= 1
    ensures LastByte(p, l, WorldStep(p, w, e)) == LastByte(p, l, w)
  {
    hide Gray, AsyncFifo.CounterStep, AsyncFifo.ShadowStep, Overflow, Underflow, PageAt;
    PointersExact(p, w);
    ModUnique(w.sh.produced, 0, p.Depth());
    if e.w.Some? && e.w.value.en {
      var c := e.w.value;
      if w.sh.produced == 1 {
        WriteSamePage(p, w.st.mem, 1, c.addr, c.data);
      } else {
        WriteLeavesOtherPages(p, w.st.mem, 0, c.addr, c.data, 1);
      }
    }
  }

  lemma LogStep(p: Params, w: World, e: Event)
    requires p.Depth() >= 4 && Inv(p, w) && SpacedInv(p, w) && SpacedStep(w, e) && |w.hist.log| <= 2
    requires e.w.Some? && e.w.value.en ==> e.w.value.addr < p.pageSize
    ensures WorldStep(p, w, e).hist.log
         == w.hist.log + if e.w.Some? && e.w.value.advance then [Written(p, w, e)] else []
    ensures !Overflow(p, w.st.ctr, e)
  {
    NotFull(p, w);
    WriteInstant(p, w, e);
    hide WorldStep, Inv, SpacedInv;
  }

  ghost predicate Running(p: Params, l: Layout, j: Joint)
    requires Deep(p, l)
  {
    Core(p, l, j) && Inv(p, j.w) && SpacedInv(p, j.w)
  }

  lemma PacedRun(p: Params, l: Layout, evs: seq<JointEvent>)
    requires Deep(p, l) && AllSized(l, evs) && AllPaced(p, l, evs)
    ensures Running(p, l, JointRun(p, l, evs))
  {
    hide Core, Inv, SpacedInv, ContentInv, JointRun, AllPaced;
    JointCore(p, l, evs);
    Projection(p, l, evs);
    RunSpaced(p, FifoEvents(p, l, evs));
  }

  /** Where a clock writes, if it does. */
  lemma WritesAtFilled(p: Params, l: Layout, j: Joint, e: JointEvent)
    requires Deep(p, l) && Running(p, l, j) && CycleSized(l, e) && Paced(l, j, e) && e.s.Some?
    ensures var f, n := FifoEvent(l, j, e).w.value, JointStep(p, l, j, e);
            && (f.en ==> f.addr == Filled(l, j) < p.pageSize)
            && (!j.t.frameStrobe ==> Filled(l, n) == Filled(l, j) + Count(f.en))
            && f.advance == j.t.frameStrobe
  {
    hide Inv, SpacedInv, WorldStep, AdapterInv, PageInv, RecordsInv, LogInv, StrobeInv, SlotsInv, Paced, JointStep,
         Filled, FrameRecord, FifoCycle;
    WritesNextByte(p, l, j, e);
    RecordLength(l, j);
    NoAdvance(l, j, e);
    if !j.t.frameStrobe { RecordGrows(p, l, j, e); }
  }

  lemma UntouchedStep(p: Params, l: Layout, j: Joint, e: JointEvent)
    requires Deep(p, l) && Running(p, l, j) && CycleSized(l, e) && Paced(l, j, e) && e.s.Some? && Untouched(p, l, j)
    ensures Untouched(p, l, JointStep(p, l, j, e))
  {
    hide Inv, SpacedInv, WorldStep, AdapterInv, PageInv, RecordsInv, LogInv, StrobeInv, SlotsInv, Paced, JointStep,
         Filled, FrameRecord, FifoCycle, LastByte, SpacedStep, Le32;
    StepRecords(p, l, j, e);
    if |j.records| <= 1 {
      var f := FifoEvent(l, j, e);
      WritesAtFilled(p, l, j, e);
      StepWorld(p, l, j, e);
      StrobeStep(p, l, j, e);
      LogStep(p, j.w, f);
      LogCounts(p, j.w);
      if |j.records| == 0 || Filled(l, j) + Count(f.w.value.en) < l.RecordSize() {
        LastByteStep(p, l, j.w, f);
      }
    }
  }

  lemma LogCounts(p: Params, w: World)
    requires Inv(p, w)
    ensures |w.hist.log| == w.sh.produced
  {
  }

  lemma StepWorld(p: Params, l: Layout, j: Joint, e: JointEvent)
    requires WellSized(p, j.w.st) && Sized(p, l, j) && CycleSized(l, e)
    ensures JointStep(p, l, j, e).w == WorldStep(p, j.w, FifoEvent(l, j, e))
    ensures e.s.None? ==> JointStep(p, l, j, e) == j.(w := WorldStep(p, j.w, FifoEvent(l, j, e)))
  {
    hide WorldStep, FifoEvent, AdapterStep, TimingStep, FrameRecord, Report;
  }

  lemma UntouchedStart(p: Params, l: Layout)
    requires Deep(p, l)
    ensures Untouched(p, l, JointStart(p, l))
  {
    PageBound(1, p.Depth(), p.pageSize);
  }

  lemma {:induction false} UntouchedRun(p: Params, l: Layout, n: nat)
    requires Deep(p, l) && l.report == 5 && AllSized(l, Late(l, n)) && AllPaced(p, l, Late(l, n))
    ensures Untouched(p, l, JointRun(p, l, Late(l, n)))
  {
    hide Late, LateClocks, Running, Untouched, JointStep, AllPaced, AllSized, Paced, Octets, Flags;
    if n == 0 {
      LateSized(l, 0);
      assert Late(l, 0) == [];
      UntouchedStart(p, l);
    } else {
      var evs := Late(l, n);
      LateNext(l, n - 1);
      LateSized(l, n - 1);
      LastSized(l, evs);
      PacedPrefix(p, l, evs);
      UntouchedRun(p, l, n - 1);
      PacedRun(p, l, Late(l, n - 1));
      UntouchedStep(p, l, JointRun(p, l, Late(l, n - 1)), evs[n - 1]);
    }
  }

  /** With eleven channels the last byte is still to be written sixteen clocks after the last
      timeslot's strobe. */
  lemma StillToWrite(p: Params, l: Layout, j: Joint, e: JointEvent)
    requires Deep(p, l) && l.report == 5 && l.channels >= 11 && Running(p, l, j) && CycleSized(l, e) && e.s.Some?
    requires j.t.frameStrobe && j.age == 16
    ensures var f := FifoEvent(l, j, e).w.value;
            && f.advance && (f.en ==> f.addr < l.RecordSize() - 1) && Filled(l, j) < l.RecordSize()
  {
    hide Inv, SpacedInv, PageInv, RecordsInv, LogInv, StrobeInv, FrameRecord, Report, SystemTiming.FlagsExact,
         WellSized;
    FrameHasAllSlots(l, j);
    Multiples(l.timeslots, l.channels);
  }

  /** So the page committed is not the record. */
  lemma LateCommit(p: Params, l: Layout, j: Joint, e: JointEvent)
    requires Deep(p, l) && l.report == 5 && l.channels >= 11 && Running(p, l, j) && CycleSized(l, e) && e.s.Some?
    requires j.t.frameStrobe && j.age == 16 && Untouched(p, l, j)
    requires |j.records| == 1 && |j.flags| == 1 && j.flags[0] != 0
    ensures !Committed(l, JointStep(p, l, j, e))
  {
    hide Inv, SpacedInv, WorldStep, AdapterInv, PageInv, RecordsInv, LogInv, StrobeInv, SlotsInv, JointStep,
         Filled, FrameRecord, FifoCycle, Le32, SpacedStep, Trim, Taken, PageAt;
    var f, n, record := FifoEvent(l, j, e), JointStep(p, l, j, e), FrameRecord(j.slots, Report(j));
    var size := l.RecordSize();
    StillToWrite(p, l, j, e);
    StepRecords(p, l, j, e);
    StepWorld(p, l, j, e);
    StrobeStep(p, l, j, e);
    LogStep(p, j.w, f);
    LogCounts(p, j.w);
    FrameHasAllSlots(l, j);
    LastOfRecord(l, j);
    LogSized(p, j.w);
    LastOfPage(p, l, j.w, f);
    if Committed(l, n) {
      NotTaken(j.w.hist.log, Written(p, j.w, f), j.records, j.granted, record, size);
      assert false;
    }
  }

  lemma LastOfRecord(l: Layout, j: Joint)
    requires l.Ok() && SlotsInv(l, j) && |j.slots| == l.timeslots && l.report == 5 && |j.flags| == 1
    ensures var record := FrameRecord(j.slots, Report(j));
            |record| == l.RecordSize() && record[l.RecordSize() - 1] == j.flags[0]
  {
    hide SlotsInv, Flatten, Le32;
    SlotsLength(l, j);
  }

  lemma LastOfPage(p: Params, l: Layout, w: World, e: Event)
    requires Deep(p, l) && Inv(p, w) && w.sh.produced == 1
    requires e.w.Some? && e.w.value.en ==> e.w.value.addr < p.pageSize && e.w.value.addr != l.RecordSize() - 1
    ensures |Written(p, w, e)| == p.pageSize && Written(p, w, e)[l.RecordSize() - 1] == LastByte(p, l, w)
  {
    hide Gray, PageAt;
    PointersExact(p, w);
    ModUnique(1, 0, p.Depth());
  }

  lemma NotTaken(log: seq<seq<int>>, page: seq<int>, records: seq<seq<int>>, granted: seq<bool>, record: seq<int>,
                 size: nat)
    requires |records| == |granted| && 1 <= size <= |page| && |record| == size && page[size - 1] != record[size - 1]
    requires forall i :: 0 <= i < |log| ==> |log[i]| >= size
    ensures (forall i :: 0 <= i < |log + [page]| ==> |(log + [page])[i]| >= size)
    ensures Trim(log + [page], size) != Taken(records + [record], granted + [true])
  {
    TakenOneMore(records, granted, record, true);
    var trimmed, taken := Trim(log + [page], size), Taken(records, granted) + [record];
    hide Taken;
    assert trimmed[|trimmed| - 1] == page[..size] && taken[|taken| - 1] == record;
    assert page[..size][size - 1] != record[size - 1];
  }

  // ----- Exactly ten channels -----

  lemma ElevenFail(p: Params, l: Layout)
    requires Deep(p, l) && l.report == 5 && l.channels >= 11
    ensures !AlwaysCommitted(p, l)
  {
    hide Late, LateClocks, Running, Untouched, JointStep, AllPaced, Octets, Flags, Slow, Committed,
         Driven, EndStrobes, FrameRecord, LateEnd;
    var n := Slow(l) + 16;
    LateSized(l, n);
    LateSized(l, n + 1);
    LateNext(l, n);
    LateDue(p, l);
    LateRecord(p, l);
    PacedRun(p, l, Late(l, n));
    UntouchedRun(p, l, n);
    LateCommit(p, l, JointRun(p, l, Late(l, n)), Late(l, n + 1)[n]);
    LateSparse(l, n + 1);
    var serclk := SomeFalls(LateStrobes(l, n + 1));
    assert Strobes(LateClocks(l, n + 1)) == EndStrobes(serclk);
    assert !Committed(l, JointRun(p, l, Late(l, n + 1)));
  }

  lemma TenSuffice(p: Params, l: Layout)
    requires p.Ok() && l.Ok() && l.report == 5 && p.pageSize >= l.RecordSize() && l.channels <= 10
    ensures AlwaysCommitted(p, l)
  {
    forall serclk, clocks, evs | Strobes(clocks) == EndStrobes(serclk) && Driven(l, evs, clocks) && AllSized(l, evs)
      ensures Committed(l, JointRun(p, l, evs))
    {
      hide Driven, Strobes, EndStrobes, AllPaced, JointRun, Trim, Taken, SlotsInv, AdapterInv, PageInv, RecordsInv,
           StrobeInv, AllSized, PaceInv, Roomy, SpacedBy;
      SerialClockRoomy(l, serclk, clocks);
      LinesPace(p, l, evs, clocks);
      JointCore(p, l, evs);
    }
  }

  /** Whatever the serial clock does, the lines carry and the reader does, the pages committed are
      the frame records the FIFO took, if and only if there are at most ten channels. With more, a
      frame that ends in a hurry is committed before its last byte is written. */
  lemma TenChannelsExact(p: Params, l: Layout)
    requires p.Ok() && l.Ok() && p.Depth() >= 4 && p.pageSize >= l.RecordSize() && l.report == 5
    ensures AlwaysCommitted(p, l) <==> l.channels <= 10
  {
    hide AlwaysCommitted;
    if l.channels <= 10 { TenSuffice(p, l); } else { ElevenFail(p, l); }
  }
}
