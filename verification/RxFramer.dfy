/** The adapter between the receive blocks and the receive FIFO: one record per frame, the
    channels interleaved within each timeslot, a report at the end. */
module RxFramer {
  import opened PagedFifo
  import opened SystemTiming

  datatype Fsm = WAIT | TIMESLOT | REPORT

  /** Timeslots per frame, channels, and bytes of report. */
  datatype Layout = Layout(timeslots: nat, channels: nat, report: nat) {
    predicate Ok() { timeslots >= 1 && channels >= 1 && report >= 4 }
    function RecordSize(): nat { timeslots * channels + report }
    /** Clocks from a timeslot strobe until the adapter waits again in the same frame, until
        it writes the last byte of the report, and until it waits again after the report. */
    function SlotTime(): nat { channels + 2 }
    function RecordTime(): nat { channels + report + 1 }
    function Busy(): nat { channels + report + 3 }
  }

  datatype Adapter = Adapter(fsm: Fsm, count: nat, address: nat)

  const ADAPTER_RESET := Adapter(WAIT, 0, 0)

  /** What the adapter writes in this clock. `data` holds one byte per channel. */
  function FifoCycle(l: Layout, a: Adapter, t: Timing, data: seq<int>, report: seq<int>): WriteCycle
    requires |data| == l.channels && |report| == l.report
  {
    match a.fsm
    case WAIT => WriteCycle(a.address, 0, false, t.frameStrobe)
    case TIMESLOT =>
      if a.count < |data| then WriteCycle(a.address, data[a.count], true, t.frameStrobe)
      else WriteCycle(a.address, 0, false, t.frameStrobe)
    case REPORT =>
      if a.count < |report| then WriteCycle(a.address, report[a.count], true, t.frameStrobe)
      else WriteCycle(a.address, 0, false, t.frameStrobe)
  }

  function AdapterStep(l: Layout, a: Adapter, t: Timing): Adapter {
    match a.fsm
    case WAIT =>
      if t.timeslotStartStrobe then Adapter(TIMESLOT, 0, if t.timeslotFirst then 0 else a.address) else a
    case TIMESLOT =>
      if a.count >= l.channels then
        if t.timeslotLast then Adapter(REPORT, 0, a.address) else Adapter(WAIT, a.count, a.address)
      else Adapter(TIMESLOT, a.count + 1, a.address + 1)
    case REPORT =>
      if a.count >= l.report then Adapter(WAIT, a.count, a.address)
      else Adapter(REPORT, a.count + 1, a.address + 1)
  }

  class RxFramerToFIFOAdapter {
    const layout: Layout
    var fsm: Fsm
    var count: nat
    var address: nat

    constructor (l: Layout)
      ensures layout == l && State() == ADAPTER_RESET
    {
      layout, fsm, count, address := l, WAIT, 0, 0;
    }

    function State(): Adapter
      reads this
    {
      Adapter(fsm, count, address)
    }

    /** One system clock: the FIFO write interface, then the registers. */
    method Clock(t: Timing, data: seq<int>, report: seq<int>) returns (fifo: WriteCycle)
      requires |data| == layout.channels && |report| == layout.report
      requires (fsm == TIMESLOT ==> count <= layout.channels) && (fsm == REPORT ==> count <= layout.report)
      modifies this
      ensures fifo == FifoCycle(layout, old(State()), t, data, report)
      ensures State() == AdapterStep(layout, old(State()), t)
      ensures (fsm == TIMESLOT ==> count <= layout.channels) && (fsm == REPORT ==> count <= layout.report)
    {
      fifo := WriteCycle(address, 0, false, t.frameStrobe);
      match fsm {
        case WAIT =>
          if t.timeslotStartStrobe {
            if t.timeslotFirst { address := 0; }
            count, fsm := 0, TIMESLOT;
          }
        case TIMESLOT =>
          if count == layout.channels {
            if t.timeslotLast { count, fsm := 0, REPORT; } else { fsm := WAIT; }
          } else {
            fifo := WriteCycle(address, data[count], true, t.frameStrobe);
            count, address := count + 1, address + 1;
          }
        case REPORT =>
          if count == layout.report {
            fsm := WAIT;
          } else {
            fifo := WriteCycle(address, report[count], true, t.frameStrobe);
            count, address := count + 1, address + 1;
          }
      }
    }
  }
}

/** The adapter with the system timing, the per-frame report and the paged FIFO. */
module RxFramerRuns {
  import opened Wrappers
  import opened GrayCode
  import opened Numbers
  import opened AsyncFifo
  import opened PagedFifo
  import opened PagedFifoRuns
  import opened Chunks
  import opened HostPackets
  import ST = SystemTiming
  import opened RxFramer

  /** One system clock: whether a bit ends, the receive blocks' bytes, and the multiframe
      bits that the report takes over at a frame strobe. */
  datatype SyncCycle = SyncCycle(bitEnd: bool, data: seq<int>, flags: seq<int>)

  datatype JointEvent = JointEvent(s: Option<SyncCycle>, r: Option<ReadCycle>, wMix: Bits, rMix: Bits)

  /** Registers, and what is remembered about the frame being received: the clocks since
      the last timeslot strobe, the channels' bytes at each timeslot strobe so far, the
      records of the frames completed so far, and which of them the FIFO granted. */
  datatype Joint = Joint(
    w: World, t: ST.Timing, a: Adapter, frameCount: nat, flags: seq<int>,
    age: nat, slots: seq<seq<int>>, records: seq<seq<int>>, granted: seq<bool>)

  function Report(j: Joint): seq<int> { Le32(j.frameCount) + j.flags }

  predicate Sized(p: Params, l: Layout, j: Joint) {
    && p.Ok() && l.Ok() && |j.flags| == l.report - 4
  }

  predicate CycleSized(l: Layout, e: JointEvent) {
    e.s.Some? ==> |e.s.value.data| == l.channels && |e.s.value.flags| == l.report - 4
  }

  function FifoEvent(l: Layout, j: Joint, e: JointEvent): Event
    requires CycleSized(l, e) && |j.flags| == l.report - 4
  {
    Event(if e.s.Some? then Some(FifoCycle(l, j.a, j.t, e.s.value.data, Report(j))) else None,
          e.r, e.wMix, e.rMix)
  }

  /** The record a frame ought to become. */
  function FrameRecord(slots: seq<seq<int>>, report: seq<int>): seq<int> {
    Flatten(slots) + report
  }

  function JointStep(p: Params, l: Layout, j: Joint, e: JointEvent): (n: Joint)
    requires WellSized(p, j.w.st) && Sized(p, l, j) && CycleSized(l, e)
    ensures WellSized(p, n.w.st) && Sized(p, l, n)
  {
    var f := FifoEvent(l, j, e);
    var w := WorldStep(p, j.w, f);
    if e.s.None? then j.(w := w) else
      var s, start, frame := e.s.value, j.t.timeslotStartStrobe, j.t.frameStrobe;
      Joint(w, ST.TimingStep(l.timeslots, j.t, s.bitEnd), AdapterStep(l, j.a, j.t),
            if frame then (j.frameCount + 1) % 0x1_0000_0000 else j.frameCount,
            if frame then s.flags else j.flags,
            if start then 1 else j.age + 1,
            if frame then [] else if start then j.slots + [s.data] else j.slots,
            if frame then j.records + [FrameRecord(j.slots, Report(j))] else j.records,
            if frame then j.granted + [!OutputsOf(p, j.w.st.ctr, f).wOverflow] else j.granted)
  }

  function JointStart(p: Params, l: Layout): Joint
    requires l.Ok()
  {
    Joint(Start(p), ST.RESET, ADAPTER_RESET, 0, seq(l.report - 4, i => 0), l.Busy(), [], [], [])
  }

  ghost predicate AllSized(l: Layout, evs: seq<JointEvent>) {
    forall i :: 0 <= i < |evs| ==> CycleSized(l, evs[i])
  }

  function JointRun(p: Params, l: Layout, evs: seq<JointEvent>): (j: Joint)
    requires p.Ok() && l.Ok() && AllSized(l, evs)
    ensures WellSized(p, j.w.st) && Sized(p, l, j)
  {
    if evs == [] then JointStart(p, l)
    else JointStep(p, l, JointRun(p, l, evs[..|evs| - 1]), evs[|evs| - 1])
  }

  /** What the adapter relies on: a frame ends no sooner than it writes the record's last byte,
      it waits when a timeslot starts, and the receive blocks hold their bytes while it
      collects them. */
  predicate Paced(l: Layout, j: Joint, e: JointEvent) {
    && (j.t.frameStrobe ==> j.age >= l.RecordTime())
    && (j.t.timeslotStartStrobe ==> j.age >= if j.t.timeslotFirst then l.Busy() else l.SlotTime())
    && (e.s.Some? && 1 <= j.age <= l.channels ==> |j.slots| > 0 && e.s.value.data == j.slots[|j.slots| - 1])
  }

  ghost predicate AllPaced(p: Params, l: Layout, evs: seq<JointEvent>)
    requires p.Ok() && l.Ok() && AllSized(l, evs)
  {
    forall i :: 0 <= i < |evs| ==> Paced(l, JointRun(p, l, evs[..i]), evs[i])
  }

  // ----- The frame in progress -----

  /** Timeslots whose first bit has begun. */
  function Started(bitCount: nat): nat { (bitCount + 7) / 8 }

  ghost predicate SlotsInv(l: Layout, j: Joint) {
    && (exists started :: ST.FlagsExact(l.timeslots, j.t, started))
    && (forall i :: 0 <= i < |j.slots| ==> |j.slots[i]| == l.channels)
    && j.age >= 1 && (j.age <= l.RecordTime() ==> j.slots != [])
    && (if j.t.frameStrobe then |j.slots| == l.timeslots
        else |j.slots| == Started(j.t.bitCount) - Count(j.t.timeslotStartStrobe))
  }

  predicate LastSlot(l: Layout, j: Joint) { |j.slots| == l.timeslots }

  /** The adapter's state as a function of the clocks since the last timeslot strobe. */
  ghost predicate AdapterInv(l: Layout, j: Joint) {
    var k := |j.slots|;
    var ch := l.channels;
    if j.age <= ch + 1 then
      j.a.fsm == TIMESLOT && j.a.count == j.age - 1 && k >= 1 && j.a.address == (k - 1) * ch + j.age - 1
    else if j.age < l.Busy() && LastSlot(l, j) then
      j.a.fsm == REPORT && j.a.count == j.age - ch - 2 && j.a.address == k * ch + j.age - ch - 2
    else if j.age < l.Busy() && k == 0 then
      j.a.fsm == REPORT && j.a.count == l.report
    else
      j.a.fsm == WAIT && (0 < k < l.timeslots ==> j.a.address == k * ch)
  }

  /** Bytes of the current record already written, in order from address zero. */
  function Filled(l: Layout, j: Joint): int {
    var k, ch := |j.slots|, l.channels;
    if k == 0 then 0
    else if j.age <= ch + 1 then (k - 1) * ch + j.age - 1
    else if LastSlot(l, j) then k * ch + (if j.age < l.Busy() then j.age - ch - 2 else l.report)
    else k * ch
  }

  lemma SlotsStep(p: Params, l: Layout, j: Joint, e: JointEvent)
    requires WellSized(p, j.w.st) && Sized(p, l, j) && CycleSized(l, e) && e.s.Some?
    requires SlotsInv(l, j) && Paced(l, j, e)
    ensures SlotsInv(l, JointStep(p, l, j, e))
  {
    hide WorldStep, Overflow, OutputsOf, AdapterStep, FifoCycle;
    var started :| ST.FlagsExact(l.timeslots, j.t, started);
    ST.StepKeepsFlags(l.timeslots, j.t, started, e.s.value.bitEnd);
    var n := JointStep(p, l, j, e);
    assert ST.FlagsExact(l.timeslots, n.t, started || e.s.value.bitEnd);
  }

  lemma AdapterStepInv(p: Params, l: Layout, j: Joint, e: JointEvent)
    requires WellSized(p, j.w.st) && Sized(p, l, j) && CycleSized(l, e) && e.s.Some?
    requires SlotsInv(l, j) && Paced(l, j, e) && AdapterInv(l, j)
    ensures AdapterInv(l, JointStep(p, l, j, e))
  {
    hide WorldStep, Overflow, OutputsOf, FifoCycle, ST.TimingStep, FrameRecord, Report;
    var started :| ST.FlagsExact(l.timeslots, j.t, started);
    Multiples(|j.slots|, l.channels);
  }

  lemma Multiples(k: nat, ch: nat)
    ensures (k + 1 - 1) * ch == k * ch && 0 * ch == 0
    ensures k >= 1 ==> (k - 1) * ch + ch == k * ch
  {
  }

  // ----- What is written -----

  lemma {:induction false} FlattenLength(slots: seq<seq<int>>, ch: nat)
    requires forall i :: 0 <= i < |slots| ==> |slots[i]| == ch
    ensures |Flatten(slots)| == |slots| * ch
  {
    if slots != [] {
      FlattenLength(slots[1..], ch);
      assert |slots| * ch == ch + (|slots| - 1) * ch;
    }
  }

  /** Channel c of timeslot n is at index n * channels + c. */
  lemma {:induction false} FlattenIndex(slots: seq<seq<int>>, ch: nat, n: nat, c: nat)
    requires forall i :: 0 <= i < |slots| ==> |slots[i]| == ch
    requires n < |slots| && c < ch
    ensures 0 <= n * ch + c < |Flatten(slots)| && Flatten(slots)[n * ch + c] == slots[n][c]
  {
    FlattenLength(slots, ch);
    if n == 0 {
      FlattenLength(slots[1..], ch);
    } else {
      FlattenIndex(slots[1..], ch, n - 1, c);
      assert n * ch + c == ch + ((n - 1) * ch + c);
      assert Flatten(slots)[ch + ((n - 1) * ch + c)] == Flatten(slots[1..])[(n - 1) * ch + c];
    }
  }

  ghost predicate PageInv(p: Params, l: Layout, j: Joint)
    requires WellSized(p, j.w.st) && Sized(p, l, j) && SlotsInv(l, j)
  {
    var record := FrameRecord(j.slots, Report(j));
    && |WritePage(p, j.w)| == p.pageSize
    && 0 <= Filled(l, j) <= |record| && Filled(l, j) <= p.pageSize
    && WritePage(p, j.w)[..Filled(l, j)] == record[..Filled(l, j)]
  }

  lemma MulMonotone(a: nat, b: nat, c: nat)
    requires a <= b
    ensures a * c <= b * c
  {
    assert (b - a) * c >= 0;
  }

  lemma SlotsBound(l: Layout, j: Joint)
    requires SlotsInv(l, j)
    ensures |j.slots| <= l.timeslots
  {
    var started :| ST.FlagsExact(l.timeslots, j.t, started);
  }

  lemma RecordLength(l: Layout, j: Joint)
    requires l.Ok() && |j.flags| == l.report - 4 && SlotsInv(l, j)
    ensures |FrameRecord(j.slots, Report(j))| == |j.slots| * l.channels + l.report
    ensures |j.slots| <= l.timeslots && |j.slots| * l.channels <= l.timeslots * l.channels
    ensures |FrameRecord(j.slots, Report(j))| <= l.RecordSize()
  {
    hide Flatten, Le32, ST.FlagsExact;
    FlattenLength(j.slots, l.channels);
    SlotsBound(l, j);
    MulMonotone(|j.slots|, l.timeslots, l.channels);
  }

  lemma OneSlotLess(k: nat, ch: nat)
    ensures k >= 1 ==> (k - 1) * ch + ch == k * ch
    ensures k * ch >= 0
  {
  }

  /** The byte written in one clock is the next byte of the record, at the next address. */
  lemma WritesNextByte(p: Params, l: Layout, j: Joint, e: JointEvent)
    requires WellSized(p, j.w.st) && Sized(p, l, j) && CycleSized(l, e) && e.s.Some?
    requires SlotsInv(l, j) && Paced(l, j, e) && AdapterInv(l, j)
    ensures var f := FifoEvent(l, j, e).w.value;
            var record := FrameRecord(j.slots, Report(j));
            && (f.en ==> f.addr == Filled(l, j) < |record| && f.data == record[f.addr])
            && (f.en ==> j.slots != [] && !j.t.timeslotStartStrobe)
            && (j.t.frameStrobe ==> Filled(l, j) + Count(f.en) == |record|)
            && (j.t.frameStrobe ==> (f.en <==> j.age == l.RecordTime()))
  {
    hide ST.TimingStep, ST.FlagsExact, Flatten, Le32, Started;
    RecordLength(l, j);
    FlattenLength(j.slots, l.channels);
    if j.t.timeslotStartStrobe { StartsBelowLast(l, j); }
    var k, ch := |j.slots|, l.channels;
    OneSlotLess(k, ch);
    if k >= 1 && 1 <= j.age <= ch {
      FlattenIndex(j.slots, ch, k - 1, j.age - 1);
    }
  }

  /** How the record in the making grows in one clock that is not a frame strobe. */
  lemma RecordGrows(p: Params, l: Layout, j: Joint, e: JointEvent)
    requires WellSized(p, j.w.st) && Sized(p, l, j) && CycleSized(l, e) && e.s.Some?
    requires SlotsInv(l, j) && Paced(l, j, e) && AdapterInv(l, j) && !j.t.frameStrobe
    ensures var n, f := JointStep(p, l, j, e), FifoEvent(l, j, e).w.value;
            var record, next := FrameRecord(j.slots, Report(j)), FrameRecord(n.slots, Report(n));
            && Filled(l, n) == Filled(l, j) + Count(f.en)
            && (j.t.timeslotStartStrobe ==> Filled(l, j) <= |Flatten(j.slots)|)
            && (!j.t.timeslotStartStrobe ==> next == record)
            && |next| >= |record| && next[..|Flatten(j.slots)|] == record[..|Flatten(j.slots)|]
  {
    hide WorldStep, Overflow, OutputsOf, ST.TimingStep, ST.FlagsExact, Flatten, Le32, Started;
    FlattenLength(j.slots, l.channels);
    var k, ch := |j.slots|, l.channels;
    OneSlotLess(k, ch);
    OneSlotLess(k + 1, ch);
    if j.t.timeslotStartStrobe {
      FlattenAppend(j.slots, [e.s.value.data]);
      StartsBelowLast(l, j);
    }
  }

  lemma StartsBelowLast(l: Layout, j: Joint)
    requires l.Ok() && SlotsInv(l, j) && j.t.timeslotStartStrobe
    ensures |j.slots| < l.timeslots && (j.t.timeslotFirst <==> j.slots == [])
  {
    var started :| ST.FlagsExact(l.timeslots, j.t, started);
  }

  lemma PageStep(p: Params, l: Layout, j: Joint, e: JointEvent)
    requires WellSized(p, j.w.st) && Sized(p, l, j) && CycleSized(l, e) && p.pageSize >= l.RecordSize()
    requires Inv(p, j.w) && SpacedInv(p, j.w) && SpacedStep(j.w, FifoEvent(l, j, e))
    requires SlotsInv(l, j) && Paced(l, j, e) && AdapterInv(l, j) && PageInv(p, l, j)
    requires e.s.Some? && !j.t.frameStrobe && SlotsInv(l, JointStep(p, l, j, e))
    ensures PageInv(p, l, JointStep(p, l, j, e))
    ensures JointStep(p, l, j, e).w.hist.log == j.w.hist.log
  {
    hide Inv, SpacedInv, SlotsInv, AdapterInv, WorldStep, Overflow, OutputsOf, AdapterStep, PageAt,
         Flatten, Le32, ST.TimingStep, Filled, Paced;
    var n, f := JointStep(p, l, j, e), FifoEvent(l, j, e);
    var record, next := FrameRecord(j.slots, Report(j)), FrameRecord(n.slots, Report(n));
    WritesNextByte(p, l, j, e);
    RecordLength(l, j);
    RecordLength(l, n);
    RecordGrows(p, l, j, e);
    NoAdvance(l, j, e);
    WriteInstant(p, j.w, f);
    var page, k := WritePage(p, n.w), Filled(l, j);
    if f.w.value.en {
      assert page[..k + 1] == WritePage(p, j.w)[..k] + [record[k]];
      assert record[..k + 1] == record[..k] + [record[k]];
    } else if j.t.timeslotStartStrobe {
      var m := |Flatten(j.slots)|;
      assert next[..k] == next[..m][..k] && record[..k] == record[..m][..k];
    }
  }

  lemma NoAdvance(l: Layout, j: Joint, e: JointEvent)
    requires CycleSized(l, e) && |j.flags| == l.report - 4 && e.s.Some?
    ensures FifoEvent(l, j, e).w.value.advance == j.t.frameStrobe
  {
  }

  /** At a frame strobe the page, with this clock's byte if there is one, holds the whole record. */
  lemma RecordWritten(p: Params, l: Layout, j: Joint, e: JointEvent)
    requires WellSized(p, j.w.st) && Sized(p, l, j) && CycleSized(l, e) && p.pageSize >= l.RecordSize()
    requires SlotsInv(l, j) && Paced(l, j, e) && AdapterInv(l, j) && PageInv(p, l, j)
    requires e.s.Some? && j.t.frameStrobe
    ensures var f, record := FifoEvent(l, j, e), FrameRecord(j.slots, Report(j));
            && |record| == l.RecordSize()
            && (f.w.value.en ==> f.w.value.addr < p.pageSize)
            && |Written(p, j.w, f)| == p.pageSize && Written(p, j.w, f)[..l.RecordSize()] == record
  {
    WritesNextByte(p, l, j, e);
    RecordLength(l, j);
    FrameHasAllSlots(l, j);
    hide SlotsInv, AdapterInv, Paced, Filled, FrameRecord, Report, FifoEvent, WritePage;
    var f, record, k := FifoEvent(l, j, e), FrameRecord(j.slots, Report(j)), Filled(l, j);
    if f.w.value.en {
      assert record == record[..k] + [record[k]];
    } else {
      assert record == record[..k];
    }
  }

  lemma FrameComplete(p: Params, l: Layout, j: Joint, e: JointEvent)
    requires WellSized(p, j.w.st) && Sized(p, l, j) && CycleSized(l, e) && p.pageSize >= l.RecordSize()
    requires Inv(p, j.w) && SpacedInv(p, j.w) && SpacedStep(j.w, FifoEvent(l, j, e))
    requires SlotsInv(l, j) && Paced(l, j, e) && AdapterInv(l, j) && PageInv(p, l, j)
    requires e.s.Some? && j.t.frameStrobe && SlotsInv(l, JointStep(p, l, j, e))
    ensures var n, f := JointStep(p, l, j, e), FifoEvent(l, j, e);
            && PageInv(p, l, n)
            && (f.w.value.en ==> f.w.value.addr < p.pageSize)
            && n.w.hist.log == j.w.hist.log + if Overflow(p, j.w.st.ctr, f) then [] else [Written(p, j.w, f)]
  {
    RecordWritten(p, l, j, e);
    EmptyPage(p, l, JointStep(p, l, j, e));
    hide *;
    NoAdvance(l, j, e);
    WriteInstant(p, j.w, FifoEvent(l, j, e));
  }

  lemma EmptyPage(p: Params, l: Layout, n: Joint)
    requires WellSized(p, n.w.st) && Sized(p, l, n) && SlotsInv(l, n) && n.slots == []
    ensures PageInv(p, l, n)
  {
    hide SlotsInv, FrameRecord;
  }

  lemma PageIdle(p: Params, l: Layout, j: Joint, e: JointEvent)
    requires WellSized(p, j.w.st) && Sized(p, l, j) && e.s.None?
    requires Inv(p, j.w) && SpacedInv(p, j.w) && SlotsInv(l, j) && PageInv(p, l, j)
    ensures PageInv(p, l, JointStep(p, l, j, e))
    ensures JointStep(p, l, j, e).w.hist.log == j.w.hist.log
  {
    hide Inv, SpacedInv, WorldStep, Overflow, OutputsOf, PageAt, Flatten, Le32;
    WriteInstant(p, j.w, FifoEvent(l, j, e));
  }

  // ----- Records committed -----

  /** Frame counts are consecutive from zero, whatever else the report holds. */
  ghost predicate RecordsInv(l: Layout, j: Joint)
    requires l.Ok()
  {
    && |j.records| == |j.granted|
    && j.frameCount == |j.records| % 0x1_0000_0000
    && forall i :: 0 <= i < |j.records| ==> CountedRecord(l, j.records[i], i)
  }

  predicate CountedRecord(l: Layout, record: seq<int>, i: nat)
    requires l.Ok()
  {
    var at := l.timeslots * l.channels;
    |record| == l.RecordSize() && record[at..at + 4] == Le32(i % 0x1_0000_0000)
  }

  ghost predicate LogInv(p: Params, l: Layout, j: Joint) {
    && |j.records| == |j.granted|
    && (forall i :: 0 <= i < |j.w.hist.log| ==> |j.w.hist.log[i]| == p.pageSize)
    && p.pageSize >= l.RecordSize()
    && Trim(j.w.hist.log, l.RecordSize()) == Taken(j.records, j.granted)
  }

  /** The strobes are a whole frame of bits apart; two in successive clocks cannot happen. */
  ghost predicate StrobeInv(j: Joint) {
    j.w.hist.lastAdvance ==> !j.t.frameStrobe
  }

  ghost predicate Core(p: Params, l: Layout, j: Joint)
  {
    && p.Ok() && l.Ok() && WellSized(p, j.w.st) && Sized(p, l, j)
    && SlotsInv(l, j) && AdapterInv(l, j) && PageInv(p, l, j)
    && RecordsInv(l, j) && LogInv(p, l, j) && StrobeInv(j)
  }

  lemma StrobeStep(p: Params, l: Layout, j: Joint, e: JointEvent)
    requires WellSized(p, j.w.st) && Sized(p, l, j) && CycleSized(l, e)
    requires SlotsInv(l, j) && StrobeInv(j)
    ensures SpacedStep(j.w, FifoEvent(l, j, e)) && StrobeInv(JointStep(p, l, j, e))
  {
    hide Step, CounterStep, ShadowStep, Overflow, OutputsOf, AdapterStep, Commits, Underflow, PageAt, Flatten, Le32;
    var started :| ST.FlagsExact(l.timeslots, j.t, started);
    if e.s.Some? { NoAdvance(l, j, e); }
  }

  lemma RecordsStep(p: Params, l: Layout, j: Joint, e: JointEvent)
    requires WellSized(p, j.w.st) && Sized(p, l, j) && CycleSized(l, e) && RecordsInv(l, j)
    requires e.s.Some? && j.t.frameStrobe ==> |j.slots| == l.timeslots && SlotsInv(l, j)
    ensures RecordsInv(l, JointStep(p, l, j, e))
  {
    hide WorldStep, Overflow, OutputsOf, AdapterStep, ST.TimingStep, SlotsInv, Le32, FrameRecord, CountedRecord;
    var n := JointStep(p, l, j, e);
    if e.s.Some? && j.t.frameStrobe {
      CompletedRecord(l, j);
      assert n.records == j.records + [FrameRecord(j.slots, Report(j))];
      assert forall i :: 0 <= i < |j.records| ==> n.records[i] == j.records[i];
    }
  }

  /** A complete frame's record carries its count. */
  lemma CompletedRecord(l: Layout, j: Joint)
    requires l.Ok() && |j.flags| == l.report - 4 && RecordsInv(l, j)
    requires |j.slots| == l.timeslots && SlotsInv(l, j)
    ensures CountedRecord(l, FrameRecord(j.slots, Report(j)), |j.records|)
  {
    hide SlotsInv, Le32, Flatten;
    RecordLength(l, j);
    SlotsLength(l, j);
    CountInRecord(Flatten(j.slots), Le32(j.frameCount), j.flags);
  }

  lemma CountInRecord(body: seq<int>, count: seq<int>, flags: seq<int>)
    requires |count| == 4
    ensures (body + (count + flags))[|body|..|body| + 4] == count
  {
  }

  lemma SlotsLength(l: Layout, j: Joint)
    requires SlotsInv(l, j)
    ensures |Flatten(j.slots)| == |j.slots| * l.channels
  {
    FlattenLength(j.slots, l.channels);
  }

  lemma CoreStep(p: Params, l: Layout, j: Joint, e: JointEvent)
    requires Core(p, l, j) && Inv(p, j.w) && SpacedInv(p, j.w) && CycleSized(l, e) && Paced(l, j, e)
    ensures Core(p, l, JointStep(p, l, j, e))
    ensures SpacedStep(j.w, FifoEvent(l, j, e))
  {
    hide Inv, SpacedInv, SlotsInv, AdapterInv, RecordsInv, StrobeInv, PageAt, WorldStep, ST.TimingStep,
         Overflow, AdapterStep, FifoCycle, Flatten, Le32, SpacedStep, Paced, Filled;
    StrobeStep(p, l, j, e);
    FrameHasAllSlots(l, j);
    RecordsStep(p, l, j, e);
    var n := JointStep(p, l, j, e);
    StepKeepsInv(p, j.w, FifoEvent(l, j, e));
    LogSized(p, n.w);
    if e.s.None? {
      IdleKeepsAdapter(p, l, j, e);
      PageIdle(p, l, j, e);
    } else {
      SlotsStep(p, l, j, e);
      AdapterStepInv(p, l, j, e);
      if j.t.frameStrobe {
        RecordWritten(p, l, j, e);
        FrameComplete(p, l, j, e);
        FrameLogged(p, l, j, e);
      } else {
        PageStep(p, l, j, e);
      }
    }
  }

  lemma LogSized(p: Params, w: World)
    requires Inv(p, w)
    ensures forall i :: 0 <= i < |w.hist.log| ==> |w.hist.log[i]| == p.pageSize
  {
  }

  lemma FrameHasAllSlots(l: Layout, j: Joint)
    requires SlotsInv(l, j)
    ensures j.t.frameStrobe ==> |j.slots| == l.timeslots
  {
  }

  lemma IdleKeepsAdapter(p: Params, l: Layout, j: Joint, e: JointEvent)
    requires Core(p, l, j) && CycleSized(l, e) && e.s.None?
    ensures var n := JointStep(p, l, j, e); SlotsInv(l, n) && AdapterInv(l, n)
  {
    hide WorldStep, PageInv, RecordsInv, LogInv, StrobeInv, ST.FlagsExact;
    var started :| ST.FlagsExact(l.timeslots, j.t, started);
    assert ST.FlagsExact(l.timeslots, JointStep(p, l, j, e).t, started);
  }

  lemma FrameLogged(p: Params, l: Layout, j: Joint, e: JointEvent)
    requires Core(p, l, j) && CycleSized(l, e) && e.s.Some? && j.t.frameStrobe
    requires var f, n := FifoEvent(l, j, e), JointStep(p, l, j, e);
             var record := FrameRecord(j.slots, Report(j));
             && |record| == l.RecordSize() && (f.w.value.en ==> f.w.value.addr < p.pageSize)
             && Written(p, j.w, f)[..l.RecordSize()] == record
             && n.w.hist.log == j.w.hist.log + (if Overflow(p, j.w.st.ctr, f) then [] else [Written(p, j.w, f)])
             && forall i :: 0 <= i < |n.w.hist.log| ==> |n.w.hist.log[i]| == p.pageSize
    ensures LogInv(p, l, JointStep(p, l, j, e))
  {
    hide WorldStep, Overflow, FifoCycle, PageInv, SlotsInv, AdapterInv, RecordsInv, StrobeInv, AdapterStep,
         ST.TimingStep,
         Flatten, Le32, PageAt;
    var record := FrameRecord(j.slots, Report(j));
    var taken := !Overflow(p, j.w.st.ctr, FifoEvent(l, j, e));
    TakenOneMore(j.records, j.granted, record, taken);
    if taken {
      TrimOneMore(j.w.hist.log, Written(p, j.w, FifoEvent(l, j, e)), l.RecordSize());
    } else {
      assert j.w.hist.log + [] == j.w.hist.log;
    }
  }

  // ----- Theorems -----

  function FifoEvents(p: Params, l: Layout, evs: seq<JointEvent>): (f: seq<Event>)
    requires p.Ok() && l.Ok() && AllSized(l, evs)
    ensures |f| == |evs|
  {
    if evs == [] then [] else
      var init := evs[..|evs| - 1];
      FifoEvents(p, l, init) + [FifoEvent(l, JointRun(p, l, init), evs[|evs| - 1])]
  }

  lemma {:induction false} Projection(p: Params, l: Layout, evs: seq<JointEvent>)
    requires p.Ok() && l.Ok() && AllSized(l, evs)
    ensures JointRun(p, l, evs).w == Run(p, FifoEvents(p, l, evs))
  {
    hide WorldStep, ST.TimingStep, AdapterStep, FifoCycle, Overflow, OutputsOf, Flatten, Le32;
    if evs != [] {
      var init, f := evs[..|evs| - 1], FifoEvents(p, l, evs);
      Projection(p, l, init);
      assert f[..|f| - 1] == FifoEvents(p, l, init);
    }
  }

  lemma StartCore(p: Params, l: Layout)
    requires p.Ok() && l.Ok() && p.pageSize >= l.RecordSize()
    ensures Core(p, l, JointStart(p, l))
  {
    var j := JointStart(p, l);
    assert ST.FlagsExact(l.timeslots, j.t, false);
  }

  /** In every paced run the writer's strobes are spaced and the records are as they should be. */
  lemma {:induction false} JointCore(p: Params, l: Layout, evs: seq<JointEvent>)
    requires p.Ok() && l.Ok() && p.pageSize >= l.RecordSize()
    requires AllSized(l, evs) && AllPaced(p, l, evs)
    ensures Core(p, l, JointRun(p, l, evs)) && SpacedBy(2, WriteStrobes(FifoEvents(p, l, evs)))
  {
    hide Core, Inv, SpacedInv, ContentInv, JointStep, FifoEvent, Paced, WorldStep, SpacedStep;
    if evs == [] {
      StartCore(p, l);
    } else {
      var init, e, f := evs[..|evs| - 1], evs[|evs| - 1], FifoEvents(p, l, evs);
      var j := JointRun(p, l, init);
      PacedPrefix(p, l, evs);
      JointCore(p, l, init);
      Projection(p, l, init);
      RunSpaced(p, FifoEvents(p, l, init));
      CoreStep(p, l, j, e);
      assert f[..|f| - 1] == FifoEvents(p, l, init);
      SpacedFromSteps(p, f);
    }
  }

  lemma PacedPrefix(p: Params, l: Layout, evs: seq<JointEvent>)
    requires p.Ok() && l.Ok() && evs != [] && AllSized(l, evs) && AllPaced(p, l, evs)
    ensures AllPaced(p, l, evs[..|evs| - 1])
    ensures Paced(l, JointRun(p, l, evs[..|evs| - 1]), evs[|evs| - 1])
  {
    hide JointRun, Paced;
    var init := evs[..|evs| - 1];
    forall i | 0 <= i < |init| ensures Paced(l, JointRun(p, l, init[..i]), init[i]) {
      assert init[..i] == evs[..i];
    }
  }

  /** Every address once: in each clock of a paced run the adapter writes the next byte of
      the record at the next address or writes nothing; a frame starts with nothing written,
      and with its strobe everything is, at the latest the last byte in that very clock. */
  lemma EachAddressOnce(p: Params, l: Layout, evs: seq<JointEvent>)
    requires p.Ok() && l.Ok() && p.pageSize >= l.RecordSize() && evs != []
    requires AllSized(l, evs) && AllPaced(p, l, evs) && evs[|evs| - 1].s.Some?
    ensures var j, n := JointRun(p, l, evs[..|evs| - 1]), JointRun(p, l, evs);
            var f := FifoEvent(l, j, evs[|evs| - 1]).w.value;
            && (f.en ==> f.addr == Filled(l, j))
            && (f.advance ==> Filled(l, j) + Count(f.en) == l.RecordSize() && Filled(l, n) == 0)
            && (f.advance ==> (f.en <==> j.age == l.RecordTime()))
            && (!f.advance ==> Filled(l, n) == Filled(l, j) + Count(f.en))
  {
    hide SlotsInv, AdapterInv, PageInv, RecordsInv, LogInv, StrobeInv, Inv, WellSized, Filled, FifoEvent, Paced,
         FrameRecord, AllPaced, AllSized, CycleSized, JointStep, JointRun, SpacedBy, Flatten;
    PacedPrefix(p, l, evs);
    var init := evs[..|evs| - 1];
    LastSized(l, evs);
    var j, e := JointRun(p, l, init), evs[|evs| - 1];
    LastStep(p, l, evs);
    JointCore(p, l, init);
    JointCore(p, l, evs);
    WritesNextByte(p, l, j, e);
    NoAdvance(l, j, e);
    if j.t.frameStrobe {
      FilledAtStrobe(p, l, j, e);
    } else {
      RecordGrows(p, l, j, e);
    }
  }

  lemma LastStep(p: Params, l: Layout, evs: seq<JointEvent>)
    requires p.Ok() && l.Ok() && evs != [] && AllSized(l, evs)
    ensures JointRun(p, l, evs) == JointStep(p, l, JointRun(p, l, evs[..|evs| - 1]), evs[|evs| - 1])
  {
  }

  lemma LastSized(l: Layout, evs: seq<JointEvent>)
    requires evs != [] && AllSized(l, evs)
    ensures CycleSized(l, evs[|evs| - 1]) && AllSized(l, evs[..|evs| - 1])
  {
  }

  lemma FilledAtStrobe(p: Params, l: Layout, j: Joint, e: JointEvent)
    requires Core(p, l, j) && CycleSized(l, e) && Paced(l, j, e) && e.s.Some? && j.t.frameStrobe
    ensures |FrameRecord(j.slots, Report(j))| == l.RecordSize() && Filled(l, JointStep(p, l, j, e)) == 0
  {
    RecordLength(l, j);
    FrameHasAllSlots(l, j);
    hide FrameRecord, Report, WorldStep, Overflow, OutputsOf, FifoCycle, PageInv, RecordsInv, LogInv, StrobeInv,
         AdapterStep, ST.TimingStep, ST.FlagsExact;
  }

  /** Channel `c` of timeslot `n` is at index `n * ch + c`. */
  predicate PlacedAt(page: seq<int>, slots: seq<seq<int>>, ch: nat, n: nat, c: nat) {
    && n < |slots| && |slots[n]| == ch && c < ch
    && 0 <= n * ch + c < |page| && page[n * ch + c] == slots[n][c]
  }

  ghost predicate SlotsPlaced(page: seq<int>, slots: seq<seq<int>>, ch: nat) {
    forall n, c :: 0 <= n < |slots| && 0 <= c < ch ==> PlacedAt(page, slots, ch, n, c)
  }

  /** The layout of a finished record: channel c of timeslot n at index n * channels + c,
      as it stood at that timeslot's start strobe, then the report. */
  ghost predicate LaidOut(l: Layout, page: seq<int>, slots: seq<seq<int>>, report: seq<int>) {
    var at := l.timeslots * l.channels;
    && |slots| == l.timeslots && 0 <= at && at + |report| <= |page|
    && SlotsPlaced(page, slots, l.channels)
    && page[at..at + |report|] == report
  }

  lemma RecordLayout(p: Params, l: Layout, evs: seq<JointEvent>)
    requires p.Ok() && l.Ok() && p.pageSize >= l.RecordSize() && evs != []
    requires AllSized(l, evs) && AllPaced(p, l, evs)
    requires evs[|evs| - 1].s.Some? && JointRun(p, l, evs[..|evs| - 1]).t.frameStrobe
    ensures var j := JointRun(p, l, evs[..|evs| - 1]);
            var f := FifoEvent(l, j, evs[|evs| - 1]);
            && (f.w.value.en ==> f.w.value.addr < p.pageSize)
            && LaidOut(l, Written(p, j.w, f), j.slots, Report(j))
  {
    hide JointRun, AllPaced, AllSized, SpacedBy, LaidOut, Paced, RecordsInv, LogInv, StrobeInv, AdapterInv, PageInv,
         Flatten, Written, CycleSized, Le32, FrameRecord;
    PacedPrefix(p, l, evs);
    LastSized(l, evs);
    var init, e := evs[..|evs| - 1], evs[|evs| - 1];
    var j := JointRun(p, l, init);
    JointCore(p, l, init);
    RecordWritten(p, l, j, e);
    FrameHasAllSlots(l, j);
    RecordOf(l, j);
    LaidOutFrom(l, Written(p, j.w, FifoEvent(l, j, e)), j.slots, Report(j));
  }

  lemma RecordOf(l: Layout, j: Joint)
    requires SlotsInv(l, j)
    ensures FrameRecord(j.slots, Report(j)) == Flatten(j.slots) + Report(j)
    ensures forall i :: 0 <= i < |j.slots| ==> |j.slots[i]| == l.channels
  {
    hide Flatten, Report;
  }

  lemma LaidOutFrom(l: Layout, page: seq<int>, slots: seq<seq<int>>, report: seq<int>)
    requires |slots| == l.timeslots && |report| == l.report && l.RecordSize() <= |page|
    requires forall i :: 0 <= i < |slots| ==> |slots[i]| == l.channels
    requires page[..l.RecordSize()] == Flatten(slots) + report
    ensures LaidOut(l, page, slots, report)
  {
    var body := Flatten(slots);
    FlattenLength(slots, l.channels);
    assert l.RecordSize() == |body| + |report|;
    hide Flatten, SlotsPlaced;
    AllPlaced(page, slots, report, l.channels);
    FrontReport(page, body, report);
  }

  lemma AllPlaced(page: seq<int>, slots: seq<seq<int>>, report: seq<int>, ch: nat)
    requires |Flatten(slots)| + |report| <= |page|
    requires page[..|Flatten(slots)| + |report|] == Flatten(slots) + report
    requires forall i :: 0 <= i < |slots| ==> |slots[i]| == ch
    ensures SlotsPlaced(page, slots, ch)
  {
    hide Flatten, PlacedAt;
    forall n, c | 0 <= n < |slots| && 0 <= c < ch ensures PlacedAt(page, slots, ch, n, c) {
      SlotPlaced(page, slots, report, ch, n, c);
    }
  }

  lemma SlotPlaced(page: seq<int>, slots: seq<seq<int>>, report: seq<int>, ch: nat, n: nat, c: nat)
    requires |Flatten(slots)| + |report| <= |page|
    requires page[..|Flatten(slots)| + |report|] == Flatten(slots) + report
    requires (forall i :: 0 <= i < |slots| ==> |slots[i]| == ch) && n < |slots| && c < ch
    ensures PlacedAt(page, slots, ch, n, c)
  {
    FlattenIndex(slots, ch, n, c);
    hide Flatten;
    FrontIndex(page, Flatten(slots), report, n * ch + c);
  }

  lemma FrontIndex(page: seq<int>, body: seq<int>, report: seq<int>, k: nat)
    requires |body| + |report| <= |page| && page[..|body| + |report|] == body + report && k < |body|
    ensures page[k] == body[k]
  {
    assert page[k] == page[..|body| + |report|][k];
  }

  lemma FrontReport(page: seq<int>, body: seq<int>, report: seq<int>)
    requires |body| + |report| <= |page| && page[..|body| + |report|] == body + report
    ensures page[|body|..|body| + |report|] == report
  {
    assert page[|body|..|body| + |report|] == page[..|body| + |report|][|body|..];
  }

  // ----- Gaps -----

  /** The positions of the granted records among all records. */
  function Positions(granted: seq<bool>): (pos: seq<nat>)
    ensures forall i :: 0 <= i < |pos| ==> pos[i] < |granted| && granted[pos[i]]
    ensures forall i, k :: 0 <= i < k < |pos| ==> pos[i] < pos[k]
  {
    if granted == [] then [] else
      var n := |granted| - 1;
      Positions(granted[..n]) + if granted[n] then [n] else []
  }

  lemma {:induction false} TakenAtPositions(records: seq<seq<int>>, granted: seq<bool>)
    requires |records| == |granted|
    ensures var pos := Positions(granted);
            && |Taken(records, granted)| == |pos|
            && forall i :: 0 <= i < |pos| ==> Taken(records, granted)[i] == records[pos[i]]
  {
    if records != [] {
      var n := |records| - 1;
      TakenAtPositions(records[..n], granted[..n]);
      var pos, taken := Positions(granted[..n]), Taken(records[..n], granted[..n]);
      assert Positions(granted) == pos + if granted[n] then [n] else [];
      assert Taken(records, granted) == taken + if granted[n] then [records[n]] else [];
      hide Positions, Taken;
    }
  }

  lemma {:induction false} NothingBetween(granted: seq<bool>, i: nat, k: nat)
    requires i + 1 < |Positions(granted)| && Positions(granted)[i] < k < Positions(granted)[i + 1]
    ensures !granted[k]
  {
    var n := |granted| - 1;
    if i + 1 < |Positions(granted[..n])| {
      NothingBetween(granted[..n], i, k);
    } else if granted[k] {
      var pos := Positions(granted[..n]);
      PositionsComplete(granted[..n], k);
    }
  }

  lemma {:induction false} PositionsComplete(granted: seq<bool>, k: nat)
    requires k < |granted| && granted[k]
    ensures exists i :: 0 <= i < |Positions(granted)| && Positions(granted)[i] == k
  {
    var n := |granted| - 1;
    var pos := Positions(granted);
    if k < n {
      PositionsComplete(granted[..n], k);
      var i :| 0 <= i < |Positions(granted[..n])| && Positions(granted[..n])[i] == k;
      assert pos[i] == k;
    } else {
      assert pos[|pos| - 1] == k;
    }
  }

  function FrameCountOf(l: Layout, record: seq<int>): int
    requires |record| >= l.timeslots * l.channels + 4
  {
    var at := l.timeslots * l.channels;
    FromLe32(record[at..at + 4])
  }

  /** Gap conservation. Between two pages that follow each other in the FIFO, the difference
      of the frame counts they carry counts the frames from one to the other, and every frame
      in between was refused because the FIFO was full. So a host that sees only committed
      records can count the losses, modulo the width of the count. */
  lemma GapCountsOverflows(p: Params, l: Layout, evs: seq<JointEvent>, i: nat)
    requires p.Ok() && l.Ok() && p.pageSize >= l.RecordSize()
    requires AllSized(l, evs) && AllPaced(p, l, evs)
    requires i + 1 < |JointRun(p, l, evs).w.hist.log|
    ensures var j := JointRun(p, l, evs);
            var log, pos := j.w.hist.log, Positions(j.granted);
            && |pos| == |log| && |log[i]| == |log[i + 1]| == p.pageSize
            && (FrameCountOf(l, log[i + 1]) - FrameCountOf(l, log[i])) % 0x1_0000_0000
                 == (pos[i + 1] - pos[i]) % 0x1_0000_0000
            && forall k :: pos[i] < k < pos[i + 1] ==> !j.granted[k]
  {
    hide SlotsInv, AdapterInv, PageInv, StrobeInv, WorldStep, JointRun, Le32, FromLe32, AllPaced, AllSized,
         Positions, Taken;
    var j := JointRun(p, l, evs);
    JointCore(p, l, evs);
    TakenAtPositions(j.records, j.granted);
    var pos := Positions(j.granted);
    forall k | pos[i] < k < pos[i + 1] ensures !j.granted[k] { NothingBetween(j.granted, i, k); }
    CountAt(p, l, j, i, pos[i]);
    CountAt(p, l, j, i + 1, pos[i + 1]);
    ModOfDifference(pos[i + 1], pos[i], 0x1_0000_0000);
  }

  lemma CountAt(p: Params, l: Layout, j: Joint, i: nat, at: nat)
    requires l.Ok() && RecordsInv(l, j) && LogInv(p, l, j) && i < |j.w.hist.log| && at < |j.records|
    requires j.w.hist.log[i][..l.RecordSize()] == j.records[at]
    ensures FrameCountOf(l, j.w.hist.log[i]) == at % 0x1_0000_0000
  {
    hide Taken, Le32, FromLe32;
    var k := l.timeslots * l.channels;
    assert CountedRecord(l, j.records[at], at);
    assert l.RecordSize() >= k + 4 && k >= 0;
    SamePart(j.w.hist.log[i], j.records[at], l.RecordSize(), k);
    Le32Inverse(at % 0x1_0000_0000);
  }

  lemma SamePart(page: seq<int>, record: seq<int>, size: nat, k: nat)
    requires size <= |page| && page[..size] == record && k + 4 <= size
    ensures page[k..k + 4] == record[k..k + 4]
  {
  }
}
