/** The adapter between the receive FIFO and the isochronous IN endpoint: in each USB
    microframe it supplies zero, one or two pages and then a report. */
module RxUsb {
  import opened PagedFifo

  datatype Fsm = WAIT_SOF | FRAME_2 | FRAME_1 | REPORT

  /** Bytes per record and bytes per report. */
  datatype Sizes = Sizes(frame: nat, report: nat) {
    predicate Ok() { frame >= 1 && report >= 1 }
  }

  datatype Adapter = Adapter(fsm: Fsm, address: nat)

  /** The adapter's inputs at one edge of the USB clock, apart from the FIFO. */
  datatype UsbCycle = UsbCycle(sof: bool, byteAdvance: bool, report: seq<int>)

  function PagesInFrame(level2: nat): nat {
    if level2 == 0 then 0 else if level2 == 1 then 1 else 2
  }

  function BytesInFrame(z: Sizes, level2: nat): nat {
    PagesInFrame(level2) * z.frame + z.report
  }

  predicate FrameLast(z: Sizes, a: Adapter, u: UsbCycle) { a.address == z.frame - 1 && u.byteAdvance }

  predicate ReportLast(z: Sizes, a: Adapter, u: UsbCycle) { a.address == z.report - 1 && u.byteAdvance }

  function AddressNext(z: Sizes, a: Adapter, u: UsbCycle): nat {
    var advanced := if u.byteAdvance then a.address + 1 else a.address;
    match a.fsm
    case WAIT_SOF => 0
    case FRAME_2 => if FrameLast(z, a, u) then 0 else advanced
    case FRAME_1 => if FrameLast(z, a, u) then 0 else advanced
    case REPORT => if ReportLast(z, a, u) then 0 else advanced
  }

  function FsmNext(z: Sizes, a: Adapter, u: UsbCycle, level2: nat): Fsm {
    match a.fsm
    case WAIT_SOF =>
      if !u.sof then WAIT_SOF
      else if PagesInFrame(level2) == 0 then REPORT
      else if PagesInFrame(level2) == 1 then FRAME_1
      else FRAME_2
    case FRAME_2 => if FrameLast(z, a, u) then FRAME_1 else FRAME_2
    case FRAME_1 => if FrameLast(z, a, u) then REPORT else FRAME_1
    case REPORT => if ReportLast(z, a, u) then WAIT_SOF else REPORT
  }

  /** What the adapter presents to the FIFO's read side. */
  function FifoCycle(z: Sizes, a: Adapter, u: UsbCycle): ReadCycle {
    var inFrame := a.fsm == FRAME_2 || a.fsm == FRAME_1;
    ReadCycle(if inFrame then AddressNext(z, a, u) else 0, inFrame && FrameLast(z, a, u))
  }

  /** What the adapter presents to the endpoint. */
  function EndpointValue(a: Adapter, u: UsbCycle, rData: int): int {
    match a.fsm
    case WAIT_SOF => 0
    case FRAME_2 => rData
    case FRAME_1 => rData
    case REPORT => if a.address < |u.report| then u.report[a.address] else 0
  }

  function AdapterStep(z: Sizes, a: Adapter, u: UsbCycle, level2: nat): Adapter {
    Adapter(FsmNext(z, a, u, level2), AddressNext(z, a, u))
  }

  class RxFIFOToUSBInAdapter {
    const sizes: Sizes
    var fsm: Fsm
    var address: nat

    constructor (z: Sizes)
      ensures sizes == z && State() == Adapter(WAIT_SOF, 0)
    {
      sizes, fsm, address := z, WAIT_SOF, 0;
    }

    function State(): Adapter
      reads this
    {
      Adapter(fsm, address)
    }

    /** One USB clock: the combinational outputs, then the registers. */
    method Clock(u: UsbCycle, rData: int, level2: nat)
        returns (value: int, fifo: ReadCycle, bytesInFrame: nat)
      modifies this
      ensures value == EndpointValue(old(State()), u, rData)
      ensures fifo == FifoCycle(sizes, old(State()), u)
      ensures bytesInFrame == BytesInFrame(sizes, level2)
      ensures State() == AdapterStep(sizes, old(State()), u, level2)
    {
      var pages: nat;
      if level2 == 0 { pages := 0; } else if level2 == 1 { pages := 1; } else { pages := 2; }
      bytesInFrame := pages * sizes.frame + sizes.report;
      var frameLast := address == sizes.frame - 1 && u.byteAdvance;
      var reportLast := address == sizes.report - 1 && u.byteAdvance;
      value, fifo := 0, ReadCycle(0, false);
      match fsm {
        case WAIT_SOF =>
          address := 0;
          if u.sof {
            if pages == 0 { fsm := REPORT; } else if pages == 1 { fsm := FRAME_1; } else { fsm := FRAME_2; }
          }
        case FRAME_2 =>
          value := rData;
          if u.byteAdvance { address := address + 1; }
          if frameLast { address, fsm := 0, FRAME_1; }
          fifo := ReadCycle(address, frameLast);
        case FRAME_1 =>
          value := rData;
          if u.byteAdvance { address := address + 1; }
          if frameLast { address, fsm := 0, REPORT; }
          fifo := ReadCycle(address, frameLast);
        case REPORT =>
          value := if address < |u.report| then u.report[address] else 0;
          if u.byteAdvance { address := address + 1; }
          if reportLast { address, fsm := 0, WAIT_SOF; }
      }
    }
  }
}

/** The adapter composed with the paged FIFO, over whole runs. */
module RxUsbRuns {
  import opened Wrappers
  import opened GrayCode
  import opened Numbers
  import opened AsyncFifo
  import opened PagedFifo
  import opened PagedFifoRuns
  import opened RxUsb
  import opened Chunks

  /** One instant of the composition: the framer side writes, the USB side is clocked. */
  datatype JointEvent = JointEvent(w: Option<WriteCycle>, u: Option<UsbCycle>, wMix: Bits, rMix: Bits)

  /** One microframe's supply. `start` is the number of the first record, `pages` how many
      records were promised at the start of frame. `early` says that the endpoint took a
      byte in the very cycle after the last byte of the first of two records. `report` is
      the report as it stood after the start of frame and `stable` that it did not change. */
  datatype Microframe = Microframe(start: nat, pages: nat, bytes: seq<int>, early: bool,
                                   report: seq<int>, stable: bool)

  datatype Supply = Supply(cur: Microframe, first: bool, switched: bool, done: seq<Microframe>)

  datatype Joint = Joint(w: World, a: Adapter, s: Supply)

  function FifoEvent(z: Sizes, j: Joint, e: JointEvent): Event {
    Event(e.w, if e.u.Some? then Some(FifoCycle(z, j.a, e.u.value)) else None, e.wMix, e.rMix)
  }

  function SupplyStep(z: Sizes, j: Joint, u: UsbCycle, level2: nat): Supply {
    var s := j.s;
    if j.a.fsm == WAIT_SOF then
      if u.sof
      then Supply(Microframe(j.w.sh.consumed, PagesInFrame(level2), [], false, [], true), true, false, s.done)
      else s
    else
      var cur := s.cur.(
        bytes := if u.byteAdvance then s.cur.bytes + [EndpointValue(j.a, u, j.w.st.rData)] else s.cur.bytes,
        early := s.cur.early || (s.switched && u.byteAdvance),
        report := if s.first then u.report else s.cur.report,
        stable := if s.first then true else s.cur.stable && u.report == s.cur.report);
      var finished := j.a.fsm == REPORT && ReportLast(z, j.a, u);
      Supply(cur, false, j.a.fsm == FRAME_2 && FrameLast(z, j.a, u),
             if finished then s.done + [cur] else s.done)
  }

  function JointStep(p: Params, z: Sizes, j: Joint, e: JointEvent): (n: Joint)
    requires WellSized(p, j.w.st)
    ensures WellSized(p, n.w.st)
  {
    var level2 := OutputsOf(p, j.w.st.ctr, FifoEvent(z, j, e)).rLevel2;
    Joint(WorldStep(p, j.w, FifoEvent(z, j, e)),
          if e.u.Some? then AdapterStep(z, j.a, e.u.value, level2) else j.a,
          if e.u.Some? then SupplyStep(z, j, e.u.value, level2) else j.s)
  }

  function JointStart(p: Params): Joint {
    Joint(Start(p), Adapter(WAIT_SOF, 0),
          Supply(Microframe(0, 0, [], false, [], true), false, false, []))
  }

  function JointRun(p: Params, z: Sizes, evs: seq<JointEvent>): (j: Joint)
    requires p.Ok()
    ensures WellSized(p, j.w.st)
  {
    if evs == [] then JointStart(p)
    else JointStep(p, z, JointRun(p, z, evs[..|evs| - 1]), evs[|evs| - 1])
  }

  ghost predicate ReportsSized(z: Sizes, evs: seq<JointEvent>) {
    forall i :: 0 <= i < |evs| && evs[i].u.Some? ==> |evs[i].u.value.report| == z.report
  }

  // ----- No underflow -----

  /** Once pages have been promised the reader's level covers them, whatever happens. */
  ghost predicate LevelInv(j: Joint) {
    var level := j.w.sh.p1 - j.w.sh.consumed;
    && (j.a.fsm == FRAME_2 ==> level >= 3)
    && (j.a.fsm == FRAME_1 ==> level >= 2)
    && j.w.hist.underflows == 0
  }

  lemma StepKeepsLevel(p: Params, z: Sizes, j: Joint, e: JointEvent)
    requires p.Ok() && Inv(p, j.w) && LevelInv(j)
    ensures LevelInv(JointStep(p, z, j, e))
  {
    hide Gray, FullTest, CounterStep, Step;
    FlagsExact(p.Width(), j.w.st.ctr, j.w.sh);
  }

  lemma {:induction false} JointInv(p: Params, z: Sizes, evs: seq<JointEvent>)
    requires p.Ok()
    ensures Inv(p, JointRun(p, z, evs).w) && LevelInv(JointRun(p, z, evs))
  {
    hide Inv, WorldStep, AdapterStep, SupplyStep;
    if evs == [] {
      RunInv(p, []);
    } else {
      var j := JointRun(p, z, evs[..|evs| - 1]);
      JointInv(p, z, evs[..|evs| - 1]);
      StepKeepsInv(p, j.w, FifoEvent(z, j, evs[|evs| - 1]));
      StepKeepsLevel(p, z, j, evs[|evs| - 1]);
    }
  }

  /** The adapter never underflows the FIFO: in every run, with any spacing of the write
      strobes, and even if the host skips microframes and leaves a supply half drained. */
  lemma NeverUnderflows(p: Params, z: Sizes, evs: seq<JointEvent>)
    requires p.Ok()
    ensures JointRun(p, z, evs).w.hist.underflows == 0
  {
    JointInv(p, z, evs);
  }

  // ----- What is supplied -----

  function Rec(z: Sizes, log: seq<seq<int>>, i: nat): seq<int>
    requires i < |log| && |log[i]| >= z.frame
  {
    log[i][..z.frame]
  }

  ghost predicate Covers(z: Sizes, log: seq<seq<int>>, m: Microframe) {
    && m.start + m.pages <= |log| && m.pages <= 2
    && forall i :: 0 <= i < |log| ==> |log[i]| >= z.frame
  }

  /** The second of two records: its first byte is the first record's when it was taken
      in the cycle right after the page changed. */
  function Second(z: Sizes, log: seq<seq<int>>, m: Microframe): (r: seq<int>)
    requires z.Ok() && Covers(z, log, m) && m.pages == 2
    ensures |r| == z.frame
  {
    var rec := Rec(z, log, m.start + 1);
    if m.early then [log[m.start][0]] + rec[1..] else rec
  }

  function Frames(z: Sizes, log: seq<seq<int>>, m: Microframe): seq<int>
    requires z.Ok() && Covers(z, log, m)
  {
    if m.pages == 0 then []
    else if m.pages == 1 then Rec(z, log, m.start)
    else Rec(z, log, m.start) + Second(z, log, m)
  }

  ghost predicate Delivered(z: Sizes, log: seq<seq<int>>, m: Microframe)
    requires z.Ok()
  {
    && Covers(z, log, m)
    && |m.report| == z.report
    && |m.bytes| == |Frames(z, log, m)| + z.report
    && m.bytes[..|Frames(z, log, m)|] == Frames(z, log, m)
    && (m.stable ==> m.bytes[|Frames(z, log, m)|..] == m.report)
  }

  /** The number of the first record not yet supplied. */
  function Next(done: seq<Microframe>): nat {
    if done == [] then 0 else done[|done| - 1].start + done[|done| - 1].pages
  }

  ghost predicate Consecutive(done: seq<Microframe>) {
    forall i :: 0 <= i < |done| ==> done[i].start == Next(done[..i])
  }

  ghost predicate InFrame2(z: Sizes, j: Joint, log: seq<seq<int>>)
    requires z.Ok() && Covers(z, log, j.s.cur) && j.w.sh.consumed < |log|
  {
    var m := j.s.cur;
    && m.pages == 2 && m.start == j.w.sh.consumed && !m.early && !j.s.switched
    && j.a.address < z.frame
    && m.bytes == Rec(z, log, m.start)[..j.a.address]
    && j.w.st.rData == log[m.start][j.a.address]
  }

  ghost predicate InFrame1(z: Sizes, j: Joint, log: seq<seq<int>>)
    requires z.Ok() && Covers(z, log, j.s.cur) && j.w.sh.consumed < |log|
  {
    var m := j.s.cur;
    && m.pages >= 1 && m.start + m.pages - 1 == j.w.sh.consumed
    && j.a.address < z.frame
    && (m.pages == 1 ==> !j.s.switched && !m.early && m.bytes == Rec(z, log, m.start)[..j.a.address])
    && (m.pages == 2 ==> m.bytes == Rec(z, log, m.start) + Second(z, log, m)[..j.a.address])
    && (j.a.address == 0 ==> !m.early)
    && (j.s.switched ==> j.a.address == 0 && j.w.st.rData == log[m.start][0])
    && (!j.s.switched ==> j.w.st.rData == log[j.w.sh.consumed][j.a.address])
  }

  ghost predicate InReport(z: Sizes, j: Joint, log: seq<seq<int>>)
    requires z.Ok() && Covers(z, log, j.s.cur)
  {
    var m := j.s.cur;
    var frames := Frames(z, log, m);
    && m.start + m.pages == j.w.sh.consumed && j.a.address < z.report && !j.s.switched
    && |m.bytes| == |frames| + j.a.address && m.bytes[..|frames|] == frames
    && (j.s.first ==> j.a.address == 0)
    && (!j.s.first ==> |m.report| == z.report)
    && (!j.s.first && m.stable ==> m.bytes[|frames|..] == m.report[..j.a.address])
  }

  ghost predicate SupplyInv(z: Sizes, j: Joint) {
    var log := j.w.hist.log;
    && z.Ok()
    && (forall i :: 0 <= i < |log| ==> |log[i]| >= z.frame)
    && (forall i :: 0 <= i < |j.s.done| ==> Delivered(z, log, j.s.done[i]))
    && Consecutive(j.s.done)
    && (j.a.fsm == WAIT_SOF ==> j.a.address == 0 && j.w.sh.consumed == Next(j.s.done))
    && (j.a.fsm != WAIT_SOF ==>
          Covers(z, log, j.s.cur) && j.s.cur.start == Next(j.s.done)
          && (!j.s.first ==> |j.s.cur.report| == z.report))
    && (j.a.fsm == FRAME_2 ==> j.w.sh.consumed < |log| && InFrame2(z, j, log))
    && (j.a.fsm == FRAME_1 ==> j.w.sh.consumed < |log| && InFrame1(z, j, log))
    && (j.a.fsm == REPORT ==> InReport(z, j, log))
  }

  /** Everything the adapter's proof needs to know about one instant of the FIFO. */
  ghost predicate FifoFacts(p: Params, z: Sizes, j: Joint, e: JointEvent, n: World) {
    var w := j.w;
    && w.hist.log <= n.hist.log
    && (forall i :: 0 <= i < |n.hist.log| ==> |n.hist.log[i]| == p.pageSize)
    && (e.u.None? ==> n.sh.consumed == w.sh.consumed && n.st.rData == w.st.rData)
    && (e.u.Some? ==>
         var r := FifoCycle(z, j.a, e.u.value);
         && n.sh.consumed == w.sh.consumed + Count(r.advance)
         && (w.sh.consumed < |w.hist.log| && r.addr < p.pageSize ==>
               |w.hist.log[w.sh.consumed]| == p.pageSize
               && n.st.rData == w.hist.log[w.sh.consumed][r.addr]))
  }

  lemma SmallAddress(addr: nat, size: nat)
    requires addr < size
    ensures addr % size == addr
  {
    ModUnique(addr, 0, size);
  }

  lemma FifoInstant(p: Params, z: Sizes, j: Joint, e: JointEvent)
    requires p.Ok() && Inv(p, j.w) && ContentInv(p, j.w) && LevelInv(j)
    requires Inv(p, WorldStep(p, j.w, FifoEvent(z, j, e)))
    ensures FifoFacts(p, z, j, e, WorldStep(p, j.w, FifoEvent(z, j, e)))
  {
    hide Gray, FullTest, CounterStep, CounterInv, PageAt, Pow2;
    var ev := FifoEvent(z, j, e);
    LevelFacts(p, j);
    if e.u.Some? {
      var r := ev.r.value;
      ReadPort(p, j.w, ev);
      if r.addr < p.pageSize { SmallAddress(r.addr, p.pageSize); }
    }
  }

  lemma LevelFacts(p: Params, j: Joint)
    requires p.Ok() && Inv(p, j.w)
    ensures RLevel(p.Width(), j.w.st.ctr) == j.w.sh.p1 - j.w.sh.consumed
    ensures RRdy(j.w.st.ctr) <==> j.w.sh.consumed < j.w.sh.p1
    ensures j.w.sh.consumed <= j.w.sh.p1 <= j.w.sh.produced == |j.w.hist.log|
  {
    FlagsExact(p.Width(), j.w.st.ctr, j.w.sh);
  }

  /** Supplies already made keep their meaning as the log grows. */
  lemma LogExtends(z: Sizes, log: seq<seq<int>>, more: seq<seq<int>>, m: Microframe)
    requires z.Ok() && Covers(z, log, m) && log <= more
    requires forall i :: 0 <= i < |more| ==> |more[i]| >= z.frame
    ensures Covers(z, more, m) && Frames(z, more, m) == Frames(z, log, m)
    ensures m.pages == 2 ==> Second(z, more, m) == Second(z, log, m)
  {
  }

  lemma DoneKept(z: Sizes, log: seq<seq<int>>, more: seq<seq<int>>, done: seq<Microframe>)
    requires z.Ok() && log <= more
    requires forall i :: 0 <= i < |more| ==> |more[i]| >= z.frame
    requires forall i :: 0 <= i < |done| ==> Delivered(z, log, done[i])
    ensures forall i :: 0 <= i < |done| ==> Delivered(z, more, done[i])
  {
    forall i | 0 <= i < |done| ensures Delivered(z, more, done[i]) {
      LogExtends(z, log, more, done[i]);
    }
  }

  ghost predicate Instant(p: Params, z: Sizes, j: Joint, e: JointEvent, n: Joint) {
    && p.Ok() && z.Ok() && p.pageSize >= z.frame
    && SupplyInv(z, j) && FifoFacts(p, z, j, e, n.w)
    && (j.a.fsm == FRAME_2 || j.a.fsm == FRAME_1 ==> j.w.sh.consumed + 1 < |j.w.hist.log|)
  }

  lemma IdleInstant(p: Params, z: Sizes, j: Joint, e: JointEvent, n: Joint)
    requires Instant(p, z, j, e, n) && e.u.None? && n.a == j.a && n.s == j.s
    ensures SupplyInv(z, n)
  {
    DoneKept(z, j.w.hist.log, n.w.hist.log, j.s.done);
    if j.a.fsm != WAIT_SOF {
      LogExtends(z, j.w.hist.log, n.w.hist.log, j.s.cur);
    }
  }

  lemma WaitInstant(p: Params, z: Sizes, j: Joint, e: JointEvent, n: Joint, level2: nat)
    requires Instant(p, z, j, e, n) && e.u.Some? && j.a.fsm == WAIT_SOF
    requires n.a == AdapterStep(z, j.a, e.u.value, level2) && n.s == SupplyStep(z, j, e.u.value, level2)
    requires j.w.sh.consumed <= |j.w.hist.log|
    requires level2 > 0 ==> j.w.sh.consumed + level2 < |j.w.hist.log|
    ensures SupplyInv(z, n)
  {
    DoneKept(z, j.w.hist.log, n.w.hist.log, j.s.done);
  }

  /** One more byte of `body`, or none. */
  lemma TakeOne(body: seq<int>, a: nat, taken: bool)
    requires a < |body|
    ensures body[..if taken then a + 1 else a] == body[..a] + if taken then [body[a]] else []
  {
  }

  /** The first record of two: byte after byte from the page being read. */
  lemma Frame2Instant(p: Params, z: Sizes, j: Joint, e: JointEvent, n: Joint, level2: nat)
    requires Instant(p, z, j, e, n) && e.u.Some? && j.a.fsm == FRAME_2
    requires n.a == AdapterStep(z, j.a, e.u.value, level2) && n.s == SupplyStep(z, j, e.u.value, level2)
    requires |e.u.value.report| == z.report
    ensures SupplyInv(z, n)
  {
    hide Delivered, Consecutive, Next, Second;
    var u, m, k := e.u.value, j.s.cur, n.s.cur;
    var log, more := j.w.hist.log, n.w.hist.log;
    DoneKept(z, log, more, j.s.done);
    LogExtends(z, log, more, m);
    var rec := Rec(z, more, m.start);
    TakeOne(rec, j.a.address, u.byteAdvance);
    assert k.bytes == rec[..if u.byteAdvance then j.a.address + 1 else j.a.address];
    if FrameLast(z, j.a, u) {
      assert rec[..z.frame] == rec;
      assert k.bytes == rec + Second(z, more, k)[..0];
      assert InFrame1(z, n, more);
    } else {
      assert InFrame2(z, n, more);
    }
  }

  /** The last record, whichever byte the read port holds at its start. */
  lemma LastRecordByte(z: Sizes, j: Joint, u: UsbCycle, log: seq<seq<int>>, k: Microframe)
    requires z.Ok() && Covers(z, log, j.s.cur) && j.w.sh.consumed < |log| && InFrame1(z, j, log)
    requires k.start == j.s.cur.start && k.pages == j.s.cur.pages
    requires k.early == (j.s.cur.early || (j.s.switched && u.byteAdvance))
    requires k.bytes == if u.byteAdvance then j.s.cur.bytes + [j.w.st.rData] else j.s.cur.bytes
    ensures var a := if u.byteAdvance then j.a.address + 1 else j.a.address;
            && (k.pages == 1 ==> k.bytes == Rec(z, log, k.start)[..a])
            && (k.pages == 2 ==> k.bytes == Rec(z, log, k.start) + Second(z, log, k)[..a])
  {
    var m, a := j.s.cur, j.a.address;
    if m.pages == 1 {
      TakeOne(Rec(z, log, m.start), a, u.byteAdvance);
    } else {
      SecondByte(z, j, u, log, k);
    }
  }

  /** The second of two records, byte by byte. */
  lemma SecondByte(z: Sizes, j: Joint, u: UsbCycle, log: seq<seq<int>>, k: Microframe)
    requires z.Ok() && Covers(z, log, j.s.cur) && j.w.sh.consumed < |log| && InFrame1(z, j, log)
    requires k.start == j.s.cur.start && k.pages == j.s.cur.pages == 2
    requires k.early == (j.s.cur.early || (j.s.switched && u.byteAdvance))
    requires k.bytes == if u.byteAdvance then j.s.cur.bytes + [j.w.st.rData] else j.s.cur.bytes
    ensures var a := if u.byteAdvance then j.a.address + 1 else j.a.address;
            k.bytes == Rec(z, log, k.start) + Second(z, log, k)[..a]
  {
    var a := j.a.address;
    if j.s.switched {
      assert Second(z, log, j.s.cur)[..0] == Second(z, log, k)[..0];
    } else {
      SameSecond(z, log, j.s.cur, k);
    }
    SecondAt(z, log, k, a);
    hide Second, Rec;
    LongerByOne(Rec(z, log, k.start), Second(z, log, k), a, u.byteAdvance);
  }

  lemma SameSecond(z: Sizes, log: seq<seq<int>>, m: Microframe, k: Microframe)
    requires z.Ok() && Covers(z, log, m) && m.pages == 2
    requires k.start == m.start && k.pages == m.pages && k.early == m.early
    ensures Second(z, log, k) == Second(z, log, m)
  {
  }

  lemma SecondAt(z: Sizes, log: seq<seq<int>>, m: Microframe, a: nat)
    requires z.Ok() && Covers(z, log, m) && m.pages == 2 && a < z.frame
    ensures Second(z, log, m)[a] == if m.early && a == 0 then log[m.start][0] else log[m.start + 1][a]
  {
  }

  lemma LongerByOne(first: seq<int>, second: seq<int>, a: nat, taken: bool)
    requires a < |second|
    ensures first + second[..if taken then a + 1 else a]
         == if taken then first + second[..a] + [second[a]] else first + second[..a]
  {
  }

  lemma Frame1Bytes(p: Params, z: Sizes, j: Joint, e: JointEvent, n: Joint, level2: nat)
    requires Instant(p, z, j, e, n) && e.u.Some? && j.a.fsm == FRAME_1 && Covers(z, n.w.hist.log, j.s.cur)
    requires n.a == AdapterStep(z, j.a, e.u.value, level2) && n.s == SupplyStep(z, j, e.u.value, level2)
    requires j.w.sh.consumed < |j.w.hist.log| && InFrame1(z, j, j.w.hist.log)
    requires |e.u.value.report| == z.report && (!j.s.first ==> |j.s.cur.report| == z.report)
    ensures if FrameLast(z, j.a, e.u.value) then InReport(z, n, n.w.hist.log) else InFrame1(z, n, n.w.hist.log)
  {
    hide Delivered, Consecutive, Next, Second, Frames, Rec, SupplyInv;
    var u, k, more := e.u.value, n.s.cur, n.w.hist.log;
    InFrame1Extends(z, j, j.w.hist.log, more);
    LastRecordByte(z, j, u, more, k);
    if FrameLast(z, j.a, u) { FramesComplete(z, more, k); }
  }

  lemma Frame1Instant(p: Params, z: Sizes, j: Joint, e: JointEvent, n: Joint, level2: nat)
    requires Instant(p, z, j, e, n) && e.u.Some? && j.a.fsm == FRAME_1
    requires n.a == AdapterStep(z, j.a, e.u.value, level2) && n.s == SupplyStep(z, j, e.u.value, level2)
    requires |e.u.value.report| == z.report
    ensures SupplyInv(z, n)
  {
    hide Delivered, Consecutive, Next, InFrame1, InFrame2, InReport, Rec;
    DoneKept(z, j.w.hist.log, n.w.hist.log, j.s.done);
    LogExtends(z, j.w.hist.log, n.w.hist.log, j.s.cur);
    Frame1Bytes(p, z, j, e, n, level2);
  }

  lemma InFrame1Extends(z: Sizes, j: Joint, log: seq<seq<int>>, more: seq<seq<int>>)
    requires z.Ok() && Covers(z, log, j.s.cur) && j.w.sh.consumed < |log| && InFrame1(z, j, log)
    requires log <= more && Covers(z, more, j.s.cur)
    ensures InFrame1(z, j, more)
  {
    LogExtends(z, log, more, j.s.cur);
  }

  lemma FramesComplete(z: Sizes, log: seq<seq<int>>, k: Microframe)
    requires z.Ok() && Covers(z, log, k) && k.pages >= 1
    requires k.pages == 1 ==> k.bytes == Rec(z, log, k.start)[..z.frame]
    requires k.pages == 2 ==> k.bytes == Rec(z, log, k.start) + Second(z, log, k)[..z.frame]
    ensures k.bytes == Frames(z, log, k)
    ensures k.bytes[|Frames(z, log, k)|..] == []
  {
    if k.pages == 2 { assert Second(z, log, k)[..z.frame] == Second(z, log, k); }
  }

  /** Delivering report bytes, and closing the microframe with the last one. */
  lemma ReportByte(z: Sizes, j: Joint, u: UsbCycle, log: seq<seq<int>>, n: Joint, level2: nat)
    requires z.Ok() && Covers(z, log, j.s.cur) && j.a.fsm == REPORT && InReport(z, j, log)
    requires n.a == AdapterStep(z, j.a, u, level2) && n.s == SupplyStep(z, j, u, level2)
    requires |u.report| == z.report
    ensures ReportLast(z, j.a, u) ==> Delivered(z, log, n.s.cur)
    ensures !ReportLast(z, j.a, u) && n.w.sh.consumed == j.w.sh.consumed ==> InReport(z, n, log)
  {
    var m, k := j.s.cur, n.s.cur;
    var a, f := j.a.address, |Frames(z, log, j.s.cur)|;
    assert Frames(z, log, k) == Frames(z, log, m);
    assert m.bytes == m.bytes[..f] + m.bytes[f..];
    assert k.bytes[..f] == m.bytes[..f];
    assert k.bytes[f..] == m.bytes[f..] + if u.byteAdvance then [u.report[a]] else [];
    TakeOne(k.report, a, u.byteAdvance);
    assert k.stable ==> k.bytes[f..] == k.report[..if u.byteAdvance then a + 1 else a];
    assert k.report[..z.report] == k.report;
  }

  lemma DoneExtends(z: Sizes, log: seq<seq<int>>, done: seq<Microframe>, m: Microframe)
    requires z.Ok() && Consecutive(done) && m.start == Next(done) && Delivered(z, log, m)
    requires forall i :: 0 <= i < |done| ==> Delivered(z, log, done[i])
    ensures forall i :: 0 <= i < |done + [m]| ==> Delivered(z, log, (done + [m])[i])
    ensures Consecutive(done + [m]) && Next(done + [m]) == m.start + m.pages
  {
    hide Delivered;
    assert forall i :: 0 <= i <= |done| ==> (done + [m])[..i] == done[..i];
    assert done[..|done|] == done;
  }

  lemma ReportInstant(p: Params, z: Sizes, j: Joint, e: JointEvent, n: Joint, level2: nat)
    requires Instant(p, z, j, e, n) && e.u.Some? && j.a.fsm == REPORT
    requires n.a == AdapterStep(z, j.a, e.u.value, level2) && n.s == SupplyStep(z, j, e.u.value, level2)
    requires |e.u.value.report| == z.report
    ensures SupplyInv(z, n)
  {
    hide Delivered, Second, Frames, InFrame1, InFrame2, Consecutive, Next;
    var log, more := j.w.hist.log, n.w.hist.log;
    DoneKept(z, log, more, j.s.done);
    LogExtends(z, log, more, j.s.cur);
    ReportByte(z, j, e.u.value, more, n, level2);
    if ReportLast(z, j.a, e.u.value) {
      DoneExtends(z, more, j.s.done, n.s.cur);
    }
  }

  lemma JointStepKeepsSupply(p: Params, z: Sizes, j: Joint, e: JointEvent)
    requires Inv(p, j.w) && ContentInv(p, j.w) && LevelInv(j) && SupplyInv(z, j)
    requires p.Ok() && z.Ok() && p.pageSize >= z.frame && WellSized(p, j.w.st)
    requires Inv(p, JointStep(p, z, j, e).w)
    requires e.u.Some? ==> |e.u.value.report| == z.report
    ensures SupplyInv(z, JointStep(p, z, j, e))
  {
    hide SupplyInv, FifoFacts, Inv, ContentInv, WorldStep, AdapterStep, SupplyStep, RLevel;
    var n := JointStep(p, z, j, e);
    var level2 := OutputsOf(p, j.w.st.ctr, FifoEvent(z, j, e)).rLevel2;
    FifoInstant(p, z, j, e);
    LevelFacts(p, j);
    assert Instant(p, z, j, e, n);
    if e.u.None? {
      IdleInstant(p, z, j, e, n);
    } else {
      match j.a.fsm {
        case WAIT_SOF => WaitInstant(p, z, j, e, n, level2);
        case FRAME_2 => Frame2Instant(p, z, j, e, n, level2);
        case FRAME_1 => Frame1Instant(p, z, j, e, n, level2);
        case REPORT => ReportInstant(p, z, j, e, n, level2);
      }
    }
  }

  // ----- Theorems -----

  /** The write strobes of a composed run. */
  function JointStrobes(evs: seq<JointEvent>): seq<bool> {
    if evs == [] then [] else
      var e := evs[|evs| - 1];
      JointStrobes(evs[..|evs| - 1]) + if e.w.Some? then [e.w.value.advance] else []
  }

  /** The FIFO events of a composed run. */
  function FifoEvents(p: Params, z: Sizes, evs: seq<JointEvent>): (f: seq<Event>)
    requires p.Ok()
    ensures |f| == |evs|
  {
    if evs == [] then [] else
      var init := evs[..|evs| - 1];
      FifoEvents(p, z, init) + [FifoEvent(z, JointRun(p, z, init), evs[|evs| - 1])]
  }

  lemma {:induction false} Projection(p: Params, z: Sizes, evs: seq<JointEvent>)
    requires p.Ok()
    ensures JointRun(p, z, evs).w == Run(p, FifoEvents(p, z, evs))
    ensures WriteStrobes(FifoEvents(p, z, evs)) == JointStrobes(evs)
  {
    hide WorldStep, AdapterStep, SupplyStep;
    if evs != [] {
      var init, f := evs[..|evs| - 1], FifoEvents(p, z, evs);
      Projection(p, z, init);
      assert f[..|f| - 1] == FifoEvents(p, z, init);
    }
  }

  lemma {:induction false} JointSupply(p: Params, z: Sizes, evs: seq<JointEvent>)
    requires p.Ok() && z.Ok() && p.pageSize >= z.frame
    requires SpacedBy(2, JointStrobes(evs)) && ReportsSized(z, evs)
    ensures Inv(p, JointRun(p, z, evs).w) && SupplyInv(z, JointRun(p, z, evs))
  {
    hide Inv, ContentInv, WorldStep, AdapterStep, SupplyStep, JointStep, LevelInv;
    JointInv(p, z, evs);
    if evs != [] {
      var init := evs[..|evs| - 1];
      var j := JointRun(p, z, init);
      SpacedJointPrefix(evs);
      JointSupply(p, z, init);
      JointInv(p, z, init);
      Projection(p, z, init);
      RunSpaced(p, FifoEvents(p, z, init));
      JointStepKeepsSupply(p, z, j, evs[|evs| - 1]);
    }
  }

  lemma SpacedJointPrefix(evs: seq<JointEvent>)
    requires evs != [] && SpacedBy(2, JointStrobes(evs))
    ensures SpacedBy(2, JointStrobes(evs[..|evs| - 1]))
  {
    var all, init := JointStrobes(evs), JointStrobes(evs[..|evs| - 1]);
    assert init == all[..|init|];
    forall i, j | 0 <= i < j < |init| && init[i] && init[j] ensures j - i >= 2 {
      assert all[i] && all[j];
    }
  }

  // ----- Where a microframe comes from -----

  /** A start of frame for which the adapter was waiting, with record `m.start` next in line and
      `min(level, 2)` records to send. */
  predicate Begins(p: Params, j: Joint, e: JointEvent, m: Microframe) {
    && e.u.Some? && e.u.value.sof && j.a.fsm == WAIT_SOF && m.start == j.w.sh.consumed
    && var level2 := OutputsOf(p, j.w.st.ctr, NO_EDGE).rLevel2;
    m.pages == if level2 < 2 then level2 else 2
  }

  /** Some event of the run is the start of the microframe. */
  predicate Began(p: Params, z: Sizes, evs: seq<JointEvent>, m: Microframe)
    requires p.Ok()
  {
    evs != [] &&
    var init := evs[..|evs| - 1];
    Begins(p, JointRun(p, z, init), evs[|evs| - 1], m) || Began(p, z, init, m)
  }

  lemma {:induction false} BeganSame(p: Params, z: Sizes, evs: seq<JointEvent>, m: Microframe, k: Microframe)
    requires p.Ok() && Began(p, z, evs, m) && k.start == m.start && k.pages == m.pages
    ensures Began(p, z, evs, k)
  {
    hide JointRun, RLevel2;
    var init := evs[..|evs| - 1];
    if !Begins(p, JointRun(p, z, init), evs[|evs| - 1], m) { BeganSame(p, z, init, m, k); }
  }

  lemma SupplyBegins(p: Params, z: Sizes, j: Joint, e: JointEvent)
    requires WellSized(p, j.w.st)
    ensures var n := JointStep(p, z, j, e);
            && (j.a.fsm == WAIT_SOF && n.a.fsm != WAIT_SOF ==> Begins(p, j, e, n.s.cur) && n.s.done == j.s.done)
            && (j.a.fsm == WAIT_SOF && n.a.fsm == WAIT_SOF ==> n.s.done == j.s.done)
            && (j.a.fsm != WAIT_SOF ==> n.s.cur.start == j.s.cur.start && n.s.cur.pages == j.s.cur.pages)
            && (j.a.fsm != WAIT_SOF ==> n.s.done == j.s.done || n.s.done == j.s.done + [n.s.cur])
  {
    hide WorldStep, RLevel2, EndpointValue, AddressNext;
  }

  /** Each microframe goes back to one start of frame of the run. */
  lemma {:induction false} MicroframesBegin(p: Params, z: Sizes, evs: seq<JointEvent>)
    requires p.Ok()
    ensures var j := JointRun(p, z, evs);
            && (forall i :: 0 <= i < |j.s.done| ==> Began(p, z, evs, j.s.done[i]))
            && (j.a.fsm != WAIT_SOF ==> Began(p, z, evs, j.s.cur))
  {
    if evs != [] {
      var init, e := evs[..|evs| - 1], evs[|evs| - 1];
      var j, n := JointRun(p, z, init), JointRun(p, z, evs);
      MicroframesBegin(p, z, init);
      SupplyBegins(p, z, j, e);
      assert forall m :: Began(p, z, init, m) ==> Began(p, z, evs, m);
      hide JointStep, Begins;
      if j.a.fsm != WAIT_SOF { BeganSame(p, z, init, j.s.cur, n.s.cur); }
    }
  }

  /** The records a microframe ought to carry, in order. */
  function Records(z: Sizes, log: seq<seq<int>>, m: Microframe): (r: seq<seq<int>>)
    requires Covers(z, log, m)
  {
    seq(m.pages, i requires 0 <= i < m.pages => Rec(z, log, m.start + i))
  }

  lemma TwoRecords(z: Sizes, log: seq<seq<int>>, m: Microframe)
    requires z.Ok() && Covers(z, log, m)
    ensures m.pages == 0 ==> Flatten(Records(z, log, m)) == []
    ensures m.pages == 1 ==> Flatten(Records(z, log, m)) == Rec(z, log, m.start)
    ensures m.pages == 2 ==>
      Flatten(Records(z, log, m)) == Rec(z, log, m.start) + Rec(z, log, m.start + 1)
  {
    var r := Records(z, log, m);
    if m.pages >= 1 {
      assert Flatten(r) == r[0] + Flatten(r[1..]);
      if m.pages == 2 { assert Flatten(r[1..]) == r[1] + Flatten(r[1..][1..]); }
    }
  }

  /** The packet law. In every run with spaced write strobes, each finished microframe
      whose report held still carries the committed records next in line, then the report,
      if and only if the endpoint left the cycle after the first record's last byte free,
      or the two records happen to start with the same byte. */
  lemma MicroframeCarriesRecords(p: Params, z: Sizes, evs: seq<JointEvent>, i: nat)
    requires p.Ok() && z.Ok() && p.pageSize >= z.frame
    requires SpacedBy(2, JointStrobes(evs)) && ReportsSized(z, evs)
    requires i < |JointRun(p, z, evs).s.done| && JointRun(p, z, evs).s.done[i].stable
    ensures var j := JointRun(p, z, evs);
            var log, m := j.w.hist.log, j.s.done[i];
            && Covers(z, log, m) && |m.report| == z.report
            && m.start == Next(j.s.done[..i]) && Began(p, z, evs, m)
            && (m.bytes == Flatten(Records(z, log, m)) + m.report <==>
                  m.pages == 2 && m.early ==> log[m.start][0] == log[m.start + 1][0])
  {
    hide Inv, WorldStep, AdapterStep, SupplyStep, JointStep, JointRun, InFrame1, InFrame2, InReport, JointStrobes,
         Delivered, Frames, Second, Records, Rec, Flatten, Next, ReportsSized, SpacedBy, Began;
    var j := JointRun(p, z, evs);
    MicroframesBegin(p, z, evs);
    JointSupply(p, z, evs);
    var log, m := j.w.hist.log, j.s.done[i];
    assert Delivered(z, log, m);
    CarriesExactly(z, log, m);
  }

  lemma CarriesExactly(z: Sizes, log: seq<seq<int>>, m: Microframe)
    requires z.Ok() && Delivered(z, log, m) && m.stable
    ensures Covers(z, log, m) && |m.report| == z.report
    ensures m.bytes == Flatten(Records(z, log, m)) + m.report <==>
              (m.pages == 2 && m.early ==> log[m.start][0] == log[m.start + 1][0])
  {
    TwoRecords(z, log, m);
    var want := Flatten(Records(z, log, m));
    var frames := Frames(z, log, m);
    assert m.bytes == frames + m.report;
    if m.pages == 2 {
      var first, second := Rec(z, log, m.start), Rec(z, log, m.start + 1);
      assert frames[z.frame] == Second(z, log, m)[0] && want[z.frame] == second[0];
      if m.early && log[m.start][0] == log[m.start + 1][0] {
        assert second == [second[0]] + second[1..];
      }
      if m.bytes == want + m.report {
        assert m.bytes[z.frame] == want[z.frame];
      }
    }
  }
}
