/** A run in which the endpoint takes a byte too early: three one-byte records are committed, two
    of them are sent in one microframe by a transmitter that never pauses, and the second of
    them goes out with the first one's byte. */
module EarlyByte {

  import opened AsyncFifo
  import opened Chunks
  import opened GrayCode
  import opened PagedFifo
  import opened PagedFifoRuns
  import opened RxUsbRuns
  import opened RxWire
  import opened Wrappers

  import Iso = IsochronousIn
  import Usb = RxUsb

  /** Any FIFO of four or more one-byte pages, with one-byte records and reports. */
  predicate Tiny(p: Params, z: Usb.Sizes) {
    p.Ok() && p.pageSize == 1 && p.Depth() >= 4 && z == Usb.Sizes(1, 1)
  }

  /** A write clock that commits `data` as a record, or an idle one. */
  function Write(data: Option<int>): WireEvent {
    WireEvent(Some(WriteCycle(0, if data.Some? then data.value else 0, data.Some?, data.Some?)), None, [], [])
  }

  function Clock(sof: bool, requested: bool, ready: bool): WireEvent {
    WireEvent(None, Some(UsbInput(sof, requested, ready, [9])), [], [])
  }

  // ----- Three records -----

  /** `n` records committed and none read; the writer's level lags by one clock. */
  ghost predicate Filling(p: Params, w: World, n: nat, known: nat, log: seq<seq<int>>) {
    && Inv(p, w) && SpacedInv(p, w)
    && w.sh == Shadow(n, 0, 0, 0, 0, 0, known, 0, 0) && w.hist.log == log
  }

  lemma WriteClock(p: Params, z: Usb.Sizes, w: World, e: Event, n: nat, known: nat, log: seq<seq<int>>)
    requires Tiny(p, z) && Filling(p, w, n, known, log) && n <= 2 && known <= 2
    requires e.w.Some? && e.r.None? && e.w.value.addr == 0 && e.w.value.en == e.w.value.advance
    requires e.w.value.advance ==> !w.hist.lastAdvance
    ensures var next, adv := WorldStep(p, w, e), e.w.value.advance;
            && Filling(p, next, if adv then n + 1 else n, n, if adv then log + [[e.w.value.data]] else log)
            && next.hist.lastAdvance == adv
  {
    hide Gray, FullTest, CounterStep, RLevel;
    FlagsExact(p.Width(), w.st.ctr, w.sh);
    StepKeepsInv(p, w, e);
    StepKeepsSpaced(p, w, e);
    WriteInstant(p, w, e);
    hide PageAt;
    assert e.w.value.advance ==> Written(p, w, e) == [e.w.value.data];
  }

  /** Nothing has happened yet on the USB side. */
  predicate Resting(m: nat, p: Params, f: Wire)
    requires m >= 1 && p.Ok()
  {
    f == Wire(Joint(f.j.w, Usb.Adapter(Usb.WAIT_SOF, 0), JointStart(p).s), Iso.ResetState(m), [], [], [])
  }

  ghost predicate Stage(m: nat, p: Params, z: Usb.Sizes, evs: seq<WireEvent>, n: nat, known: nat,
                        log: seq<seq<int>>, last: bool)
    requires m >= 1 && Tiny(p, z)
  {
    var f := WireRun(m, p, z, evs);
    Resting(m, p, f) && Filling(p, f.j.w, n, known, log) && f.j.w.hist.lastAdvance == last
  }

  lemma IdleOne(m: nat, p: Params, z: Usb.Sizes, evs: seq<WireEvent>, n: nat, known: nat, log: seq<seq<int>>)
    requires m >= 1 && Tiny(p, z) && Stage(m, p, z, evs, n, known, log, true) && n <= 2 && known <= 2
    ensures Stage(m, p, z, evs + [Write(None)], n, n, log, false)
  {
    var f, all := WireRun(m, p, z, evs), evs + [Write(None)];
    assert all[..|all| - 1] == evs;
    WriteClock(p, z, f.j.w, FifoEvent(z, f.j, JointEventOf(p, z, f, Write(None))), n, known, log);
    hide WorldStep, Filling;
  }

  lemma CommitOne(m: nat, p: Params, z: Usb.Sizes, evs: seq<WireEvent>, data: int, n: nat, known: nat,
                  log: seq<seq<int>>)
    requires m >= 1 && Tiny(p, z) && Stage(m, p, z, evs, n, known, log, false) && n <= 2 && known <= 2
    ensures Stage(m, p, z, evs + [Write(Some(data))], n + 1, n, log + [[data]], true)
  {
    var f, all := WireRun(m, p, z, evs), evs + [Write(Some(data))];
    assert all[..|all| - 1] == evs;
    WriteClock(p, z, f.j.w, FifoEvent(z, f.j, JointEventOf(p, z, f, Write(Some(data)))), n, known, log);
    hide WorldStep, Filling;
  }

  lemma ResetStage(m: nat, p: Params, z: Usb.Sizes)
    requires m >= 1 && Tiny(p, z)
    ensures Stage(m, p, z, [], 0, 0, [], false)
  {
    hide Start, Resting, Filling, WireRun;
    StartFilling(p);
    StartResting(m, p, z);
  }

  lemma StartFilling(p: Params)
    requires p.Ok()
    ensures Filling(p, Start(p), 0, 0, []) && !Start(p).hist.lastAdvance
  {
    RunInv(p, []);
    hide Inv, Reset;
  }

  lemma StartResting(m: nat, p: Params, z: Usb.Sizes)
    requires m >= 1 && Tiny(p, z)
    ensures WireRun(m, p, z, []).j.w == Start(p) && Resting(m, p, WireRun(m, p, z, []))
  {
    hide Start;
  }

  function Three(): seq<seq<int>> { [] + [[1]] + [[2]] + [[3]] }

  function Writes(): seq<WireEvent> {
    [] + [Write(Some(1))] + [Write(None)] + [Write(Some(2))] + [Write(None)] + [Write(Some(3))]
  }

  /** A record and an idle clock. */
  lemma RecordOne(m: nat, p: Params, z: Usb.Sizes, evs: seq<WireEvent>, data: int, n: nat, known: nat,
                  log: seq<seq<int>>)
    requires m >= 1 && Tiny(p, z) && Stage(m, p, z, evs, n, known, log, false) && n <= 1 && known <= 2
    ensures Stage(m, p, z, evs + [Write(Some(data))] + [Write(None)], n + 1, n + 1, log + [[data]], false)
  {
    hide *;
    CommitOne(m, p, z, evs, data, n, known, log);
    IdleOne(m, p, z, evs + [Write(Some(data))], n + 1, n, log + [[data]]);
  }

  lemma ThreeRecords(m: nat, p: Params, z: Usb.Sizes)
    requires m >= 1 && Tiny(p, z)
    ensures Stage(m, p, z, Writes(), 3, 2, Three(), true)
  {
    var none, one, two := [], [] + [[1]], [] + [[1]] + [[2]];
    var start: seq<WireEvent> := [];
    var first := start + [Write(Some(1))] + [Write(None)];
    var second := first + [Write(Some(2))] + [Write(None)];
    assert Writes() == second + [Write(Some(3))] && Three() == two + [[3]] && two == one + [[2]] && one == none + [[1]];
    hide *;
    ResetStage(m, p, z);
    RecordOne(m, p, z, start, 1, 0, 0, none);
    RecordOne(m, p, z, first, 2, 1, 1, one);
    CommitOne(m, p, z, second, 3, 2, 2, two);
  }

  // ----- One microframe -----

  /** The FIFO seen from the USB side: what is known of three committed records. */
  ghost predicate Reading(p: Params, w: World, consumed: nat, p0: nat, p1: nat) {
    && Inv(p, w) && w.hist.log == Three()
    && w.sh.produced == 3 && w.sh.consumed == consumed && w.sh.p0 == p0 && w.sh.p1 == p1
  }

  lemma ReadClock(p: Params, w: World, e: Event, consumed: nat, p0: nat, p1: nat)
    requires Reading(p, w, consumed, p0, p1) && e.w.None? && e.r.Some?
    requires e.r.value.advance ==> p1 - consumed >= 2
    ensures Reading(p, WorldStep(p, w, e), if e.r.value.advance then consumed + 1 else consumed, 3, p0)
    ensures RLevel2(p, w.st.ctr) == if p1 - consumed <= 1 then 0 else p1 - consumed - 1
  {
    FlagsExact(p.Width(), w.st.ctr, w.sh);
    StepKeepsInv(p, w, e);
    ProducerSampled(p.Width(), w.st.ctr, w.sh, CounterEdges(p, w.st.ctr, e));
    hide Gray, FullTest, CounterStep, Inv, CounterInv;
  }

  /** A producer that stands still is sampled as it is. */
  lemma ProducerSampled(width: nat, c: Counters, g: Shadow, e: Edges)
    requires CounterInv(width, c, g) && !e.w && e.r
    ensures CounterStep(width, c, e).produceMeta == Gray(width, g.produced)
    ensures ShadowStep(width, c, g, e).p0 == g.produced && ShadowStep(width, c, g, e).p1 == g.p0
    ensures ShadowStep(width, c, g, e).produced == g.produced
  {
    MixOfEqual(e.rMix, c.produceWGry);
    hide Encode, ToBits, Value, Decode, FullTest, Gray, Mix;
  }

  /** One USB clock of the composed run, in terms of the committed and consumed records. */
  lemma ClockOne(m: nat, p: Params, z: Usb.Sizes, evs: seq<WireEvent>, sof: bool, requested: bool, ready: bool,
                 consumed: nat, p0: nat, p1: nat)
    requires m >= 1 && Tiny(p, z)
    requires var f := WireRun(m, p, z, evs);
             && Reading(p, f.j.w, consumed, p0, p1)
             && (f.j.a.fsm == Usb.FRAME_2 || f.j.a.fsm == Usb.FRAME_1 ==> p1 - consumed >= 2)
    ensures var f, n := WireRun(m, p, z, evs), WireRun(m, p, z, evs + [Clock(sof, requested, ready)]);
            var level2 := if p1 - consumed <= 1 then 0 else p1 - consumed - 1;
            var c := Iso.Cycle(sof, Usb.BytesInFrame(z, level2), requested, ready);
            var u := Usb.UsbCycle(sof, Iso.ByteAdvance(f.e, c), [9]);
            && n.e == Iso.Step(m, f.e, c)
            && n.j.a == Usb.AdapterStep(z, f.j.a, u, level2) && n.j.s == SupplyStep(z, f.j, u, level2)
            && Reading(p, n.j.w, if Usb.FifoCycle(z, f.j.a, u).advance then consumed + 1 else consumed, 3, p0)
  {
    var f, ev := WireRun(m, p, z, evs), Clock(sof, requested, ready);
    var all := evs + [ev];
    assert all[..|all| - 1] == evs;
    ReadClock(p, f.j.w, FifoEvent(z, f.j, JointEventOf(p, z, f, ev)), consumed, p0, p1);
    hide WorldStep, Reading, RLevel2, SupplyStep, Iso.Watch, Overflow, Underflow, WFull, WLevel2, Iso.Step,
         Usb.AdapterStep;
  }

  /** Nothing asked for yet; the three records are on their way through the synchronisers. */
  ghost predicate Settling(m: nat, p: Params, z: Usb.Sizes, evs: seq<WireEvent>, p0: nat, p1: nat)
    requires m >= 1 && Tiny(p, z)
  {
    var f := WireRun(m, p, z, evs);
    && Reading(p, f.j.w, 0, p0, p1) && f.j.a == Usb.Adapter(Usb.WAIT_SOF, 0) && f.e == Iso.ResetState(m)
    && f.j.s == JointStart(p).s
  }

  lemma WrittenSettles(m: nat, p: Params, z: Usb.Sizes, evs: seq<WireEvent>)
    requires m >= 1 && Tiny(p, z) && Stage(m, p, z, evs, 3, 2, Three(), true)
    ensures Settling(m, p, z, evs, 0, 0)
  {
  }

  lemma SettleOne(m: nat, p: Params, z: Usb.Sizes, evs: seq<WireEvent>, p0: nat, p1: nat)
    requires m >= 1 && Tiny(p, z) && Settling(m, p, z, evs, p0, p1)
    ensures Settling(m, p, z, evs + [Clock(false, false, false)], 3, p0)
  {
    hide Reading, WireRun;
    ClockOne(m, p, z, evs, false, false, false, 0, p0, p1);
  }

  /** Two records and a report are being supplied. */
  ghost predicate Supplying(m: nat, p: Params, z: Usb.Sizes, evs: seq<WireEvent>, fsm: Usb.Fsm, left: nat,
                            consumed: nat, switched: bool, early: bool)
    requires m >= 1 && Tiny(p, z)
  {
    var f := WireRun(m, p, z, evs);
    && Reading(p, f.j.w, consumed, 3, 3) && f.j.a == Usb.Adapter(fsm, 0)
    && f.e.fsm == Iso.SEND_DATA && f.e.bytesLeftInFrame == left && f.e.bytesLeftInPacket >= left
    && f.j.s == Supply(f.j.s.cur, false, switched, [])
    && f.j.s.cur == Microframe(0, 2, f.j.s.cur.bytes, early, [9], true)
  }

  lemma StartOne(m: nat, p: Params, z: Usb.Sizes, evs: seq<WireEvent>)
    requires m >= 3 && Tiny(p, z) && Settling(m, p, z, evs, 3, 3)
    ensures var f := WireRun(m, p, z, evs + [Clock(true, false, false)]);
            && Reading(p, f.j.w, 0, 3, 3) && f.j.a == Usb.Adapter(Usb.FRAME_2, 0)
            && f.e.fsm == Iso.IDLE && f.e.bytesLeftInFrame == 3 && f.e.bytesLeftInPacket == m
            && f.j.s == Supply(Microframe(0, 2, [], false, [], true), true, false, [])
  {
    ClockOne(m, p, z, evs, true, false, false, 0, 3, 3);
    assert WireRun(m, p, z, evs).j.w.sh.consumed == 0;
    hide Reading, WireRun;
  }

  lemma RequestOne(m: nat, p: Params, z: Usb.Sizes, evs: seq<WireEvent>)
    requires m >= 3 && Tiny(p, z) && Settling(m, p, z, evs, 3, 3)
    ensures Supplying(m, p, z, evs + [Clock(true, false, false)] + [Clock(false, true, false)], Usb.FRAME_2, 3, 0,
                      false, false)
  {
    hide Reading, WireRun;
    StartOne(m, p, z, evs);
    ClockOne(m, p, z, evs + [Clock(true, false, false)], false, true, false, 0, 3, 3);
  }

  /** The two records' bytes, taken in successive clocks. */
  lemma TakeFirst(m: nat, p: Params, z: Usb.Sizes, evs: seq<WireEvent>)
    requires m >= 1 && Tiny(p, z) && Supplying(m, p, z, evs, Usb.FRAME_2, 3, 0, false, false)
    ensures Supplying(m, p, z, evs + [Clock(false, false, true)], Usb.FRAME_1, 2, 1, true, false)
  {
    hide Reading, WireRun, Usb.EndpointValue;
    ClockOne(m, p, z, evs, false, false, true, 0, 3, 3);
  }

  lemma TakeSecond(m: nat, p: Params, z: Usb.Sizes, evs: seq<WireEvent>)
    requires m >= 1 && Tiny(p, z) && Supplying(m, p, z, evs, Usb.FRAME_1, 2, 1, true, false)
    ensures Supplying(m, p, z, evs + [Clock(false, false, true)], Usb.REPORT, 1, 2, false, true)
  {
    hide Reading, WireRun, Usb.EndpointValue;
    ClockOne(m, p, z, evs, false, false, true, 1, 3, 3);
  }

  lemma TakeReport(m: nat, p: Params, z: Usb.Sizes, evs: seq<WireEvent>)
    requires m >= 1 && Tiny(p, z) && Supplying(m, p, z, evs, Usb.REPORT, 1, 2, false, true)
    ensures var f := WireRun(m, p, z, evs + [Clock(false, false, true)]);
            && f.j.w.hist.log == Three() && |f.j.s.done| == 1
            && f.j.s.done[0] == Microframe(0, 2, f.j.s.done[0].bytes, true, [9], true)
  {
    ClockOne(m, p, z, evs, false, false, true, 2, 3, 3);
    hide WireRun, Usb.EndpointValue;
  }

  // ----- The run -----

  /** Two clocks for the level to arrive and the start of frame. */
  function Opening(): seq<WireEvent> {
    Writes() + [Clock(false, false, false)] + [Clock(false, false, false)] + [Clock(true, false, false)]
  }

  /** A request, and three bytes taken in successive clocks. */
  function EarlyRun(): seq<WireEvent> {
    Opening() + [Clock(false, true, false)] + [Clock(false, false, true)] + [Clock(false, false, true)]
    + [Clock(false, false, true)]
  }

  lemma RunSupplies(m: nat, p: Params, z: Usb.Sizes)
    requires m >= 3 && Tiny(p, z)
    ensures var f := WireRun(m, p, z, EarlyRun());
            && f.j.w.hist.log == Three() && |f.j.s.done| == 1
            && f.j.s.done[0] == Microframe(0, 2, f.j.s.done[0].bytes, true, [9], true)
    ensures Settling(m, p, z, Writes() + [Clock(false, false, false)] + [Clock(false, false, false)], 3, 3)
  {
    hide Stage, Settling, Supplying, WireRun, Clock, Writes;
    var idle, sof, ask, take := Clock(false, false, false), Clock(true, false, false), Clock(false, true, false),
                                Clock(false, false, true);
    var w := Writes();
    ThreeRecords(m, p, z);
    WrittenSettles(m, p, z, w);
    SettleOne(m, p, z, w, 0, 0);
    SettleOne(m, p, z, w + [idle], 3, 0);
    RequestOne(m, p, z, w + [idle] + [idle]);
    var r := w + [idle] + [idle] + [sof] + [ask];
    TakeFirst(m, p, z, r);
    TakeSecond(m, p, z, r + [take]);
    TakeReport(m, p, z, r + [take] + [take]);
  }

  /** The run so far is orderly, and its write strobes are `strobes`. */
  ghost predicate OrderlySoFar(m: nat, p: Params, z: Usb.Sizes, evs: seq<WireEvent>, strobes: seq<bool>)
    requires m >= 1 && Tiny(p, z)
  {
    Drained(m, p, z, evs) && WireReportsSized(z, evs) && WireStrobes(evs) == strobes
  }

  lemma OrderlyWrite(m: nat, p: Params, z: Usb.Sizes, evs: seq<WireEvent>, data: Option<int>, strobes: seq<bool>)
    requires m >= 1 && Tiny(p, z) && OrderlySoFar(m, p, z, evs, strobes)
    ensures OrderlySoFar(m, p, z, evs + [Write(data)], strobes + [data.Some?])
  {
    var all := evs + [Write(data)];
    assert all[..|all| - 1] == evs;
    hide WireRun;
  }

  lemma OrderlyClock(m: nat, p: Params, z: Usb.Sizes, evs: seq<WireEvent>, sof: bool, requested: bool, ready: bool,
                     strobes: seq<bool>)
    requires m >= 1 && Tiny(p, z) && OrderlySoFar(m, p, z, evs, strobes)
    requires sof ==> WireRun(m, p, z, evs).j.a.fsm == Usb.WAIT_SOF
    ensures OrderlySoFar(m, p, z, evs + [Clock(sof, requested, ready)], strobes)
  {
    var all := evs + [Clock(sof, requested, ready)];
    assert all[..|all| - 1] == evs;
    hide WireRun;
  }

  lemma WritesOrderly(m: nat, p: Params, z: Usb.Sizes)
    requires m >= 1 && Tiny(p, z)
    ensures OrderlySoFar(m, p, z, Writes(), [true, false, true, false, true])
  {
    assert OrderlySoFar(m, p, z, [], []);
    var a, b, c, d := Write(Some(1)), Write(None), Write(Some(2)), Write(None);
    assert Writes() == [] + [a] + [b] + [c] + [d] + [Write(Some(3))];
    assert [] + [true] + [false] + [true] + [false] + [true] == [true, false, true, false, true];
    hide *;
    OrderlyWrite(m, p, z, [], Some(1), []);
    OrderlyWrite(m, p, z, [] + [a], None, [] + [true]);
    OrderlyWrite(m, p, z, [] + [a] + [b], Some(2), [] + [true] + [false]);
    OrderlyWrite(m, p, z, [] + [a] + [b] + [c], None, [] + [true] + [false] + [true]);
    OrderlyWrite(m, p, z, [] + [a] + [b] + [c] + [d], Some(3), [] + [true] + [false] + [true] + [false]);
  }

  lemma RunOrderly(m: nat, p: Params, z: Usb.Sizes)
    requires m >= 3 && Tiny(p, z)
    ensures OrderlySoFar(m, p, z, EarlyRun(), [true, false, true, false, true])
  {
    var idle, sof, ask, take := Clock(false, false, false), Clock(true, false, false), Clock(false, true, false),
                                Clock(false, false, true);
    var w, strobes := Writes(), [true, false, true, false, true];
    assert EarlyRun() == w + [idle] + [idle] + [sof] + [ask] + [take] + [take] + [take];
    WritesOrderly(m, p, z);
    RunSupplies(m, p, z);
    assert WireRun(m, p, z, w + [idle] + [idle]).j.a.fsm == Usb.WAIT_SOF;
    hide *;
    OrderlyClock(m, p, z, w, false, false, false, strobes);
    OrderlyClock(m, p, z, w + [idle], false, false, false, strobes);
    OrderlyClock(m, p, z, w + [idle] + [idle], true, false, false, strobes);
    var r := w + [idle] + [idle] + [sof];
    OrderlyClock(m, p, z, r, false, true, false, strobes);
    OrderlyClock(m, p, z, r + [ask], false, false, true, strobes);
    OrderlyClock(m, p, z, r + [ask] + [take], false, false, true, strobes);
    OrderlyClock(m, p, z, r + [ask] + [take] + [take], false, false, true, strobes);
  }

  /** The early byte happens: this orderly run commits [1], [2] and [3], and puts 1, 1 and the
      report on the wire where 1, 2 and the report were to be sent. */
  lemma SecondRecordReplaced(m: nat, p: Params, z: Usb.Sizes)
    requires m >= 3 && Tiny(p, z)
    ensures var evs := EarlyRun();
            var f := WireRun(m, p, z, evs);
            && SpacedBy(2, WireStrobes(evs)) && WireReportsSized(z, evs) && Drained(m, p, z, evs)
            && f.j == JointRun(p, z, JointEvents(m, p, z, evs))
            && |f.j.s.done| == |f.frames| == 1
            && var log, k := f.j.w.hist.log, f.j.s.done[0];
            && log == Three() && k.stable && k.pages == 2 && k.early && Covers(z, log, k)
            && Bytes(f.frames[0]) == k.bytes == [1, 1, 9]
            && Flatten(Records(z, log, k)) + k.report == [1, 2, 9]
  {
    var evs := EarlyRun();
    RunSupplies(m, p, z);
    RunOrderly(m, p, z);
    OrderlyMeans(m, p, z, evs);
    hide *;
    WireProjection(m, p, z, evs);
    ReportsPassed(m, p, z, evs);
    PacketsCarryMicroframes(m, p, z, evs);
    JointSupply(p, z, JointEvents(m, p, z, evs));
    var f := WireRun(m, p, z, evs);
    FirstOnly(z, f);
    TinyBytes(z, f.j.s.done[0]);
  }

  lemma OrderlyMeans(m: nat, p: Params, z: Usb.Sizes, evs: seq<WireEvent>)
    requires m >= 1 && Tiny(p, z) && OrderlySoFar(m, p, z, evs, [true, false, true, false, true])
    ensures SpacedBy(2, WireStrobes(evs)) && WireReportsSized(z, evs) && Drained(m, p, z, evs)
    ensures p.Ok() && z.Ok() && p.pageSize >= z.frame && z == Usb.Sizes(1, 1)
  {
    hide Drained, WireReportsSized, WireStrobes;
  }

  lemma FirstOnly(z: Usb.Sizes, f: Wire)
    requires SupplyInv(z, f.j) && Carried(f.frames, f.j.s.done) && |f.j.s.done| == 1
    ensures z.Ok() && Delivered(z, f.j.w.hist.log, f.j.s.done[0]) && Covers(z, f.j.w.hist.log, f.j.s.done[0])
    ensures |f.frames| == 1 && Bytes(f.frames[0]) == f.j.s.done[0].bytes
  {
    hide Flatten;
  }

  lemma TinyBytes(z: Usb.Sizes, k: Microframe)
    requires z == Usb.Sizes(1, 1) && Delivered(z, Three(), k)
    requires k.start == 0 && k.pages == 2 && k.early && k.stable && k.report == [9]
    ensures k.bytes == [1, 1, 9] && Flatten(Records(z, Three(), k)) + k.report == [1, 2, 9]
  {
    var log := Three();
    TwoRecords(z, log, k);
    assert Frames(z, log, k) == [1, 1];
    assert k.bytes == k.bytes[..2] + k.bytes[2..];
  }
}
