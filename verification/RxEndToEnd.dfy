/** The whole receive path: framer adapter, FIFO, USB adapter, endpoint and the host's splitting
    of what it received. */
module RxEndToEnd {

  import opened Chunks
  import opened GrayCode
  import opened HostPackets
  import opened PagedFifo
  import opened PagedFifoRuns
  import opened RxBytes
  import opened RxFramer
  import opened RxPath
  import opened RxUsbRuns
  import opened RxWire
  import opened Wrappers

  import BT = BitTiming
  import Framer = RxFramerRuns
  import Iso = IsochronousIn
  import Line = RxLine
  import Usb = RxUsb

  /** One instant: the system clock's inputs, the USB clock's inputs, and the samples that
      coincide with a change. */
  datatype PathEvent = PathEvent(s: Option<Framer.SyncCycle>, u: Option<UsbInput>, wMix: Bits, rMix: Bits)

  /** The two ends of the one FIFO. */
  datatype Path = Path(fr: Framer.Joint, f: Wire)

  /** The shipped record layout: 24 timeslots of eight channels, then the frame report. */
  const LAYOUT := Layout(TIMESLOTS_PER_CHANNEL, CHANNELS, RX_FRAME_SIZE - FRAME_SIZE)

  function FramerEventOf(p: Params, x: Path, e: PathEvent): Framer.JointEvent {
    Framer.JointEvent(
      e.s, if e.u.Some? then Some(Usb.FifoCycle(SIZES, x.f.j.a, UsbCycleOf(p, SIZES, x.f, e.u.value))) else None,
      e.wMix, e.rMix)
  }

  predicate EventSized(e: PathEvent) {
    e.s.Some? ==> |e.s.value.data| == LAYOUT.channels && |e.s.value.flags| == LAYOUT.report - 4
  }

  predicate PathSized(p: Params, x: Path) {
    p.Ok() && |x.fr.flags| == LAYOUT.report - 4
  }

  function WireEventOf(p: Params, x: Path, e: PathEvent): WireEvent
    requires PathSized(p, x) && EventSized(e)
  {
    WireEvent(Framer.FifoEvent(LAYOUT, x.fr, FramerEventOf(p, x, e)).w, e.u, e.wMix, e.rMix)
  }

  function PathStep(m: nat, p: Params, x: Path, e: PathEvent): (n: Path)
    requires PathSized(p, x) && EventSized(e) && WellSized(p, x.fr.w.st) && WellSized(p, x.f.j.w.st)
    ensures PathSized(p, n) && WellSized(p, n.fr.w.st) && WellSized(p, n.f.j.w.st)
  {
    Path(Framer.JointStep(p, LAYOUT, x.fr, FramerEventOf(p, x, e)), WireStep(m, p, SIZES, x.f, WireEventOf(p, x, e)))
  }

  ghost predicate AllEventsSized(evs: seq<PathEvent>) {
    forall i :: 0 <= i < |evs| ==> EventSized(evs[i])
  }

  function PathRun(m: nat, p: Params, evs: seq<PathEvent>): (x: Path)
    requires m >= 1 && p.Ok() && AllEventsSized(evs)
    ensures PathSized(p, x) && WellSized(p, x.fr.w.st) && WellSized(p, x.f.j.w.st)
  {
    if evs == [] then Path(Framer.JointStart(p, LAYOUT), WireRun(m, p, SIZES, []))
    else PathStep(m, p, PathRun(m, p, evs[..|evs| - 1]), evs[|evs| - 1])
  }

  function FramerEvents(m: nat, p: Params, evs: seq<PathEvent>): (r: seq<Framer.JointEvent>)
    requires m >= 1 && p.Ok() && AllEventsSized(evs)
    ensures |r| == |evs| && Framer.AllSized(LAYOUT, r)
  {
    if evs == [] then [] else
      var init := evs[..|evs| - 1];
      FramerEvents(m, p, init) + [FramerEventOf(p, PathRun(m, p, init), evs[|evs| - 1])]
  }

  function WireEvents(m: nat, p: Params, evs: seq<PathEvent>): (r: seq<WireEvent>)
    requires m >= 1 && p.Ok() && AllEventsSized(evs)
    ensures |r| == |evs|
  {
    if evs == [] then [] else
      var init := evs[..|evs| - 1];
      WireEvents(m, p, init) + [WireEventOf(p, PathRun(m, p, init), evs[|evs| - 1])]
  }

  /** Both ends see the same FIFO. */
  lemma SameFifo(m: nat, p: Params, x: Path, e: PathEvent)
    requires PathSized(p, x) && EventSized(e) && WellSized(p, x.fr.w.st) && x.fr.w == x.f.j.w
    ensures PathStep(m, p, x, e).fr.w == PathStep(m, p, x, e).f.j.w
    ensures Framer.FifoEvent(LAYOUT, x.fr, FramerEventOf(p, x, e)).w == WireEventOf(p, x, e).w
  {
    hide WorldStep, Usb.FifoCycle, RxFramer.FifoCycle, UsbStep;
  }

  lemma {:induction false} PathProjection(m: nat, p: Params, evs: seq<PathEvent>)
    requires m >= 1 && p.Ok() && AllEventsSized(evs)
    ensures var x := PathRun(m, p, evs);
            && x.fr == Framer.JointRun(p, LAYOUT, FramerEvents(m, p, evs))
            && x.f == WireRun(m, p, SIZES, WireEvents(m, p, evs))
            && x.fr.w == x.f.j.w
    ensures WireStrobes(WireEvents(m, p, evs))
         == WriteStrobes(Framer.FifoEvents(p, LAYOUT, FramerEvents(m, p, evs)))
  {
    hide Framer.JointStep, WireStep, FramerEventOf, WireEventOf, Framer.FifoEvent;
    if evs != [] {
      var init, e := evs[..|evs| - 1], evs[|evs| - 1];
      var fe, we := FramerEvents(m, p, evs), WireEvents(m, p, evs);
      PathProjection(m, p, init);
      SameFifo(m, p, PathRun(m, p, init), e);
      assert fe[..|fe| - 1] == FramerEvents(m, p, init) && we[..|we| - 1] == WireEvents(m, p, init);
      var fifo := Framer.FifoEvents(p, LAYOUT, fe);
      assert fifo[..|fifo| - 1] == Framer.FifoEvents(p, LAYOUT, FramerEvents(m, p, init));
    }
  }

  // ----- From timeslots to the host -----

  /** Runs in which timeslot strobes leave the framer adapter its time, reports have their size
      and each supply is drained before the next start of frame. */
  ghost predicate Healthy(m: nat, p: Params, evs: seq<PathEvent>)
    requires m >= 1 && p.Ok() && AllEventsSized(evs)
  {
    && Framer.AllPaced(p, LAYOUT, FramerEvents(m, p, evs))
    && WireReportsSized(SIZES, WireEvents(m, p, evs))
    && Drained(m, p, SIZES, WireEvents(m, p, evs))
  }

  /** The frame records that the FIFO took, in order. */
  function Accepted(x: Path): seq<seq<int>>
    requires |x.fr.records| == |x.fr.granted|
  {
    Taken(x.fr.records, x.fr.granted)
  }

  /** `records` are the front parts of the committed pages. */
  ghost predicate FrontsOf(records: seq<seq<int>>, log: seq<seq<int>>) {
    && |records| == |log|
    && forall i :: 0 <= i < |log| ==> |log[i]| >= RX_FRAME_SIZE && records[i] == log[i][..RX_FRAME_SIZE]
  }

  lemma PathFacts(m: nat, p: Params, evs: seq<PathEvent>)
    requires m >= 1 && p.Ok() && p.pageSize >= RX_FRAME_SIZE && AllEventsSized(evs) && Healthy(m, p, evs)
    ensures var x := PathRun(m, p, evs);
            && Orderly(m, p, WireEvents(m, p, evs))
            && |x.fr.records| == |x.fr.granted|
            && FrontsOf(Accepted(x), x.f.j.w.hist.log)
  {
    hide PathRun, Framer.JointRun, WireRun, Framer.AllPaced, Drained, WireReportsSized, SpacedBy, Taken,
         FramerEvents, WireEvents, Framer.SlotsInv, Framer.AdapterInv, Framer.PageInv, Framer.RecordsInv,
         Framer.StrobeInv;
    PathProjection(m, p, evs);
    Framer.JointCore(p, LAYOUT, FramerEvents(m, p, evs));
  }

  predicate Whole(records: seq<seq<int>>) { forall i :: 0 <= i < |records| ==> |records[i]| == RX_FRAME_SIZE }

  /** No byte was taken early, or none that makes a difference. */
  predicate Intact(records: seq<seq<int>>, k: Microframe)
    requires Whole(records) && k.start + k.pages <= |records|
  {
    k.pages == 2 && k.early ==> records[k.start][0] == records[k.start + 1][0]
  }

  lemma RecordsAreFronts(records: seq<seq<int>>, log: seq<seq<int>>, k: Microframe)
    requires FrontsOf(records, log) && Covers(SIZES, log, k)
    ensures Whole(records) && k.start + k.pages <= |records|
    ensures Records(SIZES, log, k) == records[k.start..k.start + k.pages]
    ensures Intact(records, k) <==> (k.pages == 2 && k.early ==> log[k.start][0] == log[k.start + 1][0])
  {
    var r, part := Records(SIZES, log, k), records[k.start..k.start + k.pages];
    forall i | 0 <= i < k.pages ensures r[i] == part[i] {
      assert part[i] == records[k.start + i] == Rec(SIZES, log, k.start + i);
    }
    assert r == part;
  }

  /** End to end: in every healthy run, whatever the two clocks, the host's requests and the
      transmitter's stalls do, splitting a microframe's packets gives the host exactly the frame
      records next in line among those the FIFO took, and the report, under the one condition
      about the byte after the end of the first of two records. */
  lemma HostReceivesFrames(m: nat, p: Params, evs: seq<PathEvent>, i: nat)
    requires m >= 1 && p.Ok() && p.pageSize >= RX_FRAME_SIZE && AllEventsSized(evs) && Healthy(m, p, evs)
    requires i < |PathRun(m, p, evs).f.j.s.done| && PathRun(m, p, evs).f.j.s.done[i].stable
    ensures var x := PathRun(m, p, evs);
            var k := x.f.j.s.done[i];
            && |x.fr.records| == |x.fr.granted| && i < |x.f.frames|
            && Whole(Accepted(x)) && k.start + k.pages <= |Accepted(x)| && k.start == Next(x.f.j.s.done[..i])
            && (HostRecovers(x.f.frames[i], Accepted(x)[k.start..k.start + k.pages], k.report)
                <==> Intact(Accepted(x), k))
  {
    hide PathRun, WireRun, Orderly, Accepted, FramerEvents, WireEvents, JointEvents, Began, Next, HostRecovers, Healthy,
         Records, Intact, FrontsOf, Covers, Whole;
    PathFacts(m, p, evs);
    PathProjection(m, p, evs);
    HostReceivesRecords(m, p, WireEvents(m, p, evs), i);
    var x := PathRun(m, p, evs);
    RecordsAreFronts(Accepted(x), x.f.j.w.hist.log, x.f.j.s.done[i]);
  }

  /** Everything the host has split off the microframes so far. */
  function HostFrames(frames: seq<seq<Iso.WirePacket>>): seq<seq<int>> {
    if frames == [] then [] else
      var split := RxPacket(Bytes(frames[|frames| - 1])).Frames();
      HostFrames(frames[..|frames| - 1]) + if split.Some? then split.value else []
  }

  /** Every microframe so far kept its report and was intact. */
  ghost predicate AllIntact(x: Path)
    requires |x.fr.records| == |x.fr.granted|
  {
    forall i :: 0 <= i < |x.f.j.s.done| ==>
      var k := x.f.j.s.done[i];
      k.stable && Whole(Accepted(x)) && k.start + k.pages <= |Accepted(x)| && Intact(Accepted(x), k)
  }

  lemma PathCarried(m: nat, p: Params, evs: seq<PathEvent>)
    requires m >= 1 && p.Ok() && AllEventsSized(evs) && Healthy(m, p, evs)
    ensures |PathRun(m, p, evs).f.frames| == |PathRun(m, p, evs).f.j.s.done|
  {
    hide PathRun, WireRun, WireEvents, WireInv, Drained, WireReportsSized, Flatten;
    PathProjection(m, p, evs);
    PacketsCarryMicroframes(m, p, SIZES, WireEvents(m, p, evs));
  }

  lemma {:induction false} FramesSoFar(m: nat, p: Params, evs: seq<PathEvent>, n: nat)
    requires m >= 1 && p.Ok() && p.pageSize >= RX_FRAME_SIZE && AllEventsSized(evs) && Healthy(m, p, evs)
    requires |PathRun(m, p, evs).fr.records| == |PathRun(m, p, evs).fr.granted| && AllIntact(PathRun(m, p, evs))
    requires n <= |PathRun(m, p, evs).f.j.s.done| && n <= |PathRun(m, p, evs).f.frames|
    ensures var x := PathRun(m, p, evs);
            && Next(x.f.j.s.done[..n]) <= |Accepted(x)|
            && HostFrames(x.f.frames[..n]) == Accepted(x)[..Next(x.f.j.s.done[..n])]
  {
    hide PathRun, Healthy, Accepted;
    if n > 0 {
      var x := PathRun(m, p, evs);
      FramesSoFar(m, p, evs, n - 1);
      HostReceivesFrames(m, p, evs, n - 1);
      assert x.f.frames[..n][..n - 1] == x.f.frames[..n - 1];
      var k := x.f.j.s.done[n - 1];
      hide AllIntact, Flatten, HostFrames;
      assert Next(x.f.j.s.done[..n]) == k.start + k.pages;
      assert Accepted(x)[..k.start] + Accepted(x)[k.start..k.start + k.pages] == Accepted(x)[..k.start + k.pages];
    }
  }

  /** All microframes together: the host has received the first of the accepted frame records,
      without loss, repetition or change. */
  lemma HostFramesExact(m: nat, p: Params, evs: seq<PathEvent>)
    requires m >= 1 && p.Ok() && p.pageSize >= RX_FRAME_SIZE && AllEventsSized(evs) && Healthy(m, p, evs)
    requires |PathRun(m, p, evs).fr.records| == |PathRun(m, p, evs).fr.granted| && AllIntact(PathRun(m, p, evs))
    ensures var x := PathRun(m, p, evs);
            && Next(x.f.j.s.done) <= |Accepted(x)|
            && HostFrames(x.f.frames) == Accepted(x)[..Next(x.f.j.s.done)]
  {
    hide PathRun, Healthy, Accepted, AllIntact, HostFrames;
    var x := PathRun(m, p, evs);
    var n := |x.f.j.s.done|;
    PathCarried(m, p, evs);
    FramesSoFar(m, p, evs, n);
    assert x.f.frames[..n] == x.f.frames && x.f.j.s.done[..n] == x.f.j.s.done;
  }

  lemma SameFrameCount(record: seq<int>, page: seq<int>)
    requires |page| >= RX_FRAME_SIZE && record == page[..RX_FRAME_SIZE]
    ensures Framer.FrameCountOf(LAYOUT, record) == Framer.FrameCountOf(LAYOUT, page)
  {
    hide FromLe32;
    assert record[FRAME_SIZE..FRAME_SIZE + 4] == page[FRAME_SIZE..FRAME_SIZE + 4];
  }

  /** The frame count in a frame received: the little-endian word behind its 192 samples. */
  function CountIn(frame: seq<int>): int
    requires |frame| == 197
  {
    frame[192] + 256 * frame[193] + 65536 * frame[194] + 16777216 * frame[195]
  }

  lemma CountInExact(frame: seq<int>)
    requires |frame| == RX_FRAME_SIZE
    ensures Framer.FrameCountOf(LAYOUT, frame) == CountIn(frame)
  {
    assert frame[192..196] == [frame[192], frame[193], frame[194], frame[195]];
  }

  /** What the host can conclude from the frame counts it reads: between two frames received one
      after the other they differ, modulo 2^32, by the number of frames from one to the other,
      and every frame in between was refused because the FIFO was full. */
  lemma ReceivedGapsCountOverflows(m: nat, p: Params, evs: seq<PathEvent>, i: nat)
    requires m >= 1 && p.Ok() && p.pageSize >= RX_FRAME_SIZE && AllEventsSized(evs) && Healthy(m, p, evs)
    requires |PathRun(m, p, evs).fr.records| == |PathRun(m, p, evs).fr.granted| && AllIntact(PathRun(m, p, evs))
    requires i + 1 < |HostFrames(PathRun(m, p, evs).f.frames)|
    ensures var x := PathRun(m, p, evs);
            var h, pos := HostFrames(x.f.frames), Framer.Positions(x.fr.granted);
            && |h[i]| == |h[i + 1]| == 197 && i + 1 < |pos|
            && (CountIn(h[i + 1]) - CountIn(h[i])) % 0x1_0000_0000
               == (pos[i + 1] - pos[i]) % 0x1_0000_0000
            && forall k :: pos[i] < k < pos[i + 1] ==> !x.fr.granted[k]
  {
    hide PathRun, Accepted, AllIntact, HostFrames, Framer.JointRun, Framer.Positions, Framer.FrameCountOf,
         FramerEvents, WireEvents, WireRun, Orderly, Framer.AllPaced, Framer.AllSized, Drained, WireReportsSized, Next;
    var x := PathRun(m, p, evs);
    HostFramesExact(m, p, evs);
    PathFacts(m, p, evs);
    PathProjection(m, p, evs);
    Framer.GapCountsOverflows(p, LAYOUT, FramerEvents(m, p, evs), i);
    SameFrameCount(Accepted(x)[i], x.f.j.w.hist.log[i]);
    SameFrameCount(Accepted(x)[i + 1], x.f.j.w.hist.log[i + 1]);
    CountInExact(HostFrames(x.f.frames)[i]);
    CountInExact(HostFrames(x.f.frames)[i + 1]);
  }

  // ----- From the pins to the host -----

  /** The system clocks of the run are driven by the channels' serial lines, and its bits end
      with the falling edges of the serial clock. */
  ghost predicate FromPins(m: nat, p: Params, evs: seq<PathEvent>, clocks: seq<Line.LineClock>, serclk: seq<bool>)
    requires m >= 1 && p.Ok() && AllEventsSized(evs)
  {
    Line.Driven(LAYOUT, FramerEvents(m, p, evs), clocks) && Line.Strobes(clocks) == BT.EndStrobes(serclk)
  }

  /** Such runs whose reports have their size and whose host drains each supply in time. */
  ghost predicate HealthyPins(m: nat, p: Params, evs: seq<PathEvent>, clocks: seq<Line.LineClock>, serclk: seq<bool>)
    requires m >= 1 && p.Ok() && AllEventsSized(evs)
  {
    && FromPins(m, p, evs, clocks, serclk)
    && WireReportsSized(SIZES, WireEvents(m, p, evs)) && Drained(m, p, SIZES, WireEvents(m, p, evs))
  }

  /** Nothing need be assumed about the framer adapter's time. */
  lemma PinsHealthy(m: nat, p: Params, evs: seq<PathEvent>, clocks: seq<Line.LineClock>, serclk: seq<bool>)
    requires m >= 1 && p.Ok() && AllEventsSized(evs) && HealthyPins(m, p, evs, clocks, serclk)
    ensures Healthy(m, p, evs)
  {
    hide FramerEvents, WireEvents, Framer.AllPaced, Line.Driven, Line.Strobes, BT.EndStrobes, 
         Drained, WireReportsSized, Framer.AllSized, Line.Roomy;
    Line.SerialClockRoomy(LAYOUT, serclk, clocks);
    Line.LinesPace(p, LAYOUT, FramerEvents(m, p, evs), clocks);
  }

  lemma RecordsFromPins(m: nat, p: Params, evs: seq<PathEvent>, clocks: seq<Line.LineClock>, serclk: seq<bool>, at: nat)
    requires m >= 1 && p.Ok() && p.pageSize >= RX_FRAME_SIZE && AllEventsSized(evs)
    requires FromPins(m, p, evs, clocks, serclk) && 1 <= at < |PathRun(m, p, evs).fr.records|
    ensures Line.IsLineFrame(LAYOUT, PathRun(m, p, evs).fr.records[at], Line.LineBits(clocks), at)
  {
    hide PathRun, FramerEvents, WireEvents, WireRun, Framer.JointRun, Framer.AllSized, Line.Driven, Line.Strobes,
         Line.LineFrame, Line.LineBits, Line.FBitAt, BT.EndStrobes, Line.Roomy;
    PathProjection(m, p, evs);
    Line.SerialClockRoomy(LAYOUT, serclk, clocks);
    Line.RecordsAreSerialFrames(p, LAYOUT, FramerEvents(m, p, evs), clocks, at);
  }

  /** The host's frames are the granted records. */
  lemma HostFrameIsRecord(m: nat, p: Params, evs: seq<PathEvent>, i: nat)
    requires m >= 1 && p.Ok() && p.pageSize >= RX_FRAME_SIZE && AllEventsSized(evs) && Healthy(m, p, evs)
    requires |PathRun(m, p, evs).fr.records| == |PathRun(m, p, evs).fr.granted| && AllIntact(PathRun(m, p, evs))
    requires i < |HostFrames(PathRun(m, p, evs).f.frames)|
    ensures var x := PathRun(m, p, evs);
            var pos := Framer.Positions(x.fr.granted);
            i < |pos| && HostFrames(x.f.frames)[i] == x.fr.records[pos[i]]
  {
    hide PathRun, Healthy, AllIntact, HostFrames, Framer.Positions, Taken, Next;
    var x := PathRun(m, p, evs);
    HostFramesExact(m, p, evs);
    Framer.TakenAtPositions(x.fr.records, x.fr.granted);
  }

  /** The whole receive path: in a run whose host drains each microframe, every frame the host
      has split off is the serial frame of its position among all frames, octet for octet with
      the multiframe bits of its F bit and its number, except the very first frame, which
      began before any line did. */
  lemma HostReceivesSerialFrames(m: nat, p: Params, evs: seq<PathEvent>, clocks: seq<Line.LineClock>,
                                 serclk: seq<bool>, i: nat)
    requires m >= 1 && p.Ok() && p.pageSize >= RX_FRAME_SIZE && AllEventsSized(evs)
    requires HealthyPins(m, p, evs, clocks, serclk)
    requires |PathRun(m, p, evs).fr.records| == |PathRun(m, p, evs).fr.granted| && AllIntact(PathRun(m, p, evs))
    requires i < |HostFrames(PathRun(m, p, evs).f.frames)|
    ensures var x := PathRun(m, p, evs);
            var h, pos := HostFrames(x.f.frames), Framer.Positions(x.fr.granted);
            && i < |pos|
            && (pos[i] >= 1 ==> LineBytes(Layout(24, 8, 5), h[i], Line.LineBits(clocks), pos[i]))
  {
    hide LineBytes, PathRun, Healthy, AllIntact, HostFrames, Framer.Positions, WireEvents, FromPins, Drained,
         WireReportsSized, Line.LineBits, Line.IsLineFrame;
    PinsHealthy(m, p, evs, clocks, serclk);
    HostFrameIsRecord(m, p, evs, i);
    var at := Framer.Positions(PathRun(m, p, evs).fr.granted)[i];
    if at >= 1 {
      RecordsFromPins(m, p, evs, clocks, serclk, at);
      FrameBytes(LAYOUT, PathRun(m, p, evs).fr.records[at], Line.LineBits(clocks), at);
    }
  }
}
