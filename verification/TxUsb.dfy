/** The adapter between the isochronous OUT endpoint and the transmit FIFO: a byte stream,
    cut at each start of frame, becomes one report and any number of records. */
module TxUsb {
  import opened PagedFifo
  import opened Chunks

  datatype Fsm = REPORT | FRAME

  datatype Sizes = Sizes(frame: nat, report: nat) {
    predicate Ok() { frame >= 1 && report >= 1 }
  }

  datatype OutCycle = OutCycle(sof: bool, byteAdvance: bool, value: int)

  datatype Adapter = Adapter(fsm: Fsm, address: nat, report: seq<int>)

  predicate AdapterSized(z: Sizes, a: Adapter) {
    z.Ok() && |a.report| == z.report && (a.fsm == REPORT ==> a.address < z.report)
  }

  function AdapterReset(z: Sizes): Adapter { Adapter(REPORT, 0, seq(z.report, i => 0)) }

  predicate FrameLast(z: Sizes, a: Adapter, u: OutCycle) { a.address == z.frame - 1 && u.byteAdvance }

  predicate ReportLast(z: Sizes, a: Adapter, u: OutCycle) { a.address == z.report - 1 && u.byteAdvance }

  /** What the adapter presents to the FIFO's write side. */
  function FifoCycle(z: Sizes, a: Adapter, u: OutCycle): WriteCycle {
    if a.fsm == FRAME && !u.sof
    then WriteCycle(a.address, u.value, u.byteAdvance, FrameLast(z, a, u))
    else WriteCycle(0, u.value, false, false)
  }

  function AdapterStep(z: Sizes, a: Adapter, u: OutCycle): (n: Adapter)
    requires AdapterSized(z, a)
    ensures AdapterSized(z, n)
  {
    var advanced := if u.byteAdvance then a.address + 1 else a.address;
    if u.sof then Adapter(REPORT, 0, a.report)
    else match a.fsm
      case REPORT =>
        var report := if u.byteAdvance then a.report[a.address := u.value] else a.report;
        if ReportLast(z, a, u) then Adapter(FRAME, 0, report) else Adapter(REPORT, advanced, report)
      case FRAME =>
        Adapter(FRAME, if FrameLast(z, a, u) then 0 else advanced, a.report)
  }

  class TxUSBOutToFIFOAdapter {
    const sizes: Sizes
    var fsm: Fsm
    var address: nat
    var report: seq<int>

    constructor (z: Sizes)
      requires z.Ok()
      ensures sizes == z && State() == AdapterReset(z) && Valid()
    {
      sizes, fsm, address, report := z, REPORT, 0, seq(z.report, i => 0);
    }

    function State(): Adapter
      reads this
    {
      Adapter(fsm, address, report)
    }

    predicate Valid()
      reads this
    {
      AdapterSized(sizes, State())
    }

    /** One USB clock: the FIFO write interface, then the registers. */
    method Clock(u: OutCycle) returns (fifo: WriteCycle)
      requires Valid()
      modifies this
      ensures Valid() && fifo == FifoCycle(sizes, old(State()), u)
      ensures State() == AdapterStep(sizes, old(State()), u)
    {
      var frameLast := address == sizes.frame - 1 && u.byteAdvance;
      var reportLast := address == sizes.report - 1 && u.byteAdvance;
      fifo := WriteCycle(0, u.value, false, false);
      match fsm {
        case REPORT =>
          if u.sof {
            address := 0;
          } else {
            if u.byteAdvance {
              report := report[address := u.value];
              address := address + 1;
            }
            if reportLast { address, fsm := 0, FRAME; }
          }
        case FRAME =>
          if u.sof {
            address, fsm := 0, REPORT;
          } else {
            fifo := WriteCycle(address, u.value, u.byteAdvance, frameLast);
            if u.byteAdvance { address := address + 1; }
            if frameLast { address := 0; }
          }
      }
    }
  }

  // ----- The stream parser as a specification -----

  /** The bytes received, cut at every start of frame. A byte that coincides with a start
      of frame belongs to neither side. */
  function Pieces(cycles: seq<OutCycle>): (p: seq<seq<int>>)
    ensures p != []
  {
    if cycles == [] then [[]] else
      var p, u := Pieces(cycles[..|cycles| - 1]), cycles[|cycles| - 1];
      if u.sof then p + [[]]
      else if u.byteAdvance then p[..|p| - 1] + [p[|p| - 1] + [u.value]]
      else p
  }

  /** The records of one piece: drop the report, cut the rest, discard the short tail. */
  function Records(z: Sizes, piece: seq<int>): seq<seq<int>>
    requires z.Ok()
  {
    if |piece| < z.report then [] else Chunk(piece[z.report..], z.frame)
  }

  function AllRecords(z: Sizes, pieces: seq<seq<int>>): seq<seq<int>>
    requires z.Ok()
  {
    if pieces == [] then []
    else AllRecords(z, pieces[..|pieces| - 1]) + Records(z, pieces[|pieces| - 1])
  }

  // ----- The adapter on its own: one page of memory and the records offered -----

  /** `page` is the page under the writer's pointer; each strobe offers its contents. */
  datatype Writer = Writer(a: Adapter, page: seq<int>, offered: seq<seq<int>>)

  function WriterStep(z: Sizes, w: Writer, u: OutCycle): (n: Writer)
    requires AdapterSized(z, w.a) && |w.page| >= z.frame
    ensures AdapterSized(z, n.a) && |n.page| >= z.frame
  {
    var f := FifoCycle(z, w.a, u);
    var page := if f.en && f.addr < |w.page| then w.page[f.addr := f.data] else w.page;
    Writer(AdapterStep(z, w.a, u), page, if f.advance then w.offered + [page[..z.frame]] else w.offered)
  }

  function WriterRun(z: Sizes, page: seq<int>, cycles: seq<OutCycle>): (w: Writer)
    requires z.Ok() && |page| >= z.frame
    ensures AdapterSized(z, w.a) && |w.page| >= z.frame
  {
    if cycles == [] then Writer(AdapterReset(z), page, [])
    else WriterStep(z, WriterRun(z, page, cycles[..|cycles| - 1]), cycles[|cycles| - 1])
  }

  /** Where the parser stands in the piece being received. */
  predicate ParserAt(z: Sizes, a: Adapter, page: seq<int>, piece: seq<int>)
    requires AdapterSized(z, a) && |page| >= z.frame
  {
    match a.fsm
    case REPORT => |piece| == a.address && a.report[..a.address] == piece
    case FRAME =>
      && |piece| >= z.report && a.report == piece[..z.report]
      && a.address < z.frame && Tail(piece[z.report..], z.frame) == page[..a.address]
  }

  lemma ParserStep(z: Sizes, w: Writer, piece: seq<int>, u: OutCycle)
    requires AdapterSized(z, w.a) && |w.page| >= z.frame && ParserAt(z, w.a, w.page, piece)
    ensures var n := WriterStep(z, w, u);
            var next := if u.sof then [] else if u.byteAdvance then piece + [u.value] else piece;
            && ParserAt(z, n.a, n.page, next)
            && (u.sof ==> n.offered == w.offered)
            && (!u.sof ==> Records(z, piece) <= Records(z, next))
            && (!u.sof ==> n.offered == w.offered + Records(z, next)[|Records(z, piece)|..])
  {
    var n := WriterStep(z, w, u);
    hide Tail;
    if !u.sof && u.byteAdvance {
      var next := piece + [u.value];
      if w.a.fsm == REPORT {
        assert n.a.report[..w.a.address + 1] == next;
        if ReportLast(z, w.a, u) {
          assert next[z.report..] == [] && next[..z.report] == next;
        }
      } else {
        var body := piece[z.report..];
        ChunkOneMore(body, u.value, z.frame);
        assert next[z.report..] == body + [u.value] && next[..z.report] == piece[..z.report];
        assert n.page[..w.a.address + 1] == w.page[..w.a.address] + [u.value];
      }
    }
  }

  /** How one cycle extends the records of all pieces. */
  lemma AllRecordsStep(z: Sizes, cycles: seq<OutCycle>, u: OutCycle)
    requires z.Ok()
    ensures var p, q := Pieces(cycles), Pieces(cycles + [u]);
            var before, after := Records(z, p[|p| - 1]), Records(z, q[|q| - 1]);
            if u.sof then AllRecords(z, q) == AllRecords(z, p)
            else before <= after ==> AllRecords(z, q) == AllRecords(z, p) + after[|before|..]
  {
    hide Chunk;
    assert (cycles + [u])[..|cycles|] == cycles;
    var p, q := Pieces(cycles), Pieces(cycles + [u]);
    if u.sof {
      assert q[..|q| - 1] == p;
    } else {
      assert q[..|q| - 1] == p[..|p| - 1];
      var before, after := Records(z, p[|p| - 1]), Records(z, q[|q| - 1]);
      if before <= after {
        assert after == before + after[|before|..];
      }
    }
  }

  lemma NothingOffered(z: Sizes, page: seq<int>)
    requires z.Ok() && |page| >= z.frame
    ensures AllRecords(z, [[]]) == [] && ParserAt(z, AdapterReset(z), page, [])
  {
    assert AllRecords(z, [[]]) == AllRecords(z, [[]][..0]) + Records(z, []);
  }

  /** The stream parser law: for every trace and every initial page, the records offered to
      the FIFO are those of the pieces between starts of frame, and the report register
      holds the report of the piece being received as far as it has come. */
  lemma {:induction false} OfferedRecordsExact(z: Sizes, page: seq<int>, cycles: seq<OutCycle>)
    requires z.Ok() && |page| >= z.frame
    ensures var w := WriterRun(z, page, cycles);
            var p := Pieces(cycles);
            && w.offered == AllRecords(z, p)
            && ParserAt(z, w.a, w.page, p[|p| - 1])
  {
    hide WriterStep, ParserAt, Records, AllRecords, Chunk;
    if cycles == [] {
      NothingOffered(z, page);
    } else {
      var init, u := cycles[..|cycles| - 1], cycles[|cycles| - 1];
      var p := Pieces(init);
      OfferedRecordsExact(z, page, init);
      ParserStep(z, WriterRun(z, page, init), p[|p| - 1], u);
      AllRecordsStep(z, init, u);
      assert init + [u] == cycles;
    }
  }
}

/** The adapter writing into the paged FIFO, over whole runs. */
module TxUsbRuns {
  import opened Wrappers
  import opened GrayCode
  import opened PagedFifo
  import opened PagedFifoRuns
  import opened Chunks
  import opened TxUsb

  /** One instant: the USB side is clocked, the framer side reads. */
  datatype JointEvent = JointEvent(u: Option<OutCycle>, r: Option<ReadCycle>, wMix: Bits, rMix: Bits)

  /** `granted` says of each offered record whether the FIFO took it. */
  datatype Joint = Joint(w: World, a: Adapter, granted: seq<bool>)

  function FifoEvent(z: Sizes, a: Adapter, e: JointEvent): Event {
    Event(if e.u.Some? then Some(FifoCycle(z, a, e.u.value)) else None, e.r, e.wMix, e.rMix)
  }

  function JointStep(p: Params, z: Sizes, j: Joint, e: JointEvent): (n: Joint)
    requires WellSized(p, j.w.st) && AdapterSized(z, j.a)
    ensures WellSized(p, n.w.st) && AdapterSized(z, n.a)
  {
    var f := FifoEvent(z, j.a, e);
    Joint(WorldStep(p, j.w, f),
          if e.u.Some? then AdapterStep(z, j.a, e.u.value) else j.a,
          if f.w.Some? && f.w.value.advance then j.granted + [!OutputsOf(p, j.w.st.ctr, f).wOverflow] else j.granted)
  }

  function JointRun(p: Params, z: Sizes, evs: seq<JointEvent>): (j: Joint)
    requires p.Ok() && z.Ok()
    ensures WellSized(p, j.w.st) && AdapterSized(z, j.a)
  {
    if evs == [] then Joint(Start(p), AdapterReset(z), [])
    else JointStep(p, z, JointRun(p, z, evs[..|evs| - 1]), evs[|evs| - 1])
  }

  function FifoEvents(p: Params, z: Sizes, evs: seq<JointEvent>): seq<Event>
    requires p.Ok() && z.Ok()
  {
    if evs == [] then [] else
      var init := evs[..|evs| - 1];
      FifoEvents(p, z, init) + [FifoEvent(z, JointRun(p, z, init).a, evs[|evs| - 1])]
  }

  /** The USB cycles of a composed run. */
  function Cycles(evs: seq<JointEvent>): seq<OutCycle> {
    if evs == [] then [] else
      var e := evs[|evs| - 1];
      Cycles(evs[..|evs| - 1]) + if e.u.Some? then [e.u.value] else []
  }

  lemma {:induction false} Projection(p: Params, z: Sizes, evs: seq<JointEvent>)
    requires p.Ok() && z.Ok()
    ensures JointRun(p, z, evs).w == Run(p, FifoEvents(p, z, evs))
  {
    hide WorldStep, AdapterStep, Overflow;
    if evs != [] {
      var init, f := evs[..|evs| - 1], FifoEvents(p, z, evs);
      Projection(p, z, init);
      assert f[..|f| - 1] == FifoEvents(p, z, init);
    }
  }

  // ----- The adapter spaces its strobes -----

  ghost predicate SinceStrobe(a: Adapter, strobes: seq<bool>) {
    forall i :: 0 <= i < |strobes| && strobes[i] ==>
      |strobes| - 1 - i >= if a.fsm == FRAME then a.address else 0
  }

  /** Any two page advances are at least a whole record of clocks apart, so records of two
      or more bytes meet the spacing that the paged FIFO relies on. */
  lemma {:induction false} StrobesSpacedByRecord(p: Params, z: Sizes, evs: seq<JointEvent>)
    requires p.Ok() && z.Ok()
    ensures SpacedBy(z.frame, WriteStrobes(FifoEvents(p, z, evs)))
    ensures SinceStrobe(JointRun(p, z, evs).a, WriteStrobes(FifoEvents(p, z, evs)))
  {
    hide WorldStep, Overflow;
    if evs != [] {
      var init, f := evs[..|evs| - 1], FifoEvents(p, z, evs);
      StrobesSpacedByRecord(p, z, init);
      assert f[..|f| - 1] == FifoEvents(p, z, init);
      SpacingStep(z, JointRun(p, z, init).a, WriteStrobes(f[..|f| - 1]), evs[|evs| - 1]);
    }
  }

  lemma SpacingStep(z: Sizes, a: Adapter, strobes: seq<bool>, e: JointEvent)
    requires AdapterSized(z, a) && SpacedBy(z.frame, strobes) && SinceStrobe(a, strobes)
    ensures var w := FifoEvent(z, a, e).w;
            var more := strobes + if w.Some? then [w.value.advance] else [];
            && SpacedBy(z.frame, more)
            && SinceStrobe(if e.u.Some? then AdapterStep(z, a, e.u.value) else a, more)
  {
    if e.u.Some? {
      var more := strobes + [FifoCycle(z, a, e.u.value).advance];
      forall i, k | 0 <= i < k < |more| && more[i] && more[k] ensures k - i >= z.frame {
        assert strobes[i];
        if k < |strobes| { assert strobes[k]; }
      }
      var n := AdapterStep(z, a, e.u.value);
      forall i | 0 <= i < |more| && more[i]
        ensures |more| - 1 - i >= if n.fsm == FRAME then n.address else 0
      {
        if i < |strobes| { assert strobes[i]; }
      }
    } else {
      assert strobes + [] == strobes;
    }
  }

  // ----- Records through the FIFO -----

  function Piece(evs: seq<JointEvent>): seq<int> {
    var p := Pieces(Cycles(evs)); p[|p| - 1]
  }

  ghost predicate RecordsInv(p: Params, z: Sizes, j: Joint, records: seq<seq<int>>, piece: seq<int>)
    requires p.Ok() && p.pageSize >= z.frame && WellSized(p, j.w.st) && AdapterSized(z, j.a)
  {
    var log := j.w.hist.log;
    && ParserAt(z, j.a, WritePage(p, j.w), piece)
    && |records| == |j.granted|
    && (forall i :: 0 <= i < |log| ==> |log[i]| == p.pageSize)
    && Trim(log, z.frame) == Taken(records, j.granted)
  }

  lemma ParserAtPageStart(z: Sizes, a: Adapter, page: seq<int>, other: seq<int>, piece: seq<int>)
    requires AdapterSized(z, a) && |page| >= z.frame && |other| >= z.frame
    requires ParserAt(z, a, page, piece) && a.fsm == FRAME && a.address == 0
    ensures ParserAt(z, a, other, piece)
  {
    assert page[..0] == other[..0];
  }

  lemma RecordsStep(p: Params, z: Sizes, j: Joint, e: JointEvent, records: seq<seq<int>>, piece: seq<int>)
    requires p.Ok() && p.pageSize >= z.frame && WellSized(p, j.w.st) && AdapterSized(z, j.a)
    requires Inv(p, j.w) && SpacedInv(p, j.w) && SpacedStep(j.w, FifoEvent(z, j.a, e))
    requires RecordsInv(p, z, j, records, piece) && e.u.Some?
    ensures var n := JointStep(p, z, j, e);
            var next := WriterStep(z, Writer(j.a, WritePage(p, j.w), records), e.u.value);
            var u := e.u.value;
            RecordsInv(p, z, n, next.offered,
                       if u.sof then [] else if u.byteAdvance then piece + [u.value] else piece)
  {
    hide Inv, SpacedInv, WorldStep, Overflow, Chunk, Tail, Records, PageAt;
    var f, u := FifoEvent(z, j.a, e), e.u.value;
    var w := Writer(j.a, WritePage(p, j.w), records);
    var n, next := JointStep(p, z, j, e), WriterStep(z, w, u);
    ParserStep(z, w, piece, u);
    WriteInstant(p, j.w, f);
    assert next.page == Written(p, j.w, f);
    if f.w.value.advance {
      TakenOneMore(records, j.granted, next.page[..z.frame], Granted(p, j.w.st.ctr, f));
      if Granted(p, j.w.st.ctr, f) {
        TrimOneMore(j.w.hist.log, next.page, z.frame);
        ParserAtPageStart(z, n.a, next.page, WritePage(p, n.w), if u.byteAdvance then piece + [u.value] else piece);
      }
    }
  }

  lemma IdleStep(p: Params, z: Sizes, j: Joint, e: JointEvent, records: seq<seq<int>>, piece: seq<int>)
    requires p.Ok() && p.pageSize >= z.frame && WellSized(p, j.w.st) && AdapterSized(z, j.a)
    requires Inv(p, j.w) && SpacedInv(p, j.w)
    requires RecordsInv(p, z, j, records, piece) && e.u.None?
    ensures RecordsInv(p, z, JointStep(p, z, j, e), records, piece)
  {
    hide Inv, SpacedInv, WorldStep, Overflow, Chunk, Tail, Records, PageAt;
    WriteInstant(p, j.w, FifoEvent(z, j.a, e));
  }

  /** The transmit law: for every trace of the OUT endpoint and every behaviour of the
      reader, the pages the FIFO holds on record are exactly the parsed records that were
      granted, in order; each of the others was one reported overflow. */
  lemma {:induction false} CommittedRecordsExact(p: Params, z: Sizes, evs: seq<JointEvent>)
    requires p.Ok() && z.Ok() && z.frame >= 2 && p.pageSize >= z.frame
    ensures RecordsInv(p, z, JointRun(p, z, evs), AllRecords(z, Pieces(Cycles(evs))), Piece(evs))
    ensures SpacedBy(2, WriteStrobes(FifoEvents(p, z, evs)))
  {
    hide WorldStep, Overflow, Chunk, Tail, Records, RecordsInv, WriterStep, AllRecords, Inv, SpacedInv, ContentInv;
    StrobesSpacedByRecord(p, z, evs);
    if evs == [] {
      StartRecords(p, z);
    } else {
      var init, e := evs[..|evs| - 1], evs[|evs| - 1];
      var j, f := JointRun(p, z, init), FifoEvents(p, z, evs);
      CommittedRecordsExact(p, z, init);
      Projection(p, z, init);
      RunSpaced(p, FifoEvents(p, z, init));
      SpacedLast(p, f);
      assert f[..|f| - 1] == FifoEvents(p, z, init);
      if e.u.Some? {
        RecordsStep(p, z, j, e, AllRecords(z, Pieces(Cycles(init))), Piece(init));
        OfferedStep(p, z, j, init, e.u.value);
        assert Cycles(evs) == Cycles(init) + [e.u.value];
      } else {
        IdleStep(p, z, j, e, AllRecords(z, Pieces(Cycles(init))), Piece(init));
        assert Cycles(evs) == Cycles(init);
      }
    }
  }

  lemma StartRecords(p: Params, z: Sizes)
    requires p.Ok() && z.Ok() && p.pageSize >= z.frame
    ensures RecordsInv(p, z, JointRun(p, z, []), AllRecords(z, Pieces([])), [])
  {
    assert AllRecords(z, [[]]) == AllRecords(z, [[]][..0]) + Records(z, []);
  }

  /** The parser's records and piece after one more cycle. */
  lemma OfferedStep(p: Params, z: Sizes, j: Joint, evs: seq<JointEvent>, u: OutCycle)
    requires p.Ok() && z.Ok() && p.pageSize >= z.frame && WellSized(p, j.w.st) && AdapterSized(z, j.a)
    requires RecordsInv(p, z, j, AllRecords(z, Pieces(Cycles(evs))), Piece(evs))
    ensures var c := Cycles(evs);
            var w := Writer(j.a, WritePage(p, j.w), AllRecords(z, Pieces(c)));
            && WriterStep(z, w, u).offered == AllRecords(z, Pieces(c + [u]))
            && Pieces(c + [u])[|Pieces(c + [u])| - 1]
                 == if u.sof then [] else if u.byteAdvance then Piece(evs) + [u.value] else Piece(evs)
  {
    hide Chunk, Tail, Records, AllRecords, WriterStep;
    var c := Cycles(evs);
    ParserStep(z, Writer(j.a, WritePage(p, j.w), AllRecords(z, Pieces(c))), Piece(evs), u);
    AllRecordsStep(z, c, u);
    assert (c + [u])[..|c|] == c;
  }

  /** What the framer side reads is therefore parsed from the OUT packets alone. */
  lemma FramerReadsParsedRecords(p: Params, z: Sizes, evs: seq<JointEvent>, n: nat)
    requires p.Ok() && z.Ok() && z.frame >= 2 && p.pageSize >= z.frame
    requires n < |evs| && evs[n].r.Some? && evs[n].r.value.addr < z.frame
    requires JointRun(p, z, evs[..n]).w.sh.produced > 0
    ensures var j := JointRun(p, z, evs);
            var records := AllRecords(z, Pieces(Cycles(evs)));
            && |records| == |j.granted|
            && var c := JointRun(p, z, evs[..n]).w.sh.consumed;
            && c < |Taken(records, j.granted)| && |Taken(records, j.granted)[c]| == z.frame
            && JointRun(p, z, evs[..n + 1]).w.st.rData == Taken(records, j.granted)[c][evs[n].r.value.addr]
  {
    hide WorldStep, Overflow, Chunk, Tail, Records, AllRecords, JointRun, Taken, Run, ParserAt, WriteStrobes, SpacedBy;
    var f := FifoEvents(p, z, evs);
    CommittedRecordsExact(p, z, evs);
    FifoEventsTake(p, z, evs, n);
    FifoEventsTake(p, z, evs, n + 1);
    Projection(p, z, evs);
    Projection(p, z, evs[..n]);
    Projection(p, z, evs[..n + 1]);
    ReadsSeeCommittedRecords(p, f, n);
    ModUnique(evs[n].r.value.addr, 0, p.pageSize);
  }

  lemma {:induction false} FifoEventsTake(p: Params, z: Sizes, evs: seq<JointEvent>, n: nat)
    requires p.Ok() && z.Ok() && n <= |evs|
    ensures |FifoEvents(p, z, evs)| == |evs|
    ensures FifoEvents(p, z, evs)[..n] == FifoEvents(p, z, evs[..n])
    ensures n < |evs| ==> FifoEvents(p, z, evs)[n].r == evs[n].r
  {
    hide JointStep;
    if n == |evs| {
      assert evs[..n] == evs;
      if evs != [] { FifoEventsTake(p, z, evs[..|evs| - 1], |evs| - 1); }
    } else {
      FifoEventsTake(p, z, evs[..|evs| - 1], n);
      assert evs[..|evs| - 1][..n] == evs[..n];
    }
  }
}
