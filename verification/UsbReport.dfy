/** The report behind the frames of each microframe: counts and levels of the USB side. */
module UsbReport {
  import opened Chunks
  import opened GrayCode
  import opened HostPackets
  import opened Numbers
  import opened PagedFifo
  import opened PagedFifoRuns
  import opened Wrappers

  /** The report's registers, of 32, 8, 8, 16, 16 and 8 bits. */
  datatype Report = Report(sofCount: nat, rxLevel: nat, txLevel: nat, rxUnderflows: nat, txOverflows: nat,
                           sequence: nat)

  const REPORT_RESET := Report(0, 0, 0, 0, 0, 0)

  /** One USB clock: what the receive FIFO shows its reader and the transmit FIFO its writer. */
  function ReportStep(r: Report, sof: bool, rx: Outputs, tx: Outputs): Report {
    Report(if sof then (r.sofCount + 1) % 0x1_0000_0000 else r.sofCount,
           if sof then rx.rLevel2 % 256 else r.rxLevel,
           if sof then tx.wLevel2 % 256 else r.txLevel,
           if rx.rUnderflow then (r.rxUnderflows + 1) % 65536 else r.rxUnderflows,
           if tx.wOverflow then (r.txOverflows + 1) % 65536 else r.txOverflows,
           if sof then (r.sequence + 1) % 256 else r.sequence)
  }

  class UsbReportRegisters {
    var sofCount: nat
    var rxLevel: nat
    var txLevel: nat
    var rxUnderflows: nat
    var txOverflows: nat
    var sequence: nat

    constructor ()
      ensures State() == REPORT_RESET
    {
      sofCount, rxLevel, txLevel, rxUnderflows, txOverflows, sequence := 0, 0, 0, 0, 0, 0;
    }

    function State(): Report
      reads this
    {
      Report(sofCount, rxLevel, txLevel, rxUnderflows, txOverflows, sequence)
    }

    method Clock(sof: bool, rx: Outputs, tx: Outputs)
      modifies this
      ensures State() == ReportStep(old(State()), sof, rx, tx)
    {
      if sof {
        sofCount, sequence := (sofCount + 1) % 0x1_0000_0000, (sequence + 1) % 256;
        rxLevel, txLevel := rx.rLevel2 % 256, tx.wLevel2 % 256;
      }
      if rx.rUnderflow { rxUnderflows := (rxUnderflows + 1) % 65536; }
      if tx.wOverflow { txOverflows := (txOverflows + 1) % 65536; }
    }
  }

  // ----- Runs of both FIFOs -----

  /** An instant of both FIFOs. The receive FIFO's reader and the transmit FIFO's writer are
      clocked together, by the USB clock. */
  datatype Instant = Instant(sof: bool, rx: Event, tx: Event) {
    predicate Ok() { (rx.r.Some? <==> tx.w.Some?) && (sof ==> rx.r.Some?) }
  }

  predicate AllInstantsOk(evs: seq<Instant>) { forall i :: 0 <= i < |evs| ==> evs[i].Ok() }

  function RxEvents(evs: seq<Instant>): (r: seq<Event>)
    ensures |r| == |evs|
  {
    if evs == [] then [] else RxEvents(evs[..|evs| - 1]) + [evs[|evs| - 1].rx]
  }

  function TxEvents(evs: seq<Instant>): (r: seq<Event>)
    ensures |r| == |evs|
  {
    if evs == [] then [] else TxEvents(evs[..|evs| - 1]) + [evs[|evs| - 1].tx]
  }

  function RxOutputs(p: Params, evs: seq<Instant>, e: Instant): Outputs
    requires p.Ok()
  {
    OutputsOf(p, Run(p, RxEvents(evs)).st.ctr, e.rx)
  }

  function TxOutputs(q: Params, evs: seq<Instant>, e: Instant): Outputs
    requires q.Ok()
  {
    OutputsOf(q, Run(q, TxEvents(evs)).st.ctr, e.tx)
  }

  function ReportRun(p: Params, q: Params, evs: seq<Instant>): Report
    requires p.Ok() && q.Ok()
  {
    if evs == [] then REPORT_RESET else
      var init, e := evs[..|evs| - 1], evs[|evs| - 1];
      var r := ReportRun(p, q, init);
      if e.rx.r.Some? then ReportStep(r, e.sof, RxOutputs(p, init, e), TxOutputs(q, init, e)) else r
  }

  function Sofs(evs: seq<Instant>): nat {
    if evs == [] then 0 else Sofs(evs[..|evs| - 1]) + Count(evs[|evs| - 1].sof)
  }

  /** Pages that the reader, and pages that the writer, is shown at the newest start of frame. */
  function RxShown(p: Params, evs: seq<Instant>): int
    requires p.Ok()
  {
    if evs == [] then 0
    else if !evs[|evs| - 1].sof then RxShown(p, evs[..|evs| - 1])
    else
      var sh := Run(p, RxEvents(evs[..|evs| - 1])).sh;
      Shown(sh.p1 - sh.consumed)
  }

  function TxShown(q: Params, evs: seq<Instant>): int
    requires q.Ok()
  {
    if evs == [] then 0
    else if !evs[|evs| - 1].sof then TxShown(q, evs[..|evs| - 1])
    else
      var sh := Run(q, TxEvents(evs[..|evs| - 1])).sh;
      Shown(sh.pLevel - sh.cLevel)
  }

  /** What the report says, in terms of the FIFOs' unbounded counters. */
  ghost predicate Tells(r: Report, p: Params, q: Params, evs: seq<Instant>)
    requires p.Ok() && q.Ok()
  {
    var rx, tx := Run(p, RxEvents(evs)), Run(q, TxEvents(evs));
    && r.sofCount == Sofs(evs) % 4294967296 && r.sequence == Sofs(evs) % 256
    && r.rxLevel == RxShown(p, evs) % 256 && r.txLevel == TxShown(q, evs) % 256
    && r.rxUnderflows == rx.hist.underflows % 65536
    && r.txOverflows == tx.hist.overflows % 65536
  }

  lemma NextModulo(n: nat, m: nat)
    requires m > 0
    ensures (n % m + 1) % m == (n + 1) % m
  {
    var q, r := n / m, n % m;
    assert n + 1 == m * q + (r + 1);
    if r + 1 < m {
      ModUnique(r + 1, q, m);
      ModUnique(r + 1, 0, m);
    } else {
      assert n + 1 == m * (q + 1) + 0;
      ModUnique(0, q + 1, m);
      ModUnique(0, 1, m);
    }
  }

  lemma RxStep(p: Params, evs: seq<Instant>, e: Instant)
    requires p.Ok() && e.Ok()
    ensures Run(p, RxEvents(evs + [e])).hist.underflows
         == Run(p, RxEvents(evs)).hist.underflows + Count(RxOutputs(p, evs, e).rUnderflow)
    ensures e.rx.r.None? ==> !RxOutputs(p, evs, e).rUnderflow
    ensures var sh := Run(p, RxEvents(evs)).sh; RxOutputs(p, evs, e).rLevel2 == Shown(sh.p1 - sh.consumed)
  {
    hide Run, OutputsOf, Shown;
    assert (evs + [e])[..|evs|] == evs;
    var all := RxEvents(evs + [e]);
    assert all[..|evs|] == RxEvents(evs);
    ReportedCounts(p, all);
    ReportedCounts(p, RxEvents(evs));
    RunInv(p, RxEvents(evs));
    SidesShown(p, Run(p, RxEvents(evs)), e.rx);
  }

  lemma TxStep(q: Params, evs: seq<Instant>, e: Instant)
    requires q.Ok() && e.Ok()
    ensures Run(q, TxEvents(evs + [e])).hist.overflows
         == Run(q, TxEvents(evs)).hist.overflows + Count(TxOutputs(q, evs, e).wOverflow)
    ensures e.rx.r.None? ==> !TxOutputs(q, evs, e).wOverflow
    ensures var sh := Run(q, TxEvents(evs)).sh; TxOutputs(q, evs, e).wLevel2 == Shown(sh.pLevel - sh.cLevel)
  {
    hide Run, OutputsOf, Shown;
    assert (evs + [e])[..|evs|] == evs;
    var all := TxEvents(evs + [e]);
    assert all[..|evs|] == TxEvents(evs);
    ReportedCounts(q, all);
    ReportedCounts(q, TxEvents(evs));
    RunInv(q, TxEvents(evs));
    SidesShown(q, Run(q, TxEvents(evs)), e.tx);
  }

  /** The report over whole runs, of any length and with any of the two FIFOs' other clocks in
      between: the levels each side was shown at the newest start of frame, and the numbers of
      starts of frame, underflows and overflows, each modulo the width of its field. */
  lemma {:induction false} ReportExact(p: Params, q: Params, evs: seq<Instant>)
    requires p.Ok() && q.Ok() && AllInstantsOk(evs)
    ensures Tells(ReportRun(p, q, evs), p, q, evs)
  {
    hide Run, RxEvents, TxEvents, RxOutputs, TxOutputs, Shown, ReportStep, Tells;
    if evs != [] {
      var init, e := evs[..|evs| - 1], evs[|evs| - 1];
      assert init + [e] == evs;
      ReportExact(p, q, init);
      TellsStep(p, q, init, e, ReportRun(p, q, init));
    } else {
      NothingYet(p, q);
    }
  }

  lemma NothingYet(p: Params, q: Params)
    requires p.Ok() && q.Ok()
    ensures Tells(REPORT_RESET, p, q, [])
  {
  }

  /** Starts of frame and levels shown, one instant on. */
  lemma ShownStep(p: Params, q: Params, evs: seq<Instant>, e: Instant)
    requires p.Ok() && q.Ok() && e.Ok()
    ensures Sofs(evs + [e]) == Sofs(evs) + Count(e.sof)
    ensures RxShown(p, evs + [e]) == if e.sof then RxOutputs(p, evs, e).rLevel2 else RxShown(p, evs)
    ensures TxShown(q, evs + [e]) == if e.sof then TxOutputs(q, evs, e).wLevel2 else TxShown(q, evs)
  {
    hide Run, RxEvents, TxEvents, RxOutputs, TxOutputs, Shown;
    assert (evs + [e])[..|evs|] == evs;
    RxStep(p, evs, e);
    TxStep(q, evs, e);
  }

  lemma TellsStep(p: Params, q: Params, evs: seq<Instant>, e: Instant, r: Report)
    requires p.Ok() && q.Ok() && e.Ok() && Tells(r, p, q, evs)
    ensures var n := if e.rx.r.Some? then ReportStep(r, e.sof, RxOutputs(p, evs, e), TxOutputs(q, evs, e)) else r;
            Tells(n, p, q, evs + [e])
  {
    hide Run, RxEvents, TxEvents, RxOutputs, TxOutputs, Shown, Sofs, RxShown, TxShown;
    ShownStep(p, q, evs, e);
    RxStep(p, evs, e);
    TxStep(q, evs, e);
    NextModulo(Sofs(evs), 4294967296);
    NextModulo(Sofs(evs), 256);
    NextModulo(Run(p, RxEvents(evs)).hist.underflows, 65536);
    NextModulo(Run(q, TxEvents(evs)).hist.overflows, 65536);
  }

  // ----- Its bytes -----

  function Le16(n: nat): seq<int> { [n % 256, n / 256 % 256] }

  /** The eleven bytes sent. */
  function Bytes(r: Report): seq<int> {
    Le32(r.sofCount) + [r.rxLevel, r.txLevel] + Le16(r.rxUnderflows) + Le16(r.txOverflows) + [r.sequence]
  }

  predicate Fits(r: Report) {
    && r.sofCount < 4294967296 && r.rxLevel < 256 && r.txLevel < 256
    && r.rxUnderflows < 65536 && r.txOverflows < 65536 && r.sequence < 256
  }

  /** What the host reads from the last bytes of a microframe, field by field. */
  lemma BytesExact(r: Report)
    requires Fits(r)
    ensures var b := Bytes(r);
            && |b| == 11 && WordAt(b, 0, r.sofCount) && b[4] == r.rxLevel && b[5] == r.txLevel
            && b[6] + 256 * b[7] == r.rxUnderflows && b[8] + 256 * b[9] == r.txOverflows && b[10] == r.sequence
  {
    var tail := [r.rxLevel, r.txLevel] + Le16(r.rxUnderflows) + Le16(r.txOverflows) + [r.sequence];
    Le32IsWord([], r.sofCount, tail);
    assert [] + Le32(r.sofCount) + tail == Bytes(r);
    hide Le32;
  }

  lemma {:induction false} ReportFits(p: Params, q: Params, evs: seq<Instant>)
    requires p.Ok() && q.Ok()
    ensures Fits(ReportRun(p, q, evs))
  {
    if evs != [] {
      hide RxOutputs, TxOutputs;
      ReportFits(p, q, evs[..|evs| - 1]);
    }
  }

  /** From the FIFOs to the host: splitting a microframe that ends with the report gives the host,
      at the eleven last bytes, what the FIFOs' counters say. */
  lemma HostReadsReport(p: Params, q: Params, evs: seq<Instant>, records: seq<seq<int>>)
    requires p.Ok() && q.Ok() && AllInstantsOk(evs)
    requires forall i :: 0 <= i < |records| ==> |records[i]| == 197
    ensures var split := RxPacket(Flatten(records) + Bytes(ReportRun(p, q, evs))).UsbReport();
            && split.Some? && |split.value| == 11
            && var b, rx, tx := split.value, Run(p, RxEvents(evs)), Run(q, TxEvents(evs));
            && WordAt(b, 0, Sofs(evs) % 4294967296)
            && b[4] == RxShown(p, evs) % 256 && b[5] == TxShown(q, evs) % 256
            && b[6] + 256 * b[7] == rx.hist.underflows % 65536
            && b[8] + 256 * b[9] == tx.hist.overflows % 65536
            && b[10] == Sofs(evs) % 256
  {
    hide Run, RxEvents, TxEvents, RxShown, TxShown, ReportRun, Bytes, Flatten, Chunk, WordAt;
    ReportExact(p, q, evs);
    ReportFits(p, q, evs);
    BytesExact(ReportRun(p, q, evs));
    SplitRecoversRecords(records, Bytes(ReportRun(p, q, evs)));
  }
}
