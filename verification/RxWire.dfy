/** Endpoint, adapter and FIFO together: what is on the wire, and what the host makes of it. */
module RxWire {

  import opened Chunks
  import opened GrayCode
  import opened HostPackets
  import opened PagedFifo
  import opened PagedFifoRuns
  import opened RxPath
  import opened RxUsbRuns
  import opened Wrappers

  import Iso = IsochronousIn
  import Usb = RxUsb

  /** Inputs of the USB side at one of its clocks. */
  datatype UsbInput = UsbInput(sof: bool, requested: bool, ready: bool, report: seq<int>)

  datatype WireEvent = WireEvent(w: Option<WriteCycle>, u: Option<UsbInput>, wMix: Bits, rMix: Bits)

  /** The composed system, and what the transmitter has read off the endpoint's outputs: packets
      finished since the newest start of frame, the bytes of the packet under way, and for each
      microframe the adapter has finished, the packets that carried it. */
  datatype Wire = Wire(j: Joint, e: Iso.Endpoint, sent: seq<Iso.WirePacket>, current: seq<int>,
                       frames: seq<seq<Iso.WirePacket>>)

  function ClockOf(p: Params, f: Wire, u: UsbInput): UsbClock {
    UsbClock(u.sof, u.requested, u.ready, OutputsOf(p, f.j.w.st.ctr, NO_EDGE).rLevel2)
  }

  /** The endpoint's byte strobe, which does not depend on the byte on offer, is the adapter's. */
  function UsbCycleOf(p: Params, z: Usb.Sizes, f: Wire, u: UsbInput): Usb.UsbCycle {
    Usb.UsbCycle(u.sof, Iso.OutputsOf(f.e, EndpointCycle(z, ClockOf(p, f, u)), 0).byteAdvance, u.report)
  }

  /** The endpoint's outputs; the byte on offer is the one the adapter presents. */
  function EndpointOutputs(p: Params, z: Usb.Sizes, f: Wire, u: UsbInput): Iso.Outputs {
    Iso.OutputsOf(f.e, EndpointCycle(z, ClockOf(p, f, u)),
                  Usb.EndpointValue(f.j.a, UsbCycleOf(p, z, f, u), f.j.w.st.rData))
  }

  function JointEventOf(p: Params, z: Usb.Sizes, f: Wire, ev: WireEvent): JointEvent {
    JointEvent(ev.w, if ev.u.Some? then Some(UsbCycleOf(p, z, f, ev.u.value)) else None, ev.wMix, ev.rMix)
  }

  /** One USB clock: the transmitter reads the endpoint's outputs. */
  function UsbStep(m: nat, p: Params, z: Usb.Sizes, f: Wire, u: UsbInput, j: Joint): (n: Wire)
    ensures n.j == j
  {
    var c, cycle := EndpointCycle(z, ClockOf(p, f, u)), UsbCycleOf(p, z, f, u);
    var s := Iso.Watch(Iso.Stream(f.sent, f.current), EndpointOutputs(p, z, f, u), u.ready);
    var finished := f.j.a.fsm == Usb.REPORT && Usb.ReportLast(z, f.j.a, cycle);
    Wire(j, Iso.Step(m, f.e, c), if u.sof then [] else s.packets, s.open,
         if finished then f.frames + [s.packets] else f.frames)
  }

  function WireStep(m: nat, p: Params, z: Usb.Sizes, f: Wire, ev: WireEvent): (n: Wire)
    requires WellSized(p, f.j.w.st)
    ensures WellSized(p, n.j.w.st)
  {
    var j := JointStep(p, z, f.j, JointEventOf(p, z, f, ev));
    if ev.u.Some? then UsbStep(m, p, z, f, ev.u.value, j) else f.(j := j)
  }

  function WireRun(m: nat, p: Params, z: Usb.Sizes, evs: seq<WireEvent>): (f: Wire)
    requires m >= 1 && p.Ok()
    ensures WellSized(p, f.j.w.st)
  {
    if evs == [] then Wire(JointStart(p), Iso.ResetState(m), [], [], [])
    else WireStep(m, p, z, WireRun(m, p, z, evs[..|evs| - 1]), evs[|evs| - 1])
  }

  // ----- The adapter's view of the run -----

  function JointEvents(m: nat, p: Params, z: Usb.Sizes, evs: seq<WireEvent>): (j: seq<JointEvent>)
    requires m >= 1 && p.Ok()
    ensures |j| == |evs|
  {
    if evs == [] then [] else
      var init := evs[..|evs| - 1];
      JointEvents(m, p, z, init) + [JointEventOf(p, z, WireRun(m, p, z, init), evs[|evs| - 1])]
  }

  function WireStrobes(evs: seq<WireEvent>): seq<bool> {
    if evs == [] then [] else
      var e := evs[|evs| - 1];
      WireStrobes(evs[..|evs| - 1]) + if e.w.Some? then [e.w.value.advance] else []
  }

  ghost predicate WireReportsSized(z: Usb.Sizes, evs: seq<WireEvent>) {
    forall i :: 0 <= i < |evs| && evs[i].u.Some? ==> |evs[i].u.value.report| == z.report
  }

  lemma {:induction false} WireProjection(m: nat, p: Params, z: Usb.Sizes, evs: seq<WireEvent>)
    requires m >= 1 && p.Ok()
    ensures WireRun(m, p, z, evs).j == JointRun(p, z, JointEvents(m, p, z, evs))
    ensures JointStrobes(JointEvents(m, p, z, evs)) == WireStrobes(evs)
  {
    hide JointStep, UsbStep, UsbCycleOf;
    if evs != [] {
      var init, j := evs[..|evs| - 1], JointEvents(m, p, z, evs);
      WireProjection(m, p, z, init);
      assert j[..|j| - 1] == JointEvents(m, p, z, init);
    }
  }

  lemma {:induction false} ReportsPassed(m: nat, p: Params, z: Usb.Sizes, evs: seq<WireEvent>)
    requires m >= 1 && p.Ok() && WireReportsSized(z, evs)
    ensures ReportsSized(z, JointEvents(m, p, z, evs))
  {
    hide WireRun, Iso.ByteAdvance, EndpointCycle, ClockOf;
    if evs != [] {
      ReportsPassed(m, p, z, evs[..|evs| - 1]);
    }
  }

  // ----- Payloads -----

  /** Every start of frame of the run found the previous supply drained. */
  ghost predicate Drained(m: nat, p: Params, z: Usb.Sizes, evs: seq<WireEvent>)
    requires m >= 1 && p.Ok()
  {
    evs != [] ==>
      var init, e := evs[..|evs| - 1], evs[|evs| - 1];
      && (e.u.Some? && e.u.value.sof ==> WireRun(m, p, z, init).j.a.fsm == Usb.WAIT_SOF)
      && Drained(m, p, z, init)
  }

  /** The payloads of packets, joined. */
  function Bytes(packets: seq<Iso.WirePacket>): seq<int> { Flatten(Iso.Payloads(packets)) }

  ghost predicate Carried(frames: seq<seq<Iso.WirePacket>>, done: seq<Microframe>) {
    |frames| == |done| && forall i :: 0 <= i < |frames| ==> Bytes(frames[i]) == done[i].bytes
  }

  /** Whether a packet is under way is known to both the endpoint and the transmitter. */
  predicate Opened(f: Wire) {
    && (f.e.fsm != Iso.SEND_DATA ==> f.current == [])
    && (f.e.first <==> f.e.fsm == Iso.SEND_DATA && f.current == [])
  }

  ghost predicate WireInv(z: Usb.Sizes, f: Wire) {
    && InStep(z, Pair(f.j.a, f.e))
    && Carried(f.frames, f.j.s.done)
    && Opened(f) && (f.j.a.fsm == Usb.WAIT_SOF ==> f.current == [])
    && (f.j.a.fsm != Usb.WAIT_SOF ==> Bytes(f.sent) + f.current == f.j.s.cur.bytes)
  }

  lemma BytesOneMore(packets: seq<Iso.WirePacket>, x: Iso.WirePacket)
    ensures Bytes(packets + [x]) == Bytes(packets) + x.payload
  {
    assert Iso.Payloads(packets + [x]) == Iso.Payloads(packets) + [x.payload];
    FlattenAppend(Iso.Payloads(packets), [x.payload]);
    assert Flatten([x.payload]) == x.payload + Flatten([x.payload][1..]);
  }

  /** What one USB clock does to the supply, and that it ends with the endpoint's last byte. */
  lemma SupplyClock(m: nat, p: Params, z: Usb.Sizes, f: Wire, ev: WireEvent)
    requires z.Ok() && WellSized(p, f.j.w.st) && WireInv(z, f) && ev.u.Some?
    ensures var u := UsbCycleOf(p, z, f, ev.u.value);
            var n, value := WireStep(m, p, z, f, ev), Usb.EndpointValue(f.j.a, u, f.j.w.st.rData);
            var finished := f.j.a.fsm == Usb.REPORT && Usb.ReportLast(z, f.j.a, u);
            && (f.j.a.fsm == Usb.WAIT_SOF ==> !u.byteAdvance && n.j.s.done == f.j.s.done)
            && (f.j.a.fsm == Usb.WAIT_SOF && u.sof ==> n.j.s.cur.bytes == [])
            && (f.j.a.fsm == Usb.WAIT_SOF && !u.sof ==> n.j.a.fsm == Usb.WAIT_SOF)
            && (f.j.a.fsm != Usb.WAIT_SOF ==>
                  && n.j.s.cur.bytes == (if u.byteAdvance then f.j.s.cur.bytes + [value] else f.j.s.cur.bytes)
                  && n.j.s.done == (if finished then f.j.s.done + [n.j.s.cur] else f.j.s.done)
                  && (finished ==> Iso.LastByte(f.e)) && (n.j.a.fsm == Usb.WAIT_SOF <==> finished))
  {
    hide WorldStep, RLevel2, Carried;
  }

  lemma WireStepKeepsInv(m: nat, p: Params, z: Usb.Sizes, f: Wire, ev: WireEvent)
    requires z.Ok() && WellSized(p, f.j.w.st) && WireInv(z, f)
    requires ev.u.Some? && ev.u.value.sof ==> f.j.a.fsm == Usb.WAIT_SOF
    ensures WireInv(z, WireStep(m, p, z, f, ev))
  {
    if ev.u.Some? {
      var u, n := ev.u.value, WireStep(m, p, z, f, ev);
      var c := ClockOf(p, f, u);
      PairStepInStep(m, z, Pair(f.j.a, f.e), c);
      assert Pair(n.j.a, n.e) == PairStep(m, z, Pair(f.j.a, f.e), c) by {
        hide WorldStep, RLevel2, WireInv;
      }
      SupplyClock(m, p, z, f, ev);
      PacketsGrow(m, p, z, f, ev);
    } else {
      hide WorldStep, InStep, Carried;
    }
  }

  lemma PacketsGrow(m: nat, p: Params, z: Usb.Sizes, f: Wire, ev: WireEvent)
    requires z.Ok() && WellSized(p, f.j.w.st) && WireInv(z, f) && ev.u.Some?
    requires ev.u.value.sof ==> f.j.a.fsm == Usb.WAIT_SOF
    requires InStep(z, Pair(WireStep(m, p, z, f, ev).j.a, WireStep(m, p, z, f, ev).e))
    ensures WireInv(z, WireStep(m, p, z, f, ev))
  {
    SupplyClock(m, p, z, f, ev);
    if f.j.a.fsm == Usb.WAIT_SOF {
      hide JointStep, InStep, UsbCycleOf, Carried;
      assert Bytes([]) + [] == [];
    } else {
      BytesGrow(m, p, z, f, ev);
    }
  }

  /** The payload on the wire grows by the byte taken, if any. */
  lemma PayloadGrows(m: nat, p: Params, z: Usb.Sizes, f: Wire, u: UsbInput, j: Joint)
    requires !u.sof && Opened(f)
    ensures var cycle, n := UsbCycleOf(p, z, f, u), UsbStep(m, p, z, f, u, j);
            var value := Usb.EndpointValue(f.j.a, cycle, f.j.w.st.rData);
            && Bytes(n.sent) + n.current == Bytes(f.sent) + f.current + (if cycle.byteAdvance then [value] else [])
            && Opened(n) && (cycle.byteAdvance && Iso.LastByte(f.e) ==> n.current == [])
            && n.frames == if f.j.a.fsm == Usb.REPORT && Usb.ReportLast(z, f.j.a, cycle) then f.frames + [n.sent]
                           else f.frames
  {
    var cycle := UsbCycleOf(p, z, f, u);
    var value := Usb.EndpointValue(f.j.a, cycle, f.j.w.st.rData);
    BytesOneMore(f.sent, Iso.WirePacket(f.e.nextDataPid, f.current + [value]));
    BytesOneMore(f.sent, Iso.WirePacket(f.e.nextDataPid, []));
    hide Bytes, Usb.EndpointValue, RLevel2;
    assert Bytes(f.sent) + f.current + [value] == Bytes(f.sent) + (f.current + [value]);
    assert Bytes(f.sent) + f.current + [] == Bytes(f.sent) + f.current;
    assert Bytes(f.sent) + [] == Bytes(f.sent);
  }

  /** Packets and microframe grow by the same byte. */
  lemma BytesGrow(m: nat, p: Params, z: Usb.Sizes, f: Wire, ev: WireEvent)
    requires z.Ok() && WellSized(p, f.j.w.st) && WireInv(z, f) && ev.u.Some?
    requires f.j.a.fsm != Usb.WAIT_SOF && !ev.u.value.sof
    requires InStep(z, Pair(WireStep(m, p, z, f, ev).j.a, WireStep(m, p, z, f, ev).e))
    ensures WireInv(z, WireStep(m, p, z, f, ev))
  {
    var n := WireStep(m, p, z, f, ev);
    SupplyClock(m, p, z, f, ev);
    PayloadGrows(m, p, z, f, ev.u.value, JointStep(p, z, f.j, JointEventOf(p, z, f, ev)));
    CarriedOneMore(f.frames, f.j.s.done, n.sent, n.j.s.cur);
    hide JointStep, InStep, Bytes, Usb.EndpointValue, UsbCycleOf, UsbStep, Carried, Iso.LastByte, Opened;
  }

  lemma CarriedOneMore(frames: seq<seq<Iso.WirePacket>>, done: seq<Microframe>, sent: seq<Iso.WirePacket>,
                       m: Microframe)
    requires Carried(frames, done)
    ensures Bytes(sent) == m.bytes ==> Carried(frames + [sent], done + [m])
  {
    hide Bytes;
  }

  /** What is on the wire: however the host's requests and the transmitter's stalls fall, in
      every run that drains each supply before the next start of frame, the payloads of a
      microframe's packets joined together are the bytes the adapter supplied for it. */
  lemma {:induction false} PacketsCarryMicroframes(m: nat, p: Params, z: Usb.Sizes, evs: seq<WireEvent>)
    requires m >= 1 && p.Ok() && z.Ok() && Drained(m, p, z, evs)
    ensures WireInv(z, WireRun(m, p, z, evs))
    ensures Carried(WireRun(m, p, z, evs).frames, WireRun(m, p, z, evs).j.s.done)
  {
    hide WireStep, WireInv;
    if evs == [] {
      StartInv(m, p, z);
    } else {
      var init := evs[..|evs| - 1];
      PacketsCarryMicroframes(m, p, z, init);
      WireStepKeepsInv(m, p, z, WireRun(m, p, z, init), evs[|evs| - 1]);
    }
    InvCarries(z, WireRun(m, p, z, evs));
  }

  lemma StartInv(m: nat, p: Params, z: Usb.Sizes)
    requires m >= 1 && p.Ok()
    ensures WireInv(z, WireRun(m, p, z, []))
  {
  }

  lemma InvCarries(z: Usb.Sizes, f: Wire)
    requires WireInv(z, f)
    ensures Carried(f.frames, f.j.s.done)
  {
  }

  // ----- Packets -----

  /** The endpoint's inputs at each USB clock of the run. */
  function EndpointCycles(m: nat, p: Params, z: Usb.Sizes, evs: seq<WireEvent>): seq<Iso.Cycle>
    requires m >= 1 && p.Ok()
  {
    if evs == [] then [] else
      var init, e := evs[..|evs| - 1], evs[|evs| - 1];
      EndpointCycles(m, p, z, init)
      + if e.u.Some? then [EndpointCycle(z, ClockOf(p, WireRun(m, p, z, init), e.u.value))] else []
  }

  /** The packets have the PIDs and lengths that the endpoint's own account says. */
  ghost predicate Accounts(f: Wire, s: Iso.Sending) {
    && Opened(f) && f.e == s.e && |f.current| == s.current && |f.sent| == |s.sent|
    && forall i :: 0 <= i < |f.sent| ==> Iso.SamePacket(f.sent[i], s.sent[i])
  }

  lemma AccountsStep(m: nat, p: Params, z: Usb.Sizes, f: Wire, u: UsbInput, j: Joint, v: Iso.Service)
    requires Accounts(f, v.s)
    ensures Accounts(UsbStep(m, p, z, f, u, j), Iso.ServiceStep(m, v, EndpointCycle(z, ClockOf(p, f, u))).s)
  {
    OpenedStep(m, p, z, f, u, j);
    hide Iso.Step, RLevel2, Usb.EndpointValue, Iso.LastByte, Opened;
  }

  lemma OpenedStep(m: nat, p: Params, z: Usb.Sizes, f: Wire, u: UsbInput, j: Joint)
    requires Opened(f)
    ensures Opened(UsbStep(m, p, z, f, u, j))
  {
    hide Usb.EndpointValue, RLevel2;
  }

  /** The packets on the wire, in every run: with the PIDs and lengths of the endpoint's account,
      and so, since a start of frame that put it on plan, exactly as planned for the frame. */
  lemma {:induction false} PacketsAsPlanned(m: nat, p: Params, z: Usb.Sizes, evs: seq<WireEvent>)
    requires m >= 1 && p.Ok()
    ensures var v := Iso.ServiceRun(m, EndpointCycles(m, p, z, evs));
            && Accounts(WireRun(m, p, z, evs), v.s)
            && (Iso.OnPlan(m, EndpointCycles(m, p, z, evs)) ==> Iso.Follows(m, v.bytes, v.s.sent))
  {
    hide Accounts, JointStep, UsbStep, Iso.ServiceStep, Iso.OnPlan, Iso.Follows, EndpointCycle;
    var cycles := EndpointCycles(m, p, z, evs);
    if evs == [] {
      AccountsStart(m, p, z);
    } else {
      var init, e := evs[..|evs| - 1], evs[|evs| - 1];
      var f := WireRun(m, p, z, init);
      PacketsAsPlanned(m, p, z, init);
      var v := Iso.ServiceRun(m, EndpointCycles(m, p, z, init));
      if e.u.Some? {
        assert cycles[..|cycles| - 1] == EndpointCycles(m, p, z, init);
        AccountsStep(m, p, z, f, e.u.value, JointStep(p, z, f.j, JointEventOf(p, z, f, e)), v);
      } else {
        AccountsIdle(f, JointStep(p, z, f.j, JointEventOf(p, z, f, e)), v.s);
        assert cycles == EndpointCycles(m, p, z, init);
      }
    }
    if Iso.OnPlan(m, cycles) { Iso.ServedAsPlanned(m, cycles); }
  }

  lemma AccountsStart(m: nat, p: Params, z: Usb.Sizes)
    requires m >= 1 && p.Ok()
    ensures Accounts(WireRun(m, p, z, []), Iso.ServiceRun(m, []).s)
  {
  }

  lemma AccountsIdle(f: Wire, j: Joint, s: Iso.Sending)
    requires Accounts(f, s)
    ensures Accounts(f.(j := j), s)
  {
  }

  // ----- Early bytes -----

  /** The transmitter's ready line at each USB clock. */
  function Readies(evs: seq<WireEvent>): seq<bool> {
    if evs == [] then [] else
      var e := evs[|evs| - 1];
      Readies(evs[..|evs| - 1]) + if e.u.Some? then [e.u.value.ready] else []
  }

  lemma SpacedInit(gap: nat, strobes: seq<bool>, last: seq<bool>)
    requires SpacedBy(gap, strobes + last)
    ensures SpacedBy(gap, strobes)
  {
    var all := strobes + last;
    forall i, j | 0 <= i < j < |strobes| && strobes[i] && strobes[j] ensures j - i >= gap {
      assert all[i] && all[j];
    }
  }

  ghost predicate NoneEarly(f: Wire, readies: seq<bool>) {
    && (f.j.s.switched ==> f.j.a.fsm == Usb.FRAME_1 && readies != [] && readies[|readies| - 1])
    && !f.j.s.cur.early && forall i :: 0 <= i < |f.j.s.done| ==> !f.j.s.done[i].early
  }

  lemma NoneEarlyStep(m: nat, p: Params, z: Usb.Sizes, f: Wire, ev: WireEvent, readies: seq<bool>)
    requires WellSized(p, f.j.w.st) && NoneEarly(f, readies)
    requires SpacedBy(2, readies + if ev.u.Some? then [ev.u.value.ready] else [])
    ensures NoneEarly(WireStep(m, p, z, f, ev), readies + if ev.u.Some? then [ev.u.value.ready] else [])
  {
    hide WorldStep, RLevel2, Usb.EndpointValue, Usb.AddressNext;
    if ev.u.Some? && f.j.s.switched {
      var all := readies + [ev.u.value.ready];
      assert all[|readies| - 1] && all[|readies|] == ev.u.value.ready;
    }
  }

  /** A transmitter that never takes bytes in two successive clocks takes none early. */
  lemma {:induction false} GapsPreventEarlyBytes(m: nat, p: Params, z: Usb.Sizes, evs: seq<WireEvent>)
    requires m >= 1 && p.Ok() && SpacedBy(2, Readies(evs))
    ensures NoneEarly(WireRun(m, p, z, evs), Readies(evs))
  {
    hide WireStep, NoneEarly, SpacedBy;
    if evs == [] {
      StartNotEarly(m, p, z);
    } else {
      var init, e := evs[..|evs| - 1], evs[|evs| - 1];
      SpacedInit(2, Readies(init), if e.u.Some? then [e.u.value.ready] else []);
      GapsPreventEarlyBytes(m, p, z, init);
      NoneEarlyStep(m, p, z, WireRun(m, p, z, init), e, Readies(init));
      assert Readies(evs) == Readies(init) + if e.u.Some? then [e.u.value.ready] else [];
    }
  }

  lemma StartNotEarly(m: nat, p: Params, z: Usb.Sizes)
    requires m >= 1 && p.Ok()
    ensures NoneEarly(WireRun(m, p, z, []), [])
  {
  }

  // ----- What the host makes of it -----

  ghost predicate HostRecovers(packets: seq<Iso.WirePacket>, records: seq<seq<int>>, report: seq<int>) {
    && RxPacket(Bytes(packets)).Frames() == Some(records)
    && RxPacket(Bytes(packets)).UsbReport() == Some(report)
  }

  /** Runs in which the writer spaces its strobes, reports have their size and each supply is
      drained before the next start of frame. */
  ghost predicate Orderly(m: nat, p: Params, evs: seq<WireEvent>)
    requires m >= 1 && p.Ok()
  {
    SpacedBy(2, WireStrobes(evs)) && WireReportsSized(SIZES, evs) && Drained(m, p, SIZES, evs)
  }

  /** What the host makes of a microframe. In every orderly run, splitting the joined payloads
      of its packets gives back the committed records next in line, as many as were waiting at
      the start of frame but at most two, and the report, if and only if no byte was taken in
      the clock after the end of the first of two records, or both start with the same byte. */
  lemma HostReceivesRecords(m: nat, p: Params, evs: seq<WireEvent>, i: nat)
    requires m >= 1 && p.Ok() && p.pageSize >= RX_FRAME_SIZE && Orderly(m, p, evs)
    requires i < |WireRun(m, p, SIZES, evs).j.s.done| && WireRun(m, p, SIZES, evs).j.s.done[i].stable
    ensures var f := WireRun(m, p, SIZES, evs);
            var log, k := f.j.w.hist.log, f.j.s.done[i];
            && i < |f.frames| && Covers(SIZES, log, k)
            && k.start == Next(f.j.s.done[..i]) && Began(p, SIZES, JointEvents(m, p, SIZES, evs), k)
            && (HostRecovers(f.frames[i], Records(SIZES, log, k), k.report)
                <==> (k.pages == 2 && k.early ==> log[k.start][0] == log[k.start + 1][0]))
  {
    hide WireRun, JointRun, JointStrobes, Delivered, Records, Next, ReportsSized, SpacedBy, Bytes, Chunk, Began,
         Covers, WireInv, WireReportsSized, JointEvents;
    var events := JointEvents(m, p, SIZES, evs);
    WireProjection(m, p, SIZES, evs);
    ReportsPassed(m, p, SIZES, evs);
    PacketsCarryMicroframes(m, p, SIZES, evs);
    MicroframeCarriesRecords(p, SIZES, events, i);
    JointSupply(p, SIZES, events);
    var j := JointRun(p, SIZES, events);
    SplitExactly(j.w.hist.log, j.s.done[i]);
  }

  lemma SplitExactly(log: seq<seq<int>>, k: Microframe)
    requires Delivered(SIZES, log, k)
    ensures k.bytes == Flatten(Records(SIZES, log, k)) + k.report
       <==> RxPacket(k.bytes).Frames() == Some(Records(SIZES, log, k))
            && RxPacket(k.bytes).UsbReport() == Some(k.report)
  {
    var records := Records(SIZES, log, k);
    TwoRecords(SIZES, log, k);
    SplitRecoversRecords(records, k.report);
    var body := k.bytes[..|k.bytes| - RX_USB_REPORT_SIZE];
    ChunkInverse(body, RX_FRAME_SIZE);
    hide Chunk, Flatten, Records;
    if Chunk(body, RX_FRAME_SIZE) == records {
      assert |body| == |Flatten(records)|;
      assert body == Flatten(records);
    }
  }
}
