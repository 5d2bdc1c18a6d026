/** The receive path's USB end: adapter and endpoint each count the bytes of a microframe. */
module RxPath {

  import opened HostPackets

  import Iso = IsochronousIn
  import Usb = RxUsb

  /** The shipped record and report sizes, and their largest microframe. */
  const SIZES := Usb.Sizes(RX_FRAME_SIZE, RX_USB_REPORT_SIZE)

  datatype Pair = Pair(a: Usb.Adapter, e: Iso.Endpoint)

  /** One USB clock: start of frame, an IN token to answer, the transmitter's ready line and the
      reader's level. */
  datatype UsbClock = UsbClock(sof: bool, requested: bool, ready: bool, level2: nat)

  function EndpointCycle(z: Usb.Sizes, c: UsbClock): Iso.Cycle {
    Iso.Cycle(c.sof, Usb.BytesInFrame(z, c.level2), c.requested, c.ready)
  }

  /** The endpoint's byte strobe drives the adapter; the adapter's byte count is what the
      endpoint latches at the same start of frame. */
  function PairStep(m: nat, z: Usb.Sizes, p: Pair, c: UsbClock): Pair {
    var u := Usb.UsbCycle(c.sof, Iso.ByteAdvance(p.e, EndpointCycle(z, c)), []);
    Pair(Usb.AdapterStep(z, p.a, u, c.level2), Iso.Step(m, p.e, EndpointCycle(z, c)))
  }

  function PairRun(m: nat, z: Usb.Sizes, clocks: seq<UsbClock>): Pair
    requires m >= 1
  {
    if clocks == [] then Pair(Usb.Adapter(Usb.WAIT_SOF, 0), Iso.Endpoint(Iso.IDLE, 0, m - 1, 0, 0, false, false))
    else PairStep(m, z, PairRun(m, z, clocks[..|clocks| - 1]), clocks[|clocks| - 1])
  }

  /** Bytes the adapter has yet to supply before it waits for a start of frame again. */
  function Remaining(z: Usb.Sizes, a: Usb.Adapter): int {
    match a.fsm
    case WAIT_SOF => 0
    case FRAME_2 => 2 * z.frame + z.report - a.address
    case FRAME_1 => z.frame + z.report - a.address
    case REPORT => z.report - a.address
  }

  ghost predicate InStep(z: Usb.Sizes, p: Pair) {
    && Remaining(z, p.a) == p.e.bytesLeftInFrame
    && (p.a.fsm == Usb.FRAME_2 || p.a.fsm == Usb.FRAME_1 ==> p.a.address < z.frame)
    && (p.a.fsm == Usb.REPORT ==> p.a.address < z.report)
    && (p.e.fsm == Iso.SEND_DATA ==> p.e.bytesLeftInFrame > 0)
  }

  /** A start of frame that does not part the two counters: the supply was drained, or a byte
      is taken in the same clock, which keeps the endpoint from starting over, or what is left
      happens to be a whole microframe at the current level. */
  predicate Harmless(z: Usb.Sizes, p: Pair, c: UsbClock) {
    || !c.sof
    || p.a.fsm == Usb.WAIT_SOF
    || Iso.ByteAdvance(p.e, EndpointCycle(z, c))
    || Remaining(z, p.a) == Usb.BytesInFrame(z, c.level2)
  }

  lemma PairStepInStep(m: nat, z: Usb.Sizes, p: Pair, c: UsbClock)
    requires z.Ok() && InStep(z, p) && (c.sof ==> p.a.fsm == Usb.WAIT_SOF)
    ensures InStep(z, PairStep(m, z, p, c))
  {
    InStepExactly(m, z, p, c);
  }

  lemma InStepExactly(m: nat, z: Usb.Sizes, p: Pair, c: UsbClock)
    requires z.Ok() && InStep(z, p)
    ensures InStep(z, PairStep(m, z, p, c)) <==> Harmless(z, p, c)
  {
  }

  /** After every clock of the run, and before the first. */
  ghost predicate AlwaysInStep(m: nat, z: Usb.Sizes, clocks: seq<UsbClock>)
    requires m >= 1
  {
    && InStep(z, PairRun(m, z, clocks))
    && (clocks != [] ==> AlwaysInStep(m, z, clocks[..|clocks| - 1]))
  }

  ghost predicate AllHarmless(m: nat, z: Usb.Sizes, clocks: seq<UsbClock>)
    requires m >= 1
  {
    clocks != [] ==>
      var init := clocks[..|clocks| - 1];
      Harmless(z, PairRun(m, z, init), clocks[|clocks| - 1]) && AllHarmless(m, z, init)
  }

  /** Two counters kept in two modules. Over a whole run the adapter has, in every clock, exactly
      as many bytes left to supply as the endpoint has left to send, if and only if every start
      of frame of the run is harmless. */
  lemma {:induction false} CountersAgreeExactly(m: nat, z: Usb.Sizes, clocks: seq<UsbClock>)
    requires m >= 1 && z.Ok()
    ensures AlwaysInStep(m, z, clocks) <==> AllHarmless(m, z, clocks)
  {
    if clocks != [] {
      var init := clocks[..|clocks| - 1];
      CountersAgreeExactly(m, z, init);
      if InStep(z, PairRun(m, z, init)) {
        InStepExactly(m, z, PairRun(m, z, init), clocks[|clocks| - 1]);
      }
      hide InStep, Harmless, PairStep;
    }
  }

  /** So while it stays in step, the endpoint stops just when the adapter returns to waiting. */
  lemma DrainsTogether(m: nat, z: Usb.Sizes, clocks: seq<UsbClock>)
    requires m >= 1 && z.Ok() && AllHarmless(m, z, clocks)
    ensures PairRun(m, z, clocks).a.fsm == Usb.WAIT_SOF <==> PairRun(m, z, clocks).e.bytesLeftInFrame == 0
  {
    CountersAgreeExactly(m, z, clocks);
    hide PairRun, AllHarmless;
  }

  /** A run that parts them: one record is promised, and the host asks for nothing before the
      next start of frame, at which the FIFO's level has changed. */
  lemma InterruptedRun(m: nat)
    requires m >= 1
    ensures var clocks := [UsbClock(true, false, false, 1), UsbClock(true, false, false, 0)];
            && !AlwaysInStep(m, SIZES, clocks)
            && Remaining(SIZES, PairRun(m, SIZES, clocks).a) == RX_FRAME_SIZE + RX_USB_REPORT_SIZE
            && PairRun(m, SIZES, clocks).e.bytesLeftInFrame == RX_USB_REPORT_SIZE
  {
    var clocks := [UsbClock(true, false, false, 1), UsbClock(true, false, false, 0)];
    assert clocks[..2] == clocks && clocks[..1][..0] == [];
    assert PairRun(m, SIZES, clocks[..1]) == PairStep(m, SIZES, PairRun(m, SIZES, []), clocks[0]);
    assert PairRun(m, SIZES, clocks) == PairStep(m, SIZES, PairRun(m, SIZES, clocks[..1]), clocks[1]);
  }
}
