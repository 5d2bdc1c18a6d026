/** The framer's asynchronous microprocessor bus interface: one access at a time, with a chip
    select window, a read or write strobe and a two-phase ready handshake. */
module Microprocessor {
  import opened Wrappers

  datatype Fsm = IDLE | CS_ASSERT | RD_WR_ASSERT | RDY_WAIT | DONE_WAIT

  /** Outputs and registers of the interface. */
  datatype Bus = Bus(fsm: Fsm, cycles: nat, busy: bool, done: bool, addr: nat, dataOut: nat, outputEnable: bool,
                     cs: bool, rd: bool, wr: bool, dataRead: nat)

  /** Inputs at one clock edge. */
  datatype Cycle = Cycle(start: bool, address: nat, dataWr: nat, write: bool, rdy: bool, dataIn: nat)

  const WAIT_CYCLES := 20

  function Reset(): Bus { Bus(IDLE, 0, false, false, 0, 0, false, false, false, false, 0) }

  function Step(b: Bus, c: Cycle): Bus {
    var n := b.(done := false);
    match b.fsm
    case IDLE => if c.start then n.(busy := true, addr := c.address, fsm := CS_ASSERT) else n
    case CS_ASSERT =>
      n.(cs := true, dataOut := c.dataWr, outputEnable := c.write, cycles := WAIT_CYCLES, fsm := RD_WR_ASSERT)
    case RD_WR_ASSERT =>
      if b.cycles > 0 then n.(cycles := b.cycles - 1)
      else n.(rd := !c.write, wr := c.write, cycles := WAIT_CYCLES, fsm := RDY_WAIT)
    case RDY_WAIT =>
      if b.cycles > 0 then n.(cycles := b.cycles - 1)
      else if c.rdy then
        n.(dataRead := c.dataIn, cs := false, rd := false, wr := false, outputEnable := false, fsm := DONE_WAIT)
      else n
    case DONE_WAIT => if !c.rdy then n.(busy := false, done := true, fsm := IDLE) else n
  }

  class MicroprocessorInterface {
    var fsm: Fsm
    var cycles: nat
    var busy: bool
    var done: bool
    var addr: nat
    var dataOut: nat
    var outputEnable: bool
    var cs: bool
    var rd: bool
    var wr: bool
    var dataRead: nat

    constructor ()
      ensures State() == Reset()
    {
      fsm, cycles, busy, done, addr, dataOut := IDLE, 0, false, false, 0, 0;
      outputEnable, cs, rd, wr, dataRead := false, false, false, false, 0;
    }

    function State(): Bus
      reads this
    {
      Bus(fsm, cycles, busy, done, addr, dataOut, outputEnable, cs, rd, wr, dataRead)
    }

    method Clock(c: Cycle)
      modifies this
      ensures State() == Step(old(State()), c)
    {
      done := false;
      match fsm {
        case IDLE =>
          if c.start {
            busy, addr := true, c.address;
            fsm := CS_ASSERT;
          }
        case CS_ASSERT =>
          cs, dataOut, outputEnable, cycles := true, c.dataWr, c.write, WAIT_CYCLES;
          fsm := RD_WR_ASSERT;
        case RD_WR_ASSERT =>
          if cycles > 0 {
            cycles := cycles - 1;
          } else {
            rd, wr, cycles := !c.write, c.write, WAIT_CYCLES;
            fsm := RDY_WAIT;
          }
        case RDY_WAIT =>
          if cycles > 0 {
            cycles := cycles - 1;
          } else if c.rdy {
            dataRead, cs, rd, wr, outputEnable := c.dataIn, false, false, false, false;
            fsm := DONE_WAIT;
          }
        case DONE_WAIT =>
          if !c.rdy {
            busy, done := false, true;
            fsm := IDLE;
          }
      }
    }
  }

  // ----- Every run -----

  function Run(cycles: seq<Cycle>): Bus {
    if cycles == [] then Reset() else Step(Run(cycles[..|cycles| - 1]), cycles[|cycles| - 1])
  }

  predicate Strobe(b: Bus) { b.rd || b.wr }

  /** What holds of the bus in every state. */
  predicate Safe(b: Bus) {
    && !(b.rd && b.wr)
    && (Strobe(b) ==> b.cs)
    && (Strobe(b) <==> b.fsm == RDY_WAIT)
    && (b.cs <==> b.fsm == RD_WR_ASSERT || b.fsm == RDY_WAIT)
    && (b.outputEnable ==> b.cs)
    && (b.busy <==> b.fsm != IDLE)
    && (b.done ==> b.fsm == IDLE)
    && b.cycles <= WAIT_CYCLES
  }

  function Count(cycles: seq<Cycle>, p: (Bus, Cycle) -> bool): nat {
    if cycles == [] then 0
    else
      var init := cycles[..|cycles| - 1];
      Count(init, p) + if p(Run(init), cycles[|cycles| - 1]) then 1 else 0
  }

  function Accepted(cycles: seq<Cycle>): nat { Count(cycles, (b: Bus, c: Cycle) => b.fsm == IDLE && c.start) }

  /** Clocks after which `done` is high. */
  function Done(cycles: seq<Cycle>): nat { Count(cycles, (b: Bus, c: Cycle) => Step(b, c).done) }

  /** In every run, whatever the ready line does: the strobes are exclusive and only under chip
      select, and accepted starts and completion pulses alternate. */
  lemma {:induction false} RunSafe(cycles: seq<Cycle>)
    ensures Safe(Run(cycles))
    ensures Accepted(cycles) == Done(cycles) + if Run(cycles).busy then 1 else 0
  {
    if cycles != [] {
      RunSafe(cycles[..|cycles| - 1]);
    }
  }

  /** A completion pulse lasts one clock, and chip select is low during it and just after. */
  lemma DonePulse(cycles: seq<Cycle>, c: Cycle)
    ensures Run(cycles).done ==> !Run(cycles + [c]).done
    ensures Run(cycles).done ==> !Run(cycles).cs && !Run(cycles + [c]).cs
  {
    RunSafe(cycles);
    assert (cycles + [c])[..|cycles|] == cycles;
  }

  /** The address does not change at any clock before or after which chip select is asserted. */
  lemma AddressStable(cycles: seq<Cycle>, c: Cycle)
    ensures Run(cycles).cs || Run(cycles + [c]).cs ==> Run(cycles + [c]).addr == Run(cycles).addr
  {
    RunSafe(cycles);
    assert (cycles + [c])[..|cycles|] == cycles;
  }

  // ----- What is on the bus -----

  /** The address asked for at the last accepted start; a start is accepted when not busy. */
  function Asked(cycles: seq<Cycle>): nat {
    if cycles == [] then 0 else
      var init, c := cycles[..|cycles| - 1], cycles[|cycles| - 1];
      if !Run(init).busy && c.start then c.address else Asked(init)
  }

  /** The inputs in the clock in which chip select last rose, and the strobe last rose. */
  function AtSelect(cycles: seq<Cycle>): Option<Cycle> {
    if cycles == [] then None else
      var init, c := cycles[..|cycles| - 1], cycles[|cycles| - 1];
      if !Run(init).cs && Run(cycles).cs then Some(c) else AtSelect(init)
  }

  function AtStrobe(cycles: seq<Cycle>): Option<Cycle> {
    if cycles == [] then None else
      var init, c := cycles[..|cycles| - 1], cycles[|cycles| - 1];
      if !Strobe(Run(init)) && Strobe(Run(cycles)) then Some(c) else AtStrobe(init)
  }

  /** The data input in the clock in which chip select last fell. */
  function Returned(cycles: seq<Cycle>): nat {
    if cycles == [] then 0 else
      var init, c := cycles[..|cycles| - 1], cycles[|cycles| - 1];
      if Run(init).cs && !Run(cycles).cs then c.dataIn else Returned(init)
  }

  /** In every run from reset: the address on the bus is the one asked for; while chip select is
      high the data driven, and whether it is, are those given when it rose; the kind of strobe
      is that given when the strobe rose; and the data read are those seen when chip select
      fell. */
  lemma {:induction false} BusExact(cycles: seq<Cycle>)
    ensures var b := Run(cycles);
            && b.addr == Asked(cycles) && b.dataRead == Returned(cycles)
            && (b.cs ==> AtSelect(cycles).Some? && b.dataOut == AtSelect(cycles).value.dataWr
                         && b.outputEnable == AtSelect(cycles).value.write)
            && (!b.cs ==> !b.outputEnable)
            && (Strobe(b) ==> AtStrobe(cycles).Some? && b.wr == AtStrobe(cycles).value.write
                              && b.rd == !AtStrobe(cycles).value.write)
  {
    if cycles != [] {
      RunSafe(cycles);
      RunSafe(cycles[..|cycles| - 1]);
      BusExact(cycles[..|cycles| - 1]);
    }
  }

  // ----- Timing -----

  /** For how many clocks chip select has been high without a break, up to now. */
  function SelectAge(cycles: seq<Cycle>): nat {
    if !Run(cycles).cs || cycles == [] then 0 else 1 + SelectAge(cycles[..|cycles| - 1])
  }

  function StrobeAge(cycles: seq<Cycle>): nat {
    if !Strobe(Run(cycles)) || cycles == [] then 0 else 1 + StrobeAge(cycles[..|cycles| - 1])
  }

  lemma {:induction false} AgesExact(cycles: seq<Cycle>)
    ensures var b := Run(cycles);
            && (b.fsm == RD_WR_ASSERT ==> SelectAge(cycles) == WAIT_CYCLES + 1 - b.cycles)
            && (b.fsm == RDY_WAIT ==> SelectAge(cycles) == StrobeAge(cycles) + WAIT_CYCLES + 1)
            && (b.fsm == RDY_WAIT && b.cycles > 0 ==> StrobeAge(cycles) == WAIT_CYCLES + 1 - b.cycles)
            && (b.fsm == RDY_WAIT ==> StrobeAge(cycles) >= WAIT_CYCLES + 1 - b.cycles)
  {
    RunSafe(cycles);
    if cycles != [] {
      AgesExact(cycles[..|cycles| - 1]);
      RunSafe(cycles[..|cycles| - 1]);
    }
  }

  /** In every run, chip select leads the strobe by exactly 21 clocks, and a strobe that ends has
      lasted at least 21. */
  lemma StrobeTiming(cycles: seq<Cycle>, c: Cycle)
    ensures Strobe(Run(cycles)) ==> SelectAge(cycles) == StrobeAge(cycles) + 21
    ensures Strobe(Run(cycles)) && !Strobe(Run(cycles + [c])) ==> StrobeAge(cycles) >= 21
  {
    AgesExact(cycles);
    RunSafe(cycles);
    assert (cycles + [c])[..|cycles|] == cycles;
  }

  // ----- One access -----

  function RunFrom(b: Bus, cycles: seq<Cycle>): Bus {
    if cycles == [] then b else Step(RunFrom(b, cycles[..|cycles| - 1]), cycles[|cycles| - 1])
  }

  /** The clock of an access at which the strobe direction is sampled, and the first at which
      the ready line is. */
  const DIRECTION := WAIT_CYCLES + 1
  const READY := 2 * WAIT_CYCLES + 2

  /** No ready signal has been accepted yet. */
  predicate NotReady(cycles: seq<Cycle>, n: nat)
    requires n <= |cycles|
  {
    forall i :: READY <= i < n ==> !cycles[i].rdy
  }

  /** The bus after an accepted start and `cycles`, until the ready line is seen. */
  function Waiting(b: Bus, cycles: seq<Cycle>): Bus
    requires cycles != []
  {
    var n := |cycles|;
    b.(done := false, cs := true, dataOut := cycles[0].dataWr, outputEnable := cycles[0].write,
       fsm := if n <= DIRECTION then RD_WR_ASSERT else RDY_WAIT,
       cycles := if n <= DIRECTION then DIRECTION - n else if n <= READY then READY - n else 0,
       rd := n > DIRECTION && !cycles[DIRECTION].write, wr := n > DIRECTION && cycles[DIRECTION].write)
  }

  lemma {:induction false} WaitingExact(b: Bus, cycles: seq<Cycle>)
    requires b.fsm == CS_ASSERT && Safe(b) && cycles != [] && NotReady(cycles, |cycles|)
    ensures RunFrom(b, cycles) == Waiting(b, cycles)
  {
    var init := cycles[..|cycles| - 1];
    if init == [] {
      assert RunFrom(b, init) == b;
    } else {
      assert forall i :: 0 <= i < |init| ==> init[i] == cycles[i];
      WaitingExact(b, init);
      assert init[0] == cycles[0] && (|init| > DIRECTION ==> init[DIRECTION] == cycles[DIRECTION]);
      hide RunFrom, NotReady;
    }
  }

  /** The transfer direction is sampled twice. The data bus is driven during a read strobe, or
      left undriven during a write strobe, exactly when the write input changed in between. */
  lemma DirectionExact(b: Bus, cycles: seq<Cycle>)
    requires b.fsm == CS_ASSERT && Safe(b) && |cycles| > DIRECTION && NotReady(cycles, |cycles|)
    ensures Strobe(RunFrom(b, cycles))
    ensures RunFrom(b, cycles).outputEnable == RunFrom(b, cycles).wr
       <==> cycles[0].write == cycles[DIRECTION].write
  {
    WaitingExact(b, cycles);
  }

  lemma {:induction false} RunSplit(before: seq<Cycle>, cycles: seq<Cycle>)
    ensures Run(before + cycles) == RunFrom(Run(before), cycles)
  {
    if cycles == [] {
      assert before + cycles == before;
    } else {
      RunSplit(before, cycles[..|cycles| - 1]);
      assert (before + cycles)[..|before + cycles| - 1] == before + cycles[..|cycles| - 1];
    }
  }

  /** Such a run: a start, and a write input that is high for one clock only. The interface
      strobes a read while it drives the data bus. */
  lemma ContendedRead(address: nat, data: nat) returns (cycles: seq<Cycle>)
    ensures Run(cycles).rd && Run(cycles).outputEnable && Run(cycles).cs
  {
    var start := [Cycle(true, address, data, false, false, 0)];
    var rest := seq(DIRECTION + 1, i => Cycle(false, address, data, i == 0, false, 0));
    assert start[..0] == [];
    assert Run(start) == Step(Run(start[..0]), start[0]);
    RunSafe(start);
    RunSplit(start, rest);
    WaitingExact(Run(start), rest);
    cycles := start + rest;
  }

  lemma {:induction false} ReleasedExact(b: Bus, cycles: seq<Cycle>, j: nat)
    requires b.fsm == CS_ASSERT && Safe(b) && READY <= j < |cycles| && NotReady(cycles, j)
    requires forall i :: j <= i < |cycles| ==> cycles[i].rdy
    ensures RunFrom(b, cycles)
         == Waiting(b, cycles[..j]).(dataRead := cycles[j].dataIn, cs := false, rd := false, wr := false,
                                     outputEnable := false, cycles := 0, fsm := DONE_WAIT)
    decreases |cycles|
  {
    var init := cycles[..|cycles| - 1];
    assert forall i :: 0 <= i < |init| ==> init[i] == cycles[i];
    if j == |init| {
      assert init == cycles[..j];
      WaitingExact(b, init);
    } else {
      assert init[..j] == cycles[..j];
      ReleasedExact(b, init, j);
    }
    hide Waiting, NotReady;
  }

  /** The bus from the clock after an accepted start to the end of the access. */
  lemma AccessEnds(b: Bus, cycles: seq<Cycle>, j: nat)
    requires b.fsm == CS_ASSERT && Safe(b) && READY <= j < |cycles| - 1 && NotReady(cycles, j)
    requires forall i :: j <= i < |cycles| - 1 ==> cycles[i].rdy
    requires !cycles[|cycles| - 1].rdy
    ensures var n := RunFrom(b, cycles);
            n.done && !n.busy && n.fsm == IDLE && n.dataRead == cycles[j].dataIn && n.addr == b.addr
    ensures forall k :: 0 < k < |cycles| ==>
              var m := RunFrom(b, cycles[..k]);
              !m.done && m.busy && m.addr == b.addr && (k <= j ==> m.cs)
  {
    forall k | 0 < k < |cycles|
      ensures var m := RunFrom(b, cycles[..k]);
              !m.done && m.busy && m.addr == b.addr && (k <= j ==> m.cs)
      ensures k > j ==> RunFrom(b, cycles[..k]).fsm == DONE_WAIT && RunFrom(b, cycles[..k]).dataRead == cycles[j].dataIn
    {
      var part := cycles[..k];
      assert forall i :: 0 <= i < k ==> part[i] == cycles[i];
      if k <= j {
        WaitingExact(b, part);
      } else {
        assert part[..j] == cycles[..j];
        ReleasedExact(b, part, j);
      }
    }
  }

  /** Any access, from the start accepted after any run to its end. It completes once the ready
      line is seen high after the strobe's minimum, at clock `j`, and then low, at the last clock
      of `cycles`: that clock and no earlier one raises `done`; a read returns the data seen
      when ready rose; and whenever chip select is high the address on the bus is the one the
      start asked for. */
  lemma AccessCompletes(before: seq<Cycle>, start: Cycle, cycles: seq<Cycle>, j: nat)
    requires !Run(before).busy && start.start
    requires READY <= j < |cycles| - 1 && NotReady(cycles, j)
    requires forall i :: j <= i < |cycles| - 1 ==> cycles[i].rdy
    requires !cycles[|cycles| - 1].rdy
    ensures var n := Run(before + [start] + cycles);
            n.done && !n.busy && n.dataRead == cycles[j].dataIn
    ensures forall k :: 0 <= k < |cycles| ==>
              var b := Run(before + [start] + cycles[..k]);
              !b.done && b.busy && b.addr == start.address
    ensures Run(before + [start] + cycles).addr == start.address
    ensures forall k :: 0 < k <= j ==> Run(before + [start] + cycles[..k]).cs
  {
    var asked := before + [start];
    RunSafe(before);
    assert asked[..|before|] == before;
    RunSafe(asked);
    RunSplit(asked, cycles);
    AccessEnds(Run(asked), cycles, j);
    forall k | 0 <= k < |cycles|
      ensures var b := Run(asked + cycles[..k]);
              !b.done && b.busy && b.addr == start.address && (0 < k <= j ==> b.cs)
    {
      RunSplit(asked, cycles[..k]);
      if k == 0 { assert asked + cycles[..0] == asked; }
    }
  }
}
