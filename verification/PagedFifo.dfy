/** The paged FIFO: whole memory pages handed from a writer to a reader, using only the
    counters of an asynchronous FIFO. `Step` is one instant of the hardware; the class
    is the hardware with its registers and its page memory updated in place. */
module PagedFifo {
  import opened Wrappers
  import opened GrayCode
  import opened AsyncFifo

  /** `depthBits` is the logarithm of the number of pages. */
  datatype Params = Params(depthBits: nat, pageSize: nat) {
    predicate Ok() { depthBits >= 1 && pageSize >= 1 }
    function Width(): nat { depthBits + 1 }
    function Depth(): nat { Pow2(depthBits) }
  }

  const LEVEL_EMPTY := 1

  /** The inputs a side presents at one edge of its clock. */
  datatype WriteCycle = WriteCycle(addr: nat, data: int, en: bool, advance: bool)
  datatype ReadCycle = ReadCycle(addr: nat, advance: bool)

  datatype Event = Event(w: Option<WriteCycle>, r: Option<ReadCycle>, wMix: Bits, rMix: Bits)

  const NO_EDGE := Event(None, None, [], [])

  datatype State = State(ctr: Counters, rPtr: nat, rData: int, mem: seq<int>)

  ghost predicate WellSized(p: Params, s: State) {
    && p.Ok() && s.ctr.Sized(p.Width())
    && |s.mem| == p.Depth() * p.pageSize
    && s.rPtr < p.Depth()
  }

  function Reset(p: Params): State {
    State(CounterReset(p.Width()), 0, 0, seq(p.Depth() * p.pageSize, i => 0))
  }

  // ----- Interface outputs -----

  predicate WFull(p: Params, c: Counters) { c.wLevel >= p.Depth() - 1 }

  predicate REmpty(p: Params, c: Counters) { RLevel(p.Width(), c) <= LEVEL_EMPTY }

  function RLevel2(p: Params, c: Counters): nat {
    if REmpty(p, c) then 0 else RLevel(p.Width(), c) - LEVEL_EMPTY
  }

  function WLevel2(c: Counters): nat {
    if c.wLevel <= LEVEL_EMPTY then 0 else c.wLevel - LEVEL_EMPTY
  }

  predicate Overflow(p: Params, c: Counters, e: Event) {
    e.w.Some? && e.w.value.advance && WFull(p, c)
  }

  predicate Underflow(p: Params, c: Counters, e: Event) {
    e.r.Some? && e.r.value.advance && REmpty(p, c)
  }

  // ----- One instant -----

  function CounterEdges(p: Params, c: Counters, e: Event): Edges {
    Edges(e.w.Some?, e.w.Some? && e.w.value.advance && !WFull(p, c),
          e.r.Some?, e.r.Some? && e.r.value.advance && !REmpty(p, c), e.wMix, e.rMix)
  }

  /** What the writer and the reader see of the FIFO. */
  datatype Outputs = Outputs(wLevel2: nat, wFull: bool, wOverflow: bool, rLevel2: nat, rEmpty: bool, rUnderflow: bool)

  function OutputsOf(p: Params, c: Counters, e: Event): Outputs {
    Outputs(WLevel2(c), WFull(p, c), Overflow(p, c, e), RLevel2(p, c), REmpty(p, c), Underflow(p, c, e))
  }

  predicate Commits(p: Params, c: Counters, e: Event)
    requires p.Ok() && c.Sized(p.Width())
  {
    DoWrite(p.Width(), c, CounterEdges(p, c, e))
  }

  predicate Consumes(p: Params, c: Counters, e: Event) {
    DoRead(c, CounterEdges(p, c, e))
  }

  /** The page address and the address within the page, side by side. */
  function Address(p: Params, ptr: nat, addr: nat): (a: nat)
    requires p.Ok() && ptr < p.Depth()
    ensures a < p.Depth() * p.pageSize
  {
    PageBound(ptr, p.Depth(), p.pageSize);
    ptr * p.pageSize + addr % p.pageSize
  }

  function Step(p: Params, s: State, e: Event): (n: State)
    requires WellSized(p, s)
    ensures WellSized(p, n)
  {
    var ctr := CounterStep(p.Width(), s.ctr, CounterEdges(p, s.ctr, e));
    var mem := if e.w.Some? && e.w.value.en
      then s.mem[Address(p, s.ctr.produceW % p.Depth(), e.w.value.addr) := e.w.value.data] else s.mem;
    if e.r.Some?
    then State(ctr, ctr.consumeR % p.Depth(), s.mem[Address(p, s.rPtr, e.r.value.addr)], mem)
    else State(ctr, s.rPtr, s.rData, mem)
  }

  lemma PageBound(ptr: nat, depth: nat, size: nat)
    requires ptr < depth
    ensures ptr * size + size <= depth * size
  {
    assert (ptr + 1) * size <= depth * size;
  }

  class PagedAsyncFIFO {
    const params: Params
    const fifo: HackedAsyncFIFO
    const memory: array<int>
    var readPage: nat
    var readData: int

    constructor (p: Params)
      requires p.Ok()
      ensures params == p && Valid() && Snapshot() == Reset(p)
      ensures fresh(fifo) && fresh(memory)
    {
      params := p;
      fifo := new HackedAsyncFIFO(p.depthBits);
      memory := new int[p.Depth() * p.pageSize](i => 0);
      readPage, readData := 0, 0;
      new;
      assert memory[..] == seq(p.Depth() * p.pageSize, i => 0);
    }

    function Snapshot(): State
      reads this, fifo, memory
    {
      State(fifo.State(), readPage, readData, memory[..])
    }

    ghost predicate Valid()
      reads this, fifo, memory
    {
      fifo.width == params.Width() && fifo.Valid() && WellSized(params, Snapshot())
    }

    /** One clock instant: the flags and levels both sides see, then the registers. */
    method Edge(e: Event) returns (o: Outputs)
      requires Valid()
      modifies this, fifo, memory
      ensures o == OutputsOf(params, old(Snapshot()).ctr, e)
      ensures Valid() && Snapshot() == Step(params, old(Snapshot()), e)
    {
      o := OutputsOf(params, fifo.State(), e);
      hide CounterStep, RLevel, Pow2;
      ghost var before := Snapshot();
      var edges := CounterEdges(params, fifo.State(), e);
      var wPtr := fifo.produceW % params.Depth();
      if e.r.Some? {
        readData := memory[Address(params, readPage, e.r.value.addr)];
      }
      if e.w.Some? && e.w.value.en {
        memory[Address(params, wPtr, e.w.value.addr)] := e.w.value.data;
      }
      fifo.Edge(edges);
      if e.r.Some? {
        readPage := fifo.consumeR % params.Depth();
      }
      assert Snapshot().mem == Step(params, before, e).mem;
    }
  }
}
