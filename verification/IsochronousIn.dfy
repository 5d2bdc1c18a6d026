/** The isochronous IN endpoint: the bytes of one microframe, cut into at most three
    packets with descending data PIDs (section 5.9.2 of USB 2.0). */
module IsochronousIn {
  import opened Numbers

  datatype Fsm = IDLE | SEND_DATA | SEND_ZLP

  datatype Endpoint = Endpoint(fsm: Fsm, bytesLeftInFrame: nat, bytesLeftInPacket: nat, nextDataPid: nat,
                               address: nat, first: bool, endOfNonZlpPacket: bool)

  /** The inputs at one edge of the USB clock. `requested` is an IN token for this endpoint
      ready to be answered, `ready` the transmitter accepting a byte. */
  datatype Cycle = Cycle(newFrame: bool, bytesInFrame: nat, requested: bool, ready: bool)

  /** The frame counters and addresses are twelve bits wide. */
  const COUNTER_RANGE := 4096

  function Decrement(n: nat): nat { if n == 0 then COUNTER_RANGE - 1 else n - 1 }

  function ResetState(maxPacket: nat): Endpoint
    requires maxPacket >= 1
  {
    Endpoint(IDLE, 0, maxPacket - 1, 0, 0, false, false)
  }

  predicate ByteAdvance(e: Endpoint, c: Cycle) { e.fsm == SEND_DATA && c.ready }

  predicate LastByte(e: Endpoint) { e.bytesLeftInPacket <= 1 || e.bytesLeftInFrame <= 1 }

  /** What the endpoint drives: the packet stream, its PID, and the strobes and next address
      that its data source works from. */
  datatype Outputs = Outputs(valid: bool, first: bool, last: bool, payload: int, pid: nat, sendData: bool,
                             byteAdvance: bool, packetStrobe: bool, nextAddress: nat)

  function NextAddress(e: Endpoint, c: Cycle): nat {
    match e.fsm
    case IDLE => 0
    case SEND_ZLP => 0
    case SEND_DATA => if c.ready then (e.address + 1) % COUNTER_RANGE else e.address
  }

  function OutputsOf(e: Endpoint, c: Cycle, value: int): Outputs {
    Outputs(e.fsm != IDLE, e.first, e.fsm == SEND_ZLP || (e.fsm == SEND_DATA && LastByte(e)), value, e.nextDataPid,
            c.requested && e.bytesLeftInFrame > 0, ByteAdvance(e, c), e.first && c.ready, NextAddress(e, c))
  }

  function FirstPid(maxPacket: nat, bytes: nat): nat {
    if bytes > 2 * maxPacket then 2 else if bytes > maxPacket then 1 else 0
  }

  function Latch(maxPacket: nat, e: Endpoint, c: Cycle): Endpoint {
    if !c.newFrame then e
    else e.(bytesLeftInFrame := c.bytesInFrame, bytesLeftInPacket := maxPacket,
            nextDataPid := FirstPid(maxPacket, c.bytesInFrame))
  }

  /** The sequencer's assignments, made over those of the latch `n`. */
  function Sequence(maxPacket: nat, e: Endpoint, n: Endpoint, c: Cycle): Endpoint {
    match e.fsm
    case IDLE =>
      if !c.requested then n.(address := 0, first := false)
      else if e.bytesLeftInFrame > 0 then n.(fsm := SEND_DATA, address := 0, first := true)
      else n.(fsm := SEND_ZLP, address := 0, first := false)
    case SEND_ZLP => n.(fsm := IDLE)
    case SEND_DATA =>
      if !c.ready then n else
        var sent := n.(address := (e.address + 1) % COUNTER_RANGE, first := false,
                       bytesLeftInFrame := Decrement(e.bytesLeftInFrame));
        if LastByte(e)
        then sent.(fsm := IDLE, bytesLeftInPacket := maxPacket, nextDataPid := (e.nextDataPid + 3) % 4,
                   endOfNonZlpPacket := true)
        else sent.(bytesLeftInPacket := Decrement(e.bytesLeftInPacket))
  }

  function Step(maxPacket: nat, e: Endpoint, c: Cycle): Endpoint {
    Sequence(maxPacket, e, Latch(maxPacket, e, c).(endOfNonZlpPacket := false), c)
  }

  class USBIsochronousInEndpoint {
    const maxPacketSize: nat
    var fsm: Fsm
    var bytesLeftInFrame: nat
    var bytesLeftInPacket: nat
    var nextDataPid: nat
    var address: nat
    var first: bool
    var endOfNonZlpPacket: bool

    constructor (maxPacketSize: nat)
      requires maxPacketSize >= 1
      ensures this.maxPacketSize == maxPacketSize
      ensures State() == ResetState(maxPacketSize)
    {
      this.maxPacketSize := maxPacketSize;
      fsm, bytesLeftInFrame, bytesLeftInPacket, nextDataPid := IDLE, 0, maxPacketSize - 1, 0;
      address, first, endOfNonZlpPacket := 0, false, false;
    }

    function State(): Endpoint
      reads this
    {
      Endpoint(fsm, bytesLeftInFrame, bytesLeftInPacket, nextDataPid, address, first, endOfNonZlpPacket)
    }

    /** One USB clock: the outputs, then the registers. `value` is the byte on offer. */
    method Clock(c: Cycle, value: int) returns (o: Outputs)
      modifies this
      ensures o == OutputsOf(old(State()), c, value)
      ensures State() == Step(maxPacketSize, old(State()), c)
    {
      var left, packetLeft, pid := bytesLeftInFrame, bytesLeftInPacket, nextDataPid;
      o := Drive(c, value);
      hide FirstPid, Decrement, OutputsOf;
      if c.newFrame {
        StartFrame(c.bytesInFrame);
      }
      endOfNonZlpPacket := false;
      match fsm {
        case IDLE => Answer(c.requested, left);
        case SEND_DATA => Send(c.ready, left, packetLeft, pid);
        case SEND_ZLP => fsm := IDLE;
      }
    }

    method Drive(c: Cycle, value: int) returns (o: Outputs)
      ensures o == OutputsOf(State(), c, value)
    {
      o := Outputs(false, first, false, value, nextDataPid, c.requested && bytesLeftInFrame > 0, false,
                   first && c.ready, 0);
      match fsm {
        case IDLE =>
        case SEND_DATA =>
          o := o.(valid := true, last := bytesLeftInPacket <= 1 || bytesLeftInFrame <= 1, nextAddress := address);
          if c.ready {
            o := o.(byteAdvance := true, nextAddress := (address + 1) % COUNTER_RANGE);
          }
        case SEND_ZLP =>
          o := o.(valid := true, last := true);
      }
    }

    /** Idle: a request is answered with data if the frame had any left. */
    method Answer(requested: bool, left: nat)
      requires fsm == IDLE
      modifies `address, `first, `fsm
      ensures address == 0 && first == (requested && left > 0)
      ensures fsm == if !requested then IDLE else if left > 0 then SEND_DATA else SEND_ZLP
    {
      address, first := 0, false;
      if requested {
        if left > 0 { first, fsm := true, SEND_DATA; } else { fsm := SEND_ZLP; }
      }
    }

    method Send(ready: bool, left: nat, packetLeft: nat, pid: nat)
      requires fsm == SEND_DATA
      modifies `address, `first, `bytesLeftInFrame, `bytesLeftInPacket, `nextDataPid, `endOfNonZlpPacket, `fsm
      ensures State() == var n := old(State());
                         if !ready then n else
                           var sent := n.(address := (n.address + 1) % COUNTER_RANGE, first := false,
                                          bytesLeftInFrame := Decrement(left));
                           if packetLeft <= 1 || left <= 1
                           then sent.(fsm := IDLE, bytesLeftInPacket := maxPacketSize, nextDataPid := (pid + 3) % 4,
                                      endOfNonZlpPacket := true)
                           else sent.(bytesLeftInPacket := Decrement(packetLeft))
    {
      if ready {
        address := (address + 1) % COUNTER_RANGE;
        SendByte(left, packetLeft, pid, packetLeft <= 1 || left <= 1);
      }
    }

    /** A byte accepted by the transmitter; `last` ends the packet. */
    method SendByte(left: nat, packetLeft: nat, pid: nat, last: bool)
      modifies `first, `bytesLeftInFrame, `bytesLeftInPacket, `nextDataPid, `endOfNonZlpPacket, `fsm
      ensures !first && bytesLeftInFrame == Decrement(left)
      ensures last ==> nextDataPid == (pid + 3) % 4 && bytesLeftInPacket == maxPacketSize && endOfNonZlpPacket
                       && fsm == IDLE
      ensures !last ==> nextDataPid == old(nextDataPid) && bytesLeftInPacket == Decrement(packetLeft)
                        && endOfNonZlpPacket == old(endOfNonZlpPacket) && fsm == old(fsm)
    {
      first := false;
      bytesLeftInFrame, bytesLeftInPacket := Decrement(left), Decrement(packetLeft);
      if last {
        nextDataPid, bytesLeftInPacket := (pid + 3) % 4, maxPacketSize;
        endOfNonZlpPacket, fsm := true, IDLE;
      }
    }

    method StartFrame(bytes: nat)
      modifies `bytesLeftInFrame, `bytesLeftInPacket, `nextDataPid
      ensures bytesLeftInFrame == bytes && bytesLeftInPacket == maxPacketSize
      ensures nextDataPid == FirstPid(maxPacketSize, bytes)
    {
      bytesLeftInFrame, bytesLeftInPacket := bytes, maxPacketSize;
      if bytes > 2 * maxPacketSize {
        nextDataPid := 2;
      } else if bytes > maxPacketSize {
        nextDataPid := 1;
      } else {
        nextDataPid := 0;
      }
    }
  }

  // ----- Packets -----

  datatype Packet = Packet(pid: nat, length: nat)

  /** The packets that carry `bytes` bytes. */
  function DataPackets(m: nat, bytes: nat): seq<Packet>
    requires m >= 1
  {
    if bytes == 0 then [] else
      [Packet(FirstPid(m, bytes), Min(bytes, m))] + DataPackets(m, bytes - Min(bytes, m))
  }

  function TotalLength(p: seq<Packet>): nat {
    if p == [] then 0 else TotalLength(p[..|p| - 1]) + p[|p| - 1].length
  }

  lemma {:induction false} TotalLengthCons(first: Packet, rest: seq<Packet>)
    ensures TotalLength([first] + rest) == first.length + TotalLength(rest)
  {
    if rest == [] {
      assert [first] + rest == [first] && [first][..0] == [];
      assert TotalLength([first]) == TotalLength([first][..0]) + first.length;
    } else {
      TotalLengthCons(first, rest[..|rest| - 1]);
      assert ([first] + rest)[..|rest|] == [first] + rest[..|rest| - 1];
    }
  }

  /** What the packets are: as many as needed, all but the last full, none empty, together
      exactly the bytes, with PIDs counting down to DATA0. */
  lemma {:induction false} DataPacketsExact(m: nat, bytes: nat)
    requires m >= 1 && bytes <= 3 * m
    ensures var p := DataPackets(m, bytes);
            && TotalLength(p) == bytes
            && (bytes > 0 ==> p != [] && (|p| - 1) * m < bytes <= |p| * m)
            && (bytes == 0 ==> p == [])
            && (forall i :: 0 <= i < |p| ==> p[i].pid == |p| - 1 - i && 0 < p[i].length <= m)
            && (forall i :: 0 <= i < |p| - 1 ==> p[i].length == m)
            && |p| == if bytes == 0 then 0 else 1 + FirstPid(m, bytes)
    decreases bytes
  {
    if bytes > 0 {
      var n := Min(bytes, m);
      var first, rest := Packet(FirstPid(m, bytes), n), DataPackets(m, bytes - n);
      DataPacketsExact(m, bytes - n);
      TotalLengthCons(first, rest);
      assert DataPackets(m, bytes) == [first] + rest;
      hide TotalLength, DataPackets;
      PacketCount(m, bytes, |rest| + 1);
    }
  }

  lemma PacketCount(m: nat, bytes: nat, count: nat)
    requires m >= 1 && 0 < bytes <= 3 * m && count == 1 + FirstPid(m, bytes)
    ensures (count - 1) * m < bytes <= count * m
  {
    assert count == 1 ==> (count - 1) * m == 0 && count * m == m;
    assert count == 2 ==> (count - 1) * m == m && count * m == 2 * m;
    assert count == 3 ==> (count - 1) * m == 2 * m && count * m == 3 * m;
  }

  // ----- What the transmitter sees -----

  /** A packet on the wire. */
  datatype WirePacket = WirePacket(pid: nat, payload: seq<int>)

  /** Packets sent, and the payload of the one under way. */
  datatype Stream = Stream(packets: seq<WirePacket>, open: seq<int>)

  /** The transmitter's reading of the packet stream. Between packets, valid and last without
      first ask for a zero-length packet; otherwise each byte offered while it is ready belongs
      to the packet under way, and the last one ends it. */
  function Watch(s: Stream, o: Outputs, ready: bool): Stream {
    if !o.valid then s
    else if s.open == [] && o.last && !o.first then s.(packets := s.packets + [WirePacket(o.pid, [])])
    else if !ready then s
    else if o.last then Stream(s.packets + [WirePacket(o.pid, s.open + [o.payload])], [])
    else s.(open := s.open + [o.payload])
  }

  function Payloads(packets: seq<WirePacket>): (p: seq<seq<int>>)
    ensures |p| == |packets|
  {
    seq(|packets|, i requires 0 <= i < |packets| => packets[i].payload)
  }

  // ----- Runs within a microframe -----

  /** Packets finished since the frame was latched, and bytes of the one being sent. */
  datatype Sending = Sending(e: Endpoint, sent: seq<Packet>, current: nat)

  function SendingStep(m: nat, s: Sending, c: Cycle): Sending {
    var e := s.e;
    Sending(Step(m, e, c),
            if ByteAdvance(e, c) && LastByte(e) then s.sent + [Packet(e.nextDataPid, s.current + 1)]
            else if e.fsm == SEND_ZLP then s.sent + [Packet(e.nextDataPid, 0)]
            else s.sent,
            if ByteAdvance(e, c) then (if LastByte(e) then 0 else s.current + 1) else s.current)
  }

  function SendingRun(m: nat, start: Endpoint, cycles: seq<Cycle>): Sending {
    if cycles == [] then Sending(start, [], 0)
    else SendingStep(m, SendingRun(m, start, cycles[..|cycles| - 1]), cycles[|cycles| - 1])
  }

  /** The endpoint as a new frame of `bytes` leaves it. */
  predicate Latched(m: nat, bytes: nat, e: Endpoint) {
    && e.fsm == IDLE && e.bytesLeftInFrame == bytes && e.bytesLeftInPacket == m
    && e.nextDataPid == FirstPid(m, bytes)
  }

  function ZeroLength(pid: nat, n: nat): (p: seq<Packet>)
    ensures |p| == n
  {
    seq(n, i => Packet(pid, 0))
  }

  /** PID of the zero-length packets that answer requests beyond the data: DATA0 if the
      frame was empty, otherwise the counter has gone below DATA0. */
  function IdlePid(bytes: nat): nat { if bytes == 0 then 0 else 3 }

  /** Bytes of the packets that are not finished. */
  function Unsent(s: Sending): nat { s.e.bytesLeftInFrame + s.current }

  ghost predicate SendingInv(m: nat, bytes: nat, s: Sending)
    requires m >= 1
  {
    var e, left := s.e, Unsent(s);
    && left <= bytes
    && (left > 0 ==>
          && e.fsm != SEND_ZLP
          && DataPackets(m, bytes) == s.sent + DataPackets(m, left)
          && e.nextDataPid == FirstPid(m, left) && e.bytesLeftInPacket + s.current == m
          && (e.fsm == IDLE ==> s.current == 0)
          && (e.fsm == SEND_DATA ==> s.current < Min(left, m)))
    && (left == 0 ==>
          && e.fsm != SEND_DATA && s.current == 0 && e.nextDataPid == IdlePid(bytes)
          && |s.sent| >= |DataPackets(m, bytes)|
          && s.sent == DataPackets(m, bytes) + ZeroLength(IdlePid(bytes), |s.sent| - |DataPackets(m, bytes)|))
  }

  /** The last byte of a packet. */
  lemma PacketDone(m: nat, bytes: nat, s: Sending, c: Cycle)
    requires m >= 1 && bytes <= 3 * m && SendingInv(m, bytes, s) && !c.newFrame
    requires Unsent(s) > 0 && ByteAdvance(s.e, c) && LastByte(s.e)
    ensures SendingInv(m, bytes, SendingStep(m, s, c))
  {
    var left, n := Unsent(s), SendingStep(m, s, c);
    var packet, rest := Packet(FirstPid(m, left), Min(left, m)), left - Min(left, m);
    PacketSent(m, bytes, s, c);
    PlanSplit(m, bytes, s.sent, left);
    assert left <= bytes;
    hide *;
    NextPacket(m, bytes, n, rest, s.sent + [packet]);
  }

  /** Between packets, with `rest` bytes to go. */
  lemma NextPacket(m: nat, bytes: nat, n: Sending, rest: nat, sent: seq<Packet>)
    requires m >= 1 && rest <= bytes && n.sent == sent && n.current == 0 && Unsent(n) == rest
    requires n.e.fsm == IDLE && n.e.bytesLeftInPacket == m
    requires n.e.nextDataPid == if rest == 0 then IdlePid(bytes) else FirstPid(m, rest)
    requires DataPackets(m, bytes) == sent + DataPackets(m, rest)
    requires rest == 0 ==> DataPackets(m, bytes) == sent
    ensures SendingInv(m, bytes, n)
  {
    hide DataPackets, FirstPid, IdlePid;
    if rest == 0 {
      assert sent + ZeroLength(IdlePid(bytes), 0) == sent;
    }
  }

  lemma PlanSplit(m: nat, bytes: nat, sent: seq<Packet>, left: nat)
    requires m >= 1 && left > 0 && DataPackets(m, bytes) == sent + DataPackets(m, left)
    ensures var packet, rest := Packet(FirstPid(m, left), Min(left, m)), left - Min(left, m);
            && DataPackets(m, bytes) == sent + [packet] + DataPackets(m, rest)
            && (rest == 0 ==> DataPackets(m, bytes) == sent + [packet])
  {
    var packet, rest := Packet(FirstPid(m, left), Min(left, m)), left - Min(left, m);
    assert DataPackets(m, left) == [packet] + DataPackets(m, rest);
    assert rest == 0 ==> DataPackets(m, rest) == [];
    hide DataPackets;
    assert sent + ([packet] + DataPackets(m, rest)) == sent + [packet] + DataPackets(m, rest);
    assert rest == 0 ==> sent + [packet] + [] == sent + [packet];
  }

  lemma PacketSent(m: nat, bytes: nat, s: Sending, c: Cycle)
    requires m >= 1 && bytes <= 3 * m && SendingInv(m, bytes, s) && !c.newFrame
    requires Unsent(s) > 0 && ByteAdvance(s.e, c) && LastByte(s.e)
    ensures var left, n := Unsent(s), SendingStep(m, s, c);
            var rest := left - Min(left, m);
            && n.sent == s.sent + [Packet(FirstPid(m, left), Min(left, m))]
            && n.current == 0 && Unsent(n) == rest && n.e.fsm == IDLE && n.e.bytesLeftInPacket == m
            && n.e.nextDataPid == if rest == 0 then IdlePid(bytes) else FirstPid(m, rest)
  {
    hide DataPackets;
  }

  lemma SendingInvStep(m: nat, bytes: nat, s: Sending, c: Cycle)
    requires m >= 1 && bytes <= 3 * m && SendingInv(m, bytes, s) && !c.newFrame
    ensures SendingInv(m, bytes, SendingStep(m, s, c))
    ensures Unsent(SendingStep(m, s, c)) <= Unsent(s)
  {
    var e, left, n := s.e, Unsent(s), SendingStep(m, s, c);
    var all := DataPackets(m, bytes);
    if left == 0 {
      var k := |s.sent| - |all|;
      assert ZeroLength(IdlePid(bytes), k) + [Packet(IdlePid(bytes), 0)] == ZeroLength(IdlePid(bytes), k + 1);
    } else if ByteAdvance(e, c) && LastByte(e) {
      PacketDone(m, bytes, s, c);
    }
  }

  /** The packetisation law. For every packet size and every frame of at most three packets,
      in every run until the next frame, whatever the host requests and however the
      transmitter stalls: the finished packets are the first of exactly those that carry
      the frame, followed by nothing but zero-length packets once all bytes are sent; and
      the bytes sent and the bytes left always add up to the frame. */
  lemma {:induction false} MicroframePackets(m: nat, bytes: nat, start: Endpoint, cycles: seq<Cycle>)
    requires m >= 1 && bytes <= 3 * m && Latched(m, bytes, start)
    requires forall i :: 0 <= i < |cycles| ==> !cycles[i].newFrame
    ensures var s := SendingRun(m, start, cycles);
            && SendingInv(m, bytes, s)
            && TotalLength(s.sent) + Unsent(s) == bytes
  {
    if cycles == [] {
      if bytes == 0 { assert [] == DataPackets(m, bytes) + ZeroLength(0, 0); }
      assert [] + DataPackets(m, bytes) == DataPackets(m, bytes);
    } else {
      hide SendingInv, SendingStep, DataPackets;
      var init := cycles[..|cycles| - 1];
      MicroframePackets(m, bytes, start, init);
      SendingInvStep(m, bytes, SendingRun(m, start, init), cycles[|cycles| - 1]);
      LengthStep(m, bytes, SendingRun(m, start, init), cycles[|cycles| - 1]);
    }
  }

  lemma LengthStep(m: nat, bytes: nat, s: Sending, c: Cycle)
    requires m >= 1 && bytes <= 3 * m && SendingInv(m, bytes, s) && !c.newFrame
    ensures var n := SendingStep(m, s, c);
            TotalLength(n.sent) + Unsent(n) == TotalLength(s.sent) + Unsent(s)
  {
    hide DataPackets;
    var n := SendingStep(m, s, c);
    if |n.sent| > |s.sent| {
      assert n.sent[..|n.sent| - 1] == s.sent;
    }
  }

  /** The first requests of a microframe: after as many packets as the frame needs, and at
      least one, exactly the frame has been sent, DATA0 last. */
  lemma FrameSentInFewestPackets(m: nat, bytes: nat, start: Endpoint, cycles: seq<Cycle>)
    requires m >= 1 && bytes <= 3 * m && Latched(m, bytes, start)
    requires forall i :: 0 <= i < |cycles| ==> !cycles[i].newFrame
    requires |SendingRun(m, start, cycles).sent| == if bytes == 0 then 1 else |DataPackets(m, bytes)|
    ensures var s := SendingRun(m, start, cycles);
            && (|s.sent| - 1) * m <= bytes <= |s.sent| * m
            && TotalLength(s.sent) == bytes && Unsent(s) == 0
            && (forall i :: 0 <= i < |s.sent| ==> s.sent[i].pid == |s.sent| - 1 - i)
            && (forall i :: 0 <= i < |s.sent| - 1 ==> s.sent[i].length == m)
  {
    hide SendingRun;
    MicroframePackets(m, bytes, start, cycles);
    DataPacketsExact(m, bytes);
    var s := SendingRun(m, start, cycles);
    DataPacketsExact(m, Unsent(s));
    var all, rest := |DataPackets(m, bytes)|, |DataPackets(m, Unsent(s))|;
    assert Unsent(s) > 0 ==> all == |s.sent| + rest;
    if bytes == 0 {
      assert s.sent == ZeroLength(0, 1);
      assert (|s.sent| - 1) * m == 0;
    } else {
      assert s.sent == DataPackets(m, bytes);
    }
  }

  // ----- Progress -----

  /** Clocks still needed to send the frame if the host and the transmitter never wait. */
  function Work(m: nat, s: Sending): int
    requires m >= 1
  {
    s.e.bytesLeftInFrame + |DataPackets(m, Unsent(s))| - (if s.e.fsm == SEND_DATA then 1 else 0)
  }

  /** A clock of which the endpoint can make use. */
  predicate Useful(e: Endpoint, c: Cycle) { if e.fsm == IDLE then c.requested else c.ready }

  lemma WorkStep(m: nat, bytes: nat, s: Sending, c: Cycle)
    requires m >= 1 && bytes <= 3 * m && SendingInv(m, bytes, s) && !c.newFrame
    ensures Unsent(s) > 0 ==> Work(m, s) >= 1
    ensures var n := SendingStep(m, s, c);
            if Unsent(s) > 0 && Useful(s.e, c) then Work(m, n) == Work(m, s) - 1
            else if Unsent(s) > 0 then Work(m, n) == Work(m, s)
            else Unsent(n) == 0
  {
    var left := Unsent(s);
    if left > 0 {
      assert DataPackets(m, left) == [Packet(FirstPid(m, left), Min(left, m))] + DataPackets(m, left - Min(left, m));
    }
  }

  function UsefulClocks(m: nat, start: Endpoint, cycles: seq<Cycle>): nat {
    if cycles == [] then 0
    else
      var init := cycles[..|cycles| - 1];
      UsefulClocks(m, start, init) + if Useful(SendingRun(m, start, init).e, cycles[|cycles| - 1]) then 1 else 0
  }

  /** Progress: however requests and stalls are interleaved, the frame is completely sent once
      the endpoint has had one useful clock per byte and one per packet. */
  lemma {:induction false} FrameDrains(m: nat, bytes: nat, start: Endpoint, cycles: seq<Cycle>)
    requires m >= 1 && bytes <= 3 * m && Latched(m, bytes, start)
    requires forall i :: 0 <= i < |cycles| ==> !cycles[i].newFrame
    ensures var s := SendingRun(m, start, cycles);
            Unsent(s) > 0 ==> Work(m, s) + UsefulClocks(m, start, cycles) == bytes + |DataPackets(m, bytes)|
    ensures UsefulClocks(m, start, cycles) >= bytes + |DataPackets(m, bytes)| ==>
              Unsent(SendingRun(m, start, cycles)) == 0
  {
    if cycles != [] {
      hide SendingInv, SendingStep, DataPackets, Work, Useful;
      var init := cycles[..|cycles| - 1];
      FrameDrains(m, bytes, start, init);
      MicroframePackets(m, bytes, start, init);
      MicroframePackets(m, bytes, start, cycles);
      WorkStep(m, bytes, SendingRun(m, start, init), cycles[|cycles| - 1]);
      WorkStep(m, bytes, SendingRun(m, start, cycles), cycles[|cycles| - 1]);
    }
  }

  // ----- Whole runs -----

  /** A run from reset: the packets finished since the newest start of frame, and the bytes
      that frame was to carry. A packet that a start of frame interrupts stays under way. */
  datatype Service = Service(s: Sending, bytes: nat)

  function ServiceStep(m: nat, v: Service, c: Cycle): Service {
    var n := SendingStep(m, v.s, c);
    if c.newFrame then Service(n.(sent := []), c.bytesInFrame) else v.(s := n)
  }

  function ServiceRun(m: nat, cycles: seq<Cycle>): Service
    requires m >= 1
  {
    if cycles == [] then Service(Sending(ResetState(m), [], 0), 0)
    else ServiceStep(m, ServiceRun(m, cycles[..|cycles| - 1]), cycles[|cycles| - 1])
  }

  /** A start of frame that lets the frame be served as planned: no byte of a packet is under
      way, and no request is being answered with a packet of the wrong kind. */
  predicate Clean(s: Sending, c: Cycle) {
    match s.e.fsm
    case SEND_ZLP => true
    case IDLE => !c.requested || (s.e.bytesLeftInFrame > 0 <==> c.bytesInFrame > 0)
    case SEND_DATA => s.current == 0 && c.bytesInFrame > 0
  }

  ghost predicate AtRest(s: Sending) { s.e.fsm != SEND_DATA ==> s.current == 0 }

  /** The same in a clock in which a byte is taken, when the sequencer's assignments override the
      latch: what is left of the packet under way fits the new frame as if it had begun it. */
  predicate Resumes(m: nat, s: Sending, c: Cycle) {
    if LastByte(s.e) then
      Decrement(s.e.bytesLeftInFrame) == c.bytesInFrame && (s.e.nextDataPid + 3) % 4 == FirstPid(m, c.bytesInFrame)
    else
      s.e.bytesLeftInFrame + s.current == c.bytesInFrame && s.e.bytesLeftInPacket + s.current == m
  }

  predicate StartsOnPlan(m: nat, s: Sending, c: Cycle) {
    if ByteAdvance(s.e, c) then Resumes(m, s, c) else Clean(s, c)
  }

  /** Which starts of frame put the endpoint on the plan for the new frame. */
  lemma NewFrameExact(m: nat, s: Sending, c: Cycle)
    requires m >= 1 && c.newFrame && c.bytesInFrame <= 3 * m && AtRest(s)
    ensures SendingInv(m, c.bytesInFrame, SendingStep(m, s, c).(sent := [])) <==> StartsOnPlan(m, s, c)
  {
    if ByteAdvance(s.e, c) {
      ResumesExact(m, s, c);
    } else {
      CleanExact(m, s, c);
    }
  }

  /** Being on plan with no packet finished yet, without mention of the packets. */
  predicate FreshPlan(m: nat, bytes: nat, s: Sending) {
    var e := s.e;
    && Unsent(s) == bytes
    && (bytes > 0 ==>
          && e.fsm != SEND_ZLP && e.nextDataPid == FirstPid(m, bytes) && e.bytesLeftInPacket + s.current == m
          && (e.fsm == IDLE ==> s.current == 0) && (e.fsm == SEND_DATA ==> s.current < Min(bytes, m)))
    && (bytes == 0 ==> e.fsm != SEND_DATA && s.current == 0 && e.nextDataPid == 0)
  }

  lemma PlanLength(m: nat, bytes: nat)
    requires m >= 1 && bytes <= 3 * m
    ensures TotalLength(DataPackets(m, bytes)) == bytes
    ensures DataPackets(m, bytes) == [] <==> bytes == 0
  {
    DataPacketsExact(m, bytes);
  }

  lemma FreshPlanExact(m: nat, bytes: nat, s: Sending)
    requires m >= 1 && bytes <= 3 * m && s.sent == []
    ensures SendingInv(m, bytes, s) <==> FreshPlan(m, bytes, s)
  {
    var left := Unsent(s);
    if left <= bytes {
      PlanLength(m, left);
    }
    PlanLength(m, bytes);
    hide DataPackets;
    assert [] + DataPackets(m, left) == DataPackets(m, left);
    assert bytes == 0 ==> [] == DataPackets(m, bytes) + ZeroLength(0, 0);
  }

  lemma CleanExact(m: nat, s: Sending, c: Cycle)
    requires m >= 1 && c.newFrame && c.bytesInFrame <= 3 * m && AtRest(s) && !ByteAdvance(s.e, c)
    ensures SendingInv(m, c.bytesInFrame, SendingStep(m, s, c).(sent := [])) <==> Clean(s, c)
  {
    FreshPlanExact(m, c.bytesInFrame, SendingStep(m, s, c).(sent := []));
    hide SendingInv;
  }

  lemma ResumesExact(m: nat, s: Sending, c: Cycle)
    requires m >= 1 && c.newFrame && c.bytesInFrame <= 3 * m && ByteAdvance(s.e, c)
    ensures SendingInv(m, c.bytesInFrame, SendingStep(m, s, c).(sent := [])) <==> Resumes(m, s, c)
  {
    FreshPlanExact(m, c.bytesInFrame, SendingStep(m, s, c).(sent := []));
    hide SendingInv;
  }

  /** The newest start of frame put the endpoint on plan for a frame of at most three packets. */
  ghost predicate OnPlan(m: nat, cycles: seq<Cycle>)
    requires m >= 1
  {
    cycles != [] &&
    var init, c := cycles[..|cycles| - 1], cycles[|cycles| - 1];
    if c.newFrame then StartsOnPlan(m, ServiceRun(m, init).s, c) && c.bytesInFrame <= 3 * m
    else OnPlan(m, init)
  }

  /** The packets of a frame so far: the first few of those planned, or all of them and then
      zero-length ones. */
  predicate Follows(m: nat, bytes: nat, sent: seq<Packet>)
    requires m >= 1
  {
    var all := DataPackets(m, bytes);
    if |sent| <= |all| then sent <= all
    else sent == all + ZeroLength(IdlePid(bytes), |sent| - |all|)
  }

  lemma PlanFollowed(m: nat, bytes: nat, s: Sending)
    requires m >= 1 && SendingInv(m, bytes, s)
    ensures Follows(m, bytes, s.sent)
  {
    var all := DataPackets(m, bytes);
    assert |s.sent| == |all| && Unsent(s) == 0 ==> s.sent == all + ZeroLength(IdlePid(bytes), 0);
    hide DataPackets;
  }

  lemma AtRestStep(m: nat, s: Sending, c: Cycle)
    requires AtRest(s)
    ensures AtRest(SendingStep(m, s, c).(sent := [])) && AtRest(SendingStep(m, s, c))
  {
  }

  lemma {:induction false} RunAtRest(m: nat, cycles: seq<Cycle>)
    requires m >= 1
    ensures AtRest(ServiceRun(m, cycles).s)
  {
    if cycles != [] {
      RunAtRest(m, cycles[..|cycles| - 1]);
      AtRestStep(m, ServiceRun(m, cycles[..|cycles| - 1]).s, cycles[|cycles| - 1]);
      hide AtRest, SendingStep;
    }
  }

  /** The packetisation law over whole runs from reset, whatever happened in earlier frames:
      since the newest start of frame, if that put the endpoint on plan, exactly the planned packets have been
      sent in order, and bytes sent and unsent add up to the frame. */
  lemma {:induction false} ServedAsPlanned(m: nat, cycles: seq<Cycle>)
    requires m >= 1 && OnPlan(m, cycles)
    ensures var v := ServiceRun(m, cycles);
            && v.bytes <= 3 * m && SendingInv(m, v.bytes, v.s) && Follows(m, v.bytes, v.s.sent)
            && TotalLength(v.s.sent) + Unsent(v.s) == v.bytes
  {
    var init, c := cycles[..|cycles| - 1], cycles[|cycles| - 1];
    var v := ServiceRun(m, init);
    hide SendingInv, SendingStep, Follows, DataPackets, StartsOnPlan;
    if c.newFrame {
      RunAtRest(m, init);
      NewFrameExact(m, v.s, c);
      FreshLength(m, c.bytesInFrame, SendingStep(m, v.s, c).(sent := []));
    } else {
      ServedAsPlanned(m, init);
      SendingInvStep(m, v.bytes, v.s, c);
      LengthStep(m, v.bytes, v.s, c);
    }
    PlanFollowed(m, ServiceRun(m, cycles).bytes, ServiceRun(m, cycles).s);
  }

  /** In every clock since the newest start of frame the endpoint has been on the plan for that
      frame, and the frame fits three packets. */
  ghost predicate AlwaysPlanned(m: nat, cycles: seq<Cycle>)
    requires m >= 1
  {
    cycles != [] &&
    var v := ServiceRun(m, cycles);
    && v.bytes <= 3 * m && SendingInv(m, v.bytes, v.s)
    && (cycles[|cycles| - 1].newFrame || AlwaysPlanned(m, cycles[..|cycles| - 1]))
  }

  /** Over every run from reset: the endpoint is on plan throughout a frame if and only if the
      start of that frame put it there. */
  lemma {:induction false} PlannedExactly(m: nat, cycles: seq<Cycle>)
    requires m >= 1
    ensures AlwaysPlanned(m, cycles) <==> OnPlan(m, cycles)
  {
    if cycles != [] {
      var init, c := cycles[..|cycles| - 1], cycles[|cycles| - 1];
      PlannedExactly(m, init);
      if OnPlan(m, cycles) {
        ServedAsPlanned(m, cycles);
      } else if c.newFrame && c.bytesInFrame <= 3 * m {
        RunAtRest(m, init);
        NewFrameExact(m, ServiceRun(m, init).s, c);
      }
      hide SendingInv, StartsOnPlan, SendingStep;
    }
  }

  /** A start of frame in the middle of a packet that stays on plan: one byte of a frame has been
      taken, another is being taken, and the new frame is as long as the old one. */
  lemma ResumedRun(m: nat, bytes: nat)
    requires m >= 3 && 3 <= bytes <= 3 * m
    ensures var cycles := [Cycle(true, bytes, false, false), Cycle(false, 0, true, false),
                           Cycle(false, 0, false, true), Cycle(true, bytes, false, true)];
            var before := ServiceRun(m, cycles[..3]).s;
            before.e.fsm == SEND_DATA && before.current == 1 && OnPlan(m, cycles)
  {
    var cycles := [Cycle(true, bytes, false, false), Cycle(false, 0, true, false),
                   Cycle(false, 0, false, true), Cycle(true, bytes, false, true)];
    var a, b, c := cycles[..1], cycles[..2], cycles[..3];
    assert a[..0] == [] && b[..1] == a && c[..2] == b && cycles[..3] == c;
    assert ServiceRun(m, a) == ServiceStep(m, ServiceRun(m, []), cycles[0]);
    assert ServiceRun(m, b) == ServiceStep(m, ServiceRun(m, a), cycles[1]);
    assert ServiceRun(m, c) == ServiceStep(m, ServiceRun(m, b), cycles[2]);
  }

  /** An unclean start: a request in the clock of the first start of frame is answered with a
      zero-length packet that carries the first PID of the new frame. */
  lemma StaleAnswer(m: nat, bytes: nat)
    requires m >= 1 && 0 < bytes <= 3 * m
    ensures var v := ServiceRun(m, [Cycle(true, bytes, true, false), Cycle(false, 0, false, false)]);
            && v.bytes == bytes && v.s.sent == [Packet(FirstPid(m, bytes), 0)]
            && !Follows(m, bytes, v.s.sent)
  {
    var cycles := [Cycle(true, bytes, true, false), Cycle(false, 0, false, false)];
    assert cycles[..1][..0] == [];
    assert ServiceRun(m, cycles[..1]) == ServiceStep(m, ServiceRun(m, []), cycles[0]);
    assert ServiceRun(m, cycles) == ServiceStep(m, ServiceRun(m, cycles[..1]), cycles[1]);
    var all := DataPackets(m, bytes);
    assert all[0].length == Min(bytes, m) && [Packet(FirstPid(m, bytes), 0)][0].length == 0;
  }

  lemma FreshLength(m: nat, bytes: nat, s: Sending)
    requires m >= 1 && bytes <= 3 * m && SendingInv(m, bytes, s) && s.sent == []
    ensures TotalLength(s.sent) + Unsent(s) == bytes
  {
    var left := Unsent(s);
    DataPacketsExact(m, left);
    DataPacketsExact(m, bytes);
    hide DataPackets;
    assert [] + DataPackets(m, left) == DataPackets(m, left);
  }

  // ----- Outputs -----

  /** A clock's inputs with the byte on offer in it. */
  datatype Offer = Offer(c: Cycle, value: int)

  function CyclesOf(offers: seq<Offer>): (r: seq<Cycle>)
    ensures |r| == |offers|
  {
    seq(|offers|, i requires 0 <= i < |offers| => offers[i].c)
  }

  function OutputsAt(m: nat, offers: seq<Offer>, u: Offer): Outputs
    requires m >= 1
  {
    OutputsOf(ServiceRun(m, CyclesOf(offers)).s.e, u.c, u.value)
  }

  /** The stream as the transmitter reads it off the outputs, over a run. */
  function WatchRun(m: nat, offers: seq<Offer>): Stream
    requires m >= 1
  {
    if offers == [] then Stream([], []) else
      var init, u := offers[..|offers| - 1], offers[|offers| - 1];
      Watch(WatchRun(m, init), OutputsAt(m, init, u), u.c.ready)
  }

  /** The bytes on offer in the clocks with a byte strobe, as the data source counts them. */
  function Strobed(m: nat, offers: seq<Offer>): seq<int>
    requires m >= 1
  {
    if offers == [] then [] else
      var init, u := offers[..|offers| - 1], offers[|offers| - 1];
      Strobed(m, init) + if OutputsAt(m, init, u).byteAdvance then [u.value] else []
  }

  function Joined(packets: seq<WirePacket>): seq<int> {
    if packets == [] then [] else Joined(packets[..|packets| - 1]) + packets[|packets| - 1].payload
  }

  /** The registers that go with the packet under way. */
  ghost predicate Opened(s: Sending) {
    && AtRest(s) && (s.e.first <==> s.e.fsm == SEND_DATA && s.current == 0)
    && (s.e.fsm == SEND_DATA ==> s.e.address == s.current % COUNTER_RANGE)
    && (s.e.fsm == SEND_ZLP ==> s.e.address == 0)
  }

  lemma {:induction false} RunOpened(m: nat, cycles: seq<Cycle>)
    requires m >= 1
    ensures Opened(ServiceRun(m, cycles).s)
  {
    if cycles != [] { RunOpened(m, cycles[..|cycles| - 1]); }
  }

  /** The packets since the newest start of frame are the last ones on the wire, with the PIDs
      and lengths of the endpoint's own account, and everything on the wire is what the data
      source was strobed for. */
  ghost predicate OnTheWire(sent: seq<Packet>, current: nat, w: Stream, strobed: seq<int>) {
    var k := |w.packets| - |sent|;
    && k >= 0 && |w.open| == current && Joined(w.packets) + w.open == strobed
    && forall i :: 0 <= i < |sent| ==> SamePacket(w.packets[k + i], sent[i])
  }

  predicate SamePacket(w: WirePacket, p: Packet) { w.pid == p.pid && |w.payload| == p.length }

  lemma JoinedOneMore(packets: seq<WirePacket>, p: WirePacket)
    ensures Joined(packets + [p]) == Joined(packets) + p.payload
  {
    assert (packets + [p])[..|packets|] == packets;
  }

  lemma WatchStep(m: nat, s: Sending, u: Offer, w: Stream, strobed: seq<int>)
    requires Opened(s) && OnTheWire(s.sent, s.current, w, strobed)
    ensures var o, n := OutputsOf(s.e, u.c, u.value), SendingStep(m, s, u.c);
            OnTheWire(n.sent, n.current, Watch(w, o, u.c.ready),
                      strobed + if o.byteAdvance then [u.value] else [])
  {
    hide Step, Joined, LastByte;
    JoinedOneMore(w.packets, WirePacket(s.e.nextDataPid, w.open + [u.value]));
    JoinedOneMore(w.packets, WirePacket(s.e.nextDataPid, []));
    assert strobed + [] == strobed && Joined(w.packets) + [] == Joined(w.packets);
    assert Joined(w.packets) + w.open + [u.value] == Joined(w.packets) + (w.open + [u.value]);
  }

  /** The stream law, over whole runs from reset and whatever the requests, stalls, starts of frame
      and bytes on offer: the packets the transmitter reads off the outputs since the newest
      start of frame have exactly the PIDs and lengths of `sent`, and the payloads of all
      packets joined are the bytes on offer in the clocks with a byte strobe. */
  lemma {:induction false} StreamExact(m: nat, offers: seq<Offer>)
    requires m >= 1
    ensures var v := ServiceRun(m, CyclesOf(offers));
            OnTheWire(v.s.sent, v.s.current, WatchRun(m, offers), Strobed(m, offers))
  {
    hide OutputsOf, SendingStep, Opened, Watch;
    if offers != [] {
      var init, u := offers[..|offers| - 1], offers[|offers| - 1];
      StreamExact(m, init);
      assert CyclesOf(offers)[..|offers| - 1] == CyclesOf(init);
      RunOpened(m, CyclesOf(init));
      WatchStep(m, ServiceRun(m, CyclesOf(init)).s, u, WatchRun(m, init), Strobed(m, init));
    }
  }

  /** The other outputs, in every clock of every run from reset. The data source's byte is passed
      on; nothing is offered while idle; the packet strobe marks the first byte taken of a packet;
      the next address counts the bytes taken of it; and the end-of-packet flag follows the last. */
  lemma OutputsExact(m: nat, cycles: seq<Cycle>, c: Cycle, value: int)
    requires m >= 1
    ensures var s := ServiceRun(m, cycles).s;
            var o, n := OutputsOf(s.e, c, value), ServiceRun(m, cycles + [c]).s;
            && o.payload == value
            && (!o.valid ==> !o.last && !o.byteAdvance && s.current == 0)
            && (o.sendData <==> c.requested && s.e.bytesLeftInFrame > 0)
            && (o.byteAdvance && !o.last ==> n.current == s.current + 1)
            && (o.packetStrobe <==> o.byteAdvance && s.current == 0)
            && (o.byteAdvance ==> o.nextAddress == (s.current + 1) % 4096)
            && (!o.byteAdvance ==> o.nextAddress == s.current % 4096)
            && n.e.address == o.nextAddress
            && (n.e.endOfNonZlpPacket <==> o.byteAdvance && o.last)
  {
    hide ServiceRun, Opened, SendingStep;
    RunOpened(m, cycles);
    OneMoreClock(m, cycles, c);
    StepOutputs(m, ServiceRun(m, cycles).s, c, value);
  }

  lemma OneMoreClock(m: nat, cycles: seq<Cycle>, c: Cycle)
    requires m >= 1
    ensures ServiceRun(m, cycles + [c]).s.e == SendingStep(m, ServiceRun(m, cycles).s, c).e
    ensures ServiceRun(m, cycles + [c]).s.current == SendingStep(m, ServiceRun(m, cycles).s, c).current
  {
    assert (cycles + [c])[..|cycles|] == cycles;
    hide SendingStep;
  }

  lemma StepOutputs(m: nat, s: Sending, c: Cycle, value: int)
    requires Opened(s)
    ensures var o, n := OutputsOf(s.e, c, value), SendingStep(m, s, c);
            && (!o.valid ==> !o.last && !o.byteAdvance && s.current == 0)
            && (o.byteAdvance && !o.last ==> n.current == s.current + 1)
            && (o.packetStrobe <==> o.byteAdvance && s.current == 0)
            && (o.byteAdvance ==> o.nextAddress == (s.current + 1) % 4096)
            && (!o.byteAdvance ==> o.nextAddress == s.current % 4096)
            && n.e.address == o.nextAddress
            && (n.e.endOfNonZlpPacket <==> o.byteAdvance && o.last)
  {
    hide Decrement, FirstPid, LastByte;
    NextCount(s.current);
  }

  lemma NextCount(n: nat)
    ensures (n % 4096 + 1) % 4096 == (n + 1) % 4096
  {
  }

  /** How requests are answered: while nothing is valid, the next clock begins a data packet if
      data are to be sent, is a zero-length packet if not, and nothing without a request. */
  lemma RequestsAnswered(m: nat, cycles: seq<Cycle>, c: Cycle, value: int, next: Cycle, later: int)
    requires m >= 1 && !OutputsOf(ServiceRun(m, cycles).s.e, c, value).valid
    ensures var o := OutputsOf(ServiceRun(m, cycles).s.e, c, value);
            var p := OutputsOf(ServiceRun(m, cycles + [c]).s.e, next, later);
            && (p.valid <==> c.requested)
            && (c.requested ==>
                  if o.sendData then p.valid && p.first else p.valid && p.last && !p.first && !p.byteAdvance)
  {
    hide ServiceRun, Decrement, FirstPid, LastByte;
    OneMoreClock(m, cycles, c);
  }
}
