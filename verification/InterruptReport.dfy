/** The interrupt report: written byte by byte by the firmware, parsed with a cursor by the host. */
module InterruptReport {

  import opened GrayCode
  import opened Numbers
  import opened Words
  import opened Wrappers

  // ----- Registers -----

  /** One HDLC controller. `data` is what the receive buffer yields for the count in the byte
      count register. */
  datatype HdlcRegisters = HdlcRegisters(dlsr: U8, rdlbcr: U8, data: seq<U8>, ss7sr: U8)

  function ByteCount(rdlbcr: U8): nat { rdlbcr % 128 }

  type Controller = h: HdlcRegisters | |h.data| == ByteCount(h.rdlbcr) witness HdlcRegisters(0, 0, [], 0)

  datatype ChannelRegisters = ChannelRegisters(bisr: U8, rlcisr: seq<U8>, hdlc: seq<Controller>, sbisr: U8,
                                               aeisr: U8, exzsr: U8, ciasr: U8, fisr: U8, rsar: seq<U8>)

  /** Everything the firmware reads from one channel. */
  type Registers = r: ChannelRegisters | |r.rlcisr| == 8 && |r.hdlc| == 3 && |r.rsar| == 24
    witness ChannelRegisters(0, seq(8, i => 0), seq(3, i => HdlcRegisters(0, 0, [], 0)), 0, 0, 0, 0, 0,
                             seq(24, i => 0))

  predicate LbCode(bisr: U8) { bisr / 64 % 2 == 1 }
  predicate RxClkLos(bisr: U8) { bisr / 32 % 2 == 1 }
  predicate Hdlc(bisr: U8) { bisr / 8 % 2 == 1 }
  predicate Slip(bisr: U8) { bisr / 4 % 2 == 1 }
  predicate Alarm(bisr: U8) { bisr / 2 % 2 == 1 }
  predicate T1Frame(bisr: U8) { bisr % 2 == 1 }
  predicate Sig(fisr: U8) { fisr / 32 % 2 == 1 }

  // ----- The firmware's printer -----

  const REPORTED := 0x6F

  function Pack(even: U8, odd: U8): (v: U8)
    ensures v == 16 * (even % 16) + odd % 16
  {
    PackedBits(even, odd);
    Or(even * 16 % 256, And(odd, 0xF))
  }

  lemma PackedBits(even: U8, odd: U8)
    ensures Or(even * 16 % 256, And(odd, 0xF)) == 16 * (even % 16) + odd % 16
  {
    assert Pow2(4) == 16;
    AndOnes(odd, 4);
    OrDisjoint(even % 16, odd % 16, 4);
    hide And, Or, Pow2;
    HighNibble(even);
  }

  lemma HighNibble(even: U8)
    ensures even * 16 % 256 == even % 16 * 16
  {
    assert even * 16 == 256 * (even / 16) + even % 16 * 16;
  }

  function ControllerBytes(h: Controller): seq<U8> { [h.dlsr, h.rdlbcr] + h.data + [h.ss7sr] }

  function HdlcBytes(h: seq<Controller>): seq<U8> {
    if h == [] then [] else HdlcBytes(h[..|h| - 1]) + ControllerBytes(h[|h| - 1])
  }

  /** Two timeslots' signalling per byte. */
  function Packed(rsar: seq<U8>): seq<U8>
    requires |rsar| % 2 == 0
  {
    seq(|rsar| / 2, i requires 0 <= i < |rsar| / 2 => Pack(rsar[2 * i], rsar[2 * i + 1]))
  }

  function LoopbackSection(r: Registers): seq<U8> { if LbCode(r.bisr) then r.rlcisr else [] }

  function HdlcSection(r: Registers): seq<U8> { if Hdlc(r.bisr) then HdlcBytes(r.hdlc) else [] }

  function SlipSection(r: Registers): seq<U8> { if Slip(r.bisr) then [r.sbisr] else [] }

  function AlarmSection(r: Registers): seq<U8> { if Alarm(r.bisr) then [r.aeisr, r.exzsr, r.ciasr] else [] }

  function FrameSection(r: Registers): seq<U8> {
    if !T1Frame(r.bisr) then []
    else [r.fisr] + if Sig(r.fisr) then Packed(r.rsar) else []
  }

  function Sections(r: Registers): seq<U8> {
    LoopbackSection(r) + HdlcSection(r) + SlipSection(r) + AlarmSection(r) + FrameSection(r)
  }

  /** The report of one channel; nothing is sent for a one-second interrupt alone. */
  function Report(channel: U8, r: Registers): seq<U8> {
    if And(r.bisr, REPORTED) == 0 then [] else [channel, r.bisr] + Sections(r)
  }

  class InEndpoint {
    var fifo: seq<U8>

    constructor ()
      ensures fifo == []
    {
      fifo := [];
    }

    method WriteFifo(b: U8)
      modifies this
      ensures fifo == old(fifo) + [b]
    {
      fifo := fifo + [b];
    }

    method WriteController(h: Controller)
      modifies this
      ensures fifo == old(fifo) + ControllerBytes(h)
    {
      WriteFifo(h.dlsr);
      WriteFifo(h.rdlbcr);
      for i := 0 to ByteCount(h.rdlbcr)
        invariant fifo == old(fifo) + [h.dlsr, h.rdlbcr] + h.data[..i]
      {
        WriteFifo(h.data[i]);
      }
      WriteFifo(h.ss7sr);
    }

    method WriteSignaling(rsar: seq<U8>)
      requires |rsar| == 24
      modifies this
      ensures fifo == old(fifo) + Packed(rsar)
    {
      for i := 0 to 12
        invariant fifo == old(fifo) + Packed(rsar)[..i]
      {
        WriteFifo(Pack(rsar[2 * i], rsar[2 * i + 1]));
      }
    }

    method WriteLoopback(r: Registers)
      modifies this
      ensures fifo == old(fifo) + LoopbackSection(r)
    {
      if LbCode(r.bisr) {
        for i := 0 to 8
          invariant fifo == old(fifo) + r.rlcisr[..i]
        {
          WriteFifo(r.rlcisr[i]);
        }
      }
    }

    method WriteHdlc(r: Registers)
      modifies this
      ensures fifo == old(fifo) + HdlcSection(r)
    {
      hide ControllerBytes;
      if Hdlc(r.bisr) {
        for i := 0 to 3
          invariant fifo == old(fifo) + HdlcBytes(r.hdlc[..i])
        {
          WriteController(r.hdlc[i]);
          assert r.hdlc[..i + 1][..i] == r.hdlc[..i];
        }
        assert r.hdlc[..3] == r.hdlc;
      }
    }

    method WriteSlipAndAlarm(r: Registers)
      modifies this
      ensures fifo == old(fifo) + SlipSection(r) + AlarmSection(r)
    {
      if Slip(r.bisr) {
        WriteFifo(r.sbisr);
      }
      if Alarm(r.bisr) {
        WriteFifo(r.aeisr);
        WriteFifo(r.exzsr);
        WriteFifo(r.ciasr);
      }
    }

    method WriteFrame(r: Registers)
      modifies this
      ensures fifo == old(fifo) + FrameSection(r)
    {
      hide Packed;
      if T1Frame(r.bisr) {
        WriteFifo(r.fisr);
        if Sig(r.fisr) {
          WriteSignaling(r.rsar);
        }
      }
    }

    /** The main loop's report for one channel, register by register. */
    method WriteReport(channel: U8, r: Registers)
      modifies this
      ensures fifo == old(fifo) + Report(channel, r)
    {
      hide LoopbackSection, HdlcSection, SlipSection, AlarmSection, FrameSection, And;
      if And(r.bisr, REPORTED) != 0 {
        WriteFifo(channel);
        WriteFifo(r.bisr);
        WriteLoopback(r);
        WriteHdlc(r);
        WriteSlipAndAlarm(r);
        WriteFrame(r);
        assert fifo == old(fifo) + ([channel, r.bisr] + Sections(r));
      }
    }
  }

  // ----- The host's parser -----

  datatype Parsed<T> = Parsed(value: T, rest: seq<U8>)

  function Zeros(n: nat): (z: seq<U8>)
    ensures |z| == n
  {
    seq(n, i => 0)
  }

  /** A read into a zeroed buffer: short at the end of the data, never failing. */
  function ReadBytes(b: seq<U8>, n: nat): (p: Parsed<seq<U8>>)
    ensures |p.value| == n
  {
    var k := Min(n, |b|);
    Parsed(b[..k] + Zeros(n - k), b[k..])
  }

  datatype ControllerStatus = ControllerStatus(dlsr: U8, rdlbcr: U8, data: seq<U8>, ss7sr: U8)
  datatype AlarmStatus = AlarmStatus(aeisr: U8, exzsr: U8, ciasr: U8)
  datatype T1FrameStatus = T1FrameStatus(fisr: U8, sig: Option<seq<U8>>)
  datatype InterruptStatus =
    InterruptStatus(channel: U8, bisr: U8, lbcode: Option<seq<U8>>, hdlc: Option<seq<ControllerStatus>>,
                    slip: Option<U8>, alarm: Option<AlarmStatus>, t1frame: Option<T1FrameStatus>)

  function ParseController(b: seq<U8>): Parsed<ControllerStatus> {
    var dlsr := ReadBytes(b, 1);
    var rdlbcr := ReadBytes(dlsr.rest, 1);
    var data := ReadBytes(rdlbcr.rest, ByteCount(rdlbcr.value[0]));
    var ss7sr := ReadBytes(data.rest, 1);
    Parsed(ControllerStatus(dlsr.value[0], rdlbcr.value[0], data.value, ss7sr.value[0]), ss7sr.rest)
  }

  function ParseHdlc(b: seq<U8>): Parsed<seq<ControllerStatus>> {
    var x := ParseController(b);
    var y := ParseController(x.rest);
    var z := ParseController(y.rest);
    Parsed([x.value, y.value, z.value], z.rest)
  }

  function ParseAlarm(b: seq<U8>): Parsed<AlarmStatus> {
    var p := ReadBytes(b, 3);
    Parsed(AlarmStatus(p.value[0], p.value[1], p.value[2]), p.rest)
  }

  /** Two nibbles per byte, high one first. */
  function Unpacked(v: seq<U8>): seq<U8> {
    seq(2 * |v|, i requires 0 <= i < 2 * |v| => if i % 2 == 0 then v[i / 2] / 16 else v[i / 2] % 16)
  }

  function ParseFrame(b: seq<U8>): Parsed<T1FrameStatus> {
    var fisr := ReadBytes(b, 1);
    if Sig(fisr.value[0]) then
      var sig := ReadBytes(fisr.rest, 12);
      Parsed(T1FrameStatus(fisr.value[0], Some(Unpacked(sig.value))), sig.rest)
    else
      Parsed(T1FrameStatus(fisr.value[0], None), fisr.rest)
  }

  function Lift<T>(p: Parsed<T>): Parsed<Option<T>> { Parsed(Some(p.value), p.rest) }

  function Absent<T>(b: seq<U8>): Parsed<Option<T>> { Parsed(None, b) }

  function ParseLoopback(bisr: U8, b: seq<U8>): Parsed<Option<seq<U8>>> {
    if LbCode(bisr) then Lift(ReadBytes(b, 8)) else Absent(b)
  }

  function ParseHdlcSection(bisr: U8, b: seq<U8>): Parsed<Option<seq<ControllerStatus>>> {
    if Hdlc(bisr) then Lift(ParseHdlc(b)) else Absent(b)
  }

  function ParseSlip(bisr: U8, b: seq<U8>): Parsed<Option<U8>> {
    if !Slip(bisr) then Absent(b)
    else
      var sbisr := ReadBytes(b, 1);
      Parsed(Some(sbisr.value[0]), sbisr.rest)
  }

  function ParseAlarmSection(bisr: U8, b: seq<U8>): Parsed<Option<AlarmStatus>> {
    if Alarm(bisr) then Lift(ParseAlarm(b)) else Absent(b)
  }

  function ParseFrameSection(bisr: U8, b: seq<U8>): Parsed<Option<T1FrameStatus>> {
    if T1Frame(bisr) then Lift(ParseFrame(b)) else Absent(b)
  }

  function ParseSections(channel: U8, bisr: U8, b: seq<U8>): Parsed<InterruptStatus> {
    var lbcode := ParseLoopback(bisr, b);
    var hdlc := ParseHdlcSection(bisr, lbcode.rest);
    var slip := ParseSlip(bisr, hdlc.rest);
    var alarm := ParseAlarmSection(bisr, slip.rest);
    var t1frame := ParseFrameSection(bisr, alarm.rest);
    Parsed(InterruptStatus(channel, bisr, lbcode.value, hdlc.value, slip.value, alarm.value, t1frame.value),
           t1frame.rest)
  }

  function Parse(b: seq<U8>): Parsed<InterruptStatus> {
    var channel := ReadBytes(b, 1);
    var bisr := ReadBytes(channel.rest, 1);
    ParseSections(channel.value[0], bisr.value[0], bisr.rest)
  }

  method Unpack(buffer: seq<U8>) returns (rsars: seq<U8>)
    ensures rsars == Unpacked(buffer)
  {
    rsars := Zeros(2 * |buffer|);
    for i := 0 to |buffer|
      invariant |rsars| == 2 * |buffer|
      invariant forall k :: 0 <= k < 2 * i ==> rsars[k] == Unpacked(buffer)[k]
    {
      LowBits(buffer[i]);
      rsars := rsars[i * 2 := buffer[i] / 16];
      rsars := rsars[i * 2 + 1 := And(buffer[i], 15)];
      assert Unpacked(buffer)[2 * i] == buffer[i] / 16 && Unpacked(buffer)[2 * i + 1] == buffer[i] % 16;
    }
  }

  lemma LowBits(v: U8)
    ensures And(v, 15) == v % 16
  {
    AndOnes(v, 4);
    assert Pow2(4) == 16;
  }

  class Cursor {
    const bytes: seq<U8>
    var position: nat

    constructor (bytes: seq<U8>)
      ensures this.bytes == bytes && position == 0
    {
      this.bytes, position := bytes, 0;
    }

    predicate Valid()
      reads this
    {
      position <= |bytes|
    }

    function Remaining(): seq<U8>
      requires Valid()
      reads this
    {
      bytes[position..]
    }

    method Read(n: nat) returns (buffer: seq<U8>)
      requires Valid()
      modifies this
      ensures Valid() && Parsed(buffer, Remaining()) == ReadBytes(old(Remaining()), n)
    {
      var k := Min(n, |bytes| - position);
      buffer := bytes[position..position + k] + Zeros(n - k);
      assert bytes[position..position + k] == Remaining()[..k] && bytes[position + k..] == Remaining()[k..];
      position := position + k;
    }

    method ReadController() returns (s: ControllerStatus)
      requires Valid()
      modifies this
      ensures Valid() && Parsed(s, Remaining()) == ParseController(old(Remaining()))
    {
      var dlsr := Read(1);
      var rdlbcr := Read(1);
      var data := Read(ByteCount(rdlbcr[0]));
      var ss7sr := Read(1);
      s := ControllerStatus(dlsr[0], rdlbcr[0], data, ss7sr[0]);
    }

    method ReadFrame() returns (s: T1FrameStatus)
      requires Valid()
      modifies this
      ensures Valid() && Parsed(s, Remaining()) == ParseFrame(old(Remaining()))
    {
      var fisr := Read(1);
      if !Sig(fisr[0]) { return T1FrameStatus(fisr[0], None); }
      var buffer := Read(12);
      var rsars := Unpack(buffer);
      s := T1FrameStatus(fisr[0], Some(rsars));
    }

    method FromRead() returns (s: InterruptStatus)
      requires Valid()
      modifies this
      ensures Valid() && Parsed(s, Remaining()) == Parse(old(Remaining()))
    {
      hide ParseController, ParseFrame, ReadBytes;
      var channel := Read(1);
      var head := Read(1);
      var bisr := head[0];
      var lbcode, hdlc, slip, alarm, t1frame := None, None, None, None, None;
      if LbCode(bisr) {
        var rlcisrs := Read(8);
        lbcode := Some(rlcisrs);
      }
      if Hdlc(bisr) {
        var x := ReadController();
        var y := ReadController();
        var z := ReadController();
        hdlc := Some([x, y, z]);
      }
      if Slip(bisr) {
        var sbisr := Read(1);
        slip := Some(sbisr[0]);
      }
      if Alarm(bisr) {
        var buffer := Read(3);
        alarm := Some(AlarmStatus(buffer[0], buffer[1], buffer[2]));
      }
      if T1Frame(bisr) {
        var frame := ReadFrame();
        t1frame := Some(frame);
      }
      s := InterruptStatus(channel[0], bisr, lbcode, hdlc, slip, alarm, t1frame);
    }
  }

  /** Parses a whole transfer. `consumed` says whether the closing assertion holds. */
  method FromSlice(b: seq<U8>) returns (s: InterruptStatus, consumed: bool)
    ensures s == Parse(b).value && (consumed <==> Parse(b).rest == [])
  {
    var r := new Cursor(b);
    s := r.FromRead();
    consumed := |b| == r.position;
  }
}

/** The printer and the parser are inverse, and short transfers parse as if padded with zeros. */
module InterruptReportLaws {

  import opened InterruptReport
  import opened Words
  import opened Wrappers

  // ----- Which interrupts are reported -----

  function Least(a: nat, b: nat): nat { if a % 2 == 1 && b % 2 == 1 then 1 else 0 }

  lemma AndUnfold(a: nat, b: nat)
    ensures And(a, b) == Least(a, b) + 2 * And(a / 2, b / 2)
    ensures b == 0 ==> And(a, b) == 0
  {
  }

  lemma HalvesOf(v: U8)
    ensures v / 2 / 2 == v / 4 && v / 4 / 2 == v / 8 && v / 8 / 2 == v / 16 && v / 16 / 2 == v / 32
    ensures v / 32 / 2 == v / 64
  {
  }

  lemma PendingBits(v: U8)
    ensures LbCode(v) || RxClkLos(v) || Hdlc(v) || Slip(v) || Alarm(v) || T1Frame(v) <==> v % 16 != 0 || v / 32 % 4 != 0
  {
    HalvesOf(v);
    TwoBits(v);
    TwoBits(v / 4);
    TwoBits(v / 32);
    FourBits(v);
  }

  lemma TwoBits(x: nat)
    ensures x % 4 != 0 <==> x % 2 == 1 || x / 2 % 2 == 1
  {
  }

  lemma FourBits(x: nat)
    ensures x % 16 != 0 <==> x % 4 != 0 || x / 4 % 4 != 0
  {
  }

  /** A report is sent exactly when some interrupt other than the one-second tick is pending. */
  lemma ReportedExactly(channel: U8, r: Registers)
    ensures Report(channel, r) != []
       <==> LbCode(r.bisr) || RxClkLos(r.bisr) || Hdlc(r.bisr) || Slip(r.bisr) || Alarm(r.bisr) || T1Frame(r.bisr)
    ensures Report(channel, r) != [] <==> r.bisr % 16 != 0 || r.bisr / 32 % 4 != 0
  {
    PendingBits(r.bisr);
    hide And, Sections;
    var v := r.bisr;
    assert Report(channel, r) != [] <==> And(v, 0x6F) != 0;
    hide Report;
    HalvesOf(v);
    AndUnfold(v, 0x6F);
    AndUnfold(v / 2, 0x37);
    AndUnfold(v / 4, 0x1B);
    AndUnfold(v / 8, 0xD);
    AndUnfold(v / 16, 6);
    AndUnfold(v / 32, 3);
    AndUnfold(v / 64, 1);
    AndUnfold(v / 64 / 2, 0);
  }

  // ----- Round trip -----

  lemma ReadExact(x: seq<U8>, tail: seq<U8>)
    ensures ReadBytes(x + tail, |x|) == Parsed(x, tail)
  {
    assert (x + tail)[..|x|] + Zeros(0) == x && (x + tail)[|x|..] == tail;
  }

  function StatusOf(h: Controller): ControllerStatus { ControllerStatus(h.dlsr, h.rdlbcr, h.data, h.ss7sr) }

  lemma ControllerRoundTrip(h: Controller, tail: seq<U8>)
    ensures ParseController(ControllerBytes(h) + tail) == Parsed(StatusOf(h), tail)
  {
    var last := [h.ss7sr] + tail;
    assert ControllerBytes(h) + tail == [h.dlsr] + ([h.rdlbcr] + (h.data + last));
    hide ReadBytes;
    ReadExact([h.dlsr], [h.rdlbcr] + (h.data + last));
    ReadExact([h.rdlbcr], h.data + last);
    ReadExact(h.data, last);
    ReadExact([h.ss7sr], tail);
  }

  lemma HdlcRoundTrip(h: seq<Controller>, tail: seq<U8>)
    requires |h| == 3
    ensures ParseHdlc(HdlcBytes(h) + tail) == Parsed([StatusOf(h[0]), StatusOf(h[1]), StatusOf(h[2])], tail)
  {
    var x, y, z := ControllerBytes(h[0]), ControllerBytes(h[1]), ControllerBytes(h[2]);
    assert h[..2][..1][..0] == [] && h[..2][..1][0] == h[0] && h[..2][1] == h[1];
    assert HdlcBytes(h[..2][..1]) == HdlcBytes(h[..2][..1][..0]) + x;
    assert HdlcBytes(h[..2]) == HdlcBytes(h[..2][..1]) + y;
    assert HdlcBytes(h) == HdlcBytes(h[..2]) + z;
    assert HdlcBytes(h) + tail == x + (y + (z + tail));
    hide ControllerBytes, ParseController;
    ControllerRoundTrip(h[0], y + (z + tail));
    ControllerRoundTrip(h[1], z + tail);
    ControllerRoundTrip(h[2], tail);
  }

  function LowNibbles(rsar: seq<U8>): seq<U8> {
    seq(|rsar|, i requires 0 <= i < |rsar| => rsar[i] % 16)
  }

  lemma PackInverse(rsar: seq<U8>)
    requires |rsar| % 2 == 0
    ensures Unpacked(Packed(rsar)) == LowNibbles(rsar)
  {
    hide Pack;
    var u := Unpacked(Packed(rsar));
    forall i | 0 <= i < |rsar| ensures u[i] == rsar[i] % 16 {
      NibbleInverse(rsar[2 * (i / 2)], rsar[2 * (i / 2) + 1]);
    }
  }

  lemma NibbleInverse(even: U8, odd: U8)
    ensures Pack(even, odd) / 16 == even % 16 && Pack(even, odd) % 16 == odd % 16
  {
  }

  /** What the host should make of the registers. */
  function Expected(channel: U8, r: Registers): InterruptStatus {
    InterruptStatus(channel, r.bisr,
                    if LbCode(r.bisr) then Some(r.rlcisr) else None,
                    if Hdlc(r.bisr)
                    then Some([StatusOf(r.hdlc[0]), StatusOf(r.hdlc[1]), StatusOf(r.hdlc[2])]) else None,
                    if Slip(r.bisr) then Some(r.sbisr) else None,
                    if Alarm(r.bisr) then Some(AlarmStatus(r.aeisr, r.exzsr, r.ciasr)) else None,
                    if T1Frame(r.bisr) then Some(ExpectedFrame(r)) else None)
  }

  function ExpectedFrame(r: Registers): T1FrameStatus {
    T1FrameStatus(r.fisr, if Sig(r.fisr) then Some(LowNibbles(r.rsar)) else None)
  }

  lemma SmallSectionsRoundTrip(r: Registers, tail: seq<U8>)
    ensures ParseLoopback(r.bisr, LoopbackSection(r) + tail)
         == Parsed(if LbCode(r.bisr) then Some(r.rlcisr) else None, tail)
    ensures ParseSlip(r.bisr, SlipSection(r) + tail) == Parsed(if Slip(r.bisr) then Some(r.sbisr) else None, tail)
    ensures ParseAlarmSection(r.bisr, AlarmSection(r) + tail)
         == Parsed(if Alarm(r.bisr) then Some(AlarmStatus(r.aeisr, r.exzsr, r.ciasr)) else None, tail)
  {
    hide ReadBytes, LbCode, Slip, Alarm;
    ReadExact(r.rlcisr, tail);
    ReadExact([r.sbisr], tail);
    ReadExact([r.aeisr, r.exzsr, r.ciasr], tail);
    assert [] + tail == tail;
  }

  lemma HdlcSectionRoundTrip(r: Registers, tail: seq<U8>)
    ensures ParseHdlcSection(r.bisr, HdlcSection(r) + tail)
         == Parsed(if Hdlc(r.bisr) then Some([StatusOf(r.hdlc[0]), StatusOf(r.hdlc[1]), StatusOf(r.hdlc[2])]) else None,
                   tail)
  {
    hide ParseHdlc, HdlcBytes, Hdlc;
    HdlcRoundTrip(r.hdlc, tail);
    assert [] + tail == tail;
  }

  lemma FrameSectionRoundTrip(r: Registers, tail: seq<U8>)
    ensures ParseFrameSection(r.bisr, FrameSection(r) + tail)
         == Parsed(if T1Frame(r.bisr) then Some(ExpectedFrame(r)) else None, tail)
  {
    hide ReadBytes, Packed, LowNibbles, Unpacked, T1Frame, Sig;
    var sig := if Sig(r.fisr) then Packed(r.rsar) else [];
    assert [] + tail == tail;
    assert [r.fisr] + sig + tail == [r.fisr] + (sig + tail);
    ReadExact([r.fisr], sig + tail);
    ReadExact(Packed(r.rsar), tail);
    PackInverse(r.rsar);
    PackedLength(r.rsar);
  }

  lemma Regroup(a: seq<U8>, b: seq<U8>, c: seq<U8>, d: seq<U8>, e: seq<U8>, tail: seq<U8>)
    ensures a + b + c + d + e + tail == a + (b + (c + (d + (e + tail))))
  {
  }

  lemma Headed(x: U8, y: U8, s: seq<U8>, tail: seq<U8>)
    ensures [x, y] + s + tail == [x] + ([y] + (s + tail))
  {
  }

  /** For every channel, register contents and HDLC payloads: the host recovers every field the
      firmware sent, signalling registers up to their low nibble, and stops exactly at the end
      of the report. */
  lemma RoundTrip(channel: U8, r: Registers, tail: seq<U8>)
    requires Report(channel, r) != []
    ensures Parse(Report(channel, r) + tail) == Parsed(Expected(channel, r), tail)
  {
    var e := FrameSection(r) + tail;
    var d := AlarmSection(r) + e;
    var c := SlipSection(r) + d;
    var b := HdlcSection(r) + c;
    var a := LoopbackSection(r) + b;
    hide LoopbackSection, HdlcSection, SlipSection, AlarmSection, FrameSection, And;
    Regroup(LoopbackSection(r), HdlcSection(r), SlipSection(r), AlarmSection(r), FrameSection(r), tail);
    Headed(channel, r.bisr, Sections(r), tail);
    assert Report(channel, r) + tail == [channel] + ([r.bisr] + (Sections(r) + tail));
    hide ParseLoopback, ParseHdlcSection, ParseSlip, ParseAlarmSection, ParseFrameSection, Sections, ReadBytes, Report;
    ReadExact([channel], [r.bisr] + a);
    ReadExact([r.bisr], a);
    SmallSectionsRoundTrip(r, b);
    HdlcSectionRoundTrip(r, c);
    SmallSectionsRoundTrip(r, d);
    SmallSectionsRoundTrip(r, e);
    FrameSectionRoundTrip(r, tail);
  }

  // ----- Layout -----

  /** What is found at `k`. */
  predicate At(b: seq<U8>, k: int, part: seq<U8>) {
    0 <= k && k + |part| <= |b| && b[k..k + |part|] == part
  }

  /** Three controllers' bytes. */
  lemma ControllersLaidOut(h: seq<Controller>)
    requires |h| == 3
    ensures var b, n0, n1, n2 := HdlcBytes(h), h[0].rdlbcr % 128, h[1].rdlbcr % 128, h[2].rdlbcr % 128;
            && |b| == 9 + n0 + n1 + n2
            && At(b, 0, [h[0].dlsr, h[0].rdlbcr]) && At(b, 2, h[0].data)
            && At(b, 2 + n0, [h[0].ss7sr, h[1].dlsr, h[1].rdlbcr]) && At(b, 5 + n0, h[1].data)
            && At(b, 5 + n0 + n1, [h[1].ss7sr, h[2].dlsr, h[2].rdlbcr]) && At(b, 8 + n0 + n1, h[2].data)
            && At(b, 8 + n0 + n1 + n2, [h[2].ss7sr])
  {
    var x, y, z := h[0], h[1], h[2];
    HdlcJoined(h);
    var b := [x.dlsr, x.rdlbcr] + x.data + [x.ss7sr, y.dlsr, y.rdlbcr] + y.data + [y.ss7sr, z.dlsr, z.rdlbcr] + z.data
             + [z.ss7sr];
    assert HdlcBytes(h) == b;
    hide HdlcBytes, ControllerBytes;
    SevenParts(b, [x.dlsr, x.rdlbcr], x.data, [x.ss7sr, y.dlsr, y.rdlbcr], y.data, [y.ss7sr, z.dlsr, z.rdlbcr], z.data,
               [z.ss7sr]);
    hide At;
  }

  lemma SevenParts(b: seq<U8>, x0: seq<U8>, x1: seq<U8>, x2: seq<U8>, x3: seq<U8>, x4: seq<U8>, x5: seq<U8>,
                   x6: seq<U8>)
    requires b == x0 + x1 + x2 + x3 + x4 + x5 + x6
    ensures At(b, 0, x0) && At(b, |x0|, x1) && At(b, |x0| + |x1|, x2) && At(b, |x0| + |x1| + |x2|, x3)
    ensures At(b, |x0| + |x1| + |x2| + |x3|, x4) && At(b, |x0| + |x1| + |x2| + |x3| + |x4|, x5)
    ensures At(b, |x0| + |x1| + |x2| + |x3| + |x4| + |x5|, x6)
  {
    SixParts(b, x0, x1, x2, x3, x4, x5 + x6);
    assert b == x0 + x1 + x2 + x3 + x4 + (x5 + x6);
  }

  lemma HdlcJoined(h: seq<Controller>)
    requires |h| == 3
    ensures HdlcBytes(h) == ControllerBytes(h[0]) + ControllerBytes(h[1]) + ControllerBytes(h[2])
  {
    assert h[..2][..1][..0] == [] && h[..2][..1][0] == h[0] && h[..2][1] == h[1];
    assert HdlcBytes(h[..2][..1]) == HdlcBytes(h[..2][..1][..0]) + ControllerBytes(h[0]);
    assert HdlcBytes(h[..2]) == HdlcBytes(h[..2][..1]) + ControllerBytes(h[1]);
  }

  /** Where the sections of a report begin, by the bits of its second byte. */
  function HdlcAt(r: Registers): int { 2 + 8 * (r.bisr / 64 % 2) }
  function SlipAt(r: Registers): int {
    HdlcAt(r) + if r.bisr / 8 % 2 == 1 then 9 + r.hdlc[0].rdlbcr % 128 + r.hdlc[1].rdlbcr % 128
                                            + r.hdlc[2].rdlbcr % 128 else 0
  }
  function AlarmAt(r: Registers): int { SlipAt(r) + r.bisr / 4 % 2 }
  function FrameAt(r: Registers): int { AlarmAt(r) + 3 * (r.bisr / 2 % 2) }

  /** The bytes of the signalling registers: the even timeslot's nibble high, the odd one's low. */
  predicate NibblesAt(b: seq<U8>, k: int, rsar: seq<U8>)
    requires |rsar| == 24
  {
    0 <= k && k + 12 <= |b| && forall i :: 0 <= i < 12 ==> b[k + i] == 16 * (rsar[2 * i] % 16) + rsar[2 * i + 1] % 16
  }

  /** What is where in a report, bit by bit and byte by byte. */
  ghost predicate LaidOut(b: seq<U8>, channel: U8, r: Registers) {
    var v, h := r.bisr, r.hdlc;
    && At(b, 0, [channel, v])
    && (v / 64 % 2 == 1 ==> At(b, 2, r.rlcisr))
    && (v / 8 % 2 == 1 ==> At(b, HdlcAt(r), HdlcBytes(h)))
    && (v / 4 % 2 == 1 ==> At(b, SlipAt(r), [r.sbisr]))
    && (v / 2 % 2 == 1 ==> At(b, AlarmAt(r), [r.aeisr, r.exzsr, r.ciasr]))
    && (v % 2 == 1 ==> At(b, FrameAt(r), [r.fisr]))
    && (v % 2 == 1 && r.fisr / 32 % 2 == 1 ==> NibblesAt(b, FrameAt(r) + 1, r.rsar))
    && |b| == FrameAt(r) + if v % 2 == 0 then 0 else if r.fisr / 32 % 2 == 1 then 13 else 1
  }

  /** The layout of every report, with `ControllersLaidOut` for its HDLC section. */
  lemma ReportLayout(channel: U8, r: Registers)
    requires Report(channel, r) != []
    ensures LaidOut(Report(channel, r), channel, r)
  {
    hide *;
    ReportParts(channel, r);
    SectionPlaces(r);
    PackedLength(r.rsar);
    NibblesPacked(r);
    Assembled(Report(channel, r), channel, r);
  }

  lemma ReportParts(channel: U8, r: Registers)
    requires Report(channel, r) != []
    ensures Report(channel, r)
         == [channel, r.bisr] + LoopbackSection(r) + HdlcSection(r) + SlipSection(r) + AlarmSection(r) + FrameSection(r)
  {
    hide LoopbackSection, HdlcSection, SlipSection, AlarmSection, FrameSection, And;
  }

  lemma Assembled(b: seq<U8>, channel: U8, r: Registers)
    requires b == [channel, r.bisr] + LoopbackSection(r) + HdlcSection(r) + SlipSection(r) + AlarmSection(r)
                  + FrameSection(r)
    requires HdlcAt(r) == 2 + |LoopbackSection(r)| && SlipAt(r) == HdlcAt(r) + |HdlcSection(r)|
    requires AlarmAt(r) == SlipAt(r) + |SlipSection(r)| && FrameAt(r) == AlarmAt(r) + |AlarmSection(r)|
    requires NibblesAt(Packed(r.rsar), 0, r.rsar) && |Packed(r.rsar)| == 12
    ensures LaidOut(b, channel, r)
  {
    hide HdlcBytes, Packed, At, NibblesAt, LoopbackSection, HdlcSection, SlipSection, AlarmSection, FrameSection,
         HdlcAt, SlipAt, AlarmAt, FrameAt;
    SectionsAre(r);
    SixParts(b, [channel, r.bisr], LoopbackSection(r), HdlcSection(r), SlipSection(r), AlarmSection(r),
             FrameSection(r));
    FrameParts(b, FrameAt(r), r);
  }

  lemma SectionPlaces(r: Registers)
    ensures HdlcAt(r) == 2 + |LoopbackSection(r)| && SlipAt(r) == HdlcAt(r) + |HdlcSection(r)|
    ensures AlarmAt(r) == SlipAt(r) + |SlipSection(r)| && FrameAt(r) == AlarmAt(r) + |AlarmSection(r)|
  {
    ControllersLaidOut(r.hdlc);
    hide HdlcBytes, At;
  }

  lemma SixParts(b: seq<U8>, x0: seq<U8>, x1: seq<U8>, x2: seq<U8>, x3: seq<U8>, x4: seq<U8>, x5: seq<U8>)
    requires b == x0 + x1 + x2 + x3 + x4 + x5
    ensures At(b, 0, x0) && At(b, |x0|, x1) && At(b, |x0| + |x1|, x2) && At(b, |x0| + |x1| + |x2|, x3)
    ensures At(b, |x0| + |x1| + |x2| + |x3|, x4) && At(b, |x0| + |x1| + |x2| + |x3| + |x4|, x5)
  {
  }

  lemma SectionsAre(r: Registers)
    ensures r.bisr / 64 % 2 == 1 ==> LoopbackSection(r) == r.rlcisr
    ensures HdlcSection(r) == if r.bisr / 8 % 2 == 1 then HdlcBytes(r.hdlc) else []
    ensures r.bisr / 4 % 2 == 1 ==> SlipSection(r) == [r.sbisr]
    ensures r.bisr / 2 % 2 == 1 ==> AlarmSection(r) == [r.aeisr, r.exzsr, r.ciasr]
  {
  }

  lemma NibblesPacked(r: Registers)
    ensures NibblesAt(Packed(r.rsar), 0, r.rsar)
  {
  }

  lemma FrameParts(b: seq<U8>, k: int, r: Registers)
    requires At(b, k, FrameSection(r)) && NibblesAt(Packed(r.rsar), 0, r.rsar) && |Packed(r.rsar)| == 12
    ensures r.bisr % 2 == 1 ==> At(b, k, [r.fisr])
    ensures r.bisr % 2 == 1 && r.fisr / 32 % 2 == 1 ==> NibblesAt(b, k + 1, r.rsar)
    ensures |FrameSection(r)| == if r.bisr % 2 == 0 then 0 else if r.fisr / 32 % 2 == 1 then 13 else 1
  {
    hide Packed;
    var s := FrameSection(r);
    Elements(b, k, s);
    if r.bisr % 2 == 1 {
      assert b[k..k + 1] == [b[k + 0]];
      if r.fisr / 32 % 2 == 1 {
        forall i | 0 <= i < 12 ensures b[k + 1 + i] == 16 * (r.rsar[2 * i] % 16) + r.rsar[2 * i + 1] % 16 {
          assert b[k + (1 + i)] == s[1 + i] == Packed(r.rsar)[0 + i];
        }
      }
    }
  }

  lemma Elements(b: seq<U8>, k: int, s: seq<U8>)
    requires At(b, k, s)
    ensures forall i :: 0 <= i < |s| ==> b[k + i] == s[i]
  {
    forall i | 0 <= i < |s| ensures b[k + i] == s[i] { assert b[k..k + |s|][i] == b[k + i]; }
  }

  // ----- Length -----

  const INTERRUPT_BYTES_MAX := 256

  function HdlcCount(r: Registers): nat {
    ByteCount(r.hdlc[0].rdlbcr) + ByteCount(r.hdlc[1].rdlbcr) + ByteCount(r.hdlc[2].rdlbcr)
  }

  lemma ReportLength(channel: U8, r: Registers)
    requires Report(channel, r) != []
    ensures |Report(channel, r)|
         == 2 + (if LbCode(r.bisr) then 8 else 0) + (if Hdlc(r.bisr) then 9 + HdlcCount(r) else 0)
            + (if Slip(r.bisr) then 1 else 0) + (if Alarm(r.bisr) then 3 else 0)
            + (if T1Frame(r.bisr) then (if Sig(r.fisr) then 13 else 1) else 0)
  {
    hide And, LbCode, Hdlc, Slip, Alarm, T1Frame, Sig;
    HdlcLength(r.hdlc);
    PackedLength(r.rsar);
    hide HdlcBytes, Packed;
  }

  lemma PackedLength(rsar: seq<U8>)
    requires |rsar| == 24
    ensures |Packed(rsar)| == 12
  {
  }

  lemma HdlcLength(h: seq<Controller>)
    requires |h| == 3
    ensures |HdlcBytes(h)| == 9 + ByteCount(h[0].rdlbcr) + ByteCount(h[1].rdlbcr) + ByteCount(h[2].rdlbcr)
  {
    assert h[..2][..1][..0] == [] && h[..2][..1][0] == h[0] && h[..2][1] == h[1];
    assert HdlcBytes(h[..2][..1]) == HdlcBytes(h[..2][..1][..0]) + ControllerBytes(h[0]);
    assert HdlcBytes(h[..2]) == HdlcBytes(h[..2][..1]) + ControllerBytes(h[1]);
    assert HdlcBytes(h) == HdlcBytes(h[..2]) + ControllerBytes(h[2]);
  }

  /** Bytes of a report apart from HDLC payloads. */
  function Overhead(r: Registers): nat {
    2 + (if LbCode(r.bisr) then 8 else 0) + (if Hdlc(r.bisr) then 9 else 0) + (if Slip(r.bisr) then 1 else 0)
    + (if Alarm(r.bisr) then 3 else 0) + (if T1Frame(r.bisr) then (if Sig(r.fisr) then 13 else 1) else 0)
  }

  /** Which reports the host's transfer buffer holds: all without an HDLC section, and one with it
      exactly if its HDLC bytes fit into what the other sections leave. */
  lemma ReportFits(channel: U8, r: Registers)
    requires Report(channel, r) != []
    ensures Overhead(r) <= 36
    ensures |Report(channel, r)| <= INTERRUPT_BYTES_MAX
       <==> (Hdlc(r.bisr) ==> HdlcCount(r) <= INTERRUPT_BYTES_MAX - Overhead(r))
  {
    ReportLength(channel, r);
    hide Report, HdlcCount, LbCode, Hdlc, Slip, Alarm, T1Frame, Sig;
  }

  ghost predicate AlwaysFits(n: nat) {
    forall channel: U8, r: Registers :: HdlcCount(r) <= n ==> |Report(channel, r)| <= INTERRUPT_BYTES_MAX
  }

  /** The host's transfer buffer holds every report exactly while the three HDLC byte counts
      add up to at most 220. */
  lemma FitsExactly(n: nat)
    ensures AlwaysFits(n) <==> n <= 220
  {
    hide Report, HdlcCount;
    forall channel: U8, r: Registers | HdlcCount(r) <= n && n <= 220
      ensures |Report(channel, r)| <= INTERRUPT_BYTES_MAX
    {
      if Report(channel, r) != [] { ReportLength(channel, r); }
    }
    LongestLength();
    if n > 220 {
      assert HdlcCount(Longest()) <= n && |Report(0, Longest())| > INTERRUPT_BYTES_MAX;
    }
  }

  lemma LongestLength()
    ensures HdlcCount(Longest()) == 221 && |Report(0, Longest())| == 257
  {
    ReportedExactly(0, Longest());
    ReportLength(0, Longest());
    hide Report;
  }

  /** Every section present, 221 HDLC bytes. */
  function Longest(): Registers {
    var full := HdlcRegisters(0, 127, Zeros(127), 0);
    ChannelRegisters(0x4F, Zeros(8), [full, HdlcRegisters(0, 94, Zeros(94), 0), HdlcRegisters(0, 0, [], 0)],
                     0, 0, 0, 0, 0x20, Zeros(24))
  }

  // ----- Short transfers -----

  /** `c` is `b` followed by zeros. */
  predicate Padded(b: seq<U8>, c: seq<U8>) { |b| <= |c| && c == b + Zeros(|c| - |b|) }

  predicate SameUpToPadding<T(==)>(x: Parsed<T>, y: Parsed<T>) { x.value == y.value && Padded(x.rest, y.rest) }

  lemma ReadPadded(b: seq<U8>, c: seq<U8>, n: nat)
    requires Padded(b, c)
    ensures SameUpToPadding(ReadBytes(b, n), ReadBytes(c, n))
  {
    var x, y := ReadBytes(b, n), ReadBytes(c, n);
    assert x.value == y.value;
  }

  lemma ControllerPadded(b: seq<U8>, c: seq<U8>)
    requires Padded(b, c)
    ensures SameUpToPadding(ParseController(b), ParseController(c))
  {
    hide ReadBytes, Padded;
    ReadPadded(b, c, 1);
    var b1, c1 := ReadBytes(b, 1), ReadBytes(c, 1);
    ReadPadded(b1.rest, c1.rest, 1);
    var b2, c2 := ReadBytes(b1.rest, 1), ReadBytes(c1.rest, 1);
    var n := ByteCount(b2.value[0]);
    ReadPadded(b2.rest, c2.rest, n);
    ReadPadded(ReadBytes(b2.rest, n).rest, ReadBytes(c2.rest, n).rest, 1);
  }

  lemma HdlcPadded(b: seq<U8>, c: seq<U8>)
    requires Padded(b, c)
    ensures SameUpToPadding(ParseHdlc(b), ParseHdlc(c))
  {
    hide ParseController, Padded;
    ControllerPadded(b, c);
    var x, y := ParseController(b), ParseController(c);
    ControllerPadded(x.rest, y.rest);
    ControllerPadded(ParseController(x.rest).rest, ParseController(y.rest).rest);
  }

  lemma FramePadded(b: seq<U8>, c: seq<U8>)
    requires Padded(b, c)
    ensures SameUpToPadding(ParseFrame(b), ParseFrame(c))
  {
    hide ReadBytes, Padded, Unpacked, Sig;
    ReadPadded(b, c, 1);
    ReadPadded(ReadBytes(b, 1).rest, ReadBytes(c, 1).rest, 12);
  }

  lemma SectionsPadded(channel: U8, bisr: U8, b: seq<U8>, c: seq<U8>)
    requires Padded(b, c)
    ensures SameUpToPadding(ParseSections(channel, bisr, b), ParseSections(channel, bisr, c))
  {
    hide ReadBytes, Padded, ParseHdlc, ParseFrame, LbCode, Hdlc, Slip, Alarm, T1Frame;
    ReadPadded(b, c, 8);
    var b1, c1 := ParseLoopback(bisr, b).rest, ParseLoopback(bisr, c).rest;
    HdlcPadded(b1, c1);
    var b2, c2 := ParseHdlcSection(bisr, b1).rest, ParseHdlcSection(bisr, c1).rest;
    ReadPadded(b2, c2, 1);
    var b3, c3 := ParseSlip(bisr, b2).rest, ParseSlip(bisr, c2).rest;
    ReadPadded(b3, c3, 3);
    FramePadded(ParseAlarmSection(bisr, b3).rest, ParseAlarmSection(bisr, c3).rest);
  }

  /** For every byte string: parsing it equals parsing it padded with zeros. */
  lemma ParsePadded(b: seq<U8>, c: seq<U8>)
    requires Padded(b, c)
    ensures SameUpToPadding(Parse(b), Parse(c))
  {
    hide ReadBytes, Padded, ParseSections;
    ReadPadded(b, c, 1);
    var b1, c1 := ReadBytes(b, 1), ReadBytes(c, 1);
    ReadPadded(b1.rest, c1.rest, 1);
    SectionsPadded(b1.value[0], ReadBytes(b1.rest, 1).value[0], ReadBytes(b1.rest, 1).rest, ReadBytes(c1.rest, 1).rest);
  }

  /** Two parses of which the first may have run out of data. */
  predicate Cut<T(==)>(x: Parsed<T>, y: Parsed<T>) { x.rest <= y.rest && (x.rest == [] || x.value == y.value) }

  lemma ReadCut(t: seq<U8>, b: seq<U8>, n: nat)
    requires t <= b
    ensures Cut(ReadBytes(t, n), ReadBytes(b, n))
    ensures t == [] ==> ReadBytes(t, n).rest == []
  {
    var x, y := ReadBytes(t, n), ReadBytes(b, n);
    if |t| > n {
      assert t[..n] == b[..n];
    }
  }

  lemma ControllerCut(t: seq<U8>, b: seq<U8>)
    requires t <= b
    ensures Cut(ParseController(t), ParseController(b))
    ensures t == [] ==> ParseController(t).rest == []
  {
    hide ReadBytes, ByteCount;
    ReadCut(t, b, 1);
    var t1, b1 := ReadBytes(t, 1), ReadBytes(b, 1);
    ReadCut(t1.rest, b1.rest, 1);
    var t2, b2 := ReadBytes(t1.rest, 1), ReadBytes(b1.rest, 1);
    var n := ByteCount(t2.value[0]);
    ReadCut(t2.rest, b2.rest, n);
    var t3, b3 := ReadBytes(t2.rest, n), ReadBytes(b2.rest, ByteCount(b2.value[0]));
    assert t3.rest <= b3.rest;
    ReadCut(t3.rest, b3.rest, 1);
  }

  lemma HdlcCut(t: seq<U8>, b: seq<U8>)
    requires t <= b
    ensures Cut(ParseHdlc(t), ParseHdlc(b))
    ensures t == [] ==> ParseHdlc(t).rest == []
  {
    hide ParseController;
    ControllerCut(t, b);
    var x, y := ParseController(t), ParseController(b);
    ControllerCut(x.rest, y.rest);
    ControllerCut(ParseController(x.rest).rest, ParseController(y.rest).rest);
  }

  lemma FrameCut(t: seq<U8>, b: seq<U8>)
    requires t <= b
    ensures Cut(ParseFrame(t), ParseFrame(b))
    ensures t == [] ==> ParseFrame(t).rest == []
  {
    hide ReadBytes, Unpacked, Sig;
    ReadCut(t, b, 1);
    ReadCut(ReadBytes(t, 1).rest, ReadBytes(b, 1).rest, 12);
  }

  lemma LoopbackCut(bisr: U8, t: seq<U8>, b: seq<U8>)
    requires t <= b
    ensures Cut(ParseLoopback(bisr, t), ParseLoopback(bisr, b)) && (t == [] ==> ParseLoopback(bisr, t).rest == [])
  {
    hide ReadBytes, ParseHdlc, ParseFrame;
    ReadCut(t, b, 8);
  }

  lemma HdlcSectionCut(bisr: U8, t: seq<U8>, b: seq<U8>)
    requires t <= b
    ensures Cut(ParseHdlcSection(bisr, t), ParseHdlcSection(bisr, b))
    ensures t == [] ==> ParseHdlcSection(bisr, t).rest == []
  {
    hide ReadBytes, ParseHdlc, ParseFrame;
    HdlcCut(t, b);
  }

  lemma SlipCut(bisr: U8, t: seq<U8>, b: seq<U8>)
    requires t <= b
    ensures Cut(ParseSlip(bisr, t), ParseSlip(bisr, b)) && (t == [] ==> ParseSlip(bisr, t).rest == [])
  {
    hide ReadBytes, ParseHdlc, ParseFrame;
    ReadCut(t, b, 1);
  }

  lemma AlarmCut(bisr: U8, t: seq<U8>, b: seq<U8>)
    requires t <= b
    ensures Cut(ParseAlarmSection(bisr, t), ParseAlarmSection(bisr, b))
    ensures t == [] ==> ParseAlarmSection(bisr, t).rest == []
  {
    hide ReadBytes, ParseHdlc, ParseFrame;
    ReadCut(t, b, 3);
  }

  lemma FrameSectionCut(bisr: U8, t: seq<U8>, b: seq<U8>)
    requires t <= b
    ensures Cut(ParseFrameSection(bisr, t), ParseFrameSection(bisr, b))
    ensures t == [] ==> ParseFrameSection(bisr, t).rest == []
  {
    hide ReadBytes, ParseHdlc, ParseFrame;
    FrameCut(t, b);
  }

  lemma SectionsCut(channel: U8, bisr: U8, t: seq<U8>, b: seq<U8>)
    requires t <= b
    ensures Cut(ParseSections(channel, bisr, t), ParseSections(channel, bisr, b))
    ensures t == [] ==> ParseSections(channel, bisr, t).rest == []
  {
    hide ParseLoopback, ParseHdlcSection, ParseSlip, ParseAlarmSection, ParseFrameSection;
    LoopbackCut(bisr, t, b);
    var t1, b1 := ParseLoopback(bisr, t).rest, ParseLoopback(bisr, b).rest;
    HdlcSectionCut(bisr, t1, b1);
    var t2, b2 := ParseHdlcSection(bisr, t1).rest, ParseHdlcSection(bisr, b1).rest;
    SlipCut(bisr, t2, b2);
    var t3, b3 := ParseSlip(bisr, t2).rest, ParseSlip(bisr, b2).rest;
    AlarmCut(bisr, t3, b3);
    FrameSectionCut(bisr, ParseAlarmSection(bisr, t3).rest, ParseAlarmSection(bisr, b3).rest);
  }

  lemma ParseCut(t: seq<U8>, b: seq<U8>)
    requires t <= b
    ensures Parse(t).rest <= Parse(b).rest || Parse(t).rest == []
  {
    hide ReadBytes, ParseSections;
    ReadCut(t, b, 1);
    var t1, b1 := ReadBytes(t, 1), ReadBytes(b, 1);
    ReadCut(t1.rest, b1.rest, 1);
    var t2, b2 := ReadBytes(t1.rest, 1), ReadBytes(b1.rest, 1);
    SectionsCut(t1.value[0], t2.value[0], t2.rest, b2.rest);
  }

  /** A report cut short anywhere is still consumed whole, so the parser's closing assertion
      holds, and reads as the report with its missing bytes replaced by zeros. */
  lemma TruncatedReport(channel: U8, r: Registers, k: nat)
    requires k <= |Report(channel, r)|
    ensures var b := Report(channel, r);
            && Parse(b[..k]).rest == []
            && Parse(b[..k]).value == Parse(b[..k] + Zeros(|b| - k)).value
  {
    var b := Report(channel, r);
    hide Report, Parse;
    ParsePadded(b[..k], b[..k] + Zeros(|b| - k));
    ParseCut(b[..k], b);
    if b == [] {
      EmptyRest();
    } else {
      RoundTrip(channel, r, []);
      assert b + [] == b;
    }
  }

  lemma EmptyRest()
    ensures Parse([]).rest == []
  {
    ReadCut([], [], 1);
    SectionsCut(ReadBytes([], 1).value[0], ReadBytes([], 1).value[0], [], []);
  }
}
