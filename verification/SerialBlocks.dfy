/** The bit-serial transmit and receive blocks. Eight-bit registers are sequences of bits
    with the most significant bit first. */
module SerialBlocks {
  import opened SystemTiming

  type Octet = s: seq<bool> | |s| == 8 witness [false, false, false, false, false, false, false, false]

  const ZERO: Octet := [false, false, false, false, false, false, false, false]

  function Shift(s: Octet, bit: bool): Octet { s[1..] + [bit] }

  // ----- Transmit -----

  /** Position in the system frame at which the serial frame's F bit leaves. */
  const DELAY_CLOCKS := 8

  function TxStep(shifter: Octet, t: Timing, bitEnd: bool, data: Octet, f: bool): Octet {
    if t.timeslotLsBit && bitEnd then data
    else if bitEnd then Shift(shifter, f)
    else shifter
  }

  /** What goes to the framer: the serial line, its frame sync and its multiframe sync. */
  datatype TxLine = TxLine(ser: bool, sync: bool, msync: bool)

  function TxLineOf(shifter: Octet, t: Timing, mf: bool): TxLine {
    TxLine(shifter[0], t.bitCount == DELAY_CLOCKS, t.bitCount == DELAY_CLOCKS && mf)
  }

  class TxBlock {
    var serShifter: Octet

    constructor ()
      ensures serShifter == ZERO
    {
      serShifter := ZERO;
    }

    /** One system clock: the outputs towards the framer, then the shifter. */
    method Clock(t: Timing, bitEnd: bool, data: Octet, f: bool, mf: bool)
        returns (ser: bool, sync: bool, msync: bool)
      modifies this
      ensures TxLine(ser, sync, msync) == TxLineOf(old(serShifter), t, mf)
      ensures serShifter == TxStep(old(serShifter), t, bitEnd, data, f)
    {
      ser, sync := serShifter[0], t.bitCount == DELAY_CLOCKS;
      msync := sync && mf;
      if t.timeslotLsBit && bitEnd {
        serShifter := data;
      } else if bitEnd {
        serShifter := Shift(serShifter, f);
      }
    }
  }

  // ----- Receive -----

  datatype Receiver = Receiver(serShifter: Octet, crcShifter: Octet, data: Octet, f: bool, mf: bool)

  const RECEIVER_RESET := Receiver(ZERO, ZERO, ZERO, false, false)

  predicate TimeslotCapture(t: Timing) { t.fBit || (t.timeslotLsBit != t.frameLastBit) }

  function RxStep(r: Receiver, t: Timing, bitEnd: bool, ser: bool, crcsync: bool): Receiver {
    if !bitEnd then r else
      var shifted, crcShifted := Shift(r.serShifter, ser), Shift(r.crcShifter, crcsync);
      Receiver(shifted, crcShifted,
               if TimeslotCapture(t) then shifted else r.data,
               if t.frameLastBit then shifted[0] else r.f,
               if t.frameLastBit then crcShifted[0] else r.mf)
  }

  /** The frame sync towards the framer. */
  predicate RxSync(timeslots: nat, t: Timing) { t.bitCount == BitsPerFrame(timeslots) - 8 }

  class RxBlock {
    const timeslots: nat
    var serShifter: Octet
    var crcsyncShifter: Octet
    var data: Octet
    var f: bool
    var mf: bool

    constructor (timeslots: nat)
      ensures this.timeslots == timeslots && State() == RECEIVER_RESET
    {
      this.timeslots := timeslots;
      serShifter, crcsyncShifter, data, f, mf := ZERO, ZERO, ZERO, false, false;
    }

    function State(): Receiver
      reads this
    {
      Receiver(serShifter, crcsyncShifter, data, f, mf)
    }

    /** One system clock: the frame sync towards the framer, then the registers. */
    method Clock(t: Timing, bitEnd: bool, ser: bool, crcsync: bool) returns (sync: bool)
      modifies this
      ensures sync == RxSync(timeslots, t)
      ensures State() == RxStep(old(State()), t, bitEnd, ser, crcsync)
    {
      sync := t.bitCount == BitsPerFrame(timeslots) - 8;
      var shifted, crcShifted := Shift(serShifter, ser), Shift(crcsyncShifter, crcsync);
      if bitEnd {
        serShifter, crcsyncShifter := shifted, crcShifted;
        if t.fBit || (t.timeslotLsBit != t.frameLastBit) {
          data := shifted;
        }
        if t.frameLastBit {
          f, mf := shifted[0], crcShifted[0];
        }
      }
    }
  }
}

/** Serial round trip, over runs of system clocks with arbitrarily spaced bit strobes. */
module SerialRuns {
  import GrayCode
  import opened Numbers
  import opened SystemTiming
  import opened SerialBlocks

  /** What the transmitter is given in one system clock, and what the receiver is given. */
  datatype TxClock = TxClock(bitEnd: bool, data: Octet, f: bool)
  datatype RxClock = RxClock(bitEnd: bool, ser: bool, crc: bool)

  function TxStrobes(clocks: seq<TxClock>): (s: seq<bool>)
    ensures |s| == |clocks|
  {
    seq(|clocks|, i requires 0 <= i < |clocks| => clocks[i].bitEnd)
  }

  function RxStrobes(clocks: seq<RxClock>): (s: seq<bool>)
    ensures |s| == |clocks|
  {
    seq(|clocks|, i requires 0 <= i < |clocks| => clocks[i].bitEnd)
  }

  /** The clocks in which a bit ends. */
  function TxBits(clocks: seq<TxClock>): seq<TxClock> {
    if clocks == [] then [] else
      var c := clocks[|clocks| - 1];
      TxBits(clocks[..|clocks| - 1]) + if c.bitEnd then [c] else []
  }

  function RxBits(clocks: seq<RxClock>): seq<RxClock> {
    if clocks == [] then [] else
      var c := clocks[|clocks| - 1];
      RxBits(clocks[..|clocks| - 1]) + if c.bitEnd then [c] else []
  }

  function TxRun(timeslots: nat, clocks: seq<TxClock>): Octet
    requires timeslots >= 1
  {
    if clocks == [] then ZERO else
      var init, c := clocks[..|clocks| - 1], clocks[|clocks| - 1];
      TxStep(TxRun(timeslots, init), TimingRun(timeslots, TxStrobes(init)), c.bitEnd, c.data, c.f)
  }

  function RxRun(timeslots: nat, clocks: seq<RxClock>): Receiver
    requires timeslots >= 1
  {
    if clocks == [] then RECEIVER_RESET else
      var init, c := clocks[..|clocks| - 1], clocks[|clocks| - 1];
      RxStep(RxRun(timeslots, init), TimingRun(timeslots, RxStrobes(init)), c.bitEnd, c.ser, c.crc)
  }

  // ----- The transmitter -----

  /** The first `n` bits of the shifter are those of `data` from bit `sent` on. */
  ghost predicate Tail(shifter: Octet, data: Octet, sent: nat, n: nat)
    requires sent + n <= 8
  {
    forall j :: 0 <= j < n ==> shifter[j] == data[sent + j]
  }

  /** What the shifter holds when `bits` have ended and bit `q` of frame `k` is on the line:
      the rest of the octet being sent, and behind the last timeslot the F bit to come. */
  ghost predicate TxHolds(timeslots: nat, bits: seq<TxClock>, k: nat, q: nat, shifter: Octet) {
    var b := BitsPerFrame(timeslots);
    && q < b && |bits| == k * b + q
    && (q == 0 && k > 0 ==> shifter == bits[k * b - 1].data)
    && (1 <= q <= 8 ==> shifter[8 - q] == bits[k * b].f)
    && (1 <= q <= 8 && k > 0 ==> Tail(shifter, bits[k * b - 1].data, q, 8 - q))
    && (q > 8 ==> Tail(shifter, bits[k * b + 8 * ((q - 1) / 8)].data, (q - 1) % 8, 8 - (q - 1) % 8))
  }

  /** At the end of a timeslot the next octet is loaded. */
  lemma LoadHolds(timeslots: nat, bits: seq<TxClock>, k: nat, q: nat, shifter: Octet, c: TxClock)
    requires timeslots >= 1 && TxHolds(timeslots, bits, k, q, shifter) && q % 8 == 0 && q > 0
    ensures if q == 8 * timeslots then TxHolds(timeslots, bits + [c], k + 1, 0, c.data)
            else TxHolds(timeslots, bits + [c], k, q + 1, c.data)
  {
    hide Tail;
    var b := BitsPerFrame(timeslots);
    OneMoreFrame(k, b);
    WholeTail(c.data);
    var all := bits + [c];
    assert |bits| == k * b + q && all[|bits|] == c;
    if q < 8 * timeslots {
      assert (q + 1 - 1) / 8 == q / 8 && 8 * (q / 8) == q && (q + 1 - 1) % 8 == 0;
      assert q + 1 > 8;
    }
  }

  /** The last timeslot's octet leaves while the F bit moves up behind it. */
  lemma ShiftHoldsEarly(timeslots: nat, bits: seq<TxClock>, k: nat, q: nat, shifter: Octet, c: TxClock)
    requires timeslots >= 1 && TxHolds(timeslots, bits, k, q, shifter) && q < 8
    ensures TxHolds(timeslots, bits + [c], k, q + 1, Shift(shifter, c.f))
  {
    hide Tail;
    var b := BitsPerFrame(timeslots);
    var all := bits + [c];
    OneMoreFrame(k, b);
    assert |bits| == k * b + q && all[|bits|] == c;
    if k > 0 {
      KeepsIndex(k, b);
      var last := bits[k * b - 1];
      assert all[k * b - 1] == last;
      if q == 0 { WholeTail(shifter); }
      ShiftTail(shifter, last.data, q, 8 - q, c.f);
    }
    if q > 0 { assert all[k * b] == bits[k * b]; }
  }

  lemma KeepsIndex(k: nat, b: nat)
    requires k > 0 && b > 0
    ensures k * b >= 1
  {
  }

  /** Any other octet leaves. */
  lemma ShiftHoldsLate(timeslots: nat, bits: seq<TxClock>, k: nat, q: nat, shifter: Octet, c: TxClock)
    requires timeslots >= 1 && TxHolds(timeslots, bits, k, q, shifter) && q > 8 && q % 8 != 0
    ensures TxHolds(timeslots, bits + [c], k, q + 1, Shift(shifter, c.f))
  {
    hide Tail;
    var all, s := bits + [c], (q - 1) / 8;
    var at := k * BitsPerFrame(timeslots) + 8 * s;
    assert q == 8 * s + 1 + (q - 1) % 8 && q / 8 == s && q % 8 == (q - 1) % 8 + 1;
    assert at < |bits| && all[at] == bits[at];
    ShiftTail(shifter, bits[at].data, (q - 1) % 8, 8 - (q - 1) % 8, c.f);
  }

  lemma TxHoldsStep(timeslots: nat, bits: seq<TxClock>, k: nat, q: nat, shifter: Octet, t: Timing, c: TxClock,
                    started: bool)
    requires timeslots >= 1 && TxHolds(timeslots, bits, k, q, shifter) && c.bitEnd
    requires FlagsExact(timeslots, t, started) && t.bitCount == q
    ensures var n := TxStep(shifter, t, true, c.data, c.f);
            if q == 8 * timeslots then TxHolds(timeslots, bits + [c], k + 1, 0, n)
            else TxHolds(timeslots, bits + [c], k, q + 1, n)
  {
    hide TxHolds, Shift;
    if q % 8 == 0 && q > 0 {
      LoadHolds(timeslots, bits, k, q, shifter, c);
    } else if q < 8 {
      ShiftHoldsEarly(timeslots, bits, k, q, shifter, c);
    } else {
      ShiftHoldsLate(timeslots, bits, k, q, shifter, c);
    }
  }

  lemma WholeTail(data: Octet)
    ensures Tail(data, data, 0, 8)
  {
  }

  lemma ShiftTail(shifter: Octet, data: Octet, sent: nat, n: nat, f: bool)
    requires 1 <= n && sent + n <= 8 && Tail(shifter, data, sent, n)
    ensures Tail(Shift(shifter, f), data, sent + 1, n - 1)
  {
  }

  lemma TxOneMore(timeslots: nat, clocks: seq<TxClock>)
    requires timeslots >= 1 && clocks != []
    ensures var n, init, c := |clocks| - 1, clocks[..|clocks| - 1], clocks[|clocks| - 1];
            && TxStrobes(clocks)[..n] == TxStrobes(init) && TxStrobes(clocks)[n] == c.bitEnd
            && BitEnds(TxStrobes(clocks)) == BitEnds(TxStrobes(init)) + Count(c.bitEnd)
            && TxBits(clocks) == TxBits(init) + (if c.bitEnd then [c] else [])
            && TxRun(timeslots, clocks)
               == TxStep(TxRun(timeslots, init), TimingRun(timeslots, TxStrobes(init)), c.bitEnd, c.data, c.f)
  {
    assert TxStrobes(clocks)[..|clocks| - 1] == TxStrobes(clocks[..|clocks| - 1]);
  }

  lemma {:induction false} TxState(timeslots: nat, clocks: seq<TxClock>)
    requires timeslots >= 1
    ensures var t := TimingRun(timeslots, TxStrobes(clocks));
            && |TxBits(clocks)| == BitEnds(TxStrobes(clocks))
            && TxHolds(timeslots, TxBits(clocks), FrameStrobes(timeslots, TxStrobes(clocks)), t.bitCount,
                       TxRun(timeslots, clocks))
  {
    hide TxHolds, TxStep, FlagsExact, TimingRun, FrameStrobes, BitsPerFrame, PositionExact;
    if clocks == [] {
      TxHoldsStart(timeslots);
      NoStrobes(timeslots);
    } else {
      var init, c := clocks[..|clocks| - 1], clocks[|clocks| - 1];
      TxState(timeslots, init);
      FlagsFollow(timeslots, TxStrobes(init));
      TxOneMore(timeslots, clocks);
      hide TxStrobes, TxBits, TxRun, BitEnds;
      StrobeTells(timeslots, TxStrobes(clocks));
      if c.bitEnd {
        TxHoldsStep(timeslots, TxBits(init), FrameStrobes(timeslots, TxStrobes(init)),
                    TimingRun(timeslots, TxStrobes(init)).bitCount, TxRun(timeslots, init),
                    TimingRun(timeslots, TxStrobes(init)), c, BitEnds(TxStrobes(init)) > 0);
      } else {
        TxIdle(timeslots, init, c);
        assert TxBits(clocks) == TxBits(init);
      }
    }
  }

  lemma TxHoldsStart(timeslots: nat)
    requires timeslots >= 1
    ensures TxHolds(timeslots, [], 0, 0, ZERO)
  {
  }

  lemma TxIdle(timeslots: nat, init: seq<TxClock>, c: TxClock)
    requires timeslots >= 1 && !c.bitEnd
    ensures TxStep(TxRun(timeslots, init), TimingRun(timeslots, TxStrobes(init)), c.bitEnd, c.data, c.f)
         == TxRun(timeslots, init)
  {
  }

  lemma NoStrobes(timeslots: nat)
    requires timeslots >= 1
    ensures TimingRun(timeslots, []).bitCount == 0 && FrameStrobes(timeslots, []) == 0 && BitEnds([]) == 0
  {
  }

  lemma FlagsFollow(timeslots: nat, strobes: seq<bool>)
    requires timeslots >= 1
    ensures FlagsExact(timeslots, TimingRun(timeslots, strobes), BitEnds(strobes) > 0)
  {
    TimingExact(timeslots, strobes);
  }

  /** How one clock moves the position. */
  lemma StrobeTells(timeslots: nat, strobes: seq<bool>)
    requires timeslots >= 1 && strobes != []
    ensures var init := strobes[..|strobes| - 1];
            var q, n := TimingRun(timeslots, init).bitCount, TimingRun(timeslots, strobes).bitCount;
            var k, m := FrameStrobes(timeslots, init), FrameStrobes(timeslots, strobes);
            if !strobes[|strobes| - 1] then n == q && m == k
            else if q == 8 * timeslots then n == 0 && m == k + 1
            else n == q + 1 && m == k
  {
    TimingExact(timeslots, strobes[..|strobes| - 1]);
  }

  /** Bit `m` of the serial frame made from the inputs of system frame `k`: the F bit given
      at the end of its first bit, then each timeslot given at the end of its last bit. */
  function SerialBit(timeslots: nat, bits: seq<TxClock>, k: nat, m: nat): bool
    requires m < BitsPerFrame(timeslots) && k * BitsPerFrame(timeslots) + 8 + m <= |bits|
  {
    var at := k * BitsPerFrame(timeslots);
    if m == 0 then bits[at].f else bits[at + 8 * ((m - 1) / 8 + 1)].data[(m - 1) % 8]
  }

  lemma OctetLater(n: nat)
    ensures (n + 8) / 8 == n / 8 + 1 && (n + 8) % 8 == n % 8
  {
  }

  /** The transmitter law: for any number of timeslots and any spacing of the bit strobes the
      line carries, starting at system bit 8 of each frame, the F bit and then all timeslots
      in order, most significant bit first. */
  lemma TransmitterSendsFrames(timeslots: nat, clocks: seq<TxClock>, k: nat, m: nat)
    requires timeslots >= 1 && m < BitsPerFrame(timeslots)
    requires |TxBits(clocks)| == k * BitsPerFrame(timeslots) + 8 + m
    ensures TxRun(timeslots, clocks)[0] == SerialBit(timeslots, TxBits(clocks), k, m)
  {
    hide TxRun, TxBits, TimingRun, FlagsExact, TxStrobes, BitEnds, FrameStrobes, TimeslotStarts;
    var b := BitsPerFrame(timeslots);
    var strobes := TxStrobes(clocks);
    TxState(timeslots, clocks);
    var frames, q := FrameStrobes(timeslots, strobes), TimingRun(timeslots, strobes).bitCount;
    OneMoreFrame(k, b);
    if 8 + m < b {
      PositionUnique(frames, q, k, 8 + m, b);
      if m > 0 { OctetLater(m - 1); }
    } else {
      PositionUnique(frames, q, k + 1, 8 + m - b, b);
      assert m - 1 == 8 * (timeslots - 1) + q;
    }
  }

  lemma PositionIsRemainder(f: nat, q: nat, b: nat)
    requires q < b
    ensures (f * b + q) % b == q
  {
    GrayCode.ModUnique(q, f, b);
  }

  /** Frame syncs: the transmit sync is high in exactly the clocks in which the bit on the line is
      the first bit of a serial frame, its F bit, and the multiframe sync exactly then when the
      frame is marked. */
  lemma SyncMarksFrames(timeslots: nat, clocks: seq<TxClock>, mf: bool)
    requires timeslots >= 1
    ensures var o := TxLineOf(TxRun(timeslots, clocks), TimingRun(timeslots, TxStrobes(clocks)), mf);
            var n, b := |TxBits(clocks)|, BitsPerFrame(timeslots);
            && (o.sync <==> n % b == 8) && (o.msync <==> n % b == 8 && mf)
            && (o.sync ==> exists k: nat {:trigger SerialBit(timeslots, TxBits(clocks), k, 0)} ::
                  n == k * b + 8 && o.ser == SerialBit(timeslots, TxBits(clocks), k, 0) == TxBits(clocks)[k * b].f)
  {
    hide TxRun, TxBits, TimingRun, FlagsExact, TxStrobes, BitEnds, FrameStrobes, TimeslotStarts;
    var strobes, b := TxStrobes(clocks), BitsPerFrame(timeslots);
    TxState(timeslots, clocks);
    BitsBound(timeslots, strobes);
    TimingExact(timeslots, strobes);
    var k := FrameStrobes(timeslots, strobes);
    PositionIsRemainder(k, TimingRun(timeslots, strobes).bitCount, b);
    if TimingRun(timeslots, strobes).bitCount == 8 {
      TransmitterSendsFrames(timeslots, clocks, k, 0);
      assert TxRun(timeslots, clocks)[0] == SerialBit(timeslots, TxBits(clocks), k, 0);
    }
  }

  // ----- The receiver -----

  /** Eight received bits from position `at`. */
  ghost predicate Window(data: Octet, bits: seq<RxClock>, at: int)
    requires 0 <= at && at + 8 <= |bits|
  {
    forall j :: 0 <= j < 8 ==> data[j] == bits[at + j].ser
  }

  ghost predicate Recent(r: Receiver, bits: seq<RxClock>) {
    forall j :: 0 <= j < 8 && |bits| - 8 + j >= 0 ==>
      r.serShifter[j] == bits[|bits| - 8 + j].ser && r.crcShifter[j] == bits[|bits| - 8 + j].crc
  }

  lemma FramesBefore(k: nat, timeslots: nat)
    requires k >= 1 && timeslots >= 1
    ensures k * BitsPerFrame(timeslots) >= BitsPerFrame(timeslots) >= 9
  {
    assert (k - 1) * BitsPerFrame(timeslots) >= 0;
    OneMoreFrame(k - 1, BitsPerFrame(timeslots));
  }

  /** What the receiver holds when bit `q` of frame `k` is arriving: the frame whose F bit
      came in at `bits_per_frame - 8` of the frame before. */
  ghost predicate RxHolds(timeslots: nat, bits: seq<RxClock>, k: nat, q: nat, r: Receiver)
    requires timeslots >= 1
  {
    var b := BitsPerFrame(timeslots);
    && q < b && |bits| == k * b + q && Recent(r, bits)
    && (k >= 1 ==> k * b >= b && r.f == bits[k * b - 8].ser && r.mf == bits[k * b - 8].crc)
    && (k >= 1 && q >= 1 ==> Window(r.data, bits, k * b - 7 + 8 * ((q - 1) / 8)))
    && (k >= 2 && q == 0 ==> (k - 1) * b >= b && Window(r.data, bits, (k - 1) * b - 7 + 8 * (timeslots - 1)))
  }

  lemma RecentStep(r: Receiver, bits: seq<RxClock>, c: RxClock, n: Receiver)
    requires Recent(r, bits)
    requires n.serShifter == Shift(r.serShifter, c.ser) && n.crcShifter == Shift(r.crcShifter, c.crc)
    ensures Recent(n, bits + [c])
    ensures |bits| >= 7 ==> Window(n.serShifter, bits + [c], |bits| - 7)
    ensures |bits| >= 7 ==> n.serShifter[0] == (bits + [c])[|bits| - 7].ser
    ensures |bits| >= 7 ==> n.crcShifter[0] == (bits + [c])[|bits| - 7].crc
  {
  }

  lemma WindowExtends(data: Octet, bits: seq<RxClock>, c: RxClock, at: int)
    requires 0 <= at && at + 8 <= |bits| && Window(data, bits, at)
    ensures Window(data, bits + [c], at)
  {
  }

  lemma OctetOfBit(q: nat)
    requires q >= 1
    ensures q / 8 == (q - 1) / 8 + if q % 8 == 0 then 1 else 0
  {
  }

  ghost predicate Shifted(r: Receiver, c: RxClock, n: Receiver) {
    n.serShifter == Shift(r.serShifter, c.ser) && n.crcShifter == Shift(r.crcShifter, c.crc)
  }

  /** At the end of a frame the F and multiframe bits are captured, the last octet stays. */
  lemma RxFrameEnds(timeslots: nat, bits: seq<RxClock>, k: nat, r: Receiver, c: RxClock, n: Receiver)
    requires timeslots >= 1 && RxHolds(timeslots, bits, k, 8 * timeslots, r) && Shifted(r, c, n)
    requires n.data == r.data && n.f == n.serShifter[0] && n.mf == n.crcShifter[0]
    ensures RxHolds(timeslots, bits + [c], k + 1, 0, n)
  {
    hide Window, Recent;
    var b, all := BitsPerFrame(timeslots), bits + [c];
    RecentStep(r, bits, c, n);
    OneMoreFrame(k, b);
    FramesBefore(k + 1, timeslots);
    if k >= 1 {
      FramesBefore(k, timeslots);
      assert (8 * timeslots - 1) / 8 == timeslots - 1;
      WindowExtends(r.data, bits, c, k * b - 7 + 8 * (timeslots - 1));
    }
  }

  /** At the end of the F bit and of every timeslot but the last an octet is captured. */
  lemma RxCaptures(timeslots: nat, bits: seq<RxClock>, k: nat, q: nat, r: Receiver, c: RxClock, n: Receiver)
    requires timeslots >= 1 && RxHolds(timeslots, bits, k, q, r) && Shifted(r, c, n)
    requires q < 8 * timeslots && q % 8 == 0 && n.data == n.serShifter && n.f == r.f && n.mf == r.mf
    ensures RxHolds(timeslots, bits + [c], k, q + 1, n)
  {
    hide Window, Recent;
    RecentStep(r, bits, c, n);
    if k >= 1 {
      FramesBefore(k, timeslots);
      var b, all := BitsPerFrame(timeslots), bits + [c];
      assert all[k * b - 8] == bits[k * b - 8] && 8 * (q / 8) == q;
    }
  }

  /** In between the octet is held. */
  lemma RxKeeps(timeslots: nat, bits: seq<RxClock>, k: nat, q: nat, r: Receiver, c: RxClock, n: Receiver)
    requires timeslots >= 1 && RxHolds(timeslots, bits, k, q, r) && Shifted(r, c, n)
    requires q < 8 * timeslots && q % 8 != 0 && n.data == r.data && n.f == r.f && n.mf == r.mf
    ensures RxHolds(timeslots, bits + [c], k, q + 1, n)
  {
    hide Window, Recent;
    RecentStep(r, bits, c, n);
    if k >= 1 {
      FramesBefore(k, timeslots);
      var b, all := BitsPerFrame(timeslots), bits + [c];
      OctetOfBit(q);
      assert all[k * b - 8] == bits[k * b - 8];
      WindowExtends(r.data, bits, c, k * b - 7 + 8 * ((q - 1) / 8));
    }
  }

  lemma RxHoldsStep(timeslots: nat, bits: seq<RxClock>, k: nat, q: nat, r: Receiver, t: Timing, c: RxClock)
    requires timeslots >= 1 && RxHolds(timeslots, bits, k, q, r)
    requires FlagsExact(timeslots, t, |bits| > 0) && t.bitCount == q
    ensures var n := RxStep(r, t, true, c.ser, c.crc);
            if q == 8 * timeslots then RxHolds(timeslots, bits + [c], k + 1, 0, n)
            else RxHolds(timeslots, bits + [c], k, q + 1, n)
  {
    CapturesAt(timeslots, t, |bits| > 0);
    hide Shift, RxHolds, FlagsExact, TimeslotCapture;
    var n := RxStep(r, t, true, c.ser, c.crc);
    if q == 8 * timeslots {
      RxFrameEnds(timeslots, bits, k, r, c, n);
    } else if q == 0 && bits == [] {
      RxFirst(timeslots, k, r, c, n);
      assert bits + [c] == [c];
    } else if q % 8 == 0 {
      RxCaptures(timeslots, bits, k, q, r, c, n);
    } else {
      RxKeeps(timeslots, bits, k, q, r, c, n);
    }
  }

  /** Which bits capture an octet, and which the F bit. */
  lemma CapturesAt(timeslots: nat, t: Timing, started: bool)
    requires timeslots >= 1 && FlagsExact(timeslots, t, started)
    ensures TimeslotCapture(t) <==> t.bitCount % 8 == 0 && t.bitCount < 8 * timeslots && (t.bitCount > 0 || started)
    ensures t.frameLastBit <==> t.bitCount == 8 * timeslots
  {
  }

  /** The very first bit is not yet flagged as an F bit. */
  lemma RxFirst(timeslots: nat, k: nat, r: Receiver, c: RxClock, n: Receiver)
    requires timeslots >= 1 && RxHolds(timeslots, [], k, 0, r) && Shifted(r, c, n)
    ensures RxHolds(timeslots, [c], k, 1, n)
  {
    hide Window, Recent;
    if k >= 1 { FramesBefore(k, timeslots); }
    RecentStep(r, [], c, n);
    assert [] + [c] == [c];
  }

  lemma RxHoldsStart(timeslots: nat)
    requires timeslots >= 1
    ensures RxHolds(timeslots, [], 0, 0, RECEIVER_RESET)
  {
  }

  lemma RxOneMore(timeslots: nat, clocks: seq<RxClock>)
    requires timeslots >= 1 && clocks != []
    ensures var n, init, c := |clocks| - 1, clocks[..|clocks| - 1], clocks[|clocks| - 1];
            && RxStrobes(clocks)[..n] == RxStrobes(init) && RxStrobes(clocks)[n] == c.bitEnd
            && BitEnds(RxStrobes(clocks)) == BitEnds(RxStrobes(init)) + Count(c.bitEnd)
            && RxBits(clocks) == RxBits(init) + (if c.bitEnd then [c] else [])
            && RxRun(timeslots, clocks)
               == RxStep(RxRun(timeslots, init), TimingRun(timeslots, RxStrobes(init)), c.bitEnd, c.ser, c.crc)
  {
    assert RxStrobes(clocks)[..|clocks| - 1] == RxStrobes(clocks[..|clocks| - 1]);
  }

  lemma {:induction false} RxState(timeslots: nat, clocks: seq<RxClock>)
    requires timeslots >= 1
    ensures var t := TimingRun(timeslots, RxStrobes(clocks));
            && |RxBits(clocks)| == BitEnds(RxStrobes(clocks))
            && RxHolds(timeslots, RxBits(clocks), FrameStrobes(timeslots, RxStrobes(clocks)), t.bitCount,
                       RxRun(timeslots, clocks))
  {
    hide RxHolds, RxStep, FlagsExact, TimingRun, FrameStrobes, BitsPerFrame, PositionExact;
    if clocks == [] {
      RxHoldsStart(timeslots);
      NoStrobes(timeslots);
    } else {
      var init, c := clocks[..|clocks| - 1], clocks[|clocks| - 1];
      RxState(timeslots, init);
      FlagsFollow(timeslots, RxStrobes(init));
      RxOneMore(timeslots, clocks);
      hide RxStrobes, RxBits, RxRun, BitEnds;
      StrobeTells(timeslots, RxStrobes(clocks));
      if c.bitEnd {
        RxHoldsStep(timeslots, RxBits(init), FrameStrobes(timeslots, RxStrobes(init)),
                    TimingRun(timeslots, RxStrobes(init)).bitCount, RxRun(timeslots, init),
                    TimingRun(timeslots, RxStrobes(init)), c);
      } else {
        RxIdle(timeslots, init, c);
        assert RxBits(clocks) == RxBits(init);
      }
    }
  }

  lemma RxIdle(timeslots: nat, init: seq<RxClock>, c: RxClock)
    requires timeslots >= 1 && !c.bitEnd
    ensures RxStep(RxRun(timeslots, init), TimingRun(timeslots, RxStrobes(init)), c.bitEnd, c.ser, c.crc)
         == RxRun(timeslots, init)
  {
  }

  /** The receiver law: while bit `q` of a frame arrives, the F register holds the bit that
      came in eight bits before the frame, and the octet register the timeslot to which
      `q` belongs of the serial frame that started there. */
  lemma ReceiverRecoversFrames(timeslots: nat, clocks: seq<RxClock>, k: nat, q: nat)
    requires timeslots >= 1 && k >= 1 && q < BitsPerFrame(timeslots)
    requires |RxBits(clocks)| == k * BitsPerFrame(timeslots) + q
    ensures RxHolds(timeslots, RxBits(clocks), k, q, RxRun(timeslots, clocks))
  {
    hide RxHolds, RxRun, RxBits, FlagsExact, TimingRun;
    RxState(timeslots, clocks);
    var strobes := RxStrobes(clocks);
    BitsBound(timeslots, strobes);
    TimingExact(timeslots, strobes);
    PositionUnique(FrameStrobes(timeslots, strobes), TimingRun(timeslots, strobes).bitCount,
                   k, q, BitsPerFrame(timeslots));
  }

  /** The receive sync is high in exactly the clocks in which the bit arriving is the one that
      becomes the next frame's F bit. */
  lemma ReceiveSyncMarksFrames(timeslots: nat, clocks: seq<RxClock>)
    requires timeslots >= 1
    ensures var n, b := |RxBits(clocks)|, BitsPerFrame(timeslots);
            RxSync(timeslots, TimingRun(timeslots, RxStrobes(clocks))) <==> n % b == b - 8
  {
    hide RxRun, RxBits, TimingRun, FlagsExact, RxStrobes, BitEnds, FrameStrobes, TimeslotStarts, RxHolds;
    var strobes, b := RxStrobes(clocks), BitsPerFrame(timeslots);
    RxState(timeslots, clocks);
    BitsBound(timeslots, strobes);
    TimingExact(timeslots, strobes);
    PositionIsRemainder(FrameStrobes(timeslots, strobes), TimingRun(timeslots, strobes).bitCount, b);
  }

  /** And that bit is the F register's, all through the frame after. */
  lemma SyncedBitIsF(timeslots: nat, clocks: seq<RxClock>, more: seq<RxClock>, k: nat, q: nat)
    requires timeslots >= 1 && q < BitsPerFrame(timeslots)
    requires |RxBits(clocks)| == k * BitsPerFrame(timeslots) + BitsPerFrame(timeslots) - 8
    requires |RxBits(clocks + more)| == (k + 1) * BitsPerFrame(timeslots) + q
    ensures RxRun(timeslots, clocks + more).f == RxBits(clocks + more)[|RxBits(clocks)|].ser
    ensures RxRun(timeslots, clocks + more).mf == RxBits(clocks + more)[|RxBits(clocks)|].crc
  {
    hide RxRun, RxBits, Window, Recent;
    OneMoreFrame(k, BitsPerFrame(timeslots));
    ReceiverRecoversFrames(timeslots, clocks + more, k + 1, q);
  }

  // ----- Both ends of the line -----

  /** The receiver samples the transmitter's line, `delay` bits later. */
  ghost predicate Linked(timeslots: nat, tx: seq<TxClock>, rx: seq<RxClock>, delay: nat)
    requires timeslots >= 1
  {
    forall n :: 0 <= n <= |tx| && |TxBits(tx[..n])| + delay < |RxBits(rx)| ==>
      RxBits(rx)[|TxBits(tx[..n])| + delay].ser == TxRun(timeslots, tx[..n])[0]
  }

  /** Some prefix of the clocks ends exactly `bits` bits. */
  lemma {:induction false} PrefixWithBits(tx: seq<TxClock>, bits: nat) returns (n: nat)
    requires bits <= |TxBits(tx)|
    ensures n <= |tx| && TxBits(tx[..n]) == TxBits(tx)[..bits]
  {
    if bits == |TxBits(tx)| {
      n := |tx|;
      assert tx[..n] == tx && TxBits(tx)[..bits] == TxBits(tx);
    } else {
      var init := tx[..|tx| - 1];
      n := PrefixWithBits(init, bits);
      assert init[..n] == tx[..n] && TxBits(tx)[..bits] == TxBits(init)[..bits];
    }
  }

  /** Each received bit is the serial frame bit sent `delay` bits before. */
  lemma ReceivedIsSent(timeslots: nat, tx: seq<TxClock>, rx: seq<RxClock>, delay: nat, k: nat, m: nat)
    requires timeslots >= 1 && Linked(timeslots, tx, rx, delay) && m < BitsPerFrame(timeslots)
    requires k * BitsPerFrame(timeslots) + 8 + m <= |TxBits(tx)|
    requires k * BitsPerFrame(timeslots) + 8 + m + delay < |RxBits(rx)|
    ensures RxBits(rx)[k * BitsPerFrame(timeslots) + 8 + m + delay].ser
         == SerialBit(timeslots, TxBits(tx), k, m)
  {
    hide TxBits, RxBits, TxRun, SerialBit, BitsPerFrame;
    var at := k * BitsPerFrame(timeslots) + 8 + m;
    var n := PrefixWithBits(tx, at);
    TransmitterSendsFrames(timeslots, tx[..n], k, m);
    SerialBitPrefix(timeslots, TxBits(tx), k, m);
  }

  /** A serial frame bit depends only on what was given before it is sent. */
  lemma SerialBitPrefix(timeslots: nat, bits: seq<TxClock>, k: nat, m: nat)
    requires m < BitsPerFrame(timeslots) && k * BitsPerFrame(timeslots) + 8 + m <= |bits|
    ensures var at := k * BitsPerFrame(timeslots) + 8 + m;
            SerialBit(timeslots, bits[..at], k, m) == SerialBit(timeslots, bits, k, m)
  {
    hide BitsPerFrame;
    if m > 0 { OctetBefore(m); }
  }

  lemma OctetBefore(m: nat)
    requires m > 0
    ensures 8 <= 8 * ((m - 1) / 8 + 1) < 8 + m
  {
  }

  lemma FrameOffset(k: nat, turns: nat, b: nat, delay: nat)
    requires delay + 16 == (turns + 1) * b
    ensures (k + 1 + turns) * b == k * b + delay + 16
  {
  }

  lemma BitOfOctet(j: nat, x: nat)
    requires x < 8
    ensures (8 * j + x) / 8 == j && (8 * j + x) % 8 == x
  {
  }

  /** Bit `x` of octet `j`, from the transmitter's input to the receiver's line. */
  lemma OctetBitArrives(timeslots: nat, tx: seq<TxClock>, rx: seq<RxClock>, delay: nat, k: nat, j: nat, x: nat)
    requires timeslots >= 1 && Linked(timeslots, tx, rx, delay) && j < timeslots && x < 8
    requires k * BitsPerFrame(timeslots) + 9 + 8 * j + x <= |TxBits(tx)|
    requires k * BitsPerFrame(timeslots) + 9 + 8 * j + x + delay < |RxBits(rx)|
    ensures k * BitsPerFrame(timeslots) + 8 * (j + 1) < |TxBits(tx)|
    ensures RxBits(rx)[k * BitsPerFrame(timeslots) + 9 + 8 * j + x + delay].ser
         == TxBits(tx)[k * BitsPerFrame(timeslots) + 8 * (j + 1)].data[x]
  {
    hide TxBits, RxBits, TxRun, RxRun, Linked;
    ReceivedIsSent(timeslots, tx, rx, delay, k, 1 + 8 * j + x);
    BitOfOctet(j, x);
  }

  /** The serial round trip, for every number of timeslots: when the line delays the frame
      from the transmitter's system bit 8 to the receiver's system bit `bits_per_frame - 8`,
      `turns` frames later, then frame `k`'s F bit and each of its octets appear in the
      receiver's registers, each octet during the system bits of its own timeslot. */
  lemma SerialRoundTrip(timeslots: nat, tx: seq<TxClock>, rx: seq<RxClock>, delay: nat, turns: nat, k: nat, q: nat)
    requires timeslots >= 1 && Linked(timeslots, tx, rx, delay)
    requires delay + 16 == (turns + 1) * BitsPerFrame(timeslots)
    requires 1 <= q < BitsPerFrame(timeslots)
    requires |TxBits(tx)| >= (k + 1) * BitsPerFrame(timeslots) + 8
    requires |RxBits(rx)| == (k + 1 + turns) * BitsPerFrame(timeslots) + q
    ensures var b, j, r := BitsPerFrame(timeslots), (q - 1) / 8, RxRun(timeslots, rx);
            && k * b + 8 * (j + 1) < |TxBits(tx)|
            && r.f == TxBits(tx)[k * b].f
            && r.data == TxBits(tx)[k * b + 8 * (j + 1)].data
  {
    hide TxBits, RxBits, TxRun, RxRun, Linked, Recent, SerialBit;
    var b, j, r := BitsPerFrame(timeslots), (q - 1) / 8, RxRun(timeslots, rx);
    var frame := k + 1 + turns;
    OneMoreFrame(k, b);
    FrameOffset(k, turns, b, delay);
    ReceiverRecoversFrames(timeslots, rx, frame, q);
    FBitArrives(timeslots, tx, rx, delay, k);
    forall x | 0 <= x < 8 ensures r.data[x] == TxBits(tx)[k * b + 8 * (j + 1)].data[x] {
      OctetBitArrives(timeslots, tx, rx, delay, k, j, x);
      assert frame * b - 7 + 8 * j + x == k * b + 9 + 8 * j + x + delay;
    }
  }

  lemma FBitArrives(timeslots: nat, tx: seq<TxClock>, rx: seq<RxClock>, delay: nat, k: nat)
    requires timeslots >= 1 && Linked(timeslots, tx, rx, delay)
    requires k * BitsPerFrame(timeslots) + 8 <= |TxBits(tx)|
    requires k * BitsPerFrame(timeslots) + 8 + delay < |RxBits(rx)|
    ensures RxBits(rx)[k * BitsPerFrame(timeslots) + 8 + delay].ser == TxBits(tx)[k * BitsPerFrame(timeslots)].f
  {
    hide TxBits, RxBits, TxRun, RxRun, Linked;
    ReceivedIsSent(timeslots, tx, rx, delay, k, 0);
  }
}
