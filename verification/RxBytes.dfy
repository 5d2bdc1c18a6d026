/** A received record byte by byte, in terms of the levels on the serial lines. */
module RxBytes {
  import opened Chunks
  import opened GrayCode
  import opened HostPackets
  import opened Numbers
  import opened PagedFifo
  import opened RxFramer
  import opened RxFramerRuns
  import opened RxLine
  import opened SerialBlocks
  import opened SystemTiming

  /** The byte of channel `c` in timeslot `n` is made of the eight bits of that timeslot on the
      channel's line, the first the highest; the serial frame's F bit is bit `f`. */
  predicate OctetAt(record: seq<int>, channels: nat, n: nat, c: nat, bits: seq<LineClock>, f: int) {
    var at, k := n * channels + c, f + 1 + 8 * n;
    && 0 <= at < |record| && 0 <= k && k + 8 <= |bits|
    && record[at] == 128 * Count(bits[k].ser(c)) + 64 * Count(bits[k + 1].ser(c)) + 32 * Count(bits[k + 2].ser(c))
                     + 16 * Count(bits[k + 3].ser(c)) + 8 * Count(bits[k + 4].ser(c)) + 4 * Count(bits[k + 5].ser(c))
                     + 2 * Count(bits[k + 6].ser(c)) + Count(bits[k + 7].ser(c))
  }

  /** Bit `c` of the byte. */
  predicate FlagAt(x: int, c: nat, high: bool) { x / Pow2(c) % 2 == Count(high) }

  /** The record of frame `i`, whose F bit is bit `i * (1 + 8 * timeslots) - 8` of all: octet by
      octet, timeslot after timeslot and within each channel after channel, then the frame's
      number as a little-endian word and a byte with each channel's multiframe bit. */
  ghost predicate LineBytes(l: Layout, record: seq<int>, bits: seq<LineClock>, i: nat) {
    var f, body := i * (1 + 8 * l.timeslots) - 8, l.timeslots * l.channels;
    && 0 <= f && f + 1 + 8 * l.timeslots <= |bits| && 0 <= body && |record| == body + 5
    && (forall n, c :: 0 <= n < l.timeslots && 0 <= c < l.channels ==>
          OctetAt(record, l.channels, n, c, bits, f))
    && WordAt(record, body, i % 0x1_0000_0000)
    && (forall c :: 0 <= c < l.channels && c < 8 ==> FlagAt(record[body + 4], c, bits[f].crc(c)))
  }

  lemma OctetSum(o: Octet)
    ensures OctetValue(o) == 128 * Count(o[0]) + 64 * Count(o[1]) + 32 * Count(o[2]) + 16 * Count(o[3])
                             + 8 * Count(o[4]) + 4 * Count(o[5]) + 2 * Count(o[6]) + Count(o[7])
  {
    var b := [o[7], o[6], o[5], o[4], o[3], o[2], o[1], o[0]];
    ValueStep(b);
    ValueStep(b[1..]);
    ValueStep(b[1..][1..]);
    ValueStep(b[1..][1..][1..]);
    ValueStep(b[1..][1..][1..][1..]);
    ValueStep(b[1..][1..][1..][1..][1..]);
    ValueStep(b[1..][1..][1..][1..][1..][1..]);
    ValueStep(b[1..][1..][1..][1..][1..][1..][1..]);
    hide Value;
  }

  lemma ValueStep(b: Bits)
    requires b != []
    ensures Value(b) == Count(b[0]) + 2 * Value(b[1..])
    ensures |b| == 1 ==> Value(b) == Count(b[0])
  {
  }

  lemma {:induction false} LowValue(b: Bits, k: nat)
    requires k <= |b|
    ensures Value(b) % Pow2(k) == Value(b[..k])
  {
    if k > 0 {
      var m := Pow2(k - 1);
      assert Pow2(k) == 2 * m;
      LowValue(b[1..], k - 1);
      ValueStep(b);
      ValueStep(b[..k]);
      assert b[..k][1..] == b[1..][..k - 1];
      hide Value, Pow2;
      LowBits(Value(b), Count(b[0]), Value(b[1..]), m);
    }
  }

  lemma LowBits(v: nat, bit: nat, x: nat, m: nat)
    requires m > 0 && bit < 2 && v == bit + 2 * x
    ensures v % (2 * m) == bit + 2 * (x % m)
  {
    ModPow2Step(v, m);
  }

  lemma {:induction false} BitOfValue(b: Bits, c: nat)
    requires c < |b|
    ensures Value(b) / Pow2(c) % 2 == Count(b[c])
  {
    if c > 0 {
      BitOfValue(b[1..], c - 1);
      HalveTwice(Value(b), Pow2(c - 1));
    }
  }

  lemma HalveTwice(v: nat, m: nat)
    requires m > 0
    ensures v / (2 * m) == v / 2 / m
  {
    var h := v / 2;
    var q, r := h / m, h % m;
    assert h == q * m + r;
    assert v == q * (2 * m) + (2 * r + v % 2);
    ModUnique(2 * r + v % 2, q, 2 * m);
    assert (2 * m) * (v / (2 * m) - q) == 0;
  }

  lemma MultiframeBits(bits: seq<bool>, c: nat)
    requires c < |bits| && c < 8
    ensures FlagAt(MultiframeByte(bits), c, bits[c])
  {
    assert Pow2(8) == 256;
    var k := if |bits| < 8 then |bits| else 8;
    if |bits| < 8 {
      ValueBound(bits);
      PowersGrow(|bits|);
      BitOfValue(bits, c);
    } else {
      LowValue(bits, 8);
      BitOfValue(bits[..8], c);
    }
  }

  lemma PowersGrow(n: nat)
    requires n < 8
    ensures Pow2(n) <= 256
  {
    assert Pow2(7) == 128 && Pow2(6) == 64 && Pow2(5) == 32 && Pow2(4) == 16;
  }

  lemma OctetPlaced(l: Layout, bits: seq<LineClock>, i: nat, n: nat, c: nat)
    requires l.Ok() && i >= 1 && FBitAt(l, i + 1) <= |bits| && n < l.timeslots && c < l.channels
    ensures OctetAt(LineFrame(l, bits, i), l.channels, n, c, bits, FBitAt(l, i))
  {
    FrameRoom(l, i);
    SlotOctet(l, bits, FBitAt(l, i), n, c);
    SlotPlace(l, bits, i, n, c);
    hide LineFrame, FBitAt, OctetAt, LineSlot;
    SameOctet(LineFrame(l, bits, i), LineSlot(l, bits, FBitAt(l, i), n), l.channels, n, c, bits, FBitAt(l, i));
  }

  lemma SlotPlace(l: Layout, bits: seq<LineClock>, i: nat, n: nat, c: nat)
    requires l.Ok() && i >= 1 && FBitAt(l, i + 1) <= |bits| && n < l.timeslots && c < l.channels
    ensures 0 <= FBitAt(l, i) && FBitAt(l, i) + 9 + 8 * n <= |bits|
    ensures 0 <= n * l.channels + c < |LineFrame(l, bits, i)|
    ensures LineFrame(l, bits, i)[n * l.channels + c] == LineSlot(l, bits, FBitAt(l, i), n)[c]
  {
    FrameRoom(l, i);
    hide FBitAt, LineSlot, Le32, LineFlags, Flatten;
    var slots := seq(l.timeslots, n requires 0 <= n < l.timeslots => LineSlot(l, bits, FBitAt(l, i), n));
    FlattenIndex(slots, l.channels, n, c);
  }

  lemma SameOctet(record: seq<int>, slot: seq<int>, channels: nat, n: nat, c: nat, bits: seq<LineClock>, f: int)
    requires OctetAt(slot, channels, 0, c, bits, f + 8 * n) && c < |slot| && f >= 0
    requires 0 <= n * channels + c < |record| && record[n * channels + c] == slot[c]
    ensures OctetAt(record, channels, n, c, bits, f)
  {
    assert 0 * channels + c == c && f + 1 + 8 * n == f + 8 * n + 1 + 8 * 0;
  }

  lemma SlotOctet(l: Layout, bits: seq<LineClock>, f: nat, n: nat, c: nat)
    requires f + 9 + 8 * n <= |bits| && c < l.channels
    ensures OctetAt(LineSlot(l, bits, f, n), l.channels, 0, c, bits, f + 8 * n)
  {
    hide OctetValue;
    OctetSum(LineOctet(bits, f + 1 + 8 * n, c));
  }

  lemma ReportPlaced(l: Layout, bits: seq<LineClock>, i: nat)
    requires l.Ok() && i >= 1 && FBitAt(l, i + 1) <= |bits|
    ensures var record, body := LineFrame(l, bits, i), l.timeslots * l.channels;
            && 0 <= body && |record| == body + 5 && WordAt(record, body, i % 0x1_0000_0000)
            && 0 <= FBitAt(l, i) < |bits| && record[body + 4] == LineFlags(l, bits, FBitAt(l, i))[0]
  {
    FrameRoom(l, i);
    hide FBitAt, OctetValue, LineSlot, Flatten, MultiframeByte;
    var f := FBitAt(l, i);
    var slots := seq(l.timeslots, n requires 0 <= n < l.timeslots => LineSlot(l, bits, f, n));
    FlattenLength(slots, l.channels);
    Le32IsWord(Flatten(slots), i % 0x1_0000_0000, LineFlags(l, bits, f));
    var count, flags := Le32(i % 0x1_0000_0000), LineFlags(l, bits, f);
    hide Le32, WordAt;
    assert Flatten(slots) + (count + flags) == Flatten(slots) + count + flags;
  }

  /** The frames read off the lines, byte by byte. */
  lemma FrameBytes(l: Layout, record: seq<int>, bits: seq<LineClock>, i: nat)
    requires l.Ok() && i >= 1 && IsLineFrame(l, record, bits, i)
    ensures LineBytes(l, record, bits, i)
  {
    FrameRoom(l, i);
    ReportPlaced(l, bits, i);
    assert FBitAt(l, i) == i * (1 + 8 * l.timeslots) - 8;
    hide FBitAt, LineFrame, LineFlags, OctetAt, FlagAt, WordAt;
    forall n, c | 0 <= n < l.timeslots && 0 <= c < l.channels
      ensures OctetAt(record, l.channels, n, c, bits, FBitAt(l, i))
    {
      OctetPlaced(l, bits, i, n, c);
    }
    forall c | 0 <= c < l.channels && c < 8
      ensures FlagAt(record[l.timeslots * l.channels + 4], c, bits[FBitAt(l, i)].crc(c))
    {
      FlagPlaced(l, bits, FBitAt(l, i), c);
    }
  }

  lemma FlagPlaced(l: Layout, bits: seq<LineClock>, f: nat, c: nat)
    requires f < |bits| && c < l.channels && c < 8
    ensures FlagAt(LineFlags(l, bits, f)[0], c, bits[f].crc(c))
  {
    hide MultiframeByte, FlagAt;
    MultiframeBits(seq(l.channels, c requires 0 <= c < l.channels => bits[f].crc(c)), c);
  }

  /** Every record after the first, byte by byte, in terms of the lines. */
  lemma RecordBytes(p: Params, l: Layout, evs: seq<JointEvent>, clocks: seq<LineClock>, i: nat)
    requires p.Ok() && l.Ok() && p.pageSize >= l.RecordSize() && AllSized(l, evs) && Driven(l, evs, clocks)
    requires Roomy(l, Strobes(clocks))
    requires 1 <= i < |JointRun(p, l, evs).records|
    ensures LineBytes(l, JointRun(p, l, evs).records[i], LineBits(clocks), i)
  {
    hide JointRun, LineBits, Strobes, Roomy, Driven, LineFrame, LineBytes, FBitAt;
    RecordsAreSerialFrames(p, l, evs, clocks, i);
    FrameBytes(l, JointRun(p, l, evs).records[i], LineBits(clocks), i);
  }
}
