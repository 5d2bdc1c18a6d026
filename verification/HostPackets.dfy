/** The host's side of both USB streams: splitting received packets into frames and a
    report, and packing processed frames into packets to send. */
module HostPackets {
  import opened Wrappers
  import opened Chunks
  import opened Numbers

  const CHANNELS := 8
  const TIMESLOTS_PER_CHANNEL := 24
  const FRAME_SIZE := CHANNELS * TIMESLOTS_PER_CHANNEL
  const RX_FRAME_SIZE := FRAME_SIZE + 5
  const RX_USB_REPORT_SIZE := 11
  const TX_FRAME_SIZE := 4 + FRAME_SIZE
  const TX_USB_REPORT_SIZE := 4
  const MAX_PACKET := 512

  /** A received packet. Splitting one that is shorter than the report panics in the
      source program, which is None here. */
  datatype RxPacket = RxPacket(slice: seq<int>) {
    function UsbReport(): Option<seq<int>> {
      if |slice| < RX_USB_REPORT_SIZE then None else Some(slice[|slice| - RX_USB_REPORT_SIZE..])
    }

    function Frames(): Option<seq<seq<int>>> {
      if |slice| < RX_USB_REPORT_SIZE then None
      else Some(Chunk(slice[..|slice| - RX_USB_REPORT_SIZE], RX_FRAME_SIZE))
    }
  }

  /** The host recovers exactly the records of 197 bytes and the eleven bytes of report that a
      microframe was made of. */
  lemma SplitRecoversRecords(records: seq<seq<int>>, report: seq<int>)
    requires |report| == 11
    requires forall i :: 0 <= i < |records| ==> |records[i]| == 197
    ensures RxPacket(Flatten(records) + report).Frames() == Some(records)
    ensures RxPacket(Flatten(records) + report).UsbReport() == Some(report)
  {
    var slice := Flatten(records) + report;
    var body := slice[..|slice| - RX_USB_REPORT_SIZE];
    assert body == Flatten(records) + [];
    FlattenInverse(records, [], RX_FRAME_SIZE);
  }

  // ----- Little-endian words -----

  function Le32(n: nat): (b: seq<int>)
    ensures |b| == 4 && forall i :: 0 <= i < 4 ==> 0 <= b[i] < 256
  {
    [n % 256, n / 256 % 256, n / 256 / 256 % 256, n / 256 / 256 / 256 % 256]
  }

  function FromLe32(b: seq<int>): int
    requires |b| == 4
  {
    b[0] + 256 * b[1] + 65536 * b[2] + 16777216 * b[3]
  }

  lemma Le32Inverse(n: nat)
    requires n < 0x1_0000_0000
    ensures FromLe32(Le32(n)) == n
  {
    var a := n / 256;
    var b := a / 256;
    var c := b / 256;
    assert c < 256;
    assert n == 256 * a + n % 256 && a == 256 * b + a % 256 && b == 256 * c + b % 256;
  }

  /** The four bytes at `at` are the word `n`, least significant byte first. */
  predicate WordAt(b: seq<int>, at: nat, n: int) {
    && at + 4 <= |b|
    && (forall i :: at <= i < at + 4 ==> 0 <= b[i] < 256)
    && b[at] + 256 * b[at + 1] + 65536 * b[at + 2] + 16777216 * b[at + 3] == n
  }

  lemma Le32IsWord(before: seq<int>, n: nat, after: seq<int>)
    requires n < 0x1_0000_0000
    ensures WordAt(before + Le32(n) + after, |before|, n)
  {
    Le32Inverse(n);
    var b := before + Le32(n) + after;
    assert forall i :: 0 <= i < 4 ==> b[|before| + i] == Le32(n)[i];
  }

  // ----- Sending -----

  datatype InternalFrame = InternalFrame(frame: seq<int>, frameCount: nat) {
    predicate Ok() { |frame| == FRAME_SIZE && frameCount < 0x1_0000_0000 }

    /** A record as sent: the frame's report, then its samples. */
    function Record(): (r: seq<int>)
      requires Ok()
      ensures |r| == TX_FRAME_SIZE
    {
      Le32(frameCount) + frame
    }
  }

  ghost predicate AllOk(frames: seq<InternalFrame>) {
    forall i :: 0 <= i < |frames| ==> frames[i].Ok()
  }

  ghost predicate BuffersOk(stale: seq<seq<int>>) {
    forall i :: 0 <= i < |stale| ==> |stale[i]| >= MAX_PACKET
  }

  lemma AllOkDrop(frames: seq<InternalFrame>, n: nat)
    requires AllOk(frames) && n <= |frames|
    ensures AllOk(frames[n..])
  {
  }

  function RecordsOf(frames: seq<InternalFrame>): (r: seq<seq<int>>)
    requires AllOk(frames)
    ensures |r| == |frames| && forall i :: 0 <= i < |r| ==> |r[i]| == TX_FRAME_SIZE
  {
    seq(|frames|, i requires 0 <= i < |frames| => frames[i].Record())
  }

  /** The queue between processing and sending; frames leave it from the front. */
  class FrameQueue {
    var frames: seq<InternalFrame>

    constructor (initial: seq<InternalFrame>)
      ensures frames == initial
    {
      frames := initial;
    }

    method Pop() returns (frame: Option<InternalFrame>)
      modifies this
      ensures old(frames) == [] ==> frame.None? && frames == []
      ensures old(frames) != [] ==> frame == Some(old(frames)[0]) && frames == old(frames)[1..]
    {
      if |frames| == 0 {
        frame := None;
      } else {
        frame, frames := Some(frames[0]), frames[1..];
      }
    }
  }

  /** How many frames go into each of the next `packets` packets. */
  function Share(available: nat, packets: nat): (s: nat)
    ensures s <= available
  {
    Min(available, 2 * packets)
  }

  /** The frame area of one packet, filled record by record from the queue. `stale` is
      what the buffer held; the report at its head is never written. */
  method FillPacket(queue: FrameQueue, stale: seq<int>) returns (packet: seq<int>, starved: bool)
    requires |stale| >= MAX_PACKET && AllOk(queue.frames)
    modifies queue
    ensures var n := Min(|old(queue.frames)|, 2);
            && queue.frames == old(queue.frames)[n..]
            && packet == stale[..TX_USB_REPORT_SIZE] + Flatten(RecordsOf(old(queue.frames)[..n]))
            && PacketHolds(packet, stale, old(queue.frames)[..n])
    ensures !starved
  {
    hide Flatten, RecordsOf, PacketFront, Overwrite, AllOk, InternalFrame.Record, PacketHolds, FrameAt;
    var available := |queue.frames|;
    var frameCount := if available >= 2 then 2 else available;
    var length := TX_USB_REPORT_SIZE + frameCount * TX_FRAME_SIZE;
    packet, starved := stale[..length], false;
    ghost var before := queue.frames;
    var i := 0;
    FrontStarts(packet, stale, before);
    while i < frameCount
      invariant 0 <= i <= frameCount
      invariant |packet| == length && !starved
      invariant queue.frames == before[i..]
      invariant packet[..TX_USB_REPORT_SIZE + i * TX_FRAME_SIZE] == PacketFront(stale, before, i)
    {
      var at := TX_USB_REPORT_SIZE + i * TX_FRAME_SIZE;
      var next := queue.Pop();
      match next {
        case Some(frame) =>
          FrontGrows(packet, stale, before, i);
          packet := Overwrite(packet, at, frame.Record());
        case None =>
          starved := true;
      }
      i := i + 1;
    }
    FrontDone(packet, stale, before, i);
  }

  /** What is where in a packet: four bytes left as they were, and every 196 bytes a frame: its
      count as a little-endian word and then its 192 samples. */
  ghost predicate PacketHolds(packet: seq<int>, stale: seq<int>, frames: seq<InternalFrame>) {
    && |packet| == 4 + 196 * |frames| && |stale| >= 4 && packet[..4] == stale[..4]
    && forall i :: 0 <= i < |frames| ==> FrameAt(packet, 4 + 196 * i, frames[i])
  }

  ghost predicate FrameAt(b: seq<int>, at: int, f: InternalFrame) {
    && 0 <= at && at + 196 <= |b| && WordAt(b, at, f.frameCount) && |f.frame| == 192
    && b[at + 4..at + 196] == f.frame
  }

  lemma AllOkTake(frames: seq<InternalFrame>, n: nat)
    requires AllOk(frames) && n <= |frames|
    ensures AllOk(frames[..n])
  {
  }

  lemma RecordHolds(f: InternalFrame)
    requires f.Ok()
    ensures FrameAt(f.Record(), 0, f)
  {
    Le32IsWord([], f.frameCount, f.frame);
    assert [] + Le32(f.frameCount) + f.frame == f.Record();
  }

  lemma FrameMoved(b: seq<int>, at: int, record: seq<int>, f: InternalFrame)
    requires FrameAt(record, 0, f) && |record| == 196 && 0 <= at && at + 196 <= |b| && b[at..at + 196] == record
    ensures FrameAt(b, at, f)
  {
    assert forall i :: 0 <= i < 196 ==> b[at + i] == record[i];
    assert b[at + 4..at + 196] == record[4..196];
  }

  lemma {:induction false} PacketLaidOut(stale: seq<int>, frames: seq<InternalFrame>)
    requires AllOk(frames) && |stale| >= TX_USB_REPORT_SIZE
    ensures PacketHolds(stale[..TX_USB_REPORT_SIZE] + Flatten(RecordsOf(frames)), stale, frames)
  {
    var records := RecordsOf(frames);
    var packet := stale[..TX_USB_REPORT_SIZE] + Flatten(records);
    FlattenSized(records, TX_FRAME_SIZE);
    forall i | 0 <= i < |frames| ensures FrameAt(packet, 4 + 196 * i, frames[i]) {
      RecordInPlace(records, i);
      RecordHolds(frames[i]);
      hide Flatten, FrameAt, InternalFrame.Record;
      var body := Flatten(records);
      assert packet[4 + 196 * i..4 + 196 * i + 196] == body[196 * i..196 * i + 196];
      FrameMoved(packet, 4 + 196 * i, records[i], frames[i]);
    }
    hide Flatten;
  }

  lemma {:induction false} FlattenSized(records: seq<seq<int>>, size: nat)
    requires forall i :: 0 <= i < |records| ==> |records[i]| == size
    ensures |Flatten(records)| == size * |records|
  {
    if records != [] {
      FlattenSized(records[1..], size);
      assert size * |records| == size + size * (|records| - 1);
    }
  }

  lemma RecordInPlace(records: seq<seq<int>>, i: nat)
    requires i < |records| && forall k :: 0 <= k < |records| ==> |records[k]| == 196
    ensures 196 * i + 196 <= |Flatten(records)| && Flatten(records)[196 * i..196 * i + 196] == records[i]
  {
    FlattenSized(records, 196);
    forall k | 0 <= k < 196 ensures Flatten(records)[196 * i + k] == records[i][k] { FlattenAt(records, 196, i, k); }
    hide Flatten;
  }

  /** The bytes of `part` copied over those at `at`. */
  function Overwrite(packet: seq<int>, at: nat, part: seq<int>): (r: seq<int>)
    requires at + |part| <= |packet|
    ensures |r| == |packet|
  {
    packet[..at] + part + packet[at + |part|..]
  }

  /** The report bytes and the first `n` records. */
  function PacketFront(stale: seq<int>, frames: seq<InternalFrame>, n: nat): seq<int>
    requires |stale| >= TX_USB_REPORT_SIZE && AllOk(frames) && n <= |frames|
  {
    stale[..TX_USB_REPORT_SIZE] + Flatten(RecordsOf(frames[..n]))
  }

  lemma FrontStarts(packet: seq<int>, stale: seq<int>, frames: seq<InternalFrame>)
    requires AllOk(frames) && TX_USB_REPORT_SIZE <= |packet| <= |stale| && packet == stale[..|packet|]
    ensures packet[..TX_USB_REPORT_SIZE] == PacketFront(stale, frames, 0)
  {
    NoRecords(frames);
    hide Flatten, RecordsOf;
  }

  /** One more record, put behind those already there. */
  lemma FrontGrows(packet: seq<int>, stale: seq<int>, frames: seq<InternalFrame>, i: nat)
    requires AllOk(frames) && |stale| >= TX_USB_REPORT_SIZE && i < |frames|
    requires TX_USB_REPORT_SIZE + (i + 1) * TX_FRAME_SIZE <= |packet|
    requires packet[..TX_USB_REPORT_SIZE + i * TX_FRAME_SIZE] == PacketFront(stale, frames, i)
    ensures var at := TX_USB_REPORT_SIZE + i * TX_FRAME_SIZE;
            && frames[i].Ok()
            && var next := Overwrite(packet, at, frames[i].Record());
            && next[..TX_USB_REPORT_SIZE + (i + 1) * TX_FRAME_SIZE] == PacketFront(stale, frames, i + 1)
  {
    hide Flatten, RecordsOf;
    OneMoreRecord(frames, i);
    var record, front := frames[i].Record(), stale[..TX_USB_REPORT_SIZE];
    var before := Flatten(RecordsOf(frames[..i]));
    hide InternalFrame.Record;
    assert front + before + record == front + (before + record);
  }

  lemma FrontDone(packet: seq<int>, stale: seq<int>, frames: seq<InternalFrame>, n: nat)
    requires AllOk(frames) && |stale| >= TX_USB_REPORT_SIZE && n <= |frames|
    requires |packet| == TX_USB_REPORT_SIZE + n * TX_FRAME_SIZE && packet[..|packet|] == PacketFront(stale, frames, n)
    ensures packet == stale[..TX_USB_REPORT_SIZE] + Flatten(RecordsOf(frames[..n]))
    ensures PacketHolds(packet, stale, frames[..n])
  {
    assert packet[..|packet|] == packet;
    AllOkTake(frames, n);
    PacketLaidOut(stale, frames[..n]);
    hide Flatten, RecordsOf, PacketHolds, AllOk;
  }

  lemma NoRecords(frames: seq<InternalFrame>)
    requires AllOk(frames)
    ensures Flatten(RecordsOf(frames[..0])) == []
  {
  }

  lemma OneMoreRecord(frames: seq<InternalFrame>, i: nat)
    requires AllOk(frames) && i < |frames|
    ensures Flatten(RecordsOf(frames[..i + 1])) == Flatten(RecordsOf(frames[..i])) + frames[i].Record()
  {
    assert RecordsOf(frames[..i + 1]) == RecordsOf(frames[..i]) + [frames[i].Record()];
    FlattenAppend(RecordsOf(frames[..i]), [frames[i].Record()]);
    assert Flatten([frames[i].Record()]) == frames[i].Record() + Flatten([frames[i].Record()][1..]);
  }

  /** The packets made from a queue, given what the packet buffers held before. */
  function Packets(frames: seq<InternalFrame>, stale: seq<seq<int>>): (p: seq<seq<int>>)
    requires AllOk(frames)
    requires BuffersOk(stale)
    ensures |p| == |stale|
    decreases |stale|
  {
    if stale == [] then [] else
      var n := Min(|frames|, 2);
      [stale[0][..TX_USB_REPORT_SIZE] + Flatten(RecordsOf(frames[..n]))] + Packets(frames[n..], stale[1..])
  }

  /** What each packet of a transfer holds: the next two frames, or as many as are left. */
  lemma {:induction false} PacketsHold(frames: seq<InternalFrame>, stale: seq<seq<int>>, i: nat)
    requires AllOk(frames) && BuffersOk(stale) && i < |stale|
    ensures PacketHolds(Packets(frames, stale)[i], stale[i], frames[Min(2 * i, |frames|)..Min(2 * i + 2, |frames|)])
    decreases i
  {
    hide Packets, PacketHolds, AllOk, Flatten, RecordsOf;
    var n := Min(|frames|, 2);
    PacketsHead(frames, stale);
    AllOkTake(frames, n);
    AllOkDrop(frames, n);
    if i == 0 {
      PacketLaidOut(stale[0], frames[..n]);
      assert frames[0..n] == frames[..n];
    } else {
      PacketsHold(frames[n..], stale[1..], i - 1);
      LaterShare(frames, n, 2 * i);
    }
  }

  lemma LaterShare<T>(s: seq<T>, n: nat, k: nat)
    requires n == Min(|s|, 2) && k >= 2
    ensures s[n..][Min(k - 2, |s| - n)..Min(k, |s| - n)] == s[Min(k, |s|)..Min(k + 2, |s|)]
  {
  }

  /** A packet's share can be taken first or last. */
  lemma ShareSplit(n: nat, k: nat)
    ensures Share(n, 0) == 0 && Share(n, k) <= n
    ensures Min(n, 2) + Share(n - Min(n, 2), k) == Share(n, k + 1)
    ensures Share(n, k) + Min(n - Share(n, k), 2) == Share(n, k + 1)
  {
  }

  lemma DropDrop<T>(s: seq<T>, a: nat, b: nat)
    requires a + b <= |s|
    ensures s[a..][b..] == s[a + b..]
    ensures s[a..][..b] == s[a..a + b]
  {
  }

  lemma NoPackets(frames: seq<InternalFrame>)
    requires AllOk(frames)
    ensures Packets(frames, []) == []
  {
  }

  lemma PacketsHead(frames: seq<InternalFrame>, stale: seq<seq<int>>)
    requires AllOk(frames) && stale != [] && BuffersOk(stale)
    ensures var n := Min(|frames|, 2);
            Packets(frames, stale)
              == [stale[0][..TX_USB_REPORT_SIZE] + Flatten(RecordsOf(frames[..n]))] + Packets(frames[n..], stale[1..])
  {
  }

  lemma {:induction false} PacketsOneMore(frames: seq<InternalFrame>, stale: seq<seq<int>>, last: seq<int>)
    requires AllOk(frames) && |last| >= MAX_PACKET
    requires BuffersOk(stale)
    ensures var rest := frames[Share(|frames|, |stale|)..];
            Packets(frames, stale + [last])
              == Packets(frames, stale)
                 + [last[..TX_USB_REPORT_SIZE] + Flatten(RecordsOf(rest[..Min(|rest|, 2)]))]
    decreases |stale|
  {
    hide Flatten, RecordsOf, Share, Packets, Min;
    var n := Min(|frames|, 2);
    ShareSplit(|frames|, 0);
    PacketsHead(frames, stale + [last]);
    assert frames[0..] == frames;
    if stale == [] {
      NoPackets(frames);
      NoPackets(frames[n..]);
      assert ([] + [last])[1..] == [];
    } else {
      PacketsHead(frames, stale);
      PacketsOneMore(frames[n..], stale[1..], last);
      assert (stale + [last])[1..] == stale[1..] + [last] && (stale + [last])[0] == stale[0];
      ShareSplit(|frames|, |stale| - 1);
      DropDrop(frames, n, Share(|frames| - n, |stale| - 1));
    }
  }

  lemma BuffersTake(stale: seq<seq<int>>, i: nat)
    requires BuffersOk(stale) && i < |stale|
    ensures BuffersOk(stale[..i]) && BuffersOk(stale[..i + 1]) && |stale[i]| >= MAX_PACKET
  {
  }

  /** One packet of a transfer more. */
  lemma OutStep(frames: seq<InternalFrame>, stale: seq<seq<int>>, i: nat)
    requires AllOk(frames) && BuffersOk(stale) && i < |stale|
    ensures var rest := frames[Share(|frames|, i)..];
            var n := Min(|rest|, 2);
            && AllOk(rest) && AllOk(rest[n..]) && rest[n..] == frames[Share(|frames|, i + 1)..]
            && BuffersOk(stale[..i]) && BuffersOk(stale[..i + 1])
            && Packets(frames, stale[..i + 1])
               == Packets(frames, stale[..i]) + [stale[i][..TX_USB_REPORT_SIZE] + Flatten(RecordsOf(rest[..n]))]
  {
    hide Flatten, RecordsOf, Packets, Share, Min, AllOk, BuffersOk;
    BuffersTake(stale, i);
    ShareSplit(|frames|, i);
    var rest := frames[Share(|frames|, i)..];
    var n := Min(|rest|, 2);
    AllOkDrop(frames, Share(|frames|, i));
    AllOkDrop(rest, n);
    DropDrop(frames, Share(|frames|, i), n);
    PacketsOneMore(frames, stale[..i], stale[i]);
    assert stale[..i + 1] == stale[..i] + [stale[i]];
  }

  /** Whether a transfer drops a frame first: the device's FIFO level is known and too high. */
  predicate Drops(queue: seq<InternalFrame>, levelMin: nat, levelMax: nat) {
    levelMin <= levelMax && levelMin > 12 && queue != []
  }

  /** The frames a transfer has to take from. */
  function Offered(queue: seq<InternalFrame>, levelMin: nat, levelMax: nat): (frames: seq<InternalFrame>)
    ensures AllOk(queue) ==> AllOk(frames)
  {
    if Drops(queue, levelMin, levelMax) then queue[1..] else queue
  }

  /** One OUT transfer: perhaps drop a frame to draw down the device's FIFO, then pack up
      to two frames into each packet. */
  method HandleOut(queue: FrameQueue, stale: seq<seq<int>>, levelMin: nat, levelMax: nat)
      returns (packets: seq<seq<int>>, starved: bool)
    requires AllOk(queue.frames) && BuffersOk(stale)
    modifies queue
    ensures var frames := Offered(old(queue.frames), levelMin, levelMax);
            && packets == Packets(frames, stale)
            && queue.frames == frames[Share(|frames|, |stale|)..]
            && TransferHolds(packets, stale, frames)
    ensures !starved
  {
    hide Flatten, RecordsOf, Packets, Share, Min, AllOk, TransferHolds;
    AllOkDrop(queue.frames, if queue.frames == [] then 0 else 1);
    if levelMin <= levelMax {
      if levelMin > 12 {
        var _ := queue.Pop();
      }
    }
    ghost var frames := queue.frames;
    packets, starved := [], false;
    NoPackets(frames);
    ShareSplit(|frames|, 0);
    var i := 0;
    while i < |stale|
      invariant 0 <= i <= |stale| && !starved
      invariant queue.frames == frames[Share(|frames|, i)..] && AllOk(queue.frames)
      invariant packets == Packets(frames, stale[..i])
    {
      ghost var rest := queue.frames;
      var packet, short := FillPacket(queue, stale[i]);
      starved := starved || short;
      OutStep(frames, stale, i);
      packets := packets + [packet];
      i := i + 1;
    }
    assert stale[..|stale|] == stale;
    TransferLaidOut(frames, stale);
  }

  /** Two frames to a packet, in order, while there are any. */
  ghost predicate TransferHolds(packets: seq<seq<int>>, stale: seq<seq<int>>, frames: seq<InternalFrame>) {
    && |packets| == |stale|
    && forall i :: 0 <= i < |packets| ==>
         PacketHolds(packets[i], stale[i], frames[Min(2 * i, |frames|)..Min(2 * i + 2, |frames|)])
  }

  lemma TransferLaidOut(frames: seq<InternalFrame>, stale: seq<seq<int>>)
    requires AllOk(frames) && BuffersOk(stale)
    ensures TransferHolds(Packets(frames, stale), stale, frames)
  {
    hide Packets, PacketHolds;
    forall i | 0 <= i < |stale|
      ensures PacketHolds(Packets(frames, stale)[i], stale[i], frames[Min(2 * i, |frames|)..Min(2 * i + 2, |frames|)])
    {
      PacketsHold(frames, stale, i);
    }
  }

  /** When a transfer drops a frame. */
  lemma OfferedExact(queue: seq<InternalFrame>, levelMin: nat, levelMax: nat)
    ensures |Offered(queue, levelMin, levelMax)|
         == |queue| - if |queue| >= 1 && 13 <= levelMin <= levelMax then 1 else 0
    ensures Offered(queue, levelMin, levelMax) == queue[|queue| - |Offered(queue, levelMin, levelMax)|..]
  {
  }
}

/** Packets sent by the host, as the device parses them. */
module OutRoundTrip {
  import opened Chunks
  import opened HostPackets
  import opened Numbers
  import TxUsb

  const DEVICE := TxUsb.Sizes(TX_FRAME_SIZE, TX_USB_REPORT_SIZE)

  lemma PacketParses(report: seq<int>, frames: seq<InternalFrame>)
    requires |report| == TX_USB_REPORT_SIZE && AllOk(frames)
    ensures TxUsb.Records(DEVICE, report + Flatten(RecordsOf(frames))) == RecordsOf(frames)
  {
    var piece := report + Flatten(RecordsOf(frames));
    assert piece[TX_USB_REPORT_SIZE..] == Flatten(RecordsOf(frames)) + [];
    FlattenInverse(RecordsOf(frames), [], TX_FRAME_SIZE);
  }

  lemma RecordsOfOneMore(pieces: seq<seq<int>>, packet: seq<int>)
    ensures TxUsb.AllRecords(DEVICE, pieces + [packet])
         == TxUsb.AllRecords(DEVICE, pieces) + TxUsb.Records(DEVICE, packet)
  {
    assert (pieces + [packet])[..|pieces|] == pieces;
  }

  /** The packets of a transfer parse into exactly the frames taken from the queue. */
  lemma {:induction false} PacketsParse(pieces: seq<seq<int>>, frames: seq<InternalFrame>, stale: seq<seq<int>>)
    requires AllOk(frames) && BuffersOk(stale)
    ensures TxUsb.AllRecords(DEVICE, pieces + Packets(frames, stale))
         == TxUsb.AllRecords(DEVICE, pieces) + RecordsOf(frames[..Share(|frames|, |stale|)])
    decreases |stale|
  {
    hide TxUsb.Records, TxUsb.AllRecords, Flatten, RecordsOf, Packets, Share, Min;
    ShareSplit(|frames|, 0);
    if stale == [] {
      NoPackets(frames);
      assert pieces + Packets(frames, stale) == pieces;
      assert RecordsOf(frames[..0]) == [];
    } else {
      var n := Min(|frames|, 2);
      var packet := stale[0][..TX_USB_REPORT_SIZE] + Flatten(RecordsOf(frames[..n]));
      ShareSplit(|frames|, |stale| - 1);
      PacketsHead(frames, stale);
      PacketsParse(pieces + [packet], frames[n..], stale[1..]);
      PacketParses(stale[0][..TX_USB_REPORT_SIZE], frames[..n]);
      RecordsOfOneMore(pieces, packet);
      assert pieces + Packets(frames, stale) == (pieces + [packet]) + Packets(frames[n..], stale[1..]);
      SplitRecords(frames, n, Share(|frames|, |stale|));
      hide *;
      Regroup(TxUsb.AllRecords(DEVICE, pieces), RecordsOf(frames[..n]),
              RecordsOf(frames[n..][..Share(|frames|, |stale|) - n]));
    }
  }

  lemma Regroup<T>(a: seq<T>, b: seq<T>, c: seq<T>)
    ensures (a + b) + c == a + (b + c)
  {
  }

  lemma SplitRecords(frames: seq<InternalFrame>, n: nat, k: nat)
    requires AllOk(frames) && n <= k <= |frames|
    ensures RecordsOf(frames[..k]) == RecordsOf(frames[..n]) + RecordsOf(frames[n..][..k - n])
  {
    assert frames[..k] == frames[..n] + frames[n..][..k - n];
  }

  /** The packets that arrive: the bytes received, cut at each start of frame, without the
      microframes in which there were none. */
  function Arrived(pieces: seq<seq<int>>): seq<seq<int>> {
    if pieces == [] then [] else
      var piece := pieces[|pieces| - 1];
      Arrived(pieces[..|pieces| - 1]) + if piece == [] then [] else [piece]
  }

  /** Cycles that deliver the packets one after another, with idle clocks and empty microframes
      anywhere, and no byte before their first start of frame. */
  predicate DeliversAll(cycles: seq<TxUsb.OutCycle>, packets: seq<seq<int>>) {
    TxUsb.Pieces(cycles)[0] == [] && Arrived(TxUsb.Pieces(cycles)) == packets
  }

  /** An empty microframe makes no record. */
  lemma {:induction false} ArrivedRecords(before: seq<seq<int>>, pieces: seq<seq<int>>)
    ensures TxUsb.AllRecords(DEVICE, before + pieces) == TxUsb.AllRecords(DEVICE, before + Arrived(pieces))
  {
    hide TxUsb.AllRecords;
    if pieces != [] {
      var init, piece := pieces[..|pieces| - 1], pieces[|pieces| - 1];
      ArrivedRecords(before, init);
      RecordsOfOneMore(before + init, piece);
      RecordsOfOneMore(before + Arrived(init), piece);
      NoRecord();
      assert before + pieces == (before + init) + [piece];
      if piece == [] {
        assert Arrived(pieces) == Arrived(init);
      } else {
        assert before + Arrived(pieces) == (before + Arrived(init)) + [piece];
      }
    }
  }

  lemma NoRecord()
    ensures TxUsb.Records(DEVICE, []) == []
  {
  }

  /** Cycles that begin without a byte add their further pieces to those before. */
  lemma {:induction false} PiecesAppend(before: seq<TxUsb.OutCycle>, cycles: seq<TxUsb.OutCycle>)
    requires TxUsb.Pieces(cycles)[0] == []
    ensures TxUsb.Pieces(before + cycles) == TxUsb.Pieces(before) + TxUsb.Pieces(cycles)[1..]
  {
    if cycles == [] {
      assert before + cycles == before;
    } else {
      var init := cycles[..|cycles| - 1];
      assert (before + cycles)[..|before + cycles| - 1] == before + init;
      PiecesAppend(before, init);
    }
  }

  lemma {:induction false} ArrivedTail(pieces: seq<seq<int>>)
    requires pieces != [] && pieces[0] == []
    ensures Arrived(pieces[1..]) == Arrived(pieces)
  {
    if |pieces| > 1 {
      var init := pieces[..|pieces| - 1];
      ArrivedTail(init);
      assert pieces[1..][..|pieces| - 2] == init[1..];
    } else {
      assert Arrived(pieces) == Arrived([]) + [];
    }
  }

  lemma DeliveredRecords(before: seq<TxUsb.OutCycle>, cycles: seq<TxUsb.OutCycle>, packets: seq<seq<int>>)
    requires DeliversAll(cycles, packets)
    ensures TxUsb.AllRecords(DEVICE, TxUsb.Pieces(before + cycles))
         == TxUsb.AllRecords(DEVICE, TxUsb.Pieces(before) + packets)
  {
    var pieces := TxUsb.Pieces(cycles);
    PiecesAppend(before, cycles);
    ArrivedTail(pieces);
    ArrivedRecords(TxUsb.Pieces(before), pieces[1..]);
    hide *;
  }

  /** From the host's queue to the device's write strobes: whatever was received before, a
      delivered transfer makes the adapter offer exactly the queued frames' records, in
      order, and nothing else. */
  lemma TransferOffersQueuedFrames(page: seq<int>, before: seq<TxUsb.OutCycle>, cycles: seq<TxUsb.OutCycle>,
                                   frames: seq<InternalFrame>, stale: seq<seq<int>>)
    requires AllOk(frames) && BuffersOk(stale)
    requires |page| >= TX_FRAME_SIZE && DeliversAll(cycles, Packets(frames, stale))
    ensures TxUsb.WriterRun(DEVICE, page, before + cycles).offered
         == TxUsb.WriterRun(DEVICE, page, before).offered
            + RecordsOf(frames[..Share(|frames|, |stale|)])
  {
    hide TxUsb.Records, TxUsb.AllRecords, TxUsb.WriterRun, TxUsb.ParserAt, Packets;
    DeliveredRecords(before, cycles, Packets(frames, stale));
    PacketsParse(TxUsb.Pieces(before), frames, stale);
    TxUsb.OfferedRecordsExact(DEVICE, page, before);
    TxUsb.OfferedRecordsExact(DEVICE, page, before + cycles);
  }
}
