/** The whole transmit path: the host's frame queue over any number of transfers, their packets on
    the wire, the parser and the FIFO, up to the bytes the framer side reads. */
module TxPath {

  import opened Chunks
  import opened HostPackets
  import opened OutRoundTrip
  import opened PagedFifo
  import opened PagedFifoRuns

  import Runs = RxFramerRuns
  import Tx = TxUsbRuns
  import Usb = TxUsb

  // ----- The host -----

  /** The processor queues a frame, or a transfer is filled: `stale` is what its buffers held,
      the levels are those last reported for the device's FIFO. */
  datatype HostOp = Push(frame: InternalFrame) | Out(stale: seq<seq<int>>, levelMin: nat, levelMax: nat)

  datatype Transfer = Transfer(frames: seq<InternalFrame>, stale: seq<seq<int>>)

  /** The queue; every frame ever queued; of those that have left the queue, whether each was
      sent or dropped; and the transfers so far. */
  datatype Host = Host(queue: seq<InternalFrame>, pushed: seq<InternalFrame>, kept: seq<bool>,
                       transfers: seq<Transfer>)

  function Trues(n: nat): (t: seq<bool>)
    ensures |t| == n
  {
    seq(n, i => true)
  }

  ghost predicate OpsOk(ops: seq<HostOp>) {
    forall i :: 0 <= i < |ops| ==>
      match ops[i]
      case Push(frame) => frame.Ok()
      case Out(stale, _, _) => BuffersOk(stale)
  }

  ghost predicate TransfersOk(ts: seq<Transfer>) {
    forall i :: 0 <= i < |ts| ==> AllOk(ts[i].frames) && BuffersOk(ts[i].stale)
  }

  /** The front frame is dropped. */
  function DropOne(h: Host): Host
    requires h.queue != []
  {
    Host(h.queue[1..], h.pushed, h.kept + [false], h.transfers)
  }

  /** The packets of one transfer are filled. */
  function Fill(h: Host, stale: seq<seq<int>>): Host {
    var n := Share(|h.queue|, |stale|);
    Host(h.queue[n..], h.pushed, h.kept + Trues(n), h.transfers + [Transfer(h.queue, stale)])
  }

  function HostStep(h: Host, op: HostOp): Host {
    match op
    case Push(frame) => h.(queue := h.queue + [frame], pushed := h.pushed + [frame])
    case Out(stale, levelMin, levelMax) => Fill(if Drops(h.queue, levelMin, levelMax) then DropOne(h) else h, stale)
  }

  /** What the host does for a transfer is what its handler does to the queue and the packets. */
  lemma OutIsHandleOut(h: Host, stale: seq<seq<int>>, levelMin: nat, levelMax: nat)
    requires AllOk(h.queue) && TransfersOk(h.transfers) && BuffersOk(stale)
    ensures var n, frames := HostStep(h, Out(stale, levelMin, levelMax)), Offered(h.queue, levelMin, levelMax);
            && n.queue == frames[Share(|frames|, |stale|)..]
            && n.kept == h.kept + (if |h.queue| >= 1 && 13 <= levelMin <= levelMax then [false] else [])
                         + Trues(|frames| - |n.queue|)
            && TransfersOk(n.transfers)
            && AllPackets(n.transfers) == AllPackets(h.transfers) + Packets(frames, stale)
  {
    var frames := Offered(h.queue, levelMin, levelMax);
    hide Share, AllOk, TransfersOk, AllPackets;
    OneMoreTransfer(h.transfers, Transfer(frames, stale));
  }

  lemma OneMoreTransfer(ts: seq<Transfer>, t: Transfer)
    requires TransfersOk(ts) && AllOk(t.frames) && BuffersOk(t.stale)
    ensures TransfersOk(ts + [t]) && AllPackets(ts + [t]) == AllPackets(ts) + Packets(t.frames, t.stale)
  {
    assert (ts + [t])[..|ts|] == ts;
    hide Packets, AllOk, BuffersOk;
  }

  function HostRun(ops: seq<HostOp>): (h: Host)
    requires OpsOk(ops)
    ensures AllOk(h.queue) && TransfersOk(h.transfers)
  {
    if ops == [] then Host([], [], [], []) else HostStep(HostRun(ops[..|ops| - 1]), ops[|ops| - 1])
  }

  /** What the transfers put into packets, in order. */
  function Sent(ts: seq<Transfer>): seq<InternalFrame> {
    if ts == [] then [] else
      var t := ts[|ts| - 1];
      Sent(ts[..|ts| - 1]) + t.frames[..Share(|t.frames|, |t.stale|)]
  }

  function AllPackets(ts: seq<Transfer>): seq<seq<int>>
    requires TransfersOk(ts)
  {
    if ts == [] then [] else
      var t := ts[|ts| - 1];
      AllPackets(ts[..|ts| - 1]) + Packets(t.frames, t.stale)
  }

  /** The elements marked. */
  function Marked<T>(s: seq<T>, marks: seq<bool>): seq<T>
    requires |s| == |marks|
  {
    if s == [] then [] else
      var n := |s| - 1;
      Marked(s[..n], marks[..n]) + if marks[n] then [s[n]] else []
  }

  lemma {:induction false} MarkedAppend<T>(a: seq<T>, b: seq<T>, ma: seq<bool>, mb: seq<bool>)
    requires |a| == |ma| && |b| == |mb|
    ensures Marked(a + b, ma + mb) == Marked(a, ma) + Marked(b, mb)
  {
    if b == [] {
      assert a + b == a && ma + mb == ma;
    } else {
      var n := |b| - 1;
      MarkedAppend(a, b[..n], ma, mb[..n]);
      assert (a + b)[..|a| + n] == a + b[..n] && (ma + mb)[..|a| + n] == ma + mb[..n];
    }
  }

  lemma {:induction false} MarkedAll<T>(s: seq<T>)
    ensures Marked(s, Trues(|s|)) == s
  {
    if s != [] {
      MarkedAll(s[..|s| - 1]);
      assert Trues(|s|)[..|s| - 1] == Trues(|s| - 1);
      assert s == s[..|s| - 1] + [s[|s| - 1]];
    }
  }

  ghost predicate HostInv(h: Host) {
    && |h.kept| <= |h.pushed| && h.queue == h.pushed[|h.kept|..]
    && AllOk(h.pushed) && AllOk(h.queue) && TransfersOk(h.transfers)
    && Sent(h.transfers) == Marked(h.pushed[..|h.kept|], h.kept)
  }

  lemma DropKeepsInv(h: Host)
    requires HostInv(h) && h.queue != []
    ensures HostInv(DropOne(h))
  {
    var k := |h.kept|;
    assert h.pushed[..k + 1] == h.pushed[..k] + [h.pushed[k]];
    MarkedAppend(h.pushed[..k], [h.pushed[k]], h.kept, [false]);
    assert Marked([h.pushed[k]], [false]) == [];
    hide Marked, Sent;
  }

  lemma FillKeepsInv(h: Host, stale: seq<seq<int>>)
    requires HostInv(h) && BuffersOk(stale)
    ensures HostInv(Fill(h, stale))
  {
    var n := Share(|h.queue|, |stale|);
    SentOneMore(h.transfers, Transfer(h.queue, stale));
    AllOkDrop(h.queue, n);
    hide Share, Sent, Marked, AllOk, TransfersOk;
    MarkedFront(h.pushed, |h.kept|, n, h.kept);
  }

  /** The next `n` elements are all marked. */
  lemma MarkedFront<T>(s: seq<T>, k: nat, n: nat, marks: seq<bool>)
    requires k + n <= |s| && |marks| == k
    ensures Marked(s[..k + n], marks + Trues(n)) == Marked(s[..k], marks) + s[k..][..n]
    ensures s[k..][n..] == s[k + n..]
  {
    MarkedAll(s[k..][..n]);
    MarkedAppend(s[..k], s[k..][..n], marks, Trues(n));
    hide Marked;
    assert s[..k + n] == s[..k] + s[k..][..n];
  }

  lemma SentOneMore(ts: seq<Transfer>, t: Transfer)
    requires TransfersOk(ts) && AllOk(t.frames) && BuffersOk(t.stale)
    ensures TransfersOk(ts + [t]) && Sent(ts + [t]) == Sent(ts) + t.frames[..Share(|t.frames|, |t.stale|)]
  {
    assert (ts + [t])[..|ts|] == ts;
  }

  lemma PushKeepsInv(h: Host, frame: InternalFrame)
    requires HostInv(h) && frame.Ok()
    ensures HostInv(h.(queue := h.queue + [frame], pushed := h.pushed + [frame]))
  {
    hide Sent, Marked;
    assert (h.pushed + [frame])[..|h.kept|] == h.pushed[..|h.kept|];
  }

  /** The host loses nothing it does not mean to: what its transfers carry, joined together, is
      every frame ever queued, in order, except those dropped to draw down the device's FIFO
      and those still in the queue. */
  lemma {:induction false} HostSendsQueuedFrames(ops: seq<HostOp>)
    requires OpsOk(ops)
    ensures HostInv(HostRun(ops))
  {
    if ops == [] {
      assert Marked<InternalFrame>([], []) == [];
    } else {
      var init, op := ops[..|ops| - 1], ops[|ops| - 1];
      HostSendsQueuedFrames(init);
      var h := HostRun(init);
      hide HostInv, DropOne, Fill;
      match op {
        case Push(frame) =>
          PushKeepsInv(h, frame);
        case Out(stale, levelMin, levelMax) =>
          if Drops(h.queue, levelMin, levelMax) {
            DropKeepsInv(h);
            FillKeepsInv(DropOne(h), stale);
          } else {
            FillKeepsInv(h, stale);
          }
      }
    }
  }

  // ----- From packets to records -----

  lemma {:induction false} TransfersParse(pieces: seq<seq<int>>, ts: seq<Transfer>)
    requires TransfersOk(ts) && AllOk(Sent(ts))
    ensures Usb.AllRecords(DEVICE, pieces + AllPackets(ts)) == Usb.AllRecords(DEVICE, pieces) + RecordsOf(Sent(ts))
  {
    hide Usb.AllRecords, Packets, RecordsOf, Share, AllOk;
    if ts == [] {
      assert pieces + AllPackets(ts) == pieces;
      NoFrames();
    } else {
      var init, t := ts[..|ts| - 1], ts[|ts| - 1];
      var part := t.frames[..Share(|t.frames|, |t.stale|)];
      SentParts(Sent(init), part);
      TransfersParse(pieces, init);
      PacketsParse(pieces + AllPackets(init), t.frames, t.stale);
      assert pieces + AllPackets(ts) == pieces + AllPackets(init) + Packets(t.frames, t.stale);
      RecordsOfAppend(Sent(init), part);
    }
  }

  lemma SentParts(a: seq<InternalFrame>, b: seq<InternalFrame>)
    requires AllOk(a + b)
    ensures AllOk(a) && AllOk(b)
  {
    assert forall i :: 0 <= i < |a| ==> (a + b)[i] == a[i];
    assert forall i :: 0 <= i < |b| ==> (a + b)[|a| + i] == b[i];
  }

  lemma NoFrames()
    ensures AllOk([]) && RecordsOf([]) == []
  {
  }

  lemma RecordsOfAppend(a: seq<InternalFrame>, b: seq<InternalFrame>)
    requires AllOk(a + b) && AllOk(a) && AllOk(b)
    ensures RecordsOf(a + b) == RecordsOf(a) + RecordsOf(b)
  {
  }

  lemma RecordsGrow(z: Usb.Sizes, piece: seq<int>, x: int)
    requires z.Ok()
    ensures Usb.Records(z, piece) <= Usb.Records(z, piece + [x])
  {
    if |piece| >= z.report {
      assert (piece + [x])[z.report..] == piece[z.report..] + [x];
      ChunkOneMore(piece[z.report..], x, z.frame);
    }
  }

  /** Receiving more never takes back a record. */
  lemma {:induction false} RecordsPrefix(z: Usb.Sizes, cycles: seq<Usb.OutCycle>, rest: seq<Usb.OutCycle>)
    requires z.Ok()
    ensures Usb.AllRecords(z, Usb.Pieces(cycles)) <= Usb.AllRecords(z, Usb.Pieces(cycles + rest))
  {
    if rest == [] {
      assert cycles + rest == cycles;
    } else {
      hide Usb.Pieces, Usb.AllRecords;
      var more, u := rest[..|rest| - 1], rest[|rest| - 1];
      RecordsPrefix(z, cycles, more);
      SplitLast(cycles, rest);
      RecordsStep(z, cycles + more, u);
      hide *;
      PrefixTransitive(Usb.AllRecords(z, Usb.Pieces(cycles)), Usb.AllRecords(z, Usb.Pieces(cycles + more)),
                       Usb.AllRecords(z, Usb.Pieces(cycles + rest)));
    }
  }

  lemma SplitLast<T>(a: seq<T>, b: seq<T>)
    requires b != []
    ensures a + b == a + b[..|b| - 1] + [b[|b| - 1]]
  {
  }

  lemma PrefixTransitive<T>(a: seq<T>, b: seq<T>, c: seq<T>)
    requires a <= b <= c
    ensures a <= c
  {
  }

  lemma RecordsStep(z: Usb.Sizes, cycles: seq<Usb.OutCycle>, u: Usb.OutCycle)
    requires z.Ok()
    ensures Usb.AllRecords(z, Usb.Pieces(cycles)) <= Usb.AllRecords(z, Usb.Pieces(cycles + [u]))
  {
    assert (cycles + [u])[..|cycles|] == cycles;
    var p := Usb.Pieces(cycles);
    RecordsGrow(z, p[|p| - 1], u.value);
    Usb.AllRecordsStep(z, cycles, u);
    hide Usb.Records, Usb.AllRecords;
  }

  /** From the host's processor to the framer side of the device. For every history of the host,
      every run in which the transfers' packets are being delivered, with empty microframes
      anywhere, completely or up to any point, and every read of the framer side once a page is
      committed: the byte is that of the record next in line among those the FIFO took, and the
      records offered to it are the first of those made from the frames queued and not dropped,
      in order. */
  lemma FramerReadsQueuedFrames(ops: seq<HostOp>, p: Params, evs: seq<Tx.JointEvent>, rest: seq<Usb.OutCycle>, n: nat)
    requires OpsOk(ops) && p.Ok() && p.pageSize >= TX_FRAME_SIZE
    requires Arrived(Usb.Pieces(Tx.Cycles(evs) + rest)) == AllPackets(HostRun(ops).transfers)
    requires n < |evs| && evs[n].r.Some? && evs[n].r.value.addr < TX_FRAME_SIZE
    requires Tx.JointRun(p, DEVICE, evs[..n]).w.sh.produced > 0
    ensures var h, j := HostRun(ops), Tx.JointRun(p, DEVICE, evs);
            var c := Tx.JointRun(p, DEVICE, evs[..n]).w.sh.consumed;
            && HostInv(h)
            && AllOk(Marked(h.pushed[..|h.kept|], h.kept))
            && var records := RecordsOf(Marked(h.pushed[..|h.kept|], h.kept));
            && |j.granted| <= |records|
            && var taken := Taken(records[..|j.granted|], j.granted);
            && c < |taken| && |taken[c]| == TX_FRAME_SIZE
            && Tx.JointRun(p, DEVICE, evs[..n + 1]).w.st.rData == taken[c][evs[n].r.value.addr]
  {
    hide HostRun, Tx.JointRun, Taken, Arrived, Usb.AllRecords, Usb.Pieces, RecordsOf, Marked, AllPackets,
         TransfersOk;
    HostSendsQueuedFrames(ops);
    var ts, cycles := HostRun(ops).transfers, Tx.Cycles(evs);
    SentOk(HostRun(ops));
    Tx.FramerReadsParsedRecords(p, DEVICE, evs, n);
    ArrivedRecords([], Usb.Pieces(cycles + rest));
    assert [] + Usb.Pieces(cycles + rest) == Usb.Pieces(cycles + rest);
    NothingBefore();
    TransfersParse([], ts);
    RecordsPrefix(DEVICE, cycles, rest);
    var records := RecordsOf(Sent(ts));
    assert [] + records == records;
    var parsed := Usb.AllRecords(DEVICE, Usb.Pieces(cycles));
    assert Usb.AllRecords(DEVICE, Usb.Pieces(cycles + rest)) == records;
    assert parsed <= records && parsed == records[..|parsed|];
  }

  lemma SentOk(h: Host)
    requires HostInv(h)
    ensures AllOk(Sent(h.transfers))
  {
    MarkedOk(h.pushed[..|h.kept|], h.kept);
    hide Marked, Sent;
  }

  lemma {:induction false} MarkedOk(frames: seq<InternalFrame>, marks: seq<bool>)
    requires |frames| == |marks| && AllOk(frames)
    ensures AllOk(Marked(frames, marks))
  {
    if frames != [] { MarkedOk(frames[..|frames| - 1], marks[..|marks| - 1]); }
  }

  lemma NothingBefore()
    ensures Usb.AllRecords(DEVICE, []) == []
  {
  }

  /** Byte `a` of a record: the frame count first, least significant byte first, then the samples. */
  predicate RecordByte(f: InternalFrame, a: nat, x: int)
    requires f.Ok() && a < TX_FRAME_SIZE
  {
    x == (if a >= 4 then f.frame[a - 4]
          else if a == 0 then f.frameCount % 256
          else if a == 1 then f.frameCount / 256 % 256
          else if a == 2 then f.frameCount / 65536 % 256
          else f.frameCount / 16777216 % 256)
  }

  lemma BytesOfRecord(f: InternalFrame, a: nat)
    requires f.Ok() && a < TX_FRAME_SIZE
    ensures RecordByte(f, a, f.Record()[a])
  {
    assert f.frameCount / 256 / 256 == f.frameCount / 65536;
    assert f.frameCount / 256 / 256 / 256 == f.frameCount / 16777216;
  }

  lemma GrantedRecord(frames: seq<InternalFrame>, granted: seq<bool>, c: nat, a: nat)
    requires AllOk(frames) && |granted| <= |frames| && a < TX_FRAME_SIZE
    requires c < |Taken(RecordsOf(frames)[..|granted|], granted)|
    ensures var pos := Runs.Positions(granted);
            && c < |pos| && |Taken(RecordsOf(frames)[..|granted|], granted)[c]| == TX_FRAME_SIZE
            && RecordByte(frames[pos[c]], a, Taken(RecordsOf(frames)[..|granted|], granted)[c][a])
  {
    Runs.TakenAtPositions(RecordsOf(frames)[..|granted|], granted);
    BytesOfRecord(frames[Runs.Positions(granted)[c]], a);
    hide Taken, Runs.Positions, InternalFrame.Record, RecordByte;
  }

  /** So reading address `a` of a page gives the byte of the frame count for the first four, and
      sample `a - 4` of the frame otherwise, of the frame queued and not dropped whose record is
      next in line among those the FIFO took. */
  lemma FramerReadsSamples(ops: seq<HostOp>, p: Params, evs: seq<Tx.JointEvent>, rest: seq<Usb.OutCycle>, n: nat)
    requires OpsOk(ops) && p.Ok() && p.pageSize >= TX_FRAME_SIZE
    requires Arrived(Usb.Pieces(Tx.Cycles(evs) + rest)) == AllPackets(HostRun(ops).transfers)
    requires n < |evs| && evs[n].r.Some? && evs[n].r.value.addr < 196
    requires Tx.JointRun(p, DEVICE, evs[..n]).w.sh.produced > 0
    ensures var h, j := HostRun(ops), Tx.JointRun(p, DEVICE, evs);
            var pos, c := Runs.Positions(j.granted), Tx.JointRun(p, DEVICE, evs[..n]).w.sh.consumed;
            && HostInv(h) && c < |pos|
            && var frames := Marked(h.pushed[..|h.kept|], h.kept);
            && pos[c] < |frames| && frames[pos[c]].Ok()
            && RecordByte(frames[pos[c]], evs[n].r.value.addr, Tx.JointRun(p, DEVICE, evs[..n + 1]).w.st.rData)
  {
    hide HostRun, Tx.JointRun, Taken, Arrived, Usb.Pieces, RecordsOf, Marked, AllPackets, TransfersOk, RecordByte,
         Runs.Positions, HostInv;
    FramerReadsQueuedFrames(ops, p, evs, rest, n);
    InvSized(HostRun(ops));
    var h, j := HostRun(ops), Tx.JointRun(p, DEVICE, evs);
    GrantedRecord(Marked(h.pushed[..|h.kept|], h.kept), j.granted, Tx.JointRun(p, DEVICE, evs[..n]).w.sh.consumed,
                  evs[n].r.value.addr);
  }

  lemma InvSized(h: Host)
    requires HostInv(h)
    ensures |h.kept| <= |h.pushed|
  {
  }
}
