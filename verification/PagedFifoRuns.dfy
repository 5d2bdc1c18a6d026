/** Whole runs of the paged FIFO: every interleaving of the two clocks, every sampling,
    every write and strobe. The unbounded counters and the record of committed pages are
    carried along only to state what the hardware does. */
module PagedFifoRuns {
  import opened Wrappers
  import opened GrayCode
  import opened Numbers
  import opened AsyncFifo
  import opened PagedFifo

  /** What has happened so far. `log` holds the contents of each page as it was when its
      advance was granted. */
  datatype History = History(log: seq<seq<int>>, wStrobes: nat, overflows: nat,
                             rStrobes: nat, underflows: nat, lastAdvance: bool)

  datatype World = World(st: State, sh: Shadow, hist: History)

  function PageAt(p: Params, mem: seq<int>, ptr: nat): (page: seq<int>)
    requires |mem| == p.Depth() * p.pageSize && ptr < p.Depth()
    ensures |page| == p.pageSize
  {
    PageBound(ptr, p.Depth(), p.pageSize);
    mem[ptr * p.pageSize..ptr * p.pageSize + p.pageSize]
  }

  function WriterPage(p: Params, s: State): nat { s.ctr.produceW % p.Depth() }

  function WorldStep(p: Params, w: World, e: Event): (n: World)
    requires WellSized(p, w.st)
    ensures WellSized(p, n.st)
  {
    var next := Step(p, w.st, e);
    var h := w.hist;
    World(next,
          ShadowStep(p.Width(), w.st.ctr, w.sh, CounterEdges(p, w.st.ctr, e)),
          History(if Commits(p, w.st.ctr, e) then h.log + [PageAt(p, next.mem, WriterPage(p, w.st))] else h.log,
                  h.wStrobes + Count(e.w.Some? && e.w.value.advance),
                  h.overflows + Count(Overflow(p, w.st.ctr, e)),
                  h.rStrobes + Count(e.r.Some? && e.r.value.advance),
                  h.underflows + Count(Underflow(p, w.st.ctr, e)),
                  if e.w.Some? then e.w.value.advance else h.lastAdvance))
  }

  function Start(p: Params): World {
    World(Reset(p), SHADOW_RESET, History([], 0, 0, 0, 0, false))
  }

  function Run(p: Params, evs: seq<Event>): (w: World)
    requires p.Ok()
    ensures WellSized(p, w.st)
  {
    if evs == [] then Start(p) else WorldStep(p, Run(p, evs[..|evs| - 1]), evs[|evs| - 1])
  }

  /** The write strobe at each write clock edge, in order. */
  function WriteStrobes(evs: seq<Event>): seq<bool> {
    if evs == [] then [] else
      var e := evs[|evs| - 1];
      WriteStrobes(evs[..|evs| - 1]) + if e.w.Some? then [e.w.value.advance] else []
  }

  /** Any two strobes are at least `gap` write clocks apart. */
  ghost predicate SpacedBy(gap: nat, strobes: seq<bool>) {
    forall i, j :: 0 <= i < j < |strobes| && strobes[i] && strobes[j] ==> j - i >= gap
  }

  // ----- The invariant of every run -----

  ghost predicate Inv(p: Params, w: World) {
    && WellSized(p, w.st)
    && CounterInv(p.Width(), w.st.ctr, w.sh)
    && w.st.rPtr == w.sh.consumed % p.Depth()
    && |w.hist.log| == w.sh.produced
    && (forall i :: 0 <= i < |w.hist.log| ==> |w.hist.log[i]| == p.pageSize)
    && (w.sh.produced > 0 ==> w.sh.consumed < w.sh.produced)
    && w.hist.rStrobes == w.sh.consumed + w.hist.underflows
  }

  lemma HalfModulo(n: nat, d: nat)
    requires d > 0
    ensures (n % (2 * d)) % d == n % d
  {
    var q, r := n / (2 * d), n % (2 * d);
    assert r == d * (r / d) + r % d;
    assert n == d * (2 * q + r / d) + r % d;
    ModUnique(r % d, 2 * q + r / d, d);
  }

  /** The page pointers are the unbounded counters modulo the depth. */
  lemma PointersExact(p: Params, w: World)
    requires WellSized(p, w.st) && CounterInv(p.Width(), w.st.ctr, w.sh)
    ensures WriterPage(p, w.st) == w.sh.produced % p.Depth()
    ensures w.st.ctr.consumeR % p.Depth() == w.sh.consumed % p.Depth()
  {
    hide Gray;
    assert Pow2(p.Width()) == 2 * p.Depth();
    HalfModulo(w.sh.produced, p.Depth());
    HalfModulo(w.sh.consumed, p.Depth());
  }

  lemma StepKeepsInv(p: Params, w: World, e: Event)
    requires Inv(p, w)
    ensures Inv(p, WorldStep(p, w, e))
  {
    hide Gray, FullTest, CounterStep;
    var n := WorldStep(p, w, e);
    var edges := CounterEdges(p, w.st.ctr, e);
    CounterStepKeepsInv(p.Width(), w.st.ctr, w.sh, edges);
    FlagsExact(p.Width(), w.st.ctr, w.sh);
    PointersExact(p, n);
  }

  lemma {:induction false} RunInv(p: Params, evs: seq<Event>)
    requires p.Ok()
    ensures Inv(p, Run(p, evs))
  {
    if evs == [] {
      ResetInv(p.Width());
    } else {
      RunInv(p, evs[..|evs| - 1]);
      StepKeepsInv(p, Run(p, evs[..|evs| - 1]), evs[|evs| - 1]);
    }
  }

  // ----- Separation of the page written from the page read -----

  /** With strobes two write clocks apart the registered level the writer acts on is
      never behind its own counter, so one page always stays free. */
  ghost predicate SpacedInv(p: Params, w: World) {
    && w.sh.produced - w.sh.cLevel <= p.Depth() - 1
    && (!w.hist.lastAdvance ==> w.sh.pLevel == w.sh.produced)
    && w.hist.wStrobes == w.sh.produced + w.hist.overflows
  }

  ghost predicate SpacedStep(w: World, e: Event) {
    !(w.hist.lastAdvance && e.w.Some? && e.w.value.advance)
  }

  lemma StepKeepsSpaced(p: Params, w: World, e: Event)
    requires Inv(p, w) && SpacedInv(p, w) && SpacedStep(w, e)
    ensures SpacedInv(p, WorldStep(p, w, e))
  {
    hide Gray, FullTest, CounterStep;
    FlagsExact(p.Width(), w.st.ctr, w.sh);
  }

  lemma {:induction false} LastStrobe(p: Params, evs: seq<Event>)
    requires p.Ok()
    ensures Run(p, evs).hist.lastAdvance ==
      (WriteStrobes(evs) != [] && WriteStrobes(evs)[|WriteStrobes(evs)| - 1])
  {
    hide Step, CounterStep, ShadowStep, FullTest, Gray, Commits, Overflow, Underflow;
    if evs != [] { LastStrobe(p, evs[..|evs| - 1]); }
  }

  lemma SpacedPrefix(gap: nat, evs: seq<Event>)
    requires evs != [] && SpacedBy(gap, WriteStrobes(evs))
    ensures SpacedBy(gap, WriteStrobes(evs[..|evs| - 1]))
  {
    var all, init := WriteStrobes(evs), WriteStrobes(evs[..|evs| - 1]);
    assert init == all[..|init|];
    forall i, j | 0 <= i < j < |init| && init[i] && init[j] ensures j - i >= gap {
      assert all[i] && all[j];
    }
  }

  /** Spacing of the whole strobe train gives spacing at every event. */
  lemma SpacedLast(p: Params, evs: seq<Event>)
    requires p.Ok() && evs != [] && SpacedBy(2, WriteStrobes(evs))
    ensures SpacedStep(Run(p, evs[..|evs| - 1]), evs[|evs| - 1])
  {
    var init := WriteStrobes(evs[..|evs| - 1]);
    LastStrobe(p, evs[..|evs| - 1]);
    if evs[|evs| - 1].w.Some? && init != [] && init[|init| - 1] {
      var all := WriteStrobes(evs);
      assert all[|init| - 1] == init[|init| - 1] && all[|init|] == evs[|evs| - 1].w.value.advance;
    }
  }

  // ----- Page contents -----

  /** Every committed page the reader can still reach holds the record it was committed with. */
  ghost predicate ContentInv(p: Params, w: World)
    requires Inv(p, w)
  {
    forall i :: w.sh.consumed <= i < w.sh.produced ==>
      PageAt(p, w.st.mem, i % p.Depth()) == w.hist.log[i]
  }

  lemma DifferentPages(p: Params, a: nat, b: nat)
    requires p.Ok() && 0 < a - b < p.Depth()
    ensures a % p.Depth() != b % p.Depth()
  {
    EqualModulo(a, b, p.Depth());
  }

  /** A byte written through one page pointer is in no other page. */
  lemma WriteLeavesOtherPages(p: Params, mem: seq<int>, ptr: nat, addr: nat, data: int, other: nat)
    requires p.Ok() && |mem| == p.Depth() * p.pageSize
    requires ptr < p.Depth() && other < p.Depth() && ptr != other
    ensures PageAt(p, mem[Address(p, ptr, addr) := data], other) == PageAt(p, mem, other)
  {
    var a := Address(p, ptr, addr);
    if ptr < other { PageBound(ptr, other, p.pageSize); } else { PageBound(other, ptr, p.pageSize); }
    assert a < other * p.pageSize || a >= other * p.pageSize + p.pageSize;
    PageBound(other, p.Depth(), p.pageSize);
  }

  lemma StepKeepsContent(p: Params, w: World, e: Event)
    requires Inv(p, w) && ContentInv(p, w)
    requires w.sh.produced - w.sh.consumed <= p.Depth() - 1
    requires Inv(p, WorldStep(p, w, e))
    ensures ContentInv(p, WorldStep(p, w, e))
  {
    hide Gray, FullTest, CounterStep, AsyncFifo.CounterInv, RLevel, Pow2;
    var n := WorldStep(p, w, e);
    PointersOf(p, w);
    forall i | n.sh.consumed <= i < n.sh.produced
      ensures PageAt(p, n.st.mem, i % p.Depth()) == n.hist.log[i]
    {
      if i < w.sh.produced {
        assert n.hist.log[i] == w.hist.log[i];
        DifferentPages(p, w.sh.produced, i);
        if e.w.Some? && e.w.value.en {
          WriteLeavesOtherPages(p, w.st.mem, WriterPage(p, w.st), e.w.value.addr, e.w.value.data, i % p.Depth());
        }
      }
    }
  }

  lemma PointersOf(p: Params, w: World)
    requires Inv(p, w)
    ensures WriterPage(p, w.st) == w.sh.produced % p.Depth()
    ensures w.sh.consumed <= w.sh.produced
  {
    PointersExact(p, w);
  }

  // ----- Theorems about every run -----

  lemma {:induction false} RunSpaced(p: Params, evs: seq<Event>)
    requires p.Ok() && SpacedBy(2, WriteStrobes(evs))
    ensures Inv(p, Run(p, evs)) && SpacedInv(p, Run(p, evs)) && ContentInv(p, Run(p, evs))
  {
    hide WorldStep, Step, CounterStep, ShadowStep, FullTest, Gray;
    RunInv(p, evs);
    if evs != [] {
      var init := evs[..|evs| - 1];
      SpacedPrefix(2, evs);
      RunSpaced(p, init);
      SpacedLast(p, evs);
      StepKeepsSpaced(p, Run(p, init), evs[|evs| - 1]);
      StepKeepsContent(p, Run(p, init), evs[|evs| - 1]);
    }
  }

  /** Page separation. Once a page has been committed the writer is between one page and
      depth - 1 pages ahead, so the pages in use on the two sides differ. */
  lemma PageSeparation(p: Params, evs: seq<Event>)
    requires p.Ok() && SpacedBy(2, WriteStrobes(evs))
    ensures var w := Run(p, evs);
            && 0 <= w.sh.produced - w.sh.consumed <= p.Depth() - 1
            && (w.sh.produced > 0 ==> w.sh.consumed < w.sh.produced && WriterPage(p, w.st) != w.st.rPtr)
  {
    hide Run, WorldStep, FullTest, Gray;
    var w := Run(p, evs);
    RunSpaced(p, evs);
    PointersOf(p, w);
    if w.sh.produced > 0 { DifferentPages(p, w.sh.produced, w.sh.consumed); }
  }

  /** Without any spacing the borrowed counters still bound the occupancy by the depth. */
  lemma OccupancyWithoutSpacing(p: Params, evs: seq<Event>)
    requires p.Ok()
    ensures var w := Run(p, evs);
            && 0 <= w.sh.produced - w.sh.consumed <= p.Depth()
            && (w.sh.produced > 0 ==> w.sh.consumed < w.sh.produced)
  {
    hide Run, WorldStep, FullTest, Gray, Pow2;
    RunInv(p, evs);
  }

  /** A writer that strobes on every clock while the reader stands still. */
  function Burst(n: nat): (evs: seq<Event>)
    ensures |evs| == n
  {
    seq(n, i => Event(Some(WriteCycle(0, 0, false, true)), None, [], []))
  }

  ghost predicate BurstState(w: World, n: nat) {
    && w.sh.produced == n && w.sh.consumed == 0
    && w.sh.c0 == w.sh.c1 == w.sh.cDecoded == w.sh.cLevel == 0
    && w.sh.pLevel == if n == 0 then 0 else n - 1
  }

  lemma BurstStep(p: Params, w: World, n: nat, e: Event)
    requires Inv(p, w) && BurstState(w, n) && n < p.Depth()
    requires e.w.Some? && e.w.value.advance && e.r.None?
    ensures BurstState(WorldStep(p, w, e), n + 1)
  {
    hide Gray, FullTest, CounterStep, RLevel;
    FlagsExact(p.Width(), w.st.ctr, w.sh);
  }

  lemma {:induction false} BurstRun(p: Params, n: nat)
    requires p.Ok() && n <= p.Depth()
    ensures BurstState(Run(p, Burst(n)), n)
  {
    hide Inv, WorldStep, Step, CounterStep, ShadowStep, CounterInv, FullTest, Gray, Pow2;
    if n > 0 {
      BurstRun(p, n - 1);
      RunInv(p, Burst(n - 1));
      assert Burst(n)[..n - 1] == Burst(n - 1);
      BurstStep(p, Run(p, Burst(n - 1)), n - 1, Burst(n)[n - 1]);
    }
  }

  ghost predicate Separated(p: Params, evs: seq<Event>)
    requires p.Ok()
  {
    var w := Run(p, evs);
    w.sh.produced > 0 ==> WriterPage(p, w.st) != w.st.rPtr
  }

  /** Exactly which strobe spacing the paged FIFO relies on: every run whose strobes are
      `gap` write clocks apart keeps the two sides on different pages if and only if
      `gap` is at least two. The registered level lags by one clock, so depth strobes in
      a row put the writer on the page being read. */
  lemma SeparationNeedsTwoClocks(p: Params, gap: nat)
    requires p.Ok()
    ensures (forall evs :: SpacedBy(gap, WriteStrobes(evs)) ==> Separated(p, evs)) <==> gap >= 2
  {
    if gap >= 2 {
      forall evs | SpacedBy(gap, WriteStrobes(evs)) ensures Separated(p, evs) {
        assert SpacedBy(2, WriteStrobes(evs));
        PageSeparation(p, evs);
      }
    } else {
      var evs := Burst(p.Depth());
      assert SpacedBy(gap, WriteStrobes(evs));
      BurstRun(p, p.Depth());
      RunInv(p, evs);
      PointersOf(p, Run(p, evs));
      ModUnique(0, 1, p.Depth());
      ModUnique(0, 0, p.Depth());
      assert !Separated(p, evs);
    }
  }

  // ----- What the reader sees -----

  /** Committed records are never changed or forgotten. */
  lemma {:induction false} LogGrows(p: Params, evs: seq<Event>, n: nat)
    requires p.Ok() && n <= |evs|
    ensures Run(p, evs[..n]).hist.log <= Run(p, evs).hist.log
  {
    hide Step, CounterStep, ShadowStep, FullTest, Gray, Commits, Overflow, Underflow;
    if n < |evs| {
      var init := evs[..|evs| - 1];
      LogGrows(p, init, n);
      assert init[..n] == evs[..n];
    } else {
      assert evs[..n] == evs;
    }
  }

  lemma ReadPort(p: Params, w: World, e: Event)
    requires Inv(p, w) && e.r.Some?
    ensures WorldStep(p, w, e).st.rData
         == PageAt(p, w.st.mem, w.sh.consumed % p.Depth())[e.r.value.addr % p.pageSize]
  {
    hide Gray, FullTest, CounterStep, ShadowStep, RLevel, CounterInv, CounterEdges, Commits, Overflow, Underflow,
         PageAt;
    PageIndexed(p, w.st, e.r.value.addr);
  }

  lemma PageIndexed(p: Params, s: State, addr: nat)
    requires WellSized(p, s)
    ensures 0 <= Address(p, s.rPtr, addr) < |s.mem|
    ensures s.mem[Address(p, s.rPtr, addr)] == PageAt(p, s.mem, s.rPtr)[addr % p.pageSize]
  {
    PageBound(s.rPtr, p.Depth(), p.pageSize);
  }

  /** The reader's view, in every run and at every read clock edge: the byte delivered
      comes from the committed record numbered by the advances granted so far. A full
      writer overwriting its page and a reader waiting on its last page never disturb it. */
  lemma ReadsSeeCommittedRecords(p: Params, evs: seq<Event>, n: nat)
    requires p.Ok() && SpacedBy(2, WriteStrobes(evs))
    requires n < |evs| && evs[n].r.Some?
    requires Run(p, evs[..n]).sh.produced > 0
    ensures var c := Run(p, evs[..n]).sh.consumed;
            && c < |Run(p, evs).hist.log|
            && |Run(p, evs).hist.log[c]| == p.pageSize
            && Run(p, evs[..n + 1]).st.rData == Run(p, evs).hist.log[c][evs[n].r.value.addr % p.pageSize]
  {
    hide WorldStep, Step, CounterStep, ShadowStep, CounterInv, FullTest, Gray, RLevel, WriteStrobes;
    var w := Run(p, evs[..n]);
    SpacedTake(2, evs, n);
    RunSpaced(p, evs[..n]);
    RunInv(p, evs);
    LogGrows(p, evs, n);
    ReadPort(p, w, evs[n]);
    assert evs[..n + 1][..n] == evs[..n];
  }

  lemma {:induction false} SpacedTake(gap: nat, evs: seq<Event>, n: nat)
    requires n <= |evs| && SpacedBy(gap, WriteStrobes(evs))
    ensures SpacedBy(gap, WriteStrobes(evs[..n]))
  {
    if n < |evs| {
      SpacedPrefix(gap, evs);
      SpacedTake(gap, evs[..|evs| - 1], n);
      assert evs[..|evs| - 1][..n] == evs[..n];
    } else {
      assert evs[..n] == evs;
    }
  }

  // ----- Accounting -----

  /** The guards inside the borrowed counters never refuse an advance that the page layer
      allowed: each strobe is granted or reported as overflow or underflow, never both. */
  lemma StrobesGrantedOrReported(p: Params, evs: seq<Event>, e: Event)
    requires p.Ok() && SpacedBy(2, WriteStrobes(evs + [e]))
    ensures var c := Run(p, evs).st.ctr;
            && (Commits(p, c, e) <==> e.w.Some? && e.w.value.advance && !Overflow(p, c, e))
            && (Consumes(p, c, e) <==> e.r.Some? && e.r.value.advance && !Underflow(p, c, e))
  {
    hide Gray, FullTest, CounterStep, ShadowStep;
    assert (evs + [e])[..|evs|] == evs;
    SpacedPrefix(2, evs + [e]);
    SpacedLast(p, evs + [e]);
    RunSpaced(p, evs);
    FlagsExact(p.Width(), Run(p, evs).st.ctr, Run(p, evs).sh);
  }

  /** A level as the interfaces show it: one page less than known of, but not below zero. */
  function Shown(pages: int): int { if pages <= 1 then 0 else pages - 1 }

  /** What the two sides see, in terms of unbounded counters: levels and flags are of the pages
      that the side knows of, and a strobe is reported exactly if it had no effect. */
  ghost predicate OutputsLaw(p: Params, w: World, e: Event, o: Outputs)
    requires WellSized(p, w.st)
  {
    var readable, unread, n := w.sh.p1 - w.sh.consumed, w.sh.pLevel - w.sh.cLevel, WorldStep(p, w, e);
    && o.rLevel2 == Shown(readable) && (o.rEmpty <==> readable <= 1)
    && o.wLevel2 == Shown(unread) && (o.wFull <==> unread >= p.Depth() - 1)
    && (o.wOverflow <==> e.w.Some? && e.w.value.advance && n.hist.log == w.hist.log)
    && (o.rUnderflow <==> e.r.Some? && e.r.value.advance && n.sh.consumed == w.sh.consumed)
  }

  /** The levels and flags, spaced or not; and no report without a strobe. */
  lemma SidesShown(p: Params, w: World, e: Event)
    requires Inv(p, w)
    ensures var readable, unread, o := w.sh.p1 - w.sh.consumed, w.sh.pLevel - w.sh.cLevel, OutputsOf(p, w.st.ctr, e);
            && o.rLevel2 == Shown(readable) && (o.rEmpty <==> readable <= 1)
            && o.wLevel2 == Shown(unread) && (o.wFull <==> unread >= p.Depth() - 1)
            && (o.rUnderflow ==> e.r.Some? && e.r.value.advance) && (o.wOverflow ==> e.w.Some? && e.w.value.advance)
  {
    hide Gray, FullTest, RLevel, Pow2;
    FlagsExact(p.Width(), w.st.ctr, w.sh);
  }

  /** The interface outputs, at every instant of every spaced run. */
  lemma OutputsExact(p: Params, evs: seq<Event>, e: Event)
    requires p.Ok() && SpacedBy(2, WriteStrobes(evs + [e]))
    ensures OutputsLaw(p, Run(p, evs), e, OutputsOf(p, Run(p, evs).st.ctr, e))
  {
    hide Gray, FullTest, CounterStep, Run, WriteStrobes, SpacedBy, PageAt, RLevel, Inv, SpacedInv, ContentInv, Shown;
    assert (evs + [e])[..|evs|] == evs;
    SpacedPrefix(2, evs + [e]);
    RunSpaced(p, evs);
    StrobesGrantedOrReported(p, evs, e);
    SidesShown(p, Run(p, evs), e);
  }

  /** The outputs over a whole run: overflows and underflows reported are exactly those that
      the accounts count. */
  function Reported(p: Params, evs: seq<Event>): (r: (nat, nat))
    requires p.Ok()
  {
    if evs == [] then (0, 0) else
      var init, e := evs[..|evs| - 1], evs[|evs| - 1];
      var before, o := Reported(p, init), OutputsOf(p, Run(p, init).st.ctr, e);
      (before.0 + Count(o.wOverflow), before.1 + Count(o.rUnderflow))
  }

  lemma {:induction false} ReportedExact(p: Params, evs: seq<Event>)
    requires p.Ok() && SpacedBy(2, WriteStrobes(evs))
    ensures Trues(WriteStrobes(evs)) == |Run(p, evs).hist.log| + Reported(p, evs).0
    ensures Run(p, evs).hist.rStrobes == Run(p, evs).sh.consumed + Reported(p, evs).1
  {
    ExactAccounting(p, evs);
    ReportedCounts(p, evs);
  }

  lemma {:induction false} ReportedCounts(p: Params, evs: seq<Event>)
    requires p.Ok()
    ensures Reported(p, evs) == (Run(p, evs).hist.overflows, Run(p, evs).hist.underflows)
  {
    hide Step, ShadowStep, Commits, WFull, REmpty;
    if evs != [] { ReportedCounts(p, evs[..|evs| - 1]); }
  }

  function Trues(bs: seq<bool>): nat {
    if bs == [] then 0 else Trues(bs[..|bs| - 1]) + Count(bs[|bs| - 1])
  }

  lemma {:induction false} StrobeCount(p: Params, evs: seq<Event>)
    requires p.Ok()
    ensures Run(p, evs).hist.wStrobes == Trues(WriteStrobes(evs))
  {
    hide CounterStep, ShadowStep, Step, Commits, Overflow, Underflow;
    if evs != [] {
      var init, e := evs[..|evs| - 1], evs[|evs| - 1];
      StrobeCount(p, init);
      var all := WriteStrobes(evs);
      if e.w.Some? {
        assert all == WriteStrobes(init) + [e.w.value.advance];
        assert all[..|all| - 1] == WriteStrobes(init);
      } else {
        assert all == WriteStrobes(init);
      }
    }
  }

  /** Over a whole run: write strobes are committed pages plus overflows, read strobes are
      consumed pages plus underflows, and exactly the committed pages are on record. */
  lemma ExactAccounting(p: Params, evs: seq<Event>)
    requires p.Ok() && SpacedBy(2, WriteStrobes(evs))
    ensures var w := Run(p, evs);
            && Trues(WriteStrobes(evs)) == |w.hist.log| + w.hist.overflows
            && w.hist.rStrobes == w.sh.consumed + w.hist.underflows
  {
    hide Run, WorldStep, FullTest, Gray;
    RunSpaced(p, evs);
    StrobeCount(p, evs);
  }

  /** The levels err on the safe side: the reader never believes in a page that is not
      there, and a spaced writer never overlooks a page that is. */
  lemma LevelsAreSafe(p: Params, evs: seq<Event>)
    requires p.Ok() && SpacedBy(2, WriteStrobes(evs))
    ensures var w := Run(p, evs);
            && RLevel(p.Width(), w.st.ctr) <= w.sh.produced - w.sh.consumed
            && (!w.hist.lastAdvance ==> w.st.ctr.wLevel >= w.sh.produced - w.sh.consumed)
  {
    hide Run, WorldStep, FullTest, Gray;
    RunSpaced(p, evs);
    FlagsExact(p.Width(), Run(p, evs).st.ctr, Run(p, evs).sh);
  }

  // ----- Progress -----

  predicate Quiet(e: Event) {
    && (e.w.Some? ==> !e.w.value.advance)
    && (e.r.Some? ==> !e.r.value.advance)
  }

  function WriteEdges(evs: seq<Event>): nat {
    if evs == [] then 0 else WriteEdges(evs[..|evs| - 1]) + Count(evs[|evs| - 1].w.Some?)
  }

  function ReadEdges(evs: seq<Event>): nat {
    if evs == [] then 0 else ReadEdges(evs[..|evs| - 1]) + Count(evs[|evs| - 1].r.Some?)
  }

  /** What has settled after some quiet edges on each side. */
  ghost predicate Settling(g: Shadow, ws: nat, rs: nat) {
    && (ws >= 1 ==> g.c0 == g.consumed)
    && (ws >= 2 ==> g.c1 == g.consumed)
    && (ws >= 3 ==> g.cDecoded == g.consumed)
    && (ws >= 4 ==> g.cLevel == g.consumed)
    && (ws >= 1 ==> g.pLevel == g.produced)
    && (rs >= 1 ==> g.p0 == g.produced)
    && (rs >= 2 ==> g.p1 == g.produced)
  }

  lemma QuietStep(p: Params, w: World, e: Event, ws: nat, rs: nat)
    requires Inv(p, w) && Quiet(e) && Settling(w.sh, ws, rs)
    ensures Settling(WorldStep(p, w, e).sh, ws + Count(e.w.Some?), rs + Count(e.r.Some?))
  {
    hide Gray, FullTest, CounterStep, RLevel;
  }

  lemma {:induction false} QuietRun(p: Params, evs: seq<Event>, quiet: seq<Event>)
    requires p.Ok() && forall i :: 0 <= i < |quiet| ==> Quiet(quiet[i])
    ensures Settling(Run(p, evs + quiet).sh, WriteEdges(quiet), ReadEdges(quiet))
  {
    hide Inv, WorldStep, Step, CounterStep, ShadowStep, CounterInv, FullTest, Gray;
    if quiet == [] {
      assert evs + quiet == evs;
    } else {
      var init := quiet[..|quiet| - 1];
      QuietRun(p, evs, init);
      RunInv(p, evs + init);
      assert (evs + quiet)[..|evs + quiet| - 1] == evs + init;
      QuietStep(p, Run(p, evs + init), quiet[|quiet| - 1], WriteEdges(init), ReadEdges(init));
    }
  }

  /** After four quiet write clocks and two quiet read clocks both levels are exact. */
  lemma LevelsSettle(p: Params, evs: seq<Event>, quiet: seq<Event>)
    requires p.Ok() && forall i :: 0 <= i < |quiet| ==> Quiet(quiet[i])
    requires WriteEdges(quiet) >= 4 && ReadEdges(quiet) >= 2
    ensures var w := Run(p, evs + quiet);
            && w.st.ctr.wLevel == w.sh.produced - w.sh.consumed
            && RLevel(p.Width(), w.st.ctr) == w.sh.produced - w.sh.consumed
  {
    hide Run, WorldStep, FullTest, Gray;
    var w := Run(p, evs + quiet);
    QuietRun(p, evs, quiet);
    RunInv(p, evs + quiet);
    FlagsExact(p.Width(), w.st.ctr, w.sh);
  }

  /** And then both sides are shown the pages there are, one less than the occupancy. */
  lemma OutputsSettle(p: Params, evs: seq<Event>, quiet: seq<Event>, e: Event)
    requires p.Ok() && forall i :: 0 <= i < |quiet| ==> Quiet(quiet[i])
    requires WriteEdges(quiet) >= 4 && ReadEdges(quiet) >= 2
    ensures var w := Run(p, evs + quiet);
            var o, occupancy := OutputsOf(p, w.st.ctr, e), w.sh.produced - w.sh.consumed;
            && o.rLevel2 == o.wLevel2 == Shown(occupancy)
            && (o.rEmpty <==> occupancy <= 1) && (o.wFull <==> occupancy >= p.Depth() - 1)
  {
    hide Run, RLevel, Gray;
    LevelsSettle(p, evs, quiet);
  }

  ghost predicate Stuck(p: Params, evs: seq<Event>)
    requires p.Ok()
  {
    var o := OutputsOf(p, Run(p, evs).st.ctr, NO_EDGE);
    o.wFull && o.rEmpty
  }

  ghost predicate SettledSuffix(evs: seq<Event>, quiet: seq<Event>) {
    && (forall i :: 0 <= i < |quiet| ==> Quiet(quiet[i]))
    && WriteEdges(quiet) >= 4 && ReadEdges(quiet) >= 2
  }

  function BothClocks(n: nat): (evs: seq<Event>)
    ensures |evs| == n
  {
    seq(n, i => Event(Some(WriteCycle(0, 0, false, false)), Some(ReadCycle(0, false)), [], []))
  }

  lemma {:induction false} BothClocksCount(n: nat)
    ensures WriteEdges(BothClocks(n)) == n && ReadEdges(BothClocks(n)) == n
  {
    if n > 0 {
      assert BothClocks(n)[..n - 1] == BothClocks(n - 1);
      BothClocksCount(n - 1);
    }
  }

  lemma DeepNeverStuck(p: Params, evs: seq<Event>, quiet: seq<Event>)
    requires p.Ok() && p.Depth() >= 4 && SettledSuffix(evs, quiet)
    ensures !Stuck(p, evs + quiet)
  {
    hide Run, WorldStep, CounterStep, FullTest, Gray, Pow2;
    LevelsSettle(p, evs, quiet);
  }

  lemma TwoPagesStuck(p: Params) returns (evs: seq<Event>, quiet: seq<Event>)
    requires p.Ok() && p.Depth() == 2
    ensures SettledSuffix(evs, quiet) && Stuck(p, evs + quiet)
  {
    evs, quiet := Burst(1), BothClocks(4);
    BothClocksCount(4);
    BurstRun(p, 1);
    QuietKeepsCounters(p, evs, quiet);
    hide Run, WorldStep, CounterStep, FullTest, Gray, Pow2, WriteEdges, ReadEdges;
    LevelsSettle(p, evs, quiet);
  }

  lemma Depths(p: Params)
    requires p.Ok()
    ensures p.Depth() == 2 || p.Depth() >= 4
  {
    assert p.depthBits >= 2 ==> Pow2(p.depthBits) == 4 * Pow2(p.depthBits - 2);
    assert Pow2(1) == 2 * Pow2(0);
  }

  /** Progress: once settled, some side can move in every run if and only if there are at
      least four pages. With two pages the first commit leaves the FIFO full and empty. */
  lemma ProgressNeedsFourPages(p: Params)
    requires p.Ok()
    ensures (forall evs, quiet :: SettledSuffix(evs, quiet) ==> !Stuck(p, evs + quiet)) <==> p.Depth() >= 4
  {
    hide SettledSuffix, Stuck, Pow2;
    Depths(p);
    if p.Depth() >= 4 {
      forall evs, quiet | SettledSuffix(evs, quiet) ensures !Stuck(p, evs + quiet) {
        DeepNeverStuck(p, evs, quiet);
      }
    } else {
      var evs, quiet := TwoPagesStuck(p);
    }
  }

  lemma {:induction false} QuietKeepsCounters(p: Params, evs: seq<Event>, quiet: seq<Event>)
    requires p.Ok() && forall i :: 0 <= i < |quiet| ==> Quiet(quiet[i])
    ensures var a, b := Run(p, evs).sh, Run(p, evs + quiet).sh;
            a.produced == b.produced && a.consumed == b.consumed
  {
    hide WorldStep;
    if quiet == [] {
      assert evs + quiet == evs;
    } else {
      var init := quiet[..|quiet| - 1];
      QuietKeepsCounters(p, evs, init);
      assert (evs + quiet)[..|evs + quiet| - 1] == evs + init;
      QuietCounters(p, Run(p, evs + init), quiet[|quiet| - 1]);
    }
  }

  lemma QuietCounters(p: Params, w: World, e: Event)
    requires WellSized(p, w.st) && Quiet(e)
    ensures WorldStep(p, w, e).sh.produced == w.sh.produced && WorldStep(p, w, e).sh.consumed == w.sh.consumed
  {
    hide Step, CounterStep, FullTest, Gray;
  }

  // ----- The FIFO as a writing driver sees it -----

  /** The page under the writer's pointer. */
  function WritePage(p: Params, w: World): seq<int>
    requires WellSized(p, w.st)
  {
    PageAt(p, w.st.mem, WriterPage(p, w.st))
  }

  predicate Granted(p: Params, c: Counters, e: Event) {
    e.w.Some? && e.w.value.advance && !Overflow(p, c, e)
  }

  /** The writer's page after one write cycle, before any change of page. */
  function Written(p: Params, w: World, e: Event): seq<int>
    requires WellSized(p, w.st) && (e.w.Some? && e.w.value.en ==> e.w.value.addr < p.pageSize)
  {
    if e.w.Some? && e.w.value.en
    then WritePage(p, w)[e.w.value.addr := e.w.value.data] else WritePage(p, w)
  }

  lemma WriteSamePage(p: Params, mem: seq<int>, ptr: nat, addr: nat, data: int)
    requires p.Ok() && |mem| == p.Depth() * p.pageSize && ptr < p.Depth() && addr < p.pageSize
    ensures PageAt(p, mem[Address(p, ptr, addr) := data], ptr) == PageAt(p, mem, ptr)[addr := data]
  {
    ModUnique(addr, 0, p.pageSize);
    PageBound(ptr, p.Depth(), p.pageSize);
  }

  /** A granted advance puts exactly the page as written on record; any other cycle leaves
      the record alone and the writer on its page. */
  lemma WriteInstant(p: Params, w: World, e: Event)
    requires p.Ok() && Inv(p, w) && SpacedInv(p, w) && SpacedStep(w, e)
    requires e.w.Some? && e.w.value.en ==> e.w.value.addr < p.pageSize
    ensures var n := WorldStep(p, w, e);
            if Granted(p, w.st.ctr, e)
            then n.hist.log == w.hist.log + [Written(p, w, e)]
            else n.hist.log == w.hist.log && WritePage(p, n) == Written(p, w, e)
  {
    hide Gray, FullTest, CounterStep, PageAt;
    var n := WorldStep(p, w, e);
    FlagsExact(p.Width(), w.st.ctr, w.sh);
    PointersExact(p, w);
    if e.w.Some? && e.w.value.en {
      WriteSamePage(p, w.st.mem, WriterPage(p, w.st), e.w.value.addr, e.w.value.data);
    }
    assert Commits(p, w.st.ctr, e) <==> Granted(p, w.st.ctr, e);
    StepKeepsInv(p, w, e);
    PointersExact(p, n);
  }

  /** The records the FIFO took, in order. */
  function Taken(records: seq<seq<int>>, granted: seq<bool>): seq<seq<int>>
    requires |records| == |granted|
  {
    if records == [] then [] else
      var n := |records| - 1;
      Taken(records[..n], granted[..n]) + if granted[n] then [records[n]] else []
  }

  function Trim(log: seq<seq<int>>, size: nat): seq<seq<int>>
    requires forall i :: 0 <= i < |log| ==> |log[i]| >= size
  {
    seq(|log|, i requires 0 <= i < |log| => log[i][..size])
  }

  lemma TakenOneMore(records: seq<seq<int>>, granted: seq<bool>, record: seq<int>, taken: bool)
    requires |records| == |granted|
    ensures Taken(records + [record], granted + [taken])
         == Taken(records, granted) + if taken then [record] else []
  {
    assert (records + [record])[..|records|] == records;
    assert (granted + [taken])[..|granted|] == granted;
  }

  lemma TrimOneMore(log: seq<seq<int>>, page: seq<int>, size: nat)
    requires |page| >= size && forall i :: 0 <= i < |log| ==> |log[i]| >= size
    ensures Trim(log + [page], size) == Trim(log, size) + [page[..size]]
  {
  }

  lemma SpacedAppend(strobes: seq<bool>, last: bool)
    requires SpacedBy(2, strobes)
    requires last && strobes != [] ==> !strobes[|strobes| - 1]
    ensures SpacedBy(2, strobes + [last])
  {
    var all := strobes + [last];
    forall i, j | 0 <= i < j < |all| && all[i] && all[j] ensures j - i >= 2 {
      assert strobes[i];
    }
  }

  /** A driver that never strobes on two successive write clocks meets the spacing. */
  lemma SpacedFromSteps(p: Params, evs: seq<Event>)
    requires p.Ok() && evs != [] && SpacedBy(2, WriteStrobes(evs[..|evs| - 1]))
    requires SpacedStep(Run(p, evs[..|evs| - 1]), evs[|evs| - 1])
    ensures SpacedBy(2, WriteStrobes(evs))
  {
    hide Run, WorldStep, SpacedBy;
    var init, e := WriteStrobes(evs[..|evs| - 1]), evs[|evs| - 1];
    LastStrobe(p, evs[..|evs| - 1]);
    if e.w.Some? {
      SpacedAppend(init, e.w.value.advance);
      assert WriteStrobes(evs) == init + [e.w.value.advance];
    } else {
      assert WriteStrobes(evs) == init;
    }
  }
}
