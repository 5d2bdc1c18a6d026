/** Robbed-bit signalling on the host: collecting the A, B, C and D bits of a superframe
    (section 2.1.3 of ITU-T G.704) and debouncing them over two superframes. */
module RobbedBits {

  import opened GrayCode
  import opened Words
  import opened Wrappers

  const COUNT_RANGE := 0x1_0000_0000
  const TIMESLOTS := 24

  type Timeslots = s: seq<U8> | |s| == TIMESLOTS witness seq(TIMESLOTS, i => 0)

  /** One channel's part of a received frame. */
  datatype Frame = Frame(count: nat, timeslots: Timeslots)

  /** A superframe being collected; copied by value. */
  datatype RobbedBitFrame = RobbedBitFrame(timeslot: Timeslots, superframe: nat, bitsCollected: nat)

  function FromTimestamp(count: nat): RobbedBitFrame {
    RobbedBitFrame(seq(TIMESLOTS, i => 0), count, 0)
  }

  function Default(): RobbedBitFrame {
    RobbedBitFrame(seq(TIMESLOTS, i => 5), 0, 0)
  }

  /** Frames since the superframe's first, in wrapping 32-bit arithmetic. */
  function Offset(base: nat, f: Frame): nat { (f.count - base) % COUNT_RANGE }

  predicate RobbedOffset(o: nat) { o < 24 && o % 6 == 5 }

  /** A byte shifted left by one with the frame's least significant bit put in. */
  function ShiftIn(v: U8, bit: nat): U8
    requires bit < 2
  {
    v * 2 % 256 + bit
  }

  function Collect(s: RobbedBitFrame, f: Frame): RobbedBitFrame {
    var o := Offset(s.superframe, f);
    if !RobbedOffset(o) then s
    else s.(bitsCollected := Or(s.bitsCollected, Pow2(o / 6)),
            timeslot := seq(TIMESLOTS, t requires 0 <= t < TIMESLOTS => ShiftIn(s.timeslot[t], f.timeslots[t] % 2)))
  }

  predicate Completes(s: RobbedBitFrame, f: Frame) {
    Offset(s.superframe, f) == 23 && Collect(s, f).bitsCollected == 15
  }

  /** Fills the accumulated frame slot by slot; reports whether the superframe is complete. */
  method ProcessFrame(s: RobbedBitFrame, f: Frame) returns (n: RobbedBitFrame, complete: bool)
    ensures n == Collect(s, f) && complete == Completes(s, f)
  {
    n := s;
    var frameInSuperframe := (f.count - s.superframe) % COUNT_RANGE;
    if frameInSuperframe >= 24 { return n, false; }
    if frameInSuperframe % 6 != 5 { return n, false; }
    n := n.(bitsCollected := Or(n.bitsCollected, Pow2(frameInSuperframe / 6)));
    for i := 0 to TIMESLOTS
      invariant n == s.(bitsCollected := Or(s.bitsCollected, Pow2(frameInSuperframe / 6)), timeslot := n.timeslot)
      invariant forall t :: 0 <= t < i ==> n.timeslot[t] == ShiftIn(s.timeslot[t], f.timeslots[t] % 2)
      invariant forall t :: i <= t < TIMESLOTS ==> n.timeslot[t] == s.timeslot[t]
    {
      var bit := f.timeslots[i] % 2;
      n := n.(timeslot := n.timeslot[i := ShiftIn(n.timeslot[i], bit)]);
    }
    complete := frameInSuperframe == 23 && n.bitsCollected == 15;
  }

  /** A frame's offset is the number of frames from the base to it, wherever the 32-bit count wraps. */
  lemma OffsetExact(base: nat, f: Frame, o: nat)
    requires o < 4294967296
    ensures Offset(base, f) == o <==> f.count % 4294967296 == (base + o) % 4294967296
  {
    var m := 4294967296;
    var x, y := f.count, base + o;
    assert (x - base) % m == o ==> x % m == y % m by {
      if (x - base) % m == o { assert x == y + m * ((x - base) / m); }
    }
    assert x % m == y % m ==> (x - base) % m == o by {
      if x % m == y % m { assert x - base == o + m * (x / m - y / m); }
    }
  }

  // ----- One superframe -----

  function Collecting(base: nat, frames: seq<Frame>): RobbedBitFrame {
    if frames == [] then FromTimestamp(base)
    else Collect(Collecting(base, frames[..|frames| - 1]), frames[|frames| - 1])
  }

  /** Frames arrive in order but may be lost. */
  predicate InOrder(base: nat, frames: seq<Frame>) {
    forall i, j :: 0 <= i < j < |frames| ==> Offset(base, frames[i]) < Offset(base, frames[j])
  }

  /** The delivered frame with offset `o`. */
  function At(base: nat, frames: seq<Frame>, o: nat): Option<Frame> {
    if frames == [] then None
    else if Offset(base, frames[|frames| - 1]) == o then Some(frames[|frames| - 1])
    else At(base, frames[..|frames| - 1], o)
  }

  lemma {:induction false} AtExact(base: nat, frames: seq<Frame>, o: nat)
    ensures At(base, frames, o).None? <==> forall i :: 0 <= i < |frames| ==> Offset(base, frames[i]) != o
    ensures At(base, frames, o).Some? ==>
              At(base, frames, o).value in frames && Offset(base, At(base, frames, o).value) == o
  {
    if frames != [] {
      AtExact(base, frames[..|frames| - 1], o);
      forall i | 0 <= i < |frames| && At(base, frames, o).None? ensures Offset(base, frames[i]) != o {
        if i < |frames| - 1 { assert frames[i] == frames[..|frames| - 1][i]; }
      }
      assert forall i :: 0 <= i < |frames| - 1 ==> frames[..|frames| - 1][i] == frames[i];
    }
  }

  function MaskBit(f: Option<Frame>, k: nat): nat { if f.Some? then Pow2(k) else 0 }

  function Shifted(v: nat, f: Option<Frame>, t: nat): nat
    requires t < TIMESLOTS
  {
    if f.Some? then 2 * v + Bit(f, t) else v
  }

  function Bit(f: Option<Frame>, t: nat): nat
    requires f.Some? && t < TIMESLOTS
  {
    f.value.timeslots[t] % 2
  }

  /** The delivered signalling bits of a timeslot, oldest first. */
  function Slot(a: Option<Frame>, b: Option<Frame>, c: Option<Frame>, d: Option<Frame>, t: nat): (v: nat)
    requires t < TIMESLOTS
    ensures v < 16
  {
    Shifted(Shifted(Shifted(Shifted(0, a, t), b, t), c, t), d, t)
  }

  /** The accumulator as a function of which of the four signalling frames were delivered. */
  ghost predicate Matches(s: RobbedBitFrame, base: nat,
                          a: Option<Frame>, b: Option<Frame>, c: Option<Frame>, d: Option<Frame>)
  {
    && s.superframe == base
    && s.bitsCollected == Mask(a, b, c, d)
    && forall t :: 0 <= t < TIMESLOTS ==>
         s.timeslot[t] == Slot(a, b, c, d, t)
  }

  lemma MatchesStep(s: RobbedBitFrame, base: nat,
                    a: Option<Frame>, b: Option<Frame>, c: Option<Frame>, d: Option<Frame>, f: Frame)
    requires Matches(s, base, a, b, c, d)
    requires var o := Offset(base, f);
             && (o <= 5 ==> a.None?) && (o <= 11 ==> b.None?) && (o <= 17 ==> c.None?) && (o <= 23 ==> d.None?)
    ensures var o := Offset(base, f);
            Matches(Collect(s, f), base, if o == 5 then Some(f) else a, if o == 11 then Some(f) else b,
                    if o == 17 then Some(f) else c, if o == 23 then Some(f) else d)
  {
    var o := Offset(base, f);
    CollectFields(s, f);
    MaskStep(a, b, c, d, f, o);
    hide Or, Pow2, Offset, Collect, MaskBit;
    forall t | 0 <= t < TIMESLOTS { SlotStep(a, b, c, d, f, o, t); }
    hide Slot, Bit, RobbedOffset;
  }

  function Mask(a: Option<Frame>, b: Option<Frame>, c: Option<Frame>, d: Option<Frame>): nat {
    MaskBit(a, 0) + MaskBit(b, 1) + MaskBit(c, 2) + MaskBit(d, 3)
  }

  lemma MaskStep(a: Option<Frame>, b: Option<Frame>, c: Option<Frame>, d: Option<Frame>, f: Frame, o: nat)
    requires (o <= 5 ==> a.None?) && (o <= 11 ==> b.None?) && (o <= 17 ==> c.None?) && (o <= 23 ==> d.None?)
    ensures RobbedOffset(o) ==> Mask(a, b, c, d) < Pow2(o / 6)
    ensures Mask(if o == 5 then Some(f) else a, if o == 11 then Some(f) else b, if o == 17 then Some(f) else c,
                 if o == 23 then Some(f) else d)
         == if RobbedOffset(o) then Mask(a, b, c, d) + Pow2(o / 6) else Mask(a, b, c, d)
  {
    Powers();
    hide Pow2;
    assert o == 5 ==> o / 6 == 0;
    assert o == 11 ==> o / 6 == 1;
    assert o == 17 ==> o / 6 == 2;
    assert o == 23 ==> o / 6 == 3;
  }

  lemma SlotStep(a: Option<Frame>, b: Option<Frame>, c: Option<Frame>, d: Option<Frame>, f: Frame, o: nat, t: nat)
    requires t < TIMESLOTS
    requires (o <= 5 ==> a.None?) && (o <= 11 ==> b.None?) && (o <= 17 ==> c.None?) && (o <= 23 ==> d.None?)
    ensures Slot(if o == 5 then Some(f) else a, if o == 11 then Some(f) else b, if o == 17 then Some(f) else c,
                 if o == 23 then Some(f) else d, t)
         == if RobbedOffset(o) then 2 * Slot(a, b, c, d, t) + Bit(Some(f), t) else Slot(a, b, c, d, t)
  {
  }

  lemma CollectFields(s: RobbedBitFrame, f: Frame)
    requires forall t :: 0 <= t < TIMESLOTS ==> s.timeslot[t] < 16
    ensures var n, o := Collect(s, f), Offset(s.superframe, f);
            && n.superframe == s.superframe
            && (!RobbedOffset(o) ==> n == s)
            && (RobbedOffset(o) ==>
                  forall t :: 0 <= t < TIMESLOTS ==> n.timeslot[t] == 2 * s.timeslot[t] + Bit(Some(f), t))
            && (RobbedOffset(o) && s.bitsCollected < Pow2(o / 6) ==> n.bitsCollected == s.bitsCollected + Pow2(o / 6))
  {
    OrMask(s.bitsCollected, Offset(s.superframe, f) / 6);
    hide Or, Pow2, Offset;
    forall t | 0 <= t < TIMESLOTS { ShiftSmall(s.timeslot[t], Bit(Some(f), t)); }
    hide ShiftIn;
  }

  lemma ShiftSmall(v: U8, bit: nat)
    requires v < 128 && bit < 2
    ensures ShiftIn(v, bit) == 2 * v + bit
  {
  }

  ghost predicate CollectedInv(base: nat, frames: seq<Frame>) {
    Matches(Collecting(base, frames), base,
            At(base, frames, 5), At(base, frames, 11), At(base, frames, 17), At(base, frames, 23))
  }

  lemma {:induction false} CollectedExact(base: nat, frames: seq<Frame>)
    requires InOrder(base, frames)
    ensures CollectedInv(base, frames)
  {
    if frames != [] {
      var init, f := frames[..|frames| - 1], frames[|frames| - 1];
      CollectedExact(base, init);
      LaterMissing(base, frames, 5);
      LaterMissing(base, frames, 11);
      LaterMissing(base, frames, 17);
      LaterMissing(base, frames, 23);
      hide Matches, Collect, Offset, InOrder;
      MatchesStep(Collecting(base, init), base, At(base, init, 5), At(base, init, 11), At(base, init, 17),
                  At(base, init, 23), f);
    }
  }

  /** Nothing at or after the newest frame's offset was delivered before it. */
  lemma LaterMissing(base: nat, frames: seq<Frame>, o: nat)
    requires frames != [] && InOrder(base, frames)
    ensures Offset(base, frames[|frames| - 1]) <= o ==> At(base, frames[..|frames| - 1], o).None?
  {
    AtExact(base, frames[..|frames| - 1], o);
  }

  lemma OrMask(q: nat, k: nat)
    ensures q < Pow2(k) ==> Or(q, Pow2(k)) == q + Pow2(k)
  {
    if q < Pow2(k) {
      OrDisjoint(1, q, k);
      OrCommutes(q, Pow2(k));
    }
  }

  lemma {:induction false} OrCommutes(a: nat, b: nat)
    ensures Or(a, b) == Or(b, a)
  {
    if a != 0 || b != 0 { OrCommutes(a / 2, b / 2); }
  }

  /** For every superframe base, including one whose frames wrap around the 32-bit count, and
      every lossy in-order sequence of its frames: completion is reported exactly at the
      24th frame and exactly if frames 6, 12 and 18 were delivered too, and then each
      timeslot's nibble is the signalling bits of those four frames in A, B, C, D order. */
  lemma SuperframeExact(base: nat, frames: seq<Frame>, f: Frame)
    requires InOrder(base, frames + [f])
    ensures var s := Collecting(base, frames);
            var a, b, c := At(base, frames, 5), At(base, frames, 11), At(base, frames, 17);
            && (Completes(s, f) <==> Offset(base, f) == 23 && a.Some? && b.Some? && c.Some?)
            && (Completes(s, f) ==> Collect(s, f).superframe == base && Nibbles(Collect(s, f).timeslot, a, b, c, f))
  {
    var all := frames + [f];
    assert all[..|all| - 1] == frames;
    assert InOrder(base, frames) by {
      assert forall i :: 0 <= i < |frames| ==> all[i] == frames[i];
    }
    CollectedExact(base, frames);
    LaterMissing(base, all, 23);
    hide Collecting, At, InOrder, Offset, Collect, Completes, Nibbles;
    CompletesExact(Collecting(base, frames), base, At(base, frames, 5), At(base, frames, 11), At(base, frames, 17),
                   At(base, frames, 23), f);
  }

  lemma CompletesExact(s: RobbedBitFrame, base: nat,
                       a: Option<Frame>, b: Option<Frame>, c: Option<Frame>, d: Option<Frame>, f: Frame)
    requires Matches(s, base, a, b, c, d) && (Offset(base, f) <= 23 ==> d.None?)
    ensures Completes(s, f) <==> Offset(base, f) == 23 && a.Some? && b.Some? && c.Some?
    ensures Completes(s, f) ==> Collect(s, f).superframe == base && Nibbles(Collect(s, f).timeslot, a, b, c, f)
  {
    if Offset(base, f) == 23 {
      MatchesStep(s, base, a, b, c, d, f);
      Powers();
      hide Collect, Offset;
    }
  }

  ghost predicate Nibbles(slots: Timeslots, a: Option<Frame>, b: Option<Frame>, c: Option<Frame>, d: Frame) {
    a.Some? && b.Some? && c.Some? &&
    forall t :: 0 <= t < TIMESLOTS ==>
      slots[t] == 8 * (a.value.timeslots[t] % 2) + 4 * (b.value.timeslots[t] % 2)
                  + 2 * (c.value.timeslots[t] % 2) + d.timeslots[t] % 2
  }

  // ----- Debouncing -----

  /** A reported change: the first frame of the superframe it dates from, and the new value. */
  datatype Event = Event(timestamp: nat, timeslot: nat, value: U8)

  datatype Debouncer = Debouncer(state: RobbedBitFrame, accumulator: RobbedBitFrame, history: RobbedBitFrame)

  /** A frame as the signalling processor hands it over, with its multiframe mark. */
  datatype Input = Input(frame: Frame, mark: bool)

  function Initial(): Debouncer { Debouncer(Default(), Default(), Default()) }

  /** The state to be debounced against: a marked frame opens a superframe of its own. */
  function Marked(d: Debouncer, i: Input): Debouncer {
    if i.mark then d.(accumulator := FromTimestamp(i.frame.count)) else d
  }

  predicate Changes(d: Debouncer, now: RobbedBitFrame, t: nat)
    requires t < TIMESLOTS
  {
    now.timeslot[t] == d.history.timeslot[t] && now.timeslot[t] != d.state.timeslot[t]
  }

  function Debounced(d: Debouncer, now: RobbedBitFrame): Timeslots {
    seq(TIMESLOTS, t requires 0 <= t < TIMESLOTS => if Changes(d, now, t) then now.timeslot[t] else d.state.timeslot[t])
  }

  /** The events for the first `n` timeslots when `now` completes. */
  function Reported(d: Debouncer, now: RobbedBitFrame, n: nat): seq<Event>
    requires n <= TIMESLOTS
  {
    if n == 0 then []
    else
      Reported(d, now, n - 1)
      + (if Changes(d, now, n - 1) then [Event(d.history.superframe, n - 1, now.timeslot[n - 1])] else [])
  }

  function Step(d: Debouncer, i: Input): Debouncer {
    var m := Marked(d, i);
    var now := Collect(m.accumulator, i.frame);
    if Completes(m.accumulator, i.frame)
    then Debouncer(m.state.(timeslot := Debounced(m, now)), now, now)
    else m.(accumulator := now)
  }

  function StepEvents(d: Debouncer, i: Input): seq<Event> {
    var m := Marked(d, i);
    if Completes(m.accumulator, i.frame) then Reported(m, Collect(m.accumulator, i.frame), TIMESLOTS) else []
  }

  class RobbedBitDebouncer {
    var state: RobbedBitFrame
    var accumulator: RobbedBitFrame
    var history: RobbedBitFrame

    constructor ()
      ensures State() == Initial()
    {
      state, accumulator, history := Default(), Default(), Default();
    }

    function State(): Debouncer
      reads this
    {
      Debouncer(state, accumulator, history)
    }

    method NewFrame(count: nat)
      modifies this`accumulator
      ensures accumulator == FromTimestamp(count)
    {
      accumulator := FromTimestamp(count);
    }

    /** What the signalling processor does with one frame of this channel. */
    method Advance(i: Input) returns (events: seq<Event>)
      modifies this
      ensures State() == Step(old(State()), i)
      ensures events == StepEvents(old(State()), i)
    {
      if i.mark { NewFrame(i.frame.count); }
      events := Process(i.frame);
    }

    method Process(f: Frame) returns (events: seq<Event>)
      modifies this
      ensures State() == Step(old(State()), Input(f, false))
      ensures events == StepEvents(old(State()), Input(f, false))
    {
      var complete;
      accumulator, complete := ProcessFrame(accumulator, f);
      hide Collect, Completes, Debounced, Reported;
      events := [];
      if complete {
        events := Debounce(old(State()));
        history := accumulator;
      }
    }

    /** Compares the superframe just completed with the one before it, slot by slot. */
    method Debounce(ghost d: Debouncer) returns (events: seq<Event>)
      requires d.state == state && d.history == history
      modifies this`state
      ensures events == Reported(d, accumulator, TIMESLOTS)
      ensures state == old(state).(timeslot := Debounced(d, accumulator))
    {
      var slots := state.timeslot;
      events := [];
      for t := 0 to TIMESLOTS
        invariant events == Reported(d, accumulator, t)
        invariant |slots| == TIMESLOTS
        invariant forall u :: 0 <= u < t ==> slots[u] == Debounced(d, accumulator)[u]
        invariant forall u :: t <= u < TIMESLOTS ==> slots[u] == d.state.timeslot[u]
      {
        if accumulator.timeslot[t] == history.timeslot[t] && accumulator.timeslot[t] != slots[t] {
          events := events + [Event(history.superframe, t, accumulator.timeslot[t])];
          slots := slots[t := accumulator.timeslot[t]];
        }
      }
      assert slots == Debounced(d, accumulator);
      state := state.(timeslot := slots);
    }
  }

  // ----- Whole runs -----

  /** A run: the debouncer, every event so far and every superframe completed so far. */
  datatype Trace = Trace(d: Debouncer, events: seq<Event>, completed: seq<RobbedBitFrame>)

  function Run(inputs: seq<Input>): Trace {
    if inputs == [] then Trace(Initial(), [], [])
    else
      var r, i := Run(inputs[..|inputs| - 1]), inputs[|inputs| - 1];
      var m := Marked(r.d, i);
      Trace(Step(r.d, i), r.events + StepEvents(r.d, i),
            if Completes(m.accumulator, i.frame) then r.completed + [Collect(m.accumulator, i.frame)]
            else r.completed)
  }

  /** The frames since the newest mark, that frame included. */
  function Current(inputs: seq<Input>): seq<Frame> {
    if inputs == [] then []
    else
      var i := inputs[|inputs| - 1];
      (if i.mark then [] else Current(inputs[..|inputs| - 1])) + [i.frame]
  }

  predicate HasMark(inputs: seq<Input>) { exists i :: 0 <= i < |inputs| && inputs[i].mark }

  /** The count of the frame with the newest mark. */
  function Base(inputs: seq<Input>): nat {
    if inputs == [] then 0
    else
      var i := inputs[|inputs| - 1];
      if i.mark then i.frame.count else Base(inputs[..|inputs| - 1])
  }

  lemma {:induction false} AccumulatorExact(inputs: seq<Input>)
    requires HasMark(inputs)
    ensures Run(inputs).d.accumulator == Collecting(Base(inputs), Current(inputs))
  {
    var init, i := inputs[..|inputs| - 1], inputs[|inputs| - 1];
    var frames := Current(inputs);
    assert frames[..|frames| - 1] == if i.mark then [] else Current(init);
    assert Collecting(Base(inputs), frames) == Collect(Collecting(Base(inputs), frames[..|frames| - 1]), i.frame);
    hide Collect, Completes, Reported, Debounced, Collecting;
    if !i.mark {
      MarkedBefore(inputs);
      AccumulatorExact(init);
    }
  }

  lemma MarkedBefore(inputs: seq<Input>)
    requires HasMark(inputs) && !inputs[|inputs| - 1].mark
    ensures HasMark(inputs[..|inputs| - 1])
  {
    var k :| 0 <= k < |inputs| && inputs[k].mark;
    assert inputs[..|inputs| - 1][k].mark;
  }

  /** When a run completes a superframe: exactly at the 24th frame after the newest mark, if
      the run delivered frames 6, 12 and 18 after that mark too; the completed superframe
      carries the mark's count and the four signalling bits of every timeslot. */
  lemma CompletionExact(inputs: seq<Input>, i: Input)
    requires HasMark(inputs + [i]) && InOrder(Base(inputs + [i]), Current(inputs + [i]))
    ensures var base, earlier := Base(inputs + [i]), if i.mark then [] else Current(inputs);
            var a, b, c := At(base, earlier, 5), At(base, earlier, 11), At(base, earlier, 17);
            var before, after := Run(inputs).completed, Run(inputs + [i]).completed;
            if Offset(base, i.frame) == 23 && a.Some? && b.Some? && c.Some?
            then && |after| == |before| + 1 && after[..|before|] == before
                 && after[|before|].superframe == base && Nibbles(after[|before|].timeslot, a, b, c, i.frame)
            else after == before
  {
    var all := inputs + [i];
    assert all[..|all| - 1] == inputs;
    var base, earlier := Base(all), if i.mark then [] else Current(inputs);
    assert Current(all) == earlier + [i.frame];
    if !i.mark {
      assert HasMark(inputs) by {
        var k :| 0 <= k < |all| && all[k].mark;
        assert inputs[k].mark;
      }
      AccumulatorExact(inputs);
    }
    assert Marked(Run(inputs).d, i).accumulator == Collecting(base, earlier);
    SuperframeExact(base, earlier, i.frame);
  }

  // ----- What is reported -----

  /** A timeslot's value in the completed superframe `k`; the one before the first is the default. */
  function ValueAt(completed: seq<RobbedBitFrame>, k: int, t: nat): U8
    requires -1 <= k < |completed| && t < TIMESLOTS
  {
    if k < 0 then 5 else completed[k].timeslot[t]
  }

  /** The last value seen in two consecutive completed superframes. */
  function Confirmed(completed: seq<RobbedBitFrame>, t: nat): U8
    requires t < TIMESLOTS
  {
    if completed == [] then 5
    else
      var k := |completed| - 1;
      if ValueAt(completed, k, t) == ValueAt(completed, k - 1, t) then ValueAt(completed, k, t)
      else Confirmed(completed[..k], t)
  }

  /** Changes of the confirmed value, dated by the superframe before the confirming one. */
  function ConfirmedChanges(completed: seq<RobbedBitFrame>, t: nat): seq<Event>
    requires t < TIMESLOTS
  {
    if completed == [] then []
    else
      var init := completed[..|completed| - 1];
      ConfirmedChanges(init, t)
      + (if Confirmed(completed, t) == Confirmed(init, t) then []
         else [Event(if init == [] then 0 else init[|init| - 1].superframe, t, Confirmed(completed, t))])
  }

  /** A timeslot's events. */
  function Only(events: seq<Event>, t: nat): seq<Event> {
    if events == [] then []
    else Only(events[..|events| - 1], t) + (if events[|events| - 1].timeslot == t then [events[|events| - 1]] else [])
  }

  lemma {:induction false} OnlyAppend(a: seq<Event>, b: seq<Event>, t: nat)
    ensures Only(a + b, t) == Only(a, t) + Only(b, t)
  {
    if b == [] {
      assert a + b == a;
    } else {
      OnlyAppend(a, b[..|b| - 1], t);
      assert (a + b)[..|a + b| - 1] == a + b[..|b| - 1];
    }
  }

  /** One completed superframe reports each timeslot at most once. */
  lemma {:induction false} OnlyReported(d: Debouncer, now: RobbedBitFrame, n: nat, t: nat)
    requires n <= TIMESLOTS && t < TIMESLOTS
    ensures Only(Reported(d, now, n), t)
         == if t < n && Changes(d, now, t) then [Event(d.history.superframe, t, now.timeslot[t])] else []
  {
    if n > 0 {
      ReportedOne(d, now, n);
      hide Changes, Only, Reported;
      OnlyReported(d, now, n - 1, t);
      var e := Event(d.history.superframe, n - 1, now.timeslot[n - 1]);
      OnlyOne(e, t);
      OnlyAppend(Reported(d, now, n - 1), if Changes(d, now, n - 1) then [e] else [], t);
    } else {
      assert Only([], t) == [];
    }
  }

  lemma ReportedOne(d: Debouncer, now: RobbedBitFrame, n: nat)
    requires 0 < n <= TIMESLOTS
    ensures Reported(d, now, n)
         == Reported(d, now, n - 1)
            + if Changes(d, now, n - 1) then [Event(d.history.superframe, n - 1, now.timeslot[n - 1])] else []
  {
  }

  lemma OnlyOne(e: Event, t: nat)
    ensures Only([], t) == [] && Only([e], t) == if e.timeslot == t then [e] else []
  {
    assert [e][..0] == [];
  }

  ghost predicate DebounceInv(r: Trace, t: nat)
    requires t < TIMESLOTS
  {
    && r.d.state.timeslot[t] == Confirmed(r.completed, t)
    && Only(r.events, t) == ConfirmedChanges(r.completed, t)
    && r.d.history.timeslot[t] == ValueAt(r.completed, |r.completed| - 1, t)
    && r.d.history.superframe == if r.completed == [] then 0 else r.completed[|r.completed| - 1].superframe
  }

  lemma CompletedStep(r: Trace, m: Debouncer, now: RobbedBitFrame, t: nat)
    requires t < TIMESLOTS && DebounceInv(r, t) && m.state == r.d.state && m.history == r.d.history
    ensures DebounceInv(Trace(Debouncer(m.state.(timeslot := Debounced(m, now)), now, now),
                              r.events + Reported(m, now, TIMESLOTS), r.completed + [now]), t)
  {
    OnlyReported(m, now, TIMESLOTS, t);
    OnlyAppend(r.events, Reported(m, now, TIMESLOTS), t);
    ConfirmedOneMore(r.completed, now, t);
    assert Debounced(m, now)[t] == if Changes(m, now, t) then now.timeslot[t] else m.state.timeslot[t];
    hide Only, Reported, Debounced, Confirmed, ConfirmedChanges;
  }

  /** How one more completed superframe changes what is confirmed. */
  lemma ConfirmedOneMore(completed: seq<RobbedBitFrame>, now: RobbedBitFrame, t: nat)
    requires t < TIMESLOTS
    ensures var all, last := completed + [now], ValueAt(completed, |completed| - 1, t);
            var v, before := now.timeslot[t], Confirmed(completed, t);
            && Confirmed(all, t) == (if v == last then v else before)
            && ValueAt(all, |all| - 1, t) == v
            && ConfirmedChanges(all, t)
               == ConfirmedChanges(completed, t)
                  + if v == last && v != before
                    then [Event(if completed == [] then 0 else completed[|completed| - 1].superframe, t, v)] else []
  {
    var all := completed + [now];
    assert all[..|completed|] == completed;
    assert ValueAt(all, |completed| - 1, t) == ValueAt(completed, |completed| - 1, t);
  }

  /** The debounce law over whole runs: each timeslot's reported events are exactly the changes
      of its confirmed value, in order, and its state is the confirmed value. */
  lemma {:induction false} DebounceExact(inputs: seq<Input>, t: nat)
    requires t < TIMESLOTS
    ensures DebounceInv(Run(inputs), t)
  {
    if inputs != [] {
      var init, i := inputs[..|inputs| - 1], inputs[|inputs| - 1];
      DebounceExact(init, t);
      var r := Run(init);
      var m := Marked(r.d, i);
      var now := Collect(m.accumulator, i.frame);
      hide DebounceInv, Only, Reported, Collect, Debounced;
      if Completes(m.accumulator, i.frame) {
        CompletedStep(r, m, now, t);
        hide Completes;
      } else {
        IdleStep(r, m.(accumulator := now), t);
        assert r.events + [] == r.events;
      }
    }
  }

  lemma IdleStep(r: Trace, m: Debouncer, t: nat)
    requires t < TIMESLOTS && DebounceInv(r, t) && m.state == r.d.state && m.history == r.d.history
    ensures DebounceInv(Trace(m, r.events, r.completed), t)
  {
    hide Only, Confirmed, ConfirmedChanges, ValueAt;
  }

  /** When the confirmed value changes: exactly when a value is seen twice in a row that differs
      from the last one reported. The superframe before the first never takes part, and the
      change is dated by the first superframe of the run of equal values. */
  lemma ChangeExact(completed: seq<RobbedBitFrame>, now: RobbedBitFrame, t: nat)
    requires t < TIMESLOTS
    ensures var n, v := |completed|, now.timeslot[t];
            var before, after := ConfirmedChanges(completed, t), ConfirmedChanges(completed + [now], t);
            if v == ValueAt(completed, n - 1, t) && v != Confirmed(completed, t)
            then && n >= 1 && after == before + [Event(completed[n - 1].superframe, t, v)]
                 && ValueAt(completed, n - 2, t) != v
            else after == before
  {
    var all := completed + [now];
    assert all[..|completed|] == completed;
    if completed != [] {
      assert ValueAt(all, |completed| - 1, t) == ValueAt(completed, |completed| - 1, t);
    }
  }

  function Last(e: seq<Event>): U8 { if e == [] then 5 else e[|e| - 1].value }

  predicate Alternating(e: seq<Event>) {
    forall j :: 0 <= j < |e| ==> e[j].value != Last(e[..j])
  }

  lemma AlternatingOneMore(e: seq<Event>, x: Event)
    requires Alternating(e) && x.value != Last(e)
    ensures Alternating(e + [x])
  {
    var n := e + [x];
    forall j | 0 <= j < |n| ensures n[j].value != Last(n[..j]) {
      assert n[..j] == e[..j];
    }
  }

  /** Consecutive reports of a timeslot differ, starting from the default, and the last report
      is the confirmed value. */
  lemma {:induction false} ChangesAlternate(completed: seq<RobbedBitFrame>, t: nat)
    requires t < TIMESLOTS
    ensures var e := ConfirmedChanges(completed, t);
            && Alternating(e)
            && Confirmed(completed, t) == Last(e)
  {
    if completed != [] {
      var init := completed[..|completed| - 1];
      ChangesAlternate(init, t);
      var e, n := ConfirmedChanges(init, t), ConfirmedChanges(completed, t);
      hide ValueAt;
      if n != e { AlternatingOneMore(e, n[|e|]); }
    }
  }

  /** What a listener sees of one timeslot over a whole run. */
  lemma ReportsExact(inputs: seq<Input>, t: nat)
    requires t < TIMESLOTS
    ensures var r := Run(inputs);
            var e := Only(r.events, t);
            && e == ConfirmedChanges(r.completed, t)
            && Alternating(e)
            && r.d.state.timeslot[t] == Last(e)
            && r.d.state.timeslot[t] == Confirmed(r.completed, t)
  {
    DebounceExact(inputs, t);
    ChangesAlternate(Run(inputs).completed, t);
  }
}
