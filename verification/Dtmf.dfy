/** The DTMF detector: the decision automaton and its three staggered sample windows. What a
    window's tone powers amount to is an input. */
module Dtmf {

  import opened GrayCode
  import opened Words
  import opened Wrappers

  type Detection = Option<char>

  datatype DetectionState = S0 | S1 | S2 | S3

  datatype Machine = Machine(state: DetectionState, lastDetection: Detection)

  function Start(): Machine { Machine(S0, None) }

  function Decide(m: Machine, detection: Detection): (Machine, Option<char>) {
    var valid := detection.Some? && m.lastDetection.Some?;
    var same := valid && detection == m.lastDetection;
    var pause := detection.None? && m.lastDetection.None?;
    var (state, newTone) :=
      match m.state
      case S0 => if same && !valid then (S1, false) else if same && valid then (S2, false) else (S0, false)
      case S1 => if !same || pause then (S0, false) else if valid && same then (S3, true) else (S1, false)
      case S2 => if pause then (S0, false) else if !same then (S3, false) else (S3, true)
      case S3 => if pause then (S0, false) else (S3, false);
    (Machine(state, detection), if newTone then detection else None)
  }

  class DetectionStateMachine {
    var state: DetectionState
    var lastDetection: Detection

    constructor ()
      ensures State() == Start()
    {
      state, lastDetection := S0, None;
    }

    function State(): Machine
      reads this
    {
      Machine(state, lastDetection)
    }

    method Feed(detection: Detection) returns (event: Option<char>)
      modifies this
      ensures (State(), event) == Decide(old(State()), detection)
    {
      var valid := detection.Some? && lastDetection.Some?;
      var same := valid && detection == lastDetection;
      var pause := detection.None? && lastDetection.None?;
      var newTone := false;
      match state {
        case S0 =>
          state := if same && !valid then S1 else if same && valid then S2 else S0;
        case S1 =>
          if !same || pause { state := S0; } else if valid && same { state, newTone := S3, true; }
        case S2 =>
          if pause { state := S0; } else if !same { state := S3; } else { state, newTone := S3, true; }
        case S3 =>
          if pause { state := S0; }
      }
      lastDetection := detection;
      event := if newTone then detection else None;
    }
  }

  // ----- Runs of the automaton -----

  function Run(h: seq<Detection>): Machine {
    if h == [] then Start() else Decide(Run(h[..|h| - 1]), h[|h| - 1]).0
  }

  /** The digit emitted with the `i`-th detection. */
  function Emitted(h: seq<Detection>, i: nat): Option<char>
    requires i < |h|
  {
    Decide(Run(h[..i]), h[i]).1
  }

  /** The detection before the first counts as silence. */
  function At(h: seq<Detection>, i: int): Detection
    requires i < |h|
  {
    if i < 0 then None else h[i]
  }

  predicate Pair(h: seq<Detection>, i: nat)
    requires i < |h|
  {
    h[i].Some? && h[i] == At(h, i - 1)
  }

  predicate DoubleSilence(h: seq<Detection>, i: nat)
    requires i < |h|
  {
    h[i].None? && At(h, i - 1).None?
  }

  /** No equal pair since the last double silence, or since the start. */
  ghost predicate Quiet(h: seq<Detection>) {
    exists p :: QuietSince(h, p)
  }

  ghost predicate QuietSince(h: seq<Detection>, p: int) {
    && -1 <= p < |h|
    && (p == -1 || DoubleSilence(h, p))
    && forall k :: p < k < |h| ==> !Pair(h, k)
  }

  lemma QuietStep(h: seq<Detection>)
    requires h != []
    ensures Quiet(h) <==> DoubleSilence(h, |h| - 1) || (Quiet(h[..|h| - 1]) && !Pair(h, |h| - 1))
  {
    var n, init := |h| - 1, h[..|h| - 1];
    assert forall k :: 0 <= k < n ==> init[k] == h[k];
    assert forall k :: 0 <= k < n ==> Pair(init, k) == Pair(h, k) && DoubleSilence(init, k) == DoubleSilence(h, k);
    if Quiet(h) {
      var p :| QuietSince(h, p);
      if p < n { assert QuietSince(init, p); }
    }
    if DoubleSilence(h, n) {
      assert QuietSince(h, n);
    } else if Quiet(init) && !Pair(h, n) {
      var p :| QuietSince(init, p);
      assert QuietSince(h, p);
    }
  }

  /** What each state means; S1 is never entered. */
  lemma {:induction false} StateExact(h: seq<Detection>)
    ensures var m, n := Run(h), |h| - 1;
            && m.lastDetection == At(h, n)
            && m.state != S1
            && (m.state == S0 <==> Quiet(h))
            && (m.state == S2 <==> h != [] && Pair(h, n) && Quiet(h[..n]))
  {
    if h == [] {
      assert QuietSince(h, -1);
    } else {
      StateExact(h[..|h| - 1]);
      QuietStep(h);
      hide Quiet;
      assert At(h[..|h| - 1], |h| - 2) == At(h, |h| - 2);
    }
  }

  /** When a digit is emitted: exactly on the third equal detection in a row whose first two
      are the first equal pair since the last double silence. */
  lemma EmissionExact(h: seq<Detection>, i: nat)
    requires i < |h|
    ensures Emitted(h, i) == if i >= 2 && Pair(h, i) && Pair(h, i - 1) && Quiet(h[..i - 1]) then h[i] else None
  {
    StateExact(h[..i]);
    hide Quiet, Run;
    if i >= 1 {
      assert h[..i][..i - 1] == h[..i - 1];
      assert Pair(h[..i], i - 1) == Pair(h, i - 1);
      assert i == 1 ==> !Pair(h, 0);
    }
  }

  /** Any two emissions are separated by a double silence. */
  lemma EmissionsSeparated(h: seq<Detection>, i: nat, j: nat)
    requires i < j < |h| && Emitted(h, i).Some? && Emitted(h, j).Some?
    ensures exists p :: i < p < j - 1 && DoubleSilence(h, p)
  {
    EmissionExact(h, i);
    EmissionExact(h, j);
    var init := h[..j - 1];
    var p :| QuietSince(init, p);
    if i < j - 1 {
      assert Pair(init, i) == Pair(h, i);
      assert Pair(init, i - 1) == Pair(h, i - 1);
    } else {
      assert Pair(init, i - 1) == Pair(h, i - 1);
    }
    assert DoubleSilence(init, p) == DoubleSilence(h, p);
  }

  // ----- The windows -----

  /** The next position in a window of `n` samples. */
  function NextPosition(i: nat, n: nat): nat { if i + 1 == n then 0 else i + 1 }

  class DetectorGroup {
    const n: nat
    var iteration: nat

    constructor (n: nat, initial: nat)
      ensures this.n == n && iteration == initial
    {
      this.n, iteration := n, initial;
    }

    /** One sample; reports whether it completes the window. */
    method Iterate() returns (complete: bool)
      requires iteration < n
      modifies this
      ensures iteration == NextPosition(old(iteration), n) && complete == (old(iteration) + 1 == n)
    {
      assert iteration < n;
      iteration := iteration + 1;
      complete := iteration == n;
      if complete {
        iteration := 0;
      }
    }
  }

  /** Window positions after `k` samples, for high-group windows of `w` samples. */
  datatype Phases = Phases(lowFirst: nat, lowSecond: nat, high: nat)

  function PhasesAt(w: nat, k: nat): Phases
    requires w > 0
  {
    Phases(k % (2 * w), (k + w) % (2 * w), k % w)
  }

  class Detector {
    const window: nat
    const lowFirst: DetectorGroup
    const lowSecond: DetectorGroup
    const high: DetectorGroup
    const machine: DetectionStateMachine
    ghost var samples: nat
    ghost var decided: seq<Detection>

    constructor (window: nat)
      requires window > 0
      ensures Valid() && this.window == window && samples == 0 && decided == []
      ensures fresh(lowFirst) && fresh(lowSecond) && fresh(high) && fresh(machine)
    {
      this.window := window;
      lowFirst := new DetectorGroup(2 * window, 0);
      lowSecond := new DetectorGroup(2 * window, window);
      high := new DetectorGroup(window, 0);
      machine := new DetectionStateMachine();
      samples, decided := 0, [];
      PhasesAtStart(window);
    }

    ghost predicate Valid()
      reads this, lowFirst, lowSecond, high, machine
    {
      && window > 0 && lowFirst != lowSecond && lowFirst != high && lowSecond != high
      && lowFirst.n == 2 * window && lowSecond.n == 2 * window && high.n == window
      && Phases(lowFirst.iteration, lowSecond.iteration, high.iteration) == PhasesAt(window, samples)
      && machine.State() == Run(decided)
    }

    /** One sample. `detection` is what the powers say should the sample complete the high
        window. The source's two assertions, that no second low group completes and that some
        low group has completed, are asserted where it makes them. `decided` holds the detections
        the automaton has been fed. */
    method Advance(detection: Detection) returns (event: Option<char>)
      requires Valid()
      modifies this, lowFirst, lowSecond, high, machine
      ensures Valid() && samples == old(samples) + 1
      ensures decided == if samples % window == 0 then old(decided) + [detection] else old(decided)
      ensures event == if samples % window == 0 then Emitted(decided, |decided| - 1) else None
    {
      WindowsStep(window, samples);
      hide PhasesAt;
      var lowResult := false;
      var complete := lowFirst.Iterate();
      if complete {
        lowResult := true;
      }
      complete := lowSecond.Iterate();
      if complete {
        assert !lowResult;
        lowResult := true;
      }
      complete := high.Iterate();
      samples := samples + 1;
      if complete {
        if !lowResult {
          assert false;
        }
        event := machine.Feed(detection);
        assert (decided + [detection])[..|decided|] == decided;
        decided := decided + [detection];
      } else {
        event := None;
      }
    }
  }

  /** The three windows move in step: with every sample each window advances by one modulo its
      length, the high window completes exactly when one of the low windows does, and the two
      low windows never complete together. */
  lemma WindowsStep(w: nat, k: nat)
    requires w > 0
    ensures var p, q := PhasesAt(w, k), PhasesAt(w, k + 1);
            && p.lowFirst < 2 * w && p.lowSecond < 2 * w && p.high < w
            && q == Phases(NextPosition(p.lowFirst, 2 * w), NextPosition(p.lowSecond, 2 * w), NextPosition(p.high, w))
            && (p.high + 1 == w <==> p.lowFirst + 1 == 2 * w || p.lowSecond + 1 == 2 * w)
            && !(p.lowFirst + 1 == 2 * w && p.lowSecond + 1 == 2 * w)
            && ((k + 1) % w == 0 <==> p.high + 1 == w)
  {
    ModStep(k, 2 * w);
    ModStep(k + w, 2 * w);
    ModStep(k, w);
    Halves(k, w);
  }

  lemma PhasesAtStart(w: nat)
    requires w > 0
    ensures PhasesAt(w, 0) == Phases(0, w, 0)
  {
    Halves(0, w);
  }

  lemma ModStep(k: nat, m: nat)
    requires m > 0
    ensures 0 <= k % m < m && (k + 1) % m == NextPosition(k % m, m)
  {
    var q, r := k / m, k % m;
    assert k == m * q + r;
    if r + 1 == m {
      Distribute(m, q, 1);
      ModUnique(0, q + 1, m);
    } else {
      ModUnique(r + 1, q, m);
    }
  }

  /** The double-length windows are half a window apart. */
  lemma Halves(k: nat, w: nat)
    requires w > 0
    ensures var a := k % (2 * w);
            && k % w == (if a < w then a else a - w)
            && (k + w) % (2 * w) == (if a < w then a + w else a - w)
  {
    var q, a := k / (2 * w), k % (2 * w);
    assert k == 2 * w * q + a;
    HalfWindow(k, w, q, a);
    OtherHalf(k, w, q, a);
  }

  lemma HalfWindow(k: nat, w: nat, q: nat, a: nat)
    requires w > 0 && k == 2 * w * q + a && a < 2 * w
    ensures k % w == if a < w then a else a - w
  {
    assert 2 * w * q == w * (2 * q);
    if a < w {
      ModUnique(a, 2 * q, w);
    } else {
      Distribute(w, 2 * q, 1);
      ModUnique(a - w, 2 * q + 1, w);
    }
  }

  lemma OtherHalf(k: nat, w: nat, q: nat, a: nat)
    requires w > 0 && k == 2 * w * q + a && a < 2 * w
    ensures (k + w) % (2 * w) == if a < w then a + w else a - w
  {
    if a < w {
      ModUnique(a + w, q, 2 * w);
    } else {
      Distribute(2 * w, q, 1);
      ModUnique(a - w, q + 1, 2 * w);
    }
  }
}
