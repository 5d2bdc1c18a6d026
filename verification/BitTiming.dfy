/** The strobe at the end of each bit: a falling edge of the serial clock, seen through two
    synchroniser stages. */
module BitTiming {
  import opened Numbers
  import opened SystemTiming

  datatype Edges = Edges(first: bool, second: bool, was: bool, start: bool)

  const EDGES_RESET := Edges(false, false, false, false)

  predicate Fell(e: Edges) { !e.second && e.was }

  function EdgesStep(e: Edges, serclk: bool): Edges { Edges(serclk, e.first, e.second, Fell(e)) }

  class BitTiming {
    var first: bool
    var second: bool
    var was: bool
    var start: bool

    constructor ()
      ensures State() == EDGES_RESET
    {
      first, second, was, start := false, false, false, false;
    }

    function State(): Edges
      reads this
    {
      Edges(first, second, was, start)
    }

    /** One system clock: the strobes, then the registers. */
    method Clock(serclk: bool) returns (bitEnd: bool, bitStart: bool)
      modifies this
      ensures bitEnd == Fell(old(State())) && bitStart == old(start)
      ensures State() == EdgesStep(old(State()), serclk)
    {
      bitEnd, bitStart := was && !second, start;
      start, was := bitEnd, second;
      second := first;
      first := serclk;
    }
  }

  function EdgesRun(samples: seq<bool>): Edges {
    if samples == [] then EDGES_RESET
    else EdgesStep(EdgesRun(samples[..|samples| - 1]), samples[|samples| - 1])
  }

  /** The strobe in each clock of a run. */
  function EndStrobes(samples: seq<bool>): (s: seq<bool>)
    ensures |s| == |samples|
  {
    seq(|samples|, i requires 0 <= i < |samples| => Fell(EdgesRun(samples[..i])))
  }

  lemma {:induction false} EdgesExact(samples: seq<bool>)
    ensures var e, n := EdgesRun(samples), |samples|;
            && (e.first <==> n >= 1 && samples[n - 1])
            && (e.second <==> n >= 2 && samples[n - 2])
            && (e.was <==> n >= 3 && samples[n - 3])
            && (e.start <==> n >= 4 && samples[n - 4] && !samples[n - 3])
  {
    if samples != [] { EdgesExact(samples[..|samples| - 1]); }
  }

  /** The start strobe follows the end strobe by one clock. */
  lemma StartFollowsEnd(samples: seq<bool>, serclk: bool)
    ensures EdgesRun(samples + [serclk]).start <==> Fell(EdgesRun(samples))
    ensures !EdgesRun([]).start
  {
    assert (samples + [serclk])[..|samples|] == samples;
  }

  /** A strobe two clocks after each low sample that follows a high one, and in no other clock;
      so never in two clocks in succession. */
  lemma StrobesAreFalls(samples: seq<bool>, i: nat)
    requires i < |samples|
    ensures EndStrobes(samples)[i] <==> i >= 3 && samples[i - 3] && !samples[i - 2]
    ensures i >= 1 && EndStrobes(samples)[i] ==> !EndStrobes(samples)[i - 1]
  {
    hide EdgesRun;
    EdgesExact(samples[..i]);
    if i >= 1 { EdgesExact(samples[..i - 1]); }
  }

  // ----- The room this leaves -----

  /** From the end of one bit to the end of the bit `bits` later there are at least `gap` clocks. */
  ghost predicate Spread(bits: nat, gap: nat, strobes: seq<bool>) {
    forall i, k {:trigger strobes[i], strobes[k]} :: 0 <= i < k < |strobes| && strobes[i] && strobes[k] ==>
      BitEnds(strobes[..k]) < BitEnds(strobes[..i]) + bits || k - i >= gap
  }

  lemma {:induction false} SparseStrobes(strobes: seq<bool>, i: nat, k: nat)
    requires forall x :: 1 <= x < |strobes| && strobes[x] ==> !strobes[x - 1]
    requires i < k <= |strobes|
    ensures 2 * (BitEnds(strobes[..k]) - BitEnds(strobes[..i])) <= k - i + Count(strobes[k - 1])
  {
    assert strobes[..k][..k - 1] == strobes[..k - 1];
    if i < k - 1 { SparseStrobes(strobes, i, k - 1); }
  }

  /** Whatever the serial clock does, every bit takes two clocks. */
  lemma FallsSpread(samples: seq<bool>, bits: nat)
    ensures Spread(bits, 2 * bits, EndStrobes(samples))
  {
    hide EndStrobes, BitEnds;
    var s := EndStrobes(samples);
    forall x | 1 <= x < |s| && s[x] ensures !s[x - 1] { StrobesAreFalls(samples, x); }
    forall i, k | 0 <= i < k < |s| && s[i] && s[k]
      ensures BitEnds(s[..k]) < BitEnds(s[..i]) + bits || k - i >= 2 * bits
    {
      SparseStrobes(s, i, k);
    }
  }

  /** Any strobes that start after three clocks and never come in two in succession are those of
      some serial clock. */
  lemma SomeFalls(strobes: seq<bool>) returns (samples: seq<bool>)
    requires forall x :: 0 <= x < |strobes| && strobes[x] ==> x >= 3
    requires forall x :: 1 <= x < |strobes| && strobes[x] ==> !strobes[x - 1]
    ensures EndStrobes(samples) == strobes
  {
    samples := seq(|strobes|, i requires 0 <= i < |strobes| => i + 3 < |strobes| && strobes[i + 3]);
    hide EndStrobes;
    forall i | 0 <= i < |strobes| ensures EndStrobes(samples)[i] == strobes[i] { StrobesAreFalls(samples, i); }
  }
}
