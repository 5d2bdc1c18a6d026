/** The borrowed counters of an asynchronous FIFO: two Gray coded counters in unrelated
    clock domains, each seen by the other side through a two-stage synchroniser.

    `Counters` are the registers, `CounterStep` is one instant at which the write clock, the
    read clock or both have an edge. `Shadow` follows the same run with unbounded
    counters, and `Coupled` says how the registers represent it. */
module AsyncFifo {
  import opened GrayCode

  /** One instant. `wMix` and `rMix` decide, bit by bit, whether a synchroniser clocked
      at the very instant its input changes catches the old or the new bit. */
  datatype Edges = Edges(w: bool, wEn: bool, r: bool, rEn: bool, wMix: Bits, rMix: Bits)

  datatype Counters = Counters(
    produceW: nat, produceWGry: Bits,       // write domain counter
    consumeMeta: Bits, consumeWGry: Bits,   // synchroniser from the read domain
    consumeW: nat, wLevel: nat,             // registered decode and level
    consumeR: nat, consumeRGry: Bits,       // read domain counter
    produceMeta: Bits, produceRGry: Bits)   // synchroniser from the write domain
  {
    predicate Sized(width: nat) {
      && |produceWGry| == width && |consumeMeta| == width && |consumeWGry| == width
      && |consumeRGry| == width && |produceMeta| == width && |produceRGry| == width
    }
  }

  function CounterReset(width: nat): (c: Counters)
    ensures c.Sized(width)
  {
    var z := seq(width, i => false);
    Counters(0, z, z, z, 0, 0, 0, z, z, z)
  }

  predicate WRdy(width: nat, c: Counters)
    requires width >= 2 && c.Sized(width)
  {
    !FullTest(c.produceWGry, c.consumeWGry)
  }

  predicate RRdy(c: Counters) {
    c.consumeRGry != c.produceRGry
  }

  function RLevel(width: nat, c: Counters): nat {
    (Value(Decode(c.produceRGry)) - c.consumeR) % Pow2(width)
  }

  predicate DoWrite(width: nat, c: Counters, e: Edges)
    requires width >= 2 && c.Sized(width)
  {
    e.w && e.wEn && WRdy(width, c)
  }

  predicate DoRead(c: Counters, e: Edges) {
    e.r && e.rEn && RRdy(c)
  }

  function CounterStep(width: nat, c: Counters, e: Edges): (n: Counters)
    requires width >= 2 && c.Sized(width)
    ensures n.Sized(width)
  {
    var m := Pow2(width);
    var produceNxt := (c.produceW + if DoWrite(width, c, e) then 1 else 0) % m;
    var consumeNxt := (c.consumeR + if DoRead(c, e) then 1 else 0) % m;
    var produceGry := if e.w then Encode(ToBits(produceNxt, width)) else c.produceWGry;
    var consumeGry := if e.r then Encode(ToBits(consumeNxt, width)) else c.consumeRGry;
    Counters(
      if e.w then produceNxt else c.produceW,
      produceGry,
      if e.w then Mix(e.wMix, c.consumeRGry, consumeGry) else c.consumeMeta,
      if e.w then c.consumeMeta else c.consumeWGry,
      if e.w then Value(Decode(c.consumeWGry)) else c.consumeW,
      if e.w then (c.produceW - c.consumeW) % m else c.wLevel,
      if e.r then consumeNxt else c.consumeR,
      consumeGry,
      if e.r then Mix(e.rMix, c.produceWGry, produceGry) else c.produceMeta,
      if e.r then c.produceMeta else c.produceRGry)
  }

  /** The counters as the hardware description builds them: registers updated in place. */
  class HackedAsyncFIFO {
    const width: nat
    var produceW: nat
    var produceWGry: Bits
    var consumeMeta: Bits
    var consumeWGry: Bits
    var consumeW: nat
    var wLevel: nat
    var consumeR: nat
    var consumeRGry: Bits
    var produceMeta: Bits
    var produceRGry: Bits

    constructor (depthBits: nat)
      requires depthBits >= 1
      ensures width == depthBits + 1 && Valid() && State() == CounterReset(width)
    {
      width := depthBits + 1;
      var z := seq(depthBits + 1, i => false);
      produceW, consumeW, wLevel, consumeR := 0, 0, 0, 0;
      produceWGry, consumeMeta, consumeWGry := z, z, z;
      consumeRGry, produceMeta, produceRGry := z, z, z;
    }

    function State(): Counters
      reads this
    {
      Counters(produceW, produceWGry, consumeMeta, consumeWGry, consumeW, wLevel,
               consumeR, consumeRGry, produceMeta, produceRGry)
    }

    predicate Valid()
      reads this
    {
      width >= 2 && State().Sized(width)
    }

    method Edge(e: Edges)
      requires Valid()
      modifies this
      ensures Valid() && State() == CounterStep(width, old(State()), e)
    {
      hide Encode, ToBits, Value, Decode, Mix, FullTest, Pow2;
      // Combinational signals, from the registers as they stand.
      var m := Pow2(width);
      var doWrite := e.w && e.wEn && !FullTest(produceWGry, consumeWGry);
      var doRead := e.r && e.rEn && consumeRGry != produceRGry;
      var produceNxt := (produceW + if doWrite then 1 else 0) % m;
      var consumeNxt := (consumeR + if doRead then 1 else 0) % m;
      var produceGry := if e.w then Encode(ToBits(produceNxt, width)) else produceWGry;
      var consumeGry := if e.r then Encode(ToBits(consumeNxt, width)) else consumeRGry;
      var wSample := Mix(e.wMix, consumeRGry, consumeGry);
      var rSample := Mix(e.rMix, produceWGry, produceGry);
      // Registers, at the edges.
      if e.w {
        wLevel := (produceW - consumeW) % m;
        consumeW := Value(Decode(consumeWGry));
        consumeWGry, consumeMeta := consumeMeta, wSample;
        produceW, produceWGry := produceNxt, produceGry;
      }
      if e.r {
        produceRGry, produceMeta := produceMeta, rSample;
        consumeR, consumeRGry := consumeNxt, consumeGry;
      }
    }
  }

  // ----- Unbounded counters behind the registers -----

  /** How far each register has got, counted without wrapping:
      produced and consumed; what the write side knows of the consumer, from the first
      synchroniser stage to the registered level; what the read side knows of the producer. */
  datatype Shadow = Shadow(
    produced: nat, consumed: nat,
    c0: nat, c1: nat, cDecoded: nat, cLevel: nat, pLevel: nat,
    p0: nat, p1: nat)

  const SHADOW_RESET := Shadow(0, 0, 0, 0, 0, 0, 0, 0, 0)

  function ShadowStep(width: nat, c: Counters, g: Shadow, e: Edges): Shadow
    requires width >= 2 && c.Sized(width)
  {
    var n := CounterStep(width, c, e);
    var produced := g.produced + if DoWrite(width, c, e) then 1 else 0;
    var consumed := g.consumed + if DoRead(c, e) then 1 else 0;
    Shadow(
      produced, consumed,
      if !e.w then g.c0 else if n.consumeMeta == Gray(width, consumed) then consumed else g.consumed,
      if e.w then g.c0 else g.c1,
      if e.w then g.c1 else g.cDecoded,
      if e.w then g.cDecoded else g.cLevel,
      if e.w then g.produced else g.pLevel,
      if !e.r then g.p0 else if n.produceMeta == Gray(width, produced) then produced else g.produced,
      if e.r then g.p0 else g.p1)
  }

  ghost predicate Coupled(width: nat, c: Counters, g: Shadow) {
    var m := Pow2(width);
    && c.produceW == g.produced % m && c.produceWGry == Gray(width, g.produced)
    && c.consumeR == g.consumed % m && c.consumeRGry == Gray(width, g.consumed)
    && c.consumeMeta == Gray(width, g.c0) && c.consumeWGry == Gray(width, g.c1)
    && c.consumeW == g.cDecoded % m && c.wLevel == g.pLevel - g.cLevel
    && c.produceMeta == Gray(width, g.p0) && c.produceRGry == Gray(width, g.p1)
  }

  /** What every run keeps, whatever the enables: each side's knowledge of the other is
      old but never wrong, and occupancy, even as the writer knows it, fits the depth. */
  predicate Ordered(depth: nat, g: Shadow) {
    && g.cLevel <= g.cDecoded <= g.c1 <= g.c0 <= g.consumed <= g.p1 <= g.p0 <= g.produced
    && g.produced - g.cDecoded <= depth
    && g.cLevel <= g.pLevel <= g.produced
    && g.pLevel - g.cLevel <= depth
  }

  ghost predicate CounterInv(width: nat, c: Counters, g: Shadow) {
    width >= 2 && c.Sized(width) && Coupled(width, c, g) && Ordered(Pow2(width - 1), g)
  }

  lemma EqualModulo(a: nat, b: nat, m: nat)
    requires m > 0 && 0 <= a - b < m
    ensures (a % m - b % m) % m == a - b
    ensures a % m == b % m <==> a == b
  {
    ModOfDifference(a, b, m);
    ModUnique(a - b, 0, m);
    ModUnique(0, 0, m);
  }

  lemma IncrementModulo(a: nat, b: nat, m: nat)
    requires m > 0
    ensures (a % m + b) % m == (a + b) % m
  {
    var q, r := a / m + (a % m + b) / m, (a % m + b) % m;
    assert a + b == m * q + r;
    ModUnique(r, q, m);
  }

  /** The ready flags and the read level, computed from truncated Gray codes, are exact
      statements about the unbounded counters. */
  lemma FlagsExact(width: nat, c: Counters, g: Shadow)
    requires CounterInv(width, c, g)
    ensures WRdy(width, c) <==> g.produced - g.c1 < Pow2(width - 1)
    ensures RRdy(c) <==> g.consumed < g.p1
    ensures RLevel(width, c) == g.p1 - g.consumed
  {
    hide Encode, ToBits, Value, Decode, FullTest, Gray;
    var m := Pow2(width);
    FullTestExact(width, g.produced, g.c1);
    ModUnique(g.produced - g.c1, 0, m);
    EmptyTestExact(width, g.consumed, g.p1);
    EqualModulo(g.p1, g.consumed, m);
    DecodeGray(width, g.p1);
  }

  lemma GrayOfTruncated(width: nat, n: nat)
    ensures Encode(ToBits(n % Pow2(width), width)) == Gray(width, n)
  {
    BitsOfMod(n, width);
  }

  /** What a synchroniser catches is the counter before or after the step it coincides with. */
  lemma SampleExact(width: nat, n: nat, after: nat, mask: Bits)
    requires after == n || after == n + 1
    ensures var m := Mix(mask, Gray(width, n), Gray(width, after));
            m == Gray(width, n) || m == Gray(width, after)
  {
    SampledCounter(width, n, mask);
    MixOfEqual(mask, Gray(width, n));
  }

  lemma CountersStayCoupled(width: nat, c: Counters, g: Shadow, e: Edges)
    requires CounterInv(width, c, g)
    ensures var n, h := CounterStep(width, c, e), ShadowStep(width, c, g, e);
            && n.produceW == h.produced % Pow2(width) && n.produceWGry == Gray(width, h.produced)
            && n.consumeR == h.consumed % Pow2(width) && n.consumeRGry == Gray(width, h.consumed)
  {
    hide Encode, ToBits, Value, Decode, Mix, FullTest, Pow2;
    var h := ShadowStep(width, c, g, e);
    IncrementModulo(g.produced, h.produced - g.produced, Pow2(width));
    IncrementModulo(g.consumed, h.consumed - g.consumed, Pow2(width));
    GrayOfTruncated(width, h.produced);
    GrayOfTruncated(width, h.consumed);
  }

  lemma WriteSideStaysCoupled(width: nat, c: Counters, g: Shadow, e: Edges)
    requires CounterInv(width, c, g)
    ensures var n, h := CounterStep(width, c, e), ShadowStep(width, c, g, e);
            && n.consumeMeta == Gray(width, h.c0) && n.consumeWGry == Gray(width, h.c1)
            && n.consumeW == h.cDecoded % Pow2(width) && n.wLevel == h.pLevel - h.cLevel
  {
    hide Encode, ToBits, Value, Decode, Mix, FullTest, Gray;
    var h := ShadowStep(width, c, g, e);
    CountersStayCoupled(width, c, g, e);
    DecodeGray(width, g.c1);
    EqualModulo(g.produced, g.cDecoded, Pow2(width));
    SampleExact(width, g.consumed, h.consumed, e.wMix);
  }

  lemma ReadSideStaysCoupled(width: nat, c: Counters, g: Shadow, e: Edges)
    requires CounterInv(width, c, g)
    ensures var n, h := CounterStep(width, c, e), ShadowStep(width, c, g, e);
            n.produceMeta == Gray(width, h.p0) && n.produceRGry == Gray(width, h.p1)
  {
    hide Encode, ToBits, Value, Decode, Mix, FullTest, Pow2, Gray;
    var h := ShadowStep(width, c, g, e);
    CountersStayCoupled(width, c, g, e);
    SampleExact(width, g.produced, h.produced, e.rMix);
  }

  /** Every instant keeps the invariant, for arbitrary enables and arbitrary sampling. */
  lemma CounterStepKeepsInv(width: nat, c: Counters, g: Shadow, e: Edges)
    requires CounterInv(width, c, g)
    ensures CounterInv(width, CounterStep(width, c, e), ShadowStep(width, c, g, e))
  {
    hide Encode, ToBits, Value, Decode, Mix, FullTest, Gray;
    FlagsExact(width, c, g);
    CountersStayCoupled(width, c, g, e);
    WriteSideStaysCoupled(width, c, g, e);
    ReadSideStaysCoupled(width, c, g, e);
  }

  lemma {:induction false} ZeroBits(width: nat)
    ensures ToBits(0, width) == seq(width, i => false)
    decreases width
  {
    if width > 0 { ZeroBits(width - 1); }
  }

  lemma ResetInv(width: nat)
    requires width >= 2
    ensures CounterInv(width, CounterReset(width), SHADOW_RESET)
  {
    ZeroBits(width);
    assert Gray(width, 0) == seq(width, i => false);
  }
}
