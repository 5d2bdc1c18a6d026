/** The mu-law codec: the branch-free encoder, the loop-based reference encoder and the two
    decoders (section 3 of ITU-T G.711, reference code after ITU-T G.191). */
module Ulaw {

  import opened Chunks
  import opened GrayCode
  import opened Words

  // ----- The law -----

  predicate Negative(code: U8) { code < 128 }

  function Segment(code: U8): (e: nat)
    ensures e < 8
  {
    (255 - code) / 16 % 8
  }

  function Interval(code: U8): (q: nat)
    ensures q < 16
  {
    (255 - code) % 16
  }

  /** Half a quantisation step of the code's segment. */
  function HalfStep(code: U8): nat { Pow2(Segment(code)) }

  /** The decision value below the code's interval, in biased magnitudes. */
  function Lower(code: U8): nat { HalfStep(code) * (32 + 2 * Interval(code)) }

  function Middle(code: U8): nat { Lower(code) + HalfStep(code) }

  /** Magnitude plus bias; negative samples use the one's complement. */
  function Biased(x: int): nat { if x < 0 then 32 - x else x + 33 }

  /** `code` is the character signal for the 14-bit sample `x`: same sign, and the biased
      magnitude lies between the interval's decision values, except that the outermost
      interval is open. */
  predicate Decides(x: int, code: U8) {
    && (Negative(code) <==> x < 0)
    && Lower(code) <= Biased(x)
    && (Biased(x) < Lower(code) + 2 * HalfStep(code) || (Segment(code) == 7 && Interval(code) == 15))
  }

  lemma CodeFields(s: nat, e: nat, q: nat, code: int)
    requires s <= 1 && e < 8 && q < 16 && code == 255 - (128 * s + 16 * e + q)
    ensures 0 <= code < 256
    ensures Segment(code) == e && Interval(code) == q && (Negative(code) <==> s == 1)
  {
    assert 255 - code == 16 * (8 * s + e) + q;
    assert (255 - code) / 16 == 8 * s + e;
  }

  lemma CodeOfFields(code: U8)
    ensures code == 255 - ((if Negative(code) then 128 else 0) + 16 * Segment(code) + Interval(code))
  {
    assert 255 - code == 16 * ((255 - code) / 16) + Interval(code);
    assert (255 - code) / 16 == 8 * ((255 - code) / 16 / 8) + Segment(code);
  }

  /** Intervals do not overlap and are ordered like their indices. */
  lemma IntervalsOrdered(c: U8, d: U8)
    requires Segment(c) < Segment(d) || (Segment(c) == Segment(d) && Interval(c) < Interval(d))
    ensures Lower(c) + 2 * HalfStep(c) <= Lower(d)
  {
    hide Segment, Interval, Pow2;
    var h, k := HalfStep(c), HalfStep(d);
    if Segment(c) < Segment(d) {
      PowMonotone(Segment(c), Segment(d));
      TimesMonotone(h, 32 + 2 * Interval(c), 62);
      TimesMonotone(k, 32, 32 + 2 * Interval(d));
    } else {
      TimesMonotone(h, 34 + 2 * Interval(c), 32 + 2 * Interval(d));
      Distribute(h, 32 + 2 * Interval(c), 2);
    }
  }

  /** The law is a function: no sample has two codes. */
  lemma DecisionUnique(x: int, c: U8, d: U8)
    requires Decides(x, c) && Decides(x, d)
    ensures c == d
  {
    hide Lower, HalfStep, Biased, Segment, Interval;
    if Segment(c) < Segment(d) || (Segment(c) == Segment(d) && Interval(c) < Interval(d)) {
      IntervalsOrdered(c, d);
    } else if Segment(d) < Segment(c) || (Segment(c) == Segment(d) && Interval(d) < Interval(c)) {
      IntervalsOrdered(d, c);
    }
    CodeOfFields(c);
    CodeOfFields(d);
  }

  /** How a biased magnitude of bit length `e + 6` is cut into segment and interval. */
  lemma CutMagnitude(x: int, a: nat, e: nat, k: nat, code: U8)
    requires e < 8 && Pow2(e + 5) <= a < Pow2(e + 6) && k == a / Pow2(e + 1)
    requires Segment(code) == e && Interval(code) == k % 16 && (Negative(code) <==> x < 0)
    requires a == Biased(x) || (Biased(x) >= a >= 7936)
    ensures Decides(x, code)
  {
    var h := Pow2(e);
    assert Pow2(e + 1) == 2 * h && Pow2(e + 2) == 4 * h && Pow2(e + 3) == 8 * h && Pow2(e + 4) == 16 * h;
    assert Pow2(e + 5) == 32 * h && Pow2(e + 6) == 64 * h && HalfStep(code) == h;
    hide *;
    if a != Biased(x) {
      LastSegment(a, e);
      Powers();
    }
    CutInterval(x, a, h, k, code);
  }

  lemma CutInterval(x: int, a: nat, h: nat, k: nat, code: U8)
    requires h > 0 && HalfStep(code) == h && k == a / (2 * h) && 32 * h <= a < 64 * h
    requires Interval(code) == k % 16 && (Negative(code) <==> x < 0)
    requires a == Biased(x) || (Biased(x) >= a >= 7936 && h == 128 && Segment(code) == 7)
    ensures Decides(x, code)
  {
    Cut(a, h, k);
    hide Segment, Interval, Biased, HalfStep, Negative;
    assert Interval(code) == k - 16;
  }

  /** Halves-of-steps arithmetic: a magnitude of a segment lies in the interval its quotient names. */
  lemma Cut(a: nat, h: nat, k: nat)
    requires h > 0 && k == a / (2 * h) && 32 * h <= a < 64 * h
    ensures 16 <= k < 32
    ensures h * (32 + 2 * (k - 16)) <= a < h * (32 + 2 * (k - 16)) + 2 * h
  {
    var r := a % (2 * h);
    assert a == 2 * h * k + r;
    assert 2 * h * k == h * (2 * k);
    Ratio(h, 2 * k, 30);
    Ratio(h, 64, 2 * k);
  }

  lemma Ratio(h: nat, m: int, n: int)
    requires h > 0
    ensures m <= n ==> h * m <= h * n
    ensures m > n ==> h * m >= h * n + h
  {
    Distribute(h, n, m - n);
    Product(h, m - n);
  }

  lemma LastSegment(a: nat, e: nat)
    requires e < 8 && 7936 <= a < Pow2(e + 6)
    ensures e == 7
  {
    Powers();
    if e < 7 { PowMonotone(e + 6, 13); }
  }

  // ----- The reference encoder -----

  /** The reference discards the two low bits of its input. It computes the law's decision,
      and so for every input what the fast encoder computes. */
  method EncodeUlawG191(linear: I16) returns (code: U8)
    ensures Decides(linear / 4, code)
    ensures code == EncodeI14(linear / 4)
  {
    hide Xor, Or, And, Pow2, BitLength, Decides, Segment, Interval, EncodeI14;
    Powers();
    var absno: U16, signBit: U8;
    if linear < 0 {
      XorOnes(AsU16(linear), 16);
      absno, signBit := Xor(AsU16(linear), 0xffff), 0;
    } else {
      absno, signBit := AsU16(linear), 0x80;
    }
    absno := Shr(absno, 2) + 33;
    assert absno == Biased(linear / 4);
    if absno > 0x1fff { absno := 0x1fff; }

    var i, segno := Shr(absno, 6), 1;
    while i != 0
      invariant 1 <= segno && i == absno / Pow2(segno + 5)
      invariant absno >= Pow2(segno + 4)
    {
      SegmentStep(absno, segno + 5);
      segno, i := segno + 1, Shr(i, 1);
    }
    SegmentFound(absno, segno - 1);
    var highNibble := 8 - segno;
    var lowNibble := And(Shr(absno, segno) % 256, 0x0F);
    LowNibble(Shr(absno, segno));
    lowNibble := 0x0F - lowNibble;
    JoinNibbles(signBit / 128, highNibble, lowNibble);
    code := Or(Or(signBit, highNibble * 16), lowNibble);
    CodeFields(1 - signBit / 128, segno - 1, 15 - lowNibble, code);
    CutMagnitude(linear / 4, absno, segno - 1, Shr(absno, segno), code);
    FastEqualsReference(linear, code);
  }

  /** Truncating to a byte first does not change the low four bits. */
  lemma LowNibble(k: nat)
    ensures And(k % 256, 0x0F) == k % 16
  {
    AndOnes(k % 256, 4);
    assert Pow2(4) == 16;
    hide And, Pow2;
    assert k == 256 * (k / 256) + k % 256;
    ModUnique(k % 256 % 16, 16 * (k / 256) + k % 256 / 16, 16);
  }

  lemma SegmentStep(a: nat, n: nat)
    requires a / Pow2(n) > 0
    ensures a >= Pow2(n) && Shr(a / Pow2(n), 1) == a / Pow2(n + 1)
  {
    var p := Pow2(n);
    assert Pow2(n + 1) == 2 * p && Pow2(1) == 2 * Pow2(0);
    HalfQuotient(a, p);
  }

  lemma HalfQuotient(a: nat, p: nat)
    requires p > 0
    ensures a / p / 2 == a / (2 * p)
    ensures a / p > 0 ==> a >= p
  {
    var k, j := a / p, a / (2 * p);
    assert a == p * k + a % p && a == 2 * p * j + a % (2 * p);
    Between(p, k - 2 * j, a % (2 * p) - a % p);
    assert p * (k - 2 * j) == p * k - 2 * p * j;
  }

  lemma Between(p: int, d: int, r: int)
    requires p > 0 && p * d == r && -p < r < 2 * p
    ensures 0 <= d <= 1
  {
    assert d <= -1 ==> p * d <= -p;
    assert d >= 2 ==> p * d >= 2 * p;
  }

  lemma SegmentFound(a: nat, e: nat)
    requires a <= 0x1fff && Pow2(e + 5) <= a && a / Pow2(e + 6) == 0
    ensures e < 8 && a < Pow2(e + 6)
  {
    Powers();
    if e >= 8 { PowMonotone(12, e + 5); }
    SmallQuotient(a, Pow2(e + 6));
  }

  lemma SmallQuotient(a: nat, p: nat)
    requires p > 0 && a / p == 0
    ensures a < p
  {
    assert a == p * (a / p) + a % p;
  }

  lemma JoinNibbles(s: nat, high: nat, low: nat)
    requires s <= 1 && high < 8 && low < 16
    ensures Or(Or(128 * s, high * 16), low) == 128 * s + 16 * high + low
  {
    hide Pow2, Or;
    Powers();
    var a := 8 * s + high;
    OrAbove(s, high * 16, 7, 128);
    assert s * 128 == 128 * s && s * 128 + high * 16 == a * 16;
    OrAbove(a, low, 4, 16);
  }

  // ----- The fast encoder -----

  /** The word the fast encoder looks at: eight times the biased magnitude, negative samples
      having their three low bits set. */
  function Magnitude(linear: I16): (m: U16)
    ensures var x := Clamped(linear);
            m == 8 * Biased(x) + (if x < 0 then 7 else 0)
  {
    Powers();
    hide Xor, Pow2, SignExtended;
    var shifted := Shl16(AsU16(Clamped(linear)), 3);
    XorOnes(shifted, 16);
    XorZero(shifted);
    Xor(shifted, SignExtended(Clamped(linear))) + 33 * 8
  }

  function SignExtended(x: I16): (s: U16)
    ensures s == if x < 0 then 0xffff else 0
  {
    Powers();
    AsU16(0 - Shr(AsU16(x), 15))
  }

  function Clamped(linear: I16): I16 {
    if linear < -8031 then -8031 else if linear > 8031 then 8031 else linear
  }

  /** Both debug assertions hold for every input. */
  lemma SegmentInRange(linear: I16)
    ensures var zeros := LeadingZeros(Magnitude(linear));
            && 0 <= zeros < 8 && 0 <= 7 - zeros < 8
            && Pow2(7 - zeros + 8) <= Magnitude(linear) < Pow2(7 - zeros + 9)
  {
    hide Magnitude;
    var m := Magnitude(linear);
    BitLengthBounds(m);
    Powers();
    var n := BitLength(m);
    if n < 9 { PowMonotone(n, 9); }
    if n > 16 { PowNotBelow(16, n - 1); }
  }

  function EncodeI14(linear: I16): (code: U8)
    ensures Decides(linear, code)
  {
    hide And, Or, Xor, Pow2, Magnitude, Decides;
    var magnitude := Magnitude(linear);
    var leadingZeros := LeadingZeros(magnitude);
    SegmentInRange(linear);
    assert leadingZeros < 8;
    var abcd := And(Shr(magnitude, 11 - leadingZeros) % 256, 0x0F);
    var exponent := 7 - leadingZeros;
    assert exponent < 8;
    var code := Or(Or(And(SignExtended(Clamped(linear)) % 256, 0x80), exponent * 16 % 256), abcd);
    EncodedBits(linear, exponent, abcd, code);
    Xor(code, 0xFF)
  }

  lemma EncodedBits(linear: I16, e: nat, abcd: nat, code: nat)
    requires e < 8 && Pow2(e + 8) <= Magnitude(linear) < Pow2(e + 9)
    requires abcd == And(Shr(Magnitude(linear), e + 4) % 256, 0x0F)
    requires code == Or(Or(And(SignExtended(Clamped(linear)) % 256, 0x80), e * 16 % 256), abcd)
    ensures 0 <= Xor(code, 0xFF) < 256 && Decides(linear, Xor(code, 0xFF))
  {
    hide *;
    var s := SignBit(linear);
    var a, k := EncodedInterval(linear, e, abcd);
    JoinedCode(s, e, abcd);
    CodeFields(s, e, abcd, 255 - code);
    CutMagnitude(linear, a, e, k, 255 - code);
  }

  lemma JoinedCode(s: nat, e: nat, q: nat)
    requires s <= 1 && e < 8 && q < 16
    ensures var code := Or(Or(128 * s, e * 16 % 256), q);
            code == 128 * s + 16 * e + q && Xor(code, 255) == 255 - code
  {
    hide *;
    Powers();
    JoinNibbles(s, e, q);
    XorOnes(128 * s + 16 * e + q, 8);
  }

  lemma SignBit(linear: I16) returns (s: nat)
    ensures s == if linear < 0 then 1 else 0
    ensures And(SignExtended(Clamped(linear)) % 256, 0x80) == 128 * s
  {
    s := if linear < 0 then 1 else 0;
    assert SignExtended(Clamped(linear)) % 256 == 255 * s;
    hide SignExtended, Clamped;
    AndBit();
    hide And;
  }

  lemma AndBit()
    ensures And(255, 128) == 128 && And(0, 128) == 0
  {
    assert And(1, 1) == 1;
    assert And(15, 8) == 8;
  }

  lemma EncodedInterval(linear: I16, e: nat, abcd: nat) returns (a: nat, k: nat)
    requires Pow2(e + 8) <= Magnitude(linear) < Pow2(e + 9)
    requires abcd == And(Shr(Magnitude(linear), e + 4) % 256, 0x0F)
    ensures Pow2(e + 5) <= a < Pow2(e + 6) && k == a / Pow2(e + 1) && abcd == k % 16
    ensures a == Biased(linear) || Biased(linear) >= a >= 7936
  {
    a := Biased(Clamped(linear));
    var m, p := Magnitude(linear), Pow2(e + 1);
    assert Pow2(e + 2) == 2 * p && Pow2(e + 3) == 4 * p && Pow2(e + 4) == 8 * p && Pow2(e + 5) == 16 * p
        && Pow2(e + 6) == 32 * p && Pow2(e + 7) == 64 * p && Pow2(e + 8) == 128 * p && Pow2(e + 9) == 256 * p;
    assert Shr(m, e + 4) == m / (8 * p);
    hide And, Pow2, Magnitude, Shr;
    LowNibble(Shr(m, e + 4));
    DropThreeBits(a, m - 8 * a, p);
    k := Shr(m, e + 4);
  }

  lemma DropThreeBits(a: nat, r: nat, p: nat)
    requires p > 0 && r < 8
    ensures (8 * a + r) / (8 * p) == a / p
  {
    var k := a / p;
    assert a == p * k + a % p;
    assert 8 * p * k == 8 * (p * k);
    QuotientUnique(8 * a + r, 8 * p, k);
  }

  /** The fast encoder equals any encoder that follows the law, on every 16-bit input and
      although the two clamp at different points. */
  lemma FastEqualsReference(linear: I16, code: U8)
    requires Decides(linear / 4, code)
    ensures code == EncodeI14(linear / 4)
  {
    DecisionUnique(linear / 4, code, EncodeI14(linear / 4));
  }

  // ----- The decoders -----

  function DecodeUlawG191(code: U8): (sample: I16)
    ensures sample == (if Negative(code) then -4 else 4) * (Middle(code) - 33)
  {
    var sign := if code < 0x80 then -1 else 1;
    var mantissa := Xor(code, 0xFF);
    var exponent := And(Shr(mantissa, 4), 0x07);
    var segment := exponent + 1;
    var low := And(mantissa, 0x0F);
    DecodedBits(code);
    var step := Shl16(4, segment);
    StepWidth(code);
    sign * (Shl16(0x80, exponent) + step * low + step / 2 - 4 * 33)
  }

  lemma DecodedBits(code: U8)
    ensures var word := Xor(code, 0xFF);
            And(Shr(word, 4), 0x07) == Segment(code) && And(word, 0x0F) == Interval(code)
  {
    Powers();
    XorOnes(code, 8);
    hide Xor, And, Pow2;
    AndOnes(255 - code, 4);
    AndOnes(Shr(255 - code, 4), 3);
  }

  /** The sixteen-bit shifts do not overflow, and add up to the middle of the interval. */
  lemma StepWidth(code: U8)
    ensures var e, step := Segment(code), Shl16(4, Segment(code) + 1);
            && 33 <= Middle(code) <= 8064
            && Shl16(0x80, e) + step * Interval(code) + step / 2 == 4 * Middle(code)
  {
    Powers();
    var h, q := HalfStep(code), Interval(code);
    PowNotBelow(Segment(code), 7);
    assert Pow2(Segment(code) + 1) == 2 * h;
    hide Segment, Interval, Pow2;
    assert Shl16(4, Segment(code) + 1) == 8 * h && Shl16(0x80, Segment(code)) == 128 * h;
    hide Shl16;
    IntervalProducts(h, q);
  }

  lemma IntervalProducts(h: nat, q: nat)
    requires 1 <= h <= 128 && q < 16
    ensures 33 <= h * (32 + 2 * q) + h <= 8064
    ensures 128 * h + 8 * h * q + 4 * h == 4 * (h * (32 + 2 * q) + h)
  {
    var p := h * q;
    assert 8 * h * q == 8 * p && h * (32 + 2 * q) == 32 * h + 2 * p;
    assert 0 <= p <= 128 * 15 by { TimesMonotone(h, q, 15); }
  }

  const ROW_0 := [-32124, -31100, -30076, -29052, -28028, -27004, -25980, -24956,
                  -23932, -22908, -21884, -20860, -19836, -18812, -17788, -16764]
  const ROW_1 := [-15996, -15484, -14972, -14460, -13948, -13436, -12924, -12412,
                  -11900, -11388, -10876, -10364, -9852, -9340, -8828, -8316]
  const ROW_2 := [-7932, -7676, -7420, -7164, -6908, -6652, -6396, -6140,
                  -5884, -5628, -5372, -5116, -4860, -4604, -4348, -4092]
  const ROW_3 := [-3900, -3772, -3644, -3516, -3388, -3260, -3132, -3004,
                  -2876, -2748, -2620, -2492, -2364, -2236, -2108, -1980]
  const ROW_4 := [-1884, -1820, -1756, -1692, -1628, -1564, -1500, -1436,
                  -1372, -1308, -1244, -1180, -1116, -1052, -988, -924]
  const ROW_5 := [-876, -844, -812, -780, -748, -716, -684, -652,
                  -620, -588, -556, -524, -492, -460, -428, -396]
  const ROW_6 := [-372, -356, -340, -324, -308, -292, -276, -260,
                  -244, -228, -212, -196, -180, -164, -148, -132]
  const ROW_7 := [-120, -112, -104, -96, -88, -80, -72, -64,
                  -56, -48, -40, -32, -24, -16, -8, 0]
  const ROW_8 := [32124, 31100, 30076, 29052, 28028, 27004, 25980, 24956,
                  23932, 22908, 21884, 20860, 19836, 18812, 17788, 16764]
  const ROW_9 := [15996, 15484, 14972, 14460, 13948, 13436, 12924, 12412,
                  11900, 11388, 10876, 10364, 9852, 9340, 8828, 8316]
  const ROW_10 := [7932, 7676, 7420, 7164, 6908, 6652, 6396, 6140,
                   5884, 5628, 5372, 5116, 4860, 4604, 4348, 4092]
  const ROW_11 := [3900, 3772, 3644, 3516, 3388, 3260, 3132, 3004,
                   2876, 2748, 2620, 2492, 2364, 2236, 2108, 1980]
  const ROW_12 := [1884, 1820, 1756, 1692, 1628, 1564, 1500, 1436,
                   1372, 1308, 1244, 1180, 1116, 1052, 988, 924]
  const ROW_13 := [876, 844, 812, 780, 748, 716, 684, 652,
                   620, 588, 556, 524, 492, 460, 428, 396]
  const ROW_14 := [372, 356, 340, 324, 308, 292, 276, 260,
                   244, 228, 212, 196, 180, 164, 148, 132]
  const ROW_15 := [120, 112, 104, 96, 88, 80, 72, 64,
                   56, 48, 40, 32, 24, 16, 8, 0]

  const ROWS := [ROW_0, ROW_1, ROW_2, ROW_3, ROW_4, ROW_5, ROW_6, ROW_7,
                 ROW_8, ROW_9, ROW_10, ROW_11, ROW_12, ROW_13, ROW_14, ROW_15]

  const ULAW_TO_LINEAR: seq<int> := Flatten(ROWS)

  /** A row runs down one segment: the sample in column `k` is `4 * (63 - 2 * k) * half - 132`,
      up to sign. */
  predicate RunsDown(row: seq<int>, sign: int, half: int) {
    |row| == 16 && forall k :: 0 <= k < 16 ==> row[k] == sign * (4 * (half * (63 - 2 * k)) - 132)
  }

  lemma NegativeCoarseRows()
    ensures RunsDown(ROW_0, -1, 128) && RunsDown(ROW_1, -1, 64) && RunsDown(ROW_2, -1, 32)
    ensures RunsDown(ROW_3, -1, 16)
  {
  }

  lemma NegativeFineRows()
    ensures RunsDown(ROW_4, -1, 8) && RunsDown(ROW_5, -1, 4) && RunsDown(ROW_6, -1, 2)
    ensures RunsDown(ROW_7, -1, 1)
  {
  }

  lemma PositiveCoarseRows()
    ensures RunsDown(ROW_8, 1, 128) && RunsDown(ROW_9, 1, 64) && RunsDown(ROW_10, 1, 32)
    ensures RunsDown(ROW_11, 1, 16)
  {
  }

  lemma PositiveFineRows()
    ensures RunsDown(ROW_12, 1, 8) && RunsDown(ROW_13, 1, 4) && RunsDown(ROW_14, 1, 2)
    ensures RunsDown(ROW_15, 1, 1)
  {
  }

  lemma RowRunsDown(r: nat)
    requires r < 16
    ensures RunsDown(ROWS[r], if r < 8 then -1 else 1, Pow2(7 - r % 8))
  {
    NegativeCoarseRows();
    NegativeFineRows();
    PositiveCoarseRows();
    PositiveFineRows();
    Powers();
    hide RunsDown;
  }

  lemma TableEntry(code: U8)
    ensures |ROWS[code / 16]| == 16
    ensures code < |ULAW_TO_LINEAR| && ULAW_TO_LINEAR[code] == ROWS[code / 16][code % 16]
  {
    forall r | 0 <= r < 16 ensures |ROWS[r]| == 16 { RowRunsDown(r); }
    hide Flatten;
    FlattenAt(ROWS, 16, code / 16, code % 16);
  }

  function DecodeI16(code: U8): (sample: I16)
    ensures sample == DecodeUlawG191(code)
  {
    hide Flatten, DecodeUlawG191;
    TableIsFormula(code);
    ULAW_TO_LINEAR[code]
  }

  lemma TableValue(code: U8)
    ensures code < |ULAW_TO_LINEAR|
    ensures ULAW_TO_LINEAR[code]
         == (if code < 128 then -1 else 1) * (4 * (Pow2(7 - code / 16 % 8) * (63 - 2 * (code % 16))) - 132)
  {
    TableEntry(code);
    RowRunsDown(code / 16);
    hide Flatten, Pow2;
  }

  /** Every entry of the shipped table is what the reference decoder computes. */
  lemma TableIsFormula(code: U8)
    ensures code < |ULAW_TO_LINEAR| && ULAW_TO_LINEAR[code] == DecodeUlawG191(code)
  {
    hide Flatten, DecodeUlawG191;
    TableValue(code);
    RowOfCode(code);
    hide *;
  }

  lemma RowOfCode(code: U8)
    ensures Middle(code) == Pow2(7 - code / 16 % 8) * (63 - 2 * (code % 16))
    ensures Negative(code) <==> code < 128
  {
    CodeFields(if code < 128 then 1 else 0, 7 - code / 16 % 8, 15 - code % 16, code);
    hide Segment, Interval, Pow2;
    Distribute(HalfStep(code), 32 + 2 * (15 - code % 16), 1);
  }

  // ----- The quantiser -----

  /** Decoding after encoding never reverses the order of two samples. */
  lemma Monotone(x: I16, y: I16)
    requires x <= y
    ensures DecodeI16(EncodeI14(x)) <= DecodeI16(EncodeI14(y))
  {
    var c, d := EncodeI14(x), EncodeI14(y);
    hide EncodeI14, DecodeUlawG191, DecodeI16, Segment, Interval;
    StepWidth(c);
    StepWidth(d);
    if x >= 0 {
      MiddleOrdered(x, c, y, d);
    } else if y < 0 {
      MiddleOrdered(y, d, x, c);
    }
  }

  lemma MiddleOrdered(x: int, c: U8, y: int, d: U8)
    requires Decides(x, c) && Decides(y, d) && Biased(x) <= Biased(y)
    ensures Middle(c) <= Middle(d)
  {
    hide Lower, HalfStep, Biased, Segment, Interval;
    if Segment(d) < Segment(c) || (Segment(c) == Segment(d) && Interval(d) < Interval(c)) {
      IntervalsOrdered(d, c);
    } else if Segment(c) < Segment(d) || (Segment(c) == Segment(d) && Interval(c) < Interval(d)) {
      IntervalsOrdered(c, d);
    } else {
      SameFields(c, d);
    }
  }

  lemma SameFields(c: U8, d: U8)
    requires Segment(c) == Segment(d) && Interval(c) == Interval(d)
    ensures Middle(c) == Middle(d)
  {
  }

  function Abs(n: int): nat { if n < 0 then -n else n }

  /** The quantisation error is at most half a step of the code's segment exactly on the range
      of the law; beyond it the outermost interval saturates. */
  lemma ErrorBound(x: I16)
    ensures var c := EncodeI14(x);
            Abs(4 * x - DecodeI16(c)) <= 4 * HalfStep(c) <==> -8159 <= x <= 8159
  {
    var c := EncodeI14(x);
    hide EncodeI14, DecodeUlawG191, DecodeI16;
    Powers();
    StepWidth(c);
    if Segment(c) == 7 && Interval(c) == 15 {
      assert HalfStep(c) == 128 && Lower(c) == 7936;
    }
    hide Segment, Interval, Lower, HalfStep;
  }

  /** Encoding a decoded sample gives the code back, except that the negative zero becomes
      the positive one. */
  lemma Requantise(code: U8)
    ensures DecodeI16(code) % 4 == 0
    ensures EncodeI14(DecodeI16(code) / 4) == if code == 0x7F then 0xFF else code
  {
    hide EncodeI14, DecodeUlawG191, DecodeI16, Middle, Negative, Decides;
    var sample := DecodeI16(code);
    StepWidth(code);
    if Middle(code) == 33 {
      ZeroCodes(code);
    } else {
      MiddleInCell(code, sample / 4);
      DecisionUnique(sample / 4, code, EncodeI14(sample / 4));
    }
  }

  lemma MiddleInCell(code: U8, x: int)
    requires Middle(code) > 33 && x == if Negative(code) then 33 - Middle(code) else Middle(code) - 33
    ensures Decides(x, code) && code != 0x7F
  {
    Powers();
    hide Segment, Interval;
    assert Segment(0x7F) == 0 && Interval(0x7F) == 0 by { CodeFields(1, 0, 0, 0x7F); }
  }

  lemma ZeroCodes(code: U8)
    requires Middle(code) == 33
    ensures code == 0x7F || code == 0xFF
    ensures EncodeI14(0) == 0xFF
  {
    Powers();
    hide EncodeI14;
    assert Decides(0, 0xFF);
    DecisionUnique(0, 0xFF, EncodeI14(0));
    CodeOfFields(code);
  }
}
