/** Gray codes of arbitrary width, as used by the pointers that cross clock domains.

    A word is a sequence of bits with the least significant bit first. `Encode` and
    `Decode` are the combinational encoder and decoder instantiated in the FIFO; the
    lemmas state why a Gray coded counter may be sampled while it is changing. */
module GrayCode {
  import opened Numbers

  type Bits = seq<bool>

  function Pow2(n: nat): (p: nat)
    ensures p > 0
  {
    if n == 0 then 1 else 2 * Pow2(n - 1)
  }

  /** The `width` low bits of `n`. */
  function ToBits(n: nat, width: nat): (b: Bits)
    ensures |b| == width
    decreases width
  {
    if width == 0 then [] else [n % 2 == 1] + ToBits(n / 2, width - 1)
  }

  function Value(b: Bits): nat {
    if b == [] then 0 else Count(b[0]) + 2 * Value(b[1..])
  }

  /** Each code bit is a binary bit exclusive-or its more significant neighbour. */
  function Encode(b: Bits): (g: Bits)
    ensures |g| == |b|
  {
    seq(|b|, i requires 0 <= i < |b| => b[i] != (i + 1 < |b| && b[i + 1]))
  }

  /** Each binary bit is the parity of all code bits at or above its position. */
  function Decode(g: Bits): (b: Bits)
    ensures |b| == |g|
  {
    if g == [] then [] else
      var upper := Decode(g[1..]);
      [g[0] != (upper != [] && upper[0])] + upper
  }

  /** The Gray code of an unbounded counter, truncated to `width` bits. */
  function Gray(width: nat, n: nat): (g: Bits)
    ensures |g| == width
  {
    Encode(ToBits(n, width))
  }

  /** Number of positions where two words differ. */
  function Distance(a: Bits, b: Bits): nat
    requires |a| == |b|
  {
    if a == [] then 0 else Count(a[0] != b[0]) + Distance(a[1..], b[1..])
  }

  /** What a register samples while its input changes from `before` to `after`:
      every bit is caught either before or after the change. */
  function Mix(mask: Bits, before: Bits, after: Bits): (m: Bits)
    requires |before| == |after|
    ensures |m| == |before|
  {
    seq(|before|, i requires 0 <= i < |before| => if i < |mask| && mask[i] then after[i] else before[i])
  }

  /** The full test on two codes: both top bits differ, all other bits agree. */
  predicate FullTest(p: Bits, c: Bits)
    requires |p| == |c| >= 2
  {
    var w := |p|;
    p[w - 1] != c[w - 1] && p[w - 2] != c[w - 2] && p[..w - 2] == c[..w - 2]
  }

  // ----- Binary words -----

  lemma ModPow2Step(n: nat, m: nat)
    requires m > 0
    ensures n % (2 * m) == n % 2 + 2 * ((n / 2) % m)
  {
    var h := n / 2;
    var q, r := h / m, h % m;
    assert h == m * q + r;
    assert n == (2 * m) * q + (n % 2 + 2 * r);
    ModUnique(n % 2 + 2 * r, q, 2 * m);
  }

  /** Division is unique: a remainder in range is the remainder. */
  lemma ModUnique(r: int, q: int, m: int)
    requires 0 <= r < m
    ensures (m * q + r) % m == r
  {
    var n := m * q + r;
    var d := n / m - q;
    assert m * (n / m) + n % m == n;
    assert m * d == r - n % m;
    assert d >= 1 ==> m * d >= m;
    assert d <= -1 ==> m * d <= -m;
  }

  lemma {:induction false} ValueOfBits(n: nat, width: nat)
    ensures Value(ToBits(n, width)) == n % Pow2(width)
    decreases width
  {
    if width > 0 {
      ValueOfBits(n / 2, width - 1);
      ModPow2Step(n, Pow2(width - 1));
      assert ToBits(n, width)[1..] == ToBits(n / 2, width - 1);
    }
  }

  lemma {:induction false} BitsOfMod(n: nat, width: nat)
    ensures ToBits(n % Pow2(width), width) == ToBits(n, width)
    decreases width
  {
    if width > 0 {
      var m := Pow2(width - 1);
      assert Pow2(width) == 2 * m;
      BitsOfMod(n / 2, width - 1);
      HalfOfMod(n, m);
      hide Pow2;
      assert ToBits(n % (2 * m), width) == [n % (2 * m) % 2 == 1] + ToBits(n % (2 * m) / 2, width - 1);
    }
  }

  lemma HalfOfMod(n: nat, m: nat)
    requires m > 0
    ensures 0 <= n % (2 * m) && n % (2 * m) % 2 == n % 2 && n % (2 * m) / 2 == n / 2 % m
  {
    ModPow2Step(n, m);
  }

  // ----- Encoding and decoding -----

  lemma EncodeTail(b: Bits)
    requires b != []
    ensures Encode(b)[1..] == Encode(b[1..])
  {
  }

  lemma {:induction false} DecodeEncode(b: Bits)
    ensures Decode(Encode(b)) == b
  {
    if b != [] {
      EncodeTail(b);
      DecodeEncode(b[1..]);
      assert b == [b[0]] + b[1..];
    }
  }

  lemma {:induction false} EncodeDecode(g: Bits)
    ensures Encode(Decode(g)) == g
  {
    if g != [] {
      var b := Decode(g);
      EncodeTail(b);
      EncodeDecode(g[1..]);
      assert b[1..] == Decode(g[1..]);
      assert g == [g[0]] + g[1..];
    }
  }

  /** Decoding a counter's code recovers the counter modulo the width. */
  lemma DecodeGray(width: nat, n: nat)
    ensures Value(Decode(Gray(width, n))) == n % Pow2(width)
  {
    DecodeEncode(ToBits(n, width));
    ValueOfBits(n, width);
  }

  /** The empty test: two codes agree exactly when the counters agree modulo the width. */
  lemma EmptyTestExact(width: nat, p: nat, c: nat)
    ensures Gray(width, p) == Gray(width, c) <==> p % Pow2(width) == c % Pow2(width)
  {
    DecodeGray(width, p);
    DecodeGray(width, c);
    BitsOfMod(p, width);
    BitsOfMod(c, width);
  }

  /** Successive codes differ in exactly one bit, the wrap to zero included. */
  lemma {:induction false} SuccessorOneBit(width: nat, n: nat)
    requires width > 0
    ensures Distance(Gray(width, n), Gray(width, n + 1)) == 1
    decreases width
  {
    var a, b := ToBits(n, width), ToBits(n + 1, width);
    EncodeTail(a);
    EncodeTail(b);
    assert a[1..] == ToBits(n / 2, width - 1) && a[0] == (n % 2 == 1);
    assert b[1..] == ToBits((n + 1) / 2, width - 1) && b[0] == ((n + 1) % 2 == 1);
    if n % 2 == 0 {
      assert (n + 1) / 2 == n / 2;
      hide ToBits;
      DistanceSelf(Encode(a[1..]));
    } else {
      assert (n + 1) / 2 == n / 2 + 1;
      if width > 1 {
        assert a[1] == (n / 2 % 2 == 1) && b[1] == ((n / 2 + 1) % 2 == 1);
        hide ToBits;
        SuccessorOneBit(width - 1, n / 2);
      }
    }
  }

  lemma {:induction false} DistanceSelf(a: Bits)
    ensures Distance(a, a) == 0
  {
    if a != [] { DistanceSelf(a[1..]); }
  }

  lemma {:induction false} DistanceZero(a: Bits, b: Bits)
    requires |a| == |b| && Distance(a, b) == 0
    ensures a == b
  {
    if a != [] {
      DistanceZero(a[1..], b[1..]);
      assert a == [a[0]] + a[1..] && b == [b[0]] + b[1..];
    }
  }

  lemma {:induction false} MixOfEqual(mask: Bits, a: Bits)
    ensures Mix(mask, a, a) == a
  {
  }

  /** When one bit changes, any bitwise mix of the two words is one of them. */
  lemma {:induction false} MixOfNeighbours(mask: Bits, a: Bits, b: Bits)
    requires |a| == |b| && Distance(a, b) <= 1
    ensures Mix(mask, a, b) == a || Mix(mask, a, b) == b
  {
    if a != [] {
      var m := Mix(mask, a, b);
      var rest := if mask == [] then [] else mask[1..];
      assert m[1..] == Mix(rest, a[1..], b[1..]);
      assert m == [m[0]] + m[1..] && a == [a[0]] + a[1..] && b == [b[0]] + b[1..];
      if a[0] != b[0] {
        DistanceZero(a[1..], b[1..]);
        MixOfEqual(rest, a[1..]);
      } else {
        MixOfNeighbours(rest, a[1..], b[1..]);
      }
    }
  }

  /** A counter sampled during one increment is seen as its old or its new value. */
  lemma SampledCounter(width: nat, n: nat, mask: Bits)
    ensures var m := Mix(mask, Gray(width, n), Gray(width, n + 1));
            m == Gray(width, n) || m == Gray(width, n + 1)
  {
    if width > 0 {
      SuccessorOneBit(width, n);
    }
    MixOfNeighbours(mask, Gray(width, n), Gray(width, n + 1));
  }

  // ----- The full test -----

  lemma ConsEqual(a: bool, s: Bits, b: bool, t: Bits)
    ensures [a] + s == [b] + t <==> a == b && s == t
  {
    if [a] + s == [b] + t {
      assert a == ([a] + s)[0] && s == ([a] + s)[1..];
      assert b == ([b] + t)[0] && t == ([b] + t)[1..];
    }
  }

  /** On codes the full test means: the binary words differ in the top bit only. */
  lemma {:induction false} FullTestBinary(p: Bits, c: Bits)
    requires |p| == |c| >= 2
    ensures FullTest(Encode(p), Encode(c)) <==> p[|p| - 1] != c[|c| - 1] && p[..|p| - 1] == c[..|c| - 1]
  {
    var w := |p|;
    var gp, gc := Encode(p), Encode(c);
    if w == 2 {
      assert p[..1] == [p[0]] && c[..1] == [c[0]];
    } else {
      EncodeTail(p);
      EncodeTail(c);
      FullTestBinary(p[1..], c[1..]);
      assert gp[..w - 2] == [gp[0]] + gp[1..][..w - 3];
      assert gc[..w - 2] == [gc[0]] + gc[1..][..w - 3];
      assert p[..w - 1] == [p[0]] + p[1..][..w - 2];
      assert c[..w - 1] == [c[0]] + c[1..][..w - 2];
      assert p[1..][..w - 2][0] == p[1] && c[1..][..w - 2][0] == c[1];
      ConsEqual(gp[0], gp[1..][..w - 3], gc[0], gc[1..][..w - 3]);
      ConsEqual(p[0], p[1..][..w - 2], c[0], c[1..][..w - 2]);
    }
  }

  lemma {:induction false} ValueSplitTop(b: Bits)
    requires b != []
    ensures Value(b) == Value(b[..|b| - 1]) + Pow2(|b| - 1) * Count(b[|b| - 1])
  {
    if |b| > 1 {
      ValueSplitTop(b[1..]);
      assert b[..|b| - 1] == [b[0]] + b[1..][..|b| - 2];
      assert Pow2(|b| - 1) == 2 * Pow2(|b| - 2);
    }
  }

  lemma {:induction false} ValueInjective(a: Bits, b: Bits)
    requires |a| == |b| && Value(a) == Value(b)
    ensures a == b
  {
    if a != [] {
      assert Value(a) == Count(a[0]) + 2 * Value(a[1..]) && Value(b) == Count(b[0]) + 2 * Value(b[1..]);
      Parity(Count(a[0]), Value(a[1..]), Count(b[0]), Value(b[1..]));
      hide Value;
      ValueInjective(a[1..], b[1..]);
      assert a == [a[0]] + a[1..] && b == [b[0]] + b[1..];
    }
  }

  lemma Parity(a: nat, x: nat, b: nat, y: nat)
    requires a < 2 && b < 2 && a + 2 * x == b + 2 * y
    ensures a == b && x == y
  {
  }

  lemma {:induction false} ValueBound(b: Bits)
    ensures Value(b) < Pow2(|b|)
  {
    if b != [] { ValueBound(b[1..]); }
  }

  lemma HalfTurn(lp: nat, tp: bool, lc: nat, tc: bool, d: nat)
    requires lp < d && lc < d
    ensures ((lp + d * Count(tp)) - (lc + d * Count(tc))) % (2 * d) == d <==> tp != tc && lp == lc
  {
    var diff := (lp + d * Count(tp)) - (lc + d * Count(tc));
    var turn: int := if tp == tc then 0 else if tp then d else 0 - d;
    assert diff == lp - lc + turn;
    if diff >= 0 { ModUnique(diff, 0, 2 * d); } else { ModUnique(diff + 2 * d, -1, 2 * d); }
  }

  /** The full test holds exactly when the counters are half a turn apart. */
  lemma FullTestExact(width: nat, p: nat, c: nat)
    requires width >= 2
    ensures FullTest(Gray(width, p), Gray(width, c)) <==> (p - c) % Pow2(width) == Pow2(width - 1)
  {
    var bp, bc := ToBits(p, width), ToBits(c, width);
    var d := Pow2(width - 1);
    var lp, lc := bp[..width - 1], bc[..width - 1];
    assert Pow2(width) == 2 * d;
    FullTestBinary(bp, bc);
    hide FullTest, Encode, ToBits, Value, Pow2;
    ValueSplitTop(bp);
    ValueSplitTop(bc);
    ValueOfBits(p, width);
    ValueOfBits(c, width);
    ValueBound(lp);
    ValueBound(lc);
    ModOfDifference(p, c, 2 * d);
    HalfTurn(Value(lp), bp[width - 1], Value(lc), bc[width - 1], d);
    if Value(lp) == Value(lc) { ValueInjective(lp, lc); }
  }

  /** Subtracting truncated counters, truncated again, is subtraction modulo the width. */
  lemma ModOfDifference(p: nat, c: nat, m: nat)
    requires m > 0
    ensures (p % m - c % m) % m == (p - c) % m
  {
    var q := p / m - c / m;
    var r := (p % m - c % m) % m;
    var e := (p % m - c % m) / m;
    assert p - c == m * q + (p % m - c % m);
    assert p - c == m * (q + e) + r;
    ModUnique(r, q + e, m);
  }
}
