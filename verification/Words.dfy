/** Fixed-width machine words as integers: bitwise operators, shifts and leading zeros. */
module Words {

  import opened GrayCode

  type I16 = x: int | -32768 <= x < 32768
  type U16 = x: int | 0 <= x < 65536
  type U8 = x: int | 0 <= x < 256

  function Xor(a: nat, b: nat): nat {
    if a == 0 && b == 0 then 0 else (if a % 2 != b % 2 then 1 else 0) + 2 * Xor(a / 2, b / 2)
  }

  function Or(a: nat, b: nat): nat {
    if a == 0 && b == 0 then 0 else (if a % 2 == 1 || b % 2 == 1 then 1 else 0) + 2 * Or(a / 2, b / 2)
  }

  function And(a: nat, b: nat): nat {
    if a == 0 || b == 0 then 0 else (if a % 2 == 1 && b % 2 == 1 then 1 else 0) + 2 * And(a / 2, b / 2)
  }

  function Shr(a: nat, n: nat): nat {
    QuotientIsNat(a, Pow2(n));
    a / Pow2(n)
  }

  lemma QuotientIsNat(a: nat, p: nat)
    requires p > 0
    ensures a / p >= 0
  {
    assert a == p * (a / p) + a % p;
    Product(p, -(a / p));
  }

  function Shl16(a: nat, n: nat): U16 { a * Pow2(n) % 65536 }

  function AsU16(x: I16): U16 { if x < 0 then x + 65536 else x }

  function BitLength(a: nat): nat { if a == 0 then 0 else 1 + BitLength(a / 2) }

  function LeadingZeros(a: U16): int { 16 - BitLength(a) }

  lemma {:induction false} XorZero(a: nat)
    ensures Xor(a, 0) == a
  {
    if a > 0 { XorZero(a / 2); }
  }

  lemma {:induction false} XorOnes(a: nat, n: nat)
    requires a < Pow2(n)
    ensures Xor(a, Pow2(n) - 1) == Pow2(n) - 1 - a
  {
    if n > 0 { XorOnes(a / 2, n - 1); }
  }

  lemma {:induction false} AndOnes(a: nat, n: nat)
    ensures And(a, Pow2(n) - 1) == a % Pow2(n)
  {
    if n > 0 {
      var p := Pow2(n - 1);
      assert Pow2(n) == 2 * p;
      AndOnes(a / 2, n - 1);
      AndStep(a, p);
      hide And, Pow2;
      ModPow2Step(a, p);
    }
  }

  lemma AndStep(a: nat, p: nat)
    requires p > 0
    ensures And(a, 2 * p - 1) == a % 2 + 2 * And(a / 2, p - 1)
  {
    assert (2 * p - 1) / 2 == p - 1 && (2 * p - 1) % 2 == 1;
  }

  lemma {:induction false} OrDisjoint(k: nat, q: nat, n: nat)
    requires q < Pow2(n)
    ensures Or(k * Pow2(n), q) == k * Pow2(n) + q
  {
    if n == 0 {
      OrZero(k);
    } else {
      assert k * Pow2(n) == 2 * (k * Pow2(n - 1));
      OrDisjoint(k, q / 2, n - 1);
    }
  }

  /** The same with the power written out. */
  lemma OrAbove(k: nat, q: nat, n: nat, p: nat)
    requires p == Pow2(n) && q < p
    ensures Or(k * p, q) == k * p + q
  {
    OrDisjoint(k, q, n);
  }

  lemma {:induction false} OrZero(a: nat)
    ensures Or(a, 0) == a
  {
    if a > 0 { OrZero(a / 2); }
  }

  lemma {:induction false} BitLengthBounds(a: nat)
    requires a > 0
    ensures BitLength(a) >= 1 && Pow2(BitLength(a) - 1) <= a < Pow2(BitLength(a))
  {
    if a > 1 { BitLengthBounds(a / 2); }
  }

  lemma Powers()
    ensures Pow2(0) == 1 && Pow2(1) == 2 && Pow2(2) == 4 && Pow2(3) == 8 && Pow2(4) == 16 && Pow2(5) == 32
    ensures Pow2(6) == 64 && Pow2(7) == 128 && Pow2(8) == 256 && Pow2(9) == 512 && Pow2(10) == 1024
    ensures Pow2(11) == 2048 && Pow2(12) == 4096 && Pow2(13) == 8192 && Pow2(14) == 16384 && Pow2(15) == 32768
    ensures Pow2(16) == 65536
  {
    assert Pow2(4) == 16;
    assert Pow2(8) == 256;
    assert Pow2(12) == 4096;
  }

  lemma PowMonotone(d: nat, e: nat)
    requires d < e
    ensures 2 * Pow2(d) <= Pow2(e)
  {
    if d + 1 < e { PowMonotone(d, e - 1); }
  }

  lemma PowNotBelow(d: nat, e: nat)
    requires d <= e
    ensures Pow2(d) <= Pow2(e)
  {
    if d < e { PowMonotone(d, e); }
  }

  lemma TimesMonotone(h: nat, a: nat, b: nat)
    requires a <= b
    ensures h * a <= h * b
  {
  }

  lemma Distribute(h: int, a: int, b: int)
    ensures h * (a + b) == h * a + h * b
  {
  }

  lemma Product(h: int, d: int)
    requires h > 0
    ensures d <= 0 ==> h * d <= 0
    ensures d >= 1 ==> h * d >= h
  {
  }

  lemma QuotientUnique(a: nat, p: nat, k: nat)
    requires p > 0 && p * k <= a < p * k + p
    ensures a / p == k
  {
    var d := a / p - k;
    assert a == p * (a / p) + a % p;
    Distribute(p, k, d);
    Product(p, d);
    Product(p, -d);
    Distribute(p, d, -d);
  }
}
