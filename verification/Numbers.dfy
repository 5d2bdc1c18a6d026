/** Small functions on numbers shared by all parts. */
module Numbers {

  function Min(a: nat, b: nat): (m: nat)
    ensures m <= a && m <= b && (m == a || m == b)
  {
    if a < b then a else b
  }

  function Count(b: bool): nat { if b then 1 else 0 }
}
