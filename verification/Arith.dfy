/** Division facts shared by the allocator and the block tree. */
module Arith {

  /** Division rounding up. */
  function DivCeil(a: nat, b: nat): (q: nat)
    requires b > 0
    ensures q * b >= a && (q > 0 ==> (q - 1) * b < a)
  {
    Euclid(a, b);
    a / b + (if a % b == 0 then 0 else 1)
  }

  lemma Euclid(a: int, b: int)
    requires b > 0
    ensures a == (a / b) * b + a % b && 0 <= a % b < b
  {
  }

  lemma MulAssoc(x: int, y: int, z: int)
    ensures x * (z * y) == (x * y) * z == (x * z) * y
  {
  }

  lemma MulLess(a: int, b: int, m: int)
    requires m > 0
    ensures a < b <==> a * m < b * m
    ensures a <= b <==> a * m <= b * m
  {
    if a < b { assert (b - a) * m > 0; }
    if b < a { assert (a - b) * m > 0; }
  }

  /** `q` is the only multiplier with `(q - 1) * b < a <= q * b`. */
  lemma DivCeilIs(a: nat, b: nat, q: nat)
    requires b > 0
    requires q * b >= a && (q > 0 ==> (q - 1) * b < a)
    ensures DivCeil(a, b) == q
  {
    var p := DivCeil(a, b);
    if p < q { MulLess(p, q - 1, b); }
    if q < p { MulLess(q, p - 1, b); }
  }

  /** `a / b` is the only quotient whose remainder is in range. */
  lemma DivIs(a: nat, b: nat, q: nat, r: nat)
    requires b > 0 && a == q * b + r && r < b
    ensures a / b == q && a % b == r
  {
    Euclid(a, b);
    var p := a / b;
    if p < q { MulLess(p + 1, q, b); }
    if q < p { MulLess(q + 1, p, b); }
  }

  predicate Multiple(a: int, m: nat) {
    m > 0 && a % m == 0
  }

  lemma MultipleIs(q: nat, m: nat)
    requires m > 0
    ensures Multiple(q * m, m)
  {
    DivIs(q * m, m, q, 0);
  }

  lemma MultipleSum(a: nat, b: nat, m: nat)
    requires Multiple(a, m) && Multiple(b, m)
    ensures Multiple(a + b, m)
    ensures a >= b ==> Multiple(a - b, m)
  {
    Euclid(a, m);
    Euclid(b, m);
    var p, q := a / m, b / m;
    assert a + b == (p + q) * m;
    MultipleIs(p + q, m);
    if a >= b {
      assert a - b == (p - q) * m;
      if p < q { MulLess(p, q, m); }
      MultipleIs(p - q, m);
    }
  }

  function Pow(b: nat, e: nat): nat {
    if e == 0 then 1 else b * Pow(b, e - 1)
  }

  lemma {:induction false} PowGrows(b: nat, e: nat)
    requires b >= 2
    ensures Pow(b, e) >= Pow(2, e) >= 1
    ensures Pow(b, e) > e
  {
    if e > 0 {
      PowGrows(b, e - 1);
      MulLess(2, b, Pow(b, e - 1));
    }
  }

  lemma {:induction false} PowMonotone(b: nat, e: nat, f: nat)
    requires b >= 1 && e <= f
    ensures 1 <= Pow(b, e) <= Pow(b, f)
    decreases f
  {
    if e < f {
      PowMonotone(b, e, f - 1);
      MulLess(1, b, Pow(b, f - 1));
    } else if f > 0 {
      PowMonotone(b, f - 1, f - 1);
      MulLess(1, b, Pow(b, f - 1));
    }
  }

  lemma Pow64()
    ensures Pow(2, 64) == 0x1_0000_0000_0000_0000
  {
    PowSum(2, 8, 8);
    PowSum(2, 16, 16);
    PowSum(2, 32, 32);
    assert Pow(2, 4) == 16;
    PowSum(2, 4, 4);
  }

  lemma {:induction false} PowSum(b: nat, e: nat, f: nat)
    ensures Pow(b, e + f) == Pow(b, e) * Pow(b, f)
  {
    if e > 0 {
      PowSum(b, e - 1, f);
      MulAssoc(b, Pow(b, f), Pow(b, e - 1));
    }
  }
}
