/**
  Polynomials over the two-element field as bit sequences, coefficient of the highest power
  first: their product with the generator of section 3.2.9 of IEEE 802.3-2018, and what is
  left when a polynomial is divided by it.
*/
module Polynomial {
  type Bits = seq<bool>

  /** The powers of the generator with coefficient 1. */
  const POWERS: set<nat> := {32, 26, 23, 22, 16, 12, 11, 10, 8, 7, 5, 4, 2, 1, 0}

  function Generator(): (g: Bits)
    ensures |g| == 33 && g[0]
  {
    seq(33, i requires 0 <= i < 33 => 32 - i in POWERS)
  }

  function ZeroBits(n: nat): (r: Bits)
    ensures |r| == n && forall i :: 0 <= i < n ==> !r[i]
  {
    seq(n, _ => false)
  }

  function OneBits(n: nat): (r: Bits)
    ensures |r| == n && forall i :: 0 <= i < n ==> r[i]
  {
    seq(n, _ => true)
  }

  /** Sum, and difference: coefficients are added modulo 2. */
  function Add(a: Bits, b: Bits): (r: Bits)
    requires |a| == |b|
    ensures |r| == |a| && forall i :: 0 <= i < |a| ==> r[i] == (a[i] != b[i])
  {
    seq(|a|, i requires 0 <= i < |a| => a[i] != b[i])
  }

  function Complement(a: Bits): (r: Bits)
    ensures |r| == |a| && forall i :: 0 <= i < |a| ==> r[i] == !a[i]
  {
    Add(a, OneBits(|a|))
  }

  /** The generator times x^n, or zero. */
  function Copy(b: bool, n: nat): (r: Bits)
    ensures |r| == n + 33 && r[0] == b
  {
    if b then Generator() + ZeroBits(n) else ZeroBits(n + 33)
  }

  /** The generator times `q`: one shifted copy for each coefficient of `q`. */
  function Times(q: Bits): (r: Bits)
    ensures |r| == |q| + 32
    decreases |q|
  {
    if q == [] then ZeroBits(32)
    else Add(Copy(q[0], |q| - 1), [false] + Times(q[1..]))
  }

  /** Dividing `d` by the generator gives quotient `q` and remainder `r`. */
  predicate Divides(d: Bits, q: Bits, r: Bits) {
    |r| == 32 && |d| == |q| + 32 && d == Add(Times(q), ZeroBits(|q|) + r)
  }

  /** There is only one quotient and one remainder. */
  lemma {:induction false} DivisionUnique(d: Bits, q: Bits, r: Bits, q': Bits, r': Bits)
    requires Divides(d, q, r) && Divides(d, q', r')
    ensures q == q' && r == r'
    decreases |q|
  {
    hide Generator, Times, Cancel, Add, ZeroBits, Divides;
    DividedLengths(d, q, r);
    DividedLengths(d, q', r');
    if q == [] {
      NotDivided(d, r);
      NotDivided(d, r');
    } else {
      LeadingBit(d, q, r);
      LeadingBit(d, q', r');
      DivisionUnique(Cancel(d), q[1..], r, q'[1..], r');
      assert q == [q[0]] + q[1..] && q' == [q'[0]] + q'[1..];
    }
  }

  lemma DividedLengths(d: Bits, q: Bits, r: Bits)
    requires Divides(d, q, r)
    ensures |d| == |q| + 32
  {
  }

  lemma NotDivided(d: Bits, r: Bits)
    requires Divides(d, [], r)
    ensures d == r
  {
    TimesNothing();
    assert ZeroBits(0) + r == r;
  }

  lemma TimesNothing()
    ensures Times([]) == ZeroBits(32)
  {
  }

  /** One step of long division: the leading coefficient goes, with the generator under it. */
  function Cancel(d: Bits): (r: Bits)
    requires |d| > 32
    ensures |r| == |d| - 1
  {
    Add(d, Copy(d[0], |d| - 33))[1..]
  }

  lemma LeadingBit(d: Bits, q: Bits, r: Bits)
    requires Divides(d, q, r) && q != []
    ensures |d| > 32 && q[0] == d[0] && Divides(Cancel(d), q[1..], r)
  {
    hide Copy, Times, Add, ZeroBits;
    var n := |q| - 1;
    TimesFirst(q);
    LowerBits(n, r);
    AddTwice(d, Copy(q[0], n), Times(q[1..]), ZeroBits(n) + r);
  }

  lemma TimesFirst(q: Bits)
    requires q != []
    ensures Times(q) == Add(Copy(q[0], |q| - 1), [false] + Times(q[1..]))
  {
    hide Copy, Add;
  }

  lemma LowerBits(n: nat, r: Bits)
    ensures ZeroBits(n + 1) + r == [false] + (ZeroBits(n) + r)
  {
  }

  /** A summand with its leading coefficient taken away by adding it again. */
  lemma AddTwice(d: Bits, copy: Bits, rest: Bits, low: Bits)
    requires |copy| == |rest| + 1 == |low| + 1 && d == Add(Add(copy, [false] + rest), [false] + low)
    ensures d[0] == copy[0] && Add(d, copy)[1..] == Add(rest, low)
  {
    var a, b := Add(d, copy)[1..], Add(rest, low);
    forall i | 0 <= i < |rest|
      ensures a[i] == b[i]
    {
      assert d[i + 1] == ((copy[i + 1] != rest[i]) != low[i]);
    }
  }

  /** Long division: what is left of `d`. */
  function Remainder(d: Bits): (r: Bits)
    requires |d| >= 32
    ensures |r| == 32
    decreases |d|
  {
    if |d| == 32 then d else Remainder(Cancel(d))
  }

  function Quotient(d: Bits): (q: Bits)
    requires |d| >= 32
    ensures |q| == |d| - 32
    decreases |d|
  {
    if |d| == 32 then [] else [d[0]] + Quotient(Cancel(d))
  }

  /** The step undone: a division of what the step leaves is one of what it started from. */
  lemma PutBack(d: Bits, q: Bits, r: Bits)
    requires |d| > 32 && Divides(Cancel(d), q, r)
    ensures Divides(d, [d[0]] + q, r)
  {
    hide Copy, Times, Add, ZeroBits;
    var all := [d[0]] + q;
    assert all[1..] == q && all[0] == d[0];
    TimesFirst(all);
    LowerBits(|q|, r);
    AddBack(d, Copy(d[0], |q|), Times(q), ZeroBits(|q|) + r);
  }

  lemma AddBack(d: Bits, copy: Bits, rest: Bits, low: Bits)
    requires |d| == |copy| == |rest| + 1 == |low| + 1 && d[0] == copy[0] && Add(d, copy)[1..] == Add(rest, low)
    ensures d == Add(Add(copy, [false] + rest), [false] + low)
  {
    var b := Add(Add(copy, [false] + rest), [false] + low);
    forall i | 0 <= i < |d|
      ensures d[i] == b[i]
    {
      if i > 0 { assert Add(d, copy)[1..][i - 1] == Add(rest, low)[i - 1]; }
    }
  }

  /** Long division divides. */
  lemma {:induction false} LongDivision(d: Bits)
    requires |d| >= 32
    ensures Divides(d, Quotient(d), Remainder(d))
    decreases |d|
  {
    hide Generator, Times, Cancel;
    if |d| == 32 {
      TimesNothing();
      assert ZeroBits(0) + d == d;
    } else {
      LongDivision(Cancel(d));
      PutBack(d, Quotient(Cancel(d)), Remainder(Cancel(d)));
    }
  }
}
