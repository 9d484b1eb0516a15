/** Shifts and bitwise operations on natural numbers, with the laws the pixel codec needs. */
module Bits {
  import opened Common

  function Pow2(n: nat): (p: nat)
    ensures p > 0
  {
    if n == 0 then 1 else 2 * Pow2(n - 1)
  }

  function Shl(a: nat, s: nat): nat {
    a * Pow2(s)
  }

  function Shr(a: nat, s: nat): nat {
    QuotientAtMost(a, Pow2(s));
    a / Pow2(s)
  }

  function Or(a: nat, b: nat): nat {
    if a == 0 && b == 0 then 0
    else 2 * Or(a / 2, b / 2) + if a % 2 == 1 || b % 2 == 1 then 1 else 0
  }

  function And(a: nat, b: nat): nat {
    if a == 0 || b == 0 then 0
    else 2 * And(a / 2, b / 2) + if a % 2 == 1 && b % 2 == 1 then 1 else 0
  }

  lemma {:induction false} OrBelow(a: nat, b: nat, n: nat)
    requires a < Pow2(n) && b < Pow2(n)
    ensures Or(a, b) < Pow2(n)
  {
    if a != 0 || b != 0 {
      assert n > 0;
      OrBelow(a / 2, b / 2, n - 1);
    }
  }

  lemma {:induction false} OrAtLeast(a: nat, b: nat)
    ensures a <= Or(a, b) && b <= Or(a, b)
  {
    if a != 0 || b != 0 {
      OrAtLeast(a / 2, b / 2);
    }
  }

  lemma {:induction false} OrZero(a: nat)
    ensures Or(a, 0) == a && Or(0, a) == a
  {
    if a != 0 {
      OrZero(a / 2);
    }
  }

  lemma {:induction false} AndCommutes(a: nat, b: nat)
    ensures And(a, b) == And(b, a)
  {
    if a != 0 && b != 0 {
      AndCommutes(a / 2, b / 2);
    }
  }

  lemma {:induction false} AndDistributes(a: nat, b: nat, m: nat)
    ensures And(Or(a, b), m) == Or(And(a, m), And(b, m))
  {
    OrAtLeast(a, b);
    if m != 0 && (a != 0 || b != 0) {
      AndDistributes(a / 2, b / 2, m / 2);
      AndHalves(a, m);
      AndHalves(b, m);
      AndHalves(Or(a, b), m);
      assert Or(a, b) / 2 == Or(a / 2, b / 2);
      OrHalves(And(a, m), And(b, m));
    }
  }

  lemma AndHalves(a: nat, b: nat)
    ensures And(a, b) / 2 == And(a / 2, b / 2)
    ensures And(a, b) % 2 == 1 <==> a % 2 == 1 && b % 2 == 1
  {
  }

  lemma OrHalves(a: nat, b: nat)
    ensures Or(a, b) / 2 == Or(a / 2, b / 2)
    ensures Or(a, b) % 2 == 1 <==> a % 2 == 1 || b % 2 == 1
  {
  }

  /** Bits inside `mask` do not meet what `mask` does not meet. */
  lemma {:induction false} InsideStaysDisjoint(a: nat, mask: nat, m: nat)
    requires And(a, mask) == a && And(mask, m) == 0
    ensures And(a, m) == 0
  {
    if a != 0 && m != 0 {
      AndHalves(a, mask);
      AndHalves(mask, m);
      InsideStaysDisjoint(a / 2, mask / 2, m / 2);
    }
  }

  lemma {:induction false} AndLowMask(v: nat, n: nat)
    requires v < Pow2(n)
    ensures And(v, Pow2(n) - 1) == v
  {
    if v != 0 {
      AndLowMask(v / 2, n - 1);
      assert (Pow2(n) - 1) / 2 == Pow2(n - 1) - 1 && (Pow2(n) - 1) % 2 == 1;
    }
  }

  lemma ShiftByNone(a: nat)
    ensures Shl(a, 0) == a && Shr(a, 0) == a
  {
  }

  lemma {:induction false} ShlStep(a: nat, s: nat)
    requires s > 0
    ensures Shl(a, s) == 2 * Shl(a, s - 1)
  {
  }

  lemma AndDouble(a: nat, b: nat)
    ensures And(2 * a, 2 * b) == 2 * And(a, b)
  {
    hide And;
    assert 2 * a / 2 == a && 2 * b / 2 == b;
    AndHalves(2 * a, 2 * b);
  }

  lemma {:induction false} AndOfShifted(a: nat, b: nat, s: nat)
    ensures And(Shl(a, s), Shl(b, s)) == Shl(And(a, b), s)
  {
    if s > 0 {
      hide And, Shl, Pow2;
      AndOfShifted(a, b, s - 1);
      ShlStep(a, s);
      ShlStep(b, s);
      ShlStep(And(a, b), s);
      AndDouble(Shl(a, s - 1), Shl(b, s - 1));
    }
  }

  lemma {:induction false} ShrStep(x: nat, s: nat)
    requires s > 0
    ensures Shr(x, s) == Shr(x / 2, s - 1)
  {
    DivDiv(x, 2, Pow2(s - 1));
  }

  lemma DivDiv(x: nat, a: nat, b: nat)
    requires 0 < a && 0 < b
    ensures 0 < a * b && x / (a * b) == x / a / b
  {
    var q, r := x / a, x % a;
    var u, v := q / b, q % b;
    Regroup(u, b, v, a);
    TwoDigitsBelow(v, b, r, a);
    DivisionIsUnique(x, a * b, u, v * a + r);
  }

  lemma Regroup(u: nat, b: nat, v: nat, a: nat)
    ensures (u * b + v) * a == u * (a * b) + v * a
  {
    assert u * b * a == u * (a * b);
  }

  lemma TwoDigitsBelow(v: nat, b: nat, r: nat, a: nat)
    requires v < b && r < a
    ensures 0 <= v * a + r < a * b
  {
    var k := b - 1 - v;
    assert a * (v + 1 + k) == v * a + a + k * a;
    assert k * a >= 0;
  }

  lemma DivisionIsUnique(x: int, m: int, q: int, r: int)
    requires 0 < m && 0 <= r < m && x == q * m + r
    ensures x / m == q && x % m == r
  {
    var k := q - x / m;
    assert k * m == x % m - r;
    assert k >= 1 ==> k * m >= m;
    assert k <= -1 ==> k * m <= -m;
  }

  /** Masking after shifting down is shifting down after masking. */
  lemma {:induction false} MaskThenShift(x: nat, m: nat, s: nat)
    ensures Shl(And(Shr(x, s), m), s) == And(x, Shl(m, s))
  {
    hide And, Shl, Shr, Pow2;
    if s == 0 {
      ShiftByNone(x);
      ShiftByNone(m);
      ShiftByNone(And(x, m));
    } else {
      MaskThenShift(x / 2, m, s - 1);
      ShrStep(x, s);
      ShlStep(m, s);
      ShlStep(And(Shr(x, s), m), s);
      AndHalves(x, Shl(m, s));
    }
  }

  lemma ShlInjective(a: nat, b: nat, s: nat)
    requires Shl(a, s) == Shl(b, s)
    ensures a == b
  {
    var p := Pow2(s);
    assert (a - b) * p == 0;
  }

  lemma ShlMonotone(a: nat, b: nat, s: nat)
    requires a <= b
    ensures Shl(a, s) <= Shl(b, s)
  {
  }

  /** A number shifted up and one that fits below it combine by addition. */
  lemma {:induction false} OrIsSum(a: nat, n: nat, b: nat)
    requires b < Pow2(n)
    ensures Or(Shl(a, n), b) == Shl(a, n) + b
  {
    if n == 0 {
      OrZero(a);
    } else {
      ShlStep(a, n);
      OrIsSum(a, n - 1, b / 2);
      OrHalves(Shl(a, n), b);
    }
  }

  /** A number shifted up and one that fits below it have no bit in common. */
  lemma {:induction false} AndIsZero(a: nat, n: nat, b: nat)
    requires b < Pow2(n)
    ensures And(Shl(a, n), b) == 0
  {
    if n > 0 {
      ShlStep(a, n);
      AndIsZero(a, n - 1, b / 2);
      AndHalves(Shl(a, n), b);
    }
  }
}
