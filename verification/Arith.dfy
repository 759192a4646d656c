/** The few facts of non-linear arithmetic the models need, each proved once. */
module Arith {

  lemma MulAtLeast(x: nat, y: nat)
    requires y > 0
    ensures x <= x * y
  {
    assert x * y == x + x * (y - 1);
    assert x * (y - 1) >= 0;
  }

  lemma MulLess(a: nat, b: nat, c: nat)
    requires a < b && c > 0
    ensures a * c < b * c
  {
    assert (b - a) * c >= c by {
      MulAtLeast(c, b - a);
      assert (b - a) * c == c * (b - a);
    }
    assert b * c == a * c + (b - a) * c;
  }

  function Quotient(v: nat, d: nat): (q: nat)
    requires d > 0
  {
    v / d
  }

  function Remainder(v: nat, d: nat): (r: nat)
    requires d > 0
    ensures r < d
  {
    v % d
  }

  lemma QuotientRemainder(v: nat, d: nat)
    requires d > 0
    ensures v == Quotient(v, d) * d + Remainder(v, d)
  {
  }

  lemma DivMod(a: nat, b: nat, c: nat)
    requires c < b
    ensures Quotient(a * b + c, b) == a && Remainder(a * b + c, b) == c
  {
    var q, r := Quotient(a * b + c, b), Remainder(a * b + c, b);
    QuotientRemainder(a * b + c, b);
    if q > a {
      MulAtLeast(b, q - a);
    } else if q < a {
      MulAtLeast(b, a - q);
    }
  }
}
