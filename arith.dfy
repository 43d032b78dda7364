// Facts about Euclidean division used to locate a byte inside its flake and nugget.
module Arith {

  lemma MulAtLeast(x: int, d: int)
    requires x >= 1 && d > 0
    ensures x * d >= d
  {
    var k := x - 1;
    assert x * d == k * d + d;
    assert k * d >= 0;
  }

  /** Quotient and remainder are the unique pair that rebuilds p. */
  lemma DivModUnique(p: int, d: int, q: int, r: int)
    requires d > 0 && 0 <= r < d && p == q * d + r
    ensures p / d == q && p % d == r
  {
    var q' := p / d;
    var r' := p % d;
    assert p == q' * d + r';
    if q > q' {
      MulAtLeast(q - q', d);
      assert false;
    } else if q < q' {
      MulAtLeast(q' - q, d);
      assert false;
    }
  }

  /** A value in [q*d, q*d + d) has quotient q. */
  lemma DivInBlock(p: int, d: int, q: int)
    requires d > 0 && q * d <= p < q * d + d
    ensures p / d == q && p % d == p - q * d
  {
    DivModUnique(p, d, q, p - q * d);
  }

  /** The quotient of a value in [a*d, b*d) lies in [a, b). */
  lemma DivBetween(p: int, d: int, a: int, b: int)
    requires d > 0 && a * d <= p < b * d
    ensures a <= p / d < b
  {
    var q := p / d;
    assert p == q * d + p % d;
    if q < a {
      MulAtLeast(a - q, d);
      assert false;
    }
    if q >= b {
      if q > b {
        MulAtLeast(q - b, d);
      }
      assert false;
    }
  }

  /** The block that starts a quotient lies at or below the value. */
  lemma DivFloor(p: nat, d: nat)
    requires d > 0
    ensures (p / d) * d <= p < (p / d) * d + d
  {
  }

  lemma DivMono(a: nat, b: nat, d: nat)
    requires d > 0 && a <= b
    ensures a / d <= b / d
  {
    DivFloor(a, d);
    DivFloor(b, d);
    if a / d > b / d {
      MulAtLeast(a / d - b / d, d);
      assert false;
    }
  }

  lemma MulMono(a: nat, b: nat, c: nat)
    requires a <= b
    ensures a * c <= b * c
  {
    assert b * c == a * c + (b - a) * c;
  }

  lemma MulAssoc(a: int, b: int, c: int)
    ensures a * b * c == a * (b * c) && a * b * c == (a * c) * b
  {
  }

  /** The quotient of p by d, by repeated subtraction. The nugget and flake
      arithmetic of the model is stated with Quot and Rem, which QuotRem ties to
      the built-in operators, so that definitions stay linear. */
  function Quot(p: nat, d: nat): nat
    requires d > 0
    decreases p
  {
    if p < d then 0 else 1 + Quot(p - d, d)
  }

  /** The remainder of p by d, by repeated subtraction. */
  function Rem(p: nat, d: nat): (r: nat)
    requires d > 0
    ensures r < d
    decreases p
  {
    if p < d then p else Rem(p - d, d)
  }

  lemma {:induction false} QuotRem(p: nat, d: nat)
    requires d > 0
    ensures Quot(p, d) == p / d && Rem(p, d) == p % d
    ensures p == Quot(p, d) * d + Rem(p, d)
    decreases p
  {
    if p < d {
      DivInBlock(p, d, 0);
    } else {
      QuotRem(p - d, d);
      var q := Quot(p - d, d);
      assert (q + 1) * d == q * d + d;
      DivInBlock(p, d, q + 1);
    }
  }

  /** The product a * d, by repeated addition. */
  function Mul(a: nat, d: nat): nat
    decreases a
  {
    if a == 0 then 0 else Mul(a - 1, d) + d
  }

  lemma {:induction false} MulProduct(a: nat, d: nat)
    ensures Mul(a, d) == a * d
    decreases a
  {
    if a > 0 {
      MulProduct(a - 1, d);
      assert a * d == (a - 1) * d + d;
    }
  }

  lemma MulLe(a: nat, b: nat, d: nat)
    requires a <= b
    ensures Mul(a, d) <= Mul(b, d)
  {
    MulProduct(a, d);
    MulProduct(b, d);
    MulMono(a, b, d);
  }

  /** Mul distributes over addition in its first argument. */
  lemma {:induction false} MulAdd(a: nat, b: nat, d: nat)
    ensures Mul(a + b, d) == Mul(a, d) + Mul(b, d)
    decreases b
  {
    if b > 0 {
      MulAdd(a, b - 1, d);
    }
  }

  /** A value in [Mul(q, d), Mul(q, d) + d) has quotient q and remainder p - Mul(q, d). */
  lemma QuotInBlock(p: nat, d: nat, q: nat)
    requires d > 0 && Mul(q, d) <= p < Mul(q, d) + d
    ensures Quot(p, d) == q && Rem(p, d) == p - Mul(q, d)
  {
    MulProduct(q, d);
    QuotRem(p, d);
    DivInBlock(p, d, q);
  }

  /** The quotient of a value in [Mul(a, d), Mul(b, d)) lies in [a, b). */
  lemma QuotBetween(p: nat, d: nat, a: nat, b: nat)
    requires d > 0 && Mul(a, d) <= p < Mul(b, d)
    ensures a <= Quot(p, d) < b
  {
    MulProduct(a, d);
    MulProduct(b, d);
    QuotRem(p, d);
    DivBetween(p, d, a, b);
  }

  lemma QuotFloor(p: nat, d: nat)
    requires d > 0
    ensures Mul(Quot(p, d), d) <= p < Mul(Quot(p, d), d) + d
    ensures p == Mul(Quot(p, d), d) + Rem(p, d)
  {
    QuotRem(p, d);
    MulProduct(Quot(p, d), d);
  }

  lemma QuotMono(a: nat, b: nat, d: nat)
    requires d > 0 && a <= b
    ensures Quot(a, d) <= Quot(b, d)
  {
    QuotRem(a, d);
    QuotRem(b, d);
    DivMono(a, b, d);
  }
}
