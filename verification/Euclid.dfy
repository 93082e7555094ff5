/** Divisibility and greatest common divisors. */
module Euclid {
  import opened Arith

  predicate Divides(d: int, x: int)
    requires d > 0
  {
    x % d == 0
  }

  lemma DividesWitness(d: int, x: int) returns (k: int)
    requires d > 0 && Divides(d, x)
    ensures x == k * d
  {
    k := x / d;
  }

  lemma DividesFrom(d: int, x: int, k: int)
    requires d > 0 && x == k * d
    ensures Divides(d, x)
  {
    DivModUnique(x, d, k, 0);
  }

  /** Common divisors divide linear combinations. */
  lemma DividesCombination(d: int, x: int, y: int, q: int)
    requires d > 0 && Divides(d, x) && Divides(d, y)
    ensures Divides(d, x + q * y) && Divides(d, x - q * y)
  {
    hide Divides;
    var j := DividesWitness(d, x);
    var k := DividesWitness(d, y);
    Associate(q, k, d);
    assert (j + q * k) * d == j * d + q * k * d && (j - q * k) * d == j * d - q * k * d;
    DividesFrom(d, x + q * y, j + q * k);
    DividesFrom(d, x - q * y, j - q * k);
  }

  function Gcd(a: nat, b: nat): (g: nat)
    decreases b
  {
    if b == 0 then a else Gcd(b, a % b)
  }

  /** Replacing a by a % b keeps exactly the common divisors. */
  lemma DivisorsKept(a: nat, b: nat, d: int)
    requires b > 0 && d > 0
    ensures Divides(d, a) && Divides(d, b) <==> Divides(d, b) && Divides(d, a % b)
  {
    assert a == a % b + (a / b) * b;
    if Divides(d, b) {
      if Divides(d, a) { DividesCombination(d, a, b, a / b); }
      if Divides(d, a % b) { DividesCombination(d, a % b, b, a / b); }
    }
  }

  /** The greatest common divisor is a common divisor that every common divisor divides. */
  lemma {:induction false} GcdDivisors(a: nat, b: nat, d: int)
    requires d > 0 && (a > 0 || b > 0)
    ensures Gcd(a, b) > 0
    ensures Divides(d, Gcd(a, b)) <==> Divides(d, a) && Divides(d, b)
    decreases b
  {
    if b > 0 {
      GcdDivisors(b, a % b, d);
      DivisorsKept(a, b, d);
    } else {
      DivModUnique(0, d, 0, 0);
    }
  }

  lemma GcdIsDivisor(a: nat, b: nat)
    requires a > 0 || b > 0
    ensures Gcd(a, b) > 0 && Divides(Gcd(a, b), a) && Divides(Gcd(a, b), b)
  {
    GcdDivisors(a, b, 1);
    DivModUnique(Gcd(a, b), Gcd(a, b), 1, 0);
    GcdDivisors(a, b, Gcd(a, b));
  }

  /** A number with an inverse modulo m has no divisor in common with m. */
  lemma InverseMeansCoprime(a: nat, r: int, m: nat)
    requires m > 0 && Cong(a * r, 1, m)
    ensures Gcd(a, m) == 1
  {
    hide Gcd, Divides, Cong;
    GcdIsDivisor(a, m);
    var g := Gcd(a, m);
    var k := CongWitness(a * r, 1, m);
    var j := DividesWitness(g, a);
    var i := DividesWitness(g, m);
    Exchange(j, g, r);
    Associate(k, i, g);
    OneOnly(j * r, k * i, g);
  }

  lemma OneOnly(x: int, y: int, g: int)
    requires g > 0 && x * g == 1 + y * g
    ensures g == 1
  {
    var c := x - y;
    assert c * g == 1;
    if c <= 0 { Scale(c, 0, g); } else { Scale(1, c, g); }
  }

  lemma GcdSwap(a: nat, b: nat)
    requires a > 0 || b > 0
    ensures Gcd(a, b) == Gcd(b, a)
  {
    GcdIsDivisor(a, b);
    GcdIsDivisor(b, a);
    GcdDivisors(b, a, Gcd(a, b));
    GcdDivisors(a, b, Gcd(b, a));
    DividesBothWays(Gcd(a, b), Gcd(b, a));
  }

  lemma DividesBothWays(x: int, y: int)
    requires x > 0 && y > 0 && Divides(x, y) && Divides(y, x)
    ensures x == y
  {
    DividesBelow(x, y);
    DividesBelow(y, x);
  }

  lemma DividesBelow(d: int, x: int)
    requires d > 0 && x > 0 && Divides(d, x)
    ensures d <= x
  {
    var k := DividesWitness(d, x);
    if k <= 0 { Scale(k, 0, d); }
    Scale(1, if k <= 0 then 1 else k, d);
  }
}
