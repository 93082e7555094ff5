/** Integer facts used throughout: powers, division with remainder and congruence. */
module Arith {

  function Pow(b: int, e: nat): (p: int)
    ensures b > 0 ==> p > 0
  {
    if e == 0 then 1 else b * Pow(b, e - 1)
  }

  lemma {:induction false} PowAdd(b: int, x: nat, y: nat)
    ensures Pow(b, x + y) == Pow(b, x) * Pow(b, y)
  {
    if x > 0 {
      PowAdd(b, x - 1, y);
      Associate(b, Pow(b, x - 1), Pow(b, y));
    }
  }

  lemma Associate(a: int, b: int, c: int)
    ensures a * b * c == a * (b * c)
  {}

  lemma Exchange(a: int, b: int, c: int)
    ensures a * b * c == a * c * b && a * (b * c) == b * (a * c)
  {}

  lemma {:induction false} PowMultiply(b: int, x: nat, y: nat)
    ensures x * y >= 0
    ensures Pow(b, x * y) == Pow(Pow(b, x), y)
  {
    if y > 0 {
      PowMultiply(b, x, y - 1);
      assert x * y == x + x * (y - 1);
      PowAdd(b, x, x * (y - 1));
    }
  }

  lemma {:induction false} PowMonotone(b: int, x: nat, y: nat)
    requires b >= 1 && x <= y
    ensures Pow(b, x) <= Pow(b, y)
  {
    if x < y {
      PowMonotone(b, x, y - 1);
      Scale(1, b, Pow(b, y - 1));
    }
  }

  lemma Scale(a: int, b: int, c: int)
    requires a <= b && c >= 0
    ensures a * c <= b * c
  {}

  /** The quotient and remainder are unique. */
  lemma DivModUnique(x: int, d: int, q: int, r: int)
    requires d > 0 && 0 <= r < d && x == q * d + r
    ensures x / d == q && x % d == r
  {
    var q', r' := x / d, x % d;
    assert (q - q') * d == r' - r;
    if q > q' {
      Scale(1, q - q', d);
    } else if q < q' {
      assert (q' - q) * d == r - r';
      Scale(1, q' - q, d);
    }
  }

  lemma ModOf(x: int, k: int, m: int)
    requires m > 0
    ensures (x + k * m) % m == x % m
  {
    assert x + k * m == (x / m + k) * m + x % m;
    DivModUnique(x + k * m, m, x / m + k, x % m);
  }

  // ---- congruence ----

  predicate Cong(x: int, y: int, m: int)
    requires m > 0
  {
    x % m == y % m
  }

  lemma CongWitness(x: int, y: int, m: int) returns (k: int)
    requires m > 0 && Cong(x, y, m)
    ensures x == y + k * m
  {
    k := x / m - y / m;
    assert k * m == (x / m) * m - (y / m) * m;
  }

  lemma CongFrom(x: int, y: int, k: int, m: int)
    requires m > 0 && x == y + k * m
    ensures Cong(x, y, m)
  {
    ModOf(y, k, m);
  }

  lemma CongMod(x: int, m: int)
    requires m > 0
    ensures Cong(x % m, x, m) && Cong(x, x % m, m)
  {
    assert x == x % m + (x / m) * m;
    CongFrom(x, x % m, x / m, m);
  }

  lemma CongMul(x: int, x': int, y: int, y': int, m: int)
    requires m > 0 && Cong(x, x', m) && Cong(y, y', m)
    ensures Cong(x * y, x' * y', m)
  {
    var j := CongWitness(x, x', m);
    var k := CongWitness(y, y', m);
    MulExpand(x', j * m, y', k * m);
    assert x * y == x' * y' + (x' * k + j * y' + j * m * k) * m;
    CongFrom(x * y, x' * y', x' * k + j * y' + j * m * k, m);
  }

  lemma MulExpand(a: int, b: int, c: int, d: int)
    ensures (a + b) * (c + d) == a * c + a * d + b * c + b * d
  {}

  lemma CongAdd(x: int, x': int, y: int, y': int, m: int)
    requires m > 0 && Cong(x, x', m) && Cong(y, y', m)
    ensures Cong(x + y, x' + y', m) && Cong(x - y, x' - y', m)
  {
    var j := CongWitness(x, x', m);
    var k := CongWitness(y, y', m);
    assert (j + k) * m == j * m + k * m && (j - k) * m == j * m - k * m;
    CongFrom(x + y, x' + y', j + k, m);
    CongFrom(x - y, x' - y', j - k, m);
  }

  lemma CongBack(x: int, y: int, m: int)
    requires m > 0 && Cong(x, y, m)
    ensures Cong(y, x, m)
  {}

  lemma CongTrans(x: int, y: int, z: int, m: int)
    requires m > 0 && Cong(x, y, m) && Cong(y, z, m)
    ensures Cong(x, z, m)
  {}

  lemma {:induction false} CongPow(x: int, y: int, e: nat, m: int)
    requires m > 0 && Cong(x, y, m)
    ensures Cong(Pow(x, e), Pow(y, e), m)
  {
    if e > 0 {
      CongPow(x, y, e - 1, m);
      CongMul(x, y, Pow(x, e - 1), Pow(y, e - 1), m);
    }
  }

  lemma CongSmall(x: int, y: int, m: int)
    requires m > 0 && 0 <= x < m && Cong(x, y, m)
    ensures x == y % m
  {
    DivModUnique(x, m, 0, x);
  }

  /** A factor invertible modulo m cancels. */
  lemma CongCancel(x: int, y: int, c: int, c': int, m: int)
    requires m > 0 && Cong(c * c', 1, m) && Cong(x * c, y * c, m)
    ensures Cong(x, y, m)
  {
    CongMul(x * c, y * c, c', c', m);
    CongMul(x, x, c * c', 1, m);
    CongMul(y, y, c * c', 1, m);
    Associate(x, c, c');
    Associate(y, c, c');
  }
}
