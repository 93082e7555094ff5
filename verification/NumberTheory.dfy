/** Primes: inverses, Fermat's theorem, square roots of one and the quadratic character of two. */
module NumberTheory {
  import opened Arith
  import opened Euclid

  predicate Prime(p: int) {
    p > 1 && forall d :: 1 < d < p ==> !Divides(d, p)
  }

  lemma {:induction false} Bezout(a: nat, b: nat) returns (u: int, v: int)
    ensures u * a + v * b == Gcd(a, b)
    decreases b
  {
    if b == 0 {
      u, v := 1, 0;
    } else {
      var u', v' := Bezout(b, a % b);
      u, v := v', u' - (a / b) * v';
      BezoutStep(a, b, a / b, a % b, u', v');
    }
  }

  lemma BezoutStep(a: int, b: int, q: int, r: int, u: int, v: int)
    requires a == b * q + r
    ensures v * a + (u - q * v) * b == u * b + v * r
  {
    assert v * (b * q + r) == v * (b * q) + v * r;
    assert v * (b * q) == q * v * b;
    assert (u - q * v) * b == u * b - q * v * b;
  }

  /** Modulo a prime everything but zero has an inverse. */
  lemma PrimeInverse(x: int, p: int) returns (r: int)
    requires Prime(p) && x % p != 0
    ensures Cong(x * r, 1, p)
  {
    var y := x % p;
    GcdIsDivisor(y, p);
    var g := Gcd(y, p);
    DividesBelow(g, y);
    assert g == 1;
    var u, v := Bezout(y, p);
    r := u;
    CongFrom(u * y, 1, -v, p);
    CongMod(x, p);
    CongMul(x, y, u, u, p);
  }

  lemma PrimeCancel(x: int, y: int, c: int, p: int)
    requires Prime(p) && c % p != 0 && Cong(x * c, y * c, p)
    ensures Cong(x, y, p)
  {
    var r := PrimeInverse(c, p);
    CongCancel(x, y, c, r, p);
  }

  /** A prime divides a product only if it divides a factor. */
  lemma PrimeProduct(x: int, y: int, p: int)
    requires Prime(p) && x % p != 0 && y % p != 0
    ensures (x * y) % p != 0
  {
    if (x * y) % p == 0 {
      CongFrom(0 * y, 0, 0, p);
      CongFrom(0, 0, 0, p);
      PrimeCancel(x, 0, y, p);
    }
  }

  lemma RootsOfOne(x: int, p: int)
    requires Prime(p) && Cong(x * x, 1, p)
    ensures Cong(x, 1, p) || Cong(x, -1, p)
  {
    var k := CongWitness(x * x, 1, p);
    assert (x - 1) * (x + 1) == k * p;
    DivModUnique((x - 1) * (x + 1), p, k, 0);
    if (x - 1) % p == 0 {
      CongFrom(x, 1, (x - 1) / p, p);
    } else if (x + 1) % p == 0 {
      CongFrom(x, -1, (x + 1) / p, p);
    } else {
      PrimeProduct(x - 1, x + 1, p);
    }
  }

  // ---- Fermat's theorem ----

  ghost function Pick<T>(s: set<T>): (x: T)
    requires s != {}
    ensures x in s
  {
    var y :| y in s; y
  }

  ghost function SetProduct(s: set<int>): int {
    if s == {} then 1 else Pick(s) * SetProduct(s - {Pick(s)})
  }

  lemma {:induction false} SetProductRemove(s: set<int>, x: int)
    requires x in s
    ensures SetProduct(s) == x * SetProduct(s - {x})
  {
    var y := Pick(s);
    if x != y {
      SetProductRemove(s - {y}, x);
      SetProductRemove(s - {x}, y);
      assert s - {y} - {x} == s - {x} - {y};
      var z := SetProduct(s - {x} - {y});
      assert y * (x * z) == x * (y * z);
    }
  }

  /** The residues of a times the members of s. */
  ghost function Image(s: set<int>, a: int, p: int): set<int>
    requires p > 0
  {
    set k | k in s :: Residue(a, k, p)
  }

  ghost function Residue(a: int, k: int, p: int): int
    requires p > 0
  {
    (a * k) % p
  }

  ghost function Units(p: int): (s: set<int>)
    requires p > 0
    ensures forall k :: k in s <==> 1 <= k < p
    ensures |s| == p - 1
  {
    if p == 1 then {} else Units(p - 1) + {p - 1}
  }

  /** Multiplication by a is injective on the units, so that it multiplies their product by a power of a. */
  lemma {:induction false} ImageProduct(s: set<int>, a: int, p: int)
    requires Prime(p) && a % p != 0 && s <= Units(p)
    ensures Cong(SetProduct(Image(s, a, p)), Pow(a, |s|) * SetProduct(s), p)
    decreases s
  {
    if s == {} {
      assert Image(s, a, p) == {};
      CongFrom(1, 1, 0, p);
    } else {
      var x :| x in s;
      var rest := s - {x};
      ImageProduct(rest, a, p);
      SetProductRemove(s, x);
      var y := Residue(a, x, p);
      ImageRemove(s, x, a, p);
      SetProductRemove(Image(s, a, p), y);
      CongMod(a * x, p);
      CongMul(y, a * x, SetProduct(Image(rest, a, p)), Pow(a, |rest|) * SetProduct(rest), p);
      assert |s| == |rest| + 1;
      Regroup(a, x, Pow(a, |rest|), SetProduct(rest));
    }
  }

  lemma Regroup(a: int, x: int, w: int, z: int)
    ensures a * x * (w * z) == a * w * (x * z)
  {
    assert a * x * (w * z) == a * (x * w * z);
    assert x * w * z == w * (x * z);
  }

  lemma ImageRemove(s: set<int>, x: int, a: int, p: int)
    requires Prime(p) && a % p != 0 && s <= Units(p) && x in s
    ensures Residue(a, x, p) in Image(s, a, p)
    ensures Image(s, a, p) - {Residue(a, x, p)} == Image(s - {x}, a, p)
  {
    hide Prime, Residue;
    forall k | k in s - {x} ensures Residue(a, k, p) != Residue(a, x, p) {
      ResidueInjective(a, k, x, p);
    }
  }

  lemma ResidueInjective(a: int, k: int, x: int, p: int)
    requires Prime(p) && a % p != 0 && 0 <= k < p && 0 <= x < p && k != x
    ensures Residue(a, k, p) != Residue(a, x, p)
  {
    if Residue(a, k, p) == Residue(a, x, p) {
      assert a * k == k * a && a * x == x * a;
      PrimeCancel(k, x, a, p);
      CongSmall(k, x, p);
      DivModUnique(x, p, 0, x);
    }
  }

  /** Multiplication by a permutes the units. */
  lemma ImageUnits(a: int, p: int)
    requires Prime(p) && a % p != 0
    ensures p > 0 && Image(Units(p), a, p) == Units(p)
  {
    assert p > 0;
    hide Prime, Residue;
    forall k | k in Units(p) ensures Residue(a, k, p) in Units(p) {
      ResidueUnit(a, k, p);
    }
    forall k | k in Units(p) ensures k in Image(Units(p), a, p) {
      var j := ResidueBack(a, k, p);
      assert j in Units(p) && Residue(a, j, p) == k;
    }
  }

  lemma ResidueUnit(a: int, k: int, p: int)
    requires Prime(p) && a % p != 0 && 1 <= k < p
    ensures 1 <= Residue(a, k, p) < p
  {
    DivModUnique(k, p, 0, k);
    PrimeProduct(a, k, p);
  }

  lemma ResidueBack(a: int, k: int, p: int) returns (j: int)
    requires Prime(p) && a % p != 0 && 1 <= k < p
    ensures 1 <= j < p && Residue(a, j, p) == k
  {
    var r := PrimeInverse(a, p);
    DivModUnique(k, p, 0, k);
    InverseUnit(a, r, p);
    PrimeProduct(r, k, p);
    j := (r * k) % p;
    CongMod(r * k, p);
    CongMul(a, a, j, r * k, p);
    CongMul(a * r, 1, k, k, p);
    Associate(a, r, k);
  }

  lemma InverseUnit(a: int, r: int, p: int)
    requires p > 1 && Cong(a * r, 1, p)
    ensures r % p != 0
  {
    DivModUnique(1, p, 0, 1);
    DivModUnique(0, p, 0, 0);
    if r % p == 0 {
      CongFrom(r, 0, r / p, p);
      CongMul(a, a, r, 0, p);
    }
  }

  lemma {:induction false} UnitsProduct(s: set<int>, p: int)
    requires Prime(p) && s <= Units(p)
    ensures SetProduct(s) % p != 0
    decreases s
  {
    DivModUnique(1, p, 0, 1);
    if s != {} {
      var x :| x in s;
      UnitsProduct(s - {x}, p);
      SetProductRemove(s, x);
      DivModUnique(x, p, 0, x);
      PrimeProduct(x, SetProduct(s - {x}), p);
    }
  }

  lemma Fermat(a: int, p: int)
    requires Prime(p) && a % p != 0
    ensures Cong(Pow(a, p - 1), 1, p)
  {
    ImageProduct(Units(p), a, p);
    ImageUnits(a, p);
    UnitsProduct(Units(p), p);
    PrimeCancel(Pow(a, p - 1), 1, SetProduct(Units(p)), p);
  }

  // ---- the quadratic character of 2 ----

  function Factorial(n: nat): int {
    if n == 0 then 1 else n * Factorial(n - 1)
  }

  /** The product of the even numbers from lo to hi. */
  ghost function Evens(lo: nat, hi: int): int
    decreases hi + 1 - lo
  {
    if hi < lo then 1 else (if hi % 2 == 0 then hi else 1) * Evens(lo, hi - 1)
  }

  /** The product of j for even j and p - j for odd j, j up to n. */
  ghost function Folded(n: nat, p: int): int {
    if n == 0 then 1 else FoldTerm(n, p) * Folded(n - 1, p)
  }

  ghost function FoldTerm(j: nat, p: int): int {
    if j % 2 == 0 then j else p - j
  }

  lemma {:induction false} EvensLow(lo: nat, hi: int)
    requires lo <= hi
    ensures Evens(lo, hi) == (if lo % 2 == 0 then lo else 1) * Evens(lo + 1, hi)
    decreases hi - lo
  {
    if lo < hi {
      EvensLow(lo, hi - 1);
      var x, y := if lo % 2 == 0 then lo else 1, if hi % 2 == 0 then hi else 1;
      Exchange(y, x, Evens(lo + 1, hi - 1));
    }
  }

  /** Taking even numbers from both ends alternately: the even numbers below p are the folded ones up to p/2. */
  lemma {:induction false} EvensFold(j: nat, h: nat, p: int)
    requires p == 2 * h + 1 && j <= h
    ensures Folded(j, p) * Evens(j + 1, p - 1 - j) == Evens(1, p - 1)
  {
    if j == 0 { return; }
    EvensFold(j - 1, h, p);
    EvensEnds(j, h, p);
    hide Evens, FoldTerm;
    TakeOut(FoldTerm(j, p), Folded(j - 1, p), Evens(j + 1, p - 1 - j));
  }

  lemma EvensEnds(j: nat, h: nat, p: int)
    requires p == 2 * h + 1 && 0 < j <= h
    ensures Evens(j, p - j) == FoldTerm(j, p) * Evens(j + 1, p - 1 - j)
  {
    EvensLow(j, p - j);
    assert Evens(j + 1, p - j) == (if (p - j) % 2 == 0 then p - j else 1) * Evens(j + 1, p - j - 1);
  }

  lemma TakeOut(s: int, f: int, e: int)
    ensures s * f * e == f * (s * e)
  {}

  lemma {:induction false} EvensFactorial(h: nat)
    ensures Evens(1, 2 * h) == Pow(2, h) * Factorial(h)
  {
    if h > 0 {
      EvensFactorial(h - 1);
      assert Evens(1, 2 * h) == 2 * h * Evens(1, 2 * h - 1);
      var w, f := Pow(2, h - 1), Factorial(h - 1);
      assert 2 * h * (w * f) == 2 * w * (h * f);
    }
  }

  /** Minus one to the number of odd numbers up to n. */
  function OddSign(n: nat): int {
    if ((n + 1) / 2) % 2 == 0 then 1 else -1
  }

  lemma {:induction false} FoldedFactorial(n: nat, p: int)
    requires p > 0
    ensures Cong(Folded(n, p), OddSign(n) * Factorial(n), p)
  {
    if n == 0 {
      CongFrom(1, 1, 0, p);
    } else {
      FoldedFactorial(n - 1, p);
      var t: int := if n % 2 == 0 then n else -(n as int);
      CongFrom(FoldTerm(n, p), t, if n % 2 == 0 then 0 else 1, p);
      CongMul(FoldTerm(n, p), t, Folded(n - 1, p), OddSign(n - 1) * Factorial(n - 1), p);
      SignStep(n, t, Factorial(n - 1));
    }
  }

  lemma SignStep(n: nat, t: int, f: int)
    requires n > 0 && t == if n % 2 == 0 then n else -(n as int)
    ensures t * (OddSign(n - 1) * f) == OddSign(n) * (n * f)
  {
    assert OddSign(n) == if n % 2 == 0 then OddSign(n - 1) else -OddSign(n - 1);
    assert OddSign(n - 1) == 1 || OddSign(n - 1) == -1;
    var m: int := n;
    assert -m * f == -(m * f) && m * -f == -(m * f) && -m * -f == m * f;
  }

  lemma {:induction false} FactorialUnit(n: nat, p: int)
    requires Prime(p) && n < p
    ensures Factorial(n) % p != 0
  {
    DivModUnique(1, p, 0, 1);
    if n > 0 {
      FactorialUnit(n - 1, p);
      DivModUnique(n, p, 0, n);
      PrimeProduct(n, Factorial(n - 1), p);
    }
  }

  /** Euler's criterion for 2: it is a square modulo p exactly when p is 1 or 7 modulo 8. */
  lemma EulerForTwo(p: int)
    requires Prime(p) && p % 2 == 1
    ensures Cong(Pow(2, (p - 1) / 2), if p % 8 == 1 || p % 8 == 7 then 1 else -1, p)
  {
    var h := (p - 1) / 2;
    EvensFold(h, h, p);
    EvensFactorial(h);
    FoldedFactorial(h, p);
    FactorialUnit(h, p);
    EvensNone(h + 1, h);
    OddSignOf(h, p);
    hide Evens, Folded, Factorial, OddSign, Pow, Cong;
    PrimeCancel(Pow(2, h), OddSign(h), Factorial(h), p);
  }

  lemma EvensNone(lo: nat, hi: int)
    requires hi < lo
    ensures Evens(lo, hi) == 1
  {}

  lemma OddSignOf(h: nat, p: int)
    requires p == 2 * h + 1
    ensures OddSign(h) == if p % 8 == 1 || p % 8 == 7 then 1 else -1
  {}
}
