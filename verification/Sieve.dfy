/** Trial division by all small primes at once. */
module Sieve {
  import opened Arith
  import opened Words
  import opened Euclid
  import opened NumberTheory
  import opened LbnBasic
  import opened LbnInv
  import opened LbnExp
  import opened BigNumber
  import opened SieveBits

  /** The inverse of x modulo mod, or 0 if there is none.  Every intermediate value fits a word. */
  method ModInvert(x0: word, mod: word) returns (r: word)
    requires mod > 0
    ensures r == 0 <==> x0 == 0 || Gcd(x0, mod) != 1
    ensures r != 0 ==> r <= mod && (mod > 1 ==> r < mod) && Cong(x0 * r as int, 1, mod)
  {
    hide Co, Gcd, Ended, Cong;
    if x0 <= 1 {
      if x0 == 1 { OneInverse(mod); }
      return x0;
    }
    var x: word, t0: word := x0, 1;
    CoBegin(mod, x0);
    QuotientBound(mod, x0);
    var t1: word := mod / x;
    var y: word := mod % x;
    GcdSwap(x0, mod);
    GcdUnfold(mod, x0);
    if y <= 1 {
      r := Finish(y, t1, x0, mod, x, t0);
      return;
    }
    while true
      invariant 1 < y < x && Co(mod, x0, 1, x, y, t0, t1) && t0 > 0 && Gcd(x, y) == Gcd(x0, mod)
      decreases y
    {
      GcdUnfold(x, y);
      CoStep(mod, x0, 1, x, y, t0, t1);
      CoFits(mod, x0, 1, x % y, y, t0 + x / y * t1, t1);
      x, t0 := x % y, t0 + x / y * t1;
      if x <= 1 {
        GcdZero(y);
        if x == 1 {
          EndT0(mod, x0, y, t0, t1, 1);
          EndedMeans(InT0, mod, x0, t0, 1);
          InverseMeansCoprime(x0, t0, mod);
        }
        return if x != 0 then t0 else 0;
      }
      GcdUnfold(y, x);
      CoSwap(mod, x0, 1, x, y, t0, t1);
      CoStep(mod, x0, -1, y, x, t1, t0);
      CoFits(mod, x0, -1, y % x, x, t1 + y / x * t0, t0);
      y, t1 := y % x, t1 + y / x * t0;
      CoSwap(mod, x0, -1, y, x, t1, t0);
      if y <= 1 { break; }
    }
    r := Finish(y, t1, x0, mod, x, t0);
  }

  /** The end of the algorithm when y is reduced to 1 or 0. */
  method Finish(y: word, t1: word, ghost x0: word, mod: word, ghost x: word, ghost t0: word) returns (r: word)
    requires y <= 1 < x && t0 > 0 && Co(mod, x0, 1, x, y, t0, t1) && x0 > 1 && mod > 0 && Gcd(x, y) == Gcd(x0, mod)
    ensures r == 0 <==> Gcd(x0, mod) != 1
    ensures r != 0 ==> r <= mod && (mod > 1 ==> r < mod) && Cong(x0 * r as int, 1, mod)
  {
    hide Co, Gcd, Ended, Cong;
    if y == 0 {
      GcdZero(x);
      return 0;
    }
    EndT1(mod, x0, x, t0, t1, 1);
    EndedMeans(NegatedInT1, mod, x0, t1, 1);
    InverseMeansCoprime(x0, mod - t1, mod);
    return mod - t1;
  }

  lemma QuotientBound(m: nat, x: nat)
    requires x > 0
    ensures 0 <= m / x <= m && 0 <= m % x < x
  {
    Scale(1, x, m + 1);
    DivBelow(m, x, m + 1);
  }

  // ---- the table of small primes ----

  /** m is removed when sieving by d, from d * d on. */
  ghost predicate Struck(m: nat, d: nat)
    requires d > 0
  {
    d * d <= m && Divides(d, m)
  }

  /** m is left after sieving by the odd primes below p. */
  ghost predicate Sifted(m: nat, p: nat) {
    m > 1 && forall d :: 2 < d < p && Prime(d) ==> !Struck(m, d)
  }

  /** A number that is not prime has a prime factor whose square does not exceed it. */
  lemma LeastFactor(m: nat) returns (q: nat)
    requires m > 1 && !Prime(m)
    ensures 1 < q < m && Prime(q) && Divides(q, m) && q * q <= m
  {
    var d :| 1 < d < m && Divides(d, m);
    q := LeastFrom(m, 2, d);
    var c := DividesWitness(q, m);
    if c < q {
      if c <= 1 { Scale(c, 1, q); }
      Scale(2, q, c);
      DividesFrom(c, m, q);
    }
    Scale(q, c, q);
  }

  lemma {:induction false} LeastFrom(m: nat, q0: nat, d: nat) returns (q: nat)
    requires 2 <= q0 <= d < m && Divides(d, m) && forall c :: 1 < c < q0 ==> !Divides(c, m)
    ensures q0 <= q <= d && Prime(q) && Divides(q, m) && forall c :: 1 < c < q ==> !Divides(c, m)
    decreases d - q0
  {
    if Divides(q0, m) {
      q := q0;
      forall c | 1 < c < q ensures !Divides(c, q) {
        if Divides(c, q) { DividesTransitive(c, q, m); }
      }
    } else {
      q := LeastFrom(m, q0 + 1, d);
    }
  }

  lemma DividesTransitive(a: int, b: int, c: int)
    requires a > 0 && b > 0 && Divides(a, b) && Divides(b, c)
    ensures Divides(a, c)
  {
    var j := DividesWitness(a, b);
    var k := DividesWitness(b, c);
    Associate(k, j, a);
    DividesFrom(a, c, k * j);
  }

  /** Sieving by the primes up to the root of m leaves m exactly when it is prime. */
  lemma SiftedIsPrime(m: nat, p: nat)
    requires m % 2 == 1 && m > 1
    ensures Prime(m) ==> Sifted(m, p)
    ensures Sifted(m, p) && m < p * p ==> Prime(m)
  {
    if Prime(m) {
      forall d | 2 < d < p && Prime(d) ensures !Struck(m, d) {
        if Struck(m, d) {
          if d >= m { Scale(2, d, d); }
        }
      }
    }
    if Sifted(m, p) && m < p * p && !Prime(m) {
      var q := LeastFactor(m);
      assert Struck(m, q);
      if q >= p { Scale(p, q, p); Scale(p, q, q); }
      if q == 2 { var k := DividesWitness(2, m); }
    }
  }

  /** The bit at which sieving by p starts: that of its square. */
  function SquareBit(p: nat): (k: nat)
    requires p % 2 == 1
    ensures 2 * k + 1 == p * p
  {
    ModTwo(p, p);
    Scale(1, p, p);
    (p * p - 1) / 2
  }

  /** Sieving bit positions from the square of p in steps of p strikes the odd multiples of p from its square on. */
  lemma HitIsStruck(k: nat, p: nat)
    requires p % 2 == 1
    ensures Hit(k, SquareBit(p), p) <==> Struck(2 * k + 1, p)
  {
    hide SquareBit, Place, Divides;
    if Hit(k, SquareBit(p), p) {
      var n: nat :| k == Place(SquareBit(p), p, n);
      PlaceIsMultiple(p, n);
      DividesFrom(p, 2 * k + 1, p + 2 * n);
    }
    if Struck(2 * k + 1, p) { StruckIsHit(k, p); }
  }

  lemma StruckIsHit(k: nat, p: nat)
    requires p % 2 == 1 && Struck(2 * k + 1, p)
    ensures Hit(k, SquareBit(p), p)
  {
    hide SquareBit, Place, Divides;
    var c := DividesWitness(p, 2 * k + 1);
    var n := OddCofactor(c, p, 2 * k + 1);
    PlaceIsMultiple(p, n);
    assert k == Place(SquareBit(p), p, n);
  }

  lemma PlaceIsMultiple(p: nat, n: nat)
    requires p % 2 == 1
    ensures 2 * Place(SquareBit(p), p, n) + 1 == (p + 2 * n) * p >= p * p
  {
    OddMultiple(p, n);
    Scale(0, n, p);
  }

  lemma OddCofactor(c: int, p: nat, m: nat) returns (n: nat)
    requires p % 2 == 1 && m % 2 == 1 && m == c * p && p * p <= m
    ensures c == p + 2 * n
  {
    ModTwo(c, p);
    assert (p - 1) * p == p * p - p;
    if c < p { Scale(c, p - 1, p); }
    n := (c - p) / 2;
  }

  lemma OddMultiple(p: int, n: int)
    ensures (p + 2 * n) * p == p * p + 2 * (n * p)
  {}

  lemma ModTwo(x: int, y: int)
    ensures (x * y) % 2 == 1 <==> x % 2 == 1 && y % 2 == 1
  {
    var a, b := x / 2, y / 2;
    var i, j := x % 2, y % 2;
    assert x * y == 2 * (a * y + i * b) + i * j by {
      assert (2 * a + i) * y == 2 * (a * y) + i * y;
      assert i * (2 * b + j) == 2 * (i * b) + i * j;
    }
    if i == 0 { assert i * j == 0; } else { assert i * j == j; }
  }

  /** What the table of small primes holds once the primes below p have been dealt with. */
  ghost predicate Table(s: seq<byte>, p: nat) {
    forall k: nat :: k < 8 * |s| ==> (BitSet(s, k) <==> Sifted(2 * k + 1, p))
  }

  /** The sieve of Eratosthenes over the odd numbers: bit k ends up set exactly when 2k + 1 is prime. */
  method Small(a: array<byte>)
    requires 16 <= a.Length <= 4096
    modifies a
    ensures forall k: nat :: k < 8 * a.Length ==> (BitSet(a[..], k) <==> Prime(2 * k + 1))
  {
    hide BitSet, Sifted, Prime, Struck, SquareBit, Hit;
    Fill(a);
    var i := 1;
    TableStart(a[..]);
    while true
      invariant 0 < i < 128 && BitSet(a[..], i) && Table(a[..], 2 * i + 1)
      decreases 128 - i
    {
      var p := 2 * i + 1;
      if p > 256 { break; }
      ghost var s := a[..];
      Single(a, SquareBit(p), p);
      TableStep(s, a[..], i);
      var next := Search(a, 16, i);
      TableSkip(a[..], i, if next == 0 then 128 else next);
      if next == 0 { break; }
      i := next;
    }
    TableEnd(a[..]);
  }

  /** All numbers but 1 are candidates at first. */
  method Fill(a: array<byte>)
    requires a.Length > 0
    modifies a
    ensures forall k: nat :: k < 8 * a.Length ==> (BitSet(a[..], k) <==> k > 0)
  {
    forall i | 0 <= i < a.Length { a[i] := 255; }
    a[0] := 254;
    forall k: nat | k < 8 * a.Length ensures BitSet(a[..], k) <==> k > 0 {
      ByteMask(if k / 8 == 0 then 254 else 255, k % 8);
    }
  }

  lemma ByteMask(x: byte, i: nat)
    requires i < 8
    ensures x == 255 ==> ByteBit(x, i)
    ensures x == 254 ==> (ByteBit(x, i) <==> i > 0)
    ensures x == 0xAA ==> (ByteBit(x, i) <==> i % 2 == 1)
    ensures x == 0x55 ==> (ByteBit(x, i) <==> i % 2 == 0)
  {
    assert Powers == [1, 2, 4, 8, 16, 32, 64, 128];
    assert i == 0 || i == 1 || i == 2 || i == 3 || i == 4 || i == 5 || i == 6 || i == 7;
  }

  lemma TableStart(s: seq<byte>)
    requires |s| > 0 && forall k: nat :: k < 8 * |s| ==> (BitSet(s, k) <==> k > 0)
    ensures Table(s, 3) && BitSet(s, 1)
  {
    hide BitSet;
  }

  lemma TableStep(s: seq<byte>, s': seq<byte>, i: nat)
    requires 0 < i < 8 * |s| && 2 * i + 1 < 256 && Table(s, 2 * i + 1) && BitSet(s, i)
    requires Cleared(s', s, (k: nat) => Hit(k, SquareBit(2 * i + 1), 2 * i + 1))
    ensures Table(s', 2 * i + 2)
  {
    var p := 2 * i + 1;
    assert Prime(p) by { hide BitSet; SiftedIsPrime(p, p); Scale(2, p, p); }
    hide BitSet, Prime, SquareBit, Hit, Struck;
    forall k: nat | k < 8 * |s'| ensures BitSet(s', k) <==> Sifted(2 * k + 1, p + 1) {
      HitIsStruck(k, p);
      assert BitSet(s, k) <==> Sifted(2 * k + 1, p);
      assert Sifted(2 * k + 1, p + 1) <==> Sifted(2 * k + 1, p) && !Struck(2 * k + 1, p);
    }
  }

  /** Numbers without a bit are not prime, so that nothing is missed by skipping them. */
  lemma TableSkip(s: seq<byte>, i: nat, j: nat)
    requires |s| >= 16 && 0 < i < j <= 128 && Table(s, 2 * i + 2) && forall k: nat :: i < k < j ==> !BitSet(s, k)
    ensures Table(s, 2 * j + 1)
  {
    hide BitSet;
    forall d | 2 * i + 2 <= d < 2 * j + 1 ensures !Prime(d) {
      if d % 2 == 0 {
        DividesFrom(2, d, d / 2);
      } else {
        assert !BitSet(s, (d - 1) / 2);
        SiftedIsPrime(d, 2 * i + 2);
      }
    }
    hide Prime, Struck;
    forall k: nat | k < 8 * |s| ensures BitSet(s, k) <==> Sifted(2 * k + 1, 2 * j + 1) {
      assert BitSet(s, k) <==> Sifted(2 * k + 1, 2 * i + 2);
    }
  }

  lemma TableEnd(s: seq<byte>)
    requires |s| <= 4096 && Table(s, 257)
    ensures forall k: nat :: k < 8 * |s| ==> (BitSet(s, k) <==> Prime(2 * k + 1))
  {
    hide BitSet, Sifted, Prime;
    forall k: nat | k < 8 * |s| ensures BitSet(s, k) <==> Prime(2 * k + 1) {
      if k > 0 { SiftedIsPrime(2 * k + 1, 257); } else { OneIsNeither(); }
    }
  }

  lemma OneIsNeither()
    ensures !Sifted(1, 257) && !Prime(1)
  {}

  // ---- the sieve of candidates ----

  /** The j-th member of the chain n, 2n + 1, 2(2n + 1) + 1, ... */
  ghost function Chain(n: int, j: nat): int {
    if j == 0 then n else 2 * Chain(n, j - 1) + 1
  }

  ghost function Steps(step: int, j: nat): int {
    if j == 0 then step else 2 * Steps(step, j - 1)
  }

  /** In closed form the chain is 2^j n + 2^j - 1. */
  lemma {:induction false} ChainClosed(n: int, j: nat)
    ensures Chain(n, j) == Pow(2, j) * n + Pow(2, j) - 1
  {
    if j > 0 {
      ChainClosed(n, j - 1);
      assert 2 * (Pow(2, j - 1) * n) == 2 * Pow(2, j - 1) * n;
    }
  }

  lemma {:induction false} ChainLinear(n: int, step: int, k: int, j: nat)
    ensures Chain(n + k * step, j) == Chain(n, j) + k * Steps(step, j)
  {
    if j > 0 {
      ChainLinear(n, step, k, j - 1);
      Exchange(k, 2, Steps(step, j - 1));
    }
  }

  lemma {:induction false} StepsUnit(step: int, j: nat, p: int)
    requires Prime(p) && p > 2 && step % p != 0
    ensures Steps(step, j) % p != 0
  {
    if j > 0 {
      StepsUnit(step, j - 1, p);
      DivModUnique(2, p, 0, 2);
      PrimeProduct(2, Steps(step, j - 1), p);
    }
  }

  /** p divides the j-th member of the chain that starts from candidate k. */
  ghost predicate Divided(k: nat, p: nat, bn: int, step: int, j: nat)
    requires p > 0
  {
    Divides(p, Chain(bn + k * step, j))
  }

  /** Candidate k is removed on account of p. */
  ghost predicate Removed(k: nat, p: nat, bn: int, step: int, dbl: nat)
    requires p > 0
  {
    !Divides(p, step) && exists j :: 0 <= j <= dbl && Divided(k, p, bn, step, j)
  }

  /** s is where sieving the j-th member by p starts, and t the negated inverse of the step. */
  ghost predicate Start(s: int, t: int, p: int, bn: int, step: int, j: nat) {
    p > 2 && 0 <= s < p && 0 < t < p && Cong(s * Steps(step, j), -Chain(bn, j), p) && Cong(t * Steps(step, j), -1, p)
  }

  lemma HitIsCong(k: nat, s: nat, p: nat)
    requires s < p
    ensures Hit(k, s, p) <==> Cong(k, s, p)
  {
    if Hit(k, s, p) {
      var n: nat :| k == Place(s, p, n);
      CongFrom(k, s, n, p);
    }
    if Cong(k, s, p) {
      var n := CongWitness(k, s, p);
      if n < 0 { Scale(n, -1, p); }
      assert k == Place(s, p, n);
    }
  }

  /** The places that sieving from s visits are exactly the candidates whose j-th member p divides. */
  lemma HitIsDivided(k: nat, s: nat, t: int, p: nat, bn: int, step: int, j: nat)
    requires Prime(p) && step % p != 0 && Start(s, t, p, bn, step, j)
    ensures Hit(k, s, p) <==> Divided(k, p, bn, step, j)
  {
    var S, N := Steps(step, j), Chain(bn, j);
    HitIsCong(k, s, p);
    ChainLinear(bn, step, k, j);
    StepsUnit(step, j, p);
    hide Prime, Steps, Chain, Hit;
    if Cong(k, s, p) {
      CongFrom(S, S, 0, p);
      CongMul(k, s, S, S, p);
      SumVanishes(k * S, N, s * S, p);
    }
    if Divides(p, N + k * S) {
      MinusCong(k * S, N, s * S, p);
      PrimeCancel(k, s, S, p);
    }
  }

  lemma SumVanishes(x: int, n: int, y: int, p: int)
    requires p > 0 && Cong(x, y, p) && Cong(y, -n, p)
    ensures Divides(p, n + x)
  {
    var j := CongWitness(x, -n, p);
    DividesFrom(p, n + x, j);
  }

  lemma MinusCong(x: int, n: int, y: int, p: int)
    requires p > 0 && Divides(p, n + x) && Cong(y, -n, p)
    ensures Cong(x, y, p)
  {
    var j := DividesWitness(p, n + x);
    CongFrom(x, -n, j, p);
  }

  /** t halved modulo p, and the next starting place. */
  method NextStart(s: nat, t: nat, p: nat, ghost bn: int, ghost step: int, ghost j: nat) returns (s': nat, t': nat)
    requires Start(s, t, p, bn, step, j) && p % 2 == 1
    ensures Start(s', t', p, bn, step, j + 1)
  {
    StartRange(s, t, p, bn, step, j);
    hide Start;
    t' := t;
    if t' % 2 == 1 { t' := t' + p; }
    t' := t' / 2;
    s' := s + t';
    if s' >= p { s' := s' - p; }
    StartNext(s, t, s', t', p, bn, step, j);
  }

  lemma StartNext(s: nat, t: nat, s': nat, t': nat, p: nat, bn: int, step: int, j: nat)
    requires Start(s, t, p, bn, step, j) && 0 < t' < p && 0 <= s' < p
    requires (2 * t' == t || 2 * t' == t + p) && (s' == s + t' || s' == s + t' - p)
    ensures Start(s', t', p, bn, step, j + 1)
  {
    var S, N := Steps(step, j), Chain(bn, j);
    assert Steps(step, j + 1) == 2 * S && Chain(bn, j + 1) == 2 * N + 1;
    hide Steps, Chain;
    CongFrom(2 * t', t, if 2 * t' == t then 0 else 1, p);
    CongFrom(s', s + t', if s' == s + t' then 0 else -1, p);
    StartAlgebra(s, t, s', t', p, S, N);
  }

  lemma StartAlgebra(s: int, t: int, s': int, t': int, p: int, S: int, N: int)
    requires p > 0 && Cong(s * S, -N, p) && Cong(t * S, -1, p) && Cong(2 * t', t, p) && Cong(s', s + t', p)
    ensures Cong(t' * (2 * S), -1, p) && Cong(s' * (2 * S), -(2 * N + 1), p)
  {
    hide Cong;
    CongFrom(S, S, 0, p);
    CongFrom(2 * S, 2 * S, 0, p);
    CongFrom(2, 2, 0, p);
    CongMul(2 * t', t, S, S, p);
    assert 2 * t' * S == t' * (2 * S);
    CongTrans(t' * (2 * S), t * S, -1, p);
    CongMul(s', s + t', 2 * S, 2 * S, p);
    CongMul(2, 2, s * S, -N, p);
    CongAdd(2 * (s * S), 2 * -N, t' * (2 * S), -1, p);
    assert (s + t') * (2 * S) == 2 * (s * S) + t' * (2 * S);
    CongTrans(s' * (2 * S), (s + t') * (2 * S), -(2 * N + 1), p);
  }

  /** Removes the candidates that an odd prime not dividing the step rules out. */
  method SievePrime(a: array<byte>, bnMod: nat, p: nat, stepMod: nat, dbl: nat, ghost bn: nat, ghost step: nat)
    requires Prime(p) && 2 < p < 65536 && p % 2 == 1 && bnMod == bn % p && stepMod == step % p != 0
    modifies a
    ensures Cleared(a[..], old(a[..]), (k: nat) => Removed(k, p, bn, step, dbl))
  {
    hide Prime, Start, Hit, Divided, BitSet, Gcd, Cong;
    UnitGcd(stepMod, step, p);
    var inv := ModInvert(stepMod, p);
    var t: nat := p - inv;
    FirstStart(bn, bnMod, step, stepMod, inv, p);
    var s: nat := (bnMod * t) % p;
    ghost var s0 := a[..];
    Single(a, s, p);
    SievedFirst(a[..], s0, s, t, p, bn, step);
    var j := 0;
    while j < dbl
      invariant 0 <= j <= dbl && Start(s, t, p, bn, step, j)
      invariant Cleared(a[..], s0, (k: nat) => exists i :: 0 <= i <= j && Divided(k, p, bn, step, i))
    {
      s, t := NextStart(s, t, p, bn, step, j);
      ghost var s1 := a[..];
      StartRange(s, t, p, bn, step, j + 1);
      Single(a, s, p);
      SievedNext(a[..], s1, s0, s, t, p, bn, step, j);
      j := j + 1;
    }
    assert !Divides(p, step);
  }

  lemma StartRange(s: int, t: int, p: int, bn: int, step: int, j: nat)
    requires Start(s, t, p, bn, step, j)
    ensures 0 <= s < p && 0 < t < p && p > 2
  {}

  lemma UnitGcd(t: nat, step: nat, p: nat)
    requires Prime(p) && t == step % p != 0
    ensures Gcd(t, p) == 1
  {
    GcdIsDivisor(t, p);
    DividesBelow(Gcd(t, p), t);
  }

  lemma FirstStart(bn: nat, b: nat, step: nat, st: nat, inv: nat, p: nat)
    requires p > 2 && b == bn % p && st == step % p && 0 < inv < p && Cong(st * inv, 1, p)
    ensures 0 <= (b * (p - inv)) % p < p && Start((b * (p - inv)) % p, p - inv, p, bn, step, 0)
  {
    var t := p - inv;
    CongMod(bn, p);
    CongMod(step, p);
    CongMod(b * t, p);
    hide Cong;
    FirstInverse(step, st, inv, p);
    FirstProduct(bn, b, step, t, (b * t) % p, p);
  }

  lemma FirstInverse(step: int, st: int, inv: int, p: int)
    requires p > 0 && Cong(step, st, p) && Cong(st * inv, 1, p)
    ensures Cong((p - inv) * step, -1, p)
  {
    hide Cong;
    CongFrom(inv, inv, 0, p);
    CongMul(step, st, inv, inv, p);
    CongTrans(step * inv, st * inv, 1, p);
    var k := CongWitness(step * inv, 1, p);
    assert (p - inv) * step == p * step - step * inv;
    assert (step - k) * p == p * step - k * p;
    CongFrom((p - inv) * step, -1, step - k, p);
  }

  lemma FirstProduct(bn: int, b: int, step: int, t: int, s: int, p: int)
    requires p > 0 && Cong(b, bn, p) && Cong(t * step, -1, p) && Cong(s, b * t, p)
    ensures Cong(s * step, -bn, p)
  {
    hide Cong;
    CongFrom(step, step, 0, p);
    CongMul(s, b * t, step, step, p);
    CongMul(b, bn, t * step, -1, p);
    Associate(b, t, step);
    assert bn * -1 == -bn;
    CongTrans(s * step, b * t * step, -bn, p);
  }

  lemma SievedFirst(s': seq<byte>, s0: seq<byte>, s: nat, t: int, p: nat, bn: int, step: int)
    requires p > 0 && Prime(p) && step % p != 0 && Start(s, t, p, bn, step, 0)
      && Cleared(s', s0, (k: nat) => Hit(k, s, p))
    ensures Cleared(s', s0, (k: nat) => exists i :: 0 <= i <= 0 && Divided(k, p, bn, step, i))
  {
    hide Prime, Start, Hit, Divided, BitSet;
    forall k: nat ensures Hit(k, s, p) <==> Divided(k, p, bn, step, 0) { HitIsDivided(k, s, t, p, bn, step, 0); }
  }

  lemma SievedNext(s': seq<byte>, s1: seq<byte>, s0: seq<byte>, s: nat, t: int, p: nat, bn: int, step: int, j: nat)
    requires p > 0 && Prime(p) && step % p != 0 && Start(s, t, p, bn, step, j + 1)
      && Cleared(s', s1, (k: nat) => Hit(k, s, p))
    requires Cleared(s1, s0, (k: nat) => exists i :: 0 <= i <= j && Divided(k, p, bn, step, i))
    ensures Cleared(s', s0, (k: nat) => exists i :: 0 <= i <= j + 1 && Divided(k, p, bn, step, i))
  {
    hide Prime, Start, Hit, Divided, BitSet;
    forall k: nat ensures Hit(k, s, p) <==> Divided(k, p, bn, step, j + 1) {
      HitIsDivided(k, s, t, p, bn, step, j + 1);
    }
  }

  const SMALL := 4096

  /** With an odd step every other number is even; these are never candidates. */
  ghost predicate Candidate(k: nat, bn: nat, step: nat) {
    step % 2 == 1 ==> (bn + k * step) % 2 == 1
  }

  /** Candidate k survives the odd primes below limit. */
  ghost predicate Survives(k: nat, bn: nat, step: nat, dbl: nat, limit: nat) {
    Candidate(k, bn, step) && forall q :: 2 < q < limit && Prime(q) ==> !Removed(k, q, bn, step, dbl)
  }

  /** Member j of the chain that starts with m, in closed form. */
  ghost function Member(m: int, j: nat): int { Pow(2, j) * m + Pow(2, j) - 1 }

  /** A candidate m is left if it is odd for an odd step and no prime that the step lacks divides its chain. */
  lemma SurvivesMeans(k: nat, bn: nat, step: nat, dbl: nat, limit: nat, m: nat)
    requires m == bn + k * step
    ensures Survives(k, bn, step, dbl, limit) <==>
      && (step % 2 == 1 ==> m % 2 == 1)
      && forall q :: 2 < q < limit && Prime(q) && step % q != 0 ==>
           forall j: nat :: j <= dbl ==> Member(m, j) % q != 0
  {
    hide Prime, Member;
    forall q: nat, j: nat | 2 < q ensures Divided(k, q, bn, step, j) <==> Member(m, j) % q == 0 {
      DividedMeans(k, q, bn, step, j);
    }
    hide Divided;
    if Survives(k, bn, step, dbl, limit) {
      forall q | 2 < q < limit && Prime(q) && step % q != 0
        ensures forall j: nat :: j <= dbl ==> Member(m, j) % q != 0
      {
        assert !Removed(k, q, bn, step, dbl);
        forall j: nat | j <= dbl ensures Member(m, j) % q != 0 { assert !Divided(k, q, bn, step, j); }
      }
    }
  }

  lemma DividedMeans(k: nat, q: nat, bn: nat, step: nat, j: nat)
    requires q > 0
    ensures Divided(k, q, bn, step, j) <==> Member(bn + k * step, j) % q == 0
  {
    hide Chain, Pow;
    ChainClosed(bn + k * step, j);
  }

  ghost predicate Sieved(s: seq<byte>, bn: nat, step: nat, dbl: nat, limit: nat) {
    forall k: nat :: k < 8 * |s| ==> (BitSet(s, k) <==> Survives(k, bn, step, dbl, limit))
  }

  /** The initial pattern of candidates. */
  method Candidates(a: array<byte>, odd: bool, low: word, ghost bn: nat, ghost step: nat)
    requires odd <==> step % 2 == 1
    requires low % 2 == bn % 2
    modifies a
    ensures forall k: nat :: k < 8 * a.Length ==> (BitSet(a[..], k) <==> Candidate(k, bn, step))
  {
    var fill: byte := if !odd then 255 else if low % 2 == 0 then 0xAA else 0x55;
    forall i | 0 <= i < a.Length { a[i] := fill; }
    hide ByteBit, Candidate;
    forall k: nat | k < 8 * a.Length ensures BitSet(a[..], k) <==> Candidate(k, bn, step) {
      ByteMask(fill, k % 8);
      CandidateParity(k, bn, step);
    }
  }

  /** With an odd step candidates alternate. */
  lemma CandidateParity(k: nat, bn: nat, step: nat)
    ensures Candidate(k, bn, step) <==> step % 2 == 0 || k % 8 % 2 != bn % 2
  {
    ModTwo(k, step);
    ParityOfSum(bn, k * step);
    ParityInByte(k);
  }

  lemma ParityOfSum(x: int, y: int)
    ensures (x + y) % 2 == 1 <==> x % 2 != y % 2
  {}

  lemma ParityInByte(k: nat)
    ensures k % 8 % 2 == k % 2
  {
    ModOf(k % 8, k / 8 * 4, 2);
  }

  lemma SievedStart(s: seq<byte>, bn: nat, step: nat, dbl: nat)
    requires forall k: nat :: k < 8 * |s| ==> (BitSet(s, k) <==> Candidate(k, bn, step))
    ensures Sieved(s, bn, step, dbl, 3)
  {
    hide BitSet, Candidate;
  }

  /** A table entry was dealt with. */
  lemma SievedStep(s: seq<byte>, s': seq<byte>, bn: nat, step: nat, dbl: nat, p: nat)
    requires p > 2 && Prime(p) && Sieved(s, bn, step, dbl, p)
    requires if Divides(p, step) then s' == s else Cleared(s', s, (k: nat) => Removed(k, p, bn, step, dbl))
    ensures Sieved(s', bn, step, dbl, p + 1)
  {
    hide BitSet, Candidate, Prime, Divided;
    forall k: nat | k < 8 * |s'| ensures BitSet(s', k) <==> Survives(k, bn, step, dbl, p + 1) {
      assert BitSet(s, k) <==> Survives(k, bn, step, dbl, p);
      assert Survives(k, bn, step, dbl, p + 1) <==> Survives(k, bn, step, dbl, p) && !Removed(k, p, bn, step, dbl);
    }
  }

  /** There are no odd primes between consecutive table entries. */
  lemma SievedSkip(s: seq<byte>, bn: nat, step: nat, dbl: nat, small: seq<byte>, i: nat, j: nat)
    requires 0 < i < j <= 8 * |small| && Sieved(s, bn, step, dbl, 2 * i + 2)
    requires forall k: nat :: k < 8 * |small| ==> (BitSet(small, k) <==> Prime(2 * k + 1))
    requires forall k: nat :: i < k < j ==> !BitSet(small, k)
    ensures Sieved(s, bn, step, dbl, 2 * j + 1)
  {
    hide BitSet;
    forall d | 2 * i + 2 <= d < 2 * j + 1 ensures !Prime(d) {
      if d % 2 == 0 {
        DividesFrom(2, d, d / 2);
      } else {
        assert !BitSet(small, (d - 1) / 2) && d == 2 * ((d - 1) / 2) + 1;
      }
    }
    hide Candidate, Prime, Removed;
    forall k: nat | k < 8 * |s| ensures BitSet(s, k) <==> Survives(k, bn, step, dbl, 2 * j + 1) {
      assert BitSet(s, k) <==> Survives(k, bn, step, dbl, 2 * i + 2);
    }
  }

  method SmallTable() returns (small: array<byte>, i: nat)
    ensures fresh(small) && small.Length == SMALL && i == 1
    ensures forall k: nat :: k < 8 * SMALL ==> (BitSet(small[..], k) <==> Prime(2 * k + 1))
  {
    small := new byte[SMALL];
    Small(small);
    OneIsNeither();
    ThreeIsPrime();
    hide BitSet, Prime;
    assert BitSet(small[..], 1) && !BitSet(small[..], 0);
    i := Search(small, SMALL, 0);
    assert BitSet(small[..], 1);
  }

  lemma ThreeIsPrime()
    ensures Prime(3)
  {}

  /**
   * Fills the sieve for the progression bn, bn + step, ...: bit k is left set exactly when bn + k * step is odd (if the
   * step is odd) and no odd prime below 2^16 that does not divide the step divides a member of the candidate's chain.
   */
  method Build(a: array<byte>, bn: BigNum, step: word, dbl: nat)
    requires bn.Valid() && bn.ptr as object != a
    modifies a
    ensures bn.Valid() && Sieved(a[..], bn.Value(), step, dbl, 65537)
  {
    hide BitSet, Prime, Candidate, Removed, Sieved, Val, Magnitude;
    ghost var n: nat := bn.Value();
    var low := bn.LSWord();
    LowParity(n);
    Candidates(a, step % 2 == 1, low, n, step);
    SievedStart(a[..], n, step, dbl);
    var small, i := SmallTable();
    assert BitSet(small[..], i) by { ThreeIsPrime(); }
    while true
      invariant 0 < i < 8 * SMALL && BitSet(small[..], i) && Sieved(a[..], n, step, dbl, 2 * i + 1)
      invariant bn.Valid() && bn.Value() == n
      invariant small.Length == SMALL && forall k: nat :: k < 8 * SMALL ==> (BitSet(small[..], k) <==> Prime(2 * k + 1))
      decreases 8 * SMALL - i
    {
      SieveBy(a, bn, 2 * i + 1, step, dbl, n);
      var next := Search(small, SMALL, i);
      SievedSkip(a[..], n, step, dbl, small[..], i, if next == 0 then 8 * SMALL else next);
      if next == 0 { break; }
      i := next;
    }
  }

  method SieveBy(a: array<byte>, bn: BigNum, p: nat, step: word, dbl: nat, ghost n: nat)
    requires bn.Valid() && bn.ptr as object != a && bn.Value() == n
    requires 2 < p < 65536 && p % 2 == 1 && Prime(p) && Sieved(a[..], n, step, dbl, p)
    modifies a
    ensures Sieved(a[..], n, step, dbl, p + 1)
  {
    hide BitSet, Prime, Candidate, Removed, Sieved, Val, Magnitude;
    SmallRemainder(step, p);
    var t: nat := if step < p then step else step % p;
    ghost var s := a[..];
    if t != 0 {
      var b := bn.Residue(p);
      SievePrime(a, b, p, t, dbl, n, step);
    }
    SievedStep(s, a[..], n, step, dbl, p);
  }

  lemma LowParity(n: nat)
    ensures (n % B) % 2 == n % 2
  {}

  lemma SmallRemainder(x: nat, p: nat)
    requires p > 0
    ensures x < p ==> x % p == x
  {
    if x < p { DivModUnique(x, p, 0, x); }
  }
}
