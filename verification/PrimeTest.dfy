/** The primality test: an Euler test to base 2 followed by strong tests to the first seven primes. */
module PrimeTest {
  import opened Arith
  import opened Words
  import opened Euclid
  import opened NumberTheory
  import opened LbnExp
  import opened LbnBasic
  import opened BigNumber
  import opened LbnMont

  const Confirm: seq<nat> := [2, 3, 5, 7, 11, 13, 17]

  /** The exponent of the first test, which expects plus or minus one. */
  function FirstExponent(n: nat): nat
    requires n > 0
  {
    if n % 8 == 1 then (n - 1) / 4 else (n - 1) / 2
  }

  predicate FirstOk(n: nat)
    requires n > 0
  {
    var x := PowMod(2, FirstExponent(n), n);
    if n % 8 == 7 then x == 1 else if n % 8 == 1 then x == 1 || x == n - 1 else x == n - 1
  }

  /** Base 2 takes part in the strong tests only when the first stage found it to be a fourth power. */
  function FirstBase(n: nat): nat
    requires n > 0
  {
    if n % 8 == 1 && PowMod(2, FirstExponent(n), n) == 1 then 0 else 1
  }

  /** x squared i times modulo n. */
  function Squared(x: nat, i: nat, n: nat): nat
    requires n > 0
  {
    if i == 0 then x else (Squared(x, i - 1, n) * Squared(x, i - 1, n)) % n
  }

  /** The strong test: the power is 1, or -1 is met within k squarings. */
  ghost predicate Strong(n: nat, base: nat, e: nat, k: nat)
    requires n > 0
  {
    var x := ExpResult(base, e, n);
    x == 1 || Reaches(x, k, n)
  }

  ghost predicate Reaches(x: nat, k: nat, n: nat)
    requires n > 0
  {
    exists i :: 0 <= i < k && Squared(x, i, n) == n - 1
  }

  /** The odd part of a number and the number of factors of two beside it. */
  function OddPart(x: nat): (v: nat) {
    if x == 0 || x % 2 == 1 then x else OddPart(x / 2)
  }

  function Twos(x: nat): nat {
    if x == 0 || x % 2 == 1 then 0 else Twos(x / 2) + 1
  }

  /** What the test accepts. */
  ghost predicate Accepts(n: nat)
    requires n > 0
  {
    FirstOk(n) && forall i :: FirstBase(n) <= i < |Confirm| ==> Strong(n, Confirm[i], OddPart(n - 1), Twos(n - 1))
  }

  // ---- the program ----

  /** Three numbers that share no storage. */
  ghost predicate Separate(bn: BigNum, e: BigNum, a: BigNum)
    reads bn, e, a
  {
    && bn.Valid() && e.Valid() && a.Valid() && bn != e && bn != a && e != a
    && bn.ptr != e.ptr && bn.ptr != a.ptr && e.ptr != a.ptr
  }

  /** a + 1 == bn; leaves a incremented. */
  method IsMinusOne(bn: BigNum, a: BigNum) returns (yes: bool)
    requires bn.Valid() && a.Valid() && bn != a && bn.ptr != a.ptr
    modifies a, a.ptr
    ensures a.Valid() && (a.ptr == old(a.ptr) || fresh(a.ptr)) && a.Value() == old(a.Value()) + 1
    ensures yes <==> a.Value() == bn.Value()
  {
    a.AddQ(1);
    var c := a.CmpTo(bn);
    yes := c == 0;
  }

  /** What the first stage decides about n, with e = v: the first base to confirm and the odd part of n - 1. */
  ghost predicate Staged(n: nat, ok: bool, j: nat, v: nat, k: nat) {
    n > 0 && (ok <==> FirstOk(n)) && (ok ==> j == FirstBase(n) && k > 0 && v % 2 == 1 && n - 1 == Raised(v, k))
  }

  /** The test to base 2; on success e and k are the odd part of bn - 1 and the power of 2 in it. */
  method FirstStage(bn: BigNum, e: BigNum, a: BigNum) returns (ok: bool, j: nat, k: nat)
    requires Separate(bn, e, a) && bn.Value() > 1 && bn.Value() % 2 == 1
    modifies e, e.ptr, a, a.ptr, bn.ptr
    ensures Separate(bn, e, a) && bn.ptr[..] == old(bn.ptr[..]) && bn.Value() == old(bn.Value())
    ensures (e.ptr == old(e.ptr) || fresh(e.ptr)) && (a.ptr == old(a.ptr) || fresh(a.ptr))
    ensures Staged(bn.Value(), ok, j, e.Value(), k)
  {
    hide Pow, WordLen, Staged, Val, Magnitude, Shifted, PowMod, Raised;
    e.CopyFrom(bn);
    var neg := e.SubQ(1);
    var l := e.LSWord();
    LowBits(bn.Value() - 1);
    if l % 8 != 0 {
      ok, k := HalfPower(bn, e, a, l);
      j := 1;
    } else {
      ok, j, k := QuarterPower(bn, e, a);
    }
  }

  lemma LowBits(x: nat)
    ensures (x % B) % 8 == x % 8
  {}

  /** bn is not 1 modulo 8: 2^((bn-1)/2) must be 1 or -1, according to bn modulo 8. */
  method HalfPower(bn: BigNum, e: BigNum, a: BigNum, l: word) returns (ok: bool, k: nat)
    requires Separate(bn, e, a) && bn.Value() > 1 && bn.Value() % 2 == 1 && e.Value() == bn.Value() - 1
    requires l % 8 == e.Value() % 8 != 0
    modifies e, e.ptr, a, a.ptr, bn.ptr
    ensures Separate(bn, e, a) && bn.ptr[..] == old(bn.ptr[..]) && bn.Value() == old(bn.Value())
    ensures (e.ptr == old(e.ptr) || fresh(e.ptr)) && (a.ptr == old(a.ptr) || fresh(a.ptr))
    ensures Staged(bn.Value(), ok, 1, e.Value(), k)
  {
    hide Pow, WordLen, Staged, Val, Magnitude, Shifted, PowMod, Raised;
    ghost var n: nat := bn.Value();
    Residues(n, l);
    ShiftedTwice(n - 1);
    ShiftedTwice((n - 1) / 2);
    e.RShift(1);
    ghost var v: nat := e.Value();
    var one, minusOne := UnitPower(bn, e, a, l % 8 != 6);
    k := 1;
    ok := if l % 8 == 6 then one else minusOne;
    if ok && l % 8 == 4 {
      e.RShift(1);
      k := 2;
    }
    HalfCases(n, PowMod(2, v, n), v, l % 8 == 6, l % 8 == 4, ok, e.Value(), k);
  }

  lemma Residues(n: nat, l: nat)
    requires n > 1 && n % 2 == 1 && l % 8 == (n - 1) % 8 != 0
    ensures n % 8 != 1 && (l % 8 == 6 <==> n % 8 == 7) && (l % 8 == 4 <==> n % 8 == 5) && (n - 1) / 2 > 0
  {}

  /** a = 2^e modulo bn, compared with 1 and, if that fails and it is asked for, with -1. */
  method UnitPower(bn: BigNum, e: BigNum, a: BigNum, minusToo: bool) returns (one: bool, minusOne: bool)
    requires Separate(bn, e, a) && bn.Value() > 2 && bn.Value() % 2 == 1 && e.Value() > 0
    modifies a, a.ptr, bn.ptr
    ensures Separate(bn, e, a) && bn.ptr[..] == old(bn.ptr[..]) && bn.Value() == old(bn.Value())
      && e.Value() == old(e.Value())
    ensures a.ptr == old(a.ptr) || fresh(a.ptr)
    ensures one <==> PowMod(2, e.Value(), bn.Value()) == 1
    ensures minusOne <==> minusToo && PowMod(2, e.Value(), bn.Value()) + 1 == bn.Value()
  {
    hide Pow, WordLen, Val, Magnitude, PowMod;
    var fine := a.TwoExpModOf(e, bn);
    var bits := a.BitLength();
    one, minusOne := bits == 1, false;
    if !one && minusToo { minusOne := IsMinusOne(bn, a); }
  }

  lemma ShiftedTwice(v: nat)
    ensures Shifted(v, 1) == v / 2 && Shifted(v, 2) == v / 4
  {
    PowAt0(2);
    PowFour();
  }

  lemma HalfCases(n: nat, x: nat, v: nat, seven: bool, five: bool, ok: bool, odd: nat, k: nat)
    requires n > 1 && n % 2 == 1 && n % 8 != 1 && v == (n - 1) / 2 && x == PowMod(2, v, n)
    requires (seven <==> n % 8 == 7) && (five <==> n % 8 == 5)
    requires ok <==> if seven then x == 1 else x + 1 == n
    requires ok ==> if five then odd == v / 2 && k == 2 else odd == v && k == 1
    ensures Staged(n, ok, 1, odd, k)
  {
    PowAt0(2);
    PowFour();
    hide Pow, PowMod;
    OddHalf(n, v);
  }

  /** Half of n - 1 is odd, or for n = 5 modulo 8 twice an odd number. */
  lemma OddHalf(n: nat, v: nat)
    requires n % 2 == 1 && n % 8 != 1 && v == (n - 1) / 2
    ensures n - 1 == v * 2
    ensures if n % 8 == 5 then v / 2 % 2 == 1 && n - 1 == v / 2 * 4 else v % 2 == 1
  {
    var q, r := n / 8, n % 8;
    ModOf(r, 4 * q, 2);
    if r == 3 { HalfOf(n, 4 * q + 1, 2 * q, 1); }
    else if r == 5 { HalfOf(n, 4 * q + 2, 2 * q + 1, 0); HalfOf(4 * q + 3, 2 * q + 1, q, 1); }
    else { assert r == 7; HalfOf(n, 4 * q + 3, 2 * q + 1, 1); }
  }

  lemma HalfOf(n: nat, v: nat, u: nat, b: nat)
    requires n == 2 * v + 1 && v == 2 * u + b && b < 2
    ensures (n - 1) / 2 == v && v / 2 == u && v % 2 == b
  {}

  /** bn is 1 modulo 8: 2^((bn-1)/4) must be 1 or -1. */
  method QuarterPower(bn: BigNum, e: BigNum, a: BigNum) returns (ok: bool, j: nat, k: nat)
    requires Separate(bn, e, a) && bn.Value() > 1 && e.Value() == bn.Value() - 1 && e.Value() % 8 == 0
    modifies e, e.ptr, a, a.ptr, bn.ptr
    ensures Separate(bn, e, a) && bn.ptr[..] == old(bn.ptr[..]) && bn.Value() == old(bn.Value())
    ensures (e.ptr == old(e.ptr) || fresh(e.ptr)) && (a.ptr == old(a.ptr) || fresh(a.ptr))
    ensures Staged(bn.Value(), ok, j, e.Value(), k)
  {
    hide Pow, WordLen, Staged, Val, Magnitude, Shifted, PowMod, Raised;
    ghost var n: nat := bn.Value();
    ShiftedTwice(n - 1);
    Eighths(n);
    e.RShift(2);
    ghost var v: nat := e.Value();
    var one, minusOne := UnitPower(bn, e, a, true);
    ok, j, k := one || minusOne, if one then 0 else 1, 2;
    if ok {
      k := e.MakeOdd();
      k := k + 2;
    }
    QuarterCases(n, v, PowMod(2, v, n), ok, j, e.Value(), k);
  }

  lemma Eighths(n: nat)
    requires n > 0 && (n - 1) % 8 == 0
    ensures n % 8 == 1 && n % 2 == 1 && (n > 1 ==> (n - 1) / 4 > 0 && n > 2)
  {
    var q := (n - 1) / 8;
    assert n == 8 * q + 1;
    DivModUnique(n, 8, q, 1);
    DivModUnique(n, 2, 4 * q, 1);
    DivModUnique(n - 1, 4, 2 * q, 0);
  }

  lemma PowFour()
    ensures Pow(2, 2) == 4
  {}

  lemma QuarterCases(n: nat, v: nat, x: nat, ok: bool, j: nat, odd: nat, k: nat)
    requires n > 1 && n % 8 == 1 && v == (n - 1) / 4 && x == PowMod(2, v, n) && (ok <==> x == 1 || x + 1 == n)
    requires j == if x == 1 then 0 else 1
    requires ok ==> k >= 2 && odd % 2 == 1 && v == Raised(odd, k - 2)
    ensures Staged(n, ok, j, odd, k)
  {
    hide PowMod;
    if ok {
      PowFour();
      PowAdd(2, 2, k - 2);
      hide Pow;
      assert n - 1 == 4 * v;
      assert 4 * (odd * Pow(2, k - 2)) == odd * (4 * Pow(2, k - 2));
    }
  }

  // ---- confirmation ----

  method StrongTest(bn: BigNum, e: BigNum, a: BigNum, base: word, k: nat) returns (pass: bool)
    requires Separate(bn, e, a) && bn.Value() > 2 && bn.Value() % 2 == 1 && k > 0
    requires 32 * WordLen(e.Value()) < B && 0 < base && (base == 2 ==> e.Value() > 0)
    modifies a, a.ptr, bn.ptr
    ensures Separate(bn, e, a) && bn.ptr[..] == old(bn.ptr[..]) && bn.Value() == old(bn.Value())
    ensures a.ptr == old(a.ptr) || fresh(a.ptr)
    ensures pass <==> Strong(bn.Value(), base, e.Value(), k)
    ensures e.Value() > 0 && (e.Value() == 1 ==> base < bn.Value()) ==>
      (pass <==> StrongTo(bn.Value(), base, e.Value(), k))
  {
    hide Pow, WordLen, Squared, Val, Magnitude, StrongTo;
    ghost var n: nat := bn.Value();
    if e.Value() > 0 && (e.Value() == 1 ==> base < n) { StrongMeans(n, base, e.Value(), k); }
    a.SetQ(base);
    SmallWordLen(base, n);
    ghost var ev := e.Value();
    var fine := a.ExpModOf(a, e, bn);
    assert e.Value() == ev;
    ghost var x: nat := a.Value();
    var bits := a.BitLength();
    if bits == 1 { return true; }
    SquaredStart(x, n);
    pass := StrongLoop(bn, a, k, n, x);
  }

  /** Squares until -1 is met, at most k - 1 times. */
  method StrongLoop(bn: BigNum, a: BigNum, k: nat, ghost n: nat, ghost x: nat) returns (pass: bool)
    requires bn.Valid() && a.Valid() && bn != a && bn.ptr != a.ptr && bn.Value() == n > 2 && k > 0
    requires a.Value() == x == Squared(x, 0, n) != 1
    modifies a, a.ptr, bn.ptr
    ensures a.Valid() && bn.ptr[..] == old(bn.ptr[..]) && (a.ptr == old(a.ptr) || fresh(a.ptr))
    ensures pass <==> Reaches(x, k, n)
  {
    hide Pow, WordLen, Squared, Val, Magnitude;
    var l := k;
    while true
      invariant bn.Valid() && a.Valid() && bn.ptr != a.ptr && bn.ptr[..] == old(bn.ptr[..]) && bn.Value() == n
      invariant a.ptr == old(a.ptr) || fresh(a.ptr)
      invariant 0 < l <= k && a.Value() == Squared(x, k - l, n) != 1
      invariant forall i :: 0 <= i < k - l ==> Squared(x, i, n) != n - 1
      decreases l
    {
      pass := IsMinusOne(bn, a);
      if pass { break; }
      l := l - 1;
      if l == 0 { break; }
      SquareBack(bn, a);
      SquaredNext(x, k - l, n);
      var bits := a.BitLength();
      if bits == 1 {
        SquaredOnes(x, k - l, k, n);
        break;
      }
    }
  }

  /** Undoes the increment and squares modulo bn. */
  method SquareBack(bn: BigNum, a: BigNum)
    requires bn.Valid() && a.Valid() && bn != a && bn.ptr != a.ptr && bn.Value() > 0 && a.Value() > 0
    modifies a, a.ptr, bn.ptr
    ensures a.Valid() && (a.ptr == old(a.ptr) || fresh(a.ptr)) && bn.ptr[..] == old(bn.ptr[..])
      && bn.Value() == old(bn.Value())
    ensures a.Value() == ((old(a.Value()) - 1) * (old(a.Value()) - 1)) % bn.Value()
  {
    hide Val, Magnitude;
    var neg := a.SubQ(1);
    a.SquareOf(a);
    a.ModOf(a, bn);
  }

  lemma SmallWordLen(base: word, n: nat)
    requires 0 < base && n > 0
    ensures WordLen(base) <= WordLen(n)
  {
    DivModUnique(base, B, 0, base);
  }

  lemma SquaredStart(x: nat, n: nat)
    requires n > 0
    ensures Squared(x, 0, n) == x
  {}

  lemma SquaredNext(x: nat, i: nat, n: nat)
    requires n > 0 && i > 0
    ensures Squared(x, i, n) == (Squared(x, i - 1, n) * Squared(x, i - 1, n)) % n
  {}

  /** Once 1 is reached, -1 is never met. */
  lemma {:induction false} SquaredOnes(x: nat, i: nat, j: nat, n: nat)
    requires n > 2 && Squared(x, i, n) == 1
    ensures forall m :: i <= m < j ==> Squared(x, m, n) != n - 1
    decreases j - i
  {
    if i < j {
      DivModUnique(1, n, 0, 1);
      SquaredOnes(x, i + 1, j, n);
    }
  }

  /** Confirm[i] is the first of the bases tried to which n fails the strong test. */
  ghost predicate FirstFailure(n: nat, i: nat)
    requires n > 0
  {
    && FirstBase(n) <= i < |Confirm| && !Strong(n, Confirm[i], OddPart(n - 1), Twos(n - 1))
    && forall b :: FirstBase(n) <= b < i ==> Strong(n, Confirm[b], OddPart(n - 1), Twos(n - 1))
  }

  /**
   * The whole test.  0 means that bn is taken for a prime; otherwise the result is the number of
   * exponentiations that were made, which exps counts.
   */
  method Test(bn: BigNum, e: BigNum, a: BigNum) returns (r: nat, ghost exps: nat)
    requires Separate(bn, e, a) && bn.Value() > 2 && bn.Value() % 2 == 1 && 32 * WordLen(bn.Value()) < B
    modifies e, e.ptr, a, a.ptr, bn.ptr
    ensures Separate(bn, e, a) && bn.ptr[..] == old(bn.ptr[..]) && bn.Value() == old(bn.Value())
    ensures (e.ptr == old(e.ptr) || fresh(e.ptr)) && (a.ptr == old(a.ptr) || fresh(a.ptr))
    ensures r == 0 <==> Accepts(bn.Value())
    ensures r != 0 ==> r == exps
    ensures r == 1 <==> !FirstOk(bn.Value())
    ensures r > 1 ==> FirstFailure(bn.Value(), r - 2 + FirstBase(bn.Value()))
  {
    hide Pow, WordLen, Val, Magnitude, Strong, FirstOk, FirstBase, Raised, OddPart, Twos;
    ghost var n: nat := bn.Value();
    var ok, j, k := FirstStage(bn, e, a);
    StagedMeans(n, ok, j, e.Value(), k);
    exps := 1;
    if !ok { return 1, exps; }
    WordLenMonotone(e.Value(), n);
    ghost var ev: nat := e.Value();
    var i := j;
    while i < |Confirm|
      invariant j <= i <= |Confirm| && exps == 1 + i - j
      invariant Separate(bn, e, a) && bn.ptr[..] == old(bn.ptr[..]) && bn.Value() == n && e.Value() == ev
      invariant (e.ptr == old(e.ptr) || fresh(e.ptr)) && (a.ptr == old(a.ptr) || fresh(a.ptr))
      invariant forall b :: j <= b < i ==> Strong(n, Confirm[b], ev, k)
    {
      exps := exps + 1;
      var pass := StrongTest(bn, e, a, Confirm[i], k);
      if !pass { return i + 2 - j, exps; }
      i := i + 1;
    }
    r := 0;
  }

  lemma StagedMeans(n: nat, ok: bool, j: nat, v: nat, k: nat)
    requires Staged(n, ok, j, v, k)
    ensures n > 0 && (ok <==> FirstOk(n))
    ensures ok ==> j == FirstBase(n) && j <= 1 && k > 0 && 0 < v < n && v == OddPart(n - 1) && k == Twos(n - 1)
  {
    if ok {
      OddPartUnique(v, k);
      Scale(1, Pow(2, k), v);
    }
  }

  lemma {:induction false} OddPartUnique(v: nat, k: nat)
    requires v % 2 == 1
    ensures Raised(v, k) > 0 && OddPart(Raised(v, k)) == v && Twos(Raised(v, k)) == k
  {
    if k > 0 {
      OddPartUnique(v, k - 1);
      RaisedNext(v, k);
      hide Raised;
    }
  }

  lemma RaisedNext(v: nat, k: nat)
    requires k > 0
    ensures Raised(v, k) == 2 * Raised(v, k - 1)
  {
    assert v * (2 * Pow(2, k - 1)) == 2 * (v * Pow(2, k - 1));
  }

  lemma {:induction false} OddPartSplits(x: nat)
    requires x > 0
    ensures OddPart(x) % 2 == 1 && x == Raised(OddPart(x), Twos(x))
  {
    if x % 2 == 0 {
      OddPartSplits(x / 2);
      var v, k := OddPart(x / 2), Twos(x / 2);
      assert v * (2 * Pow(2, k)) == 2 * (v * Pow(2, k));
    }
  }

  // ---- what the test means ----

  /** The k-th squaring is the 2^k-th power. */
  lemma {:induction false} SquaredPower(x: nat, k: nat, n: nat)
    requires n > 0
    ensures Cong(Squared(x, k, n), Pow(x, Pow(2, k)), n)
  {
    if k == 0 {
      PowAt0(x);
      CongFrom(x, x, 0, n);
    } else {
      SquaredPower(x, k - 1, n);
      var y, z := Squared(x, k - 1, n), Pow(x, Pow(2, k - 1));
      CongMul(y, z, y, z, n);
      CongMod(y * y, n);
      PowAdd(x, Pow(2, k - 1), Pow(2, k - 1));
    }
  }

  lemma {:induction false} SquaredBelow(x: nat, k: nat, n: nat)
    requires n > 0 && x < n
    ensures Squared(x, k, n) < n
  {}

  /** From a k-th squaring that is 1, modulo a prime: a -1 was passed, or the start was 1. */
  lemma {:induction false} RootsDown(x: nat, k: nat, p: nat)
    requires Prime(p) && p > 2 && x < p && Squared(x, k, p) == 1
    ensures x == 1 || Reaches(x, k, p)
  {
    if k > 0 {
      var y := Squared(x, k - 1, p);
      SquaredBelow(x, k - 1, p);
      DivModUnique(1, p, 0, 1);
      RootsOfOne(y, p);
      CongSmall2(y, p);
      if y == 1 {
        RootsDown(x, k - 1, p);
        if Reaches(x, k - 1, p) {
          var i :| 0 <= i < k - 1 && Squared(x, i, p) == p - 1;
          assert Squared(x, i, p) == p - 1;
        }
      } else {
        assert Squared(x, k - 1, p) == p - 1;
      }
    }
  }

  lemma CongSmall2(y: nat, p: nat)
    requires p > 1 && y < p && (Cong(y, 1, p) || Cong(y, -1, p))
    ensures y == 1 || y == p - 1
  {
    DivModUnique(1, p, 0, 1);
    DivModUnique(-1, p, -1, p - 1);
    DivModUnique(y, p, 0, y);
  }

  /** A prime passes the strong test to every base it does not divide. */
  lemma PrimeIsStrong(p: nat, base: nat, e: nat, k: nat)
    requires Prime(p) && p > 2 && 0 < base < p && e > 0 && p - 1 == Raised(e, k)
    ensures Strong(p, base, e, k)
  {
    ExpResultIsPower(base, e, p);
    var x := ExpResult(base, e, p);
    CongMod(Pow(base, e), p);
    SquaredPower(x, k, p);
    CongPow(x, Pow(base, e), Pow(2, k), p);
    PowMultiply(base, e, Pow(2, k));
    DivModUnique(base, p, 0, base);
    Fermat(base, p);
    SquaredBelow(x, k, p);
    DivModUnique(Squared(x, k, p), p, 0, Squared(x, k, p));
    DivModUnique(1, p, 0, 1);
    RootsDown(x, k, p);
  }

  /** A number fails the strong test to a base it divides. */
  lemma DividedBaseFails(n: nat, e: nat, k: nat)
    requires n > 2 && e > 0
    ensures !Strong(n, n, e, k)
  {
    var x := ExpResult(n, e, n);
    assert x == n || x == 0 by {
      if e > 1 { DivModUnique(Pow(n, e), n, Pow(n, e - 1), 0); }
    }
    forall i | 0 <= i < k ensures Squared(x, i, n) != n - 1 {
      SquaredMultiple(x, i, n);
    }
  }

  lemma {:induction false} SquaredMultiple(x: nat, i: nat, n: nat)
    requires n > 0 && (x == n || x == 0)
    ensures Squared(x, i, n) == x || Squared(x, i, n) == 0
  {
    if i > 0 {
      SquaredMultiple(x, i - 1, n);
      var y := Squared(x, i - 1, n);
      DivModUnique(y * y, n, if y == 0 then 0 else n, 0);
    }
  }

  /** Of the odd primes, the test accepts exactly those greater than all its bases: no larger prime is rejected. */
  lemma PrimeVerdict(p: nat)
    requires Prime(p) && p % 2 == 1
    ensures Accepts(p) <==> p > 17
  {
    OddPartSplits(p - 1);
    if p > 17 {
      PrimeFirstOk(p);
      forall i | FirstBase(p) <= i < |Confirm| ensures Strong(p, Confirm[i], OddPart(p - 1), Twos(p - 1)) {
        PrimeIsStrong(p, Confirm[i], OddPart(p - 1), Twos(p - 1));
      }
    } else {
      SmallPrimes(p);
      var i :| 1 <= i < |Confirm| && Confirm[i] == p;
      DividedBaseFails(p, OddPart(p - 1), Twos(p - 1));
      assert !Strong(p, Confirm[i], OddPart(p - 1), Twos(p - 1));
    }
  }

  lemma SmallPrimes(p: nat)
    requires Prime(p) && p % 2 == 1 && p <= 17
    ensures exists i :: 1 <= i < |Confirm| && Confirm[i] == p
  {
    assert p == 9 || p == 15 ==> Divides(3, p);
    assert Confirm[1] == 3 && Confirm[2] == 5 && Confirm[3] == 7 && Confirm[4] == 11 && Confirm[5] == 13
      && Confirm[6] == 17;
  }

  /** The first stage: Euler's criterion, or a square root of it. */
  lemma PrimeFirstOk(p: nat)
    requires Prime(p) && p % 2 == 1 && p > 2
    ensures FirstOk(p)
  {
    hide Pow, Cong, PowMod, Prime, FirstExponent;
    EulerForTwo(p);
    ExponentCases(p);
    var f := FirstExponent(p);
    var x := PowMod(2, f, p);
    PowModCong(2, f, p);
    if p % 8 == 1 {
      SquareOfPower(f, x, p);
      CongTrans(x * x, Pow(2, f + f), 1, p);
      RootsOfOne(x, p);
      CongSmall2(x, p);
    } else {
      var s := if p % 8 == 7 then 1 else -1;
      CongTrans(x, Pow(2, f), s, p);
      UnitOf(x, s, p);
    }
  }

  lemma PowModCong(b: nat, e: nat, n: nat)
    requires n > 0
    ensures Cong(PowMod(b, e, n), Pow(b, e), n) && PowMod(b, e, n) < n
  {
    CongMod(Pow(b, e), n);
  }

  lemma SquareOfPower(f: nat, x: nat, n: nat)
    requires n > 0 && Cong(x, Pow(2, f), n)
    ensures Cong(x * x, Pow(2, f + f), n)
  {
    CongMul(x, Pow(2, f), x, Pow(2, f), n);
    PowAdd(2, f, f);
  }

  lemma UnitOf(x: nat, s: int, n: nat)
    requires n > 1 && x < n && (s == 1 || s == -1) && Cong(x, s, n)
    ensures x == if s == 1 then 1 else n - 1
  {
    DivModUnique(1, n, 0, 1);
    DivModUnique(-1, n, -1, n - 1);
    DivModUnique(x, n, 0, x);
  }

  /**
   * What the test accepts are the numbers that pass its first stage and the strong test to all seven bases: where base
   * 2 is left out of the strong tests, the first stage has done more than its strong test.
   */
  lemma AcceptedIsStrong(n: nat)
    requires n > 2 && n % 2 == 1
    ensures Accepts(n) <==>
      FirstOk(n) && forall i :: 0 <= i < |Confirm| ==> Strong(n, Confirm[i], OddPart(n - 1), Twos(n - 1))
  {
    hide Strong, OddPart, Twos, FirstOk;
    if FirstOk(n) && FirstBase(n) == 1 { BaseTwoStrong(n); }
    assert Confirm[0] == 2;
  }

  lemma BaseTwoStrong(n: nat)
    requires n > 2 && n % 2 == 1 && FirstOk(n) && FirstBase(n) == 1
    ensures Strong(n, 2, OddPart(n - 1), Twos(n - 1))
  {
    hide PowMod, Squared;
    var j := FirstPart(n);
    hide FirstExponent;
    SquaredIsPower(OddPart(n - 1), j, n);
    var x := ExpResult(2, OddPart(n - 1), n);
    if n % 8 == 7 {
      SquaredNone(x, n);
    } else {
      assert Squared(x, j, n) == n - 1;
    }
  }

  lemma SquaredNone(x: nat, n: nat)
    requires n > 0
    ensures Squared(x, 0, n) == x
  {}

  /** The first exponent is the odd part of n - 1, doubled one or two times less often. */
  lemma FirstPart(n: nat) returns (j: nat)
    requires n > 2 && n % 2 == 1
    ensures OddPart(n - 1) > 0 && FirstExponent(n) == Raised(OddPart(n - 1), j) && j < Twos(n - 1)
    ensures n % 8 == 7 ==> j == 0
  {
    hide OddPart, Twos, Raised;
    ExponentCases(n);
    var f := FirstExponent(n);
    Halving(f);
    if n % 8 == 1 { Halving(f + f); }
    OddPartSplits(f);
    OddTwos(f);
    j := Twos(f);
  }

  lemma Halving(x: nat)
    requires x > 0
    ensures OddPart(x + x) == OddPart(x) && Twos(x + x) == Twos(x) + 1
  {}

  lemma OddTwos(x: nat)
    ensures x % 2 == 1 ==> Twos(x) == 0
  {}

  lemma SquaredIsPower(v: nat, j: nat, n: nat)
    requires n > 2 && n % 2 == 1 && v > 0
    ensures Raised(v, j) >= 0 && Squared(ExpResult(2, v, n), j, n) == PowMod(2, Raised(v, j), n)
  {
    hide Pow, Cong, Squared, ExpResult;
    var x := ExpResult(2, v, n);
    TwoIsResult(v, n);
    CongMod(Pow(2, v), n);
    SquaredPower(x, j, n);
    CongPow(x, Pow(2, v), Pow(2, j), n);
    PowMultiply(2, v, Pow(2, j));
    CongTrans(Squared(x, j, n), Pow(x, Pow(2, j)), Pow(Pow(2, v), Pow(2, j)), n);
    SquaredBelow(x, j, n);
    CongSmall(Squared(x, j, n), Pow(2, Raised(v, j)), n);
  }

  /** Whatever the test accepts passes Fermat's test to all its bases. */
  lemma AcceptedIsFermat(n: nat, i: nat)
    requires n > 2 && n % 2 == 1 && Accepts(n) && i < |Confirm|
    ensures Cong(Pow(Confirm[i], n - 1), 1, n)
  {
    hide Strong, Accepts, FirstOk;
    OddPartSplits(n - 1);
    AcceptedIsStrong(n);
    StrongIsFermat(n, Confirm[i], OddPart(n - 1), Twos(n - 1));
  }

  lemma ExponentCases(n: nat)
    requires n > 2 && n % 2 == 1
    ensures var f := FirstExponent(n);
      if n % 8 == 1 then f + f == (n - 1) / 2 && f + f + (f + f) == n - 1 else f == (n - 1) / 2 && f + f == n - 1
  {
    if n % 8 == 1 {
      var q := n / 8;
      DivModUnique(n - 1, 4, 2 * q, 0);
      DivModUnique(n - 1, 2, 4 * q, 0);
    } else {
      var q := n / 2;
      DivModUnique(n - 1, 2, q, 0);
    }
  }

  lemma UnitSquare(x: nat, n: nat)
    requires n > 1 && (x == 1 || x == n - 1)
    ensures Cong(x * x, 1, n)
  {
    if x == 1 { CongFrom(1, 1, 0, n); } else {
      assert x * x == 1 + (n - 2) * n;
      CongFrom(x * x, 1, n - 2, n);
    }
  }

  lemma StrongIsFermat(n: nat, base: nat, e: nat, k: nat)
    requires n > 2 && e > 0 && n - 1 == Raised(e, k) && Strong(n, base, e, k)
    ensures Cong(Pow(base, n - 1), 1, n)
  {
    var x := ExpResult(base, e, n);
    PowAt0(base);
    CongMod(Pow(base, e), n);
    var i := if x == 1 then 0 else var i :| 0 <= i < k && Squared(x, i, n) == n - 1; i;
    UnitSquare(Squared(x, i, n), n);
    if x == 1 { CongFrom(1, 1, 0, n); } else {
      CongMod(Squared(x, i, n) * Squared(x, i, n), n);
      i := i + 1;
    }
    assert Cong(Squared(x, i, n), 1, n);
    SquaredStays(x, i, k, n);
    SquaredPower(x, k, n);
    CongPow(x, Pow(base, e), Pow(2, k), n);
    PowMultiply(base, e, Pow(2, k));
  }

  lemma {:induction false} SquaredStays(x: nat, i: nat, k: nat, n: nat)
    requires n > 2 && i <= k && Cong(Squared(x, i, n), 1, n)
    ensures Cong(Squared(x, k, n), 1, n)
    decreases k
  {
    if i < k {
      SquaredStays(x, i, k - 1, n);
      var y := Squared(x, k - 1, n);
      CongMul(y, 1, y, 1, n);
      CongMod(y * y, n);
    }
  }

  // ---- the test in terms of powers alone ----

  ghost function Doubled(d: nat, i: nat): nat {
    Scale(0, d, Pow(2, i));
    d * Pow(2, i)
  }

  /** n is a strong probable prime to base a, where n - 1 = d 2^k with d odd. */
  ghost predicate StrongTo(n: nat, a: nat, d: nat, k: nat)
    requires n > 0
  {
    Cong(Pow(a, d), 1, n) || exists i: nat :: i < k && Cong(Pow(a, Doubled(d, i)), -1, n)
  }

  /** n is an Euler probable prime to base 2; for n = 1 modulo 8 the square root of Euler's power must be 1 or -1. */
  ghost predicate EulerTo2(n: nat)
    requires n > 0
  {
    if n % 8 == 7 then Cong(Pow(2, (n - 1) / 2), 1, n)
    else if n % 8 == 1 then Cong(Pow(2, (n - 1) / 4), 1, n) || Cong(Pow(2, (n - 1) / 4), -1, n)
    else Cong(Pow(2, (n - 1) / 2), -1, n)
  }

  /** A reduced number is 1 or n - 1 exactly if what it is congruent to is congruent to 1 or -1. */
  lemma UnitIff(x: nat, y: int, n: nat)
    requires n > 2 && x < n && Cong(x, y, n)
    ensures (x == 1 <==> Cong(y, 1, n)) && (x == n - 1 <==> Cong(y, -1, n))
  {
    DivModUnique(x, n, 0, x);
    DivModUnique(1, n, 0, 1);
    DivModUnique(-1, n, -1, n - 1);
  }

  lemma FirstOkMeans(n: nat)
    requires n > 2 && n % 2 == 1
    ensures FirstOk(n) <==> EulerTo2(n)
  {
    hide Pow, Cong, PowMod;
    PowModCong(2, FirstExponent(n), n);
    UnitIff(PowMod(2, FirstExponent(n), n), Pow(2, FirstExponent(n)), n);
  }

  lemma SquaredMeans(x: nat, a: nat, d: nat, i: nat, n: nat)
    requires n > 2 && x < n && Cong(x, Pow(a, d), n)
    ensures Squared(x, i, n) == n - 1 <==> Cong(Pow(a, Doubled(d, i)), -1, n)
  {
    hide Pow, Cong, Squared;
    SquaredPower(x, i, n);
    CongPow(x, Pow(a, d), Pow(2, i), n);
    PowMultiply(a, d, Pow(2, i));
    CongTrans(Squared(x, i, n), Pow(x, Pow(2, i)), Pow(a, Doubled(d, i)), n);
    SquaredBelow(x, i, n);
    UnitIff(Squared(x, i, n), Pow(a, Doubled(d, i)), n);
  }

  /** What one strong test decides; the power of an exponent of 1 is the base itself, which has to be reduced. */
  lemma StrongMeans(n: nat, a: nat, d: nat, k: nat)
    requires n > 2 && d > 0 && (d == 1 ==> a < n)
    ensures Strong(n, a, d, k) <==> StrongTo(n, a, d, k)
  {
    hide Pow, Squared;
    var x := ExpResult(a, d, n);
    ExpResultIsPower(a, d, n);
    CongMod(Pow(a, d), n);
    hide Cong, ExpResult;
    UnitIff(x, Pow(a, d), n);
    forall i: nat ensures Squared(x, i, n) == n - 1 <==> Cong(Pow(a, Doubled(d, i)), -1, n) {
      SquaredMeans(x, a, d, i, n);
    }
  }

  /** A number is no strong probable prime to itself. */
  lemma NotToItself(n: nat, d: nat, k: nat)
    requires n > 2 && d > 0
    ensures !StrongTo(n, n, d, k)
  {
    DivModUnique(1, n, 0, 1);
    DivModUnique(-1, n, -1, n - 1);
    PowDivided(n, d);
    forall i: nat ensures !Cong(Pow(n, Doubled(d, i)), -1, n) {
      Scale(1, d, Pow(2, i));
      PowDivided(n, Doubled(d, i));
    }
  }

  lemma PowDivided(n: nat, e: nat)
    requires n > 0 && e > 0
    ensures Pow(n, e) % n == 0
  {
    DivModUnique(Pow(n, e), n, Pow(n, e - 1), 0);
  }

  /** What the whole test decides. */
  lemma AcceptsMeans(n: nat, d: nat, k: nat)
    requires n > 2 && n % 2 == 1 && d % 2 == 1 && n - 1 == d * Pow(2, k)
    ensures Accepts(n) <==>
      && EulerTo2(n) && StrongTo(n, 2, d, k) && StrongTo(n, 3, d, k) && StrongTo(n, 5, d, k) && StrongTo(n, 7, d, k)
      && StrongTo(n, 11, d, k) && StrongTo(n, 13, d, k) && StrongTo(n, 17, d, k)
  {
    hide EulerTo2, StrongTo, Strong, FirstOk, Accepts, Pow, OddPart, Twos;
    OddPartUnique(d, k);
    FirstOkMeans(n);
    AcceptedIsStrong(n);
    assert Confirm[0] == 2 && Confirm[1] == 3 && Confirm[2] == 5 && Confirm[3] == 7 && Confirm[4] == 11;
    assert Confirm[5] == 13 && Confirm[6] == 17;
    if n > 17 || d > 1 {
      StrongMeans(n, 2, d, k);
      StrongMeans(n, 3, d, k);
      StrongMeans(n, 5, d, k);
      StrongMeans(n, 7, d, k);
      StrongMeans(n, 11, d, k);
      StrongMeans(n, 13, d, k);
      StrongMeans(n, 17, d, k);
    } else {
      NotToItself(n, d, k);
      DividedBaseFails(n, d, k);
      if n == 9 || n == 15 { NineAndFifteen(); } else { assert n in {3, 5, 7, 11, 13, 17}; }
    }
  }

  lemma NineAndFifteen()
    ensures !EulerTo2(9) && !EulerTo2(15)
  {
    assert Pow(2, 2) == 4 && Pow(2, 7) == 128;
  }

  // ---- a composite number that passes Fermat's test ----

  lemma PowCong(a: int, e: nat, r: int, m: nat, p: int)
    requires p > 0 && Cong(Pow(a, e), r, p)
    ensures e * m >= 0 && Cong(Pow(a, e * m), Pow(r, m), p)
  {
    hide Pow, Cong;
    PowMultiply(a, e, m);
    CongPow(Pow(a, e), r, m, p);
  }

  lemma {:induction false} PowOfOne(m: nat)
    ensures Pow(1, m) == 1 && Pow(-1, m) == if m % 2 == 0 then 1 else -1
  {
    if m > 0 { PowOfOne(m - 1); }
  }

  /** A congruence holds modulo a divisor of the modulus. */
  lemma CongDown(x: int, y: int, p: int, q: int)
    requires p > 0 && q > 0 && p * q > 0 && Cong(x, y, p * q)
    ensures Cong(x, y, p)
  {
    var k := CongWitness(x, y, p * q);
    Exchange(k, p, q);
    CongFrom(x, y, k * q, p) by { assert k * (p * q) == k * q * p; }
  }

  /** A number below 121 that 2, 3, 5 and 7 do not divide is prime. */
  lemma PrimeBelow121(p: nat)
    requires 1 < p < 121 && p % 2 != 0 && p % 3 != 0 && p % 5 != 0 && p % 7 != 0
    ensures Prime(p)
  {
    forall d | 1 < d < p ensures !Divides(d, p) {
      if Divides(d, p) {
        var k := DividesWitness(d, p);
        if k <= 1 { Scale(k, 1, d); }
        if d > 10 && k > 10 { Scale(11, k, d); }
        if d > 10 {
          Exchange(k, d, 1);
          DividesFrom(k, p, d);
          NotSmall(k, p);
        } else {
          NotSmall(d, p);
        }
      }
    }
  }

  lemma NotSmall(c: nat, p: nat)
    requires 1 < c <= 10 && p % 2 != 0 && p % 3 != 0 && p % 5 != 0 && p % 7 != 0
    ensures !Divides(c, p)
  {
    if Divides(c, p) {
      var k := DividesWitness(c, p);
      if c % 2 == 0 {
        Associate(k, c / 2, 2);
        DividesFrom(2, p, k * (c / 2));
      } else if c % 3 == 0 {
        Associate(k, c / 3, 3);
        DividesFrom(3, p, k * (c / 3));
      }
    }
  }

  /** Divisible by two different primes means divisible by their product. */
  lemma BothDivide(x: int, y: int, p: int, q: int)
    requires p > 1 && Prime(p) && q > 1 && q % p != 0 && Cong(x, y, p) && Cong(x, y, q)
    ensures p * q > 0 && Cong(x, y, p * q)
  {
    var k := CongWitness(x, y, q);
    CongAdd(x, y, y, y, p);
    assert Divides(p, k * q) by { assert x - y == k * q; DivModUnique(0, p, 0, 0); }
    if k % p != 0 { PrimeProduct(k, q, p); }
    var j := DividesWitness(p, k);
    assert j * p * q == j * (p * q);
    Scale(1, p, q);
    CongFrom(x, y, j, p * q);
  }

  lemma FermatMultiple(a: int, p: int, m: nat)
    requires p > 1 && Prime(p) && a % p != 0
    ensures (p - 1) * m >= 0 && Cong(Pow(a, (p - 1) * m), 1, p)
  {
    Fermat(a, p);
    PowCong(a, p - 1, 1, m, p);
    PowOfOne(m);
  }

  /** 252601 = 41 * 61 * 101 passes Fermat's test to every base that none of the three divides. */
  lemma Carmichael(a: nat)
    requires a % 41 != 0 && a % 61 != 0 && a % 101 != 0
    ensures Cong(Pow(a, 252600), 1, 252601)
  {
    PrimeBelow121(41);
    PrimeBelow121(61);
    PrimeBelow121(101);
    hide Pow, Cong, Prime;
    FermatMultiple(a, 41, 6315);
    FermatMultiple(a, 61, 4210);
    FermatMultiple(a, 101, 2526);
    BothDivide(Pow(a, 252600), 1, 41, 61);
    BothDivide(Pow(a, 252600), 1, 101, 2501);
  }

  /** It is rejected all the same, since the strong test to base 3 fails. */
  lemma CarmichaelRejected()
    ensures 252601 == 41 * 61 * 101 && !Accepts(252601)
  {
    hide Accepts, Pow, StrongTo, EulerTo2;
    PowEight();
    AcceptsMeans(252601, 31575, 3);
    ThreeFails();
  }

  lemma PowEight()
    ensures Pow(2, 0) == 1 && Pow(2, 1) == 2 && Pow(2, 2) == 4 && Pow(2, 3) == 8
  {}

  lemma ThreeFails()
    ensures !StrongTo(252601, 3, 31575, 3)
  {
    hide Pow, Cong;
    PowEight();
    Modulo41();
    Modulo61();
    assert Doubled(31575, 0) == 31575 && Doubled(31575, 1) == 63150 && Doubled(31575, 2) == 126300;
    if Cong(Pow(3, 31575), 1, 252601) { CongDown(Pow(3, 31575), 1, 41, 6161); }
    forall i: nat | i < 3 ensures !Cong(Pow(3, Doubled(31575, i)), -1, 252601) {
      if Cong(Pow(3, Doubled(31575, i)), -1, 252601) {
        CongDown(Pow(3, Doubled(31575, i)), -1, 41, 6161);
        CongDown(Pow(3, Doubled(31575, i)), -1, 61, 4141);
      }
    }
  }

  /** 3^4 is -1 modulo 41, so that 3^31575 is -27 and its square is 729. */
  lemma Modulo41()
    ensures !Cong(Pow(3, 31575), 1, 41) && !Cong(Pow(3, 31575), -1, 41) && !Cong(Pow(3, 63150), -1, 41)
  {
    PowersOf3();
    CongFrom(81, -1, 2, 41);
    PowCong(3, 4, -1, 7893, 41);
    PowOfOne(7893);
    PowAdd(3, 31572, 3);
    PowAdd(3, 31575, 31575);
    CongFrom(27, 27, 0, 41);
    CongMul(Pow(3, 31572), -1, 27, 27, 41);
    CongMul(Pow(3, 31575), -27, Pow(3, 31575), -27, 41);
    hide Pow;
    assert -27 % 41 == 14 && 1 % 41 == 1 && -1 % 41 == 40 && 729 % 41 == 32;
  }

  /** 3^10 is 1 modulo 61, so that 3^126300 is 1. */
  lemma Modulo61()
    ensures !Cong(Pow(3, 126300), -1, 61)
  {
    PowersOf3();
    CongFrom(59049, 1, 968, 61);
    PowCong(3, 10, 1, 12630, 61);
    PowOfOne(12630);
    hide Pow;
    assert 1 % 61 == 1 && -1 % 61 == 60;
  }

  lemma PowersOf3()
    ensures Pow(3, 3) == 27 && Pow(3, 4) == 81 && Pow(3, 10) == 59049
  {
    assert Pow(3, 5) == 243;
    PowAdd(3, 5, 5);
  }
}
