/** One pass of the prime search: sieve a window of odd numbers and test the survivors in shuffled order. */
module PrimeSearch {
  import opened Arith
  import opened Words
  import opened Euclid
  import opened NumberTheory
  import opened BigNumber
  import opened SieveBits
  import opened Sieve
  import opened PrimeTest
  import LbnExp

  const SIEVE := 2048
  const SHUFFLE := 256

  /** Adds x * y, at most 65535 at a time. */
  method AddMult(bn: BigNum, x: nat, y: nat)
    requires bn.Valid()
    modifies bn, bn.ptr
    ensures bn.Valid() && (bn.ptr == old(bn.ptr) || fresh(bn.ptr)) && bn.Value() == old(bn.Value()) + x * y
  {
    hide LbnExp.Magnitude, Val;
    var z := x * y;
    while z > 65535
      invariant 0 <= z && bn.Valid() && (bn.ptr == old(bn.ptr) || fresh(bn.ptr))
        && bn.Value() + z == old(bn.Value()) + x * y
    {
      bn.AddQ(65535);
      z := z - 65535;
    }
    bn.AddQ(z);
  }

  method SubMult(bn: BigNum, x: nat, y: nat)
    requires bn.Valid() && x * y <= bn.Value()
    modifies bn, bn.ptr
    ensures bn.Valid() && (bn.ptr == old(bn.ptr) || fresh(bn.ptr)) && bn.Value() == old(bn.Value()) - x * y
  {
    hide LbnExp.Magnitude, Val;
    var z := x * y;
    while z > 65535
      invariant bn.Valid() && 0 <= z <= bn.Value() && (bn.ptr == old(bn.ptr) || fresh(bn.ptr))
        && bn.Value() - z == old(bn.Value()) - x * y
    {
      var neg := bn.SubQ(65535);
      z := z - 65535;
    }
    var neg := bn.SubQ(z);
  }

  /** What the search accepts as an exponent. */
  type exponent = t: int | 0 < t < 65536 && t % 2 == 1 witness 1

  ghost predicate OneModulo(n: nat, t: exponent) {
    Cong(n, 1, t)
  }

  /** The candidates that an exponent removes; for exponent 1 the first one is left. */
  ghost predicate Excluded(k: nat, n: nat, t: exponent) {
    if t == 1 then k >= 1 else OneModulo(n + 2 * k, t)
  }

  /**
   * The candidates to remove are those that are 1 modulo the exponent, since they have no inverse exponent.  Exactly
   * they are removed, for every exponent but 1: every number is 1 modulo 1, and the first candidate stays.
   */
  lemma ExclusionIsExact(n: nat, t: exponent)
    ensures (forall k: nat :: Excluded(k, n, t) <==> OneModulo(n + 2 * k, t)) <==> t > 1
    ensures forall k: nat :: Excluded(k, n, t) ==> OneModulo(n + 2 * k, t)
  {
    hide Cong;
    if t == 1 {
      forall k: nat ensures OneModulo(n + 2 * k, t) {
        CongFrom(n + 2 * k, 1, n + 2 * k - 1, 1);
      }
      assert !Excluded(0, n, t) && OneModulo(n + 2 * 0, t);
    }
  }

  /** Removes the candidates that an exponent excludes. */
  method SieveExponent(sieve: array<byte>, bn: BigNum, t: exponent, ghost n: nat)
    requires bn.Valid() && bn.Value() == n
    modifies sieve
    ensures Cleared(sieve[..], old(sieve[..]), (k: nat) => Excluded(k, n, t))
  {
    hide BitSet, Hit, Cong, Excluded;
    var r := bn.Residue(t);
    var i := HalfOfOneMinus(r, t, n);
    forall k: nat ensures Hit(k, i, t) <==> Excluded(k, n, t) {
      HitIsExcluded(n, k, i, t);
    }
    Single(sieve, i, t);
  }

  /** (1 - r) / 2 modulo t, which comes out as 1 and not as 0 for t = 1. */
  method HalfOfOneMinus(r: nat, t: exponent, ghost n: nat) returns (i: nat)
    requires r == n % t
    ensures Cong(2 * i, 1 - n, t) && if t == 1 then i == 1 else i < t
  {
    CongMod(n, t);
    hide Cong;
    i := r;
    if i == 0 {
      i := 1;
    } else {
      i := i - 1;
      if i != 0 { i := t - i; }
    }
    CongFrom(i, 1 - r, if r <= 1 then 0 else 1, t);
    CongFrom(1, 1, 0, t);
    CongAdd(1, 1, r, n, t);
    CongTrans(i, 1 - r, 1 - n, t);
    ghost var m := i;
    i := if i % 2 == 1 then i / 2 + t / 2 + 1 else i / 2;
    CongFrom(2 * i, m, if m % 2 == 1 then 1 else 0, t);
    CongTrans(2 * i, m, 1 - n, t);
  }

  lemma HitIsExcluded(n: nat, k: nat, i: nat, t: exponent)
    requires Cong(2 * i, 1 - n, t) && if t == 1 then i == 1 else i < t
    ensures Hit(k, i, t) <==> Excluded(k, n, t)
  {
    hide Cong;
    if t == 1 {
      assert forall j: nat :: Place(1, 1, j) == 1 + j;
      if k >= 1 { assert k == Place(1, 1, k - 1); }
    } else {
      HitIsCong(k, i, t);
      HalfIsOne(n, k, i, t);
    }
  }

  lemma HalfIsOne(n: nat, k: nat, i: nat, t: exponent)
    requires Cong(2 * i, 1 - n, t)
    ensures Cong(k, i, t) <==> OneModulo(n + 2 * k, t)
  {
    hide Cong;
    CongFrom(2, 2, 0, t);
    CongFrom(n, n, 0, t);
    if Cong(k, i, t) {
      CongMul(2, 2, k, i, t);
      CongTrans(2 * k, 2 * i, 1 - n, t);
      CongAdd(2 * k, 1 - n, n, n, t);
    }
    if OneModulo(n + 2 * k, t) {
      CongAdd(n + 2 * k, 1, n, n, t);
      CongBack(2 * i, 1 - n, t);
      CongTrans(2 * k, 1 - n, 2 * i, t);
      HalveCong(k, i, t);
    }
  }

  lemma HalveCong(k: int, i: int, t: exponent)
    requires Cong(2 * k, 2 * i, t)
    ensures Cong(k, i, t)
  {
    hide Cong;
    var h := (t + 1) / 2;
    CongFrom(2 * h, 1, 1, t);
    CongCancel(k, i, 2, h, t);
  }

  /** The set bits before p, or all of them once p is 0, each counted once; p itself is the next one. */
  ghost predicate Pool(s: seq<byte>, drawn: multiset<nat>, p: nat) {
    (p != 0 ==> BitSet(s, p)) && forall k: nat :: drawn[k] == if BitSet(s, k) && (p == 0 || k < p) then 1 else 0
  }

  lemma PoolAdd(s: seq<byte>, drawn: multiset<nat>, p: nat, next: nat)
    requires p != 0 && Pool(s, drawn, p) && (next != 0 ==> next > p && BitSet(s, next))
    requires forall j: nat :: p < j && (next == 0 || j < next) ==> !BitSet(s, j)
    ensures Pool(s, drawn + multiset{p}, next)
  {
    hide BitSet;
  }

  lemma BitsEnd(s: seq<byte>, p: nat)
    requires BitSet(s, p)
    ensures p < 8 * |s|
  {}

  /** The bits beyond the array are not set, so that a search that fails leaves nothing. */
  method NextBit(sieve: array<byte>, p: nat) returns (next: nat)
    ensures next != 0 ==> next > p && BitSet(sieve[..], next)
    ensures forall j: nat :: p < j && (next == 0 || j < next) ==> !BitSet(sieve[..], j)
  {
    next := Search(sieve, sieve.Length, p);
    forall j: nat | p < j && (next == 0 || j < next) ensures !BitSet(sieve[..], j) {
      if BitSet(sieve[..], j) { BitsEnd(sieve[..], j); }
    }
  }

  /** Loads the shuffle table: the first set bit, and with shuffling on up to SHUFFLE of them. */
  method LoadTable(sieve: array<byte>, shuffle: bool) returns (offsets: seq<nat>, p: nat)
    requires sieve.Length > 0
    ensures |offsets| <= SHUFFLE && (offsets == [] ==> p == 0) && Pool(sieve[..], multiset(offsets), p)
  {
    offsets, p := [], 0;
    hide Pool;
    var first := BitZero(sieve);
    if !first {
      p := NextBit(sieve, 0);
      PoolStart(sieve[..], p);
      if p != 0 {
        var q := NextBit(sieve, p);
        PoolAdd(sieve[..], multiset(offsets), p, q);
        offsets, p := [p], q;
      }
    } else {
      p := NextBit(sieve, 0);
      PoolZero(sieve[..], p);
      offsets := [0];
    }
    while shuffle && p != 0 && |offsets| < SHUFFLE
      invariant |offsets| <= SHUFFLE && (offsets == [] ==> p == 0) && Pool(sieve[..], multiset(offsets), p)
      decreases SHUFFLE - |offsets|
    {
      var q := NextBit(sieve, p);
      PoolAdd(sieve[..], multiset(offsets), p, q);
      offsets, p := offsets + [p], q;
    }
  }

  method BitZero(sieve: array<byte>) returns (set0: bool)
    requires sieve.Length > 0
    ensures set0 <==> BitSet(sieve[..], 0)
  {
    set0 := sieve[0] & 1 != 0;
    assert Powers[0] == 1;
  }

  lemma PoolStart(s: seq<byte>, p: nat)
    requires !BitSet(s, 0) && (p != 0 ==> BitSet(s, p)) && forall j: nat :: 0 < j && (p == 0 || j < p) ==> !BitSet(s, j)
    ensures Pool(s, multiset([]), p)
  {
    hide BitSet;
  }

  lemma PoolZero(s: seq<byte>, p: nat)
    requires BitSet(s, 0) && (p != 0 ==> BitSet(s, p)) && forall j: nat :: 0 < j && (p == 0 || j < p) ==> !BitSet(s, j)
    ensures Pool(s, multiset([0]), p)
  {
    hide BitSet;
  }

  /**
   * Takes entry j out of the table, replacing it by the next set bit or, when there is none left, by the last entry.
   */
  method Draw(sieve: array<byte>, offsets: seq<nat>, j: nat, p: nat, ghost tried: seq<nat>)
    returns (q: nat, offsets': seq<nat>, p': nat)
    requires j < |offsets| && Pool(sieve[..], multiset(tried) + multiset(offsets), p)
    ensures q < 8 * sieve.Length && Pool(sieve[..], multiset(tried + [q]) + multiset(offsets'), p')
    ensures if p != 0 then |offsets'| == |offsets| && (p' == 0 || p' > p) else p' == 0 && |offsets'| == |offsets| - 1
    ensures p != 0 ==> p < 8 * sieve.Length
  {
    hide BitSet;
    q, p' := offsets[j], p;
    ghost var drawn := multiset(tried) + multiset(offsets);
    assert drawn[q] > 0;
    BitsEnd(sieve[..], q);
    if p != 0 {
      BitsEnd(sieve[..], p);
      p' := NextBit(sieve, p);
      offsets' := offsets[j := p];
      PoolAdd(sieve[..], drawn, p, p');
      assert multiset(tried + [q]) + multiset(offsets') == drawn + multiset{p};
    } else {
      offsets' := RemoveAt(offsets, j);
      assert multiset(tried + [q]) + multiset(offsets') == drawn;
    }
  }

  method RemoveAt(s: seq<nat>, j: nat) returns (s': seq<nat>)
    requires j < |s|
    ensures |s'| == |s| - 1 && multiset(s') == multiset(s) - multiset{s[j]}
  {
    var last := |s| - 1;
    s' := s[j := s[last]][..last];
    assert s[j := s[last]] == s' + [s[last]];
    assert multiset(s[j := s[last]]) == multiset(s) - multiset{s[j]} + multiset{s[last]};
    assert multiset(s' + [s[last]]) == multiset(s') + multiset{s[last]};
    assert multiset(s') == multiset(s' + [s[last]]) - multiset{s[last]};
  }

  /** The numbers tried so far, as offsets in steps of 2 from n0, were rejected. */
  ghost predicate AllRejected(tried: seq<nat>, n0: nat) {
    n0 > 0 && forall q :: q in tried ==> !Accepts(n0 + 2 * q)
  }

  /** The numbers share no storage with each other or with the sieve. */
  ghost predicate Apart(bn: BigNum, e: BigNum, a: BigNum, sieve: array<byte>)
    reads bn, e, a
  {
    Separate(bn, e, a) && bn.ptr as object != sieve && e.ptr as object != sieve && a.ptr as object != sieve
  }

  /** Moves bn from the number at offset prev to the one at offset q. */
  method MoveTo(bn: BigNum, prev: nat, q: nat, ghost n0: nat)
    requires bn.Valid() && bn.Value() == n0 + 2 * prev
    modifies bn, bn.ptr
    ensures bn.Valid() && (bn.ptr == old(bn.ptr) || fresh(bn.ptr)) && bn.Value() == n0 + 2 * q
  {
    if q > prev {
      AddMult(bn, q - prev, 2);
    } else {
      SubMult(bn, prev - q, 2);
    }
  }

  method TryAt(bn: BigNum, e: BigNum, a: BigNum, sieve: array<byte>, prev: nat, q: nat, ghost n0: nat) returns (r: nat)
    requires Apart(bn, e, a, sieve) && bn.Value() == n0 + 2 * prev && n0 % 2 == 1 && n0 > 2 && q < 8 * sieve.Length
    requires 32 * WordLen(n0 + 16 * sieve.Length) < B
    modifies bn, bn.ptr, e, e.ptr, a, a.ptr
    ensures Apart(bn, e, a, sieve) && bn.Value() == n0 + 2 * q
    ensures (fresh(bn.ptr) || bn.ptr == old(bn.ptr)) && (fresh(e.ptr) || e.ptr == old(e.ptr))
      && (fresh(a.ptr) || a.ptr == old(a.ptr))
    ensures r == 0 <==> Accepts(n0 + 2 * q)
  {
    hide Accepts, Val, LbnExp.Magnitude, WordLen;
    MoveTo(bn, prev, q, n0);
    ModOf(n0, q, 2);
    assert n0 + q * 2 == n0 + 2 * q;
    WordLenMonotone(n0 + 2 * q, n0 + 16 * sieve.Length);
    ghost var exps;
    r, exps := Test(bn, e, a);
  }

  /** Draws candidates from the table in any order and tests each, until one is accepted or none is left. */
  method Walk(bn: BigNum, e: BigNum, a: BigNum, sieve: array<byte>, shuffle: bool, ghost n0: nat)
    returns (found: bool, modexps: nat, prev: nat, ghost tried: seq<nat>)
    requires Apart(bn, e, a, sieve) && bn.Value() == n0 && n0 % 2 == 1 && n0 > 2 && sieve.Length > 0
    requires 32 * WordLen(n0 + 16 * sieve.Length) < B
    modifies bn, bn.ptr, e, e.ptr, a, a.ptr
    ensures Apart(bn, e, a, sieve) && bn.Value() == n0 + 2 * prev && prev < 8 * sieve.Length
    ensures (fresh(bn.ptr) || bn.ptr == old(bn.ptr)) && (fresh(e.ptr) || e.ptr == old(e.ptr))
      && (fresh(a.ptr) || a.ptr == old(a.ptr))
    ensures forall k: nat :: multiset(tried)[k] <= 1 && (k in tried ==> BitSet(sieve[..], k))
    ensures found ==>
      tried != [] && prev == tried[|tried| - 1] && Accepts(bn.Value()) && AllRejected(tried[..|tried| - 1], n0)
    ensures !found ==> AllRejected(tried, n0) && forall k: nat :: k in tried <==> BitSet(sieve[..], k)
  {
    hide BitSet, Accepts, Val, LbnExp.Magnitude, WordLen, Pool;
    ghost var bits := sieve[..];
    var offsets, p := LoadTable(sieve, shuffle);
    prev, modexps, tried := 0, 0, [];
    assert multiset(tried) + multiset(offsets) == multiset(offsets);
    while offsets != []
      invariant Apart(bn, e, a, sieve) && bn.Value() == n0 + 2 * prev && prev < 8 * sieve.Length && sieve[..] == bits
      invariant fresh(bn.ptr) || bn.ptr == old(bn.ptr)
      invariant fresh(e.ptr) || e.ptr == old(e.ptr)
      invariant fresh(a.ptr) || a.ptr == old(a.ptr)
      invariant Pool(bits, multiset(tried) + multiset(offsets), p) && AllRejected(tried, n0)
        && (offsets == [] ==> p == 0)
      decreases if p == 0 then 0 else 8 * sieve.Length - p, |offsets|
    {
      // with shuffling on, any entry may be drawn
      var j := 0;
      if shuffle { j :| 0 <= j < |offsets|; }
      var q;
      q, offsets, p := Draw(sieve, offsets, j, p, tried);
      var r := TryAt(bn, e, a, sieve, prev, q, n0);
      prev := q;
      ghost var before := tried;
      tried := tried + [q];
      if r == 0 {
        assert tried[..|tried| - 1] == before;
        PoolTried(bits, tried, offsets, p);
        return true, modexps, prev, tried;
      }
      modexps := modexps + r;
    }
    found := false;
    PoolTried(bits, tried, [], p);
  }

  lemma PoolTried(s: seq<byte>, tried: seq<nat>, offsets: seq<nat>, p: nat)
    requires Pool(s, multiset(tried) + multiset(offsets), p)
    ensures forall k: nat :: multiset(tried)[k] <= 1 && (k in tried ==> BitSet(s, k))
    ensures offsets == [] && p == 0 ==> forall k: nat :: k in tried <==> BitSet(s, k)
  {
    hide BitSet;
    forall k: nat ensures multiset(tried)[k] <= 1 && (k in tried ==> BitSet(s, k)) {
      assert (multiset(tried) + multiset(offsets))[k] <= 1;
      assert k in tried ==> multiset(tried)[k] > 0;
    }
    if offsets == [] && p == 0 {
      forall k: nat ensures k in tried <==> BitSet(s, k) {
        assert (multiset(tried) + multiset(offsets))[k] == multiset(tried)[k];
      }
    }
  }

  /** A candidate of the window that starts at n0: it survives the sieve and no listed exponent excludes it. */
  ghost predicate Eligible(k: nat, n0: nat, exponents: seq<exponent>) {
    k < 8 * SIEVE && Survives(k, n0, 2, 0, 65537) && forall t :: t in exponents ==> !Excluded(k, n0, t)
  }

  /** The candidate is above 2^16 and no listed exponent excludes it. */
  ghost predicate PrimeLeft(k: nat, n0: nat, exponents: seq<exponent>) {
    n0 + 2 * k > 65536 && forall t :: t in exponents ==> !Excluded(k, n0, t)
  }

  /** The window that starts at n0 holds such a prime. */
  ghost predicate HoldsPrime(n0: nat, exponents: seq<exponent>) {
    exists k: nat :: k < 8 * SIEVE && Prime(n0 + 2 * k) && PrimeLeft(k, n0, exponents)
  }

  /**
   * A window is searched for numbers that no odd prime below 2^16 divides and that are 1 modulo no exponent, unless 1
   * is listed: then only its first number is tried.
   */
  lemma EligibleMeans(n0: nat, exponents: seq<exponent>)
    ensures 1 !in exponents ==> forall k: nat :: Eligible(k, n0, exponents) <==>
      && k < 8 * SIEVE && (forall q :: 2 < q < 65537 && Prime(q) ==> (n0 + 2 * k) % q != 0)
      && forall t :: t in exponents ==> (n0 + 2 * k) % t != 1 % t
    ensures 1 in exponents ==> forall k: nat :: Eligible(k, n0, exponents) ==> k == 0
  {
    hide Survives, Prime, Cong;
    forall k: nat
      ensures Survives(k, n0, 2, 0, 65537) <==> forall q :: 2 < q < 65537 && Prime(q) ==> (n0 + 2 * k) % q != 0
    {
      WindowSurvives(k, n0);
    }
    forall k: nat, t | t in exponents ensures t != 1 ==> (Excluded(k, n0, t) <==> (n0 + 2 * k) % t == 1 % t) {
      CongMeans(n0 + 2 * k, 1, t);
    }
    if 1 in exponents {
      var one: exponent := 1;
      assert forall k: nat :: k >= 1 ==> Excluded(k, n0, one);
    }
  }

  lemma CongMeans(x: int, y: int, m: int)
    requires m > 0
    ensures Cong(x, y, m) <==> x % m == y % m
  {}

  lemma WindowSurvives(k: nat, n0: nat)
    ensures Survives(k, n0, 2, 0, 65537) <==> forall q :: 2 < q < 65537 && Prime(q) ==> (n0 + 2 * k) % q != 0
  {
    hide Prime;
    assert Chain(n0 + k * 2, 0) == n0 + 2 * k;
    forall q | 2 < q ensures Removed(k, q, n0, 2, 0) <==> (n0 + 2 * k) % q == 0 {
      DivModUnique(2, q, 0, 2);
      assert Divided(k, q, n0, 2, 0) <==> (n0 + 2 * k) % q == 0;
    }
  }

  method BuildSieve(sieve: array<byte>, bn: BigNum, exponents: seq<exponent>, ghost n0: nat)
    requires sieve.Length == SIEVE && bn.Valid() && bn.ptr as object != sieve && bn.Value() == n0
    modifies sieve
    ensures forall k: nat :: BitSet(sieve[..], k) <==> Eligible(k, n0, exponents)
  {
    hide BitSet, Eligible, Excluded, Val, LbnExp.Magnitude;
    Build(sieve, bn, 2, 0);
    EligibleStart(sieve[..], n0);
    var i := 0;
    assert exponents[..0] == [];
    while i < |exponents|
      invariant 0 <= i <= |exponents| && bn.Valid() && bn.Value() == n0
      invariant forall k: nat :: BitSet(sieve[..], k) <==> Eligible(k, n0, exponents[..i])
    {
      var t := exponents[i];
      assert t in exponents;
      ghost var s := sieve[..];
      SieveExponent(sieve, bn, t, n0);
      assert exponents[..i + 1] == exponents[..i] + [t];
      EligibleNext(n0, exponents[..i], t);
      i := i + 1;
    }
    assert exponents[..i] == exponents;
  }

  lemma EligibleNext(n0: nat, exponents: seq<exponent>, t: exponent)
    ensures forall k: nat :: Eligible(k, n0, exponents + [t]) <==> Eligible(k, n0, exponents) && !Excluded(k, n0, t)
  {
    hide Survives, Excluded;
    assert t in exponents + [t] && forall u :: u in exponents ==> u in exponents + [t];
  }

  lemma EligibleStart(s: seq<byte>, n0: nat)
    requires |s| == SIEVE && Sieved(s, n0, 2, 0, 65537)
    ensures forall k: nat :: BitSet(s, k) <==> Eligible(k, n0, [])
  {
    hide Survives;
    forall k: nat ensures BitSet(s, k) <==> Eligible(k, n0, []) {
      if BitSet(s, k) { BitsEnd(s, k); }
    }
  }

  /**
   * One pass of the search.  Each eligible candidate is tried at most once; either the last one tried is accepted, or
   * all of them were tried and rejected and bn is moved to the next window.
   */
  method Pass(bn: BigNum, e: BigNum, a: BigNum, shuffle: bool, exponents: seq<exponent>)
    returns (found: bool, modexps: nat, ghost tried: seq<nat>)
    requires Separate(bn, e, a) && bn.Value() % 2 == 1 && bn.Value() > 2 && 32 * WordLen(bn.Value() + 16 * SIEVE) < B
    modifies bn, bn.ptr, e, e.ptr, a, a.ptr
    ensures Separate(bn, e, a)
    ensures forall k: nat :: multiset(tried)[k] <= 1 && (k in tried ==> Eligible(k, old(bn.Value()), exponents))
    ensures found ==> tried != [] && bn.Value() == old(bn.Value()) + 2 * tried[|tried| - 1] && Accepts(bn.Value())
    ensures found ==> AllRejected(tried[..|tried| - 1], old(bn.Value()))
    ensures !found ==> bn.Value() == old(bn.Value()) + 16 * SIEVE && AllRejected(tried, old(bn.Value()))
    ensures !found ==> forall k: nat :: k in tried <==> Eligible(k, old(bn.Value()), exponents)
    ensures HoldsPrime(old(bn.Value()), exponents) ==> found
  {
    hide BitSet, Accepts, Val, LbnExp.Magnitude, WordLen, AllRejected, Eligible, HoldsPrime;
    ghost var n0: nat := bn.Value();
    var sieve := new byte[SIEVE];
    BuildSieve(sieve, bn, exponents, n0);
    var prev;
    found, modexps, prev, tried := Walk(bn, e, a, sieve, shuffle, n0);
    if !found {
      NoneMissed(tried, n0, exponents);
      AddMult(bn, SIEVE * 8 - prev, 2);
    }
  }

  /** If all eligible candidates were rejected, the window holds no prime of the kind that is searched. */
  lemma NoneMissed(tried: seq<nat>, n0: nat, exponents: seq<exponent>)
    requires n0 % 2 == 1 && AllRejected(tried, n0) && forall k: nat :: k in tried <==> Eligible(k, n0, exponents)
    ensures !HoldsPrime(n0, exponents)
  {
    hide Prime, Accepts, Eligible, PrimeLeft;
    forall k: nat | k < 8 * SIEVE && Prime(n0 + 2 * k) ensures !PrimeLeft(k, n0, exponents) {
      PrimeIsFound(n0, k, exponents);
      LeftIsLarge(k, n0, exponents);
    }
  }

  lemma LeftIsLarge(k: nat, n0: nat, exponents: seq<exponent>)
    ensures PrimeLeft(k, n0, exponents) ==> n0 + 2 * k > 65536
  {}

  /**
   * Which primes of a window the sieve leaves: those above 2^16 that no exponent excludes.  Smaller ones divide
   * themselves.  All that are left are accepted.
   */
  lemma PrimeIsFound(n0: nat, k: nat, exponents: seq<exponent>)
    requires k < 8 * SIEVE && n0 % 2 == 1 && Prime(n0 + 2 * k)
    ensures Eligible(k, n0, exponents) <==> PrimeLeft(k, n0, exponents)
    ensures n0 + 2 * k > 65536 ==> Accepts(n0 + 2 * k)
  {
    hide Excluded, Accepts;
    var p := n0 + 2 * k;
    PrimeVerdict(p) by { ModOf(n0, k, 2); }
    assert Chain(n0 + k * 2, 0) == p;
    if p > 65536 {
      forall q | 2 < q < 65537 && Prime(q) ensures !Removed(k, q, n0, 2, 0) {
        forall j | 0 <= j <= 0 ensures !Divided(k, q, n0, 2, j) {}
      }
    } else {
      DividesFrom(p, p, 1);
      DivModUnique(2, p, 0, 2);
      assert Divided(k, p, n0, 2, 0);
    }
  }
}
