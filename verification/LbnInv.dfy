/** Greatest common divisors, and inverses by an extended Euclidean algorithm that keeps one unsigned cosequence. */
module LbnInv {
  import opened Arith
  import opened Words
  import opened LbnBasic
  import opened LbnMul
  import opened LbnKnuth
  import opened LbnExp
  import opened Euclid

  /** The low len words of x hold v, without leading zero words. */
  ghost predicate Num(x: array<word>, len: nat, v: int)
    reads x
  {
    len <= x.Length && v == Val(x[..len]) && (len > 0 ==> x[len - 1] != 0)
  }

  /** The length of a number without leading zero words is determined by its size. */
  lemma NumLen(x: array<word>, len: nat, v: int)
    requires Num(x, len, v)
    ensures len <= x.Length && 0 <= v < Up(1, len)
    ensures if len == 0 then v == 0 else v > 0 && Up(1, len - 1) <= v
  {
    ValBound(x[..len]);
    if len > 0 { TopWord(x[..len]); }
  }

  lemma TopWord(s: seq<word>)
    requires s != [] && s[|s| - 1] != 0
    ensures Up(1, |s| - 1) <= Val(s) && Up(1, |s| - 1) > 0
  {
    hide Val, Up;
    ValGrow(s, 0, |s| - 1);
    assert s[0..|s| - 1 + 1] == s;
    ValBound(s[0..|s| - 1]);
    ValBound([]);
    UpMonotone(1, s[|s| - 1], |s| - 1);
  }

  lemma UpOrder(x: int, j: nat, k: nat)
    requires Up(1, j) <= x < Up(1, k)
    ensures j < k
  {
    if j >= k { UpBits(j); UpBits(k); PowMonotone(2, 32 * k, 32 * j); }
  }

  lemma LenOrder(x: array<word>, xlen: nat, xv: int, y: array<word>, ylen: nat, yv: int)
    requires Num(x, xlen, xv) && Num(y, ylen, yv) && xv <= yv
    ensures xlen <= ylen
  {
    hide Num, Up, Val;
    NumLen(x, xlen, xv);
    NumLen(y, ylen, yv);
    if xlen > 0 { UpOrder(xv, xlen - 1, ylen); }
  }

  /** x % y replaces x; the quotient's words are stored above it. */
  method Reduce(x: array<word>, xlen: nat, y: array<word>, ylen: nat, ghost xv: int, ghost yv: int)
    returns (xlen': nat, qlen: nat)
    requires Num(x, xlen, xv) && Num(y, ylen, yv) && 0 < yv <= xv && x != y && xlen < x.Length
    modifies x, y
    ensures y[..] == old(y[..]) && Num(y, ylen, yv) && Num(x, xlen', xv % yv)
    ensures xlen' <= ylen <= xlen && ylen + qlen <= x.Length && qlen <= xlen - ylen + 1 && qlen > 0
      && x[ylen + qlen - 1] != 0
    ensures Val(x[ylen..ylen + qlen]) == xv / yv > 0
  {
    hide Val, Up;
    LenOrder(y, ylen, yv, x, xlen, xv);
    NumLen(y, ylen, yv);
    assert x[0..xlen] == x[..xlen] && y[0..ylen] == y[..ylen];
    var cy := Div(x, ylen, x, 0, xlen, y, 0, ylen);
    assert y[0..ylen] == y[..ylen];
    ghost var low, r := x[ylen..xlen], Val(x[0..ylen]);
    x[xlen] := cy;
    ValGrow(x[..], ylen, xlen - ylen);
    assert x[..][ylen..xlen] == low && x[..][ylen..xlen + 1] == x[ylen..xlen + 1];
    ghost var q := Val(x[ylen..xlen + 1]);
    ValBound(x[0..ylen]);
    DivModUnique(xv, yv, q, r);
    qlen := Norm(x, ylen, xlen - ylen + 1);
    xlen' := Norm(x, 0, ylen);
    assert x[0..xlen'] == x[..xlen'];
    QuotientPositive(xv, yv);
    ValEmpty(x[..], ylen);
    assert x[..][ylen..ylen] == x[ylen..ylen];
  }

  lemma QuotientPositive(x: int, y: int)
    requires 0 < y <= x
    ensures x / y > 0
  {
    assert x == y * (x / y) + x % y;
    if x / y <= 0 { Scale(x / y, 0, y); }
  }

  // ---- greatest common divisor ----

  /** Reduces a and b by each other; the result says which of the two arrays holds the greatest common divisor. */
  method GcdN(a: array<word>, alen0: nat, b: array<word>, blen0: nat) returns (inB: bool, rlen: nat)
    requires blen0 <= alen0 <= a.Length && blen0 <= b.Length && a != b && (blen0 > 0 ==> b[blen0 - 1] != 0)
    modifies a, b
    ensures old(Val(a[..alen0])) >= 0 && old(Val(b[..blen0])) >= 0
    ensures rlen <= (if inB then b else a).Length
    ensures Val((if inB then b else a)[..rlen]) == Gcd(old(Val(a[..alen0])), old(Val(b[..blen0])))
  {
    hide Val, Gcd;
    var alen: nat, blen: nat := alen0, blen0;
    ghost var av: nat, bv: nat := Magnitude(a[..alen]), Magnitude(b[..blen]);
    ghost var g := Gcd(av, bv);
    while blen != 0
      invariant blen <= alen <= a.Length && Num(b, blen, bv) && av == Val(a[..alen]) && g == Gcd(av, bv)
      decreases blen, bv
    {
      NumLen(b, blen, bv);
      GcdUnfold(av, bv);
      alen := ReduceLow(a, alen, b, blen, av, bv);
      av := av % bv;
      if alen == 0 {
        NumLen(a, alen, av);
        GcdZero(bv);
        return true, blen;
      }
      NumLen(a, alen, av);
      GcdUnfold(bv, av);
      blen := ReduceLow(b, blen, a, alen, bv, av);
      bv := bv % av;
    }
    NumLen(b, blen, bv);
    GcdZero(av);
    return false, alen;
  }

  lemma GcdUnfold(a: nat, b: nat)
    requires b > 0
    ensures Gcd(a, b) == Gcd(b, a % b)
  {}

  lemma GcdZero(a: nat)
    ensures Gcd(a, 0) == a
  {}

  method ReduceLow(x: array<word>, xlen: nat, y: array<word>, ylen: nat, ghost xv: nat, ghost yv: nat)
    returns (xlen': nat)
    requires ylen <= xlen <= x.Length && xv == Val(x[..xlen]) && Num(y, ylen, yv) && yv > 0 && x != y
    modifies x, y
    ensures xlen' <= ylen && y[..] == old(y[..]) && Num(y, ylen, yv) && Num(x, xlen', xv % yv)
  {
    hide Val, Up;
    NumLen(y, ylen, yv);
    assert x[0..xlen] == x[..xlen] && y[0..ylen] == y[..ylen];
    var q := Div(x, ylen, x, 0, xlen, y, 0, ylen);
    assert y[0..ylen] == y[..ylen];
    ValBound(x[0..ylen]);
    DivModUnique(xv, yv, Val(x[ylen..xlen]) + Up(q, xlen - ylen), Val(x[0..ylen]));
    xlen' := Norm(x, 0, ylen);
    assert x[0..xlen'] == x[..xlen'];
  }

  // ---- inverse ----

  /** The lengths of a product's factors add up to at most one word more than the product needs. */
  lemma ProductLen(x: int, xlen: nat, y: int, ylen: nat, k: nat)
    requires xlen > 0 && ylen > 0 && Up(1, xlen - 1) <= x && Up(1, ylen - 1) <= y && x > 0 && y > 0 && x * y < Up(1, k)
    ensures xlen + ylen <= k + 1
  {
    UpUp(1, xlen - 1, ylen - 1);
    UpIsProduct(Up(1, xlen - 1), ylen - 1);
    UpIsProduct(1, ylen - 1);
    hide Up;
    Scale(Up(1, xlen - 1), x, Up(1, ylen - 1));
    Scale(Up(1, ylen - 1), y, x);
    UpOrder(x * y, xlen + ylen - 2, k);
  }

  /** p = q * t, where the quotient q stands at word qo of x.  The product is known to fit k words. */
  method Product(p: array<word>, x: array<word>, qo: nat, qlen: nat, t: array<word>, tlen: nat, k: nat, ghost q: int,
                 ghost tv: int)
    returns (plen: nat)
    requires 0 < qlen && qo + qlen <= x.Length && x[qo + qlen - 1] != 0 && Val(x[qo..qo + qlen]) == q
      && Num(t, tlen, tv)
    requires p.Length == k + 1 && p != x && p != t && q * tv < Up(1, k) && qlen <= k + 1
    modifies p
    ensures plen <= k && Num(p, plen, q * tv)
  {
    hide Val, Up;
    NumLen(t, tlen, tv);
    TopWord(x[qo..qo + qlen]);
    ValBound(x[qo..qo + qlen]);
    if tlen > 0 { ProductLen(q, qlen, tv, tlen, k); }
    Mul(p, 0, x, qo, qlen, t, 0, tlen);
    assert t[0..tlen] == t[..tlen];
    plen := Norm(p, 0, qlen + tlen);
    assert p[0..plen] == p[..plen];
    NumFits(p, plen, q * tv, k);
  }

  lemma NumFits(x: array<word>, len: nat, v: int, k: nat)
    requires Num(x, len, v) && v < Up(1, k)
    ensures len <= k
  {
    NumLen(x, len, v);
    if len > 0 { UpOrder(v, len - 1, k); }
  }

  /**
   * t += p for a p that is not the shorter number unless it is zero: the carry then never has to be propagated
   * through words of t above p's.
   */
  method AddProduct(t: array<word>, tlen0: nat, p: array<word>, plen: nat, ghost tv: int, ghost pv: int)
    returns (tlen: nat)
    requires Num(t, tlen0, tv) && Num(p, plen, pv) && t != p
    requires (pv == 0 || tv <= pv) && plen <= t.Length && tv + pv < Up(1, t.Length)
    modifies t
    ensures Num(t, tlen, tv + pv)
  {
    hide Val, Up;
    tlen := tlen0;
    NumLen(p, plen, pv);
    NumLen(t, tlen0, tv);
    if pv != 0 { LenOrder(t, tlen0, tv, p, plen, pv); }
    if plen > tlen {
      Extend(t, tlen, plen, tv);
      tlen := plen;
    }
    ghost var s := t[..];
    assert t[0..plen] == s[0..plen] && t[0..tlen] == s[0..tlen] == t[..tlen];
    var cy := AddN(t, 0, p, 0, plen);
    assert p[0..plen] == p[..plen] && s[0..tlen][..plen] == s[0..plen];
    UpZero(plen);
    SumOrZero(s[0..tlen], t[0..plen], cy, plen, tv, pv);
    assert pv == 0 ==> t[..tlen] == s[0..tlen];
    if cy != 0 {
      if tlen > plen {
        assert false;  // the library has code here that would carry into the words above
      }
      UpOrder(tv + pv, tlen, t.Length);
      t[tlen] := cy;
      ValGrow(t[..], 0, tlen);
      assert t[..][0..tlen] == t[0..plen] && t[..][0..tlen + 1] == t[..tlen + 1];
      tlen := tlen + 1;
    } else if pv != 0 {
      assert t[0..plen] == t[..tlen];
      TopNonzero(t[..tlen], pv);
    }
  }

  /** Clears words above a number to make it longer. */
  method Extend(t: array<word>, tlen: nat, len: nat, ghost tv: int)
    requires tlen <= len <= t.Length && Val(t[..tlen]) == tv
    modifies t
    ensures Val(t[..len]) == tv
    ensures forall i :: 0 <= i < t.Length && (i < tlen || len <= i) ==> t[i] == old(t[i])
  {
    hide Val;
    ghost var s := t[..tlen];
    Zero(t, tlen, len - tlen);
    ValHigh(t[..len], tlen);
    assert t[..len][..tlen] == s;
  }

  lemma SumOrZero(before: seq<word>, after: seq<word>, cy: int, plen: nat, tv: int, pv: int)
    requires plen == |after| && plen <= |before| && 0 <= cy <= 1 && tv == Val(before) && tv >= 0
    requires Val(after) + Up(cy, plen) == Val(before[..plen]) + pv
    requires if pv == 0 then plen == 0 else plen == |before|
    ensures if pv == 0 then cy == 0 else Val(after) + Up(cy, plen) == tv + pv && (cy == 1 ==> Up(1, plen) <= tv + pv)
  {
    ValBound(after);
    if pv == 0 {
      assert before[..plen] == [] && after == [];
    } else {
      assert before[..plen] == before;
    }
  }

  lemma TopNonzero(s: seq<word>, v: int)
    requires s != [] && Up(1, |s| - 1) <= v <= Val(s)
    ensures s[|s| - 1] != 0
  {
    if s[|s| - 1] == 0 {
      ValHigh(s, |s| - 1);
      ValBound(s[..|s| - 1]);
    }
  }

  /**
   * The extended Euclidean state: x and y with unsigned cofactors tx and ty whose signs modulo m are opposite.
   * The cofactors are bounded because x * ty + y * tx is m throughout.
   */
  ghost predicate Co(m: int, a: int, s: int, x: int, y: int, tx: int, ty: int) {
    m > 0 && tx >= 0 && ty >= 0 && x * ty + y * tx == m && Cong(a * tx, s * x, m) && Cong(a * ty, -s * y, m)
  }

  lemma CoStep(m: int, a: int, s: int, x: int, y: int, tx: int, ty: int)
    requires Co(m, a, s, x, y, tx, ty) && 0 < y <= x
    ensures Co(m, a, s, x % y, y, tx + (x / y) * ty, ty) && (x / y) * ty >= 0 && (ty > 0 ==> (x / y) * ty >= ty)
  {
    var q, r := x / y, x % y;
    QuotientPositive(x, y);
    Scale(0, q, ty);
    Scale(1, q, ty);
    assert x == y * q + r;
    CoIdentity(x, y, q, r, tx, ty);
    CongMul(a * ty, -s * y, q, q, m);
    CongAdd(a * tx, s * x, a * ty * q, -s * y * q, m);
    assert a * tx + a * ty * q == a * (tx + q * ty) by { CoFactor(a, tx, ty, q); }
    assert s * x + -s * y * q == s * r by { CoRemainder(s, x, y, q, r); }
  }

  lemma CoIdentity(x: int, y: int, q: int, r: int, tx: int, ty: int)
    requires x == y * q + r
    ensures r * ty + y * (tx + q * ty) == x * ty + y * tx
  {
    assert y * (q * ty) == y * q * ty;
    assert (y * q + r) * ty == y * q * ty + r * ty;
    assert y * (tx + q * ty) == y * tx + y * (q * ty);
  }

  lemma CoFactor(a: int, tx: int, ty: int, q: int)
    ensures a * tx + a * ty * q == a * (tx + q * ty)
  {
    assert a * ty * q == a * (q * ty);
  }

  lemma CoRemainder(s: int, x: int, y: int, q: int, r: int)
    requires x == y * q + r
    ensures s * x + -s * y * q == s * r
  {
    assert -s * y * q == -(s * (y * q));
    assert s * (y * q + r) == s * (y * q) + s * r;
  }

  /** Nothing in the state exceeds m. */
  lemma CoBound(m: int, a: int, s: int, x: int, y: int, tx: int, ty: int)
    requires Co(m, a, s, x, y, tx, ty) && x > 0 && y > 0
    ensures 0 <= tx <= m && 0 <= ty <= m && (y > 1 && tx > 0 ==> tx < m) && (tx > 0 ==> ty < m)
  {
    Scale(1, x, ty);
    Scale(1, y, tx);
    if y > 1 { Scale(2, y, tx); }
  }

  lemma CoFits(m: int, a: int, s: int, x: int, y: int, tx: int, ty: int)
    requires Co(m, a, s, x, y, tx, ty) && x >= 0 && y > 0
    ensures 0 <= tx <= m && 0 <= ty
  {
    Scale(0, x, ty);
    Scale(1, y, tx);
  }

  /** One half of the loop: x := x % y and tx += (x / y) * ty.  Fails when nothing is left of x. */
  method HalfStep(x: array<word>, xlen: nat, y: array<word>, ylen: nat, tx: array<word>, txlen: nat, ty: array<word>,
                  tylen: nat, p: array<word>, mlen: nat, ghost m: int, ghost a: int, ghost s: int, ghost xv: nat,
                  ghost yv: nat, ghost txv: int, ghost tyv: int)
    returns (ok: bool, xlen': nat, txlen': nat)
    requires Num(x, xlen, xv) && Num(y, ylen, yv) && Num(tx, txlen, txv) && Num(ty, tylen, tyv) && 0 < yv <= xv
    requires Co(m, a, s, xv, yv, txv, tyv) && (tyv == 0 || txv <= tyv) && m < Up(1, mlen)
    requires xlen <= mlen < x.Length && tx.Length == mlen && p.Length == mlen + 1
    requires x !in {y, tx, ty, p} && y !in {tx, ty, p} && tx !in {ty, p} && ty != p
    modifies x, y, tx, p
    ensures y[..] == old(y[..]) && Num(y, ylen, yv)
    ensures ok <==> xv % yv > 0
    ensures ok ==>
      Num(x, xlen', xv % yv) && xlen' <= mlen && Num(tx, txlen', txv + (xv / yv) * tyv) && Num(ty, tylen, tyv)
    ensures Co(m, a, s, xv % yv, yv, txv + (xv / yv) * tyv, tyv) && txv <= txv + (xv / yv) * tyv
      && tyv <= txv + (xv / yv) * tyv
  {
    hide Val, Up, Co, Num;
    var qlen;
    CoStep(m, a, s, xv, yv, txv, tyv);
    CoFits(m, a, s, xv % yv, yv, txv + (xv / yv) * tyv, tyv);
    CoFits(m, a, s, xv, yv, txv, tyv);
    xlen', qlen := Reduce(x, xlen, y, ylen, xv, yv);
    NumLen(x, xlen', xv % yv);
    if xlen' == 0 { return false, xlen', txlen; }
    ok := true;
    var plen := Product(p, x, ylen, qlen, ty, tylen, mlen, xv / yv, tyv);
    txlen' := AddProduct(tx, txlen, p, plen, txv, (xv / yv) * tyv);
  }

  lemma NumOne(x: array<word>, len: nat, v: int)
    requires Num(x, len, v) && len > 0
    ensures v == 1 <==> len == 1 && x[0] == 1
    ensures v > 0
  {
    NumLen(x, len, v);
    if len == 1 {
      ValOne(x[..], 0);
      assert x[..][0..1] == x[..1];
    } else {
      UpOrder(v, len - 1, len);
      UpMonotone(1, 2, len - 2);
      assert Up(1, len - 1) > 1 by { UpBits(len - 1); PowMonotone(2, 1, 32 * (len - 1)); PowAt0(2); }
    }
  }

  /** How the loop ends: no inverse, the inverse in t0, or its negation in t1. */
  datatype Outcome = NoInverse | InT0 | NegatedInT1

  /** What the loop leaves: tv is the number in the array the outcome names. */
  ghost predicate Ended(out: Outcome, m: int, a: int, tv: int, g: int) {
    m > 0 && match out
    case NoInverse => g != 1
    case InT0 => 0 < tv < m && Cong(a * tv, 1, m)
    case NegatedInT1 => 0 <= tv < m && Cong(a * tv, -1, m)
  }

  method InvLoop(a: array<word>, alen0: nat, b: array<word>, blen0: nat, t0: array<word>, t0len0: nat, t1: array<word>,
                 t1len0: nat, p: array<word>, mlen: nat, ghost m: int, ghost a0: nat, ghost b0: nat, ghost t1v0: int)
    returns (out: Outcome, len: nat, ghost tv: int)
    requires Num(a, alen0, a0) && Num(b, blen0, b0) && Num(t0, t0len0, 1) && Num(t1, t1len0, t1v0) && 0 < b0 < a0
    requires Co(m, a0, 1, a0, b0, 1, t1v0) && m < Up(1, mlen)
    requires alen0 <= mlen < a.Length && blen0 <= mlen < b.Length && t0.Length == mlen && t1.Length == mlen
      && p.Length == mlen + 1
    requires a !in {b, t0, t1, p} && b !in {t0, t1, p} && t0 !in {t1, p} && t1 != p
    modifies a, b, t0, t1, p
    ensures Ended(out, m, a0, tv, Gcd(a0, b0))
    ensures out == InT0 ==> Num(t0, len, tv)
    ensures out == NegatedInT1 ==> Num(t1, len, tv)
  {
    hide Val, Up, Co, Num, Gcd, Ended;
    var alen: nat, blen: nat, t0len: nat, t1len: nat := alen0, blen0, t0len0, t1len0;
    ghost var av: nat, bv: nat, t0v, t1v := a0, b0, 1, t1v0;
    CoSigns(m, a0, 1, av, bv, t0v, t1v);
    NumLen(b, blen, bv);
    NumOne(b, blen, bv);
    while blen > 1 || b[0] != 1
      invariant Num(a, alen, av) && Num(b, blen, bv) && Num(t0, t0len, t0v) && Num(t1, t1len, t1v) && 0 < bv < av
      invariant alen <= mlen && 0 < blen <= mlen && (bv == 1 <==> blen == 1 && b[0] == 1)
      invariant Co(m, a0, 1, av, bv, t0v, t1v) && 0 < t0v && 0 <= t1v && (t1v == 0 || t0v <= t1v)
      invariant Gcd(av, bv) == Gcd(a0, b0)
      decreases bv
    {
      GcdUnfold(av, bv);
      var ok;
      ok, alen, t0len := HalfStep(a, alen, b, blen, t0, t0len, t1, t1len, p, mlen, m, a0, 1, av, bv, t0v, t1v);
      av, t0v := av % bv, t0v + (av / bv) * t1v;
      if !ok {
        GcdZero(bv);
        EndNone(m, a0, 1, av, bv, t0v, t1v, Gcd(a0, b0));
        return NoInverse, 0, 0;
      }
      NumLen(a, alen, av);
      NumOne(a, alen, av);
      if alen <= 1 && a[0] == 1 {
        EndT0(m, a0, bv, t0v, t1v, Gcd(a0, b0));
        return InT0, t0len, t0v;
      }
      CoSwap(m, a0, 1, av, bv, t0v, t1v);
      GcdUnfold(bv, av);
      ok, blen, t1len := HalfStep(b, blen, a, alen, t1, t1len, t0, t0len, p, mlen, m, a0, -1, bv, av, t1v, t0v);
      bv, t1v := bv % av, t1v + (bv / av) * t0v;
      if !ok {
        GcdZero(av);
        EndNone(m, a0, -1, bv, av, t1v, t0v, Gcd(a0, b0));
        return NoInverse, 0, 0;
      }
      CoSwap(m, a0, -1, bv, av, t1v, t0v);
      NumLen(b, blen, bv);
      NumOne(b, blen, bv);
    }
    EndT1(m, a0, av, t0v, t1v, Gcd(a0, b0));
    return NegatedInT1, t1len, t1v;
  }

  lemma CoSigns(m: int, a: int, s: int, x: int, y: int, tx: int, ty: int)
    requires Co(m, a, s, x, y, tx, ty)
    ensures tx >= 0 && ty >= 0 && m > 0
  {}

  lemma CoSwap(m: int, a: int, s: int, x: int, y: int, tx: int, ty: int)
    requires Co(m, a, s, x, y, tx, ty)
    ensures Co(m, a, -s, y, x, ty, tx)
  {}

  lemma EndNone(m: int, a: int, s: int, x: int, y: int, tx: int, ty: int, g: int)
    requires Co(m, a, s, x, y, tx, ty) && g != 1
    ensures Ended(NoInverse, m, a, 0, g)
  {}

  lemma EndT0(m: int, a: int, y: int, tx: int, ty: int, g: int)
    requires Co(m, a, 1, 1, y, tx, ty) && y > 1 && tx > 0
    ensures Ended(InT0, m, a, tx, g)
  {
    CoBound(m, a, 1, 1, y, tx, ty);
  }

  lemma EndT1(m: int, a: int, x: int, tx: int, ty: int, g: int)
    requires Co(m, a, 1, x, 1, tx, ty) && x > 0 && tx > 0
    ensures Ended(NegatedInT1, m, a, ty, g)
  {
    CoBound(m, a, 1, x, 1, tx, ty);
  }

  /** a = mod - t, for a t that is smaller; a borrow then always finds words of mod above t's. */
  method SubtractFrom(a: array<word>, mod: array<word>, mlen: nat, t: array<word>, tlen: nat, ghost m: int,
                      ghost tv: int)
    requires mlen <= mod.Length && mlen <= a.Length && Val(mod[..mlen]) == m && Num(t, tlen, tv) && tv < m
      && tlen <= mlen
    requires a != mod && a != t
    modifies a
    ensures Val(a[..mlen]) == m - tv
  {
    hide Val, Up;
    Copy(a, 0, mod, 0, mlen);
    ghost var s := a[..];
    assert s[0..mlen] == mod[0..mlen] == mod[..mlen] && a[0..tlen] == s[0..tlen];
    var cy := SubN(a, 0, t, 0, tlen);
    assert t[0..tlen] == t[..tlen];
    ValTwo(s, 0, tlen, mlen);
    ValBound(a[0..tlen]);
    UpZero(tlen);
    BorrowFits(a[0..tlen], s[tlen..mlen], cy, tlen, m - tv, mlen);
    ghost var s1 := a[..];
    assert a[tlen..mlen] == s1[tlen..mlen] == s[tlen..mlen] && a[0..tlen] == s1[0..tlen];
    var c := 0;
    if cy != 0 {
      c := Sub1(a, tlen, mlen - tlen, cy);
    } else {
      UpZero(mlen - tlen);
    }
    assert a[0..tlen] == a[..][0..tlen] == s1[0..tlen] && a[..][tlen..mlen] == a[tlen..mlen];
    ValTwo(a[..], 0, tlen, mlen);
    assert a[..][0..mlen] == a[..mlen];
    BorrowEnds(a[..mlen], Val(a[tlen..mlen]), Val(s[tlen..mlen]), cy, c, tlen, mlen, m - tv, Val(a[0..tlen]));
  }

  lemma BorrowFits(low: seq<word>, high: seq<word>, cy: int, len: nat, d: int, mlen: nat)
    requires len <= mlen && |low| == len && |high| == mlen - len && 0 <= cy <= 1 && d > 0
    requires Val(low) - Up(cy, len) + Up(Val(high), len) == d
    ensures cy > 0 ==> len < mlen
  {
    ValBound(low);
    if len == mlen {
      assert high == [];
      UpZero(len);
    }
  }

  lemma BorrowEnds(s: seq<word>, high: int, high0: int, cy: int, c: int, len: nat, mlen: nat, d: int, low: int)
    requires len <= mlen == |s| && 0 <= c <= 1 && d > 0
    requires Val(s) == low + Up(high, len) && low - Up(cy, len) + Up(high0, len) == d
    requires high + cy == high0 + Up(c, mlen - len)
    ensures Val(s) == d
  {
    ValBound(s);
    UpAdd(high, cy, len);
    UpAdd(high0, Up(c, mlen - len), len);
    UpUp(c, mlen - len, len);
    UpZero(mlen);
  }

  /** How an inversion ends; it is stopped where it would divide by a number of no words. */
  datatype Inversion = Inverted | Refused | Stopped

  /**
   * Replaces a by its inverse modulo mod exactly if there is one.  Without one the call is refused, except for a number
   * above 1 that divides the modulus: the first remainder is then zero, and the loop goes on to divide by it.
   */
  method Inv(a: array<word>, alen: nat, mod: array<word>, mlen: nat, ghost ml: nat) returns (r: Inversion)
    requires Significant(mod, mlen, ml) && alen <= a.Length && ml < a.Length && a != mod && Val(a[..alen]) < Up(1, ml)
    modifies a
    ensures old(Val(a[..alen])) >= 0 && Val(mod[..ml]) > 0
    ensures r == Inverted <==> old(Val(a[..alen])) > 0 && Gcd(old(Val(a[..alen])), Val(mod[..ml])) == 1
    ensures r == Stopped <==> old(Val(a[..alen])) > 1 && Val(mod[..ml]) % old(Val(a[..alen])) == 0
    ensures r == Inverted ==>
      0 < Val(a[..ml]) <= Val(mod[..ml]) && (Val(mod[..ml]) > 1 ==> Val(a[..ml]) < Val(mod[..ml]))
    ensures r == Inverted ==> Cong(old(Val(a[..alen])) * Val(a[..ml]), 1, Val(mod[..ml]))
  {
    hide Val, Up, Num, Gcd, Cong;
    ghost var av: nat, m: nat := Magnitude(a[..alen]), Magnitude(mod[..ml]);
    TopSet(mod[..ml]);
    var al := Norm(a, 0, alen);
    assert a[0..al] == a[..al] && a[0..alen] == a[..alen];
    NumFrom(a, al, av);
    if al == 0 { return Refused; }
    var n := NormTo(mod, mlen, ml);
    NumFits(a, al, av, n);
    NumOne(a, al, av);
    if al == 1 && a[0] == 1 {
      Extend(a, al, n, 1);
      OneInverse(m);
      return Inverted;
    }
    NumFrom(mod, n, m);
    r := InvLong(a, al, mod, n, av, m);
  }

  lemma NumFrom(x: array<word>, len: nat, v: int)
    requires len <= x.Length && Val(x[..len]) == v && (len == 0 || x[len - 1] != 0)
    ensures Num(x, len, v) && (len == 0 <==> v == 0)
  {
    NumLen(x, len, v);
  }

  lemma OneInverse(m: nat)
    requires m > 0
    ensures Cong(1 * 1, 1, m) && Gcd(1, m) == 1
  {
    InverseMeansCoprime(1, 1, m);
  }

  method InvLong(a: array<word>, alen: nat, mod: array<word>, mlen: nat, ghost av: nat, ghost m: nat)
    returns (r: Inversion)
    requires Num(a, alen, av) && Num(mod, mlen, m) && a != mod && alen <= mlen < a.Length && av > 1 && m > 0
    modifies a
    ensures (r == Inverted <==> Gcd(av, m) == 1) && (r == Stopped <==> m % av == 0)
    ensures r == Inverted ==>
      0 < Val(a[..mlen]) <= m && (m > 1 ==> Val(a[..mlen]) < m) && Cong(av * Val(a[..mlen]), 1, m)
  {
    hide Val, Up, Num, Gcd, Cong, Co, Ended;
    NumLen(mod, mlen, m);
    var b, p := new word[mlen + 1], new word[mlen + 1];
    var t0, t1 := new word[mlen], new word[mlen];
    var blen, t1len := InvStart(a, alen, b, t0, t1, mod, mlen, av, m);
    GcdSwap(av, m);
    GcdUnfold(m, av);
    if blen == 0 {
      GcdZero(av);
      return Stopped;
    }
    var out, len, tv := InvLoop(a, alen, b, blen, t0, 1, t1, t1len, p, mlen, m, av, m % av, m / av);
    EndedMeans(out, m, av, tv, Gcd(av, m));
    match out
    case NoInverse =>
      return Refused;
    case InT0 =>
      InverseMeansCoprime(av, tv, m);
      NumFits(t0, len, tv, mlen);
      CopyNum(a, t0, len, mlen, tv);
      return Inverted;
    case NegatedInT1 =>
      InverseMeansCoprime(av, m - tv, m);
      NumFits(t1, len, tv, mlen);
      NumVal(mod, mlen, m);
      SubtractFrom(a, mod, mlen, t1, len, m, tv);
      return Inverted;
  }

  lemma NumVal(x: array<word>, len: nat, v: int)
    requires Num(x, len, v)
    ensures len <= x.Length && Val(x[..len]) == v
  {}

  method CopyNum(a: array<word>, t: array<word>, len: nat, mlen: nat, ghost tv: int)
    requires Num(t, len, tv) && len <= mlen <= a.Length && a != t
    modifies a
    ensures Val(a[..mlen]) == tv
  {
    hide Val;
    Copy(a, 0, t, 0, len);
    assert a[..len] == a[0..len] == t[0..len] == t[..len];
    Extend(a, len, mlen, tv);
  }

  lemma EndedMeans(out: Outcome, m: nat, a: nat, tv: int, g: int)
    requires Ended(out, m, a, tv, g)
    ensures out == NoInverse ==> g != 1
    ensures out == InT0 ==> 0 < tv < m && Cong(a * tv, 1, m)
    ensures out == NegatedInT1 ==> 0 <= tv < m && Cong(a * (m - tv), 1, m) && (m > 1 ==> tv > 0)
  {
    if out == NegatedInT1 {
      var k := CongWitness(a * tv, -1, m);
      assert a * (m - tv) == 1 + (a - k) * m;
      CongFrom(a * (m - tv), 1, a - k, m);
      if tv == 0 {
        assert k * m == 1;
        if m > 1 { UnitFactor(k, m); }
      }
    }
  }

  lemma UnitFactor(k: int, m: int)
    requires m > 0 && k * m == 1
    ensures m == 1
  {
    if k <= 0 { Scale(k, 0, m); }
    if m > 1 && k > 0 { Scale(1, k, m); }
  }

  /** The first step of the algorithm: b = mod % a, t0 = 1 and t1 = mod / a. */
  method InvStart(a: array<word>, alen: nat, b: array<word>, t0: array<word>, t1: array<word>, mod: array<word>,
                  mlen: nat, ghost av: nat, ghost m: nat) returns (blen: nat, t1len: nat)
    requires Num(a, alen, av) && Num(mod, mlen, m) && alen <= mlen && av > 1 && m > 0
    requires b.Length == mlen + 1 && t0.Length == mlen && t1.Length == mlen
    requires a !in {b, t0, t1, mod} && b !in {t0, t1, mod} && t0 !in {t1, mod} && t1 != mod
    modifies a, b, t0, t1
    ensures Num(a, alen, av) && (blen == 0 <==> m % av == 0)
    ensures Num(b, blen, m % av) && Num(t0, 1, 1) && Num(t1, t1len, m / av) && blen <= mlen
    ensures Co(m, av, 1, av, m % av, 1, m / av)
  {
    hide Val, Up, Cong, Co;
    NumLen(a, alen, av);
    t0[0] := 1;
    ValOne(t0[..], 0);
    assert t0[..][0..1] == t0[..1];
    Copy(b, 0, mod, 0, mlen);
    assert b[0..mlen] == mod[0..mlen] == mod[..mlen] && a[0..alen] == a[..alen];
    var cy := Div(t1, 0, b, 0, mlen, a, 0, alen);
    assert a[0..alen] == a[..alen];
    ghost var low, r := t1[0..mlen - alen], Val(b[0..alen]);
    t1[mlen - alen] := cy;
    ValGrow(t1[..], 0, mlen - alen);
    assert t1[..][0..mlen - alen] == low && t1[..][0..mlen - alen + 1] == t1[0..mlen - alen + 1];
    ValBound(b[0..alen]);
    DivModUnique(m, av, Val(t1[0..mlen - alen + 1]), r);
    t1len := Norm(t1, 0, mlen - alen + 1);
    blen := Norm(b, 0, alen);
    assert t1[0..t1len] == t1[..t1len] && b[0..blen] == b[..blen];
    NumFrom(b, blen, m % av);
    CoBegin(m, av);
  }

  lemma CoBegin(m: nat, a: nat)
    requires m > 0 && a > 0
    ensures Co(m, a, 1, a, m % a, 1, m / a) && m % a >= 0 && m / a >= 0
  {
    var q, r := m / a, m % a;
    assert m == a * q + r;
    assert q >= 0 by { if q < 0 { Scale(q, -1, a); } }
    assert a * q == -1 * r + 1 * m;
    CongFrom(a * q, -1 * r, 1, m);
    CongFrom(a * 1, 1 * a, 0, m);
  }
}
