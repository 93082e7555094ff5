/** Exponentiation of a fixed base from precomputed powers, by sorting the exponent's digits into buckets. */
module LbnPrecomp {
  import opened Arith
  import opened Words
  import opened LbnBasic
  import opened LbnMul
  import opened LbnMont
  import opened Window
  import opened ExpReader
  import opened LbnExp
  import opened LbnDoubleExp

  /** table[k] holds the Montgomery form of g^(p^k): powers of the base one digit of base p apart. */
  ghost predicate Ladder(table: seq<array<word>>, mlen: nat, g: int, p: int, m: int)
    reads table
  {
    m > 0 && p > 0
    && forall k :: 0 <= k < |table| ==>
      table[k].Length >= mlen && Val(table[k][..mlen]) == Mont(Pow(g, Pow(p, k)), m, mlen)
  }

  // ---- sums over the digits of an exponent in base p ----

  /** The digits above the lowest. */
  ghost function Rest(x: nat, p: int): (r: nat)
    requires p > 1
    ensures x > 0 ==> r < x
    ensures x == p * r + x % p
  {
    RestBelow(x, p);
    x / p
  }

  lemma RestBelow(x: nat, p: int)
    requires p > 1
    ensures 0 <= x / p && (x > 0 ==> x / p < x) && x == p * (x / p) + x % p && 0 <= x % p < p
  {
    var q := x / p;
    assert x == p * q + x % p;
    if q < 0 { Scale(q, -1, p); }
    Scale(0, if q < 0 then 0 else q, p - 2);
    assert p * q == 2 * q + q * (p - 2);
  }

  /** The sum of p^j over the digits j equal to i. */
  ghost function Equal(x: nat, p: int, i: int): nat
    requires p > 1
  {
    if x == 0 then 0 else (if x % p == i then 1 else 0) + Times(p, Equal(Rest(x, p), p, i))
  }

  /** The sum of p^j over the digits j that are at least i. */
  ghost function AtLeast(x: nat, p: int, i: int): nat
    requires p > 1
  {
    if x == 0 then 0 else (if x % p >= i then 1 else 0) + Times(p, AtLeast(Rest(x, p), p, i))
  }

  /** The sum of p^j times the amount by which digit j exceeds i - 1. */
  ghost function Excess(x: nat, p: int, i: int): nat
    requires p > 1
  {
    if x == 0 then 0 else (if x % p >= i then x % p - i + 1 else 0) + Times(p, Excess(Rest(x, p), p, i))
  }

  ghost function Times(p: int, x: nat): (r: nat)
    requires p > 0
  {
    Scale(0, x, p);
    p * x
  }

  lemma TimesAdd(p: int, x: nat, y: nat)
    requires p > 0
    ensures Times(p, x + y) == Times(p, x) + Times(p, y)
  {}

  lemma {:induction false} BucketStep(x: nat, p: int, i: int)
    requires p > 1 && i > 0
    ensures AtLeast(x, p, i) == AtLeast(x, p, i + 1) + Equal(x, p, i)
    ensures Excess(x, p, i) == Excess(x, p, i + 1) + AtLeast(x, p, i)
  {
    if x > 0 {
      BucketStep(Rest(x, p), p, i);
      TimesAdd(p, AtLeast(Rest(x, p), p, i + 1), Equal(Rest(x, p), p, i));
      TimesAdd(p, Excess(Rest(x, p), p, i + 1), AtLeast(Rest(x, p), p, i));
    }
  }

  /** No digit reaches p, and what the digits exceed zero by is the exponent itself. */
  lemma {:induction false} BucketEnds(x: nat, p: int)
    requires p > 1
    ensures AtLeast(x, p, p) == 0 && Excess(x, p, p) == 0 && Excess(x, p, 1) == x
  {
    if x > 0 { BucketEnds(Rest(x, p), p); }
  }

  // ---- the bit buffer ----

  /** The digits still to come make up x: bufbits bits are in buf, the others in the words that make up rest. */
  ghost predicate Buffered(x: int, buf: word, bufbits: int, ewords: nat, rest: int) {
    if ewords == 0 then x == buf
    else 0 <= bufbits <= 32 && buf < Two(bufbits) && x == buf + Two(bufbits) * rest
  }

  /** Takes the next digit of bits bits, refilling the buffer from the next word if it runs short. */
  method NextDigit(exp: array<word>, elen: nat, ewords: nat, buf: word, bufbits: int, bits: nat, ghost x: nat)
    returns (digit: nat, ewords': nat, buf': word, bufbits': int)
    requires ewords < elen <= exp.Length && 0 < bits < 32
      && Buffered(x, buf, bufbits, ewords, Val(exp[elen - ewords..elen]))
    ensures digit == x % Two(bits) && ewords' <= ewords
    ensures Buffered(x / Two(bits), buf', bufbits', ewords', Val(exp[elen - ewords'..elen]))
  {
    hide Val, Two, Lo, Shr;
    ShrTwo(buf, bits);
    var curbits: int := buf;
    buf', bufbits', ewords' := Shr(buf, bits), bufbits - bits, ewords;
    if bufbits' < 0 && ewords > 0 {
      var nextword := exp[elen - ewords];
      ewords' := ewords - 1;
      ValCons(exp[..], elen - ewords, elen);
      assert exp[..][elen - ewords..elen] == exp[elen - ewords..elen]
        && exp[..][elen - ewords'..elen] == exp[elen - ewords'..elen];
      ValEmpty(exp[..], elen);
      Refill(x, buf, bufbits, bits, nextword, Val(exp[elen - ewords'..elen]), ewords');
      // the low bufbits bits of the shifted word are clear, so that the sum is a bitwise or
      curbits := curbits + Lo(nextword * Two(bufbits' + bits));
      ShrTwo(nextword, -bufbits');
      buf' := Shr(nextword, -bufbits');
      bufbits' := bufbits' + 32;
    } else if ewords > 0 {
      Shorten(x, buf, bufbits, bits, Val(exp[elen - ewords..elen]));
    }
    digit := curbits % Two(bits);
  }

  lemma ShrTwo(x: word, s: nat)
    ensures Shr(x, s) == x / Two(s)
  {
    TwoIs(s);
  }

  lemma Shorten(x: nat, buf: nat, bufbits: nat, bits: nat, rest: int)
    requires bits <= bufbits && x == buf + Two(bufbits) * rest && buf < Two(bufbits)
    ensures x % Two(bits) == buf % Two(bits)
    ensures x / Two(bits) == buf / Two(bits) + Two(bufbits - bits) * rest && 0 <= buf / Two(bits) < Two(bufbits - bits)
  {
    hide Two;
    var p, t := Two(bits), Two(bufbits - bits);
    TwoAdd(bits, bufbits - bits);
    assert buf == (buf / p) * p + buf % p;
    assert p * t * rest == t * rest * p;
    assert (buf / p + t * rest) * p == (buf / p) * p + t * rest * p;
    DivModUnique(x, p, buf / p + t * rest, buf % p);
    DivBelow(buf, p, t);
  }

  lemma Refill(x: nat, buf: word, k: nat, bits: nat, next: word, rest: int, ewords: nat)
    requires k < bits < 32 && buf < Two(k) && x == buf + Two(k) * (next + B * rest)
    requires ewords == 0 ==> rest == 0
    ensures (buf + Lo(next * Two(k))) % Two(bits) == x % Two(bits)
    ensures 0 <= next / Two(bits - k) < Two(32 + k - bits)
    ensures x / Two(bits) == next / Two(bits - k) + Two(32 + k - bits) * rest
  {
    hide Two;
    TwoAdd(k, bits - k);
    TwoAdd(bits - k, 32 + k - bits);
    TwoAdd(bits, 32 - bits);
    assert Two(32) == B by { TwoPow32(); TwoIs(32); }
    RefillParts(x, buf, Two(k), Two(bits - k), Two(32 + k - bits), next, rest);
    TruncatedDigit(buf, next * Two(k), Two(bits), Two(32 - bits), Two(k) * rest, x);
  }

  lemma TruncatedDigit(buf: word, shifted: int, p: int, q: int, r: int, x: int)
    requires p > 0 && q > 0 && p * q == B && x == buf + shifted + B * r
    ensures (buf + Lo(shifted)) % p == x % p
  {
    var h := Hi(shifted);
    hide Hi, Lo;
    assert x == (buf + Lo(shifted)) + (q * (h + r)) * p by {
      assert x == buf + Lo(shifted) + B * (h + r);
      assert p * q * (h + r) == q * (h + r) * p;
    }
    ModOf(buf + Lo(shifted), q * (h + r), p);
  }

  lemma RefillParts(x: int, buf: int, t: int, s: int, u: int, next: word, rest: int)
    requires t > 0 && s > 0 && u > 0 && s * u == B && 0 <= buf < t && x == buf + t * (next + B * rest)
    ensures 0 <= next / s < u && t * s > 0
    ensures x / (t * s) == next / s + u * rest
    ensures x == buf + next * t + B * (t * rest)
  {
    var h, l := next / s, next % s;
    DivBelow(next, s, u);
    assert next == s * h + l;
    assert t * (next + B * rest) == t * next + t * (B * rest);
    assert t * (B * rest) == B * (t * rest);
    assert t * next == t * s * h + t * l by { assert t * (s * h) == t * s * h; }
    assert B * (t * rest) == t * s * (u * rest) by { assert s * u * (t * rest) == t * s * (u * rest); }
    Scale(l, s - 1, t);
    assert t * (s - 1) == t * s - t;
    assert (h + u * rest) * (t * s) == t * s * h + t * s * (u * rest);
    DivModUnique(x, t * s, h + u * rest, buf + t * l);
  }

  // ---- the buckets ----

  /** With j digits passed the digits below j count for d, the ones from j up make up x. */
  ghost predicate Passed(ev: nat, x: nat, p: int, j: nat, i: int, d: nat) {
    p > 1 && Times(Pow(p, j), x) <= ev && d + Times(Pow(p, j), Equal(x, p, i)) == Equal(ev, p, i)
  }

  lemma DigitPassed(ev: nat, x: nat, p: int, j: nat, i: int, d: nat)
    requires Passed(ev, x, p, j, i, d) && x > 0
    ensures Passed(ev, Rest(x, p), p, j + 1, i, if x % p == i then d + Pow(p, j) else d)
  {
    var w, r, e: int := Pow(p, j), Rest(x, p), Equal(Rest(x, p), p, i);
    RestBelow(x, p);
    assert Equal(x, p, i) == (if x % p == i then 1 else 0) + p * e;
    assert Pow(p, j + 1) == p * w;
    DigitWeight(w, p, r, x % p, x);
    DigitWeight(w, p, e, if x % p == i then 1 else 0, Equal(x, p, i));
  }

  lemma DigitWeight(w: int, p: int, r: int, d: int, x: int)
    requires w > 0 && d >= 0 && x == d + p * r
    ensures w * x == w * d + p * w * r && w * d >= 0
  {
    assert w * (p * r) == p * w * r;
    assert w * (d + p * r) == w * d + w * (p * r);
    Scale(0, d, w);
  }

  lemma PlaceInTable(ev: nat, x: nat, p: int, j: nat, i: int, d: nat, n: nat)
    requires Passed(ev, x, p, j, i, d) && x > 0 && ev < Pow(p, n)
    ensures j < n
  {
    Scale(1, x, Pow(p, j));
    if j >= n { PowMonotone(p, n, j); }
  }

  lemma BufferStart(exp: array<word>, elen: nat)
    requires 0 < elen <= exp.Length
    ensures Buffered(Val(exp[..elen]), exp[0], 32, elen - 1, Val(exp[1..elen]))
  {
    TwoPow32();
    TwoIs(32);
    ValCons(exp[..], 0, elen);
    assert exp[..][0..elen] == exp[..elen] && exp[..][1..elen] == exp[1..elen];
    ValEmpty(exp[..], elen);
  }

  lemma BufferEmpty(exp: array<word>, elen: nat, x: nat, ewords: nat, buf: word, bufbits: int)
    requires ewords < elen <= exp.Length && exp[elen - 1] != 0
      && Buffered(x, buf, bufbits, ewords, Val(exp[elen - ewords..elen]))
    ensures x == 0 <==> ewords == 0 && buf == 0
  {
    if ewords > 0 {
      hide Val, Two;
      TopSet(exp[elen - ewords..elen]);
      Scale(1, Two(bufbits), Val(exp[elen - ewords..elen]));
    }
  }

  /** Multiplies into b the table entry of every digit of the exponent that equals i. */
  method Pass(b0: array<word>, c0: array<word>, table: seq<array<word>>, exp: array<word>, elen: nat, bits: nat, i: nat,
              mod: array<word>, mlen: nat, inv: word, bnull0: bool, ghost m: int, ghost g: int, ghost x: int,
              ghost ev: nat)
    returns (b: array<word>, c: array<word>, bnull: bool)
    requires Modulus(mod, mlen, inv, m) && Ladder(table, mlen, g, Two(bits), m) && Holds(b0, mlen, bnull0, x, m)
    requires 0 < bits < 32 && 0 < elen <= exp.Length && exp[elen - 1] != 0 && ev == Val(exp[..elen])
      && ev < Pow(Two(bits), |table|)
    requires 2 * mlen <= b0.Length && 2 * mlen <= c0.Length && b0 != c0 && b0 !in table && c0 !in table && mod != b0
      && mod != c0 && exp != b0 && exp != c0
    modifies b0, c0
    ensures (b == b0 && c == c0) || (b == c0 && c == b0)
    ensures Two(bits) > 1 && Holds(b, mlen, bnull, x * Pow(g, Equal(ev, Two(bits), i)), m)
    ensures bnull ==> bnull0 && Equal(ev, Two(bits), i) == 0
  {
    hide Val, Two, Modulus, Pow, Holds, Buffered, Rest, Times, Equal, Passed, Ladder;
    ghost var p, d: nat, v: nat, y := Two(bits), 0, ev, x;
    TwoAbove(bits);
    b, c, bnull := b0, c0, bnull0;
    var buf: word, ewords: nat, bufbits: int, j: nat := exp[0], elen - 1, 32, 0;
    BufferStart(exp, elen);
    PassStart(ev, p, i, x, g);
    BufferEmpty(exp, elen, v, ewords, buf, bufbits);
    while ewords != 0 || buf != 0
      invariant ewords < elen && ev == Val(exp[..elen]) && exp[elen - 1] != 0
        && Buffered(v, buf, bufbits, ewords, Val(exp[elen - ewords..elen]))
      invariant v == 0 <==> ewords == 0 && buf == 0
      invariant Passed(ev, v, p, j, i, d)
      invariant (b == b0 && c == c0) || (b == c0 && c == b0)
      invariant Modulus(mod, mlen, inv, m) && Ladder(table, mlen, g, p, m)
      invariant y == x * Pow(g, d) && Holds(b, mlen, bnull, y, m) && (bnull ==> bnull0 && d == 0)
      decreases v
    {
      var digit;
      digit, ewords, buf, bufbits := NextDigit(exp, elen, ewords, buf, bufbits, bits, v);
      DigitPassed(ev, v, p, j, i, d);
      PlaceInTable(ev, v, p, j, i, d, |table|);
      if digit == i {
        b, c, y := MultiplyRung(b, c, table, j, mod, mlen, inv, bnull, m, g, p, y);
        PowGrow(x, g, d, Pow(p, j));
        bnull := false;
        d := d + Pow(p, j);
      }
      RestIs(v, p);
      v := Rest(v, p);
      BufferEmpty(exp, elen, v, ewords, buf, bufbits);
      j := j + 1;
    }
    PassEnd(ev, p, j, i, d);
  }

  lemma TwoAbove(bits: nat)
    requires bits > 0
    ensures Two(bits) > 1
  {
    TwoNext(bits - 1);
  }

  lemma PassStart(ev: nat, p: int, i: int, x: int, g: int)
    requires p > 1
    ensures Passed(ev, ev, p, 0, i, 0) && x * Pow(g, 0) == x
  {}

  lemma PassEnd(ev: nat, p: int, j: nat, i: int, d: nat)
    requires Passed(ev, 0, p, j, i, d)
    ensures d == Equal(ev, p, i)
  {}

  lemma RestIs(x: nat, p: int)
    requires p > 1
    ensures Rest(x, p) == x / p
  {}

  lemma PowGrow(x: int, g: int, d: nat, w: nat)
    ensures x * Pow(g, d) * Pow(g, w) == x * Pow(g, d + w)
  {
    PowAdd(g, d, w);
    Associate(x, Pow(g, d), Pow(g, w));
  }

  method MultiplyRung(b: array<word>, c: array<word>, table: seq<array<word>>, j: nat, mod: array<word>, mlen: nat,
                      inv: word, isone: bool, ghost m: int, ghost g: int, ghost p: int, ghost y: int)
    returns (b': array<word>, c': array<word>, ghost y': int)
    requires Modulus(mod, mlen, inv, m) && Ladder(table, mlen, g, p, m) && j < |table| && p > 0
    requires Holds(b, mlen, isone, y, m) && 2 * mlen <= c.Length
    requires b != c && b !in table && c !in table && mod != b && mod != c
    modifies b, c
    ensures (b' == b && c' == c) || (b' == c && c' == b)
    ensures Pow(p, j) > 0 && y' == y * Pow(g, Pow(p, j)) && Holds(b', mlen, false, y', m)
  {
    hide Val, Mont, Modulus, Pow, Holds;
    var d := table[j];
    assert d in table;
    c', b' := MultiplyIn(c, b, d, mod, mlen, inv, isone, m, y, Pow(g, Pow(p, j)));
    y' := y * Pow(g, Pow(p, j));
  }

  /** a *= b, for accumulators in the high halves. */
  method Accumulate(a: array<word>, b: array<word>, c: array<word>, mod: array<word>, mlen: nat, inv: word, anull: bool,
                    ghost m: int, ghost x: int, ghost y: int) returns (a': array<word>, c': array<word>)
    requires Modulus(mod, mlen, inv, m) && Holds(a, mlen, anull, x, m) && Holds(b, mlen, false, y, m)
    requires 2 * mlen <= c.Length && a != b && a != c && b != c && mod != a && mod != c
    modifies a, c
    ensures (a' == a && c' == c) || (a' == c && c' == a)
    ensures Holds(a', mlen, false, x * y, m)
  {
    hide Val, Mont, Modulus;
    a', c' := a, c;
    if anull {
      Copy(a, mlen, b, mlen, mlen);
    } else {
      MontMul(c, a, mlen, b, mlen, mod, mlen, inv, m, x, y);
      a', c' := c, a;
    }
  }

  /** The exponents of the two bases in b and in a, once the digits from i up have been dealt with. */
  ghost predicate Levels(a: array<word>, anull: bool, b: array<word>, bnull: bool, mlen: nat, m: int, g1: int, ev1: nat,
                         g2: int, ev2: nat, p: int, i: int)
    reads a, b
  {
    p > 1
    && Holds(b, mlen, bnull, Both(g1, AtLeast(ev1, p, i), g2, AtLeast(ev2, p, i)), m)
    && Holds(a, mlen, anull, Both(g1, Excess(ev1, p, i), g2, Excess(ev2, p, i)), m)
    && (bnull ==> AtLeast(ev1, p, i) == 0 && AtLeast(ev2, p, i) == 0)
    && (anull ==> Excess(ev1, p, i) == 0 && Excess(ev2, p, i) == 0)
  }

  /** b takes in the digits of both exponents that equal i; the second exponent may be absent. */
  method PassBoth(b0: array<word>, c0: array<word>, table1: seq<array<word>>, exp1: array<word>, elen1: nat,
                  table2: seq<array<word>>, exp2: array<word>, elen2: nat, bits: nat, i: nat, mod: array<word>,
                  mlen: nat, inv: word, bnull0: bool, ghost m: int, ghost g1: int, ghost ev1: nat, ghost g2: int,
                  ghost ev2: nat, ghost s1: nat, ghost s2: nat)
    returns (b: array<word>, c: array<word>, bnull: bool)
    requires Modulus(mod, mlen, inv, m) && 0 < bits < 32 && Holds(b0, mlen, bnull0, Both(g1, s1, g2, s2), m)
    requires Ladder(table1, mlen, g1, Two(bits), m) && Exponent(exp1, elen1, ev1, Two(bits), |table1|) && elen1 > 0
    requires Ladder(table2, mlen, g2, Two(bits), m) && Exponent(exp2, elen2, ev2, Two(bits), |table2|)
    requires 2 * mlen <= b0.Length && 2 * mlen <= c0.Length && b0 != c0 && mod != b0 && mod != c0
    requires {b0, c0} !! {exp1, exp2} && b0 !in table1 && c0 !in table1 && b0 !in table2 && c0 !in table2
    modifies b0, c0
    ensures (b == b0 && c == c0) || (b == c0 && c == b0)
    ensures Two(bits) > 1 && Holds(b, mlen, bnull,
                                   Both(g1, s1 + Equal(ev1, Two(bits), i), g2, s2 + Equal(ev2, Two(bits), i)), m)
    ensures bnull ==> bnull0 && Equal(ev1, Two(bits), i) == 0 && Equal(ev2, Two(bits), i) == 0
  {
    hide Val, Two, Modulus, Pow, Holds, Equal, Ladder, Both;
    TwoAbove(bits);
    ghost var e1, e2 := Equal(ev1, Two(bits), i), Equal(ev2, Two(bits), i);
    b, c, bnull := Pass(b0, c0, table1, exp1, elen1, bits, i, mod, mlen, inv, bnull0, m, g1, Both(g1, s1, g2, s2), ev1);
    BothGrow(g1, s1, g2, s2, e1);
    if elen2 != 0 {
      b, c, bnull := Pass(b, c, table2, exp2, elen2, bits, i, mod, mlen, inv, bnull, m, g2, Both(g1, s1 + e1, g2, s2),
                          ev2);
      BothGrow(g1, s1 + e1, g2, s2, e2);
    } else {
      EqualZero(Two(bits), i);
    }
  }

  /** A normalised exponent below p^n; no words at all stand for zero. */
  ghost predicate Exponent(exp: array<word>, elen: nat, ev: nat, p: int, n: nat)
    reads exp
  {
    elen <= exp.Length && (elen > 0 ==> exp[elen - 1] != 0) && ev == Val(exp[..elen]) && ev < Pow(p, n)
    && (elen == 0 <==> ev == 0)
  }

  lemma EqualZero(p: int, i: int)
    requires p > 1
    ensures Equal(0, p, i) == 0
  {}

  /** One turn of the outer loop: the digits equal to i join b, and b joins a. */
  method Level(a0: array<word>, anull0: bool, b0: array<word>, bnull0: bool, c0: array<word>, table1: seq<array<word>>,
               exp1: array<word>, elen1: nat, table2: seq<array<word>>, exp2: array<word>, elen2: nat, bits: nat,
               i: nat, mod: array<word>, mlen: nat, inv: word, ghost m: int, ghost g1: int, ghost ev1: nat,
               ghost g2: int, ghost ev2: nat, ghost all: set<array<word>>)
    returns (a: array<word>, anull: bool, b: array<word>, bnull: bool, c: array<word>)
    requires Modulus(mod, mlen, inv, m) && 0 < bits < 32 && i > 0
    requires Ladder(table1, mlen, g1, Two(bits), m) && Exponent(exp1, elen1, ev1, Two(bits), |table1|) && elen1 > 0
    requires Ladder(table2, mlen, g2, Two(bits), m) && Exponent(exp2, elen2, ev2, Two(bits), |table2|)
    requires all == {a0, b0, c0} && |all| == 3 && forall x :: x in all ==> 2 * mlen <= x.Length
    requires all !! {exp1, exp2, mod} && forall x :: x in all ==> x !in table1 && x !in table2
    requires Levels(a0, anull0, b0, bnull0, mlen, m, g1, ev1, g2, ev2, Two(bits), i + 1)
    modifies all
    ensures all == {a, b, c}
    ensures Levels(a, anull, b, bnull, mlen, m, g1, ev1, g2, ev2, Two(bits), i)
  {
    hide Val, Two, Modulus, Pow, Holds, Equal, AtLeast, Excess, Ladder, Both, Exponent;
    assert a0 != b0 && a0 != c0 && b0 != c0 by { Distinct(a0, b0, c0, all); }
    ghost var p := Two(bits);
    ghost var s1, s2, t1, t2 := AtLeast(ev1, p, i + 1), AtLeast(ev2, p, i + 1), Excess(ev1, p, i + 1),
      Excess(ev2, p, i + 1);
    a, anull := a0, anull0;
    b, c, bnull := PassBoth(b0, c0, table1, exp1, elen1, table2, exp2, elen2, bits, i, mod, mlen, inv, bnull0, m, g1,
                            ev1, g2, ev2, s1, s2);
    BucketStep(ev1, p, i);
    BucketStep(ev2, p, i);
    s1, s2 := AtLeast(ev1, p, i), AtLeast(ev2, p, i);
    if !bnull {
      a, c := Accumulate(a, b, c, mod, mlen, inv, anull, m, Both(g1, t1, g2, t2), Both(g1, s1, g2, s2));
      BothProduct(g1, t1, s1, g2, t2, s2);
      anull := false;
    }
  }

  lemma Distinct<T>(a: T, b: T, c: T, all: set<T>)
    requires all == {a, b, c} && |all| == 3
    ensures a != b && a != c && b != c
  {}

  lemma BothProduct(g1: int, t1: nat, s1: nat, g2: int, t2: nat, s2: nat)
    ensures Both(g1, t1, g2, t2) * Both(g1, s1, g2, s2) == Both(g1, t1 + s1, g2, t2 + s2)
  {
    var x := Both(g1, t1, g2, t2);
    BothGrow(g1, t1, g2, t2, s1);
    BothGrow(g1, t1 + s1, g2, t2, s2);
    hide Both;
    Associate(x, Pow(g1, s1), Pow(g2, s2));
    BothIs(g1, s1, g2, s2);
  }

  lemma BothIs(g1: int, s1: nat, g2: int, s2: nat)
    ensures Both(g1, s1, g2, s2) == Pow(g1, s1) * Pow(g2, s2)
  {}

  /** Walks the digit values from the top down; a ends up with g1^ev1 * g2^ev2. */
  method BucketLoop(a0: array<word>, b0: array<word>, c0: array<word>, table1: seq<array<word>>, exp1: array<word>,
                    elen1: nat, table2: seq<array<word>>, exp2: array<word>, elen2: nat, bits: nat, mod: array<word>,
                    mlen: nat, inv: word, ghost m: int, ghost g1: int, ghost ev1: nat, ghost g2: int, ghost ev2: nat,
                    ghost all: set<array<word>>)
    returns (a: array<word>)
    requires Modulus(mod, mlen, inv, m) && 0 < bits < 32
    requires Ladder(table1, mlen, g1, Two(bits), m) && Exponent(exp1, elen1, ev1, Two(bits), |table1|) && elen1 > 0
    requires Ladder(table2, mlen, g2, Two(bits), m) && Exponent(exp2, elen2, ev2, Two(bits), |table2|)
    requires all == {a0, b0, c0} && |all| == 3 && forall x :: x in all ==> 2 * mlen <= x.Length
    requires all !! {exp1, exp2, mod} && forall x :: x in all ==> x !in table1 && x !in table2
    modifies all
    ensures a in all && m > 0 && 2 * mlen <= a.Length && Val(a[mlen..2 * mlen]) == Mont(Both(g1, ev1, g2, ev2), m, mlen)
  {
    hide Val, Two, Modulus, Pow, Holds, Ladder, Both, Exponent, Levels, Mont;
    ModulusLen(mod, mlen, inv, m);
    var b, c;
    a, b, c := a0, b0, c0;
    var anull, bnull, i := true, true, Two(bits) - 1;
    LevelsStart(a, b, mlen, m, g1, ev1, g2, ev2, bits);
    while i != 0
      invariant 0 <= i && all == {a, b, c} && Modulus(mod, mlen, inv, m)
      invariant Ladder(table1, mlen, g1, Two(bits), m) && Exponent(exp1, elen1, ev1, Two(bits), |table1|)
      invariant Ladder(table2, mlen, g2, Two(bits), m) && Exponent(exp2, elen2, ev2, Two(bits), |table2|)
      invariant Levels(a, anull, b, bnull, mlen, m, g1, ev1, g2, ev2, Two(bits), i + 1)
    {
      a, anull, b, bnull, c := Level(a, anull, b, bnull, c, table1, exp1, elen1, table2, exp2, elen2, bits, i, mod,
                                     mlen, inv, m, g1, ev1, g2, ev2, all);
      i := i - 1;
    }
    LevelsEnd(a, anull, b, bnull, mlen, m, g1, ev1, g2, ev2, bits, exp1, elen1, |table1|);
  }

  /** result = g1^ev1 * g2^ev2 for a first exponent that is not zero. */
  method Buckets(result: array<word>, table1: seq<array<word>>, exp1: array<word>, elen1: nat, table2: seq<array<word>>,
                 exp2: array<word>, elen2: nat, bits: nat, mod: array<word>, mlen: nat, ghost m: int, ghost g1: int,
                 ghost ev1: nat, ghost g2: int, ghost ev2: nat)
    requires 0 < mlen <= mod.Length && mod[mlen - 1] != 0 && mod[0] % 2 == 1 && m == Val(mod[..mlen])
    requires 0 < bits < 32 && mlen <= result.Length && result != mod
    requires Ladder(table1, mlen, g1, Two(bits), m) && Exponent(exp1, elen1, ev1, Two(bits), |table1|) && elen1 > 0
    requires Ladder(table2, mlen, g2, Two(bits), m) && Exponent(exp2, elen2, ev2, Two(bits), |table2|)
    modifies result
    ensures m > 0 && Val(result[..mlen]) == Both(g1, ev1, g2, ev2) % m
    ensures forall i :: mlen <= i < result.Length ==> result[i] == old(result[i])
  {
    hide Val, Two, Modulus, Pow, Ladder, Both, Exponent, Mont;
    var inv := PrepareModulus(mod, mlen);
    var a, b, c := new word[2 * mlen], new word[2 * mlen], new word[2 * mlen];
    a := BucketLoop(a, b, c, table1, exp1, elen1, table2, exp2, elen2, bits, mod, mlen, inv, m, g1, ev1, g2, ev2,
                    {a, b, c});
    FromMontHigh(result, a, mod, mlen, inv, m, Both(g1, ev1, g2, ev2));
  }

  lemma LevelsStart(a: array<word>, b: array<word>, mlen: nat, m: int, g1: int, ev1: nat, g2: int, ev2: nat, bits: nat)
    requires bits > 0 && 2 * mlen <= a.Length && 2 * mlen <= b.Length && m > 0
    ensures Levels(a, true, b, true, mlen, m, g1, ev1, g2, ev2, Two(bits), Two(bits)) && Two(bits) > 1
  {
    TwoAbove(bits);
    BucketEnds(ev1, Two(bits));
    BucketEnds(ev2, Two(bits));
    PowAt0(g1);
    PowAt0(g2);
  }

  /** At the end a is not null, and holds the result. */
  lemma LevelsEnd(a: array<word>, anull: bool, b: array<word>, bnull: bool, mlen: nat, m: int, g1: int, ev1: nat,
                  g2: int, ev2: nat, bits: nat, exp1: array<word>, elen1: nat, n: nat)
    requires bits > 0 && Levels(a, anull, b, bnull, mlen, m, g1, ev1, g2, ev2, Two(bits), 1)
    requires Exponent(exp1, elen1, ev1, Two(bits), n) && elen1 > 0
    ensures !anull && m > 0 && 2 * mlen <= a.Length && Val(a[mlen..2 * mlen]) == Mont(Both(g1, ev1, g2, ev2), m, mlen)
  {
    TwoAbove(bits);
    BucketEnds(ev1, Two(bits));
    BucketEnds(ev2, Two(bits));
  }

  // ---- the library's entry points ----

  method NormExponent(exp: array<word>, elen: nat, ghost p: int, ghost n: nat) returns (el: nat, ghost ev: nat)
    requires elen <= exp.Length && Val(exp[..elen]) < Pow(p, n)
    ensures el <= elen && Exponent(exp, el, ev, p, n) && ev == Val(exp[..elen])
  {
    hide Val, Pow;
    el := Norm(exp, 0, elen);
    assert exp[0..el] == exp[..el] && exp[0..elen] == exp[..elen];
    ev := Magnitude(exp[..el]);
    if el > 0 { TopSet(exp[..el]); } else { ValEmpty(exp[..], 0); assert exp[..][0..0] == exp[..el]; }
  }

  /** result = g^exp modulo an odd modulus, for every exponent of up to |table| digits of the given number of bits. */
  method BasePrecompExp(result: array<word>, table: seq<array<word>>, bits: nat, exp: array<word>, elen: nat,
                        mod: array<word>, mlen: nat, ghost ml: nat, ghost g: int)
    requires Significant(mod, mlen, ml) && mod[0] % 2 == 1 && Val(mod[..ml]) > 0
    requires 0 < bits < 32 && elen <= exp.Length && ml <= result.Length && result != mod
    requires Ladder(table, ml, g, Two(bits), Val(mod[..ml])) && Val(exp[..elen]) < Pow(Two(bits), |table|)
    modifies result
    ensures old(Val(exp[..elen])) >= 0 && Val(mod[..ml]) > 0
    ensures Val(result[..ml]) == if old(Val(exp[..elen])) == 0 then 1
      else Pow(g, old(Val(exp[..elen]))) % Val(mod[..ml])
    ensures forall i :: ml <= i < result.Length ==> result[i] == old(result[i])
  {
    hide Val, Two, Pow, Ladder, Both;
    var n := NormTo(mod, mlen, ml);
    var el, ev := NormExponent(exp, elen, Two(bits), |table|);
    if el == 0 {
      Zero(result, 0, n);
      result[0] := 1;
      OneVal(result[..n]);
    } else {
      ghost var m := Val(mod[..ml]);
      AbsentExponent(exp, Two(bits), ml, m);
      Buckets(result, table, exp, el, [], exp, 0, bits, mod, n, m, g, ev, 1, 0);
      BothFirst(g, ev);
    }
  }

  lemma AbsentExponent(exp: array<word>, p: int, mlen: nat, m: int)
    requires m > 0 && p > 0
    ensures Exponent(exp, 0, 0, p, 0) && Ladder([], mlen, 1, p, m)
  {}

  lemma BothFirst(g: int, e: nat)
    ensures Both(g, e, 1, 0) == Pow(g, e)
  {}

  /** The product of two fixed-base powers is 1 for two zero exponents, whatever the modulus. */
  ghost function PairResult(g1: int, e1: nat, g2: int, e2: nat, m: int): int
    requires m > 0
  {
    if e1 == 0 && e2 == 0 then 1 else Both(g1, e1, g2, e2) % m
  }

  /** result = g1^exp1 * g2^exp2 from two ladders with digits of the same width. */
  method DoubleBasePrecompExp(result: array<word>, bits: nat, table1: seq<array<word>>, exp1: array<word>, elen1: nat,
                              table2: seq<array<word>>, exp2: array<word>, elen2: nat, mod: array<word>, mlen: nat,
                              ghost ml: nat, ghost g1: int, ghost g2: int)
    requires Significant(mod, mlen, ml) && mod[0] % 2 == 1 && Val(mod[..ml]) > 0
    requires 0 < bits < 32 && elen1 <= exp1.Length && elen2 <= exp2.Length && ml <= result.Length && result != mod
    requires Ladder(table1, ml, g1, Two(bits), Val(mod[..ml])) && Val(exp1[..elen1]) < Pow(Two(bits), |table1|)
    requires Ladder(table2, ml, g2, Two(bits), Val(mod[..ml])) && Val(exp2[..elen2]) < Pow(Two(bits), |table2|)
    modifies result
    ensures old(Val(exp1[..elen1])) >= 0 && old(Val(exp2[..elen2])) >= 0 && Val(mod[..ml]) > 0
    ensures Val(result[..ml]) == PairResult(g1, old(Val(exp1[..elen1])), g2, old(Val(exp2[..elen2])), Val(mod[..ml]))
    ensures forall i :: ml <= i < result.Length ==> result[i] == old(result[i])
  {
    hide Val, Two, Pow, Ladder, Both;
    ghost var m := Val(mod[..ml]);
    var n := NormTo(mod, mlen, ml);
    var el1, ev1 := NormExponent(exp1, elen1, Two(bits), |table1|);
    ghost var e2: nat := Magnitude(exp2[..elen2]);
    BothEdges(g1, ev1, g2, e2);
    if el1 == 0 {
      BasePrecompExp(result, table2, bits, exp2, elen2, mod, n, ml, g2);
      return;
    }
    var el2, ev2 := NormExponent(exp2, elen2, Two(bits), |table2|);
    if el2 == 0 {
      BasePrecompExp(result, table1, bits, exp1, el1, mod, n, ml, g1);
      return;
    }
    Buckets(result, table1, exp1, el1, table2, exp2, el2, bits, mod, n, m, g1, ev1, g2, ev2);
  }

  lemma BothEdges(g1: int, e1: nat, g2: int, e2: nat)
    ensures Both(g1, e1, g2, 0) == Pow(g1, e1) && Both(g1, 0, g2, e2) == Pow(g2, e2)
  {}

  /** Raises the number at word o of a to the power 2^bits, by squaring back and forth between a and b. */
  method SquareTimes(a0: array<word>, b0: array<word>, o: nat, bits: nat, mod: array<word>, mlen: nat, inv: word,
                     ghost m: int, ghost x: int)
    returns (a: array<word>, b: array<word>)
    requires Modulus(mod, mlen, inv, m) && m > 0 && bits > 0 && (o == 0 || o == mlen)
    requires 2 * mlen <= a0.Length && 2 * mlen <= b0.Length && a0 != b0 && a0 != mod && b0 != mod
    requires Val(a0[o..o + mlen]) == Mont(x, m, mlen)
    modifies a0, b0
    ensures (a == a0 && b == b0) || (a == b0 && b == a0)
    ensures Val(a[mlen..2 * mlen]) == Mont(Pow(x, Two(bits)), m, mlen)
  {
    hide Val, Two, Modulus, Pow, Mont;
    a, b := a0, b0;
    var i, ao := bits, o;
    PowAt0(x);
    TwoNext(0);
    while i != 0
      invariant 0 <= i <= bits && (i < bits ==> ao == mlen) && (ao == 0 || ao == mlen)
      invariant (a == a0 && b == b0) || (a == b0 && b == a0)
      invariant Modulus(mod, mlen, inv, m) && Val(a[ao..ao + mlen]) == Mont(Pow(x, Two(bits - i)), m, mlen)
    {
      MontSquare(b, a, ao, mod, mlen, inv, m, Pow(x, Two(bits - i)));
      DoublePower(x, Two(bits - i));
      TwoNext(bits - i);
      a, b := b, a;
      ao := mlen;
      i := i - 1;
    }
    assert a[ao..ao + mlen] == a[mlen..2 * mlen];
  }

  /** Fills the ladder's buffers with the forms of g, g^(2^bits), g^(2^(2 bits)), ... */
  method BasePrecompBegin(table: seq<array<word>>, bits: nat, g: array<word>, glen: nat, mod: array<word>, mlen: nat)
    requires 0 < mlen <= mod.Length && mod[mlen - 1] != 0 && mod[0] % 2 == 1 && glen <= mlen && glen <= g.Length
    requires bits > 0 && table != [] && g != mod && mod !in table && g !in table
    requires forall i :: 0 <= i < |table| ==> table[i].Length >= mlen
    requires forall i, j :: 0 <= i < j < |table| ==> table[i] != table[j]
    modifies table, mod
    ensures mod[..] == old(mod[..])
    ensures Ladder(table, mlen, Val(g[..glen]), Two(bits), Val(mod[..mlen]))
  {
    hide Val, Two, Modulus, Pow, Mont, Ladder;
    ghost var m, gv := Val(mod[..mlen]), Val(g[..glen]);
    var gl := Norm(g, 0, glen);
    assert g[0..gl] == g[..gl] && g[0..glen] == g[..glen];
    var a, b := new word[2 * mlen], new word[2 * mlen];
    var inv := PrepareModulus(mod, mlen);
    ModulusLen(mod, mlen, inv, m);
    ToMont(a, g, gl, mod, mlen, inv, m);
    assert a[0..mlen] == a[..mlen];
    Copy(table[0], 0, a, 0, mlen);
    LadderStart(table, mlen, gv, Two(bits), m, a[0..mlen]);
    Climb(table, bits, a, b, mod, mlen, inv, m, gv);
    assert g[..glen] == old(g[..glen]);
  }

  /** From the form of g in the low half of a, all further entries. */
  method Climb(table: seq<array<word>>, bits: nat, a0: array<word>, b0: array<word>, mod: array<word>, mlen: nat,
               inv: word, ghost m: int, ghost g: int)
    requires Modulus(mod, mlen, inv, m) && m > 0 && bits > 0 && table != [] && mod !in table && a0 !in table
      && b0 !in table
    requires a0 != b0 && a0 != mod && b0 != mod && 2 * mlen <= a0.Length && 2 * mlen <= b0.Length
    requires forall i :: 0 <= i < |table| ==> table[i].Length >= mlen
    requires forall i, j :: 0 <= i < j < |table| ==> table[i] != table[j]
    requires Ladder(table[..1], mlen, g, Two(bits), m) && Val(a0[0..mlen]) == Mont(Pow(g, Pow(Two(bits), 0)), m, mlen)
    modifies table, a0, b0
    ensures Ladder(table, mlen, g, Two(bits), m)
  {
    hide Val, Two, Modulus, Pow, Mont, Ladder;
    var a, b, n, o := a0, b0, 1, 0;
    while n != |table|
      invariant 1 <= n <= |table| && (o == 0 || o == mlen)
      invariant (a == a0 && b == b0) || (a == b0 && b == a0)
      invariant Modulus(mod, mlen, inv, m) && Ladder(table[..n], mlen, g, Two(bits), m)
      invariant Val(a[o..o + mlen]) == Mont(Pow(g, Pow(Two(bits), n - 1)), m, mlen)
    {
      a, b := SquareTimes(a, b, o, bits, mod, mlen, inv, m, Pow(g, Pow(Two(bits), n - 1)));
      o := mlen;
      NextRung(g, Two(bits), n);
      Copy(table[n], 0, a, mlen, mlen);
      LadderExtend(table, mlen, g, Two(bits), m, n, a[mlen..2 * mlen]);
      n := n + 1;
    }
    assert table[..n] == table;
  }

  lemma NextRung(g: int, p: int, n: nat)
    requires n > 0 && p > 0
    ensures Pow(Pow(g, Pow(p, n - 1)), p) == Pow(g, Pow(p, n))
  {
    PowMultiply(g, Pow(p, n - 1), p);
    assert Pow(p, n - 1) * p == Pow(p, n);
  }

  lemma LadderStart(table: seq<array<word>>, mlen: nat, g: int, p: int, m: int, s: seq<word>)
    requires m > 0 && p > 0 && |table| > 0 && table[0].Length >= mlen && table[0][0..mlen] == s
      && Val(s) == Mont(g, m, mlen)
    ensures Ladder(table[..1], mlen, g, p, m) && Val(s) == Mont(Pow(g, Pow(p, 0)), m, mlen)
  {
    PowAt0(g);
    PowAt0(p);
    assert table[0][..mlen] == s;
  }

  lemma LadderExtend(table: seq<array<word>>, mlen: nat, g: int, p: int, m: int, n: nat, s: seq<word>)
    requires n < |table| && Ladder(table[..n], mlen, g, p, m) && table[n].Length >= mlen && table[n][0..mlen] == s
    requires m > 0 && p > 0 && Val(s) == Mont(Pow(g, Pow(p, n)), m, mlen)
    ensures Ladder(table[..n + 1], mlen, g, p, m)
  {
    hide Val, Pow, Mont;
    assert table[n][..mlen] == s;
    forall k | 0 <= k < n + 1
      ensures table[..n + 1][k].Length >= mlen && Val(table[..n + 1][k][..mlen]) == Mont(Pow(g, Pow(p, k)), m, mlen)
    {
      if k < n { assert table[..n][k] == table[..n + 1][k]; }
    }
  }
}
