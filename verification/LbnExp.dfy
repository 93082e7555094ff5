/** Windowed modular exponentiation. */
module LbnExp {
  import opened Arith
  import opened Words
  import opened LbnBasic
  import opened LbnMont
  import opened Window
  import opened ExpReader

  const MAX_WINDOW := 7

  /** The largest exponent, in bits, to process with a window of i + 1 bits. */
  const ThreshTable: seq<nat> := [5, 23, 80, 240, 672, 1792, 0xFFFF_FFFF]

  method WindowBits(ebits: nat) returns (w: nat)
    requires 0 < ebits < B
    ensures w < MAX_WINDOW && w < ebits
    ensures forall i :: 0 <= i < w ==> ebits > ThreshTable[i]
    ensures ebits <= ThreshTable[w]
  {
    w := 0;
    while ebits > ThreshTable[w]
      invariant w < MAX_WINDOW
      invariant forall i :: 0 <= i < w ==> ebits > ThreshTable[i]
      decreases MAX_WINDOW - w
    {
      w := w + 1;
    }
    assert w > 0 ==> ebits > ThreshTable[0];
    assert w > 1 ==> ebits > ThreshTable[1];
  }

  /** table[i] holds the Montgomery form of g^(2i+1). */
  ghost predicate OddPowers(table: seq<array<word>>, mlen: nat, g: int, m: int)
    reads table
  {
    m > 0 && forall i :: 0 <= i < |table| ==>
      table[i].Length >= mlen && Val(table[i][..mlen]) == Mont(Pow(g, 2 * i + 1), m, mlen)
  }

  /** The accumulator in the high half of b stands for x; while isone is set it stands for 1 implicitly. */
  ghost predicate Holds(b: array<word>, mlen: nat, isone: bool, x: int, m: int)
    reads b
  {
    m > 0 && 2 * mlen <= b.Length && if isone then x == 1 else Val(b[mlen..2 * mlen]) == Mont(x, m, mlen)
  }

  method MultiplyIn(a: array<word>, b: array<word>, mult: array<word>, mod: array<word>, mlen: nat, inv: word,
                    isone: bool, ghost m: int, ghost x: int, ghost y: int) returns (a': array<word>, b': array<word>)
    requires Modulus(mod, mlen, inv, m) && Holds(b, mlen, isone, x, m)
    requires 2 * mlen <= a.Length && mlen <= mult.Length && a != b && mult != a && mult != b && mod != a && mod != b
    requires Val(mult[..mlen]) == Mont(y, m, mlen)
    modifies a, b
    ensures (a' == a && b' == b) || (a' == b && b' == a)
    ensures Holds(b', mlen, false, x * y, m)
  {
    hide Val, Mont, Modulus;
    a', b' := a, b;
    assert mult[0..mlen] == mult[..mlen];
    if isone {
      ModulusLen(mod, mlen, inv, m);
      Copy(b, mlen, mult, 0, mlen);
    } else {
      MontMul(a, b, mlen, mult, 0, mod, mlen, inv, m, x, y);
      a', b' := b, a;
    }
  }

  method SquareIn(a: array<word>, b: array<word>, mod: array<word>, mlen: nat, inv: word, isone: bool, ghost m: int,
                  ghost x: int)
    returns (a': array<word>, b': array<word>)
    requires Modulus(mod, mlen, inv, m) && Holds(b, mlen, isone, x, m)
    requires 2 * mlen <= a.Length && a != b && mod != a && mod != b
    modifies a, b
    ensures (a' == a && b' == b) || (a' == b && b' == a)
    ensures Holds(b', mlen, isone, x * x, m)
  {
    hide Val, Mont, Modulus;
    a', b' := a, b;
    if !isone {
      MontSquare(a, b, mlen, mod, mlen, inv, m, x);
      a', b' := b, a;
    }
  }

  lemma ModulusLen(mod: array<word>, mlen: nat, inv: word, m: int)
    requires Modulus(mod, mlen, inv, m)
    ensures 0 < mlen <= mod.Length && m > 0 && m % 2 == 1
  {}

  /** Shifts out trailing zeros, moving the position up; intermediate positions may be below zero. */
  method StripZeros(buf: nat, start: int) returns (odd: nat, pos: int)
    requires buf > 0
    ensures odd % 2 == 1 && pos >= start && buf == odd * Two(pos - start)
  {
    hide Two;
    odd, pos := buf, start;
    TwoNext(0);
    while odd % 2 == 0
      invariant odd > 0 && pos >= start && buf == odd * Two(pos - start)
      decreases odd
    {
      TwoNext(pos - start);
      assert odd * Two(pos - start) == odd / 2 * (2 * Two(pos - start));
      odd := odd / 2;
      pos := pos + 1;
    }
  }

  /** Fills the table of odd powers, leaving the form of g^2 in the high half of b. */
  method BuildTable(result: array<word>, a: array<word>, b: array<word>, mod: array<word>, mlen: nat, inv: word,
                    size: nat, ghost m: int, ghost g: int) returns (table: seq<array<word>>)
    requires Modulus(mod, mlen, inv, m) && size > 0
    requires 2 * mlen <= a.Length && 2 * mlen <= b.Length && mlen <= result.Length
    requires a != b && a != mod && b != mod && result != a && result != b && result != mod
    requires Val(a[..mlen]) == Mont(g, m, mlen)
    modifies a, b, result
    ensures |table| == size && a !in table && b !in table && OddPowers(table, mlen, g, m)
    ensures forall i :: 0 <= i < |table| ==> table[i] == result || fresh(table[i])
    ensures Val(b[mlen..2 * mlen]) == Mont(g * g, m, mlen)
    ensures forall i :: mlen <= i < result.Length ==> result[i] == old(result[i])
  {
    hide Val, Mont, Modulus;
    ModulusLen(mod, mlen, inv, m);
    Copy(result, 0, a, 0, mlen);
    assert result[..mlen] == result[0..mlen] && a[0..mlen] == a[..mlen];
    MontSquare(b, a, 0, mod, mlen, inv, m, g);
    table := [result];
    PowAt0(g);
    table := ExtendTable(table, a, b, mlen, mod, mlen, inv, size, m, g);
  }

  method ExtendTable(table0: seq<array<word>>, a: array<word>, b: array<word>, so: nat, mod: array<word>, mlen: nat,
                     inv: word, size: nat, ghost m: int, ghost g: int) returns (table: seq<array<word>>)
    requires Modulus(mod, mlen, inv, m) && |table0| == 1 && size > 0 && OddPowers(table0, mlen, g, m)
    requires 2 * mlen <= a.Length && so + mlen <= b.Length && a != b && a != mod && b != mod && a !in table0
    requires Val(b[so..so + mlen]) == Mont(g * g, m, mlen)
    modifies a
    ensures |table| == size && OddPowers(table, mlen, g, m)
    ensures forall i :: 0 <= i < |table| ==> table[i] == table0[0] || fresh(table[i])
  {
    hide Val, Mont, Modulus, OddPowers;
    table := table0;
    var i := 1;
    while i < size
      invariant 1 <= i <= size && |table| == i
      invariant OddPowers(table, mlen, g, m)
      invariant forall k :: 0 <= k < i ==> table[k] == table0[0] || fresh(table[k])
    {
      table := NextOddPower(table, a, b, so, mod, mlen, inv, m, g);
      i := i + 1;
    }
  }

  /** Extends the table by one power, given the square at word so of b. */
  method NextOddPower(table: seq<array<word>>, a: array<word>, b: array<word>, so: nat, mod: array<word>, mlen: nat,
                      inv: word, ghost m: int, ghost g: int) returns (table': seq<array<word>>)
    requires Modulus(mod, mlen, inv, m) && table != [] && OddPowers(table, mlen, g, m)
    requires 2 * mlen <= a.Length && so + mlen <= b.Length && a != b && a != mod && b != mod && a !in table
    requires Val(b[so..so + mlen]) == Mont(g * g, m, mlen)
    modifies a
    ensures |table'| == |table| + 1 && table'[..|table|] == table && fresh(table'[|table|])
    ensures OddPowers(table', mlen, g, m)
  {
    hide Val, Mont, Modulus;
    ModulusLen(mod, mlen, inv, m);
    var i := |table|;
    var prev := table[i - 1];
    assert prev in table;
    assert prev[0..mlen] == prev[..mlen];
    MontMul(a, b, so, prev, 0, mod, mlen, inv, m, g * g, Pow(g, 2 * i - 1));
    assert g * g * Pow(g, 2 * i - 1) == Pow(g, 2 * i + 1) by {
      assert Pow(g, 2 * i + 1) == g * Pow(g, 2 * i) == g * (g * Pow(g, 2 * i - 1));
      Associate(g, g, Pow(g, 2 * i - 1));
    }
    var t := new word[mlen];
    Copy(t, 0, a, mlen, mlen);
    assert t[..mlen] == t[0..mlen];
    table' := table + [t];
    assert forall k :: 0 <= k < i ==> table'[k] == table[k];
  }

  /** A multiplier that is still due is odd and has an entry in the table. */
  ghost predicate Tabled(v: nat, mp: int, lim: nat, bits: nat) {
    mp < lim ==> v % 2 == 1 && 0 < v < Two(bits)
  }

  /**
   * Moves the window's top to position pos and takes in one bit.  If the top bit of the buffer is now set, the
   * bits above the lowest delta are scheduled; the odd power v and its position replace the previous ones.
   */
  method Slide(buf: nat, bit: nat, pos: nat, w: nat, delta: nat, v: nat, mp: int, ghost e: nat, ghost c: int)
    returns (buf': nat, v': nat, mp': int)
    requires Win(e, c * Two(pos + w), v, mp, pos + 1, buf, pos + 1, w) && bit == NextBit(e, pos, w)
    requires buf < Two(w) && delta <= w && Tabled(v, mp, pos + 1, w - delta + 1)
    ensures Win(e, c * Two(pos + w), v', mp', pos + 1, buf', pos, w)
    ensures buf' < Two(w) && Tabled(v', mp', pos + 1, w - delta + 1)
  {
    hide Two, Win;
    WinRead(e, c * Two(pos + w), v, mp, pos + 1, buf, pos, w, bit);
    buf', v', mp' := 2 * buf + bit, v, mp;
    TwoNext(w);
    if (buf' / Two(w)) % 2 != 0 {
      MaskSet(buf', Two(w));
      var low := buf' % Two(delta);
      TopPositive(buf', w, delta);
      v', mp' := StripZeros(buf' / Two(delta), pos - w + delta);
      WinSchedule(e, c * Two(pos + w), c, v, mp, buf', pos, w, delta, mp' - (pos - w + delta), v');
      TwoMonotone(delta, w);
      buf' := low;
    } else {
      MaskClear(buf', Two(w));
    }
  }

  lemma MaskSet(x: nat, p: int)
    requires p > 0 && (x / p) % 2 != 0
    ensures x >= p
  {
    assert x == (x / p) * p + x % p;
    if x < p { DivModUnique(x, p, 0, x); }
  }

  lemma MaskClear(x: nat, p: int)
    requires p > 0 && x < 2 * p && (x / p) % 2 == 0
    ensures x < p
  {
    if x >= p { DivModUnique(x, p, 1, x - p); }
  }

  lemma TopPositive(x: nat, w: nat, delta: nat)
    requires x >= Two(w) && delta <= w
    ensures x / Two(delta) > 0
  {
    TwoMonotone(delta, w);
    assert x == (x / Two(delta)) * Two(delta) + x % Two(delta);
    if x / Two(delta) <= 0 { Scale(x / Two(delta), 0, Two(delta)); }
  }

  /** The main loop: advance the window, perform a multiply that is due, square, until the exponent is used up. */
  method ExpLoop(a0: array<word>, b0: array<word>, table: seq<array<word>>, e: array<word>, len: nat, mod: array<word>,
                 mlen: nat, inv: word, w: nat, start: nat, v0: nat, mp0: int, isone0: bool, elen0: nat, bitpos0: int,
                 ghost m: int, ghost g: int, ghost acc0: nat, ghost ev: nat) returns (b: array<word>)
    requires Modulus(mod, mlen, inv, m) && OddPowers(table, mlen, g, m) && |table| == Two(w)
    requires 2 * mlen <= a0.Length && 2 * mlen <= b0.Length && len <= e.Length && ev == Val(e[..len]) && ev > 0
    requires a0 != b0 && a0 !in table && b0 !in table && mod != a0 && mod != b0 && e != a0 && e != b0
    requires start > 0 && Reader(elen0, bitpos0, Unread(start, w)) && start <= 32 * len
    requires Holds(b0, mlen, isone0, Pow(g, acc0), m) && (isone0 ==> acc0 == 0)
    requires Win(ev, acc0 * Two(start - 1 + w), v0, mp0, start, 0, start, w) && Tabled(v0, mp0, start, w + 1)
    modifies a0, b0
    ensures b == a0 || b == b0
    ensures Holds(b, mlen, false, Pow(g, ev), m)
  {
    hide Val, Two, Win, Reader, Modulus, Holds, OddPowers, NextBit;
    ghost var acc: nat := acc0;
    var a;
    a, b := a0, b0;
    var buf, v, mp, isone, elen, bitpos, ebits := 0, v0, mp0, isone0, elen0, bitpos0, start;
    while true
      invariant 0 < ebits <= start
      invariant (a == a0 && b == b0) || (a == b0 && b == a0)
      invariant ev == Val(e[..len]) && OddPowers(table, mlen, g, m) && Modulus(mod, mlen, inv, m)
      invariant Reader(elen, bitpos, Unread(ebits, w)) && 0 <= buf < Two(w)
      invariant Holds(b, mlen, isone, Pow(g, acc), m) && (isone ==> acc == 0)
      invariant Win(ev, acc * Two(ebits - 1 + w), v, mp, ebits, buf, ebits, w) && Tabled(v, mp, ebits, w + 1)
      decreases ebits
    {
      ebits := ebits - 1;
      var bit;
      bit, elen, bitpos := ReadBit(e, elen, bitpos, len, Unread(ebits + 1, w));
      NextBitRead(ev, ebits, w);
      buf, v, mp := Slide(buf, bit, ebits, w, 0, v, mp, ev, acc);
      WinFinish(ev, acc * Two(ebits + w), v, mp, buf, ebits, w);
      if ebits == mp {
        a, b := MultiplyEntry(a, b, table, v, mod, mlen, inv, isone, m, g, Pow(g, acc), w);
        PowAdd(g, acc, v);
        isone := false;
        Collect(acc, v, Two(ebits + w));
        acc := acc + v;
      }
      if ebits == 0 {
        WinEnd(ev, acc, v, mp, buf, w);
        break;
      }
      a, b := SquareIn(a, b, mod, mlen, inv, isone, m, Pow(g, acc));
      DoublePower(g, acc);
      Halved(acc, ebits - 1 + w);
      acc := 2 * acc;
    }
  }

  lemma NextBitRead(e: nat, pos: nat, w: nat)
    ensures NextBit(e, pos, w) == if Unread(pos + 1, w) == 0 then 0 else (e / Two(Unread(pos + 1, w) - 1)) % 2
    ensures Unread(pos, w) == if Unread(pos + 1, w) == 0 then 0 else Unread(pos + 1, w) - 1
  {}

  lemma Collect(acc: int, v: int, p: int)
    ensures acc * p + v * p == (acc + v) * p
  {}

  lemma DoublePower(g: int, acc: nat)
    ensures Pow(g, acc) * Pow(g, acc) == Pow(g, 2 * acc)
  {
    PowAdd(g, acc, acc);
  }

  lemma Halved(acc: int, k: nat)
    ensures 2 * acc * Two(k) == acc * Two(k + 1)
  {}

  /** Multiplies the accumulator, which stands for x, by the table entry for g^v. */
  method MultiplyEntry(a: array<word>, b: array<word>, table: seq<array<word>>, v: nat, mod: array<word>, mlen: nat,
                       inv: word, isone: bool, ghost m: int, ghost g: int, ghost x: int, ghost w: nat)
    returns (a': array<word>, b': array<word>)
    requires Modulus(mod, mlen, inv, m) && OddPowers(table, mlen, g, m) && |table| == Two(w)
    requires v % 2 == 1 && 0 < v < Two(w + 1) && Holds(b, mlen, isone, x, m)
    requires 2 * mlen <= a.Length && a != b && a !in table && b !in table && mod != a && mod != b
    modifies a, b
    ensures (a' == a && b' == b) || (a' == b && b' == a)
    ensures Holds(b', mlen, false, x * Pow(g, v), m)
  {
    hide Val, Two, Modulus, Mont, Holds;
    TwoNext(w);
    var mult := table[v / 2];
    assert mult in table;
    assert Val(mult[..mlen]) == Mont(Pow(g, 2 * (v / 2) + 1), m, mlen);
    a', b' := MultiplyIn(a, b, mult, mod, mlen, inv, isone, m, x, Pow(g, v));
  }

  lemma DivStep(e: nat, k: nat)
    ensures e / Two(k) == 2 * (e / Two(k + 1)) + (e / Two(k)) % 2
  {
    TwoNext(k);
    DivDiv(e, Two(k), 2);
    assert Two(k + 1) == Two(k) * 2;
  }

  /** Loads the first w + 1 bits of an exponent of ebits bits. */
  method Preload(e: array<word>, len: nat, ebits: nat, w: nat, ghost ev: nat) returns (buf: nat, elen: nat, bitpos: int)
    requires len <= e.Length && ev == Val(e[..len]) && w < ebits <= 32 * len && 32 * (len - 1) < ebits
      && ev < Two(ebits)
    ensures buf == ev / Two(ebits - 1 - w) && Reader(elen, bitpos, ebits - 1 - w)
  {
    hide Val, Two;
    elen, bitpos := len, Two((ebits - 1) % 32);
    buf := 0;
    DivModUnique(ev, Two(ebits), 0, ev);
    var i := 0;
    while i <= w
      invariant 0 <= i <= w + 1
      invariant buf == ev / Two(ebits - i) && Reader(elen, bitpos, ebits - i)
    {
      var bit;
      bit, elen, bitpos := ReadBit(e, elen, bitpos, len, ebits - i);
      DivStep(ev, ebits - i - 1);
      buf := 2 * buf + bit;
      i := i + 1;
    }
  }

  /** The window before anything is scheduled: all of the exponent is in the buffer or unread. */
  lemma WinStart(e: nat, buf: nat, pos: nat, w: nat)
    requires e < Two(pos + 1) && w <= pos && buf == e / Two(pos - w)
    ensures Win(e, 0 * Two(pos + w), 0, pos + 1, pos + 1, buf, pos, w)
    ensures buf < Two(w + 1) && (e >= Two(pos) ==> buf >= Two(w))
  {
    hide Two;
    TwoAdd(pos - w, w);
    TwoAdd(pos - w, w + 1);
    QuotientRange(e, Two(pos - w), Two(w), Two(w + 1));
    assert 0 * Two(pos + w) == 0;
  }

  lemma QuotientRange(e: nat, p: int, t: int, u: int)
    requires p > 0 && e < p * u
    ensures 0 <= e / p < u && (e >= p * t ==> e / p >= t)
    ensures t * e == e / p * (p * t) + t * (e % p)
  {
    DivBelow(e, p, u);
    var q, r := e / p, e % p;
    assert e == p * q + r;
    if q < t { Scale(q + 1, t, p); }
    calc {
      t * (p * q + r);
      t * (p * q) + t * r;
      { assert t * (p * q) == q * (p * t); }
      q * (p * t) + t * r;
    }
  }

  /**
   * The first step: if the top bit of the buffer is set a multiply is scheduled at once.  If it is due
   * immediately it is for g^1, and the already computed g^2 saves the squaring that would follow: due says so.
   */
  method FirstStep(buf: nat, pos: nat, w: nat, delta: nat, ghost e: nat) returns (buf': nat, v: nat, mp: int, due: bool)
    requires e < Two(pos + 1) && w <= pos && pos > 0 && delta <= w && buf == e / Two(pos - w)
    ensures Win(e, (if due then 2 else 0) * Two(pos - 1 + w), v, mp, pos, buf', pos, w)
    ensures buf' < Two(w) && Tabled(v, mp, pos, w - delta + 1)
    ensures delta == 0 && e >= Two(pos) ==> buf' == 0
  {
    hide Two, Win;
    WinStart(e, buf, pos, w);
    buf', v, mp := buf, 0, pos + 1;
    TwoNext(w);
    if (buf / Two(w)) % 2 != 0 {
      MaskSet(buf, Two(w));
      TopPositive(buf, w, delta);
      v, mp := StripZeros(buf / Two(delta), pos - w + delta);
      WinSchedule(e, 0 * Two(pos + w), 0, 0, pos + 1, buf, pos, w, delta, mp - (pos - w + delta), v);
      TwoMonotone(delta, w);
      if mp == pos { DueIsOne(buf, v, w, delta); }
      buf' := buf % Two(delta);
      TwoNext(0);
    } else {
      MaskClear(buf, Two(w));
    }
    due := mp == pos;
    WinFinish(e, 0 * Two(pos + w), v, mp, buf', pos, w);
    TwoNext(pos - 1 + w);
  }

  lemma DueIsOne(buf: nat, v: nat, w: nat, delta: nat)
    requires delta <= w && buf < Two(w + 1) && buf / Two(delta) == v * Two(w - delta) && v > 0
    ensures v == 1
  {
    hide Two;
    TwoAdd(delta, w - delta + 1);
    DivBelow(buf, Two(delta), Two(w - delta + 1));
    TwoNext(w - delta);
    if v >= 2 { Scale(2, v, Two(w - delta)); }
  }

  /** The cases decided by the exponent's length alone. */
  method ExpTrivial(result: array<word>, n: array<word>, nlen: nat, mlen: nat, zero: bool)
    requires 0 < mlen <= result.Length && nlen <= n.Length && nlen <= mlen
    modifies result
    ensures Val(result[..mlen]) == if zero then 1 else old(Val(n[..nlen]))
    ensures forall i :: mlen <= i < result.Length ==> result[i] == old(result[i])
  {
    hide Val;
    if zero {
      Zero(result, 0, mlen);
      result[0] := 1;
      OneVal(result[..mlen]);
    } else {
      if n != result { Copy(result, 0, n, 0, nlen); }
      ghost var s := result[..nlen];
      assert n == result || s == result[0..nlen] == n[0..nlen] == n[..nlen];
      if mlen > nlen { Zero(result, nlen, mlen - nlen); }
      ValHigh(result[..mlen], nlen);
      assert result[..mlen][..nlen] == s;
    }
  }

  lemma OneVal(s: seq<word>)
    requires s != [] && s[0] == 1 && forall i :: 0 < i < |s| ==> s[i] == 0
    ensures Val(s) == 1
  {
    ValZero(s[1..]);
  }

  /** What the exponentiation returns: for exponent 1 the base is copied as it is. */
  function ExpResult(n: nat, e: nat, m: int): int
    requires m > 0
  {
    if e == 0 then 1 else if e == 1 then n else Pow(n, e) % m
  }

  /** That is n^e mod m exactly when the modulus is not 1 for exponent 0, and the base is reduced for exponent 1. */
  lemma ExpResultIsPower(n: nat, e: nat, m: int)
    requires m > 0
    ensures ExpResult(n, e, m) == Pow(n, e) % m <==> (e == 0 ==> m > 1) && (e == 1 ==> n < m)
  {
    PowAt0(n);
    if m > 1 { DivModUnique(1, m, 0, 1); }
    if n < m { DivModUnique(n, m, 0, n); }
  }

  /** result = n^e modulo an odd modulus.  The base may be the result buffer itself. */
  method ExpMod(result: array<word>, n: array<word>, nlen: nat, e: array<word>, elen: nat, mod: array<word>, mlen: nat)
    requires 0 < mlen <= mod.Length && mlen <= result.Length && nlen <= mlen && nlen <= n.Length && elen <= e.Length
    requires mod[mlen - 1] != 0 && mod[0] % 2 == 1 && 32 * elen < B
    requires result != mod && result != e && n != mod && e != mod
    modifies result, mod
    ensures mod[..] == old(mod[..])
    ensures Val(mod[..mlen]) > 0 && Val(e[..elen]) >= 0 && old(Val(n[..nlen])) >= 0
    ensures Val(result[..mlen]) == ExpResult(old(Val(n[..nlen])), Val(e[..elen]), Val(mod[..mlen]))
    ensures forall i :: mlen <= i < result.Length ==> result[i] == old(result[i])
  {
    hide Val, Two, Modulus, OddPowers, Win, Reader, Tabled, Pow;
    ghost var m, ev: nat, nv: nat := Val(mod[..mlen]), Magnitude(e[..elen]), Magnitude(n[..nlen]);
    var inv := PrepareModulus(mod, mlen);
    ModulusLen(mod, mlen, inv, m);
    var el := Norm(e, 0, elen);
    assert e[0..elen] == e[..elen] && e[0..el] == e[..el];
    var ebits := Bits(e, 0, el);
    if el == 0 || ebits == 1 {
      ShortExponent(e[..el], ebits, ev);
      ExpTrivial(result, n, nlen, mlen, el == 0);
      return;
    }
    LongExponent(ebits, ev);
    ExpLong(result, n, nlen, e, el, mod, mlen, inv, ebits, m, nv, ev);
  }

  lemma LongExponent(bits: nat, v: int)
    requires bits > 1 && Pow(2, bits - 1) <= v
    ensures v > 1
  {
    PowMonotone(2, 1, bits - 1);
  }

  /** Exponents of at least two bits: builds the table of odd powers and slides the window. */
  method ExpLong(result: array<word>, n: array<word>, nlen: nat, e: array<word>, len: nat, mod: array<word>, mlen: nat,
                 inv: word, ebits: nat, ghost m: int, ghost nv: nat, ghost ev: nat)
    requires Modulus(mod, mlen, inv, m) && 0 < mlen && mlen <= result.Length && nlen <= mlen && nlen <= n.Length
      && 0 < len <= e.Length
    requires result != mod && result != e && n != mod && e != mod
    requires ev == Val(e[..len]) && nv == Val(n[..nlen])
    requires 1 < ebits <= 32 * len < B && 32 * (len - 1) < ebits && Pow(2, ebits - 1) <= ev < Pow(2, ebits)
    modifies result, mod
    ensures mod[..] == old(mod[..])
    ensures m > 0 && Val(result[..mlen]) == Pow(nv, ev) % m
    ensures forall i :: mlen <= i < result.Length ==> result[i] == old(result[i])
  {
    hide Val, Two, Modulus, OddPowers, Win, Reader, Tabled, Pow, Mont;
    ModulusLen(mod, mlen, inv, m);
    var w := WindowBits(ebits);
    var a, b := new word[2 * mlen], new word[2 * mlen];
    ToMont(a, n, nlen, mod, mlen, inv, m);
    var table := BuildTable(result, a, b, mod, mlen, inv, Two(w), m, nv);
    b := ExpBits(a, b, table, e, len, mod, mlen, inv, w, ebits, m, nv, ev);
    FromMontHigh(result, b, mod, mlen, inv, m, Pow(nv, ev));
  }

  ghost function Magnitude(s: seq<word>): (v: nat)
    ensures v == Val(s)
  {
    ValBound(s);
    Val(s)
  }

  lemma ShortExponent(s: seq<word>, bits: nat, v: int)
    requires v == Val(s) && (s == [] || bits == 1)
    requires bits > 0 ==> Pow(2, bits - 1) <= v < Pow(2, bits)
    ensures v == if s == [] then 0 else 1
  {
    PowAt0(2);
  }

  /** The bit-by-bit part of the exponentiation, for exponents of at least two bits. */
  method ExpBits(a: array<word>, b0: array<word>, table: seq<array<word>>, e: array<word>, len: nat, mod: array<word>,
                 mlen: nat, inv: word, w: nat, ebits: nat, ghost m: int, ghost g: nat, ghost ev: nat)
    returns (b: array<word>)
    requires Modulus(mod, mlen, inv, m) && OddPowers(table, mlen, g, m) && |table| == Two(w)
    requires 2 * mlen <= a.Length && 2 * mlen <= b0.Length && 0 < len <= e.Length && ev == Val(e[..len])
    requires 1 < ebits <= 32 * len && 32 * (len - 1) < ebits && w < ebits && Pow(2, ebits - 1) <= ev < Pow(2, ebits)
    requires a != b0 && a !in table && b0 !in table && mod != a && mod != b0 && e != a && e != b0
    requires Val(b0[mlen..2 * mlen]) == Mont(g * g, m, mlen)
    modifies a, b0
    ensures b == a || b == b0
    ensures 2 * mlen <= b.Length && Val(b[mlen..2 * mlen]) == Mont(Pow(g, ev), m, mlen)
  {
    hide Val, Modulus, OddPowers, Win, Reader, Tabled, Pow, Two;
    TwoIs(ebits - 1);
    TwoIs(ebits);
    PowAt2(g);
    ModulusLen(mod, mlen, inv, m);
    var buf, elen, bitpos := Preload(e, len, ebits, w, ev);
    var rest, v, mp, due := FirstStep(buf, ebits - 1, w, 0, ev);
    b := ExpLoop(a, b0, table, e, len, mod, mlen, inv, w, ebits - 1, v, mp, !due, elen, bitpos, m, g,
                 if due then 2 else 0, ev);
  }

  lemma PowAt2(g: int)
    ensures Pow(g, 0) == 1 && Pow(g, 2) == g * g
  {}
}
