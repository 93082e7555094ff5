/** Simultaneous exponentiation: n1^e1 * n2^e2 with two windows sharing one pass over the exponents. */
module LbnDoubleExp {
  import opened Arith
  import opened Words
  import opened LbnBasic
  import opened LbnMul
  import opened LbnKnuth
  import opened LbnMont
  import opened Window
  import opened ExpReader
  import opened LbnExp

  /** The second exponent's bit at the reader's position; above its own words it reads as zero. */
  method ReadSecond(e2: array<word>, len2: nat, elen: nat, bitpos: int, ghost r: nat, ghost ev: nat) returns (bit: nat)
    requires Reader(elen, bitpos, r) && len2 <= e2.Length && ev == Val(e2[..len2])
    ensures bit == if r == 0 then 0 else (ev / Two(r - 1)) % 2
  {
    hide Two, Val;
    bit := 0;
    if elen != 0 && elen <= len2 {
      bit := (e2[elen - 1] / bitpos) % 2;
      BitOfWord(e2[..len2], r - 1);
      assert e2[..len2][elen - 1] == e2[elen - 1];
    } else if elen != 0 {
      AboveNumber(e2[..len2], r - 1);
    }
  }

  lemma AboveNumber(s: seq<word>, p: nat)
    requires p >= 32 * |s|
    ensures Val(s) / Two(p) == 0
  {
    ValBound(s);
    WordPower(|s|);
    TwoMonotone(32 * |s|, p);
    DivModUnique(Val(s), Two(p), 0, Val(s));
  }

  /** Loads both windows. */
  method PreloadBoth(e1: array<word>, len1: nat, e2: array<word>, len2: nat, ebits: nat, w: nat, ghost ev1: nat,
                     ghost ev2: nat)
    returns (buf1: nat, buf2: nat, elen: nat, bitpos: int)
    requires len1 <= e1.Length && ev1 == Val(e1[..len1]) && w < ebits <= 32 * len1 && 32 * (len1 - 1) < ebits
      && ev1 < Two(ebits)
    requires len2 <= e2.Length && ev2 == Val(e2[..len2]) && ev2 < Two(ebits)
    ensures buf1 == ev1 / Two(ebits - 1 - w) && buf2 == ev2 / Two(ebits - 1 - w) && Reader(elen, bitpos, ebits - 1 - w)
  {
    hide Val, Two, Reader;
    ReaderStart(len1, ebits);
    elen, bitpos := len1, Two((ebits - 1) % 32);
    buf1, buf2 := 0, 0;
    DivModUnique(ev1, Two(ebits), 0, ev1);
    DivModUnique(ev2, Two(ebits), 0, ev2);
    var i := 0;
    while i <= w
      invariant 0 <= i <= w + 1
      invariant buf1 == ev1 / Two(ebits - i) && buf2 == ev2 / Two(ebits - i) && Reader(elen, bitpos, ebits - i)
    {
      var bit2 := ReadSecond(e2, len2, elen, bitpos, ebits - i, ev2);
      var bit1;
      bit1, elen, bitpos := ReadBit(e1, elen, bitpos, len1, ebits - i);
      DivStep(ev1, ebits - i - 1);
      DivStep(ev2, ebits - i - 1);
      buf1, buf2 := 2 * buf1 + bit1, 2 * buf2 + bit2;
      i := i + 1;
    }
  }

  /** One factor of the accumulator after acc steps of its exponent, and the two together. */
  ghost function Both(g1: int, acc1: nat, g2: int, acc2: nat): int {
    Pow(g1, acc1) * Pow(g2, acc2)
  }

  lemma BothGrow(g1: int, acc1: nat, g2: int, acc2: nat, v: nat)
    ensures Both(g1, acc1, g2, acc2) * Pow(g1, v) == Both(g1, acc1 + v, g2, acc2)
    ensures Both(g1, acc1, g2, acc2) * Pow(g2, v) == Both(g1, acc1, g2, acc2 + v)
  {
    PowAdd(g1, acc1, v);
    PowAdd(g2, acc2, v);
    Swap(Pow(g1, acc1), Pow(g2, acc2), Pow(g1, v));
    Associate(Pow(g1, acc1), Pow(g2, acc2), Pow(g2, v));
  }

  lemma BothSquare(g1: int, acc1: nat, g2: int, acc2: nat)
    ensures Both(g1, acc1, g2, acc2) * Both(g1, acc1, g2, acc2) == Both(g1, 2 * acc1, g2, 2 * acc2)
  {
    PowAdd(g1, acc1, acc1);
    PowAdd(g2, acc2, acc2);
    var x, y := Pow(g1, acc1), Pow(g2, acc2);
    FourSwap(x, y, x, y);
    Associate(x * x, y, y);
  }

  /** The two multiplies that may be due at position ebits. */
  method MultiplyDue(a0: array<word>, b0: array<word>, table1: seq<array<word>>, table2: seq<array<word>>, v1: nat,
                     v2: nat, due1: bool, due2: bool, mod: array<word>, mlen: nat, inv: word, isone0: bool,
                     ghost m: int, ghost g1: int, ghost g2: int, ghost acc1: nat, ghost acc2: nat, ghost w1: nat,
                     ghost w2: nat)
    returns (a: array<word>, b: array<word>, isone: bool)
    requires Modulus(mod, mlen, inv, m) && OddPowers(table1, mlen, g1, m) && OddPowers(table2, mlen, g2, m)
    requires |table1| == Two(w1) && |table2| == Two(w2)
    requires due1 ==> v1 % 2 == 1 && 0 < v1 < Two(w1 + 1)
    requires due2 ==> v2 % 2 == 1 && 0 < v2 < Two(w2 + 1)
    requires Holds(b0, mlen, isone0, Both(g1, acc1, g2, acc2), m)
    requires 2 * mlen <= a0.Length && 2 * mlen <= b0.Length && a0 != b0 && mod != a0 && mod != b0
    requires a0 !in table1 && b0 !in table1 && a0 !in table2 && b0 !in table2
    modifies a0, b0
    ensures (a == a0 && b == b0) || (a == b0 && b == a0)
    ensures isone == (isone0 && !due1 && !due2)
    ensures Holds(b, mlen, isone, Both(g1, if due1 then acc1 + v1 else acc1, g2, if due2 then acc2 + v2 else acc2), m)
  {
    hide Val, Two, Modulus, OddPowers, Holds, Both;
    a, b, isone := a0, b0, isone0;
    ghost var acc := acc1;
    if due1 {
      a, b := MultiplyEntry(a, b, table1, v1, mod, mlen, inv, isone, m, g1, Both(g1, acc1, g2, acc2), w1);
      isone := false;
      BothGrow(g1, acc1, g2, acc2, v1);
      acc := acc1 + v1;
    }
    if due2 {
      a, b := MultiplyEntry(a, b, table2, v2, mod, mlen, inv, isone, m, g2, Both(g1, acc, g2, acc2), w2);
      isone := false;
      BothGrow(g1, acc, g2, acc2, v2);
    }
  }

  /** The main loop over both exponents. */
  method DoubleLoop(a0: array<word>, b0: array<word>, table1: seq<array<word>>, table2: seq<array<word>>,
                    e1: array<word>, len1: nat, e2: array<word>, len2: nat, mod: array<word>, mlen: nat, inv: word,
                    w: nat, delta: nat, start: nat, v10: nat, mp10: int, buf20: nat, v20: nat, mp20: int, isone0: bool,
                    elen0: nat, bitpos0: int, ghost m: int, ghost g1: int, ghost g2: int, ghost acc10: nat,
                    ghost acc20: nat, ghost ev1: nat, ghost ev2: nat)
    returns (b: array<word>)
    requires Modulus(mod, mlen, inv, m) && OddPowers(table1, mlen, g1, m) && OddPowers(table2, mlen, g2, m)
    requires delta <= w && |table1| == Two(w) && |table2| == Two(w - delta)
    requires len1 <= e1.Length && ev1 == Val(e1[..len1]) && ev1 > 0 && len2 <= e2.Length && ev2 == Val(e2[..len2])
    requires 2 * mlen <= a0.Length && 2 * mlen <= b0.Length && a0 != b0 && mod != a0 && mod != b0
    requires a0 !in table1 && b0 !in table1 && a0 !in table2 && b0 !in table2 && e1 != a0 && e1 != b0 && e2 != a0
      && e2 != b0
    requires start > 0 && Reader(elen0, bitpos0, Unread(start, w)) && start <= 32 * len1
    requires Holds(b0, mlen, isone0, Both(g1, acc10, g2, acc20), m) && (isone0 ==> acc10 == 0 && acc20 == 0)
    requires Win(ev1, acc10 * Two(start - 1 + w), v10, mp10, start, 0, start, w) && Tabled(v10, mp10, start, w + 1)
    requires Win(ev2, acc20 * Two(start - 1 + w), v20, mp20, start, buf20, start, w)
      && Tabled(v20, mp20, start, w - delta + 1)
    requires buf20 < Two(w)
    modifies a0, b0
    ensures b == a0 || b == b0
    ensures Holds(b, mlen, false, Both(g1, ev1, g2, ev2), m)
  {
    hide Val, Two, Win, Reader, Modulus, Holds, OddPowers, NextBit, Both, Tabled;
    ghost var acc1: nat, acc2: nat := acc10, acc20;
    var a;
    a, b := a0, b0;
    var buf1, v1, mp1, buf2, v2, mp2 := 0, v10, mp10, buf20, v20, mp20;
    var isone, elen, bitpos, ebits := isone0, elen0, bitpos0, start;
    while true
      invariant 0 < ebits <= start
      invariant (a == a0 && b == b0) || (a == b0 && b == a0)
      invariant Reader(elen, bitpos, Unread(ebits, w)) && 0 <= buf1 < Two(w) && 0 <= buf2 < Two(w)
      invariant Holds(b, mlen, isone, Both(g1, acc1, g2, acc2), m) && (isone ==> acc1 == 0 && acc2 == 0)
      invariant Win(ev1, acc1 * Two(ebits - 1 + w), v1, mp1, ebits, buf1, ebits, w) && Tabled(v1, mp1, ebits, w + 1)
      invariant Win(ev2, acc2 * Two(ebits - 1 + w), v2, mp2, ebits, buf2, ebits, w)
        && Tabled(v2, mp2, ebits, w - delta + 1)
      decreases ebits
    {
      ebits := ebits - 1;
      var bit2 := ReadSecond(e2, len2, elen, bitpos, Unread(ebits + 1, w), ev2);
      var bit1;
      bit1, elen, bitpos := ReadBit(e1, elen, bitpos, len1, Unread(ebits + 1, w));
      NextBitRead(ev1, ebits, w);
      NextBitRead(ev2, ebits, w);
      buf1, v1, mp1 := Slide(buf1, bit1, ebits, w, 0, v1, mp1, ev1, acc1);
      buf2, v2, mp2 := Slide(buf2, bit2, ebits, w, delta, v2, mp2, ev2, acc2);
      DueEntry(v1, mp1, ebits, w + 1);
      DueEntry(v2, mp2, ebits, w - delta + 1);
      a, b, isone := MultiplyDue(a, b, table1, table2, v1, v2, ebits == mp1, ebits == mp2, mod, mlen, inv, isone, m, g1,
                                 g2, acc1, acc2, w, w - delta);
      acc1 := Finished(ev1, acc1, v1, mp1, buf1, ebits, w);
      acc2 := Finished(ev2, acc2, v2, mp2, buf2, ebits, w);
      if ebits == 0 {
        WinEnd(ev1, acc1, v1, mp1, buf1, w);
        WinEnd(ev2, acc2, v2, mp2, buf2, w);
        break;
      }
      a, b := SquareIn(a, b, mod, mlen, inv, isone, m, Both(g1, acc1, g2, acc2));
      BothSquare(g1, acc1, g2, acc2);
      Halved(acc1, ebits - 1 + w);
      Halved(acc2, ebits - 1 + w);
      acc1, acc2 := 2 * acc1, 2 * acc2;
    }
  }

  lemma DueEntry(v: nat, mp: int, pos: nat, bits: nat)
    requires Tabled(v, mp, pos + 1, bits)
    ensures pos == mp ==> v % 2 == 1 && 0 < v < Two(bits)
    ensures Tabled(v, mp, pos, bits)
  {}

  lemma Finished(e: nat, acc: nat, v: nat, mp: int, buf: nat, pos: nat, w: nat) returns (acc': nat)
    requires Win(e, acc * Two(pos + w), v, mp, pos + 1, buf, pos, w)
    ensures acc' == if pos == mp then acc + v else acc
    ensures Win(e, acc' * Two(pos + w), v, mp, pos, buf, pos, w)
  {
    WinFinish(e, acc * Two(pos + w), v, mp, buf, pos, w);
    Collect(acc, v, Two(pos + w));
    acc' := if pos == mp then acc + v else acc;
  }

  /**
   * The accumulator at the start: high half of b holds g1^2 and its low half g2^2, so that first multiplies
   * that are due at once are merged with the squaring that follows them.
   */
  method FirstPowers(a0: array<word>, b0: array<word>, due1: bool, due2: bool, mod: array<word>, mlen: nat, inv: word,
                     ghost m: int, ghost g1: int, ghost g2: int) returns (a: array<word>, b: array<word>)
    requires Modulus(mod, mlen, inv, m)
    requires 2 * mlen <= a0.Length && 2 * mlen <= b0.Length && a0 != b0 && mod != a0 && mod != b0
    requires Val(b0[mlen..2 * mlen]) == Mont(g1 * g1, m, mlen) && Val(b0[..mlen]) == Mont(g2 * g2, m, mlen)
    modifies a0, b0
    ensures (a == a0 && b == b0) || (a == b0 && b == a0)
    ensures Holds(b, mlen, !due1 && !due2, Both(g1, if due1 then 2 else 0, g2, if due2 then 2 else 0), m)
  {
    hide Val, Mont, Modulus, Pow;
    ModulusLen(mod, mlen, inv, m);
    PowAt2(g1);
    PowAt2(g2);
    a, b := a0, b0;
    assert b0[0..mlen] == b0[..mlen];
    if due2 {
      if !due1 {
        Copy(b, mlen, b, 0, mlen);
      } else {
        MontMul(a, b, mlen, b, 0, mod, mlen, inv, m, g1 * g1, g2 * g2);
        a, b := b0, a0;
      }
    }
  }

  /** The second table: its square goes to the low half of b, leaving the high half alone. */
  method BuildSecond(result: array<word>, a: array<word>, b: array<word>, mod: array<word>, mlen: nat, inv: word,
                     size: nat, ghost m: int, ghost g: int) returns (table: seq<array<word>>)
    requires Modulus(mod, mlen, inv, m) && size > 0
    requires 2 * mlen <= a.Length && 2 * mlen <= b.Length && mlen <= result.Length
    requires a != b && a != mod && b != mod && result != a && result != b && result != mod
    requires Val(a[..mlen]) == Mont(g, m, mlen)
    modifies a, b, result
    ensures |table| == size && OddPowers(table, mlen, g, m)
    ensures forall i :: 0 <= i < |table| ==> table[i] == result || fresh(table[i])
    ensures Val(b[..mlen]) == Mont(g * g, m, mlen) && Val(b[mlen..2 * mlen]) == old(Val(b[mlen..2 * mlen]))
    ensures forall i :: mlen <= i < result.Length ==> result[i] == old(result[i])
  {
    hide Val, Mont, Modulus;
    ModulusLen(mod, mlen, inv, m);
    Copy(result, 0, a, 0, mlen);
    assert result[..mlen] == result[0..mlen] && a[0..mlen] == a[..mlen];
    MontSquare(a, result, 0, mod, mlen, inv, m, g);
    Copy(b, 0, a, mlen, mlen);
    assert b[..mlen] == b[0..mlen];
    assert b[mlen..2 * mlen] == old(b[mlen..2 * mlen]);
    PowAt0(g);
    table := ExtendTable([result], a, b, 0, mod, mlen, inv, size, m, g);
  }

  /** Exponents of at least two bits, the first not shorter than the second, neither zero. */
  method DoubleLong(result: array<word>, n1: array<word>, n1len: nat, e1: array<word>, len1: nat, bits1: nat,
                    n2: array<word>, n2len: nat, e2: array<word>, len2: nat, bits2: nat, mod: array<word>, mlen: nat,
                    inv: word, ghost m: int, ghost x1: nat, ghost ev1: nat, ghost x2: nat, ghost ev2: nat)
    requires Modulus(mod, mlen, inv, m) && mlen <= result.Length
    requires n1len <= mlen && n1len <= n1.Length && n2len <= mlen && n2len <= n2.Length && 0 < len1 <= e1.Length
      && len2 <= e2.Length
    requires x1 == Val(n1[..n1len]) && x2 == Val(n2[..n2len]) && ev1 == Val(e1[..len1]) && ev2 == Val(e2[..len2])
    requires result != mod && result != e1 && result != e2 && n1 != mod && n2 != mod && e1 != mod && e2 != mod
    requires 1 < bits1 <= 32 * len1 < B && 32 * (len1 - 1) < bits1 && Pow(2, bits1 - 1) <= ev1 < Pow(2, bits1)
    requires 0 < bits2 <= bits1 && ev2 < Pow(2, bits2)
    modifies result, mod
    ensures mod[..] == old(mod[..])
    ensures m > 0 && Val(result[..mlen]) == Both(x1, ev1, x2, ev2) % m
    ensures forall i :: mlen <= i < result.Length ==> result[i] == old(result[i])
  {
    hide Val, Two, Modulus, OddPowers, Win, Reader, Tabled, Pow, Mont, Both, Holds;
    ModulusLen(mod, mlen, inv, m);
    var w := WindowBits(bits1);
    var w2 := WindowBits(bits2);
    NarrowerSecond(bits1, bits2, w, w2);
    var t, a, b := new word[mlen], new word[2 * mlen], new word[2 * mlen];
    ToMont(a, n1, n1len, mod, mlen, inv, m);
    var table1 := BuildTable(t, a, b, mod, mlen, inv, Two(w), m, x1);
    ToMont(a, n2, n2len, mod, mlen, inv, m);
    var table2 := BuildSecond(result, a, b, mod, mlen, inv, Two(w2), m, x2);
    b := DoubleBits(a, b, table1, table2, e1, len1, bits1, e2, len2, bits2, mod, mlen, inv, w, w - w2, m, x1, ev1, x2,
                    ev2);
    HoldsOut(b, mlen, Both(x1, ev1, x2, ev2), m);
    FromMontHigh(result, b, mod, mlen, inv, m, Both(x1, ev1, x2, ev2));
  }

  lemma HoldsOut(b: array<word>, mlen: nat, x: int, m: int)
    requires Holds(b, mlen, false, x, m)
    ensures m > 0 && 2 * mlen <= b.Length && Val(b[mlen..2 * mlen]) == Mont(x, m, mlen)
  {}

  lemma NarrowerSecond(bits1: nat, bits2: nat, w1: nat, w2: nat)
    requires bits2 <= bits1 && w1 < MAX_WINDOW && w2 < MAX_WINDOW
    requires bits1 <= ThreshTable[w1] && forall i :: 0 <= i < w2 ==> bits2 > ThreshTable[i]
    ensures w2 <= w1
  {}

  /** The bit-by-bit part, from the preloaded windows to the finished product. */
  method DoubleBits(a0: array<word>, b0: array<word>, table1: seq<array<word>>, table2: seq<array<word>>,
                    e1: array<word>, len1: nat, bits1: nat, e2: array<word>, len2: nat, bits2: nat, mod: array<word>,
                    mlen: nat, inv: word, w: nat, delta: nat, ghost m: int, ghost g1: nat, ghost ev1: nat,
                    ghost g2: nat, ghost ev2: nat) returns (b: array<word>)
    requires Modulus(mod, mlen, inv, m) && OddPowers(table1, mlen, g1, m) && OddPowers(table2, mlen, g2, m)
    requires delta <= w && |table1| == Two(w) && |table2| == Two(w - delta)
    requires 0 < len1 <= e1.Length && ev1 == Val(e1[..len1]) && len2 <= e2.Length && ev2 == Val(e2[..len2])
    requires 1 < bits1 <= 32 * len1 && 32 * (len1 - 1) < bits1 && w < bits1 && Pow(2, bits1 - 1) <= ev1 < Pow(2, bits1)
    requires 0 < bits2 <= bits1 && ev2 < Pow(2, bits2)
    requires 2 * mlen <= a0.Length && 2 * mlen <= b0.Length && a0 != b0 && mod != a0 && mod != b0
    requires a0 !in table1 && b0 !in table1 && a0 !in table2 && b0 !in table2 && e1 != a0 && e1 != b0 && e2 != a0
      && e2 != b0
    requires Val(b0[mlen..2 * mlen]) == Mont(g1 * g1, m, mlen) && Val(b0[..mlen]) == Mont(g2 * g2, m, mlen)
    modifies a0, b0
    ensures b == a0 || b == b0
    ensures Holds(b, mlen, false, Both(g1, ev1, g2, ev2), m)
  {
    hide Val, Two, Modulus, OddPowers, Win, Reader, Tabled, Pow, Mont, Both, Holds;
    TwoIs(bits1 - 1);
    TwoIs(bits1);
    PowMonotone(2, bits2, bits1);
    ModulusLen(mod, mlen, inv, m);
    var buf1, buf2, elen, bitpos := PreloadBoth(e1, len1, e2, len2, bits1, w, ev1, ev2);
    var rest1, v1, mp1, due1 := FirstStep(buf1, bits1 - 1, w, 0, ev1);
    var rest2, v2, mp2, due2 := FirstStep(buf2, bits1 - 1, w, delta, ev2);
    var a;
    a, b := FirstPowers(a0, b0, due1, due2, mod, mlen, inv, m, g1, g2);
    b := DoubleLoop(a, b, table1, table2, e1, len1, e2, len2, mod, mlen, inv, w, delta, bits1 - 1, v1, mp1, rest2, v2,
                    mp2, !due1 && !due2, elen, bitpos, m, g1, g2, if due1 then 2 else 0, if due2 then 2 else 0, ev1,
                    ev2);
  }

  /** y has more significant bits than x. */
  ghost predicate Longer(y: nat, x: nat) {
    exists k: nat :: x < Two(k) <= y
  }

  lemma LongerIsMoreBits(x: nat, xbits: nat, y: nat, ybits: nat)
    requires xbits == 0 <==> x == 0
    requires ybits == 0 <==> y == 0
    requires xbits > 0 ==> Two(xbits - 1) <= x < Two(xbits)
    requires ybits > 0 ==> Two(ybits - 1) <= y < Two(ybits)
    ensures Longer(y, x) <==> xbits < ybits
  {
    hide Two;
    if xbits < ybits {
      if xbits > 0 { TwoMonotone(xbits, ybits - 1); }
      assert x < Two(ybits - 1) <= y;
    } else if Longer(y, x) {
      var k: nat :| x < Two(k) <= y;
      if k >= ybits { TwoMonotone(ybits, k); }
      if k < xbits { TwoMonotone(k, xbits - 1); }
    }
  }

  /** What one pass over exponents e1, not shorter than e2, returns for bases x1 and x2. */
  ghost function DoubleResult(x1: nat, e1: nat, x2: nat, e2: nat, m: int): int
    requires m > 0
  {
    if e2 == 0 then ExpResult(x1, e1, m) else Both(x1, e1, x2, e2) % m
  }

  /** Nothing is exchanged, or each base can be read with the other's length. */
  ghost predicate Readable(n1: seq<word>, n1len: nat, e1: nat, n2: seq<word>, n2len: nat, e2: nat) {
    n1len <= |n1| && n2len <= |n2| && (Longer(e2, e1) ==> n2len <= |n1| && n1len <= |n2|)
  }

  /** What is returned: if the second exponent has more bits, each base is read with the other's length. */
  ghost function DoubleValue(n1: seq<word>, n1len: nat, e1: nat, n2: seq<word>, n2len: nat, e2: nat, m: int): int
    requires m > 0 && Readable(n1, n1len, e1, n2, n2len, e2)
  {
    if Longer(e2, e1)
    then DoubleResult(Magnitude(n2[..n1len]), e2, Magnitude(n1[..n2len]), e1, m)
    else DoubleResult(Magnitude(n1[..n1len]), e1, Magnitude(n2[..n2len]), e2, m)
  }

  /**
   * The product of two powers.  When the second exponent has more bits the code exchanges bases and exponents
   * but not the bases' lengths, so each base is then read with the other's length.
   */
  method DoubleExpMod(result: array<word>, n1: array<word>, n1len: nat, e1: array<word>, e1len: nat, n2: array<word>,
                      n2len: nat, e2: array<word>, e2len: nat, mod: array<word>, mlen: nat)
    requires 0 < mlen <= mod.Length && mlen <= result.Length && mod[mlen - 1] != 0 && mod[0] % 2 == 1
    requires n1len <= mlen && n2len <= mlen
    requires e1len <= e1.Length && e2len <= e2.Length && 32 * e1len < B && 32 * e2len < B
    requires Readable(n1[..], n1len, Magnitude(e1[..e1len]), n2[..], n2len, Magnitude(e2[..e2len]))
    requires Val(e1[..e1len]) == 1 && Val(e2[..e2len]) == 1 ==> n1len + n2len >= mlen
    requires result != mod && result != e1 && result != e2 && n1 != mod && n2 != mod && e1 != mod && e2 != mod
    modifies result, mod
    ensures mod[..] == old(mod[..])
    ensures Magnitude(mod[..mlen]) > 0
    ensures Readable(old(n1[..]), n1len, Magnitude(e1[..e1len]), old(n2[..]), n2len, Magnitude(e2[..e2len]))
    ensures Val(result[..mlen]) == DoubleValue(old(n1[..]), n1len, Magnitude(e1[..e1len]),
                                               old(n2[..]), n2len, Magnitude(e2[..e2len]), Magnitude(mod[..mlen]))
    ensures forall i :: mlen <= i < result.Length ==> result[i] == old(result[i])
  {
    hide Val, Two, Pow, DoubleResult, Longer, Modulus;
    assert n1[..][..n1len] == n1[..n1len] && n2[..][..n2len] == n2[..n2len];
    ghost var ev1, ev2 := Magnitude(e1[..e1len]), Magnitude(e2[..e2len]);
    var len1, bits1 := ExponentBits(e1, e1len);
    var len2, bits2 := ExponentBits(e2, e2len);
    LongerIsMoreBits(ev1, bits1, ev2, bits2);
    if bits1 < bits2 {
      assert n1[..][..n2len] == n1[..n2len] && n2[..][..n1len] == n2[..n1len];
      DoubleOrdered(result, n2, n1len, e2, len2, bits2, n1, n2len, e1, len1, bits1, mod, mlen, ev2, ev1);
    } else {
      DoubleOrdered(result, n1, n1len, e1, len1, bits1, n2, n2len, e2, len2, bits2, mod, mlen, ev1, ev2);
    }
  }

  method ExponentBits(e: array<word>, elen: nat) returns (len: nat, bits: nat)
    requires elen <= e.Length
    ensures len <= elen && Val(e[..len]) == Val(e[..elen])
    ensures bits == 0 <==> Magnitude(e[..elen]) == 0
    ensures bits > 0 ==> Two(bits - 1) <= Magnitude(e[..elen]) < Two(bits)
    ensures bits <= 32 * len && (len == 0 <==> bits == 0) && (len > 0 ==> 32 * (len - 1) < bits)
  {
    hide Val, Pow;
    len := Norm(e, 0, elen);
    bits := Bits(e, 0, len);
    assert e[0..elen] == e[..elen] && e[0..len] == e[..len];
    if len == 0 { ValEmpty(e[..], 0); assert e[..][0..0] == e[..0]; }
  }

  /** The first exponent has at least as many bits as the second. */
  method DoubleOrdered(result: array<word>, n1: array<word>, n1len: nat, e1: array<word>, len1: nat, bits1: nat,
                       n2: array<word>, n2len: nat, e2: array<word>, len2: nat, bits2: nat, mod: array<word>, mlen: nat,
                       ghost ev1: nat, ghost ev2: nat)
    requires 0 < mlen <= mod.Length && mlen <= result.Length && mod[mlen - 1] != 0 && mod[0] % 2 == 1
    requires n1len <= mlen && n2len <= mlen && n1len <= n1.Length && n2len <= n2.Length && len1 <= e1.Length
      && len2 <= e2.Length
    requires ev1 == Val(e1[..len1]) && ev2 == Val(e2[..len2]) && 32 * len1 < B
    requires ev1 == 1 && ev2 == 1 ==> n1len + n2len >= mlen
    requires result != mod && result != e1 && result != e2 && n1 != mod && n2 != mod && e1 != mod && e2 != mod
    requires bits2 <= bits1 <= 32 * len1 && (len1 == 0 <==> bits1 == 0) && (len1 > 0 ==> 32 * (len1 - 1) < bits1)
    requires (bits1 == 0 <==> ev1 == 0) && (bits1 > 0 ==> Two(bits1 - 1) <= ev1 < Two(bits1))
    requires (bits2 == 0 <==> ev2 == 0) && (bits2 > 0 ==> Two(bits2 - 1) <= ev2 < Two(bits2))
      && (len2 == 0 <==> bits2 == 0)
    modifies result, mod
    ensures mod[..] == old(mod[..])
    ensures Magnitude(mod[..mlen]) > 0
    ensures Val(result[..mlen]) == DoubleResult(old(Magnitude(n1[..n1len])), ev1, old(Magnitude(n2[..n2len])), ev2,
                                                Magnitude(mod[..mlen]))
    ensures forall i :: mlen <= i < result.Length ==> result[i] == old(result[i])
  {
    hide Val, Two, Modulus, Pow, Both;
    ghost var x1, x2 := Magnitude(n1[..n1len]), Magnitude(n2[..n2len]);
    var inv := PrepareModulus(mod, mlen);
    ModulusLen(mod, mlen, inv, Val(mod[..mlen]));
    if len2 == 0 {
      ExpMod(result, n1, n1len, e1, len1, mod, mlen);
    } else if bits1 == 1 {
      TwoNext(0);
      PowAt0(x1);
      PowAt0(x2);
      BothOnes(x1, x2);
      ReducedProduct(result, n1, n1len, n2, n2len, mod, mlen);
    } else {
      TwoIs(bits1 - 1);
      TwoIs(bits1);
      TwoIs(bits2);
      DoubleLong(result, n1, n1len, e1, len1, bits1, n2, n2len, e2, len2, bits2, mod, mlen, inv, Val(mod[..mlen]), x1,
                 ev1, x2, ev2);
    }
  }

  lemma BothOnes(x: int, y: int)
    ensures Both(x, 1, y, 1) == x * y
  {
    PowAt0(x);
    PowAt0(y);
  }

  /** Both exponents are 1: a plain product and division. */
  method ReducedProduct(result: array<word>, n1: array<word>, n1len: nat, n2: array<word>, n2len: nat, mod: array<word>,
                        mlen: nat)
    requires 0 < mlen <= mod.Length && mlen <= result.Length && mod[mlen - 1] != 0 && Val(mod[..mlen]) > 0
    requires n1len <= n1.Length && n2len <= n2.Length && n1len + n2len >= mlen
    requires result != mod && n1 != mod && n2 != mod
    modifies result, mod
    ensures mod[..] == old(mod[..])
    ensures Val(mod[..mlen]) > 0
    ensures Val(result[..mlen]) == (old(Val(n1[..n1len])) * old(Val(n2[..n2len]))) % Val(mod[..mlen])
    ensures forall i :: mlen <= i < result.Length ==> result[i] == old(result[i])
  {
    hide Val, Up;
    ghost var m, x := Val(mod[..mlen]), Val(n1[..n1len]) * Val(n2[..n2len]);
    var a := new word[n1len + n2len];
    Mul(a, 0, n1, 0, n1len, n2, 0, n2len);
    assert n1[0..n1len] == n1[..n1len] && n2[0..n2len] == n2[..n2len];
    var qhigh := Div(a, mlen, a, 0, n1len + n2len, mod, 0, mlen);
    assert mod[0..mlen] == mod[..mlen];
    ValBound(a[0..mlen]);
    DivModUnique(x, m, Val(a[mlen..n1len + n2len]) + Up(qhigh, n1len + n2len - mlen), Val(a[0..mlen]));
    Copy(result, 0, a, 0, mlen);
    assert result[..mlen] == result[0..mlen];
  }

  /**
   * The product of the powers of the bases as they are read, apart from what a lone exponent of 0 or 1 leaves
   * unreduced.
   */
  lemma DoubleIsProduct(x1: nat, e1: nat, x2: nat, e2: nat, m: int)
    requires m > 0
    ensures DoubleResult(x1, e1, x2, e2, m) == (Pow(x1, e1) * Pow(x2, e2)) % m
       <==> (e2 == 0 ==> (e1 == 0 ==> m > 1) && (e1 == 1 ==> x1 < m))
    ensures (Pow(x2, e2) * Pow(x1, e1)) % m == (Pow(x1, e1) * Pow(x2, e2)) % m
  {
    PowAt0(x2);
    ExpResultIsPower(x1, e1, m);
  }

  /**
   * A base read with the other one's length keeps its value exactly when the words between the two lengths are zero.
   */
  lemma BaseKept(n: seq<word>, short: nat, long: nat)
    requires short <= long <= |n|
    ensures Val(n[..long]) == Val(n[..short]) <==> forall i :: short <= i < long ==> n[i] == 0
  {
    var s := n[..long];
    assert s[..short] == n[..short];
    if forall i :: short <= i < long ==> n[i] == 0 { ValHigh(s, short); }
    if Val(s) == Val(n[..short]) {
      ValSplit(s, short);
      UpZero(short);
      hide Val, Up;
      UpMonotone(Val(s[short..]), 0, short);
      UpMonotone(0, Val(s[short..]), short);
      ZeroWords(s[short..]);
      assert forall i :: short <= i < long ==> n[i] == s[short..][i - short];
    }
  }

  lemma {:induction false} ZeroWords(s: seq<word>)
    requires Val(s) == 0
    ensures forall i :: 0 <= i < |s| ==> s[i] == 0
  {
    if s != [] {
      ValBound(s[1..]);
      ZeroWords(s[1..]);
      assert forall i :: 0 < i < |s| ==> s[i] == s[1..][i - 1];
    }
  }

  /** The words between two lengths are zero. */
  ghost predicate Blank(n: seq<word>, i: nat, j: nat) {
    forall k :: 0 <= k < |n| && (i <= k < j || j <= k < i) ==> n[k] == 0
  }

  lemma BaseReads(n: seq<word>, i: nat, j: nat)
    requires i <= |n| && j <= |n|
    ensures Val(n[..i]) == Val(n[..j]) <==> Blank(n, i, j)
  {
    hide Val;
    if i <= j { BaseKept(n, i, j); } else { BaseKept(n, j, i); }
  }

  /**
   * The documented result, in terms of the arguments.  If nothing is exchanged, or the words of both bases between the
   * two lengths are zero, it is returned exactly when a lone exponent of 0 or 1 does not leave an unreduced number.
   */
  lemma DoubleMeetsPromise(n1: seq<word>, n1len: nat, e1: nat, n2: seq<word>, n2len: nat, e2: nat, m: int)
    requires m > 0 && Readable(n1, n1len, e1, n2, n2len, e2)
    requires !Longer(e2, e1) || (Blank(n1, n1len, n2len) && Blank(n2, n1len, n2len))
    ensures DoubleValue(n1, n1len, e1, n2, n2len, e2, m) == (Pow(Val(n1[..n1len]), e1) * Pow(Val(n2[..n2len]), e2)) % m
       <==> (e1 == 0 && e2 == 0 ==> m > 1) && (e1 == 1 && e2 == 0 ==> Val(n1[..n1len]) < m)
            && (e1 == 0 && e2 == 1 ==> Val(n2[..n2len]) < m)
  {
    hide Val, Pow, DoubleResult, Blank;
    ghost var x1, x2 := Magnitude(n1[..n1len]), Magnitude(n2[..n2len]);
    LongerOnes(e1, e2);
    if Longer(e2, e1) {
      BaseReads(n1, n1len, n2len);
      BaseReads(n2, n1len, n2len);
      DoubleIsProduct(x2, e2, x1, e1, m);
    } else {
      DoubleIsProduct(x1, e1, x2, e2, m);
    }
  }

  lemma LongerOnes(e1: nat, e2: nat)
    ensures e1 == 0 && e2 > 0 ==> Longer(e2, e1)
    ensures e2 == 0 ==> !Longer(e2, e1)
  {
    if e1 == 0 && e2 > 0 { assert e1 < Two(0) <= e2; }
  }

  /** Bases of different lengths and a longer second exponent: 5^1 * (B+3)^2 modulo 2B+1 comes out as 45. */
  lemma LengthsNotExchanged()
    ensures var n1: seq<word>, n2: seq<word>, m := [5, 0], [3, 1], 2 * B + 1;
            && Val(n1[..1]) == Val(n1[..2]) == 5 && Val(n2[..2]) == B + 3
            && Readable(n1, 1, 1, n2, 2, 2) && DoubleValue(n1, 1, 1, n2, 2, 2, m) == 45
            && (Pow(Val(n1[..1]), 1) * Pow(Val(n2[..2]), 2)) % m != 45
  {
    var n1: seq<word>, n2: seq<word> := [5, 0], [3, 1];
    assert n1[..1] == [5] && n1[..2] == [5, 0] && n2[..1] == [3] && n2[..2] == [3, 1];
    assert Val([0]) == 0 && Val([1]) == 1;
    assert [5, 0][1..] == [0] && [3, 1][1..] == [1];
    assert Val([5]) == 5 && Val([5, 0]) == 5 && Val([3]) == 3 && Val([3, 1]) == B + 3;
    TwoNext(0);
    assert 1 < Two(1) <= 2;
    assert Pow(3, 2) == 9 && Pow(5, 1) == 5 && Pow(B + 3, 2) == (B + 3) * (B + 3);
  }
}
