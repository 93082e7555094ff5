/** Exponentiation of the fixed base 2, where a multiplication by the base is a modular doubling. */
module LbnTwoExp {
  import opened Arith
  import opened Words
  import opened LbnBasic
  import opened LbnMont
  import opened Window
  import opened ExpReader
  import opened LbnExp

  /**
   * Takes as many leading bits of the exponent as leave them, read as a number, below limit.
   * Either the exponent is used up (elen is 0), or the bit under the mask is not part of the prefix.
   */
  method TakePrefix(exp: array<word>, len: nat, ebits: nat, limit: nat, ghost ev: nat)
    returns (prefix: nat, elen: nat, bitpos: int, ghost r: nat)
    requires 0 < len <= exp.Length && ev == Val(exp[..len]) && limit > 1
    requires 1 < ebits <= 32 * len && 32 * (len - 1) < ebits && ev / Two(ebits - 1) == 1
    ensures 0 < prefix < limit && r < ebits && Reader(elen, bitpos, r) && prefix == ev / Two(r)
  {
    hide Val, Two, Reader;
    prefix := 1;
    elen, bitpos, r := len, Two((ebits - 1) % 32), ebits;
    ReaderStart(len, ebits);
    while true
      invariant 0 < r <= ebits && Reader(elen, bitpos, r)
      invariant 0 < prefix < limit && prefix == ev / Two(r - 1)
      decreases r
    {
      elen, bitpos := Advance(elen, bitpos, r);
      r := r - 1;
      ReaderEmpty(elen, bitpos, r);
      if elen == 0 { break; }
      var bit := Peek(exp, elen, bitpos, len, r);
      DivStep(ev, r - 1);
      prefix := 2 * prefix + bit;
      if prefix >= limit {
        prefix := prefix / 2;
        break;
      }
    }
  }

  /** Sets bit k of a number that is zero. */
  method SetBit(n: array<word>, len: nat, k: nat)
    requires k < 32 * len && len <= n.Length && forall i :: 0 <= i < len ==> n[i] == 0
    modifies n
    ensures Val(n[..k / 32 + 1]) == Two(k) == Val(n[..len])
    ensures forall i :: 0 <= i < n.Length && i != k / 32 ==> n[i] == old(n[i])
  {
    hide Val, Two, Up, Pow;
    var j := k / 32;
    TwoMonotone(k % 32, 31);
    assert Two(31) < B by { TwoPow32(); TwoIs(32); TwoNext(31); }
    n[j] := Two(k % 32);
    ValGrow(n[..], 0, j);
    ValZero(n[..][0..j]);
    assert n[..][0..j + 1] == n[..j + 1];
    WordPower(j);
    UpIsProduct(1, j);
    UpIsProduct(n[j], j);
    TwoAdd(k % 32, 32 * j);
    ValHigh(n[..len], j + 1);
    assert n[..len][..j + 1] == n[..j + 1];
  }

  /** Doubles a reduced number modulo an odd m; comparing with a strict > is enough. */
  method DoubleMod(a: array<word>, mod: array<word>, mlen: nat, inv: word, ghost m: int, ghost x: int)
    requires Modulus(mod, mlen, inv, m) && 2 * mlen <= a.Length && a != mod
    requires Val(a[mlen..2 * mlen]) == Mont(x, m, mlen)
    modifies a
    ensures m > 0 && Val(a[mlen..2 * mlen]) == Mont(2 * x, m, mlen)
  {
    hide Val, Up, Lo, Mont, Cong;
    ghost var v := Val(a[mlen..2 * mlen]);
    assert mod[0..mlen] == mod[..mlen];
    ValBound(mod[..mlen]);
    var carry := Double(a, mlen, mlen);
    UpZero(mlen);
    ValBound(a[mlen..2 * mlen]);
    var cmp := Cmp(a, mlen, mod, 0, mlen);
    DoubledForm(x, m, mlen);
    if carry != 0 || cmp > 0 {
      var borrow := SubN(a, mlen, mod, 0, mlen);
      ValBound(a[mlen..2 * mlen]);
    }
    DoubledUnique(x, m, mlen, Val(a[mlen..2 * mlen]), 2 * v);
  }

  lemma DoubledForm(x: int, m: int, len: nat)
    requires m > 0
    ensures Cong(2 * Mont(x, m, len), Up(2 * x, len), m) && Cong(2 * Mont(x, m, len) - m, Up(2 * x, len), m)
  {
    UpAdd(x, x, len);
    CongAdd(Mont(x, m, len), Up(x, len), Mont(x, m, len), Up(x, len), m);
    CongShift(2 * Mont(x, m, len), Up(2 * x, len), m);
  }

  lemma DoubledUnique(x: int, m: int, len: nat, t: int, d: int)
    requires m > 0 && Cong(d, Up(2 * x, len), m) && Cong(d - m, Up(2 * x, len), m)
    requires 0 <= t < m && (t == d || t == d - m)
    ensures t == Mont(2 * x, m, len)
  {
    CongSmall(t, Up(2 * x, len), m);
  }

  /** n = 2^exp modulo an odd modulus greater than 1, for a positive exponent without leading zero words. */
  method TwoExpMod(n: array<word>, exp: array<word>, elen: nat, mod: array<word>, mlen: nat)
    requires 0 < mlen <= mod.Length && mlen <= n.Length && 0 < elen <= exp.Length
    requires exp[elen - 1] != 0 && mod[mlen - 1] != 0 && mod[0] % 2 == 1 && Val(mod[..mlen]) > 1
    requires n != mod && n != exp && exp != mod
    modifies n, mod
    ensures mod[..] == old(mod[..]) && Val(exp[..elen]) > 0 && Val(mod[..mlen]) > 1
    ensures Val(n[..mlen]) == Pow(2, Val(exp[..elen])) % Val(mod[..mlen])
    ensures forall i :: mlen <= i < n.Length ==> n[i] == old(n[i])
  {
    hide Val, Two, Pow, Modulus;
    ghost var ev: nat, m := Magnitude(exp[..elen]), Val(mod[..mlen]);
    Zero(n, 0, mlen);
    assert exp[0..elen] == exp[..elen] && mod[0..mlen] == mod[..mlen];
    var ebits := Bits(exp, 0, elen);
    TopSet(exp[..elen]);
    LowBit(mod[..mlen]);
    if ebits <= 1 {
      ShortExponent(exp[..elen], ebits, ev);
      PowAt0(2);
      SetPower(n, mlen, elen);
      DivModUnique(2, m, 0, 2);
      return;
    }
    var bits := Bits(mod, 0, mlen);
    ModulusBits(bits, m);
    LeadingOne(ebits, ev);
    var prefix, el, bitpos, r := TakePrefix(exp, elen, ebits, bits, ev);
    SetBit(n, mlen, prefix);
    PrefixBelow(prefix, bits, m);
    ReaderEmpty(el, bitpos, r);
    if el == 0 {
      TwoIs(prefix);
      DivTwo0(ev);
      DivModUnique(Two(prefix), m, 0, Two(prefix));
      return;
    }
    TwoLong(n, exp, elen, mod, mlen, prefix, el, bitpos, r, ev, m);
  }

  /** Exponents of one bit: the power is 1 << elen, where elen is 1. */
  method SetPower(n: array<word>, mlen: nat, elen: nat)
    requires 0 < mlen <= n.Length && elen == 1 && forall i :: 0 <= i < mlen ==> n[i] == 0
    modifies n
    ensures Val(n[..mlen]) == 2
    ensures forall i :: mlen <= i < n.Length ==> n[i] == old(n[i])
  {
    TwoNext(0);
    n[0] := Two(elen);
    OnlyLow(n[..mlen]);
  }

  lemma DivTwo0(x: int)
    ensures x / Two(0) == x
  {}

  lemma OnlyLow(s: seq<word>)
    requires s != [] && forall i :: 0 < i < |s| ==> s[i] == 0
    ensures Val(s) == s[0]
  {
    ValZero(s[1..]);
  }

  lemma LeadingOne(bits: nat, v: nat)
    requires bits > 0 && Pow(2, bits - 1) <= v < Pow(2, bits)
    ensures v / Two(bits - 1) == 1
  {
    TwoIs(bits - 1);
    DivModUnique(v, Two(bits - 1), 1, v - Two(bits - 1));
  }

  lemma ModulusBits(bits: nat, m: int)
    requires m > 1 && (bits > 0 ==> m < Pow(2, bits)) && (bits == 0 <==> m == 0)
    ensures bits > 1
  {
    PowAt0(2);
  }

  /** The starting power is below an odd modulus of that many bits. */
  lemma PrefixBelow(k: nat, bits: nat, m: int)
    requires 0 < k < bits && m % 2 == 1 && Pow(2, bits - 1) <= m
    ensures 0 < Two(k) < m
  {
    TwoIs(bits - 1);
    TwoMonotone(k, bits - 1);
    TwoNext(bits - 2);
  }

  /** The part that works in Montgomery form, when the exponent's prefix is not all of it. */
  method TwoLong(n: array<word>, exp: array<word>, len: nat, mod: array<word>, mlen: nat, prefix: nat, elen0: nat,
                 bitpos0: int, ghost r0: nat, ghost ev: nat, ghost m: int)
    requires 0 < mlen <= mod.Length && mod[mlen - 1] != 0 && mod[0] % 2 == 1 && m == Val(mod[..mlen])
    requires mlen <= n.Length && len <= exp.Length && ev == Val(exp[..len]) && prefix < 32 * mlen
    requires n != mod && n != exp && exp != mod && Val(n[..prefix / 32 + 1]) == Two(prefix)
    requires 0 < r0 <= 32 * len && Reader(elen0, bitpos0, r0) && prefix == ev / Two(r0)
    modifies n, mod
    ensures mod[..] == old(mod[..]) && m > 0
    ensures Val(n[..mlen]) == Pow(2, ev) % m
    ensures forall i :: mlen <= i < n.Length ==> n[i] == old(n[i])
  {
    hide Val, Two, Pow, Modulus, Mont, Reader;
    var a, b := new word[2 * mlen], new word[2 * mlen];
    var inv := PrepareModulus(mod, mlen);
    ModulusLen(mod, mlen, inv, m);
    ToMont(b, n, prefix / 32 + 1, mod, mlen, inv, m);
    assert b[0..mlen] == b[..mlen];
    TwoIs(prefix);
    MontSquare(a, b, 0, mod, mlen, inv, m, Pow(2, prefix));
    DoublePower(2, prefix);
    a := TwoLoop(a, b, exp, len, mod, mlen, inv, elen0, bitpos0, r0, ev, m);
    FromMontHigh(n, a, mod, mlen, inv, m, Pow(2, ev));
  }

  /** Doubles for each set bit and squares between bits. */
  method TwoLoop(a0: array<word>, b0: array<word>, exp: array<word>, len: nat, mod: array<word>, mlen: nat, inv: word,
                 elen0: nat, bitpos0: int, ghost r0: nat, ghost ev: nat, ghost m: int) returns (a: array<word>)
    requires Modulus(mod, mlen, inv, m) && m > 0 && len <= exp.Length && ev == Val(exp[..len])
    requires 2 * mlen <= a0.Length && 2 * mlen <= b0.Length && a0 != b0 && a0 != mod && b0 != mod && exp != a0
      && exp != b0
    requires 0 < r0 <= 32 * len && Reader(elen0, bitpos0, r0)
    requires ev / Two(r0) >= 0 && Val(a0[mlen..2 * mlen]) == Mont(Pow(2, 2 * (ev / Two(r0))), m, mlen)
    modifies a0, b0
    ensures a == a0 || a == b0
    ensures 2 * mlen <= a.Length && Val(a[mlen..2 * mlen]) == Mont(Pow(2, ev), m, mlen)
  {
    hide Val, Two, Pow, Modulus, Mont, Reader;
    var b;
    a, b := a0, b0;
    var elen, bitpos := elen0, bitpos0;
    ghost var r, h: nat := r0, ev / Two(r0);
    while true
      invariant 0 < r <= r0 && Reader(elen, bitpos, r) && h == ev / Two(r)
      invariant (a == a0 && b == b0) || (a == b0 && b == a0)
      invariant ev == Val(exp[..len]) && Modulus(mod, mlen, inv, m)
      invariant Val(a[mlen..2 * mlen]) == Mont(Pow(2, 2 * h), m, mlen)
      decreases r
    {
      var bit := Peek(exp, elen, bitpos, len, r);
      DivStep(ev, r - 1);
      if bit != 0 {
        DoubleMod(a, mod, mlen, inv, m, Pow(2, 2 * h));
        PowNext(2 * h);
      }
      h := 2 * h + bit;
      elen, bitpos := Advance(elen, bitpos, r);
      r := r - 1;
      ReaderEmpty(elen, bitpos, r);
      if elen == 0 {
        DivTwo0(ev);
        break;
      }
      MontSquare(b, a, mlen, mod, mlen, inv, m, Pow(2, h));
      DoublePower(2, h);
      a, b := b, a;
    }
  }

  lemma PowNext(k: nat)
    ensures 2 * Pow(2, k) == Pow(2, k + 1)
  {}
}
