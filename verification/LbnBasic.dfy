/** Linear-time primitives on word arrays.  A C pointer is an array with an offset. */
module LbnBasic {
  import opened Arith
  import opened Words

  method Copy(dest: array<word>, d: nat, src: array<word>, s: nat, len: nat)
    requires d + len <= dest.Length && s + len <= src.Length
    requires dest != src || d + len <= s || s + len <= d
    modifies dest
    ensures dest[d..d + len] == old(src[s..s + len])
    ensures forall i :: 0 <= i < dest.Length && (i < d || d + len <= i) ==> dest[i] == old(dest[i])
  {
    forall i | 0 <= i < len { dest[d + i] := src[s + i]; }
  }

  method Zero(num: array<word>, o: nat, len: nat)
    requires o + len <= num.Length
    modifies num
    ensures forall i :: o <= i < o + len ==> num[i] == 0
    ensures Val(num[o..o + len]) == 0
    ensures forall i :: 0 <= i < num.Length && (i < o || o + len <= i) ==> num[i] == old(num[i])
  {
    var i := 0;
    while i < len
      invariant i <= len
      invariant forall k :: o <= k < o + i ==> num[k] == 0
      invariant forall k :: 0 <= k < num.Length && (k < o || o + i <= k) ==> num[k] == old(num[k])
    {
      num[o + i] := 0;
      i := i + 1;
    }
    ValZero(num[o..o + len]);
  }

  /** Adds a word; the carry runs up only while words wrap to zero. */
  method Add1(num: array<word>, o: nat, len: nat, carry: word) returns (c: int)
    requires 0 < len && o + len <= num.Length
    modifies num
    ensures 0 <= c <= 1
    ensures Val(num[o..o + len]) + Up(c, len) == old(Val(num[o..o + len])) + carry
    ensures forall i :: 0 <= i < num.Length && (i < o || o + len <= i) ==> num[i] == old(num[i])
  {
    hide Val, Up;
    ghost var x := num[..];
    var t: int := num[o] as int + carry;
    num[o] := Lo(t);
    var i := 1;
    c := Hi(t);
    ValEmpty(x, o);
    AddColumn(x, num[..], x, o, 0, 0, 0, carry, c);
    UpAt0(carry);
    while i < len && c != 0
      invariant 1 <= i <= len && 0 <= c <= 1
      invariant Val(num[..][o..o + i]) + Up(c, i) == Val(x[o..o + i]) + carry
      invariant forall k :: 0 <= k < num.Length && (k < o || o + i <= k) ==> num[k] == x[k]
    {
      ghost var s := num[..];
      num[o + i] := Lo(num[o + i] as int + 1);
      c := if num[o + i] != 0 then 0 else 1;
      AddColumn(s, num[..], x, o, i, carry, 1, 0, c);
      UpZero(i);
      i := i + 1;
    }
    ValTail(num[..], x, o, i, len);
    if i < len { UpZero(i); UpZero(len); }
    assert num[..][o..o + len] == num[o..o + len];
  }

  /** One column of an accumulation: word i of s becomes w, where s[i] + t + c == w + B*c'. */
  lemma AddColumn(s: seq<word>, s': seq<word>, x: seq<word>, o: nat, i: nat, lhs: int, c: int, t: int, c': int)
    requires o + i < |s| == |s'| == |x|
    requires s' == s[o + i := s'[o + i]] && s[o + i] == x[o + i]
    requires Val(s[o..o + i]) + Up(c, i) == Val(x[o..o + i]) + lhs
    requires x[o + i] as int + t + c == s'[o + i] as int + B * c'
    ensures Val(s'[o..o + i + 1]) + Up(c', i + 1) == Val(x[o..o + i + 1]) + lhs + Up(t, i)
  {
    hide Val, Up;
    assert s'[o..o + i] == s[o..o + i];
    ValGrow(s', o, i);
    ValGrow(x, o, i);
    CarryStep(Val(s[o..o + i]), Val(x[o..o + i]) + lhs, i, x[o + i] as int + t, c, s'[o + i], c');
    UpAdd(x[o + i], t, i);
  }

  method AddN(a: array<word>, ao: nat, b: array<word>, bo: nat, len: nat) returns (carry: int)
    requires ao + len <= a.Length && bo + len <= b.Length
    requires a != b || ao <= bo
    modifies a
    ensures 0 <= carry <= 1
    ensures Val(a[ao..ao + len]) + Up(carry, len)
         == old(Val(a[ao..ao + len])) + old(Val(b[bo..bo + len]))
    ensures forall i :: 0 <= i < a.Length && (i < ao || ao + len <= i) ==> a[i] == old(a[i])
  {
    hide Val, Up;
    ghost var x, y := a[..], b[..];
    carry := 0;
    var i := 0;
    ValEmpty(x, ao);
    ValEmpty(y, bo);
    while i < len
      invariant i <= len && 0 <= carry <= 1
      invariant Val(a[..][ao..ao + i]) + Up(carry, i) == Val(x[ao..ao + i]) + Val(y[bo..bo + i])
      invariant forall k :: 0 <= k < a.Length && (k < ao || ao + i <= k) ==> a[k] == x[k]
      invariant forall k :: bo + i <= k < b.Length ==> b[k] == y[k]
    {
      ghost var s := a[..];
      var t: int := a[ao + i] as int + b[bo + i] + carry;
      a[ao + i] := Lo(t);
      AddColumn(s, a[..], x, ao, i, Val(y[bo..bo + i]), carry, y[bo + i], Hi(t));
      ValGrow(y, bo, i);
      carry := Hi(t);
      i := i + 1;
    }
    assert a[..][ao..ao + len] == a[ao..ao + len];
  }

  method SubN(a: array<word>, ao: nat, b: array<word>, bo: nat, len: nat) returns (borrow: int)
    requires ao + len <= a.Length && bo + len <= b.Length
    requires a != b || ao <= bo
    modifies a
    ensures 0 <= borrow <= 1
    ensures Val(a[ao..ao + len]) + old(Val(b[bo..bo + len]))
         == old(Val(a[ao..ao + len])) + Up(borrow, len)
    ensures forall i :: 0 <= i < a.Length && (i < ao || ao + len <= i) ==> a[i] == old(a[i])
  {
    hide Val, Up;
    ghost var x, y := a[..], b[..];
    borrow := 0;
    var i := 0;
    ValEmpty(x, ao);
    ValEmpty(y, bo);
    while i < len
      invariant i <= len && 0 <= borrow <= 1
      invariant Val(a[..][ao..ao + i]) + Up(-borrow, i) == Val(x[ao..ao + i]) - Val(y[bo..bo + i])
      invariant forall k :: 0 <= k < a.Length && (k < ao || ao + i <= k) ==> a[k] == x[k]
      invariant forall k :: bo + i <= k < b.Length ==> b[k] == y[k]
    {
      ghost var s := a[..];
      var t: int := a[ao + i] as int - b[bo + i] - borrow;
      a[ao + i] := Lo(t);
      AddColumn(s, a[..], x, ao, i, -Val(y[bo..bo + i]), -borrow, -(y[bo + i] as int), Hi(t));
      ValGrow(y, bo, i);
      UpNeg(y[bo + i], i);
      borrow := -Hi(t);
      i := i + 1;
    }
    UpNeg(borrow, len);
    assert a[..][ao..ao + len] == a[ao..ao + len];
  }

  lemma UpNeg(x: int, k: nat)
    ensures Up(-x, k) == -Up(x, k)
  {
    UpAdd(x, -x, k);
    UpZero(k);
  }

  /** Subtracts a word; the borrow runs up only through zero words. */
  method Sub1(num: array<word>, o: nat, len: nat, borrow: word) returns (c: int)
    requires 0 < len && o + len <= num.Length
    modifies num
    ensures 0 <= c <= 1
    ensures Val(num[o..o + len]) + borrow == old(Val(num[o..o + len])) + Up(c, len)
    ensures forall i :: 0 <= i < num.Length && (i < o || o + len <= i) ==> num[i] == old(num[i])
  {
    hide Val, Up;
    ghost var x := num[..];
    var t: int := num[o] as int - borrow;
    num[o] := Lo(t);
    c := -Hi(t);
    var i := 1;
    ValEmpty(x, o);
    AddColumn(x, num[..], x, o, 0, 0, 0, -(borrow as int), -c);
    UpAt0(-(borrow as int));
    while i < len && c != 0
      invariant 1 <= i <= len && 0 <= c <= 1
      invariant Val(num[..][o..o + i]) + Up(-c, i) == Val(x[o..o + i]) - borrow
      invariant forall k :: 0 <= k < num.Length && (k < o || o + i <= k) ==> num[k] == x[k]
    {
      ghost var s := num[..];
      var was := num[o + i];
      num[o + i] := Lo(was as int - 1);
      c := if was != 0 then 0 else 1;
      AddColumn(s, num[..], x, o, i, -(borrow as int), -1, 0, -c);
      UpZero(i);
      i := i + 1;
    }
    ValTail(num[..], x, o, i, len);
    UpNeg(c, i);
    if i < len { UpZero(i); UpZero(len); }
    assert num[..][o..o + len] == num[o..o + len];
  }

  lemma UpAt0(x: int)
    ensures Up(x, 0) == x
  {}

  /** The sign of a - b, found at the most significant differing word. */
  method Cmp(a: array<word>, ao: nat, b: array<word>, bo: nat, len: nat) returns (c: int)
    requires ao + len <= a.Length && bo + len <= b.Length
    ensures c == -1 || c == 0 || c == 1
    ensures c < 0 <==> Val(a[ao..ao + len]) < Val(b[bo..bo + len])
    ensures c > 0 <==> Val(a[ao..ao + len]) > Val(b[bo..bo + len])
  {
    hide Val;
    ghost var x, y := a[ao..ao + len], b[bo..bo + len];
    var i := len;
    while i > 0
      invariant 0 <= i <= len == |x| == |y|
      invariant x[i..] == y[i..]
    {
      i := i - 1;
      if a[ao + i] != b[bo + i] {
        if a[ao + i] < b[bo + i] {
          ValOrder(x, y, i);
          return -1;
        } else {
          ValOrder(y, x, i);
          return 1;
        }
      }
      assert x[i..] == [x[i]] + x[i + 1..] && y[i..] == [y[i]] + y[i + 1..];
    }
    assert x == x[0..] && y == y[0..];
    return 0;
  }

  /** Drops high-order zero words. */
  method Norm(num: array<word>, o: nat, len: nat) returns (n: nat)
    requires o + len <= num.Length
    ensures n <= len
    ensures Val(num[o..o + n]) == Val(num[o..o + len])
    ensures n == 0 || num[o + n - 1] != 0
    ensures forall i :: o + n <= i < o + len ==> num[i] == 0
  {
    hide Val;
    n := len;
    while n > 0 && num[o + n - 1] == 0
      invariant n <= len
      invariant forall i :: o + n <= i < o + len ==> num[i] == 0
    {
      n := n - 1;
    }
    ValHigh(num[o..o + len], n);
    assert num[o..o + len][..n] == num[o..o + n];
  }

  /** A number with its leading zero words dropped has ml words. */
  ghost predicate Significant(mod: array<word>, mlen: nat, ml: nat)
    reads mod
  {
    0 < ml <= mlen <= mod.Length && mod[ml - 1] != 0 && forall i :: ml <= i < mlen ==> mod[i] == 0
  }

  method NormTo(mod: array<word>, mlen: nat, ghost ml: nat) returns (n: nat)
    requires Significant(mod, mlen, ml)
    ensures n == ml
  {
    n := Norm(mod, 0, mlen);
    assert mod[ml - 1] != 0 && (n == 0 || mod[n - 1] != 0);
  }

  /** A number with a nonzero top word is not zero. */
  lemma TopSet(s: seq<word>)
    requires s != [] && s[|s| - 1] != 0
    ensures Val(s) > 0
  {
    hide Val, Up;
    ValGrow(s, 0, |s| - 1);
    assert s[0..|s| - 1 + 1] == s;
    ValBound(s[0..|s| - 1]);
    UpMonotone(1, s[|s| - 1], |s| - 1);
  }

  /** The binary search the library uses to find a word's leading zero bits. */
  method LeadingZeros(d: word) returns (shift: nat)
    requires d != 0
    ensures shift < 32
    ensures Pow(2, 31) <= d * Pow(2, shift) < B
  {
    hide Pow, Shr;
    shift := 0;
    var r := d;
    var i := 16;
    ghost var w := 32;
    TwoPow32();
    PowAt0(2);
    while i != 0
      invariant i in {16, 8, 4, 2, 1, 0} && w == (if i == 0 then 1 else 2 * i)
      invariant shift + w <= 32
      invariant 0 < r < Pow(2, w)
      invariant r == d / Pow(2, 32 - w - shift)
      decreases i
    {
      HalveStep(d, r, 32 - w - shift, i);
      if Shr(r, i) != 0 {
        r := Shr(r, i);
      } else {
        shift := shift + i;
      }
      w := i;
      i := i / 2;
    }
    PowAt0(2);
    TopBit(d, shift);
  }

  lemma PowAt0(b: int)
    ensures Pow(b, 0) == 1 && Pow(b, 1) == b
  {}

  lemma HalveStep(d: nat, r: word, low: nat, i: nat)
    requires r == d / Pow(2, low) && 0 < r < Pow(2, i + i)
    ensures Shr(r, i) == 0 ==> r < Pow(2, i)
    ensures 0 <= Shr(r, i) < Pow(2, i) && Shr(r, i) == d / Pow(2, low + i)
  {
    PowAdd(2, i, i);
    PowAdd(2, low, i);
    DivDiv(d, Pow(2, low), Pow(2, i));
    DivBelow(r, Pow(2, i), Pow(2, i));
    if Shr(r, i) == 0 { DivSmall(r, Pow(2, i)); }
  }

  lemma DivDiv(x: int, p: int, q: int)
    requires p > 0 && q > 0
    ensures p * q > 0
    ensures (x / p) / q == x / (p * q)
  {
    var y := x / p;
    var z := y / q;
    var r := x % p + p * (y % q);
    assert x == p * y + x % p && y == q * z + y % q;
    assert x == z * (p * q) + r by {
      assert p * y == p * (q * z) + p * (y % q);
      assert p * (q * z) == z * (p * q);
    }
    Scale(y % q, q - 1, p);
    assert p * (q - 1) == p * q - p;
    DivModUnique(x, p * q, z, r);
  }

  lemma DivBelow(x: int, p: int, q: int)
    requires p > 0 && 0 <= x < p * q
    ensures 0 <= x / p < q
  {
    assert x == p * (x / p) + x % p;
    if x / p >= q { Scale(q, x / p, p); }
  }

  lemma DivSmall(x: int, p: int)
    requires p > 0 && x >= 0 && x / p == 0
    ensures x < p
  {
    assert x == p * (x / p) + x % p;
  }

  lemma TopBit(d: word, shift: nat)
    requires shift < 32 && d / Pow(2, 31 - shift) == 1
    ensures Pow(2, 31) <= d * Pow(2, shift) < B
  {
    hide Pow;
    TwoPow32();
    PowAdd(2, 31 - shift, shift);
    PowAdd(2, 1, 31);
    PowAt0(2);
    TopBitProduct(d, Pow(2, 31 - shift), Pow(2, shift));
  }

  lemma TopBitProduct(d: nat, p: int, q: int)
    requires p > 0 && q > 0 && d / p == 1
    ensures p * q <= d * q < 2 * (p * q)
  {
    assert d == p * 1 + d % p;
    Scale(p, d, q);
    Scale(d, 2 * p - 1, q);
  }

  /** Shifts left by 0 < shift < 32 bits; the bits pushed out are returned. */
  method Lshift(num: array<word>, o: nat, len: nat, shift: nat) returns (carry: word)
    requires o + len <= num.Length && 0 < shift < 32
    modifies num
    ensures carry < Pow(2, shift)
    ensures Val(num[o..o + len]) + Up(carry, len) == old(Val(num[o..o + len])) * Pow(2, shift)
    ensures len > 0 ==> num[o] <= B - Pow(2, shift)
    ensures forall i :: 0 <= i < num.Length && (i < o || o + len <= i) ==> num[i] == old(num[i])
  {
    hide Val, Up, Pow, Shl, Shr;
    ghost var x, p := num[..], Pow(2, shift);
    carry := 0;
    var i := 0;
    ValEmpty(x, o);
    while i < len
      invariant i <= len && carry < p
      invariant Val(num[..][o..o + i]) + Up(carry, i) == Val(x[o..o + i]) * p
      invariant i == 0 ==> carry == 0
      invariant i > 0 ==> num[o] <= B - p
      invariant forall k :: 0 <= k < num.Length && (k < o || o + i <= k) ==> num[k] == x[k]
    {
      ghost var s := num[..];
      var t := num[o + i];
      ShlShr(t, shift);
      num[o + i] := Shl(t, shift) + carry;
      MulColumn(s, num[..], o, x, o, i, p, carry, Shr(t, 32 - shift));
      carry := Shr(t, 32 - shift);
      i := i + 1;
    }
    assert num[..][o..o + len] == num[o..o + len];
  }

  /** One column of a product by p: word i of s becomes w, where x[i]*p + c == w + B*c'. */
  lemma MulColumn(s: seq<word>, s': seq<word>, o: nat, x: seq<word>, xo: nat, i: nat, p: int, c: int, c': int)
    requires o + i < |s| == |s'| && xo + i < |x|
    requires s' == s[o + i := s'[o + i]]
    requires Val(s[o..o + i]) + Up(c, i) == Val(x[xo..xo + i]) * p
    requires x[xo + i] * p + c == s'[o + i] as int + B * c'
    ensures Val(s'[o..o + i + 1]) + Up(c', i + 1) == Val(x[xo..xo + i + 1]) * p
  {
    hide Val, Up;
    assert s'[o..o + i] == s[o..o + i];
    ValGrow(s', o, i);
    ValGrow(x, xo, i);
    CarryStep(Val(s[o..o + i]), Val(x[xo..xo + i]) * p, i, x[xo + i] * p, c, s'[o + i], c');
    UpScale(x[xo + i], p, i);
  }

  lemma {:induction false} UpScale(x: int, p: int, k: nat)
    ensures Up(x * p, k) == Up(x, k) * p
  {
    if k > 0 {
      UpScale(x, p, k - 1);
      Associate(B, Up(x, k - 1), p);
    }
  }

  method Double(num: array<word>, o: nat, len: nat) returns (carry: word)
    requires o + len <= num.Length
    modifies num
    ensures carry <= 1
    ensures Val(num[o..o + len]) + Up(carry, len) == 2 * old(Val(num[o..o + len]))
    ensures forall i :: 0 <= i < num.Length && (i < o || o + len <= i) ==> num[i] == old(num[i])
  {
    hide Val, Up, Pow;
    PowAt0(2);
    carry := Lshift(num, o, len, 1);
  }

  /** Shifts right by 0 < shift < 32 bits; the bits pushed out are returned. */
  method Rshift(num: array<word>, o: nat, len: nat, shift: nat) returns (out: word)
    requires o + len <= num.Length && 0 < shift < 32
    modifies num
    ensures out < Pow(2, shift)
    ensures old(Val(num[o..o + len])) == Val(num[o..o + len]) * Pow(2, shift) + out
    ensures forall i :: 0 <= i < num.Length && (i < o || o + len <= i) ==> num[i] == old(num[i])
  {
    hide Val, Up, Pow, Shl, Shr, Scaled;
    ghost var x, p, c := num[..], Pow(2, shift), 0;
    var carry: word := 0;
    var i := len;
    ValEmpty(x, o + len);
    ScaledOf(0, p, 0);
    ScaledOf(0, Pow(2, 32 - shift), 0);
    while i > 0
      invariant 0 <= i <= len && 0 <= c < p && carry == Scaled(c, Pow(2, 32 - shift), 0)
      invariant Val(x[o + i..o + len]) == Scaled(Val(num[..][o + i..o + len]), p, c)
      invariant forall k :: 0 <= k < num.Length && (k < o + i || o + len <= k) ==> num[k] == x[k]
    {
      i := i - 1;
      ghost var s := num[..];
      var t := num[o + i];
      RshiftWord(t, shift, c);
      num[o + i] := Shr(t, shift) + carry;
      RshiftColumn(s, num[..], x, o + i, o + len, p, c, t % p);
      carry := Shl(t, 32 - shift);
      c := t % p;
    }
    RshiftWord(0, shift, c);
    assert num[..][o..o + len] == num[o..o + len];
    out := Shr(carry, 32 - shift);
    ScaledOf(Val(num[o..o + len]), p, c);
  }

  function Scaled(v: int, p: int, c: int): int { v * p + c }

  lemma ScaledOf(v: int, p: int, c: int)
    ensures Scaled(v, p, c) == v * p + c
  {}

  lemma RshiftWord(t: word, shift: nat, c: nat)
    requires 0 < shift < 32 && c < Pow(2, shift)
    ensures 0 <= Scaled(c, Pow(2, 32 - shift), 0) < B
    ensures Shr(t, shift) + Scaled(c, Pow(2, 32 - shift), 0) < B
    ensures Scaled(Shr(t, shift) + Scaled(c, Pow(2, 32 - shift), 0), Pow(2, shift), t % Pow(2, shift)) == t + B * c
    ensures Shl(t, 32 - shift) == Scaled(t % Pow(2, shift), Pow(2, 32 - shift), 0)
    ensures c == Scaled(c, Pow(2, 32 - shift), 0) / Pow(2, 32 - shift)
    ensures Shr(Scaled(c, Pow(2, 32 - shift), 0), 32 - shift) == c
  {
    hide Pow;
    TwoPow32();
    PowAdd(2, shift, 32 - shift);
    RshiftParts(t, Pow(2, shift), Pow(2, 32 - shift), B, c);
    ShlShr(t, 32 - shift);
    ShiftParts(t, Pow(2, 32 - shift), Pow(2, shift), B);
    DivModUnique(c * Pow(2, 32 - shift), Pow(2, 32 - shift), c, 0);
  }

  lemma RshiftParts(t: nat, p: int, q: int, m: int, c: nat)
    requires p > 0 && q > 0 && p * q == m && t < m && c < p
    ensures t / p + c * q < m
    ensures (t / p + c * q) * p + t % p == t + m * c
    ensures 0 <= c * q < m
  {
    ShiftParts(t, q, p, m);
    assert (p - 1) * q == m - q;
    Scale(0, c, q);
    Scale(c, p - 1, q);
    var h := t / p;
    assert t == h * p + t % p;
    Associate(c, q, p);
    assert q * p == m;
    RshiftSum(h, c * q, p);
  }

  lemma RshiftSum(h: int, x: int, p: int)
    ensures (h + x) * p == h * p + x * p
  {
  }

  lemma RshiftColumn(s: seq<word>, s': seq<word>, x: seq<word>, i: nat, end: nat, p: int, c: int, c': int)
    requires i < end <= |s| == |s'| == |x|
    requires s' == s[i := s'[i]]
    requires Val(x[i + 1..end]) == Scaled(Val(s[i + 1..end]), p, c)
    requires Scaled(s'[i], p, c') == x[i] as int + B * c
    ensures Val(x[i..end]) == Scaled(Val(s'[i..end]), p, c')
  {
    assert s'[i + 1..end] == s[i + 1..end];
    assert s'[i..end] == [s'[i]] + s'[i + 1..end] && x[i..end] == [x[i]] + x[i + 1..end];
    assert Val(s'[i..end]) == s'[i] + B * Val(s'[i + 1..end]);
    assert Val(x[i..end]) == x[i] + B * Val(x[i + 1..end]);
    hide Val;
    var v: int, w: int := Val(s'[i + 1..end]), s'[i];
    assert (w + B * v) * p == w * p + B * (v * p);
  }

  /** The number of significant bits. */
  method Bits(num: array<word>, o: nat, len: nat) returns (bits: nat)
    requires o + len <= num.Length
    ensures bits == 0 <==> Val(num[o..o + len]) == 0
    ensures bits > 0 ==> Pow(2, bits - 1) <= Val(num[o..o + len]) < Pow(2, bits)
    ensures bits <= 32 * len
    ensures len > 0 && num[o + len - 1] != 0 ==> 32 * (len - 1) < bits
  {
    hide Val, Up, Pow;
    var n := Norm(num, o, len);
    if n == 0 {
      ValEmpty(num[..], o);
      assert num[..][o..o] == num[o..o];
      return 0;
    }
    var shift := LeadingZeros(num[o + n - 1]);
    bits := 32 * n - shift;
    BitsOf(num[o..o + n], shift);
  }

  lemma BitsOf(s: seq<word>, shift: nat)
    requires s != [] && shift < 32
    requires Pow(2, 31) <= s[|s| - 1] * Pow(2, shift) < B
    ensures Pow(2, 32 * |s| - shift - 1) <= Val(s) < Pow(2, 32 * |s| - shift)
  {
    hide Val, Up, Pow;
    var k, h: int := |s| - 1, s[|s| - 1];
    ValGrow(s, 0, k);
    assert s[0..k + 1] == s;
    ValBound(s[0..k]);
    UpIsProduct(h, k);
    UpIsProduct(1, k);
    UpBits(k);
    TwoPow32();
    PowAdd(2, 31 - shift, shift);
    PowAdd(2, 32 - shift, shift);
    CancelPow(h, Pow(2, 31 - shift), Pow(2, 32 - shift), Pow(2, shift));
    PowAdd(2, 31 - shift, 32 * k);
    PowAdd(2, 32 - shift, 32 * k);
    var w := Pow(2, 32 * k);
    assert Pow(B, k) == w;
    Scale(Pow(2, 31 - shift), h, w);
    Scale(h, Pow(2, 32 - shift) - 1, w);
    assert (Pow(2, 32 - shift) - 1) * w == Pow(2, 32 - shift) * w - w;
  }

  lemma CancelPow(h: int, lo: int, hi: int, p: int)
    requires p > 0 && lo * p <= h * p < hi * p
    ensures lo <= h < hi
  {
    if h < lo { Scale(h, lo - 1, p); }
    if hi <= h { Scale(hi, h, p); }
  }

  /** Two's complement negation: the words of B^len - num, or zero for zero. */
  method Neg(num: array<word>, o: nat, len: nat)
    requires 0 < len && o + len <= num.Length
    modifies num
    ensures Val(num[o..o + len]) == if old(Val(num[o..o + len])) == 0 then 0 else Up(1, len) - old(Val(num[o..o + len]))
    ensures forall i :: 0 <= i < num.Length && (i < o || o + len <= i) ==> num[i] == old(num[i])
  {
    hide Val, Up;
    ghost var x := num[..];
    var i := 0;
    while num[o + i] == 0
      invariant 0 <= i < len && num[..] == x && forall k :: o <= k < o + i ==> x[k] == 0
      decreases len - i
    {
      i := i + 1;
      if i == len {
        ValZero(num[o..o + len]);
        return;
      }
    }
    num[o + i] := Lo(-(num[o + i] as int));
    NegFirst(x, num[..], o, i);
    i := i + 1;
    while i < len
      invariant 0 < i <= len
      invariant Val(num[..][o..o + i]) + Val(x[o..o + i]) == Up(1, i) && Val(x[o..o + i]) > 0
      invariant forall k :: 0 <= k < num.Length && (k < o || o + i <= k) ==> num[k] == x[k]
    {
      ghost var s := num[..];
      num[o + i] := B - 1 - num[o + i];
      NegNext(x, s, num[..], o, i);
      i := i + 1;
    }
    assert num[..][o..o + len] == num[o..o + len] && x[o..o + len] == old(num[o..o + len]);
  }

  lemma NegFirst(x: seq<word>, y: seq<word>, o: nat, i: nat)
    requires o + i < |x| == |y| && x[o + i] != 0 && y == x[o + i := Lo(-(x[o + i] as int))]
      && forall k :: o <= k < o + i ==> x[k] == 0
    ensures Val(y[o..o + i + 1]) + Val(x[o..o + i + 1]) == Up(1, i + 1) && Val(x[o..o + i + 1]) > 0
  {
    assert Lo(-(x[o + i] as int)) == B - x[o + i] by { DivModUnique(-(x[o + i] as int), B, -1, B - x[o + i]); }
    hide Val, Up, Lo;
    ValGrow(x, o, i);
    ValGrow(y, o, i);
    ValZero(x[o..o + i]);
    ValZero(y[o..o + i]);
    UpAdd(x[o + i], y[o + i], i);
    UpInner(1, i);
    UpMonotone(1, x[o + i], i);
    UpMonotone(1, 0, i);
    UpZero(i);
  }

  lemma NegNext(x: seq<word>, s: seq<word>, y: seq<word>, o: nat, i: nat)
    requires o + i < |x| == |s| == |y| && s[o + i] == x[o + i] && y == s[o + i := B - 1 - s[o + i]]
    requires Val(s[o..o + i]) + Val(x[o..o + i]) == Up(1, i) && Val(x[o..o + i]) > 0
    ensures Val(y[o..o + i + 1]) + Val(x[o..o + i + 1]) == Up(1, i + 1) && Val(x[o..o + i + 1]) > 0
  {
    hide Val, Up;
    assert y[o..o + i] == s[o..o + i];
    ValGrow(x, o, i);
    ValGrow(y, o, i);
    UpAdd(x[o + i], y[o + i], i);
    UpAdd(1, B - 1, i);
    UpInner(1, i);
    UpMonotone(0, x[o + i], i);
    UpZero(i);
  }

  /** Dropping k low words divides by 2^(32 k). */
  lemma WordsDropped(s: seq<word>, k: nat)
    requires k <= |s|
    ensures Val(s) / Pow(2, 32 * k) == Val(s[k..])
  {
    hide Val, Up, Pow;
    ValSplit(s, k);
    ValBound(s[..k]);
    UpBits(k);
    UpIsProduct(1, k);
    UpIsProduct(Val(s[k..]), k);
    DivModUnique(Val(s), Pow(2, 32 * k), Val(s[k..]), Val(s[..k]));
  }
}
