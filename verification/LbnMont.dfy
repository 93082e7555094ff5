/** Montgomery reduction and the arithmetic of numbers in Montgomery form. */
module LbnMont {
  import opened Arith
  import opened Words
  import opened LbnBasic
  import opened LbnMul
  import opened LbnSquare
  import opened LbnKnuth

  // ---- the inverse of a word modulo the word base ----

  /** One Newton step doubles the number of correct low bits: x*y == 1 + m*p becomes 1 modulo p*p. */
  lemma NewtonStep(xy: int, m: int, p: int, z: int, h: int)
    requires xy == 1 + m * p && z == xy - B * h
    ensures xy * (2 - z) == 1 - m * m * (p * p) + B * (xy * h)
  {
    calc {
      xy * (2 - z);
      xy * (2 - xy + B * h);
      xy * (2 - xy) + xy * (B * h);
      { assert xy * (B * h) == B * (xy * h); }
      (1 + m * p) * (1 - m * p) + B * (xy * h);
      1 - m * p * (m * p) + B * (xy * h);
      { assert m * p * (m * p) == m * m * (p * p); }
      1 - m * m * (p * p) + B * (xy * h);
    }
  }

  /** The new product, read modulo the doubled precision (or modulo B once that is reached). */
  lemma NewtonBits(x: word, y: word, k: nat) returns (k': nat)
    requires k >= 3 && k <= 32 && Cong(x * y, 1, Pow(2, k))
    ensures k' == (if 2 * k <= 32 then 2 * k else 32)
    ensures Cong(x * Lo(y * (2 - Lo(x * y) as int)), 1, Pow(2, k'))
  {
    hide Pow;
    k' := if 2 * k <= 32 then 2 * k else 32;
    var p, p' := Pow(2, k), Pow(2, k');
    var m := CongWitness(x * y, 1, p);
    var z: int, h := Lo(x * y), Hi(x * y);
    NewtonStep(x * y, m, p, z, h);
    var w := y * (2 - z);
    Associate(x, y, 2 - z);
    TwoPow32();
    PowAdd(2, 32 - k', k');
    PowAdd(2, k, k);
    PowAdd(2, 2 * k - k', k');
    NewtonRest(x, w, Lo(w), Hi(w), m * m, x * y * h, Pow(2, 32 - k'), Pow(2, 2 * k - k'), p');
  }

  lemma NewtonRest(x: int, w: int, l: int, h: int, c1: int, c2: int, a: int, b: int, q: int)
    requires q > 0 && l == w - a * q * h && x * w == 1 - c1 * (b * q) + a * q * c2
    ensures Cong(x * l, 1, q)
  {
    var e1, e2, e3 := c1 * b, a * c2, a * (x * h);
    assert x * l == x * w - x * (a * q * h);
    Rotate(x, a, q, h);
    Associate(c1, b, q);
    Swap(a, q, c2);
    assert (e2 - e1 - e3) * q == e2 * q - e1 * q - e3 * q;
    CongFrom(x * l, 1, e2 - e1 - e3, q);
  }

  lemma Rotate(x: int, a: int, q: int, h: int)
    ensures x * (a * q * h) == a * (x * h) * q
  {
    Swap(a, q, h);
    assert x * (a * h * q) == x * (a * h) * q;
    assert x * (a * h) == a * (x * h);
  }

  /** The negated inverse of an odd word modulo the word base, by Newton's iteration. */
  method MontInv1(x: word) returns (inv: word)
    requires x % 2 == 1
    ensures Lo(inv * x) == B - 1
  {
    hide Lo, Hi, Cong, Pow;
    var y: word := x;
    ghost var k := 3;
    OddSquare(x);
    var z: word := Lo(x * y);
    while z != 1
      invariant 3 <= k <= 32 && z == Lo(x * y)
      invariant Cong(x * y, 1, Pow(2, k))
      decreases 32 - k
    {
      AllBits(x, y, k);
      k := NewtonBits(x, y, k);
      y := Lo(y * (2 - z as int));
      z := Lo(x * y);
    }
    inv := Lo(-(y as int));
    NegatedInverse(x, y, inv);
  }

  lemma OddSquare(x: word)
    requires x % 2 == 1
    ensures Cong(x * x, 1, Pow(2, 3))
  {
    assert Pow(2, 3) == 8;
    CongMod(x, 8);
    CongMul(x, x % 8, x, x % 8, 8);
    assert x % 8 in {1, 3, 5, 7};
  }

  lemma AllBits(x: word, y: word, k: nat)
    requires k <= 32 && Cong(x * y, 1, Pow(2, k)) && Lo(x * y) != 1
    ensures k < 32
  {
    TwoPow32();
  }

  lemma NegatedInverse(x: word, y: word, inv: word)
    requires Lo(x * y) == 1 && inv == Lo(-(y as int))
    ensures Lo(inv * x) == B - 1
  {
    var h := Hi(-(y as int));
    assert inv * x == -(x * y) - B * (h * x) by {
      assert (-(y as int) - B * h) * x == -(x * y) - B * (h * x);
    }
    DivModUnique(inv * x, B, -Hi(x * y) - 1 - h * x, B - 1);
  }

  // ---- reduction ----

  /** The multiplier inv * n[i] makes the lowest word in use vanish. */
  lemma LowWordVanishes(s: seq<word>, s': seq<word>, m: seq<word>, inv: word, c: int)
    requires |s| == |s'| > 0 && m != [] && Lo(inv * m[0]) == B - 1
    requires Val(s') + Up(c, |s|) == Val(s) + Val(m) * Lo(inv * s[0])
    ensures s'[0] == 0
  {
    hide Val, Up, Lo, Hi;
    var k: int, w, u := Lo(inv * s[0]), Val(m[1..]), Up(c, |s| - 1);
    var m0: int, n0: int, t0: int := m[0], s[0], s'[0];
    ValHead(s);
    ValHead(s');
    ValHead(m);
    UpHead(c, |s|);
    LowProduct(m[0], inv, s[0], k);
    var e := CongWitness(m0 * k, -n0, B);
    Distribute(m0, w, k);
    Vanishes(t0, Val(s'[1..]), n0, Val(s[1..]), m0 * k, w * k, e, u);
  }

  lemma Vanishes(t0: int, t: int, n0: int, n: int, low: int, high: int, e: int, u: int)
    requires 0 <= t0 < B && t0 + B * t + B * u == n0 + B * n + (low + B * high) && low == -n0 + e * B
    ensures t0 == 0
  {}

  lemma Distribute(x: int, w: int, k: int)
    ensures (x + B * w) * k == x * k + B * (w * k)
  {}

  lemma LowProduct(m: word, inv: word, n: word, k: word)
    requires Lo(inv * m) == B - 1 && k == Lo(inv * n)
    ensures Cong(m * k, -(n as int), B)
  {
    CongMod(inv * n, B);
    CongMul(m, m, k, inv * n, B);
    CongFrom(inv * m, -1, Hi(inv * m) + 1, B);
    CongMul(inv * m, -1, n, n, B);
    assert m * (inv * n) == inv * m * n;
  }

  lemma MultipleVanishes(m: int, k: int, i: nat)
    requires m > 0
    ensures Cong(Up(m * k, i), 0, m)
  {
    UpIsProduct(m * k, i);
    assert m * k * Pow(B, i) == 0 + (k * Pow(B, i)) * m;
    CongFrom(Up(m * k, i), 0, k * Pow(B, i), m);
  }

  /** What has been added after i + 1 rounds is still less than m * B^(i+1). */
  lemma AddedBound(m: int, k: word, i: nat, added: int)
    requires m > 0 && 0 <= added <= Up(m, i) - m
    ensures 0 <= added + Up(m * k, i) <= Up(m, i + 1) - m
  {
    Scale(k, B - 1, m);
    Scale(0, k, m);
    hide Up;
    UpMonotone(m * k, m * (B - 1), i);
    UpMonotone(0, m * k, i);
    UpZero(i);
    UpAdd(m, m * (B - 1), i);
    UpInner(m, i);
  }

  /** The sum never carries more than one out of the top. */
  lemma CarryBound(s: seq<word>, c: int, n: int, added: int, m: int, i: nat, len: nat)
    requires |s| == 2 * len && 0 <= c && i <= len && 0 <= n < Up(1, 2 * len) && 0 < m < Up(1, len)
    requires Val(s) + Up(c, 2 * len) == n + added && added <= Up(m, i) - m
    ensures c <= 1
  {
    hide Val, Up;
    ValBound(s);
    UpGrow(m, i, len);
    UpMonotone(m, Up(1, len), len);
    UpUp(1, len, len);
    UpAdd(1, 1, 2 * len);
    if c > 1 { UpMonotone(2, c, 2 * len); }
  }

  lemma {:induction false} UpGrow(x: int, i: nat, j: nat)
    requires x >= 0 && i <= j
    ensures 0 <= Up(x, i) <= Up(x, j)
  {
    UpMonotone(0, x, i);
    UpZero(i);
    if i < j { UpGrow(x, i, j - 1); }
  }

  /** Adds multiples of the modulus until the low half of n is zero; c counts the carries out of the top. */
  method ClearLow(n: array<word>, mod: array<word>, mlen: nat, inv: word) returns (c: int)
    requires mlen > 0 && 2 * mlen <= n.Length && mlen <= mod.Length && n != mod
    requires Lo(inv * mod[0]) == B - 1 && Val(mod[..mlen]) > 0
    modifies n
    ensures 0 <= c <= 1
    ensures Cong(Up(Val(n[mlen..2 * mlen]) + Up(c, mlen), mlen), old(Val(n[..2 * mlen])), Val(mod[..mlen]))
    ensures forall i :: 2 * mlen <= i < n.Length ==> n[i] == old(n[i])
  {
    hide Val, Up, Lo, Hi, Cong;
    ghost var nv, m, added := Val(n[..2 * mlen]), Val(mod[..mlen]), 0;
    ValBound(n[..2 * mlen]);
    ValBound(mod[..mlen]);
    c := 0;
    var i := 0;
    UpZero(2 * mlen);
    UpAt0(m);
    CongFrom(nv, nv, 0, m);
    while i < mlen
      invariant 0 <= i <= mlen && 0 <= c <= 1
      invariant Val(n[..2 * mlen]) + Up(c, 2 * mlen) == nv + added
      invariant 0 <= added <= Up(m, i) - m && Cong(nv + added, nv, m)
      invariant forall j :: 0 <= j < i ==> n[j] == 0
      invariant forall j :: 2 * mlen <= j < n.Length ==> n[j] == old(n[j])
    {
      ghost var s := n[..];
      var k := Lo(inv * n[i]);
      c := AddMultiple(n, mod, mlen, i, k, inv, c);
      AddedBound(m, k, i, added);
      MultipleVanishes(m, k, i);
      CongAdd(nv + added, nv, Up(m * k, i), 0, m);
      added := added + Up(m * k, i);
      CarryBound(n[..2 * mlen], c, nv, added, m, i + 1, mlen);
      i := i + 1;
    }
    HighHalf(n[..2 * mlen], c, mlen);
    assert n[..2 * mlen][mlen..] == n[mlen..2 * mlen];
  }

  /** One round: n += mod * k at word i, carrying to the top; word i becomes zero. */
  method AddMultiple(n: array<word>, mod: array<word>, mlen: nat, i: nat, k: word, inv: word, c0: int) returns (c: int)
    requires i < mlen && 2 * mlen <= n.Length && mlen <= mod.Length && n != mod && 0 <= c0
    requires Lo(inv * mod[0]) == B - 1 && k == Lo(inv * n[i])
    modifies n
    ensures 0 <= c
    ensures Val(n[..2 * mlen]) + Up(c, 2 * mlen) ==
      old(Val(n[..2 * mlen])) + Up(c0, 2 * mlen) + Up(Val(mod[..mlen]) * k, i)
    ensures n[i] == 0
    ensures forall j :: 0 <= j < n.Length && (j < i || 2 * mlen <= j) ==> n[j] == old(n[j])
  {
    hide Val, Up, Lo, Hi;
    ghost var s := n[..];
    assert mod[0..mlen] == mod[..mlen];
    var c1 := AddShifted(n, i, 2 * mlen, mod, 0, mlen, k);
    LowWordVanishes(s[i..2 * mlen], n[i..2 * mlen], mod[..mlen], inv, c1);
    SeenFromBelow(s, n[..], i, 2 * mlen, Val(mod[..mlen]) * k, c1);
    UpAdd(c0, c1, 2 * mlen);
    c := c0 + c1;
  }

  lemma HighHalf(s: seq<word>, c: int, len: nat)
    requires |s| == 2 * len && forall j :: 0 <= j < len ==> s[j] == 0
    ensures Val(s) + Up(c, 2 * len) == Up(Val(s[len..]) + Up(c, len), len)
  {
    ValSplit(s, len);
    ValZero(s[..len]);
    UpUp(c, len, len);
    UpAdd(Val(s[len..]), Up(c, len), len);
  }

  /** One subtraction of the modulus from the high half, seen with the carry c above it. */
  method SubtractOnce(n: array<word>, mod: array<word>, mlen: nat, c: int, ghost h: int) returns (borrow: int)
    requires 2 * mlen <= n.Length && mlen <= mod.Length && n != mod && Val(mod[..mlen]) > 0
    requires Cong(Val(n[mlen..2 * mlen]) + Up(c, mlen), h, Val(mod[..mlen]))
    modifies n
    ensures 0 <= borrow <= 1
    ensures Val(n[mlen..2 * mlen]) + Val(mod[..mlen]) == old(Val(n[mlen..2 * mlen])) + Up(borrow, mlen)
    ensures Cong(Val(n[mlen..2 * mlen]) + Up(c - borrow, mlen), h, Val(mod[..mlen]))
    ensures forall i :: 0 <= i < n.Length && (i < mlen || 2 * mlen <= i) ==> n[i] == old(n[i])
  {
    hide Val, Up, Cong;
    ghost var v := Val(n[mlen..2 * mlen]);
    assert mod[0..mlen] == mod[..mlen];
    borrow := SubN(n, mlen, mod, 0, mlen);
    UpAdd(c - borrow, borrow, mlen);
    CongShift(v + Up(c, mlen), h, Val(mod[..mlen]));
  }

  /** Subtracts the modulus until the carry above the high half is used up. */
  method DropCarry(n: array<word>, mod: array<word>, mlen: nat, c0: int, ghost h: int)
    requires 2 * mlen <= n.Length && mlen <= mod.Length && n != mod && 0 <= c0 <= 1 && Val(mod[..mlen]) > 0
    requires Cong(Val(n[mlen..2 * mlen]) + Up(c0, mlen), h, Val(mod[..mlen]))
    modifies n
    ensures Cong(Val(n[mlen..2 * mlen]), h, Val(mod[..mlen]))
    ensures forall i :: 0 <= i < n.Length && (i < mlen || 2 * mlen <= i) ==> n[i] == old(n[i])
  {
    hide Val, Up, Cong;
    var c := c0;
    while c != 0
      invariant 0 <= c <= 1
      invariant Cong(Val(n[mlen..2 * mlen]) + Up(c, mlen), h, Val(mod[..mlen]))
      invariant forall i :: 0 <= i < n.Length && (i < mlen || 2 * mlen <= i) ==> n[i] == old(n[i])
      decreases c, Val(n[mlen..2 * mlen])
    {
      ValBound(n[mlen..2 * mlen]);
      var borrow := SubtractOnce(n, mod, mlen, c, h);
      UpZero(mlen);
      c := c - borrow;
    }
    UpZero(mlen);
  }

  /** Subtracts the modulus while the value, carry included, is not below it. */
  method SubtractModulus(n: array<word>, mod: array<word>, mlen: nat, c0: int)
    requires 2 * mlen <= n.Length && mlen <= mod.Length && n != mod && 0 <= c0 <= 1 && Val(mod[..mlen]) > 0
    modifies n
    ensures Val(n[mlen..2 * mlen]) < Val(mod[..mlen])
    ensures Cong(Val(n[mlen..2 * mlen]), old(Val(n[mlen..2 * mlen])) + Up(c0, mlen), Val(mod[..mlen]))
    ensures forall i :: 0 <= i < n.Length && (i < mlen || 2 * mlen <= i) ==> n[i] == old(n[i])
  {
    hide Val, Up, Cong;
    ghost var h := Val(n[mlen..2 * mlen]) + Up(c0, mlen);
    CongFrom(h, h, 0, Val(mod[..mlen]));
    DropCarry(n, mod, mlen, c0, h);
    UpZero(mlen);
    var cmp := Cmp(n, mlen, mod, 0, mlen);
    assert mod[0..mlen] == mod[..mlen];
    while cmp >= 0
      invariant cmp >= 0 <==> Val(n[mlen..2 * mlen]) >= Val(mod[..mlen])
      invariant Cong(Val(n[mlen..2 * mlen]), h, Val(mod[..mlen]))
      invariant forall i :: 0 <= i < n.Length && (i < mlen || 2 * mlen <= i) ==> n[i] == old(n[i])
      decreases Val(n[mlen..2 * mlen])
    {
      ghost var v := Val(n[mlen..2 * mlen]);
      var borrow := SubtractOnce(n, mod, mlen, 0, h);
      NoBorrow(n[mlen..2 * mlen], borrow, v - Val(mod[..mlen]));
      cmp := Cmp(n, mlen, mod, 0, mlen);
    }
  }

  lemma NoBorrow(s: seq<word>, borrow: int, v: int)
    requires 0 <= borrow <= 1 && Val(s) == v + Up(borrow, |s|) && v >= 0
    ensures borrow == 0 && Up(borrow, |s|) == 0 && Val(s) >= 0
  {
    ValBound(s);
    UpZero(|s|);
  }

  lemma CongShift(x: int, y: int, m: int)
    requires m > 0 && Cong(x, y, m)
    ensures Cong(x - m, y, m)
  {
    ModOf(x, -1, m);
  }

  /**
   * Divides by B^mlen modulo the modulus: the top half t of n satisfies t * B^mlen == n (mod m) and t < m,
   * for every input of 2 * mlen words.
   */
  method MontReduce(n: array<word>, mod: array<word>, mlen: nat, inv: word)
    requires mlen > 0 && 2 * mlen <= n.Length && mlen <= mod.Length && n != mod
    requires Lo(inv * mod[0]) == B - 1 && Val(mod[..mlen]) > 0
    modifies n
    ensures 0 <= Val(n[mlen..2 * mlen]) < Val(mod[..mlen])
    ensures Cong(Up(Val(n[mlen..2 * mlen]), mlen), old(Val(n[..2 * mlen])), Val(mod[..mlen]))
    ensures forall i :: 2 * mlen <= i < n.Length ==> n[i] == old(n[i])
  {
    hide Val, Up, Lo, Cong;
    ghost var m := Val(mod[..mlen]);
    var c := ClearLow(n, mod, mlen, inv);
    ghost var h := Val(n[mlen..2 * mlen]) + Up(c, mlen);
    SubtractModulus(n, mod, mlen, c);
    ValBound(n[mlen..2 * mlen]);
    CongUp(Val(n[mlen..2 * mlen]), h, mlen, m);
    CongTrans(Up(Val(n[mlen..2 * mlen]), mlen), Up(h, mlen), old(Val(n[..2 * mlen])), m);
  }

  lemma CongUp(x: int, y: int, k: nat, m: int)
    requires m > 0 && Cong(x, y, m)
    ensures Cong(Up(x, k), Up(y, k), m)
  {
    UpIsProduct(x, k);
    UpIsProduct(y, k);
    CongMul(x, y, Pow(B, k), Pow(B, k), m);
  }

  // ---- Montgomery form ----

  /** The Montgomery form of x: x * B^len modulo m. */
  function Mont(x: int, m: int, len: nat): (y: int)
    requires m > 0
    ensures 0 <= y < m && Cong(y, Up(x, len), m)
  {
    CongMod(Up(x, len), m);
    Up(x, len) % m
  }

  lemma {:induction false} PowProduct(a: int, b: int, e: nat)
    ensures Pow(a * b, e) == Pow(a, e) * Pow(b, e)
  {
    if e > 0 {
      PowProduct(a, b, e - 1);
      FourSwap(a, b, Pow(a, e - 1), Pow(b, e - 1));
      Associate(a * Pow(a, e - 1), b, Pow(b, e - 1));
    }
  }

  /** B^len is invertible modulo an odd m. */
  lemma RadixInverse(m: int, len: nat) returns (r: int)
    requires m > 0 && m % 2 == 1
    ensures Cong(Pow(B, len) * r, 1, m)
  {
    var h := (m + 1) / 2;
    CongFrom(2 * h, 1, 1, m);
    TwoPow32();
    PowMultiply(2, 32, len);
    CongPow(2 * h, 1, 32 * len, m);
    PowOne(32 * len);
    PowProduct(2, h, 32 * len);
    r := Pow(h, 32 * len);
  }

  lemma {:induction false} PowOne(e: nat)
    ensures Pow(1, e) == 1
  {
    if e > 0 { PowOne(e - 1); }
  }

  lemma RadixCancels(x: int, y: int, m: int, len: nat)
    requires m > 0 && m % 2 == 1 && Cong(Up(x, len), Up(y, len), m)
    ensures Cong(x, y, m)
  {
    var r := RadixInverse(m, len);
    UpIsProduct(x, len);
    UpIsProduct(y, len);
    CongCancel(x, y, Pow(B, len), r, m);
  }

  /** Reducing the product of two forms gives the form of the product. */
  lemma MontProduct(x: int, y: int, m: int, len: nat, t: int)
    requires m > 0 && m % 2 == 1 && 0 <= t < m
    requires Cong(Up(t, len), Mont(x, m, len) * Mont(y, m, len), m)
    ensures t == Mont(x * y, m, len)
  {
    hide Cong;
    CongMul(Mont(x, m, len), Up(x, len), Mont(y, m, len), Up(y, len), m);
    CongTrans(Up(t, len), Mont(x, m, len) * Mont(y, m, len), Up(x, len) * Up(y, len), m);
    assert Up(x, len) * Up(y, len) == Up(Up(x * y, len), len) by {
      hide Up;
      UpIsProduct(x, len);
      UpIsProduct(y, len);
      UpIsProduct(x * y, len);
      UpIsProduct(Up(x * y, len), len);
      FourSwap(x, Pow(B, len), y, Pow(B, len));
    }
    RadixCancels(t, Up(x * y, len), m, len);
    CongSmall(t, Up(x * y, len), m);
  }

  lemma FourSwap(a: int, b: int, c: int, d: int)
    ensures a * b * (c * d) == a * c * b * d
  {
    assert a * b * (c * d) == a * (b * c * d);
    assert b * c * d == c * b * d;
  }

  /** Reducing a form gives the number back. */
  lemma MontOut(x: int, m: int, len: nat, t: int)
    requires m > 0 && m % 2 == 1 && 0 <= t < m && Cong(Up(t, len), Mont(x, m, len), m)
    ensures t == x % m
  {
    hide Cong;
    CongTrans(Up(t, len), Mont(x, m, len), Up(x, len), m);
    RadixCancels(t, x, m, len);
    CongSmall(t, x, m);
  }

  /** An odd modulus m stored normalised in mod, with the inverse its reductions need. */
  ghost predicate Modulus(mod: array<word>, mlen: nat, inv: word, m: int)
    reads mod
  {
    0 < mlen <= mod.Length && mod[mlen - 1] != 0 && m == Val(mod[..mlen]) && m > 0 && m % 2 == 1
      && Lo(inv * mod[0]) == B - 1
  }

  /** Computes what reductions by an odd modulus need to know about it. */
  method PrepareModulus(mod: array<word>, mlen: nat) returns (inv: word)
    requires 0 < mlen <= mod.Length && mod[mlen - 1] != 0 && mod[0] % 2 == 1
    ensures Modulus(mod, mlen, inv, Val(mod[..mlen]))
  {
    inv := MontInv1(mod[0]);
    LowBit(mod[..mlen]);
  }

  lemma LowBit(s: seq<word>)
    requires s != []
    ensures Val(s) % 2 == s[0] % 2
    ensures s[0] != 0 ==> Val(s) > 0
  {
    ValBound(s[1..]);
    WordShiftEven(s[0], Val(s[1..]));
  }

  lemma WordShiftEven(x: int, v: int)
    ensures (x + B * v) % 2 == x % 2
  {
    var h := B / 2 * v;
    assert x + B * v == x + h * 2;
    ModOf(x, h, 2);
  }

  /** prod's high half = n1 * n2 / B^len modulo m. */
  method MontMul(prod: array<word>, n1: array<word>, o1: nat, n2: array<word>, o2: nat, mod: array<word>, len: nat,
                 inv: word, ghost m: int, ghost x: int, ghost y: int)
    requires Modulus(mod, len, inv, m)
    requires 2 * len <= prod.Length && o1 + len <= n1.Length && o2 + len <= n2.Length
    requires prod != mod && prod != n1 && prod != n2
    requires Val(n1[o1..o1 + len]) == Mont(x, m, len) && Val(n2[o2..o2 + len]) == Mont(y, m, len)
    modifies prod
    ensures Val(prod[len..2 * len]) == Mont(x * y, m, len)
  {
    hide Val, Up, Lo, Cong, Mont;
    Mul(prod, 0, n1, o1, len, n2, o2, len);
    assert prod[0..2 * len] == prod[..2 * len];
    MontReduce(prod, mod, len, inv);
    MontProduct(x, y, m, len, Val(prod[len..2 * len]));
  }

  method MontSquare(prod: array<word>, n: array<word>, o: nat, mod: array<word>, len: nat, inv: word, ghost m: int,
                    ghost x: int)
    requires Modulus(mod, len, inv, m)
    requires 2 * len <= prod.Length && o + len <= n.Length && prod != mod && prod != n
    requires Val(n[o..o + len]) == Mont(x, m, len)
    modifies prod
    ensures Val(prod[len..2 * len]) == Mont(x * x, m, len)
  {
    hide Val, Up, Lo, Cong, Mont;
    Square(prod, n, o, len);
    MontReduce(prod, mod, len, inv);
    MontProduct(x, x, m, len, Val(prod[len..2 * len]));
  }

  /** Converts n to Montgomery form in the low words of a: n is moved up and reduced by division. */
  method ToMont(a: array<word>, n: array<word>, nlen: nat, mod: array<word>, mlen: nat, inv: word, ghost m: int)
    requires Modulus(mod, mlen, inv, m)
    requires mlen + nlen <= a.Length && nlen <= n.Length && a != n && a != mod && n != mod
    modifies a, mod
    ensures mod[..] == old(mod[..]) && Modulus(mod, mlen, inv, m)
    ensures Val(a[..mlen]) == Mont(Val(n[..nlen]), m, mlen)
  {
    hide Val, Up, Lo;
    Copy(a, mlen, n, 0, nlen);
    Zero(a, 0, mlen);
    ghost var s := a[..mlen + nlen];
    ValSplit(s, mlen);
    assert s[..mlen] == a[0..mlen] && s[mlen..] == a[mlen..mlen + nlen] == n[0..nlen] == n[..nlen];
    assert a[0..mlen + nlen] == s;
    var qhigh := Div(a, mlen, a, 0, mlen + nlen, mod, 0, mlen);
    ValBound(a[0..mlen]);
    assert a[0..mlen] == a[..mlen] && mod[0..mlen] == mod[..mlen];
    DivModUnique(Val(s), m, Val(a[mlen..mlen + nlen]) + Up(qhigh, nlen), Val(a[..mlen]));
  }

  /** Moves the high half of b to the low half and clears the high half. */
  method MoveDown(b: array<word>, mlen: nat)
    requires 2 * mlen <= b.Length
    modifies b
    ensures Val(b[..2 * mlen]) == old(Val(b[mlen..2 * mlen]))
  {
    hide Val;
    Copy(b, 0, b, mlen, mlen);
    ghost var s := b[0..mlen];
    Zero(b, mlen, mlen);
    ValHigh(b[..2 * mlen], mlen);
    assert b[..2 * mlen][..mlen] == s;
  }

  /** Converts the number in the high half of b out of Montgomery form, into result. */
  method FromMontHigh(result: array<word>, b: array<word>, mod: array<word>, mlen: nat, inv: word, ghost m: int,
                      ghost x: int)
    requires Modulus(mod, mlen, inv, m)
    requires 2 * mlen <= b.Length && mlen <= result.Length && b != mod && b != result && result != mod
    requires Val(b[mlen..2 * mlen]) == Mont(x, m, mlen)
    modifies b, result
    ensures Val(result[..mlen]) == x % m
    ensures forall i :: mlen <= i < result.Length ==> result[i] == old(result[i])
  {
    hide Val, Up, Lo, Cong, Mont;
    MoveDown(b, mlen);
    MontReduce(b, mod, mlen, inv);
    MontOut(x, m, mlen, Val(b[mlen..2 * mlen]));
    Copy(result, 0, b, mlen, mlen);
    assert result[..mlen] == result[0..mlen];
  }
}
