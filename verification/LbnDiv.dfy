/** Division by one word, and the remainder by a divisor of half a word. */
module LbnDiv {
  import opened Arith
  import opened Words
  import opened LbnBasic
  import opened LbnMul
  import opened LbnDiv21

  // ---- one-word divisors ----

  /** Bringing down the next word of a long division by a word. */
  lemma BringDown(x: word, v: int, qv: int, dd: int, r: int, q: word, r': int)
    requires v == qv * dd + r && r * B + x == q * dd + r'
    ensures x + B * v == (q + B * qv) * dd + r'
  {
    assert (q + B * qv) * dd == q * dd + B * (qv * dd);
  }

  /** The digits of the quotient by the normalised divisor, from the top word down. */
  method Div1Digits(q: array<word>, qo: nat, n: array<word>, no: nat, len: nat, d: word) returns (qhigh: word, r: word)
    requires len > 1 && d >= B / 2
    requires no + len <= n.Length && qo + len - 1 <= q.Length && (q != n || no <= qo)
    modifies q
    ensures qhigh <= 1 && r < d
    ensures old(Val(n[no..no + len])) == (Val(q[qo..qo + len - 1]) + Up(qhigh, len - 1)) * d + r
    ensures forall i :: 0 <= i < q.Length && (i < qo || qo + len - 1 <= i) ==> q[i] == old(q[i])
  {
    hide Val, Up;
    ghost var x := n[..];
    var i := len - 1;
    r := n[no + i];
    if r < d {
      qhigh := 0;
    } else {
      DivModUnique(r, d, 1, r as int - d);
      qhigh := r / d;
      r := r % d;
    }
    ValEmpty(q[..], qo + len - 1);
    UpAt0(qhigh);
    ValOne(x, no + len - 1);
    while i > 0
      invariant 0 <= i < len && r < d
      invariant Val(x[no + i..no + len]) == (Val(q[..][qo + i..qo + len - 1]) + Up(qhigh, len - 1 - i)) * d + r
      invariant forall k :: 0 <= k < q.Length && (k < qo + i || qo + len - 1 <= k) ==> q[k] == old(q[k])
    {
      ghost var s, r0 := q[..], r;
      i := i - 1;
      var digit;
      digit, r := Div21(r, n[no + i], d);
      q[qo + i] := digit;
      ValCons(x, no + i, no + len);
      ValCons(q[..], qo + i, qo + len - 1);
      assert q[..][qo + i + 1..qo + len - 1] == s[qo + i + 1..qo + len - 1];
      BringDown(x[no + i], Val(x[no + i + 1..no + len]), Val(s[qo + i + 1..qo + len - 1]) + Up(qhigh, len - 2 - i), d,
                r0, digit, r);
      UpStep(qhigh, len - 2 - i);
    }
    assert q[..][qo..qo + len - 1] == q[qo..qo + len - 1];
  }

  lemma UpStep(x: int, k: nat)
    ensures Up(x, k + 1) == B * Up(x, k)
  {}

  /** Undoing the normalisation: the quotient moves up by p and the remainder is divided once more. */
  lemma Denormalise(q: int, r: int, d: int, p: int)
    requires d > 0 && p > 0 && 0 <= r < d * p
    ensures q * (d * p) + r == (q * p + r / d) * d + r % d
    ensures 0 <= r / d < p && 0 <= r % d < d
  {
    assert q * (d * p) == q * p * d;
    assert r == (r / d) * d + r % d;
    assert (q * p + r / d) * d == q * p * d + (r / d) * d;
    DivBelow(r, d, p);
  }

  lemma AddLow(s: seq<word>, s': seq<word>, o: nat, len: nat, x: int)
    requires len > 0 && o + len <= |s| == |s'| && s' == s[o := s'[o]] && s'[o] as int == s[o] as int + x
    ensures Val(s'[o..o + len]) == Val(s[o..o + len]) + x
  {
    assert s'[o..o + len][1..] == s[o..o + len][1..];
  }

  /** Divides by one word; the high quotient word is returned and the remainder stored through rem. */
  method Div1(q: array<word>, qo: nat, rem: array<word>, ro: nat, n: array<word>, no: nat, len: nat, d: word)
    returns (qhigh: word)
    requires len > 0 && d != 0
    requires no + len <= n.Length && qo + len - 1 <= q.Length && ro < rem.Length && (q != n || no <= qo)
    requires rem != q || ro < qo || qo + len - 1 <= ro
    modifies q, rem
    ensures rem[ro] < d
    ensures old(Val(n[no..no + len])) == (Val(q[qo..qo + len - 1]) + Up(qhigh, len - 1)) * d + rem[ro]
    ensures forall i :: 0 <= i < q.Length && (i < qo || qo + len - 1 <= i) && (rem != q || i != ro) ==>
      q[i] == old(q[i])
    ensures rem != q ==> forall i :: 0 <= i < rem.Length && i != ro ==> rem[i] == old(rem[i])
  {
    hide Val, Up, Pow;
    if len == 1 {
      var r := n[no];
      ValOne(n[..], no);
      ValEmpty(q[..], qo);
      UpAt0(r / d);
      ShrBound(r, d);
      assert n[..][no..no + 1] == n[no..no + 1] && q[..][qo..qo] == q[qo..qo];
      rem[ro] := r % d;
      assert q[qo..qo] == [];
      return r / d;
    }
    var shift := LeadingZeros(d);
    TwoPow31();
    var r;
    qhigh, r := Div1Digits(q, qo, n, no, len, d * Pow(2, shift));
    if shift != 0 {
      qhigh, r := Div1Unshift(q, qo, len - 1, d, shift, qhigh, r);
    } else {
      PowAt0(2);
    }
    ghost var s := q[..];
    rem[ro] := r;
    assert q[qo..qo + len - 1] == s[qo..qo + len - 1];
  }

  /** The final correction for the shift: merges the extra quotient bits into the digits. */
  method Div1Unshift(q: array<word>, qo: nat, k: nat, d: word, shift: nat, qh: word, rr: word)
    returns (qhigh: word, r: word)
    requires k > 0 && qo + k <= q.Length && 0 < shift < 32 && d > 0 && qh <= 1 && rr < d * Pow(2, shift)
    modifies q
    ensures r < d
    ensures (Val(q[qo..qo + k]) + Up(qhigh, k)) * d + r
         == (old(Val(q[qo..qo + k])) + Up(qh, k)) * (d * Pow(2, shift)) + rr
    ensures forall i :: 0 <= i < q.Length && (i < qo || qo + k <= i) ==> q[i] == old(q[i])
  {
    hide Val, Up, Pow;
    ghost var v := Val(q[qo..qo + k]);
    Denormalise(v + Up(qh, k), rr, d, Pow(2, shift));
    var carry := Lshift(q, qo, k, shift);
    HighFits(qh, carry, shift, k, Val(q[qo..qo + k]), v);
    ghost var s := q[..];
    q[qo] := q[qo] + rr / d;
    AddLow(s, q[..], qo, k, rr / d);
    assert q[..][qo..qo + k] == q[qo..qo + k];
    qhigh := qh * Pow(2, shift) + carry;
    r := rr % d;
  }

  lemma TwoPow31()
    ensures Pow(2, 31) == B / 2
  {
    TwoPow32();
    PowAdd(2, 1, 31);
  }

  /** The shifted high quotient word still fits a word. */
  lemma HighFits(qhigh: word, carry: word, shift: nat, k: nat, v': int, v: int)
    requires qhigh <= 1 && shift < 32 && carry < Pow(2, shift) && v' + Up(carry, k) == v * Pow(2, shift)
    ensures 0 <= qhigh * Pow(2, shift) + carry < B
    ensures v' + Up(qhigh * Pow(2, shift) + carry, k) == (v + Up(qhigh, k)) * Pow(2, shift)
  {
    hide Up, Pow;
    var p := Pow(2, shift);
    TwoPow31();
    PowMonotone(2, shift, 31);
    Scale(qhigh, 1, p);
    Scale(0, qhigh, p);
    UpAdd(qhigh * p, carry, k);
    UpScale(qhigh, p, k);
    assert (v + Up(qhigh, k)) * p == v * p + Up(qhigh, k) * p;
  }

  /** The remainder by a divisor of at most 16 bits, half a word at a time. */
  method ModQ(n: array<word>, len: nat, d: nat) returns (rem: nat)
    requires 0 < len <= n.Length && 0 < d < 65536
    ensures rem == Val(n[..len]) % d
  {
    hide Val, Cong;
    var i := len - 1;
    var r: word := n[i];
    ValCons(n[..], i, len);
    ValEmpty(n[..], len);
    CongFrom(r, r, 0, d);
    while i > 0
      invariant 0 <= i < len && Cong(r, Val(n[..][i..len]), d)
    {
      i := i - 1;
      var x := n[i];
      ValCons(n[..], i, len);
      HalfWordStep(r, Val(n[..][i + 1..len]), x, d);
      var h: word := (r % d) * 65536 + x / 65536;
      r := (h % d) * 65536 + x % 65536;
    }
    assert n[..][0..len] == n[..len];
    CongIsMod(r, Val(n[..len]), d);
    rem := r % d;
  }

  lemma CongIsMod(x: int, y: int, d: int)
    requires d > 0 && Cong(x, y, d)
    ensures x % d == y % d && 0 <= x % d < d
  {}

  lemma HalfWordStep(r: nat, v: int, x: word, d: nat)
    requires 0 < d < 65536 && Cong(r, v, d)
    ensures var h := (r % d) * 65536 + x / 65536;
      0 <= h < B && 0 <= (h % d) * 65536 + x % 65536 < B && Cong((h % d) * 65536 + x % 65536, x + B * v, d)
  {
    var h := (r % d) * 65536 + x / 65536;
    CongMod(r, d);
    CongMod(h, d);
    hide Cong;
    CongMul(r % d, r, 65536, 65536, d) by { CongFrom(65536, 65536, 0, d); }
    CongAddSame((r % d) * 65536, r * 65536, x / 65536, d);
    CongMul(h % d, h, 65536, 65536, d) by { CongFrom(65536, 65536, 0, d); }
    CongMul(h, r * 65536 + x / 65536, 65536, 65536, d) by { CongFrom(65536, 65536, 0, d); }
    CongMul(r, v, B, B, d) by { CongFrom(B, B, 0, d); }
    CongTrans((h % d) * 65536, h * 65536, (r * 65536 + x / 65536) * 65536, d);
    CongAddSame((h % d) * 65536, (r * 65536 + x / 65536) * 65536, x % 65536, d);
    CongAddSame(r * B, v * B, x, d);
    CongTrans((h % d) * 65536 + x % 65536, r * B + x, v * B + x, d);
  }

  lemma CongAddSame(x: int, y: int, z: int, d: int)
    requires d > 0 && Cong(x, y, d)
    ensures Cong(x + z, y + z, d)
  {
    CongFrom(z, z, 0, d);
    CongAdd(x, y, z, z, d);
  }
}
