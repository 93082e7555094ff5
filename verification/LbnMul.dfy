/** Multiplication: the one-word primitives and the schoolbook product. */
module LbnMul {
  import opened Arith
  import opened Words
  import opened LbnBasic

  /** A double word holds one product and two carries; its high half is again a word. */
  lemma ProductFits(x: word, y: word, a: int, b: int)
    requires 0 <= a < B && 0 <= b < B
    ensures 0 <= x * y + a + b < B * B
    ensures 0 <= x * y + a <= B * (B - 1)
  {
    Scale(x, B - 1, y);
    Scale(0, x, y);
  }

  method MulN1(out: array<word>, oo: nat, num: array<word>, no: nat, len: nat, k: word)
    requires oo + len < out.Length && no + len <= num.Length && out != num
    modifies out
    ensures Val(out[oo..oo + len + 1]) == Val(num[no..no + len]) * k
    ensures forall i :: 0 <= i < out.Length && (i < oo || oo + len < i) ==> out[i] == old(out[i])
  {
    hide Val, Up;
    ghost var y := num[..];
    var carry: word := 0;
    var i := 0;
    ValEmpty(out[..], oo);
    ValEmpty(y, no);
    while i < len
      invariant i <= len
      invariant Val(out[..][oo..oo + i]) + Up(carry, i) == Val(y[no..no + i]) * k
      invariant forall j :: 0 <= j < out.Length && (j < oo || oo + i <= j) ==> out[j] == old(out[j])
    {
      ghost var s := out[..];
      ProductFits(num[no + i], k, carry, 0);
      var p: int := num[no + i] * k + carry;
      out[oo + i] := Lo(p);
      MulColumn(s, out[..], oo, y, no, i, k, carry, Hi(p));
      carry := Hi(p);
      i := i + 1;
    }
    ghost var s := out[..];
    out[oo + len] := carry;
    ValGrow(out[..], oo, len);
    assert out[..][oo..oo + len] == s[oo..oo + len];
    assert out[..][oo..oo + len + 1] == out[oo..oo + len + 1] && y[no..no + len] == num[no..no + len];
  }

  /** out += num * k on len words; the word beyond is returned, not stored. */
  method MulAdd1(out: array<word>, oo: nat, num: array<word>, no: nat, len: nat, k: word) returns (carry: word)
    requires oo + len <= out.Length && no + len <= num.Length && out != num
    modifies out
    ensures Val(out[oo..oo + len]) + Up(carry, len) == old(Val(out[oo..oo + len])) + Val(num[no..no + len]) * k
    ensures forall i :: 0 <= i < out.Length && (i < oo || oo + len <= i) ==> out[i] == old(out[i])
  {
    hide Val, Up;
    ghost var x, y := out[..], num[..];
    carry := 0;
    var i := 0;
    ValEmpty(x, oo);
    ValEmpty(y, no);
    while i < len
      invariant i <= len
      invariant Val(out[..][oo..oo + i]) + Up(carry, i) == Val(x[oo..oo + i]) + Val(y[no..no + i]) * k
      invariant forall j :: 0 <= j < out.Length && (j < oo || oo + i <= j) ==> out[j] == x[j]
    {
      ghost var s := out[..];
      ProductFits(num[no + i], k, carry, out[oo + i]);
      var p: int := num[no + i] * k + carry + out[oo + i];
      out[oo + i] := Lo(p);
      AddColumn(s, out[..], x, oo, i, Val(y[no..no + i]) * k, carry, y[no + i] * k, Hi(p));
      GrowScaled(y, no, i, k);
      carry := Hi(p);
      i := i + 1;
    }
    assert out[..][oo..oo + len] == out[oo..oo + len] && y[no..no + len] == num[no..no + len];
  }

  lemma GrowScaled(y: seq<word>, o: nat, i: nat, k: int)
    requires o + i < |y|
    ensures Val(y[o..o + i + 1]) * k == Val(y[o..o + i]) * k + Up(y[o + i] * k, i)
  {
    hide Val, Up;
    ValGrow(y, o, i);
    UpScale(y[o + i], k, i);
  }

  /** out -= num * k on len words; what the word beyond would lose is returned. */
  method MulSub1(out: array<word>, oo: nat, num: array<word>, no: nat, len: nat, k: word) returns (carry: word)
    requires oo + len <= out.Length && no + len <= num.Length && out != num
    modifies out
    ensures Val(out[oo..oo + len]) + Val(num[no..no + len]) * k == old(Val(out[oo..oo + len])) + Up(carry, len)
    ensures forall i :: 0 <= i < out.Length && (i < oo || oo + len <= i) ==> out[i] == old(out[i])
  {
    hide Val, Up, Lo, Hi;
    ghost var x, y := out[..], num[..];
    carry := 0;
    var i := 0;
    ValEmpty(x, oo);
    ValEmpty(y, no);
    while i < len
      invariant i <= len
      invariant Val(out[..][oo..oo + i]) + Up(-(carry as int), i) == Val(x[oo..oo + i]) - Val(y[no..no + i]) * k
      invariant forall j :: 0 <= j < out.Length && (j < oo || oo + i <= j) ==> out[j] == x[j]
    {
      ghost var s := out[..];
      var p: int := num[no + i] * k + carry;
      var t := out[oo + i];
      ProductFits(num[no + i], k, carry, 0);
      Borrow(t, p);
      out[oo + i] := Lo(t as int - Lo(p));
      var c := Hi(p) + if out[oo + i] > t then 1 else 0;
      SubColumn(s, out[..], x, y, oo, no, i, k, carry, c);
      carry := c;
      i := i + 1;
    }
    UpNeg(carry, len);
    assert out[..][oo..oo + len] == out[oo..oo + len] && y[no..no + len] == num[no..no + len];
  }

  /** Subtracting the low word of p borrows exactly when the result exceeds the minuend. */
  lemma Borrow(t: word, p: int)
    requires 0 <= p <= B * (B - 1)
    ensures var w := Lo(t as int - Lo(p));
            var c := Hi(p) + if w > t then 1 else 0;
            0 <= c < B && t as int - p == w as int - B * c
  {}

  lemma SubColumn(s: seq<word>, s': seq<word>, x: seq<word>, y: seq<word>, o: nat, no: nat, i: nat, k: int, c: int,
                  c': int)
    requires o + i < |s| == |s'| == |x| && no + i < |y|
    requires s' == s[o + i := s'[o + i]] && s[o + i] == x[o + i]
    requires Val(s[o..o + i]) + Up(-c, i) == Val(x[o..o + i]) - Val(y[no..no + i]) * k
    requires x[o + i] as int - y[no + i] * k - c == s'[o + i] as int - B * c'
    ensures Val(s'[o..o + i + 1]) + Up(-c', i + 1) == Val(x[o..o + i + 1]) - Val(y[no..no + i + 1]) * k
  {
    hide Val, Up;
    AddColumn(s, s', x, o, i, -(Val(y[no..no + i]) * k), -c, -(y[no + i] * k), -c');
    GrowScaled(y, no, i, k);
    UpNeg(y[no + i] * k, i);
  }

  /**
   * The schoolbook product.  The second factor may lie inside the product's own array, provided the
   * low len1 words of the product are free of it.
   */
  method Mul(prod: array<word>, po: nat, num1: array<word>, o1: nat, len1: nat, num2: array<word>, o2: nat, len2: nat)
    requires po + len1 + len2 <= prod.Length && o1 + len1 <= num1.Length && o2 + len2 <= num2.Length
    requires prod != num1 && (prod != num2 || po + len1 <= o2)
    modifies prod
    ensures Val(prod[po..po + len1 + len2]) == Val(num1[o1..o1 + len1]) * old(Val(num2[o2..o2 + len2]))
    ensures forall i :: 0 <= i < prod.Length && (i < po || po + len1 + len2 <= i) ==> prod[i] == old(prod[i])
  {
    hide Val, Up;
    ghost var x, y := Val(num1[o1..o1 + len1]), num2[..];
    if len1 == 0 || len2 == 0 {
      ValEmpty(num1[..], o1);
      ValEmpty(y, o2);
      Zero(prod, po, len1 + len2);
      assert num1[..][o1..o1] == num1[o1..o1];
      return;
    }
    MulN1(prod, po, num1, o1, len1, num2[o2]);
    ValOne(y, o2);
    var i := 1;
    while i < len2
      invariant 1 <= i <= len2
      invariant Val(prod[..][po..po + len1 + i]) == x * Val(y[o2..o2 + i])
      invariant forall j :: 0 <= j < prod.Length && (j < po || po + len1 + i <= j) ==> prod[j] == old(prod[j])
    {
      ghost var s := prod[..];
      assert num2[o2 + i] == y[o2 + i];
      var c := MulAdd1(prod, po + i, num1, o1, len1, num2[o2 + i]);
      prod[po + i + len1] := c;
      MulRow(s, prod[..], po, i, len1, x, y[o2 + i], c);
      ValGrow(y, o2, i);
      RowSum(x, Val(y[o2..o2 + i]), Up(y[o2 + i], i));
      i := i + 1;
    }
    assert prod[..][po..po + len1 + len2] == prod[po..po + len1 + len2];
  }

  lemma RowSum(x: int, v: int, u: int)
    ensures x * v + x * u == x * (v + u)
  {}

  lemma ValOne(s: seq<word>, o: nat)
    requires o < |s|
    ensures Val(s[o..o + 1]) == s[o]
  {
    assert s[o..o + 1] == [s[o]];
  }

  /** Row i of the schoolbook product adds x * k at word i and stores the new top word. */
  lemma MulRow(s: seq<word>, s': seq<word>, po: nat, i: nat, len: nat, x: int, k: word, c: word)
    requires po + i + len < |s| == |s'|
    requires forall j :: po <= j < po + i ==> s'[j] == s[j]
    requires Val(s'[po + i..po + i + len]) + Up(c, len) == Val(s[po + i..po + i + len]) + x * k
    requires s'[po + i + len] == c
    ensures Val(s'[po..po + len + i + 1]) == Val(s[po..po + len + i]) + x * Up(k, i)
  {
    hide Val, Up;
    ValGrow(s', po + i, len);
    ValSplit(s'[po..po + i + len + 1], i);
    ValSplit(s[po..po + i + len], i);
    assert s'[po..po + i + len + 1][..i] == s[po..po + i + len][..i];
    assert s'[po..po + i + len + 1][i..] == s'[po + i..po + i + len + 1];
    assert s[po..po + i + len][i..] == s[po + i..po + i + len];
    UpAdd(Val(s[po + i..po + i + len]), x * k, i);
    UpScale(k, x, i);
  }

  /** out += num * k at word o, with the carry run through the words up to end; the last carry is returned. */
  method AddShifted(out: array<word>, o: nat, end: nat, num: array<word>, no: nat, len: nat, k: word) returns (c: int)
    requires o + len < end <= out.Length && no + len <= num.Length && out != num
    modifies out
    ensures 0 <= c <= 1
    ensures Val(out[o..end]) + Up(c, end - o) == old(Val(out[o..end])) + Val(num[no..no + len]) * k
    ensures forall i :: 0 <= i < out.Length && (i < o || end <= i) ==> out[i] == old(out[i])
  {
    hide Val, Up;
    ghost var s0 := out[..];
    var t := MulAdd1(out, o, num, no, len, k);
    ghost var s1 := out[..];
    c := Add1(out, o + len, end - (o + len), t);
    RowCarry(s0, s1, out[..], o, len, end, Val(num[no..no + len]) * k, t, c);
  }

  lemma RowCarry(s0: seq<word>, s1: seq<word>, s2: seq<word>, o: nat, len: nat, end: nat, v: int, t: int, c: int)
    requires o + len <= end <= |s0| == |s1| == |s2|
    requires forall j :: o + len <= j < |s0| ==> s0[j] == s1[j]
    requires forall j :: 0 <= j < o + len ==> s1[j] == s2[j]
    requires Val(s1[o..o + len]) + Up(t, len) == Val(s0[o..o + len]) + v
    requires Val(s2[o + len..end]) + Up(c, end - (o + len)) == Val(s1[o + len..end]) + t
    ensures Val(s2[o..end]) + Up(c, end - o) == Val(s0[o..end]) + v
  {
    hide Val, Up;
    ValTwo(s0, o, len, end);
    ValTwo(s2, o, len, end);
    assert s2[o..o + len] == s1[o..o + len] && s0[o + len..end] == s1[o + len..end];
    UpAdd(Val(s2[o + len..end]), Up(c, end - o - len), len);
    UpAdd(Val(s0[o + len..end]), t, len);
    UpUp(c, end - o - len, len);
  }

  lemma ValTwo(s: seq<word>, o: nat, len: nat, end: nat)
    requires o + len <= end <= |s|
    ensures Val(s[o..end]) == Val(s[o..o + len]) + Up(Val(s[o + len..end]), len)
  {
    hide Val, Up;
    ValSplit(s[o..end], len);
    assert s[o..end][..len] == s[o..o + len] && s[o..end][len..] == s[o + len..end];
  }

  /** The same seen from word 0. */
  lemma SeenFromBelow(s: seq<word>, s': seq<word>, o: nat, end: nat, v: int, c: int)
    requires o <= end <= |s| == |s'|
    requires forall j :: 0 <= j < o ==> s'[j] == s[j]
    requires Val(s'[o..end]) + Up(c, end - o) == Val(s[o..end]) + v
    ensures Val(s'[..end]) + Up(c, end) == Val(s[..end]) + Up(v, o)
  {
    hide Val, Up;
    ValSplit(s[..end], o);
    ValSplit(s'[..end], o);
    assert s[..end][..o] == s'[..end][..o] && s[..end][o..] == s[o..end] && s'[..end][o..] == s'[o..end];
    UpAdd(Val(s'[o..end]), Up(c, end - o), o);
    UpAdd(Val(s[o..end]), v, o);
    UpUp(c, end - o, o);
  }

  /** A sum that fits its words carries nothing out. */
  lemma NoCarry(s: seq<word>, c: int)
    requires 0 <= c && Val(s) + Up(c, |s|) < Up(1, |s|)
    ensures c == 0 && Up(c, |s|) == 0
  {
    hide Val, Up;
    ValBound(s);
    UpZero(|s|);
    if c > 0 { UpMonotone(1, c, |s|); }
  }
}
