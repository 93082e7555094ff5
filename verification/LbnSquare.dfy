/**
 * Squaring by halves: the diagonal squares are stored and shifted right one bit, the off-diagonal
 * products are added once, and the sum is doubled again.
 */
module LbnSquare {
  import opened Arith
  import opened Words
  import opened LbnBasic
  import opened LbnMul

  /** The diagonal of the multiplication table of s with itself. */
  function Diagonal(s: seq<word>): int {
    if s == [] then 0 else s[0] * s[0] + B * (B * Diagonal(s[1..]))
  }

  /** The products strictly above the diagonal. */
  function OffDiagonal(s: seq<word>): (d: int)
    ensures d >= 0
  {
    if s == [] then 0 else (
      ValBound(s[1..]);
      Scale(0, s[0], Val(s[1..]));
      B * (Val(s[1..]) * s[0]) + B * (B * OffDiagonal(s[1..])))
  }

  lemma {:induction false} SquareSplits(s: seq<word>)
    ensures Val(s) * Val(s) == Diagonal(s) + 2 * OffDiagonal(s)
  {
    if s != [] {
      SquareSplits(s[1..]);
      SquareOfSum(s[0], Val(s[1..]));
    }
  }

  lemma SquareOfSum(x: int, v: int)
    ensures (x + B * v) * (x + B * v) == x * x + 2 * (B * (v * x)) + B * (B * (v * v))
  {
    MulExpand(x, B * v, x, B * v);
    Exchange(x, B, v);
    Associate(B, v, x);
    Associate(B, v, B * v);
    Exchange(v, B, v);
  }

  lemma {:induction false} DiagonalSnoc(s: seq<word>, x: word)
    ensures Diagonal(s + [x]) == Diagonal(s) + Up(x * x, 2 * |s|)
  {
    if s == [] {
      assert s + [x] == [x] && [x][1..] == [];
      assert Diagonal([x]) == x * x + B * (B * Diagonal([]));
    } else {
      DiagonalSnoc(s[1..], x);
      assert (s + [x])[1..] == s[1..] + [x];
      assert Up(x * x, 2 * |s|) == B * Up(x * x, 2 * |s| - 1) == B * (B * Up(x * x, 2 * |s| - 2));
    }
  }

  lemma DiagonalParity(s: seq<word>)
    requires s != []
    ensures Diagonal(s) % 2 == s[0] % 2
  {
    var d := Diagonal(s[1..]);
    assert Diagonal(s) == s[0] * s[0] + 2 * (B / 2 * (B * d));
    hide Diagonal;
    ModOf(s[0] as int * s[0], B / 2 * (B * d), 2);
    SquareParity(s[0]);
  }

  lemma SquareParity(x: int)
    ensures (x * x) % 2 == x % 2
  {
    CongMod(x, 2);
    CongMul(x, x % 2, x, x % 2, 2);
  }

  /** Stores the squares of the words of num, two words each. */
  method Squares(prod: array<word>, num: array<word>, no: nat, len: nat)
    requires 2 * len <= prod.Length && no + len <= num.Length && prod != num
    modifies prod
    ensures Val(prod[..2 * len]) == Diagonal(num[no..no + len])
    ensures forall i :: 2 * len <= i < prod.Length ==> prod[i] == old(prod[i])
  {
    hide Val, Up, Diagonal, Lo, Hi;
    ghost var y := num[..];
    var i := 0;
    ValEmpty(prod[..], 0);
    DiagonalEmpty(y, no);
    assert prod[..0] == prod[..][0..0];
    while i < len
      invariant i <= len
      invariant Val(prod[..2 * i]) == Diagonal(y[no..no + i])
      invariant forall j :: 2 * i <= j < prod.Length ==> prod[j] == old(prod[j])
    {
      ghost var s := prod[..];
      var t := num[no + i];
      ProductFits(t, t, 0, 0);
      var p: int := t as int * t as int;
      prod[2 * i] := Lo(p);
      prod[2 * i + 1] := Hi(p);
      StoreSquare(s, prod[..], i, p);
      DiagonalSnoc(y[no..no + i], t);
      assert y[no..no + i + 1] == y[no..no + i] + [t];
      assert prod[..][..2 * i + 2] == prod[..2 * i + 2] && s[..2 * i] == prod[..2 * i];
      i := i + 1;
    }
    assert y[no..no + len] == num[no..no + len];
  }

  lemma DiagonalEmpty(s: seq<word>, o: nat)
    requires o <= |s|
    ensures Diagonal(s[o..o]) == 0
  {
    assert s[o..o] == [];
  }

  lemma StoreSquare(s: seq<word>, s': seq<word>, i: nat, p: int)
    requires 2 * i + 1 < |s| == |s'| && p == s'[2 * i] as int + B * s'[2 * i + 1]
    requires forall j :: 0 <= j < 2 * i ==> s'[j] == s[j]
    ensures Val(s'[..2 * i + 2]) == Val(s[..2 * i]) + Up(p, 2 * i)
  {
    ValSplit(s'[..2 * i + 2], 2 * i);
    assert s'[..2 * i + 2][..2 * i] == s[..2 * i];
    assert s'[..2 * i + 2][2 * i..] == [s'[2 * i], s'[2 * i + 1]];
    assert Val([s'[2 * i], s'[2 * i + 1]]) == p by {
      assert [s'[2 * i], s'[2 * i + 1]][1..] == [s'[2 * i + 1]];
      assert Val([s'[2 * i + 1]]) == s'[2 * i + 1];
    }
  }

  /** Adds num[i] times the words above it, shifted into place; nothing is carried out of the top. */
  method AddRow(prod: array<word>, num: array<word>, no: nat, len: nat, i: nat)
    requires 2 * len <= prod.Length && no + len <= num.Length && prod != num && i + 1 < len
    requires Val(prod[..2 * len]) + Up(Val(num[no + i + 1..no + len]) * num[no + i], 2 * i + 1) < Up(1, 2 * len)
    modifies prod
    ensures Val(prod[..2 * len]) == old(Val(prod[..2 * len]))
      + Up(Val(num[no + i + 1..no + len]) * num[no + i], 2 * i + 1)
    ensures forall j :: 2 * len <= j < prod.Length ==> prod[j] == old(prod[j])
  {
    hide Val, Up;
    ghost var s := prod[..];
    var c := AddShifted(prod, 2 * i + 1, 2 * len, num, no + i + 1, len - 1 - i, num[no + i]);
    SeenFromBelow(s, prod[..], 2 * i + 1, 2 * len, Val(num[no + i + 1..no + len]) * num[no + i], c);
    NoCarry(prod[..2 * len], c);
  }

  /** Adds the products of each word with the words above it, row by row. */
  method AddRows(prod: array<word>, num: array<word>, no: nat, len: nat, ghost y: seq<word>, ghost half: int)
    requires 0 < len && 2 * len <= prod.Length && no + len <= num.Length && prod != num
    requires y == num[no..no + len] && half == Val(prod[..2 * len]) && half + OffDiagonal(y) < Up(1, 2 * len)
      && half >= 0
    modifies prod
    ensures Val(prod[..2 * len]) == half + OffDiagonal(y)
    ensures forall i :: 2 * len <= i < prod.Length ==> prod[i] == old(prod[i])
  {
    hide Val, Up, OffDiagonal;
    var i := 0;
    OffDiagonalStart(y);
    while i < len - 1
      invariant 0 <= i <= len - 1
      invariant Val(prod[..2 * len]) == half + OffDiagonal(y) - Up(OffDiagonal(y[i..]), 2 * i)
      invariant forall j :: 2 * len <= j < prod.Length ==> prod[j] == old(prod[j])
    {
      OffDiagonalRow(y, i);
      assert num[no + i + 1..no + len] == y[i + 1..];
      AddRow(prod, num, no, len, i);
      i := i + 1;
    }
    OffDiagonalLast(y);
  }

  /** prod = num * num.  Every carry the code discards is zero. */
  method Square(prod: array<word>, num: array<word>, no: nat, len: nat)
    requires 2 * len <= prod.Length && no + len <= num.Length && prod != num
    modifies prod
    ensures Val(prod[..2 * len]) == Val(num[no..no + len]) * Val(num[no..no + len])
    ensures forall i :: 2 * len <= i < prod.Length ==> prod[i] == old(prod[i])
  {
    hide Val, Up, Diagonal, OffDiagonal, Pow;
    ghost var y := num[no..no + len];
    if len == 0 {
      ValEmpty(num[..], no);
      assert y == num[..][no..no] == prod[..0];
      return;
    }
    Squares(prod, num, no, len);
    assert prod[0..2 * len] == prod[..2 * len];
    var _ := Rshift(prod, 0, 2 * len, 1);
    PowAt0(2);
    assert prod[0..2 * len] == prod[..2 * len];
    ghost var half := Val(prod[..2 * len]);
    ValBound(prod[..2 * len]);
    SquareBound(y);
    AddRows(prod, num, no, len, y, half);
    assert Val(prod[..2 * len]) == half + OffDiagonal(y);
    DiagonalParity(y);
    DoubleAndMend(prod, len, num[no], y, half);
  }

  /** Doubles what was halved and puts the bit back that was lost. */
  method DoubleAndMend(prod: array<word>, len: nat, x: word, ghost y: seq<word>, ghost half: int)
    requires 0 < len == |y| && 2 * len <= prod.Length && x == y[0] && 0 <= half
    requires Val(prod[..2 * len]) == half + OffDiagonal(y) && 2 * half + x % 2 == Diagonal(y)
    modifies prod
    ensures Val(prod[..2 * len]) == Val(y) * Val(y)
    ensures forall i :: 2 * len <= i < prod.Length ==> prod[i] == old(prod[i])
  {
    hide Val, Up, Diagonal, OffDiagonal;
    SquareBound(y);
    assert prod[0..2 * len] == prod[..2 * len];
    var c := Double(prod, 0, 2 * len);
    assert prod[0..2 * len] == prod[..2 * len];
    NoCarry(prod[..2 * len], c);
    EvenDouble(half + OffDiagonal(y));
    SetLowBit(prod, 2 * len, x);
    SquareSplits(y);
  }

  lemma EvenDouble(x: int)
    ensures 2 * x % 2 == 0
  {}

  method SetLowBit(prod: array<word>, len: nat, x: word)
    requires 0 < len <= prod.Length && Val(prod[..len]) % 2 == 0
    modifies prod
    ensures Val(prod[..len]) == old(Val(prod[..len])) + x % 2
    ensures forall i :: 0 < i < prod.Length ==> prod[i] == old(prod[i])
  {
    ghost var s := prod[..len];
    assert Val(s) == s[0] + B * Val(s[1..]);
    prod[0] := prod[0] + x % 2;
    assert prod[..len] == [prod[0]] + s[1..];
    assert prod[..len][1..] == s[1..];
  }

  lemma SquareBound(y: seq<word>)
    ensures Diagonal(y) + 2 * OffDiagonal(y) < Up(1, 2 * |y|)
  {
    hide Val, Up;
    SquareSplits(y);
    ValBound(y);
    var v, u := Val(y), Up(1, |y|);
    Scale(v, u, v);
    Scale(v, u - 1, u);
    UpUp(1, |y|, |y|);
    UpIsProduct(u, |y|);
    UpIsProduct(1, |y|);
  }

  lemma OffDiagonalStart(y: seq<word>)
    ensures Up(OffDiagonal(y[0..]), 0) == OffDiagonal(y)
  {
    assert y[0..] == y;
  }

  lemma OffDiagonalLast(y: seq<word>)
    requires y != []
    ensures Up(OffDiagonal(y[|y| - 1..]), 2 * (|y| - 1)) == 0
  {
    var t := y[|y| - 1..];
    assert t[1..] == [];
    assert OffDiagonal(t) == B * (Val([]) * t[0]) + B * (B * OffDiagonal([]));
    UpZero(2 * (|y| - 1));
  }

  lemma OffDiagonalRow(y: seq<word>, i: nat)
    requires i < |y|
    ensures Up(OffDiagonal(y[i..]), 2 * i)
         == Up(Val(y[i + 1..]) * y[i], 2 * i + 1) + Up(OffDiagonal(y[i + 1..]), 2 * (i + 1))
    ensures Up(OffDiagonal(y[i + 1..]), 2 * (i + 1)) >= 0
  {
    var t := y[i..];
    assert t[1..] == y[i + 1..];
    var u, o := Val(y[i + 1..]) * y[i], OffDiagonal(y[i + 1..]);
    assert OffDiagonal(t) == B * u + B * (B * o);
    hide Val, Up, OffDiagonal;
    UpAdd(B * u, B * (B * o), 2 * i);
    UpInner(u, 2 * i);
    UpInner(B * o, 2 * i);
    UpInner(o, 2 * i + 1);
    UpMonotone(0, o, 2 * (i + 1));
    UpZero(2 * (i + 1));
  }
}
