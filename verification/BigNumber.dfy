/** Numbers as objects: a growable buffer of words and the count of the words in use. */
module BigNumber {
  import opened Arith
  import opened Words
  import opened LbnBasic
  import opened LbnMul
  import opened LbnSquare
  import opened LbnKnuth
  import opened LbnDiv
  import opened LbnExp
  import opened LbnTwoExp
  import LbnMont
  import LbnBytes

  function Raised(v: nat, s: nat): int {
    v * Pow(2, s)
  }

  lemma QuotientNat(v: nat, p: int)
    requires p > 0
    ensures v / p >= 0
  {
    Scale(1, p, v + 1);
    DivBelow(v, p, v + 1);
  }

  function Shifted(v: nat, amt: nat): nat {
    QuotientNat(v, Pow(2, amt));
    v / Pow(2, amt)
  }

  function PowMod(b: nat, e: nat, n: nat): nat
    requires n > 0
  {
    Pow(b, e) % n
  }

  class BigNum {
    var ptr: array<word>
    var size: nat

    ghost predicate Valid()
      reads this
    {
      size <= ptr.Length
    }

    /** The number; high-order zero words are allowed. */
    ghost function Value(): nat
      requires Valid()
      reads this, ptr
    {
      Magnitude(ptr[..size])
    }

    constructor ()
      ensures Valid() && Value() == 0 && fresh(ptr)
    {
      ptr := new word[0];
      size := 0;
    }

    /** Makes room for len words, keeping the words in use. */
    method SizeCheck(len: nat)
      requires Valid()
      modifies this
      ensures Valid() && size == old(size) && len <= ptr.Length && (ptr == old(ptr) || fresh(ptr))
      ensures ptr[..size] == old(ptr[..size])
    {
      if ptr.Length < len {
        // the library rounds up to an even number of words
        var p := new word[len + len % 2];
        Copy(p, 0, ptr, 0, ptr.Length);
        assert p[0..ptr.Length] == ptr[..];
        assert forall i :: 0 <= i < ptr.Length ==> p[i] == p[0..ptr.Length][i];
        ptr := p;
      }
    }

    method CopyFrom(src: BigNum)
      requires Valid() && src.Valid() && (this == src || ptr != src.ptr)
      modifies this, ptr
      ensures Valid() && Value() == old(src.Value()) && (ptr == old(ptr) || fresh(ptr))
    {
      hide Val;
      if this == src { return; }
      SizeCheck(src.size);
      size := src.size;
      Copy(ptr, 0, src.ptr, 0, src.size);
      assert ptr[..size] == ptr[0..size] == src.ptr[0..size] == src.ptr[..size];
    }

    /** The number of words without leading zeros. */
    method Significand() returns (n: nat)
      requires Valid()
      ensures n <= size && Val(ptr[..n]) == Value() && (n > 0 ==> ptr[n - 1] != 0) && n == WordLen(Value())
    {
      hide Val, WordLen;
      n := Norm(ptr, 0, size);
      assert ptr[0..size] == ptr[..size] && ptr[0..n] == ptr[..n];
      WordLenOf(ptr[..n]);
    }

    /** The remainder by a small divisor; for a power of two it is cut out of the lowest word. */
    method Residue(d: nat) returns (r: nat)
      requires Valid() && 0 < d < 65536
      ensures r == Value() % d
    {
      hide Val, WordLen, Pow, And;
      var s := Significand();
      if s == 0 {
        NonEmptyIf(ptr[..s]);
        return 0;
      }
      if And(d, d - 1) != 0 {
        r := ModQ(ptr, s, d);
      } else {
        MaskIsRemainder(ptr[..s], d);
        r := And(ptr[0], d - 1);
      }
    }

    method LSWord() returns (w: word)
      requires Valid()
      ensures w == Value() % B
    {
      if size == 0 { return 0; }
      DivModUnique(Val(ptr[..size]), B, Val(ptr[..size][1..]), ptr[0]);
      return ptr[0];
    }

    method BitLength() returns (bits: nat)
      requires Valid()
      ensures bits == 0 <==> Value() == 0
      ensures bits > 0 ==> Pow(2, bits - 1) <= Value() < Pow(2, bits)
      ensures bits == 1 <==> Value() == 1
    {
      hide Val, Pow;
      assert ptr[0..size] == ptr[..size];
      bits := Bits(ptr, 0, size);
      PowAt0(2);
      if bits > 1 { PowMonotone(2, 1, bits - 1); }
    }

    method SetQ(src: word)
      requires Valid()
      modifies this, ptr
      ensures Valid() && Value() == src && (ptr == old(ptr) || fresh(ptr))
    {
      if src != 0 {
        SizeCheck(1);
        ptr[0] := src;
        size := 1;
        ValOne(ptr[..], 0);
        assert ptr[..][0..0 + 1] == ptr[..size];
      } else {
        size := 0;
        assert ptr[..size] == [];
      }
    }

    /** Stores a carry as a new top word. */
    method Push(t: word)
      requires Valid()
      modifies this, ptr
      ensures Valid() && (ptr == old(ptr) || fresh(ptr))
      ensures size == old(size) + 1 && Value() == old(Value()) + Up(t, old(size))
    {
      hide Val, Up;
      SizeCheck(size + 1);
      ghost var s := ptr[..size];
      ptr[size] := t;
      size := size + 1;
      ValGrow(ptr[..], 0, size - 1);
      assert ptr[..][0..size - 1] == s && ptr[..][0..size - 1 + 1] == ptr[..size];
    }

    method AddQ(src: word)
      requires Valid()
      modifies this, ptr
      ensures Valid() && Value() == old(Value()) + src && (ptr == old(ptr) || fresh(ptr))
    {
      hide Val, Up;
      if size == 0 {
        ValEmpty(ptr[..], 0);
        assert ptr[..][0..0] == ptr[..size];
        SetQ(src);
        return;
      }
      assert ptr[0..size] == ptr[..size];
      var t := Add1(ptr, 0, size, src);
      assert ptr[0..size] == ptr[..size];
      UpZero(size);
      if t != 0 { Push(t); }
    }

    /** The absolute value of the difference; the result says whether the difference is negative. */
    method SubQ(src: word) returns (negative: bool)
      requires Valid()
      modifies this, ptr
      ensures Valid() && (ptr == old(ptr) || fresh(ptr))
      ensures negative <==> old(Value()) < src
      ensures Value() == if negative then src - old(Value()) else old(Value()) - src
    {
      hide Val, Up;
      if size == 0 {
        ValEmpty(ptr[..], 0);
        assert ptr[..][0..0] == ptr[..size];
        SetQ(src);
        return src != 0;
      }
      assert ptr[0..size] == ptr[..size];
      ghost var v := Value();
      var t := Sub1(ptr, 0, size, src);
      assert ptr[0..size] == ptr[..size];
      UpZero(size);
      ValBound(ptr[..size]);
      negative := t != 0;
      if negative {
        BorrowedLow(ptr[..size], v, src);
        ptr[0] := Lo(-(ptr[0] as int));
        size := 1;
        ValOne(ptr[..], 0);
        assert ptr[..][0..0 + 1] == ptr[..size];
      }
    }

    method CmpTo(b: BigNum) returns (c: int)
      requires Valid() && b.Valid()
      ensures c == if Value() < b.Value() then -1 else if Value() == b.Value() then 0 else 1
    {
      hide Val, Up;
      var s := Norm(ptr, 0, size);
      var t := Norm(b.ptr, 0, b.size);
      assert ptr[0..size] == ptr[..size] && b.ptr[0..b.size] == b.ptr[..b.size];
      if s != t {
        if s > t { LongerIsLarger(b.ptr[0..t], ptr[0..s]); return 1; }
        LongerIsLarger(ptr[0..s], b.ptr[0..t]);
        return -1;
      }
      c := Cmp(ptr, 0, b.ptr, 0, s);
    }

    /** Takes the low n words in use as the number, dropping leading zeros. */
    method Trim(n: nat)
      requires n <= ptr.Length
      modifies this`size
      ensures Valid() && size <= n && Value() == Val(ptr[0..n]) && size == WordLen(Value())
    {
      hide Val, WordLen;
      size := Norm(ptr, 0, n);
      assert ptr[0..size] == ptr[..size];
      WordLenOf(ptr[..size]);
    }

    method SquareOf(src: BigNum)
      requires Valid() && src.Valid() && (this == src || ptr != src.ptr)
      modifies this, ptr
      ensures Valid() && Value() == old(src.Value()) * old(src.Value()) && (ptr == old(ptr) || fresh(ptr))
    {
      hide Val, Up;
      ghost var v := src.Value();
      var s := Norm(src.ptr, 0, src.size);
      assert src.ptr[0..src.size] == src.ptr[..src.size];
      if s == 0 {
        ValEmpty(src.ptr[..], 0);
        assert src.ptr[..][0..0] == src.ptr[0..s];
        size := 0;
        assert ptr[..0] == src.ptr[..][0..0];
        return;
      }
      var p := src.ptr;
      if this == src {
        p := new word[s];
        Copy(p, 0, ptr, 0, s);
      }
      assert Val(p[0..s]) == v;
      SizeCheck(2 * s);
      SquareWords(p, s, v);
    }

    method SquareWords(p: array<word>, s: nat, ghost v: int)
      requires 0 < s <= p.Length && Val(p[0..s]) == v && 2 * s <= ptr.Length && p != ptr
      modifies this`size, ptr
      ensures Valid() && Value() == v * v
    {
      hide Val, Up;
      assert p[0..0 + s] == p[0..s];
      Square(ptr, p, 0, s);
      assert ptr[0..2 * s] == ptr[..2 * s];
      Trim(2 * s);
    }

    /** The words of src, in this object's buffer. */
    method Load(src: BigNum, n: nat)
      requires Valid() && src.Valid() && n <= src.size && (this == src || ptr != src.ptr)
      modifies this, ptr
      ensures Valid() && n <= ptr.Length && ptr[0..n] == old(src.ptr[0..n]) && (ptr == old(ptr) || fresh(ptr))
    {
      if this != src {
        SizeCheck(n);
        Copy(ptr, 0, src.ptr, 0, n);
      }
    }

    /** this = src % d; the quotient is dumped into the words above the remainder. */
    method ModOf(src: BigNum, d: BigNum)
      requires Valid() && src.Valid() && d.Valid() && d.Value() > 0
      requires (this == src || ptr != src.ptr) && this != d && ptr != d.ptr && (src == d || src.ptr != d.ptr)
      modifies this, ptr, d.ptr
      ensures Valid() && d.ptr[..] == old(d.ptr[..]) && (ptr == old(ptr) || fresh(ptr))
      ensures Value() == old(src.Value()) % old(d.Value())
    {
      hide Val, Up;
      ghost var v: nat, dv: nat := src.Value(), d.Value();
      var nsize := Norm(src.ptr, 0, src.size);
      var dsize := Norm(d.ptr, 0, d.size);
      assert src.ptr[0..src.size] == src.ptr[..src.size] && d.ptr[0..d.size] == d.ptr[..d.size];
      ghost var words := d.ptr[0..dsize];
      Load(src, nsize);
      assert d.ptr[0..dsize] == words;
      ModWords(nsize, d.ptr, dsize, v, dv);
    }

    method ModWords(nsize: nat, d: array<word>, dsize: nat, ghost v: nat, ghost dv: nat)
      requires nsize <= ptr.Length && dsize <= d.Length && d != ptr && (dsize > 0 ==> d[dsize - 1] != 0)
      requires Val(ptr[0..nsize]) == v && Val(d[0..dsize]) == dv && dv > 0
      modifies this`size, ptr, d
      ensures Valid() && d[..] == old(d[..]) && Value() == v % dv
    {
      hide Val, Up;
      NonEmpty(d[0..dsize]);
      if nsize < dsize {
        LongerIsLarger(ptr[0..nsize], d[0..dsize]);
        DivModUnique(v, dv, 0, v);
        size := nsize;
        assert ptr[0..size] == ptr[..size];
        return;
      }
      var q := Div(ptr, dsize, ptr, 0, nsize, d, 0, dsize);
      ValBound(ptr[0..dsize]);
      DivModUnique(v, dv, Val(ptr[dsize..nsize]) + Up(q, nsize - dsize), Val(ptr[0..dsize]));
      Trim(dsize);
    }

    /** this = 2^exp % mod; an even modulus is refused. */
    method TwoExpModOf(exp: BigNum, mod: BigNum) returns (ok: bool)
      requires Valid() && exp.Valid() && mod.Valid() && exp.Value() > 0 && mod.Value() != 1
      requires this != exp && this != mod && ptr != exp.ptr && ptr != mod.ptr && exp.ptr != mod.ptr
      modifies this, ptr, mod.ptr
      ensures Valid() && mod.ptr[..] == old(mod.ptr[..]) && (ptr == old(ptr) || fresh(ptr))
      ensures ok <==> old(mod.Value()) % 2 == 1
      ensures ok ==> Value() == PowMod(2, old(exp.Value()), old(mod.Value()))
    {
      hide Val, Pow;
      ghost var e: nat, m: nat := exp.Value(), mod.Value();
      var esize := exp.Significand();
      var msize := mod.Significand();
      NonEmpty(exp.ptr[..esize]);
      Parity(mod.ptr[..msize]);
      if msize == 0 || mod.ptr[0] % 2 == 0 { return false; }
      SizeCheck(msize);
      TwoExpMod(ptr, exp.ptr, esize, mod.ptr, msize);
      assert ptr[0..msize] == ptr[..msize];
      Trim(msize);
      ok := true;
    }

    /** this = n^exp % mod; an even modulus is refused, and base 2 is handled apart. */
    method ExpModOf(n: BigNum, exp: BigNum, mod: BigNum) returns (ok: bool)
      requires Valid() && n.Valid() && exp.Valid() && mod.Valid() && 32 * WordLen(exp.Value()) < B
      requires WordLen(n.Value()) <= WordLen(mod.Value()) && (n.Value() == 2 ==> exp.Value() > 0 && mod.Value() != 1)
      requires this != exp && this != mod && ptr != exp.ptr && ptr != mod.ptr && exp.ptr != mod.ptr
      requires n != mod && n.ptr != mod.ptr && (this == n || ptr != n.ptr)
      modifies this, ptr, mod.ptr
      ensures Valid() && mod.ptr[..] == old(mod.ptr[..]) && (ptr == old(ptr) || fresh(ptr))
      ensures ok <==> old(mod.Value()) % 2 == 1
      ensures ok ==> Value() == ExpResult(old(n.Value()), old(exp.Value()), old(mod.Value()))
    {
      hide Val, Pow, WordLen;
      ghost var b: nat, e: nat, m: nat := n.Value(), exp.Value(), mod.Value();
      var nsize := n.Significand();
      var esize := exp.Significand();
      var msize := mod.Significand();
      Parity(mod.ptr[..msize]);
      if msize == 0 || mod.ptr[0] % 2 == 0 { return false; }
      IsTwo(n.ptr[..nsize]);
      ghost var nw := n.ptr[..n.size];
      assert nw[..nsize] == n.ptr[..nsize];
      SizeCheck(msize);
      assert n.ptr[..n.size] == nw && n.ptr[..nsize] == nw[..nsize];
      ExpWords(n.ptr, nsize, exp.ptr, esize, mod.ptr, msize, b, e, m);
      ok := true;
    }

    method ExpWords(n: array<word>, nsize: nat, exp: array<word>, esize: nat, mod: array<word>, msize: nat,
                    ghost b: nat, ghost e: nat, ghost m: nat)
      requires nsize <= n.Length && esize <= exp.Length && 0 < msize <= mod.Length && msize <= ptr.Length
        && nsize <= msize && 32 * esize < B
      requires (esize > 0 ==> exp[esize - 1] != 0) && mod[msize - 1] != 0 && mod[0] % 2 == 1
      requires b == Val(n[..nsize]) && e == Val(exp[..esize]) && m == Val(mod[..msize]) && m % 2 == 1
      requires ptr != exp && ptr != mod && exp != mod && n != mod && (b == 2 ==> e > 0 && m > 1)
      requires b == 2 <==> nsize == 1 && n[0] == 2
      modifies this`size, ptr, mod
      ensures Valid() && mod[..] == old(mod[..]) && Value() == ExpResult(b, e, m)
    {
      hide Val, Pow;
      if nsize == 1 && n[0] == 2 {
        NonEmpty(exp[..esize]);
        TwoExpMod(ptr, exp, esize, mod, msize);
        TwoIsResult(e, m);
      } else {
        ExpMod(ptr, n, nsize, exp, esize, mod, msize);
      }
      assert ptr[0..msize] == ptr[..msize];
      Trim(msize);
    }

    /** Makes the number at least s words long, by clearing words above it. */
    method ZeroExtend(s: nat)
      requires Valid()
      modifies this, ptr
      ensures Valid() && (ptr == old(ptr) || fresh(ptr))
      ensures size == (if old(size) < s then s else old(size)) && Value() == old(Value())
    {
      hide Val;
      SizeCheck(s);
      if size < s {
        ghost var words := ptr[..size];
        Zero(ptr, size, s - size);
        ValHigh(ptr[..s], size);
        assert ptr[..s][..size] == words;
        size := s;
      }
    }

    /** Writes the bytes of a buffer into the number, in either byte order, and drops leading zero words. */
    method InsertBytes(buf: seq<LbnBytes.byte>, lsbyte: nat, big: bool)
      requires Valid()
      modifies this, ptr
      ensures Valid() && (ptr == old(ptr) || fresh(ptr)) && size == WordLen(Value())
      ensures forall k: nat :: LbnBytes.NumByte(Value(), k) == LbnBytes.Patched(old(Value()), buf, lsbyte, big, k)
    {
      hide Val, WordLen, LbnBytes.NumByte, LbnBytes.ByteAt;
      ghost var v := Value();
      ZeroExtend((|buf| + lsbyte + 3) / 4);
      ghost var n, s := size, ptr[..];
      assert s[..n] == ptr[..size];
      LbnBytes.Insert(ptr, buf, lsbyte, big);
      Trim(size);
      assert ptr[0..n] == ptr[..][..n];
      forall k: nat ensures LbnBytes.NumByte(Value(), k) == LbnBytes.Patched(v, buf, lsbyte, big, k) {
        LbnBytes.BufferByte(s, n, k);
        LbnBytes.BufferByte(ptr[..], n, k);
      }
    }

    /**
     * Reads len bytes from lsbyte on, with zeros above the number.  If the number ends below lsbyte the count of bytes
     * would wrap around below zero, and the destination be overrun.
     */
    method ExtractBytes(lsbyte: nat, len: nat, big: bool) returns (ok: bool, dest: seq<LbnBytes.byte>)
      requires Valid()
      ensures ok <==> lsbyte <= 4 * size
      ensures ok ==> dest == LbnBytes.NumBytes(Value(), lsbyte, len, big)
    {
      hide Val, LbnBytes.NumByte, LbnBytes.ByteAt;
      var s, left := 4 * size, len;
      var fill: seq<LbnBytes.byte> := [];
      while s < lsbyte + left
        invariant 0 <= left <= len && |fill| == len - left && (left < len ==> s <= lsbyte + left)
        invariant forall i :: 0 <= i < |fill| ==> fill[i] == 0
      {
        if left == 0 { return false, []; }
        fill := fill + [0];
        left := left - 1;
      }
      ok := true;
      var bytes: seq<LbnBytes.byte> := [];
      if left > 0 {
        if big {
          bytes := LbnBytes.ExtractBig(ptr, lsbyte, left);
        } else {
          bytes := LbnBytes.ExtractLittle(ptr, lsbyte, left);
        }
      }
      dest := if big then fill + bytes else bytes + fill;
      forall i | 0 <= i < len ensures dest[i] == LbnBytes.NumByte(Value(), LbnBytes.Spot(i, len, lsbyte, big)) {
        LbnBytes.BufferByte(ptr[..], size, LbnBytes.Spot(i, len, lsbyte, big));
        assert ptr[..][..size] == ptr[..size];
      }
    }

    /**
     * Extraction returns the inserted bytes exactly when the number, without its leading zero words, reaches up to
     * them.
     */
    method InsertThenExtract(buf: seq<LbnBytes.byte>, lsbyte: nat, big: bool)
      returns (ok: bool, out: seq<LbnBytes.byte>)
      requires Valid()
      modifies this, ptr
      ensures Valid() && (ok <==> lsbyte <= 4 * size) && (ok <==> Covers(old(Value()), buf, lsbyte))
      ensures ok ==> out == buf
      ensures forall k: nat :: k < lsbyte || lsbyte + |buf| <= k ==>
        LbnBytes.NumByte(Value(), k) == LbnBytes.NumByte(old(Value()), k)
    {
      hide Val, WordLen, LbnBytes.NumByte, Covers;
      ghost var v := Value();
      InsertBytes(buf, lsbyte, big);
      CoversUp(v, Value(), buf, lsbyte, big);
      ok, out := ExtractBytes(lsbyte, |buf|, big);
    }

    method Add(src: BigNum)
      requires Valid() && src.Valid() && (this == src || ptr != src.ptr)
      modifies this, ptr
      ensures Valid() && Value() == old(Value()) + old(src.Value()) && (ptr == old(ptr) || fresh(ptr))
    {
      hide Val, Up;
      ghost var x: nat, y: nat := Value(), src.Value();
      var s := src.size;
      if s == 0 {
        ValEmpty(src.ptr[..], 0);
        assert src.ptr[..][0..0] == src.ptr[..s];
        return;
      }
      ZeroExtend(s);
      var t := AddWords(src.ptr, s, x, y);
      UpZero(size);
      if t != 0 { Push(t); }
    }

    /** Adds s words, carrying to the top; the carry out is returned. */
    method AddWords(src: array<word>, s: nat, ghost x: nat, ghost y: nat) returns (t: word)
      requires Valid() && 0 < s <= size && s <= src.Length && x == Value() && y == Val(src[..s])
      modifies ptr
      ensures Valid() && t <= 1 && Value() + Up(t, size) == x + y
    {
      hide Val, Up;
      ghost var before := ptr[..];
      assert src[0..s] == src[..s] && ptr[0..size] == ptr[..size] && ptr[0..s] == before[0..s];
      t := AddN(ptr, 0, src, 0, s);
      ghost var mid := ptr[..];
      assert ptr[0..s] == mid[0..s];
      if size > s && t != 0 {
        assert ptr[s..size] == mid[s..size];
        t := Add1(ptr, s, size - s, t);
        RowCarry(before, mid, ptr[..], 0, s, size, y, 1, t) by { assert ptr[..][s..size] == ptr[s..size]; }
      } else {
        ValTail(mid, before, 0, s, size);
        UpZero(s);
        UpZero(size);
      }
      assert before[0..size] == old(ptr[..size]) && ptr[..][0..size] == ptr[..size];
    }

    /** this = a * b; any of the three may be the same object. */
    method MulOf(a: BigNum, b: BigNum)
      requires Valid() && a.Valid() && b.Valid()
      requires (this == a || ptr != a.ptr) && (this == b || ptr != b.ptr) && (a == b || a.ptr != b.ptr)
      modifies this, ptr
      ensures Valid() && Value() == old(a.Value()) * old(b.Value()) && (ptr == old(ptr) || fresh(ptr))
    {
      hide Val, Up, WordLen;
      ghost var x: nat, y: nat := a.Value(), b.Value();
      var s := a.Significand();
      var t := b.Significand();
      if s == 0 || t == 0 {
        NonEmptyIf(a.ptr[..s]);
        NonEmptyIf(b.ptr[..t]);
        size := 0;
        NonEmptyIf(ptr[..0]);
        return;
      }
      if a == b {
        SquareOf(a);
        return;
      }
      var p, q := a.ptr, b.ptr;
      if this == a {
        p := Saved(s);
      } else if this == b {
        q := Saved(t);
      }
      SizeCheck(s + t);
      MulWords(p, s, q, t, x, y);
    }

    /** A copy of the low n words. */
    method Saved(n: nat) returns (p: array<word>)
      requires n <= ptr.Length
      ensures fresh(p) && p.Length == n && p[..n] == ptr[..n]
    {
      p := new word[n];
      Copy(p, 0, ptr, 0, n);
      assert p[..n] == p[0..n] == ptr[0..n] == ptr[..n];
    }

    method MulWords(p: array<word>, s: nat, q: array<word>, t: nat, ghost x: nat, ghost y: nat)
      requires s <= p.Length && t <= q.Length && s + t <= ptr.Length && ptr != p && ptr != q
      requires x == Val(p[..s]) && y == Val(q[..t])
      modifies this`size, ptr
      ensures Valid() && Value() == x * y
    {
      hide Val, Up;
      assert p[0..s] == p[..s] && q[0..t] == q[..t];
      Mul(ptr, 0, p, 0, s, q, 0, t);
      Trim(s + t);
    }

    /** Divides by 2^amt, for an amount of at most size whole words. */
    method RShift(amt: nat)
      requires Valid() && amt / 32 <= size
      modifies this`size, ptr
      ensures Valid() && Value() == Shifted(old(Value()), amt)
    {
      hide Val, Pow, Up;
      ghost var v: nat := Value();
      var k, a := amt / 32, amt % 32;
      var s := size;
      if k > 0 {
        s := s - k;
        MoveWordsDown(k);
      } else {
        ValSplit(ptr[..size], 0);
        ValEmpty(ptr[..], 0);
        assert ptr[..size][..0] == ptr[..][0..0] && ptr[..size][0..] == ptr[..s];
        UpAt0(Val(ptr[..s]));
      }
      WordsDropped(old(ptr[..size]), k);
      ghost var w := Val(ptr[..s]);
      assert ptr[0..s] == ptr[..s];
      PowAt0(2);
      PowAdd(2, 32 * k, a);
      DivDiv(v, Pow(2, 32 * k), Pow(2, a));
      if a != 0 {
        var out := Rshift(ptr, 0, s, a);
        DivModUnique(w, Pow(2, a), Val(ptr[0..s]), out);
      }
      Trim(s);
    }

    method MoveWordsDown(k: nat)
      requires Valid() && k <= size
      modifies ptr
      ensures ptr[..size - k] == old(ptr[k..size])
    {
      forall i | 0 <= i < size - k { ptr[i] := ptr[k + i]; }
    }

    /** The absolute value of the difference; the result says whether the difference is negative. */
    method Sub(src: BigNum) returns (negative: bool)
      requires Valid() && src.Valid() && (this == src || ptr != src.ptr)
      modifies this, ptr
      ensures Valid() && (ptr == old(ptr) || fresh(ptr))
      ensures negative <==> old(Value()) < old(src.Value())
      ensures Value() == if negative then old(src.Value()) - old(Value()) else old(Value()) - old(src.Value())
    {
      hide Val, Up, WordLen;
      ghost var x: nat, y: nat := Value(), src.Value();
      var s := src.size;
      if size < s {
        s := src.Significand();
        ZeroExtend(s);
      }
      NonEmptyIf(src.ptr[..s]);
      if s == 0 { return false; }
      var t := SubWords(src.ptr, s, x, y);
      negative := FixSign(t, x, y);
    }

    /** Negates a difference that borrowed. */
    method FixSign(t: word, ghost x: nat, ghost y: nat) returns (negative: bool)
      requires Valid() && 0 < size && t <= 1 && Value() + y == x + Up(t, size) && y < Up(1, size)
      modifies this`size, ptr
      ensures Valid() && (negative <==> x < y) && Value() == if negative then y - x else x - y
    {
      hide Val, Up;
      assert ptr[0..size] == ptr[..size];
      UpZero(size);
      ValBound(ptr[..size]);
      negative := t != 0;
      if negative { Neg(ptr, 0, size); }
      Trim(size);
    }

    /** Subtracts s words, borrowing to the top; the borrow out is returned. */
    method SubWords(src: array<word>, s: nat, ghost x: nat, ghost y: nat) returns (t: word)
      requires Valid() && 0 < s <= size && s <= src.Length && x == Value() && y == Val(src[..s])
      modifies ptr
      ensures Valid() && t <= 1 && Value() + y == x + Up(t, size) && y < Up(1, size)
    {
      hide Val, Up;
      ValBound(src[..s]);
      LbnMont.UpGrow(1, s, size);
      ghost var before := ptr[..];
      assert src[0..s] == src[..s] && ptr[0..size] == ptr[..size] && ptr[0..s] == before[0..s];
      t := SubN(ptr, 0, src, 0, s);
      UpNeg(t, s);
      ghost var mid := ptr[..];
      assert ptr[0..s] == mid[0..s];
      if size > s && t != 0 {
        t := BorrowUp(s, y, before, mid);
      } else {
        ValTail(mid, before, 0, s, size);
        UpZero(s);
        UpZero(size);
      }
      assert before[0..size] == old(ptr[..size]) && ptr[..][0..size] == ptr[..size];
    }

    /** Subtracts a borrow from the words above s. */
    method BorrowUp(s: nat, ghost y: nat, ghost before: seq<word>, ghost mid: seq<word>) returns (t: word)
      requires Valid() && 0 < s < size && ptr[..] == mid && |before| == |mid| && before[s..] == mid[s..]
      requires Val(mid[0..s]) + Up(-1, s) == Val(before[0..s]) - y
      modifies ptr
      ensures t <= 1 && Val(ptr[..][0..size]) + y == Val(before[0..size]) + Up(t, size)
    {
      hide Val, Up;
      assert ptr[s..size] == mid[s..size];
      assert forall j :: s <= j < |before| ==> before[j] == before[s..][j - s] == mid[s..][j - s];
      t := Sub1(ptr, s, size - s, 1);
      UpNeg(t, size - s);
      RowCarry(before, mid, ptr[..], 0, s, size, -(y as int), -1, -(t as int))
        by { assert ptr[..][s..size] == ptr[s..size]; }
      UpNeg(t, size);
    }

    /** Divides out all factors of two and counts them; zero is left alone. */
    method MakeOdd() returns (s: nat)
      requires Valid()
      modifies this`size, ptr
      ensures Valid()
      ensures old(Value()) == 0 ==> s == 0 && Value() == 0
      ensures old(Value()) > 0 ==> Value() % 2 == 1 && old(Value()) == Raised(Value(), s)
    {
      hide Val, Pow, WordLen;
      ghost var v: nat := Value();
      var n := Significand();
      NonEmptyIf(ptr[..n]);
      if n == 0 { return 0; }
      ghost var s0 := ptr[..n];
      TopSet(s0);
      var k := DropZeroWords(n);
      n := n - k;
      ghost var w: nat := Magnitude(ptr[..n]);
      var c := DropZeroBits(n);
      if c > 0 && ptr[n - 1] == 0 {
        n := n - 1;
        ValHigh(ptr[..n + 1], n);
        assert ptr[..n + 1][..n] == ptr[..n];
      }
      size := n;
      s := 32 * k + c;
      PowAdd(2, c, 32 * k);
      Associate(Value(), Pow(2, c), Pow(2, 32 * k));
    }

    /** Removes low-order zero words from a number of n words that is not zero. */
    method DropZeroWords(n: nat) returns (k: nat)
      requires 0 < n <= ptr.Length && ptr[n - 1] != 0
      modifies ptr
      ensures k < n && ptr[0] != 0 && old(Val(ptr[..n])) == Val(ptr[..n - k]) * Pow(2, 32 * k)
    {
      hide Val, Pow;
      ghost var s := ptr[..n];
      k := 0;
      while ptr[k] == 0
        invariant 0 <= k < n && ptr[..n] == s && forall i :: 0 <= i < k ==> s[i] == 0
        decreases n - k
      {
        assert s[n - 1] != 0;
        k := k + 1;
      }
      if k > 0 {
        forall i | 0 <= i < n - k { ptr[i] := ptr[k + i]; }
      }
      assert ptr[..n - k] == s[k..];
      LowWordsZero(s, k);
    }

    /** Shifts a number with a nonzero low word right until it is odd. */
    method DropZeroBits(n: nat) returns (c: nat)
      requires 0 < n <= ptr.Length && ptr[0] != 0
      modifies ptr
      ensures Val(ptr[..n]) % 2 == 1 && old(Val(ptr[..n])) == Val(ptr[..n]) * Pow(2, c)
    {
      hide Val, Pow;
      var t: word := ptr[0];
      PowAt0(2);
      c := 0;
      Parity(ptr[..n]);
      assert t % 2 != 0 ==> Val(ptr[..n]) % 2 == 1;
      while t % 2 == 0
        invariant t > 0 && c < 32 && ptr[0] == t * Pow(2, c) && ptr[..] == old(ptr[..])
        invariant c == 0 ==> t == ptr[0]
        decreases t
      {
        TwoStep(ptr[0], t, c);
        t := t / 2;
        c := c + 1;
      }
      if c > 0 { ShiftOut(n, t, c); }
    }

    method ShiftOut(n: nat, t: word, c: nat)
      requires 0 < n <= ptr.Length && 0 < c < 32 && t % 2 == 1 && ptr[0] == t * Pow(2, c)
      modifies ptr
      ensures Val(ptr[..n]) % 2 == 1 && old(Val(ptr[..n])) == Val(ptr[..n]) * Pow(2, c)
    {
      hide Val, Pow;
      ghost var x := ptr[..n];
      assert ptr[0..n] == ptr[..n];
      LowBitsZero(x, t, c);
      var out := Rshift(ptr, 0, n, c);
      DivModUnique(Val(x), Pow(2, c), Val(ptr[0..n]), out);
      assert ptr[0..n] == ptr[..n];
    }
  }

  /** The bitwise and. */
  function And(x: nat, y: nat): nat {
    if x == 0 || y == 0 then 0 else (if x % 2 == 1 && y % 2 == 1 then 1 else 0) + 2 * And(x / 2, y / 2)
  }

  lemma {:induction false} AndSame(x: nat)
    ensures And(x, x) == x
  {
    if x > 0 { AndSame(x / 2); }
  }

  /** Only a power of two has no bit in common with its predecessor. */
  lemma {:induction false} PowerOfTwo(d: nat) returns (k: nat)
    requires d > 0 && And(d, d - 1) == 0
    ensures d == Pow(2, k)
  {
    if d == 1 {
      k := 0;
    } else if d % 2 == 0 {
      assert (d - 1) / 2 == d / 2 - 1;
      var j := PowerOfTwo(d / 2);
      k := j + 1;
    } else {
      AndSame(d / 2);
      assert false;
    }
  }

  lemma {:induction false} AndMask(x: nat, k: nat)
    ensures Pow(2, k) > 0 && And(x, Pow(2, k) - 1) == x % Pow(2, k)
  {
    hide And;
    if k == 0 {
      AndZero(x);
    } else {
      var p := Pow(2, k - 1);
      AndMask(x / 2, k - 1);
      AndOdd(x, p - 1);
      ModDouble(x, p);
    }
  }

  lemma AndZero(x: nat)
    ensures And(x, 0) == 0
  {}

  lemma AndOdd(x: nat, y: nat)
    ensures And(x, 2 * y + 1) == x % 2 + 2 * And(x / 2, y)
  {}

  lemma ModDouble(x: nat, p: int)
    requires p > 0
    ensures x % (2 * p) == x % 2 + 2 * ((x / 2) % p)
  {
    var h := x / 2;
    Exchange(h / p, 2, p);
    assert h == (h / p) * p + h % p;
    DivModUnique(x, 2 * p, h / p, x % 2 + 2 * (h % p));
  }

  lemma MaskIsRemainder(s: seq<word>, d: nat)
    requires s != [] && 0 < d < 65536 && And(d, d - 1) == 0
    ensures And(s[0], d - 1) == Val(s) % d
  {
    hide And, Pow;
    var k := PowerOfTwo(d);
    AndMask(s[0], k);
    TwoPow32();
    if k > 32 { PowMonotone(2, 32, k); }
    PowAdd(2, k, 32 - k);
    var h := Pow(2, 32 - k) * Val(s[1..]);
    Exchange(d, Pow(2, 32 - k), Val(s[1..]));
    Associate(d, Pow(2, 32 - k), Val(s[1..]));
    ModOf(s[0], h, d);
  }

  lemma TwoStep(x: word, t: word, c: nat)
    requires t > 0 && t % 2 == 0 && c < 32 && x == t * Pow(2, c)
    ensures x == (t / 2) * Pow(2, c + 1) && c + 1 < 32
  {
    assert t == 2 * (t / 2);
    assert 2 * (t / 2) * Pow(2, c) == (t / 2) * (2 * Pow(2, c));
    if c + 1 >= 32 {
      TwoPow32();
      Scale(1, t / 2, Pow(2, c + 1));
    }
  }

  lemma LowWordsZero(s: seq<word>, k: nat)
    requires k <= |s| && forall i :: 0 <= i < k ==> s[i] == 0
    ensures Val(s) == Val(s[k..]) * Pow(2, 32 * k)
  {
    hide Val, Up, Pow;
    ValSplit(s, k);
    ValZero(s[..k]);
    UpBits(k);
    UpIsProduct(1, k);
    UpIsProduct(Val(s[k..]), k);
  }

  lemma LowBitsZero(s: seq<word>, t: word, c: nat)
    requires s != [] && 0 < c < 32 && t % 2 == 1 && s[0] == t * Pow(2, c)
    ensures Val(s) % Pow(2, c) == 0 && (Val(s) / Pow(2, c)) % 2 == 1
  {
    TwoPow32();
    PowAdd(2, c, 32 - c);
    assert Pow(2, 32 - c) == 2 * Pow(2, 31 - c);
    hide Val, Pow;
    ValCons(s, 0, |s|);
    assert s[0..|s|] == s && s[1..|s|] == s[1..];
    OddPart(Val(s), t, Pow(2, c), Pow(2, 31 - c), Val(s[1..]));
  }

  lemma OddPart(v: int, t: int, p: int, q: int, h: int)
    requires p > 0 && p * (2 * q) == B && v == t * p + B * h && t % 2 == 1
    ensures v % p == 0 && (v / p) % 2 == 1
  {
    assert p * (2 * q) * h == 2 * (q * h) * p;
    assert (t + 2 * (q * h)) * p == t * p + 2 * (q * h) * p;
    DivModUnique(v, p, t + 2 * (q * h), 0);
  }

  lemma NonEmptyIf(s: seq<word>)
    ensures s == [] ==> Val(s) == 0
  {}

  /** The number of words a number needs. */
  ghost function WordLen(v: nat): nat {
    if v == 0 then 0 else 1 + WordLen(v / B)
  }

  lemma {:induction false} WordLenMonotone(x: nat, y: nat)
    requires x <= y
    ensures WordLen(x) <= WordLen(y)
  {
    if x > 0 { WordLenMonotone(x / B, y / B); }
  }

  lemma {:induction false} WordLenOf(s: seq<word>)
    requires s == [] || s[|s| - 1] != 0
    ensures Val(s) >= 0 && WordLen(Val(s)) == |s|
  {
    ValBound(s);
    if s != [] {
      WordLenOf(s[1..]);
      TopSet(s);
      DivModUnique(Val(s), B, Val(s[1..]), s[0]);
    }
  }

  lemma {:induction false} WordLenAbove(v: nat, n: nat)
    ensures WordLen(v) > n <==> v >= Pow(2, 32 * n)
  {
    PowAt0(2);
    if n > 0 {
      WordLenAbove(v / B, n - 1);
      TwoPow32();
      PowAdd(2, 32, 32 * (n - 1));
      assert 32 + 32 * (n - 1) == 32 * n;
      QuotientAbove(v, Pow(2, 32 * (n - 1)));
    }
  }

  lemma QuotientAbove(v: nat, p: int)
    requires p > 0
    ensures v / B >= p <==> v >= B * p
    ensures v / B >= p ==> WordLen(v) == 1 + WordLen(v / B)
  {}

  /**
   * A byte inserted from lsbyte on, or a byte of the number from the word below lsbyte on that is kept, is not zero.
   */
  ghost predicate Covers(v: int, buf: seq<LbnBytes.byte>, lsbyte: nat) {
    || lsbyte == 0
    || (exists i :: 0 <= i < |buf| && buf[i] != 0)
    || exists k: nat :: 4 * ((lsbyte - 1) / 4) <= k && !(lsbyte <= k < lsbyte + |buf|) && LbnBytes.NumByte(v, k) != 0
  }

  lemma CoversUp(v: int, v': nat, buf: seq<LbnBytes.byte>, lsbyte: nat, big: bool)
    requires forall k: nat :: LbnBytes.NumByte(v', k) == LbnBytes.Patched(v, buf, lsbyte, big, k)
    ensures lsbyte <= 4 * WordLen(v') <==> Covers(v, buf, lsbyte)
  {
    hide LbnBytes.NumByte, WordLen, Pow;
    if lsbyte > 0 {
      var n := (lsbyte - 1) / 4;
      WordLenAbove(v', n);
      LbnBytes.ByteAbove(v', n);
      if k: nat :| k >= 4 * n && LbnBytes.NumByte(v', k) != 0 {
        if lsbyte <= k < lsbyte + |buf| {
          var i := if big then lsbyte + |buf| - 1 - k else k - lsbyte;
          assert buf[i] != 0;
        } else {
          assert LbnBytes.NumByte(v, k) != 0;
        }
      }
      if i :| 0 <= i < |buf| && buf[i] != 0 {
        var k := LbnBytes.Spot(i, |buf|, lsbyte, big);
        assert LbnBytes.NumByte(v', k) == buf[i];
      }
      if k: nat :| 4 * n <= k && !(lsbyte <= k < lsbyte + |buf|) && LbnBytes.NumByte(v, k) != 0 {
        assert LbnBytes.NumByte(v', k) != 0;
      }
    }
  }

  /** Zero bytes put above the number are not there to be read back: a zero inserted at byte 8 of the number 5. */
  lemma ZerosAreLost()
    ensures !Covers(5, [0], 8)
  {
    forall k: nat | k >= 4 ensures LbnBytes.NumByte(5, k) == 0 {
      TwoPow32();
      LbnBytes.NoBytesAbove(5, 1, k);
    }
  }

  lemma Parity(s: seq<word>)
    ensures Val(s) % 2 == if s == [] then 0 else s[0] % 2
  {
    if s != [] { LbnMont.LowBit(s); }
  }

  lemma IsTwo(s: seq<word>)
    requires s == [] || s[|s| - 1] != 0
    ensures Val(s) == 2 <==> |s| == 1 && s[0] == 2
  {
    WordLenOf(s);
    if |s| == 1 { assert s[1..] == []; }
    if Val(s) == 2 { assert WordLen(2) == 1 + WordLen(0); }
  }

  lemma TwoIsResult(e: nat, m: nat)
    requires e > 0 && m > 1 && m % 2 == 1
    ensures ExpResult(2, e, m) == Pow(2, e) % m
  {
    PowAt0(2);
    if e == 1 { DivModUnique(2, m, 0, 2); }
  }

  lemma BorrowedLow(s: seq<word>, v: nat, src: word)
    requires s != [] && Val(s) + src == v + Up(1, |s|) && v < src
    ensures Lo(-(s[0] as int)) == src - v
  {
    var k := |s| - 1;
    assert Up(1, |s|) == B * Up(1, k);
    assert s[0] as int - (B - (src - v)) == B * (Up(1, k) - 1 - Val(s[1..]));
    DivModUnique(s[0], B, 0, s[0]);
    DivModUnique(s[0], B, Up(1, k) - 1 - Val(s[1..]), B - (src - v));
    DivModUnique(-(s[0] as int), B, -1, src - v);
  }

  /** Without leading zero words, the longer number is the larger one. */
  lemma LongerIsLarger(s: seq<word>, t: seq<word>)
    requires |s| < |t| && t[|t| - 1] != 0
    ensures Val(s) < Val(t)
  {
    hide Val, Up;
    ValBound(s);
    var k := |t| - 1;
    ValGrow(t, 0, k);
    assert t[0..k + 1] == t;
    ValBound(t[0..k]);
    UpMonotone(1, t[k], k);
    UpBits(|s|);
    UpBits(k);
    PowMonotone(2, 32 * |s|, 32 * k);
  }

  lemma NonEmpty(s: seq<word>)
    requires Val(s) > 0
    ensures s != []
  {}
}
