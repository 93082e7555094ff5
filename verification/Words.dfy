/** Little-endian arrays of 32-bit words and the natural numbers they denote. */
module Words {
  import opened Arith

  const B: int := 0x1_0000_0000

  type word = x: int | 0 <= x < B witness 0

  /** Truncation of an integer to its low word: the cast (BNWORD32)t. */
  function Lo(t: int): (w: word)
    ensures t == w + B * Hi(t)
  {
    t % B
  }

  /** The part of an integer above its low word: t >> 32. */
  function Hi(t: int): (h: int)
    ensures h * B <= t < (h + 1) * B
  {
    t / B
  }

  /** x moved up k words, that is x * B^k.  Keeping the product recursive keeps carry proofs linear. */
  function Up(x: int, k: nat): int {
    if k == 0 then x else B * Up(x, k - 1)
  }

  lemma {:induction false} UpAdd(x: int, y: int, k: nat)
    ensures Up(x + y, k) == Up(x, k) + Up(y, k)
  {
    if k > 0 { UpAdd(x, y, k - 1); }
  }

  lemma {:induction false} UpInner(x: int, k: nat)
    ensures Up(B * x, k) == Up(x, k + 1)
  {
    if k > 0 { UpInner(x, k - 1); }
  }

  lemma {:induction false} UpUp(x: int, j: nat, k: nat)
    ensures Up(Up(x, j), k) == Up(x, j + k)
  {
    if k > 0 { UpUp(x, j, k - 1); }
  }

  lemma {:induction false} UpMonotone(x: int, y: int, k: nat)
    ensures x <= y <==> Up(x, k) <= Up(y, k)
  {
    if k > 0 { UpMonotone(x, y, k - 1); }
  }

  lemma {:induction false} UpZero(k: nat)
    ensures Up(0, k) == 0
  {
    if k > 0 { UpZero(k - 1); }
  }

  lemma {:induction false} UpIsProduct(x: int, k: nat)
    ensures Up(x, k) == x * Pow(B, k)
  {
    if k > 0 {
      UpIsProduct(x, k - 1);
      assert B * (x * Pow(B, k - 1)) == x * (B * Pow(B, k - 1));
    }
  }

  /** The number a word sequence denotes, least significant word first. */
  function Val(s: seq<word>): (v: int)
  {
    if s == [] then 0 else s[0] + B * Val(s[1..])
  }

  lemma ValHead(s: seq<word>)
    requires s != []
    ensures Val(s) == s[0] + B * Val(s[1..])
  {}

  lemma ValCons(s: seq<word>, lo: nat, hi: nat)
    requires lo < hi <= |s|
    ensures Val(s[lo..hi]) == s[lo] + B * Val(s[lo + 1..hi])
  {
    assert s[lo..hi][1..] == s[lo + 1..hi];
  }

  lemma UpHead(x: int, k: nat)
    requires k > 0
    ensures Up(x, k) == B * Up(x, k - 1)
  {}

  lemma {:induction false} ValBound(s: seq<word>)
    ensures 0 <= Val(s) < Up(1, |s|)
  {
    if s != [] { ValBound(s[1..]); }
  }

  lemma {:induction false} ValAppend(s: seq<word>, t: seq<word>)
    ensures Val(s + t) == Val(s) + Up(Val(t), |s|)
  {
    if s == [] {
      assert s + t == t;
    } else {
      ValAppend(s[1..], t);
      assert (s + t)[1..] == s[1..] + t;
    }
  }

  lemma ValSplit(s: seq<word>, k: nat)
    requires k <= |s|
    ensures Val(s) == Val(s[..k]) + Up(Val(s[k..]), k)
  {
    assert s == s[..k] + s[k..];
    ValAppend(s[..k], s[k..]);
  }

  /** Extending a window of a sequence upwards by one word. */
  lemma ValGrow(s: seq<word>, o: nat, i: nat)
    requires o + i < |s|
    ensures Val(s[o..o + i + 1]) == Val(s[o..o + i]) + Up(s[o + i], i)
  {
    ValAppend(s[o..o + i], [s[o + i]]);
    assert s[o..o + i + 1] == s[o..o + i] + [s[o + i]];
    assert Val([s[o + i]]) == s[o + i];
  }

  lemma {:induction false} ValZero(s: seq<word>)
    requires forall i :: 0 <= i < |s| ==> s[i] == 0
    ensures Val(s) == 0
  {
    if s != [] { ValZero(s[1..]); }
  }

  /** One column of a carrying operation: the running identity moves up one word. */
  lemma CarryStep(low: int, lhs: int, i: nat, t: int, c: int, w: int, c': int)
    requires low + Up(c, i) == lhs
    requires t + c == w + B * c'
    ensures low + Up(w, i) + Up(c', i + 1) == lhs + Up(t, i)
  {
    UpAdd(t, c, i);
    UpInner(c', i);
    UpAdd(w, B * c', i);
  }

  lemma ValEmpty(s: seq<word>, o: nat)
    requires o <= |s|
    ensures Val(s[o..o]) == 0 && Up(0, 0) == 0
  {
    assert s[o..o] == [];
  }

  /** If two windows agree from word i up, their values differ by what their low parts differ. */
  lemma ValTail(s: seq<word>, t: seq<word>, o: nat, i: nat, len: nat)
    requires i <= len && o + len <= |s| == |t|
    requires forall k :: o + i <= k < o + len ==> s[k] == t[k]
    ensures Val(s[o..o + len]) - Val(s[o..o + i]) == Val(t[o..o + len]) - Val(t[o..o + i])
  {
    hide Val, Up;
    ValSplit(s[o..o + len], i);
    ValSplit(t[o..o + len], i);
    assert s[o..o + len][..i] == s[o..o + i] && t[o..o + len][..i] == t[o..o + i];
    assert s[o..o + len][i..] == t[o..o + len][i..];
  }

  // ---- shifts of single words ----

  function Shl(x: word, s: nat): word {
    Lo(x * Pow(2, s))
  }

  function Shr(x: word, s: nat): (r: word) {
    ShrBound(x, Pow(2, s));
    x / Pow(2, s)
  }

  lemma ShrBound(x: nat, p: int)
    requires p > 0
    ensures 0 <= x / p <= x
  {
    if x / p > x { Scale(x + 1, x / p, p); Scale(1, p, x + 1); }
  }

  lemma TwoPow32()
    ensures Pow(2, 32) == B
  {
    assert Pow(2, 8) == 256;
    PowAdd(2, 8, 8);
    PowAdd(2, 16, 16);
  }

  /** The two halves a shift by p = 2^s cuts a word into, where p * q is the word base. */
  lemma ShiftParts(x: nat, p: int, q: int, m: int)
    requires p > 0 && q > 0 && p * q == m && x < m
    ensures x * p == (x % q) * p + m * (x / q)
    ensures 0 <= (x % q) * p <= m - p
    ensures 0 <= x / q < p
  {
    var h, l := x / q, x % q;
    assert x == q * h + l;
    calc {
      x * p;
      (q * h + l) * p;
      q * h * p + l * p;
      { assert q * h * p == (p * q) * h; }
      m * h + l * p;
    }
    Scale(l, q - 1, p);
    assert (q - 1) * p == m - p;
    if h >= p { Scale(p, h, q); }
  }

  /** A left shift keeps the low part and leaves room below; the right shift keeps the rest. */
  lemma ShlShr(x: word, s: nat)
    requires s <= 32
    ensures x * Pow(2, s) == Shl(x, s) + B * Shr(x, 32 - s)
    ensures Shl(x, s) <= B - Pow(2, s)
    ensures Shr(x, 32 - s) < Pow(2, s)
  {
    var p, q := Pow(2, s), Pow(2, 32 - s);
    TwoPow32();
    PowAdd(2, s, 32 - s);
    ShiftParts(x, p, q, B);
    DivModUnique(x * p, B, x / q, (x % q) * p);
  }

  lemma {:induction false} UpBits(k: nat)
    ensures Up(1, k) == Pow(2, 32 * k)
  {
    if k > 0 {
      UpBits(k - 1);
      TwoPow32();
      PowAdd(2, 32, 32 * (k - 1));
    }
  }

  /** The highest differing word decides the order of two numbers. */
  lemma ValOrder(x: seq<word>, y: seq<word>, i: nat)
    requires i < |x| == |y| && x[i] < y[i] && x[i + 1..] == y[i + 1..]
    ensures Val(x) < Val(y)
  {
    hide Val, Up;
    ValSplit(x, i);
    ValSplit(y, i);
    assert x[i..][1..] == x[i + 1..] && y[i..][1..] == y[i + 1..];
    ValHead(x[i..]);
    ValHead(y[i..]);
    UpMonotone(Val(x[i..]) + 1, Val(y[i..]), i);
    UpAdd(Val(x[i..]), 1, i);
    ValBound(x[..i]);
    ValBound(y[..i]);
  }

  lemma ValHigh(s: seq<word>, k: nat)
    requires k <= |s| && forall i :: k <= i < |s| ==> s[i] == 0
    ensures Val(s) == Val(s[..k])
  {
    ValSplit(s, k);
    ValZero(s[k..]);
    UpZero(k);
  }

  /** Numbers of equal length with equal values have equal words. */
  lemma {:induction false} ValInjective(s: seq<word>, t: seq<word>)
    requires |s| == |t| && Val(s) == Val(t)
    ensures s == t
  {
    if s != [] {
      DivModUnique(Val(s), B, Val(s[1..]), s[0]);
      DivModUnique(Val(t), B, Val(t[1..]), t[0]);
      ValInjective(s[1..], t[1..]);
      assert s == [s[0]] + s[1..] && t == [t[0]] + t[1..];
    }
  }
}
