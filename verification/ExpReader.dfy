/** Reading an exponent's bits from the top, as the exponentiation loops do with a word count and a bit mask. */
module ExpReader {
  import opened Arith
  import opened Words
  import opened LbnBasic
  import opened Window

  /** The reader has r bits left: the next one is under mask bitpos in word elen - 1. */
  ghost predicate Reader(elen: nat, bitpos: int, r: nat) {
    if r == 0 then elen == 0 && bitpos == Two(31)
    else elen == (r - 1) / 32 + 1 && bitpos == Two((r - 1) % 32)
  }

  /** A bit read from its word is the bit of the number. */
  lemma BitOfWord(s: seq<word>, p: nat)
    requires p < 32 * |s|
    ensures (Val(s) / Two(p)) % 2 == (s[p / 32] / Two(p % 32)) % 2
  {
    hide Two, Val;
    var i, j := p / 32, p % 32;
    var high := Val(s[i + 1..]);
    ValSplit(s, i);
    ValBound(s[..i]);
    assert Val(s[i..]) == s[i] + B * high
      by { ValCons(s, i, |s|); assert s[i..|s|] == s[i..] && s[i + 1..|s|] == s[i + 1..]; }
    WordPower(i);
    UpIsProduct(Val(s[i..]), i);
    UpIsProduct(1, i);
    DivModUnique(Val(s), Two(32 * i), Val(s[i..]), Val(s[..i]));
    TwoAdd(32 * i, j);
    DivDiv(Val(s), Two(32 * i), Two(j));
    HighBits(s[i], high, j);
  }

  lemma WordPower(i: nat)
    ensures Up(1, i) == Two(32 * i)
  {
    UpBits(i);
  }

  lemma HighBits(x: word, high: int, j: nat)
    requires j < 32
    ensures ((x + B * high) / Two(j)) % 2 == (x / Two(j)) % 2
  {
    hide Two;
    var p, q := Two(j), Two(31 - j);
    assert B == p * (2 * q) by {
      TwoAdd(j, 32 - j);
      TwoNext(31 - j);
      assert Two(32) == B by { TwoPow32(); TwoIs(32); }
    }
    assert x == (x / p) * p + x % p;
    assert x + B * high == (x / p + 2 * q * high) * p + x % p by {
      assert B * high == 2 * q * high * p;
      assert (x / p + 2 * q * high) * p == (x / p) * p + 2 * q * high * p;
    }
    DivModUnique(x + B * high, p, x / p + 2 * q * high, x % p);
    assert 2 * q * high == 2 * (q * high);
    ModOf(x / p, q * high, 2);
  }

  lemma TwoIs(k: nat)
    ensures Two(k) == Pow(2, k)
  {}

  lemma ReaderStart(len: nat, ebits: nat)
    requires 0 < ebits <= 32 * len && 32 * (len - 1) < ebits
    ensures Reader(len, Two((ebits - 1) % 32), ebits)
  {}

  lemma ReaderEmpty(elen: nat, bitpos: int, r: nat)
    requires Reader(elen, bitpos, r)
    ensures elen == 0 <==> r == 0
  {}

  /** Halving the mask moves to the next lower bit; from the lowest bit it reaches zero. */
  lemma MaskMoves(r: nat)
    requires r > 0
    ensures var w, b := (r - 1) / 32, (r - 1) % 32;
      && (b == 0 ==> Two(b) / 2 == 0 && (r > 1 ==> (r - 2) / 32 == w - 1 && (r - 2) % 32 == 31))
      && (b > 0 ==> Two(b) / 2 == Two(b - 1) > 0 && (r - 2) / 32 == w && (r - 2) % 32 == b - 1)
  {
    hide Two;
    var w, b := (r - 1) / 32, (r - 1) % 32;
    assert r - 1 == 32 * w + b;
    if b == 0 {
      TwoNext(0);
      if r > 1 { DivModUnique(r - 2, 32, w - 1, 31); }
    } else {
      TwoNext(b - 1);
      DivModUnique(r - 2, 32, w, b - 1);
    }
  }

  /** Moves the bit mask past the current bit, into the next word if need be. */
  method Advance(elen: nat, bitpos: int, ghost r: nat) returns (elen': nat, bitpos': int)
    requires r > 0 && Reader(elen, bitpos, r)
    ensures Reader(elen', bitpos', r - 1)
  {
    hide Two;
    MaskMoves(r);
    elen', bitpos' := elen, bitpos / 2;
    if bitpos' == 0 {
      bitpos' := 0x8000_0000;
      elen' := elen - 1;
    }
    assert Two(31) == 0x8000_0000 by { TwoPow32(); TwoIs(32); TwoNext(31); }
  }

  /** The bit under the mask. */
  method Peek(e: array<word>, elen: nat, bitpos: int, ghost len: nat, ghost r: nat) returns (bit: nat)
    requires 0 < r <= 32 * len && Reader(elen, bitpos, r) && len <= e.Length
    ensures bit == (Val(e[..len]) / Two(r - 1)) % 2
  {
    hide Two, Val;
    bit := (e[elen - 1] / bitpos) % 2;
    BitOfWord(e[..len], r - 1);
  }

  /** Reads one bit and moves on; past the end nothing is read and the bit is zero. */
  method ReadBit(e: array<word>, elen: nat, bitpos: int, ghost len: nat, ghost r: nat)
    returns (bit: nat, elen': nat, bitpos': int)
    requires Reader(elen, bitpos, r) && r <= 32 * len && len <= e.Length
    ensures Reader(elen', bitpos', if r == 0 then 0 else r - 1)
    ensures bit == if r == 0 then 0 else (Val(e[..len]) / Two(r - 1)) % 2
  {
    hide Two, Val, Reader;
    ReaderEmpty(elen, bitpos, r);
    bit, elen', bitpos' := 0, elen, bitpos;
    if elen != 0 {
      bit := Peek(e, elen, bitpos, len, r);
      elen', bitpos' := Advance(elen, bitpos, r);
    }
  }
}
