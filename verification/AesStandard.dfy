/** The cipher of FIPS 197 on bytes: 16 of them, column by column, in the order of the input. */
module AesStandard {
  import opened AesField
  import opened AesCipher

  // ---- the field of section 4 ----

  /** The product of two polynomials over GF(2), bit i standing for X^i. */
  function CarryLess(x: byte, y: byte): (p: bv16)
    ensures p < 0x8000
  {
    var p := x as bv16;
    (if y & 0x01 != 0 then p else 0) ^ (if y & 0x02 != 0 then p << 1 else 0)
    ^ (if y & 0x04 != 0 then p << 2 else 0) ^ (if y & 0x08 != 0 then p << 3 else 0)
    ^ (if y & 0x10 != 0 then p << 4 else 0) ^ (if y & 0x20 != 0 then p << 5 else 0)
    ^ (if y & 0x40 != 0 then p << 6 else 0) ^ (if y & 0x80 != 0 then p << 7 else 0)
  }

  /** Takes away a multiple of the modulus that has the given leading bit, if p has that bit. */
  function Reduce(p: bv16, bit: bv16, multiple: bv16): bv16 {
    if p & bit != 0 then p ^ multiple else p
  }

  /** The remainder by X^8 + X^4 + X^3 + X + 1. */
  function Remainder(p: bv16): byte
    requires p < 0x8000
  {
    var m: bv16 := 0x11b;
    var a := Reduce(Reduce(Reduce(p, 0x4000, m << 6), 0x2000, m << 5), 0x1000, m << 4);
    var r := Reduce(Reduce(Reduce(Reduce(a, 0x800, m << 3), 0x400, m << 2), 0x200, m << 1), 0x100, m);
    assert r < 0x100;
    r as byte
  }

  function Product(x: byte, y: byte): byte { Remainder(CarryLess(x, y)) }

  /** What the table macros compute are the products by 2, 3, 9, 11, 13 and 14. */
  lemma Multiples(x: byte)
    ensures F2(x) == Product(x, 2) && F3(x) == Product(x, 3)
    ensures F9(x) == Product(x, 9) && FB(x) == Product(x, 11) && FD(x) == Product(x, 13) && FE(x) == Product(x, 14)
  {
    hide Product, F9, FB, FD, FE, F2, F3;
    Times2(x);
    Times3(x);
    Times9(x);
    Times11(x);
    Times13(x);
    Times14(x);
  }

  // the bits that are shifted out decide what is reduced

  lemma Times2(x: byte)
    ensures F2(x) == Product(x, 2)
  {}

  lemma Times3(x: byte)
    ensures F3(x) == Product(x, 3)
  {}

  lemma Times9(x: byte)
    ensures F9(x) == Product(x, 9)
  {
    if x & 0x80 == 0 {
      if x & 0x40 == 0 {} else {}
    } else {
      if x & 0x40 == 0 {} else {}
    }
  }

  lemma Times11(x: byte)
    ensures FB(x) == Product(x, 11)
  {
    if x & 0x80 == 0 {
      if x & 0x40 == 0 {} else {}
    } else {
      if x & 0x40 == 0 {} else {}
    }
  }

  lemma Times13(x: byte)
    ensures FD(x) == Product(x, 13)
  {
    if x & 0x80 == 0 {
      if x & 0x40 == 0 {} else {}
    } else {
      if x & 0x40 == 0 {} else {}
    }
  }

  lemma Times14(x: byte)
    ensures FE(x) == Product(x, 14)
  {
    if x & 0x80 == 0 {
      if x & 0x40 == 0 {} else {}
    } else {
      if x & 0x40 == 0 {} else {}
    }
  }

  /** The example of section 4.2. */
  lemma ProductExample()
    ensures Product(0x57, 0x83) == 0xc1
  {}

  // ---- the transformations of sections 5.1 and 5.3, on byte r of column c at place 4c + r ----

  type Bytes = s: seq<byte> | |s| == 16 witness [0, 0, 0, 0, 0, 0, 0, 0, 0, 0, 0, 0, 0, 0, 0, 0]

  function SubBytes(sub: byte -> byte, s: Bytes): Bytes {
    seq(16, i requires 0 <= i < 16 => sub(s[i]))
  }

  /** Byte r of column c comes from column c + r. */
  function ShiftRows(s: Bytes): Bytes {
    seq(16, i requires 0 <= i < 16 => s[4 * ((i / 4 + i % 4) % 4) + i % 4])
  }

  /** Byte r of column c comes from column c - r. */
  function InvShiftRows(s: Bytes): Bytes {
    seq(16, i requires 0 <= i < 16 => s[4 * ((i / 4 + 4 - i % 4) % 4) + i % 4])
  }

  /** Byte j of the column that place i is in, counted on from place i. */
  function InColumn(s: Bytes, i: nat, j: nat): byte
    requires i < 16
  {
    s[4 * (i / 4) + (i % 4 + j) % 4]
  }

  function MixColumns(s: Bytes): Bytes {
    seq(16, i requires 0 <= i < 16 =>
      Sum4(Product(InColumn(s, i, 0), 2), Product(InColumn(s, i, 1), 3), InColumn(s, i, 2), InColumn(s, i, 3)))
  }

  function InvMixColumns(s: Bytes): Bytes {
    seq(16, i requires 0 <= i < 16 =>
      Sum4(Product(InColumn(s, i, 0), 14), Product(InColumn(s, i, 1), 11),
           Product(InColumn(s, i, 2), 13), Product(InColumn(s, i, 3), 9)))
  }

  /** Adds the key of a round, which is its 16 bytes of the schedule. */
  function AddRoundKey(s: Bytes, w: seq<byte>, round: nat): Bytes
    requires 16 * round + 16 <= |w|
  {
    seq(16, i requires 0 <= i < 16 => Add(s[i], w[16 * round + i]))
  }

  // ---- the cipher and its inverse ----

  /** The state after i rounds. */
  function Rounds(b: Boxes, w: seq<byte>, s: Bytes, i: nat): Bytes
    requires 16 * i + 16 <= |w|
  {
    if i == 0 then AddRoundKey(s, w, 0)
    else AddRoundKey(MixColumns(ShiftRows(SubBytes(b.sub, Rounds(b, w, s, i - 1)))), w, i)
  }

  function Cipher(b: Boxes, w: seq<byte>, s: Bytes, n: nat): Bytes
    requires 0 < n && 16 * n + 16 <= |w|
  {
    AddRoundKey(ShiftRows(SubBytes(b.sub, Rounds(b, w, s, n - 1))), w, n)
  }

  /** The state after j rounds of the equivalent inverse cipher of section 5.3.5. */
  function InvRounds(b: Boxes, w: seq<byte>, s: Bytes, n: nat, j: nat): Bytes
    requires j <= n && 16 * n + 16 <= |w|
  {
    if j == 0 then AddRoundKey(s, w, n)
    else AddRoundKey(InvMixColumns(InvShiftRows(SubBytes(b.inv, InvRounds(b, w, s, n, j - 1)))), w, n - j)
  }

  function InvCipher(b: Boxes, w: seq<byte>, s: Bytes, n: nat): Bytes
    requires 0 < n && 16 * n + 16 <= |w|
  {
    AddRoundKey(InvShiftRows(SubBytes(b.inv, InvRounds(b, w, s, n, n - 1))), w, 0)
  }

  // ---- the key expansion of section 5.2 ----

  /** Byte r of word i of a key schedule. */
  function WordByte(w: seq<byte>, i: nat, r: nat): byte
    requires 4 * i + r < |w|
  {
    w[4 * i + r]
  }

  /** What byte r of word i is combined with, for a key of nk words. */
  function Combined(sub: byte -> byte, rc: seq<Col>, nk: nat, w: seq<byte>, i: nat, r: nat): byte
    requires 0 < nk <= i && i / nk <= |rc| && r < 4 && 4 * i <= |w|
  {
    if i % nk == 0 then
      assert i / nk > 0 by { Whole(i, nk); }
      Add(sub(WordByte(w, i - 1, (r + 1) % 4)), ByteOf(rc[i / nk - 1], r))
    else if nk == 8 && i % 8 == 4 then sub(WordByte(w, i - 1, r))
    else WordByte(w, i - 1, r)
  }

  lemma Whole(i: nat, nk: nat)
    requires 0 < nk <= i
    ensures i / nk > 0
  {}

  /** w is the schedule of a key: it begins with the key, and every word follows from the ones before. */
  ghost predicate KeyExpansion(sub: byte -> byte, rc: seq<Col>, key: seq<byte>, w: seq<byte>) {
    var nk := |key| / 4;
    && (|key| == 16 || |key| == 24 || |key| == 32) && |w| == 4 * (|key| + 28) && w[..|key|] == key && |rc| == 10
    && forall i: nat, r: nat :: nk <= i < |key| + 28 && r < 4 ==> Follows(sub, rc, nk, w, i, r)
  }

  /** Byte r of word i is the byte one cycle before, with what it is combined with added. */
  ghost predicate Follows(sub: byte -> byte, rc: seq<Col>, nk: nat, w: seq<byte>, i: nat, r: nat)
    requires 0 < nk <= i && r < 4 && 4 * i + 4 <= |w|
  {
    i / nk <= |rc| && WordByte(w, i, r) == Add(WordByte(w, i - nk, r), Combined(sub, rc, nk, w, i, r))
  }

  /** d is the schedule for the equivalent inverse cipher: the round keys of w, mixed except for the first and last. */
  ghost predicate InverseSchedule(d: seq<byte>, w: seq<byte>, n: nat) {
    |d| >= 16 * n + 16 && |w| >= 16 * n + 16
    && forall i :: 0 <= i <= n ==>
         RoundBytes(d, i) == if 0 < i < n then InvMixColumns(RoundBytes(w, i)) else RoundBytes(w, i)
  }

  function RoundBytes(w: seq<byte>, i: nat): Bytes
    requires 16 * i + 16 <= |w|
  {
    w[16 * i..16 * i + 16]
  }

  // ---- columns as bytes ----

  function ByteOf(c: Col, r: nat): byte
    requires r < 4
  {
    if r == 0 then c.b0 else if r == 1 then c.b1 else if r == 2 then c.b2 else c.b3
  }

  /** The bytes of a key schedule. */
  function Flat(w: seq<Col>): (f: seq<byte>)
    ensures |f| == 4 * |w|
  {
    seq(4 * |w|, i requires 0 <= i < 4 * |w| => ByteOf(w[i / 4], i % 4))
  }

  lemma FlatAt(w: seq<Col>, i: nat, r: nat)
    requires i < |w| && r < 4
    ensures Flat(w)[4 * i + r] == ByteOf(w[i], r)
  {
    assert (4 * i + r) / 4 == i && (4 * i + r) % 4 == r;
  }

  /** The four columns of a block. */
  function Columns(s: Bytes): State {
    State(Col(s[0], s[1], s[2], s[3]), Col(s[4], s[5], s[6], s[7]), Col(s[8], s[9], s[10], s[11]),
          Col(s[12], s[13], s[14], s[15]))
  }

  lemma ShiftIs(b: Boxes, s: Bytes)
    ensures Shifted(b, Columns(s)) == Columns(ShiftRows(SubBytes(b.sub, s)))
    ensures Unshifted(b, Columns(s)) == Columns(InvShiftRows(SubBytes(b.inv, s)))
  {}

  lemma MixBytes(c: Col)
    ensures Mix(c) == Col(Sum4(F2(c.b0), F3(c.b1), c.b2, c.b3), Sum4(c.b0, F2(c.b1), F3(c.b2), c.b3),
                          Sum4(c.b0, c.b1, F2(c.b2), F3(c.b3)), Sum4(F3(c.b0), c.b1, c.b2, F2(c.b3)))
  {
    hide Add, F2, F3;
  }

  /** The mix of a column is the matrix of section 5.1.3. */
  lemma MixMatrix(c: Col)
    ensures Mix(c) == Col(Sum4(Product(c.b0, 2), Product(c.b1, 3), c.b2, c.b3),
                          Sum4(Product(c.b1, 2), Product(c.b2, 3), c.b3, c.b0),
                          Sum4(Product(c.b2, 2), Product(c.b3, 3), c.b0, c.b1),
                          Sum4(Product(c.b3, 2), Product(c.b0, 3), c.b1, c.b2))
  {
    hide Sum4, F2, F3, F9, FB, FD, FE, Product, Mix;
    MixBytes(c);
    Multiples(c.b0);
    Multiples(c.b1);
    Multiples(c.b2);
    Multiples(c.b3);
    RotateSums(F2(c.b1), F3(c.b2), c.b3, c.b0);
    RotateSums(F2(c.b2), F3(c.b3), c.b0, c.b1);
    RotateSums(F2(c.b3), F3(c.b0), c.b1, c.b2);
  }

  /** The inverse mix of a column is the matrix of section 5.3.3. */
  lemma InvMixMatrix(c: Col)
    ensures InvMix(c) == Col(Sum4(Product(c.b0, 14), Product(c.b1, 11), Product(c.b2, 13), Product(c.b3, 9)),
                             Sum4(Product(c.b1, 14), Product(c.b2, 11), Product(c.b3, 13), Product(c.b0, 9)),
                             Sum4(Product(c.b2, 14), Product(c.b3, 11), Product(c.b0, 13), Product(c.b1, 9)),
                             Sum4(Product(c.b3, 14), Product(c.b0, 11), Product(c.b1, 13), Product(c.b2, 9)))
  {
    hide Sum4, F2, F3, F9, FB, FD, FE, Product, InvMix;
    InvMixBytes(c);
    Multiples(c.b0);
    Multiples(c.b1);
    Multiples(c.b2);
    Multiples(c.b3);
    RotateSums(FE(c.b1), FB(c.b2), FD(c.b3), F9(c.b0));
    RotateSums(FE(c.b2), FB(c.b3), FD(c.b0), F9(c.b1));
    RotateSums(FE(c.b3), FB(c.b0), FD(c.b1), F9(c.b2));
  }

  lemma MixIs(s: Bytes)
    ensures MixState(Columns(s)) == Columns(MixColumns(s)) && InvMixState(Columns(s)) == Columns(InvMixColumns(s))
  {
    hide Mix, InvMix, Product, Sum4;
    var x := Columns(s);
    MixMatrix(x.c0);
    MixMatrix(x.c1);
    MixMatrix(x.c2);
    MixMatrix(x.c3);
    InvMixMatrix(x.c0);
    InvMixMatrix(x.c1);
    InvMixMatrix(x.c2);
    InvMixMatrix(x.c3);
  }

  lemma AddIs(s: Bytes, w: seq<Col>, i: nat)
    requires 4 * i + 4 <= |w|
    ensures AddKey(Columns(s), Key(w, i)) == Columns(AddRoundKey(s, Flat(w), i))
    ensures AddKey(Key(w, i), Columns(s)) == Columns(AddRoundKey(s, Flat(w), i))
  {
    hide AddKey, Key, Columns, Flat;
    AddKeyComm(Columns(s), Key(w, i));
    KeyIs(w, i);
    AddColumns(s, RoundBytes(Flat(w), i), Flat(w), i);
  }

  lemma KeyIs(w: seq<Col>, i: nat)
    requires 4 * i + 4 <= |w|
    ensures Key(w, i) == Columns(RoundBytes(Flat(w), i))
  {
    hide Flat;
    FlatWord(w, 4 * i);
    FlatWord(w, 4 * i + 1);
    FlatWord(w, 4 * i + 2);
    FlatWord(w, 4 * i + 3);
  }

  lemma AddColumns(s: Bytes, k: Bytes, w: seq<byte>, i: nat)
    requires 16 * i + 16 <= |w| && k == RoundBytes(w, i)
    ensures AddKey(Columns(s), Columns(k)) == Columns(AddRoundKey(s, w, i))
  {
    hide Add;
    var a := AddRoundKey(s, w, i);
    assert forall j :: 0 <= j < 16 ==> a[j] == Add(s[j], k[j]);
  }

  lemma FlatWord(w: seq<Col>, i: nat)
    requires i < |w|
    ensures var f := Flat(w); w[i] == Col(f[4 * i], f[4 * i + 1], f[4 * i + 2], f[4 * i + 3])
  {
    FlatAt(w, i, 0);
    FlatAt(w, i, 1);
    FlatAt(w, i, 2);
    FlatAt(w, i, 3);
  }

  /** The table-driven encryption is the cipher of section 5.1. */
  lemma {:induction false} RoundsAreStandard(b: Boxes, w: seq<Col>, s: Bytes, i: nat)
    requires 4 * i + 4 <= |w|
    ensures Encrypting(b, w, Columns(s), i) == Columns(Rounds(b, Flat(w), s, i))
  {
    hide FwdRound, Shifted, MixState, AddKey, Key, Columns, Flat, ShiftRows, SubBytes, MixColumns, AddRoundKey;
    if i == 0 {
      AddIs(s, w, 0);
    } else {
      RoundsAreStandard(b, w, s, i - 1);
      var t := Rounds(b, Flat(w), s, i - 1);
      RoundsAre(b, Columns(t), Key(w, i));
      ShiftIs(b, t);
      MixIs(ShiftRows(SubBytes(b.sub, t)));
      AddIs(MixColumns(ShiftRows(SubBytes(b.sub, t))), w, i);
    }
  }

  lemma CipherIsStandard(b: Boxes, w: seq<Col>, s: Bytes, n: nat)
    requires 0 < n && 4 * n + 4 <= |w|
    ensures Encrypted(b, w, Columns(s), n) == Columns(Cipher(b, Flat(w), s, n))
  {
    hide FwdLast, Shifted, AddKey, Key, Columns, Flat, ShiftRows, SubBytes, AddRoundKey, Encrypting, Rounds;
    RoundsAreStandard(b, w, s, n - 1);
    var t := Rounds(b, Flat(w), s, n - 1);
    LastRoundsAre(b, Columns(t), Key(w, n));
    ShiftIs(b, t);
    AddIs(ShiftRows(SubBytes(b.sub, t)), w, n);
  }

  /** The table-driven decryption is the equivalent inverse cipher of section 5.3.5. */
  lemma {:induction false} InvRoundsAreStandard(b: Boxes, d: seq<Col>, s: Bytes, n: nat, j: nat)
    requires j <= n && 4 * n + 4 <= |d|
    ensures Decrypting(b, d, Columns(s), n, j) == Columns(InvRounds(b, Flat(d), s, n, j))
  {
    hide InvRound, Unshifted, InvMixState, AddKey, Key, Columns, Flat, InvShiftRows, SubBytes, InvMixColumns;
    hide AddRoundKey;
    if j == 0 {
      AddIs(s, d, n);
    } else {
      InvRoundsAreStandard(b, d, s, n, j - 1);
      var t := InvRounds(b, Flat(d), s, n, j - 1);
      RoundsAre(b, Columns(t), Key(d, n - j));
      ShiftIs(b, t);
      MixIs(InvShiftRows(SubBytes(b.inv, t)));
      AddIs(InvMixColumns(InvShiftRows(SubBytes(b.inv, t))), d, n - j);
    }
  }

  lemma InvCipherIsStandard(b: Boxes, d: seq<Col>, s: Bytes, n: nat)
    requires 0 < n && 4 * n + 4 <= |d|
    ensures Decrypted(b, d, Columns(s), n) == Columns(InvCipher(b, Flat(d), s, n))
  {
    hide InvLast, Unshifted, AddKey, Key, Columns, Flat, InvShiftRows, SubBytes, AddRoundKey, Decrypting, InvRounds;
    InvRoundsAreStandard(b, d, s, n, n - 1);
    var t := InvRounds(b, Flat(d), s, n, n - 1);
    LastRoundsAre(b, Columns(t), Key(d, 0));
    ShiftIs(b, t);
    AddIs(InvShiftRows(SubBytes(b.inv, t)), d, 0);
  }
}
