/**
 * Columns of four bytes, the finite-field multiples that the AES tables hold, and the column mixes built from them.
 * A 32-bit word of the program is a column; its byte order within the word does not matter here.
 */
module AesField {
  type byte = bv8

  /** Addition in GF(2^8), kept under a name of its own so that proofs can treat it as an abstract group operation. */
  function Add(x: byte, y: byte): byte { x ^ y }

  function Sum3(x: byte, y: byte, z: byte): byte { Add(Add(x, y), z) }
  function Sum4(x: byte, y: byte, z: byte, w: byte): byte { Add(Add(x, y), Add(z, w)) }

  lemma Comm(x: byte, y: byte)
    ensures Add(x, y) == Add(y, x)
  {}

  lemma Assoc(x: byte, y: byte, z: byte)
    ensures Add(Add(x, y), z) == Add(x, Add(y, z))
  {}

  lemma Self(x: byte)
    ensures Add(x, x) == 0 && Add(x, 0) == x && Add(0, x) == x
  {}

  lemma Regroup2(a: byte, a': byte, b: byte, b': byte)
    ensures Add(Add(a, a'), Add(b, b')) == Add(Add(a, b), Add(a', b'))
  {
    hide Add;
    Assoc(a, a', Add(b, b'));
    Assoc(a', b, b');
    Comm(a', b);
    Assoc(b, a', b');
    Assoc(a, b, Add(a', b'));
  }

  lemma Cancel(x: byte, y: byte, z: byte)
    ensures Add(Add(x, y), Add(y, z)) == Add(x, z) && Add(Add(x, y), Add(z, y)) == Add(x, z)
    ensures Add(Add(y, x), Add(y, z)) == Add(x, z) && Add(Add(y, x), Add(z, y)) == Add(x, z)
  {
    hide Add;
    Comm(y, z);
    Comm(x, y);
    Regroup2(x, y, z, y);
    Self(y);
    Self(Add(x, z));
  }

  lemma Undo(x: byte, y: byte)
    ensures Add(Add(x, y), y) == x && Add(Add(x, y), x) == y && Add(x, Add(y, x)) == y && Add(x, Add(x, y)) == y
  {
    hide Add;
    Comm(x, y);
    Assoc(x, y, y);
    Assoc(y, x, x);
    Self(x);
    Self(y);
    Comm(x, Add(x, y));
  }

  /** A sum of three with any one of them first. */
  lemma Rotate(x: byte, y: byte, z: byte)
    ensures Sum3(x, y, z) == Add(x, Add(y, z)) == Add(y, Add(x, z)) == Add(Add(x, y), z)
  {
    hide Add;
    Assoc(x, y, z);
    Comm(x, y);
    Assoc(y, x, z);
  }

  lemma Regroup3(a: byte, a': byte, b: byte, b': byte, c: byte, c': byte)
    ensures Sum3(Add(a, a'), Add(b, b'), Add(c, c')) == Add(Sum3(a, b, c), Sum3(a', b', c'))
  {
    hide Add;
    Regroup2(a, a', b, b');
    Regroup2(Add(a, b), Add(a', b'), c, c');
  }

  lemma Regroup4(a: byte, a': byte, b: byte, b': byte, c: byte, c': byte, d: byte, d': byte)
    ensures Sum4(Add(a, a'), Add(b, b'), Add(c, c'), Add(d, d')) == Add(Sum4(a, b, c, d), Sum4(a', b', c', d'))
  {
    hide Add;
    Regroup2(a, a', b, b');
    Regroup2(c, c', d, d');
    Regroup2(Add(a, b), Add(a', b'), Add(c, d), Add(c', d'));
  }

  // ---- multiples of a byte in GF(2^8), as the table macros compute them ----

  function F2(x: byte): byte { (x << 1) ^ (((x >> 7) & 1) * 0x1b) }
  function F4(x: byte): byte { (x << 2) ^ (((x >> 6) & 1) * 0x1b) ^ (((x >> 6) & 2) * 0x1b) }
  function F8(x: byte): byte {
    (x << 3) ^ (((x >> 5) & 1) * 0x1b) ^ (((x >> 5) & 2) * 0x1b) ^ (((x >> 5) & 4) * 0x1b)
  }
  function F3(x: byte): byte { Add(F2(x), x) }
  function F9(x: byte): byte { Add(F8(x), x) }
  function FB(x: byte): byte { Sum3(F8(x), F2(x), x) }
  function FD(x: byte): byte { Sum3(F8(x), F4(x), x) }
  function FE(x: byte): byte { Sum3(F8(x), F4(x), F2(x)) }

  lemma F2Linear(x: byte, y: byte)
    ensures F2(Add(x, y)) == Add(F2(x), F2(y))
  {}

  lemma Twice(x: byte)
    ensures F4(x) == F2(F2(x)) && F8(x) == F2(F4(x))
  {}

  lemma Linear(x: byte, y: byte)
    ensures F9(Add(x, y)) == Add(F9(x), F9(y)) && FB(Add(x, y)) == Add(FB(x), FB(y))
    ensures FD(Add(x, y)) == Add(FD(x), FD(y)) && FE(Add(x, y)) == Add(FE(x), FE(y))
  {
    hide F2, F4, F8, Add, Sum3, Sum4;
    Twice(x);
    Twice(y);
    Twice(Add(x, y));
    F2Linear(x, y);
    F2Linear(F2(x), F2(y));
    F2Linear(F4(x), F4(y));
    Regroup2(F8(x), F8(y), x, y);
    Regroup3(F8(x), F8(y), F2(x), F2(y), x, y);
    Regroup3(F8(x), F8(y), F4(x), F4(y), x, y);
    Regroup3(F8(x), F8(y), F4(x), F4(y), F2(x), F2(y));
  }

  /** The products of the two coefficient matrices: 1 on the diagonal and 0 elsewhere. */
  lemma Coefficients(p: byte)
    ensures Sum4(FE(F2(p)), FB(p), FD(p), F9(F3(p))) == p
    ensures Sum4(FE(F3(p)), FB(F2(p)), FD(p), F9(p)) == 0
    ensures Sum4(FE(p), FB(F3(p)), FD(F2(p)), F9(p)) == 0
    ensures Sum4(FE(p), FB(p), FD(F3(p)), F9(F2(p))) == 0
  {
    hide F2, F4, F8, Add, Sum3, Sum4;
    Twice(p);
    Twice(F2(p));
    Linear(F2(p), p);
    var q := F2(p);
    var r := F2(q);
    var s := F2(r);
    var u := F2(s);
    Sums1(p, q, r, s, u);
    Sums2(p, q, r, s, u);
    Sums3(p, q, r, s, u);
    Sums4(p, q, r, s, u);
  }

  lemma Sums1(p: byte, q: byte, r: byte, s: byte, t: byte)
    ensures Sum4(Sum3(t, s, r), Sum3(s, q, p), Sum3(s, r, p), Add(Add(t, q), Add(s, p))) == p
  {
    hide Add, Sum3;
    var a := Add(t, q);
    Rotate(t, s, r);
    Rotate(s, q, p);
    Cancel(Add(t, r), s, Add(q, p));
    Rotate(s, r, p);
    Cancel(r, Add(s, p), a);
    Regroup2(t, r, q, p);
    Cancel(Add(r, p), a, r);
    Undo(r, p);
  }

  lemma Sums2(p: byte, q: byte, r: byte, s: byte, t: byte)
    ensures Sum4(Add(Sum3(t, s, r), Sum3(s, r, q)), Sum3(t, r, q), Sum3(s, r, p), Add(s, p)) == 0
  {
    hide Add, Sum3;
    Rotate(t, s, r);
    Rotate(s, r, q);
    Cancel(t, Add(s, r), q);
    Rotate(t, r, q);
    Undo(Add(t, q), r);
    Rotate(s, r, p);
    Undo(r, Add(s, p));
    Self(r);
  }

  lemma Sums3(p: byte, q: byte, r: byte, s: byte, t: byte)
    ensures Sum4(Sum3(s, r, q), Add(Sum3(t, r, q), Sum3(s, q, p)), Sum3(t, s, q), Add(s, p)) == 0
  {
    hide Add, Sum3;
    var x, y, z, w := Sum3(s, r, q), Add(Sum3(t, r, q), Sum3(s, q, p)), Sum3(t, s, q), Add(s, p);
    Regroup2(x, y, z, w);
    Rotate(t, r, q);
    Rotate(s, q, p);
    Comm(Add(t, r), q);
    Cancel(Add(t, r), q, w);
    Undo(Add(t, r), w);
    Rotate(s, r, q);
    Rotate(t, s, q);
    Cancel(Add(r, q), s, Add(t, q));
    Cancel(r, q, t);
    Comm(r, t);
    Self(Add(t, r));
  }

  lemma Sums4(p: byte, q: byte, r: byte, s: byte, t: byte)
    ensures Sum4(Sum3(s, r, q), Sum3(s, q, p), Add(Sum3(t, s, q), Sum3(s, r, p)), Add(t, q)) == 0
  {
    hide Add, Sum3;
    Rotate(s, r, q);
    Rotate(s, q, p);
    Cancel(r, Add(s, q), p);
    Rotate(t, s, q);
    Rotate(s, r, p);
    Cancel(Add(t, q), s, Add(r, p));
    Undo(Add(t, q), Add(r, p));
    Self(Add(r, p));
  }

  // ---- the table columns ----

  datatype Col = Col(b0: byte, b1: byte, b2: byte, b3: byte)

  const Zero := Col(0, 0, 0, 0)

  function Xor(x: Col, y: Col): Col {
    Col(Add(x.b0, y.b0), Add(x.b1, y.b1), Add(x.b2, y.b2), Add(x.b3, y.b3))
  }

  lemma XorComm(x: Col, y: Col)
    ensures Xor(x, y) == Xor(y, x)
  {
    hide Add;
    Comm(x.b0, y.b0); Comm(x.b1, y.b1); Comm(x.b2, y.b2); Comm(x.b3, y.b3);
  }

  lemma XorAssoc(x: Col, y: Col, z: Col)
    ensures Xor(Xor(x, y), z) == Xor(x, Xor(y, z))
  {
    hide Add;
    Assoc(x.b0, y.b0, z.b0); Assoc(x.b1, y.b1, z.b1); Assoc(x.b2, y.b2, z.b2); Assoc(x.b3, y.b3, z.b3);
  }

  lemma XorSelf(x: Col)
    ensures Xor(x, x) == Zero && Xor(x, Zero) == x && Xor(Zero, x) == x
  {
    hide Add;
    Self(x.b0); Self(x.b1); Self(x.b2); Self(x.b3);
  }

  function Xor4(x: Col, y: Col, z: Col, w: Col): Col {
    Xor(Xor(x, y), Xor(z, w))
  }

  function W0(p: byte): Col { Col(p, 0, 0, 0) }
  function W1(p: byte): Col { Col(0, p, 0, 0) }
  function W2(p: byte): Col { Col(0, 0, p, 0) }
  function W3(p: byte): Col { Col(0, 0, 0, p) }

  function U0(p: byte): Col { Col(F2(p), p, p, F3(p)) }
  function U1(p: byte): Col { Col(F3(p), F2(p), p, p) }
  function U2(p: byte): Col { Col(p, F3(p), F2(p), p) }
  function U3(p: byte): Col { Col(p, p, F3(p), F2(p)) }

  function V0(p: byte): Col { Col(FE(p), F9(p), FD(p), FB(p)) }
  function V1(p: byte): Col { Col(FB(p), FE(p), F9(p), FD(p)) }
  function V2(p: byte): Col { Col(FD(p), FB(p), FE(p), F9(p)) }
  function V3(p: byte): Col { Col(F9(p), FD(p), FB(p), FE(p)) }

  /** The forward column mix of a column. */
  function Mix(c: Col): Col { Xor4(U0(c.b0), U1(c.b1), U2(c.b2), U3(c.b3)) }

  /** The inverse column mix: four tables looked up with the column's own bytes. */
  function InvMix(c: Col): Col { Xor4(V0(c.b0), V1(c.b1), V2(c.b2), V3(c.b3)) }

  lemma InvMixBytes(c: Col)
    ensures InvMix(c) == Col(Sum4(FE(c.b0), FB(c.b1), FD(c.b2), F9(c.b3)), Sum4(F9(c.b0), FE(c.b1), FB(c.b2), FD(c.b3)),
                             Sum4(FD(c.b0), F9(c.b1), FE(c.b2), FB(c.b3)), Sum4(FB(c.b0), FD(c.b1), F9(c.b2), FE(c.b3)))
  {
    hide Add, F9, FB, FD, FE;
  }

  lemma InvMixLinear(x: Col, y: Col)
    ensures InvMix(Xor(x, y)) == Xor(InvMix(x), InvMix(y))
  {
    hide Add, Sum4, F9, FB, FD, FE, InvMix;
    InvMixBytes(x);
    InvMixBytes(y);
    InvMixBytes(Xor(x, y));
    Linear(x.b0, y.b0);
    Linear(x.b1, y.b1);
    Linear(x.b2, y.b2);
    Linear(x.b3, y.b3);
    Regroup4(FE(x.b0), FE(y.b0), FB(x.b1), FB(y.b1), FD(x.b2), FD(y.b2), F9(x.b3), F9(y.b3));
    Regroup4(F9(x.b0), F9(y.b0), FE(x.b1), FE(y.b1), FB(x.b2), FB(y.b2), FD(x.b3), FD(y.b3));
    Regroup4(FD(x.b0), FD(y.b0), F9(x.b1), F9(y.b1), FE(x.b2), FE(y.b2), FB(x.b3), FB(y.b3));
    Regroup4(FB(x.b0), FB(y.b0), FD(x.b1), FD(y.b1), F9(x.b2), F9(y.b2), FE(x.b3), FE(y.b3));
  }

  /** The inverse mix undoes the forward mix. */
  lemma InvMixMix(c: Col)
    ensures InvMix(Mix(c)) == c
  {
    hide InvMix, Add, U0, U1, U2, U3;
    var x, y, z, w := U0(c.b0), U1(c.b1), U2(c.b2), U3(c.b3);
    InvMixLinear(Xor(x, y), Xor(z, w));
    InvMixLinear(x, y);
    InvMixLinear(z, w);
    InvMixOfU(c.b0);
    InvMixOfU(c.b1);
    InvMixOfU(c.b2);
    InvMixOfU(c.b3);
    Self(c.b0);
    Self(c.b1);
    Self(c.b2);
    Self(c.b3);
    Self(0);
  }

  lemma InvMixOfU(p: byte)
    ensures InvMix(U0(p)) == W0(p) && InvMix(U1(p)) == W1(p) && InvMix(U2(p)) == W2(p) && InvMix(U3(p)) == W3(p)
  {
    hide InvMix, Sum4, F2, F3, F9, FB, FD, FE;
    Coefficients(p);
    InvMixBytes(U0(p));
    InvMixBytes(U1(p));
    InvMixBytes(U2(p));
    InvMixBytes(U3(p));
    RotateSums(FE(F2(p)), FB(p), FD(p), F9(F3(p)));
    RotateSums(FE(F3(p)), FB(F2(p)), FD(p), F9(p));
    RotateSums(FE(p), FB(F3(p)), FD(F2(p)), F9(p));
    RotateSums(FE(p), FB(p), FD(F3(p)), F9(F2(p)));
  }

  /** A sum of four does not change when its terms are rotated. */
  lemma RotateSums(x: byte, y: byte, z: byte, w: byte)
    ensures Sum4(x, y, z, w) == Sum4(w, x, y, z) == Sum4(z, w, x, y) == Sum4(y, z, w, x)
  {
    hide Add;
    Comm(Add(x, y), Add(z, w));
    Regroup2(w, x, y, z);
    Regroup2(x, y, w, z);
    Comm(w, x);
    Comm(w, y);
    Comm(y, z);
    Comm(w, z);
    Comm(Add(w, x), Add(y, z));
    Regroup2(x, w, y, z);
  }
}
