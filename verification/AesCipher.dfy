/** AES encryption and decryption of a block by table lookups, and the proof that one undoes the other. */
module AesCipher {
  import opened AesField

  /** A substitution on bytes and its inverse.  Nothing else about the S-box matters here. */
  datatype Boxes = Boxes(sub: byte -> byte, inv: byte -> byte) {
    ghost predicate Valid() { forall x: byte :: inv(sub(x)) == x }
  }

  datatype State = State(c0: Col, c1: Col, c2: Col, c3: Col)

  // ---- rounds ----

  /** The bytes that go into output column c of an encryption round: row r comes from column c + r. */
  function FwdCol(b: Boxes, w: Col, x: Col, y: Col, z: Col): Col {
    Col(b.sub(w.b0), b.sub(x.b1), b.sub(y.b2), b.sub(z.b3))
  }

  function FwdTables(b: Boxes, w: Col, x: Col, y: Col, z: Col): Col {
    Xor4(U0(b.sub(w.b0)), U1(b.sub(x.b1)), U2(b.sub(y.b2)), U3(b.sub(z.b3)))
  }

  function FwdRound(b: Boxes, s: State, k: State): State {
    State(Xor(k.c0, FwdTables(b, s.c0, s.c1, s.c2, s.c3)), Xor(k.c1, FwdTables(b, s.c1, s.c2, s.c3, s.c0)),
          Xor(k.c2, FwdTables(b, s.c2, s.c3, s.c0, s.c1)), Xor(k.c3, FwdTables(b, s.c3, s.c0, s.c1, s.c2)))
  }

  function FwdLastTables(b: Boxes, w: Col, x: Col, y: Col, z: Col): Col {
    Xor4(W0(b.sub(w.b0)), W1(b.sub(x.b1)), W2(b.sub(y.b2)), W3(b.sub(z.b3)))
  }

  function FwdLast(b: Boxes, s: State, k: State): State {
    State(Xor(k.c0, FwdLastTables(b, s.c0, s.c1, s.c2, s.c3)), Xor(k.c1, FwdLastTables(b, s.c1, s.c2, s.c3, s.c0)),
          Xor(k.c2, FwdLastTables(b, s.c2, s.c3, s.c0, s.c1)), Xor(k.c3, FwdLastTables(b, s.c3, s.c0, s.c1, s.c2)))
  }

  /** In a decryption round row r comes from column c - r. */
  function InvCol(b: Boxes, w: Col, x: Col, y: Col, z: Col): Col {
    Col(b.inv(w.b0), b.inv(x.b1), b.inv(y.b2), b.inv(z.b3))
  }

  function InvTables(b: Boxes, w: Col, x: Col, y: Col, z: Col): Col {
    Xor4(V0(b.inv(w.b0)), V1(b.inv(x.b1)), V2(b.inv(y.b2)), V3(b.inv(z.b3)))
  }

  function InvRound(b: Boxes, s: State, k: State): State {
    State(Xor(k.c0, InvTables(b, s.c0, s.c3, s.c2, s.c1)), Xor(k.c1, InvTables(b, s.c1, s.c0, s.c3, s.c2)),
          Xor(k.c2, InvTables(b, s.c2, s.c1, s.c0, s.c3)), Xor(k.c3, InvTables(b, s.c3, s.c2, s.c1, s.c0)))
  }

  function InvLastTables(b: Boxes, w: Col, x: Col, y: Col, z: Col): Col {
    Xor4(W0(b.inv(w.b0)), W1(b.inv(x.b1)), W2(b.inv(y.b2)), W3(b.inv(z.b3)))
  }

  function InvLast(b: Boxes, s: State, k: State): State {
    State(Xor(k.c0, InvLastTables(b, s.c0, s.c3, s.c2, s.c1)), Xor(k.c1, InvLastTables(b, s.c1, s.c0, s.c3, s.c2)),
          Xor(k.c2, InvLastTables(b, s.c2, s.c1, s.c0, s.c3)), Xor(k.c3, InvLastTables(b, s.c3, s.c2, s.c1, s.c0)))
  }

  function AddKey(s: State, k: State): State {
    State(Xor(s.c0, k.c0), Xor(s.c1, k.c1), Xor(s.c2, k.c2), Xor(s.c3, k.c3))
  }

  // ---- the cipher over a key schedule in encryption order ----

  function Key(w: seq<Col>, i: nat): State
    requires 4 * i + 4 <= |w|
  {
    State(w[4 * i], w[4 * i + 1], w[4 * i + 2], w[4 * i + 3])
  }

  /** The state after i encryption rounds. */
  function Encrypting(b: Boxes, w: seq<Col>, s: State, i: nat): State
    requires 4 * i + 4 <= |w|
  {
    if i == 0 then AddKey(s, Key(w, 0)) else FwdRound(b, Encrypting(b, w, s, i - 1), Key(w, i))
  }

  function Encrypted(b: Boxes, w: seq<Col>, s: State, n: nat): State
    requires 0 < n && 4 * n + 4 <= |w|
  {
    FwdLast(b, Encrypting(b, w, s, n - 1), Key(w, n))
  }

  /** The state after j of n decryption rounds, with decryption round keys in encryption order. */
  function Decrypting(b: Boxes, d: seq<Col>, s: State, n: nat, j: nat): State
    requires j <= n && 4 * n + 4 <= |d|
  {
    if j == 0 then AddKey(s, Key(d, n)) else InvRound(b, Decrypting(b, d, s, n, j - 1), Key(d, n - j))
  }

  function Decrypted(b: Boxes, d: seq<Col>, s: State, n: nat): State
    requires 0 < n && 4 * n + 4 <= |d|
  {
    InvLast(b, Decrypting(b, d, s, n, n - 1), Key(d, 0))
  }

  /**
   * The decryption schedule: the inverse mix of the encryption schedule, except for the first and the last round key.
   */
  ghost predicate DecryptionKeys(d: seq<Col>, w: seq<Col>, n: nat) {
    |d| >= 4 * n + 4 && |w| >= 4 * n + 4
    && forall i :: 0 <= i < 4 * n + 4 ==> d[i] == if 4 <= i < 4 * n then InvMix(w[i]) else w[i]
  }

  // ---- decryption undoes encryption ----

  /** Substitution and row shift alone. */
  function Shifted(b: Boxes, s: State): State {
    State(FwdCol(b, s.c0, s.c1, s.c2, s.c3), FwdCol(b, s.c1, s.c2, s.c3, s.c0), FwdCol(b, s.c2, s.c3, s.c0, s.c1),
          FwdCol(b, s.c3, s.c0, s.c1, s.c2))
  }

  function Unshifted(b: Boxes, s: State): State {
    State(InvCol(b, s.c0, s.c3, s.c2, s.c1), InvCol(b, s.c1, s.c0, s.c3, s.c2), InvCol(b, s.c2, s.c1, s.c0, s.c3),
          InvCol(b, s.c3, s.c2, s.c1, s.c0))
  }

  lemma UnshiftShift(b: Boxes, s: State)
    requires b.Valid()
    ensures Unshifted(b, Shifted(b, s)) == s
  {}

  function MixState(s: State): State { State(Mix(s.c0), Mix(s.c1), Mix(s.c2), Mix(s.c3)) }
  function InvMixState(s: State): State { State(InvMix(s.c0), InvMix(s.c1), InvMix(s.c2), InvMix(s.c3)) }

  /** The table-driven rounds are the textbook ones. */
  lemma RoundsAre(b: Boxes, s: State, k: State)
    ensures FwdRound(b, s, k) == AddKey(k, MixState(Shifted(b, s)))
    ensures InvRound(b, s, k) == AddKey(k, InvMixState(Unshifted(b, s)))
  {
    hide Xor, U0, U1, U2, U3, V0, V1, V2, V3;
  }

  lemma LastTables(p: byte, q: byte, r: byte, t: byte)
    ensures Xor4(W0(p), W1(q), W2(r), W3(t)) == Col(p, q, r, t)
  {
    hide Add;
    Self(p);
    Self(q);
    Self(r);
    Self(t);
    Self(0);
  }

  lemma LastRoundsAre(b: Boxes, s: State, k: State)
    ensures FwdLast(b, s, k) == AddKey(k, Shifted(b, s)) && InvLast(b, s, k) == AddKey(k, Unshifted(b, s))
  {
    hide Xor, Xor4, W0, W1, W2, W3;
    LastTables(b.sub(s.c0.b0), b.sub(s.c1.b1), b.sub(s.c2.b2), b.sub(s.c3.b3));
    LastTables(b.sub(s.c1.b0), b.sub(s.c2.b1), b.sub(s.c3.b2), b.sub(s.c0.b3));
    LastTables(b.sub(s.c2.b0), b.sub(s.c3.b1), b.sub(s.c0.b2), b.sub(s.c1.b3));
    LastTables(b.sub(s.c3.b0), b.sub(s.c0.b1), b.sub(s.c1.b2), b.sub(s.c2.b3));
    LastTables(b.inv(s.c0.b0), b.inv(s.c3.b1), b.inv(s.c2.b2), b.inv(s.c1.b3));
    LastTables(b.inv(s.c1.b0), b.inv(s.c0.b1), b.inv(s.c3.b2), b.inv(s.c2.b3));
    LastTables(b.inv(s.c2.b0), b.inv(s.c1.b1), b.inv(s.c0.b2), b.inv(s.c3.b3));
    LastTables(b.inv(s.c3.b0), b.inv(s.c2.b1), b.inv(s.c1.b2), b.inv(s.c0.b3));
  }

  lemma AddKeyTwice(s: State, k: State)
    ensures AddKey(AddKey(k, s), k) == s && AddKey(k, AddKey(s, k)) == s
  {
    hide Xor;
    XorUndo(s.c0, k.c0);
    XorUndo(s.c1, k.c1);
    XorUndo(s.c2, k.c2);
    XorUndo(s.c3, k.c3);
  }

  lemma XorUndo(x: Col, k: Col)
    ensures Xor(Xor(k, x), k) == x && Xor(k, Xor(x, k)) == x
  {
    hide Xor;
    XorComm(k, x);
    XorAssoc(x, k, k);
    XorSelf(k);
    XorSelf(x);
    XorComm(k, Xor(x, k));
  }

  /** With a mixed key, an inverse round takes the shifted state after a round to the shifted state before it. */
  lemma RoundBack(b: Boxes, s: State, k: State, d: State)
    requires b.Valid() && d == InvMixState(k)
    ensures InvRound(b, Shifted(b, FwdRound(b, s, k)), d) == Shifted(b, s)
  {
    var m := MixState(Shifted(b, s));
    RoundsAre(b, s, k);
    UnshiftShift(b, AddKey(k, m));
    RoundsAre(b, Shifted(b, AddKey(k, m)), d);
    hide Xor, InvMix, Mix, Shifted, Unshifted, FwdRound, InvRound;
    InvMixLinear(k.c0, m.c0);
    InvMixLinear(k.c1, m.c1);
    InvMixLinear(k.c2, m.c2);
    InvMixLinear(k.c3, m.c3);
    var t := Shifted(b, s);
    InvMixMix(t.c0);
    InvMixMix(t.c1);
    InvMixMix(t.c2);
    InvMixMix(t.c3);
    assert InvMixState(AddKey(k, m)) == AddKey(d, t);
    AddKeyTwice(t, d);
    AddKeyComm(d, AddKey(d, t));
  }

  lemma AddKeyComm(s: State, k: State)
    ensures AddKey(s, k) == AddKey(k, s)
  {
    hide Xor;
    XorComm(s.c0, k.c0);
    XorComm(s.c1, k.c1);
    XorComm(s.c2, k.c2);
    XorComm(s.c3, k.c3);
  }

  /** After j decryption rounds the state is the shifted state that encryption had with n - 1 - j rounds done. */
  lemma {:induction false} Backwards(b: Boxes, w: seq<Col>, d: seq<Col>, s: State, n: nat, j: nat)
    requires b.Valid() && 0 < n && j < n && DecryptionKeys(d, w, n)
    ensures Decrypting(b, d, Encrypted(b, w, s, n), n, j) == Shifted(b, Encrypting(b, w, s, n - 1 - j))
  {
    hide FwdRound, InvRound, FwdLast, Shifted, InvMix, AddKey;
    if j == 0 {
      LastRoundsAre(b, Encrypting(b, w, s, n - 1), Key(w, n));
      AddKeyTwice(Shifted(b, Encrypting(b, w, s, n - 1)), Key(w, n));
      assert Key(d, n) == Key(w, n);
    } else {
      Backwards(b, w, d, s, n, j - 1);
      var i := n - j;
      assert Key(d, i) == InvMixState(Key(w, i));
      RoundBack(b, Encrypting(b, w, s, i - 1), Key(w, i), Key(d, i));
    }
  }

  /** Decryption is the inverse of encryption, for any number of rounds. */
  lemma DecryptEncrypt(b: Boxes, w: seq<Col>, d: seq<Col>, s: State, n: nat)
    requires b.Valid() && 0 < n && DecryptionKeys(d, w, n)
    ensures Decrypted(b, d, Encrypted(b, w, s, n), n) == s
  {
    hide FwdRound, InvRound, FwdLast, InvLast, Shifted, Unshifted, InvMix, AddKey;
    Backwards(b, w, d, s, n, n - 1);
    var t := Encrypting(b, w, s, 0);
    LastRoundsAre(b, Shifted(b, t), Key(d, 0));
    UnshiftShift(b, t);
    assert Key(d, 0) == Key(w, 0);
    AddKeyTwice(s, Key(w, 0));
  }
}
