/** The block operations on a key context: unrolled rounds entered by a fall-through switch. */
module AesBlock {
  import opened AesField
  import opened AesCipher
  import opened AesStandard

  const KS_LENGTH := 60

  /** A key schedule and the field that holds 16 times the number of rounds; 0 before a key is set. */
  class Context {
    const ks: array<Col>
    var inf: nat

    constructor ()
      ensures fresh(ks) && Valid() && inf == 0
    {
      ks := new Col[KS_LENGTH](_ => Zero);
      inf := 0;
    }

    ghost predicate Valid() { ks.Length == KS_LENGTH }

    predicate Keyed()
      reads this
    {
      inf == 10 * 16 || inf == 12 * 16 || inf == 14 * 16
    }
  }

  function Out(s: State): (b: seq<byte>)
    ensures |b| == 16 && Columns(b) == s
  {
    [s.c0.b0, s.c0.b1, s.c0.b2, s.c0.b3, s.c1.b0, s.c1.b1, s.c1.b2, s.c1.b3,
     s.c2.b0, s.c2.b1, s.c2.b2, s.c2.b3, s.c3.b0, s.c3.b1, s.c3.b2, s.c3.b3]
  }

  lemma OutIn(b: seq<byte>)
    requires |b| == 16
    ensures Out(Columns(b)) == b
  {}

  /** Encryption and decryption are those of the standard. */
  lemma StandardOut(b: Boxes, w: seq<Col>, s: Bytes, n: nat)
    requires 0 < n && 4 * n + 4 <= |w|
    ensures Out(Encrypted(b, w, Columns(s), n)) == Cipher(b, Flat(w), s, n)
    ensures Out(Decrypted(b, w, Columns(s), n)) == InvCipher(b, Flat(w), s, n)
  {
    hide Encrypted, Decrypted, Out, Columns, Flat, Cipher, InvCipher;
    CipherIsStandard(b, w, s, n);
    InvCipherIsStandard(b, w, s, n);
    OutIn(Cipher(b, Flat(w), s, n));
    OutIn(InvCipher(b, Flat(w), s, n));
  }

  /** The four schedule words from position kp on. */
  method KeyAt(ks: array<Col>, kp: nat) returns (k: State)
    requires kp + 4 <= ks.Length
    ensures k == State(ks[kp], ks[kp + 1], ks[kp + 2], ks[kp + 3])
  {
    k := State(ks[kp], ks[kp + 1], ks[kp + 2], ks[kp + 3]);
  }

  lemma EncryptingStart(b: Boxes, w: seq<Col>, s: State)
    requires 4 <= |w|
    ensures Encrypting(b, w, s, 0) == AddKey(s, State(w[0], w[1], w[2], w[3]))
  {}

  /** Two rounds, through the second state variable and back. */
  method FwdTwo(b: Boxes, ks: array<Col>, kp: nat, x: State, ghost s: State, ghost r: nat) returns (y: State)
    requires kp == 4 * r && kp + 12 <= ks.Length && x == Encrypting(b, ks[..], s, r)
    ensures y == Encrypting(b, ks[..], s, r + 2)
  {
    hide FwdRound, Encrypting;
    var b1 := FwdOne(b, ks, kp + 4, x, false, s, r + 1);
    y := FwdOne(b, ks, kp + 8, b1, false, s, r + 2);
  }

  method FwdOne(b: Boxes, ks: array<Col>, kp: nat, x: State, last: bool, ghost s: State, ghost r: nat)
    returns (y: State)
    requires kp == 4 * r && r > 0 && kp + 4 <= ks.Length && x == Encrypting(b, ks[..], s, r - 1)
    ensures y == if last then Encrypted(b, ks[..], s, r) else Encrypting(b, ks[..], s, r)
  {
    hide FwdRound, FwdLast;
    var k := KeyAt(ks, kp);
    y := if last then FwdLast(b, x, k) else FwdRound(b, x, k);
  }

  method Encrypt(b: Boxes, cx: Context, input: seq<byte>) returns (ok: bool, output: seq<byte>)
    requires cx.Valid() && |input| == 16
    ensures ok <==> cx.Keyed()
    ensures ok ==> output == Out(Encrypted(b, cx.ks[..], Columns(input), cx.inf / 16))
    ensures ok ==> output == Cipher(b, Flat(cx.ks[..]), input, cx.inf / 16)
  {
    hide Encrypted, Columns, Out, Flat, Cipher;
    if cx.inf != 10 * 16 && cx.inf != 12 * 16 && cx.inf != 14 * 16 { return false, []; }
    var b0 := AllRounds(b, cx, Columns(input));
    StandardOut(b, cx.ks[..], input, cx.inf / 16);
    return true, Out(b0);
  }

  /** The switch on the number of rounds: longer keys enter it earlier. */
  method AllRounds(b: Boxes, cx: Context, s: State) returns (b0: State)
    requires cx.Valid() && cx.Keyed()
    ensures b0 == Encrypted(b, cx.ks[..], s, cx.inf / 16)
  {
    hide FwdRound, FwdLast, Encrypting, Encrypted;
    ghost var r := 0;
    var kp := 0;
    var k := KeyAt(cx.ks, kp);
    b0 := AddKey(s, k);
    EncryptingStart(b, cx.ks[..], s);
    if cx.inf == 14 * 16 {
      b0 := FwdTwo(b, cx.ks, kp, b0, s, r);
      kp, r := kp + 8, r + 2;
    }
    if cx.inf == 14 * 16 || cx.inf == 12 * 16 {
      b0 := FwdTwo(b, cx.ks, kp, b0, s, r);
      kp, r := kp + 8, r + 2;
    }
    b0 := FwdTwo(b, cx.ks, kp, b0, s, r);
    b0 := FwdTwo(b, cx.ks, kp + 8, b0, s, r + 2);
    b0 := FwdTwo(b, cx.ks, kp + 16, b0, s, r + 4);
    b0 := FwdTwo(b, cx.ks, kp + 24, b0, s, r + 6);
    var b1 := FwdOne(b, cx.ks, kp + 36, b0, false, s, r + 9);
    b0 := FwdOne(b, cx.ks, kp + 40, b1, true, s, r + 10);
  }

  // ---- decryption ----

  /** Where word i of a schedule of 4n + 4 words is stored: in place, or with the round keys in reverse order. */
  function Slot(n: nat, i: nat, rev: bool): (j: nat)
    requires i < 4 * n + 4
    ensures j < 4 * n + 4
  {
    if rev then 4 * n - i + 2 * (i % 4) else i
  }

  /** The stored schedule in encryption order. */
  ghost function Stored(ks: seq<Col>, n: nat, rev: bool): (d: seq<Col>)
    requires 4 * n + 4 <= |ks|
    ensures |d| == 4 * n + 4 && forall i :: 0 <= i < 4 * n + 4 ==> d[i] == ks[Slot(n, i, rev)]
  {
    seq(4 * n + 4, i requires 0 <= i < 4 * n + 4 => ks[Slot(n, i, rev)])
  }

  /** The key of round r: offsets count from the end of the schedule when it is reversed. */
  method RoundKey(ks: array<Col>, n: nat, r: nat, rev: bool) returns (k: State)
    requires r <= n && 4 * n + 4 <= ks.Length
    ensures k == Key(Stored(ks[..], n, rev), r)
  {
    k := KeyAt(ks, if rev then 4 * n - 4 * r else 4 * r);
    SlotOfKey(n, r, 0, rev);
    SlotOfKey(n, r, 1, rev);
    SlotOfKey(n, r, 2, rev);
    SlotOfKey(n, r, 3, rev);
    hide Slot;
  }

  lemma SlotOfKey(n: nat, r: nat, c: nat, rev: bool)
    requires r <= n && c < 4
    ensures Slot(n, 4 * r + c, rev) == (if rev then 4 * n - 4 * r else 4 * r) + c
  {
    assert (4 * r + c) % 4 == c;
  }

  method InvOne(b: Boxes, ks: array<Col>, n: nat, r: nat, rev: bool, x: State, ghost s: State) returns (y: State)
    requires r < n && 4 * n + 4 <= ks.Length && x == Decrypting(b, Stored(ks[..], n, rev), s, n, n - 1 - r)
    ensures y == if r == 0 then Decrypted(b, Stored(ks[..], n, rev), s, n)
      else Decrypting(b, Stored(ks[..], n, rev), s, n, n - r)
  {
    hide InvRound, InvLast, Stored, Key;
    var k := RoundKey(ks, n, r, rev);
    y := if r == 0 then InvLast(b, x, k) else InvRound(b, x, k);
  }

  method InvTwo(b: Boxes, ks: array<Col>, n: nat, r: nat, rev: bool, x: State, ghost s: State) returns (y: State)
    requires 1 < r < n && 4 * n + 4 <= ks.Length && x == Decrypting(b, Stored(ks[..], n, rev), s, n, n - 1 - r)
    ensures y == Decrypting(b, Stored(ks[..], n, rev), s, n, n + 1 - r)
  {
    hide Stored, Decrypting, Decrypted;
    var b1 := InvOne(b, ks, n, r, rev, x, s);
    y := InvOne(b, ks, n, r - 1, rev, b1, s);
  }

  /** Decrypts a block with a schedule stored in encryption order or with its round keys reversed. */
  method Decrypt(b: Boxes, cx: Context, input: seq<byte>, rev: bool) returns (ok: bool, output: seq<byte>)
    requires cx.Valid() && |input| == 16
    ensures ok <==> cx.Keyed()
    ensures ok ==> output == Out(Decrypted(b, Stored(cx.ks[..], cx.inf / 16, rev), Columns(input), cx.inf / 16))
    ensures ok ==> output == InvCipher(b, Flat(Stored(cx.ks[..], cx.inf / 16, rev)), input, cx.inf / 16)
  {
    hide Stored, Decrypted, Columns, Out, Flat, InvCipher;
    if cx.inf != 10 * 16 && cx.inf != 12 * 16 && cx.inf != 14 * 16 { return false, []; }
    var b0 := AllInvRounds(b, cx, Columns(input), rev);
    StandardOut(b, Stored(cx.ks[..], cx.inf / 16, rev), input, cx.inf / 16);
    return true, Out(b0);
  }

  method AllInvRounds(b: Boxes, cx: Context, s: State, rev: bool) returns (b0: State)
    requires cx.Valid() && cx.Keyed()
    ensures b0 == Decrypted(b, Stored(cx.ks[..], cx.inf / 16, rev), s, cx.inf / 16)
  {
    hide Stored, Key, Decrypting, Decrypted;
    var n := cx.inf / 16;
    var k := RoundKey(cx.ks, n, n, rev);
    b0 := AddKey(s, k);
    DecryptingStart(b, Stored(cx.ks[..], n, rev), s, n);
    if cx.inf == 14 * 16 { b0 := InvTwo(b, cx.ks, n, 13, rev, b0, s); }
    if cx.inf == 14 * 16 || cx.inf == 12 * 16 { b0 := InvTwo(b, cx.ks, n, 11, rev, b0, s); }
    b0 := InvTwo(b, cx.ks, n, 9, rev, b0, s);
    b0 := InvTwo(b, cx.ks, n, 7, rev, b0, s);
    b0 := InvTwo(b, cx.ks, n, 5, rev, b0, s);
    b0 := InvTwo(b, cx.ks, n, 3, rev, b0, s);
    var b1 := InvOne(b, cx.ks, n, 1, rev, b0, s);
    b0 := InvOne(b, cx.ks, n, 0, rev, b1, s);
  }

  lemma DecryptingStart(b: Boxes, d: seq<Col>, s: State, n: nat)
    requires 4 * n + 4 <= |d|
    ensures Decrypting(b, d, s, n, 0) == AddKey(s, Key(d, n))
  {}
}
