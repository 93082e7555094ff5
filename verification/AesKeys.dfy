/** The key schedules. */
module AesKeys {
  import opened Arith
  import opened AesField
  import opened AesCipher
  import opened AesStandard
  import opened AesBlock

  // ---- group laws for columns ----

  lemma XorUndo2(x: Col, y: Col)
    ensures Xor(Xor(x, y), y) == x && Xor(Xor(x, y), x) == y && Xor(x, Xor(y, x)) == y && Xor(x, Xor(x, y)) == y
  {
    hide Xor;
    XorComm(x, y);
    XorAssoc(x, y, y);
    XorAssoc(y, x, x);
    XorSelf(x);
    XorSelf(y);
    XorComm(x, Xor(x, y));
  }

  // ---- the schedule of section 5.2 of FIPS 197 ----

  function SubWord(b: Boxes, x: Col): Col { Col(b.sub(x.b0), b.sub(x.b1), b.sub(x.b2), b.sub(x.b3)) }
  function RotWord(x: Col): Col { Col(x.b1, x.b2, x.b3, x.b0) }

  /** The S-box applied to a word whose bytes are rotated by c places, from tables. */
  function LsBox(b: Boxes, x: Col, c: nat): Col
    requires c == 0 || c == 3
  {
    if c == 0 then Xor4(W0(b.sub(x.b0)), W1(b.sub(x.b1)), W2(b.sub(x.b2)), W3(b.sub(x.b3)))
    else Xor4(W0(b.sub(x.b1)), W1(b.sub(x.b2)), W2(b.sub(x.b3)), W3(b.sub(x.b0)))
  }

  lemma LsBoxIs(b: Boxes, x: Col)
    ensures LsBox(b, x, 0) == SubWord(b, x) && LsBox(b, x, 3) == SubWord(b, RotWord(x))
  {
    LastTables(b.sub(x.b0), b.sub(x.b1), b.sub(x.b2), b.sub(x.b3));
    LastTables(b.sub(x.b1), b.sub(x.b2), b.sub(x.b3), b.sub(x.b0));
  }

  /** What a key schedule is made from: the S-box, the round constants and the key's words. */
  datatype Source = Source(b: Boxes, rc: seq<Col>, key: seq<Col>) {
    predicate Valid() { (|key| == 4 || |key| == 6 || |key| == 8) && |rc| == 10 }

    /** The number of rounds. */
    function Rounds(): nat { |key| + 6 }
  }

  /** Word i of the expanded key. */
  function Word(s: Source, i: nat): Col
    requires s.Valid() && i < 4 * s.Rounds() + 4
    decreases i, 0
  {
    if i < |s.key| then s.key[i] else Xor(Word(s, i - |s.key|), Temp(s, i))
  }

  /** What word i is combined with. */
  function Temp(s: Source, i: nat): Col
    requires s.Valid() && |s.key| <= i < 4 * s.Rounds() + 4
    decreases i, -1
  {
    var nk := |s.key|;
    if i % nk == 0 then Cycle(s, i); Xor(SubWord(s.b, RotWord(Word(s, i - 1))), s.rc[i / nk - 1])
    else if nk > 6 && i % nk == 4 then SubWord(s.b, Word(s, i - 1))
    else Word(s, i - 1)
  }

  /** There are at most ten cycles, so that the round constants suffice. */
  lemma Cycle(s: Source, i: nat)
    requires s.Valid() && |s.key| <= i < 4 * s.Rounds() + 4
    ensures 0 <= i / |s.key| - 1 < 10
  {
    if |s.key| == 4 {} else if |s.key| == 6 {} else {}
  }

  ghost function Expanded(s: Source): (w: seq<Col>)
    requires s.Valid()
    ensures |w| == 4 * s.Rounds() + 4 && forall i :: 0 <= i < |w| ==> w[i] == Word(s, i)
  {
    seq(4 * s.Rounds() + 4, i requires 0 <= i < 4 * s.Rounds() + 4 => Word(s, i))
  }

  /** The place of word j in its cycle of nk words. */
  function Place(j: nat, nk: nat): (c: nat)
    requires nk > 0
    ensures c < nk
  {
    j % nk
  }

  lemma Places(w: nat, nk: nat)
    requires (nk == 4 || nk == 6 || nk == 8) && w >= nk
    ensures Place(w - nk, nk) == Place(w, nk)
    ensures Place(w - 1, nk) == if Place(w, nk) == 0 then nk - 1 else Place(w, nk) - 1
    ensures Place(w, nk) == w % nk
  {
    var q, c := w / nk, w % nk;
    assert w == q * nk + c;
    assert (q - 1) * nk == q * nk - nk;
    hide Place;
    assert Place(w, nk) == c && forall j: nat :: Place(j, nk) == j % nk by { PlaceIs(nk); }
    DivModUnique(w - nk, nk, q - 1, c);
    if c == 0 {
      DivModUnique(w - 1, nk, q - 1, nk - 1);
    } else {
      DivModUnique(w - 1, nk, q, c - 1);
    }
  }

  lemma PlaceIs(nk: nat)
    requires nk > 0
    ensures forall j: nat :: Place(j, nk) == j % nk
  {}

  lemma PlacesDiffer(j: nat, w: nat, nk: nat)
    requires (nk == 4 || nk == 6 || nk == 8) && w - nk < j < w
    ensures Place(j, nk) != Place(w, nk)
  {
    if nk == 4 {} else if nk == 6 {} else {}
  }

  /** The working words hold the nk words of the schedule before word w, each in its place of the cycle. */
  ghost predicate Working(ss: seq<Col>, s: Source, w: nat) {
    s.Valid() && |s.key| <= w <= 4 * s.Rounds() + 4 && |ss| >= |s.key|
    && forall j :: w - |s.key| <= j < w ==> ss[Place(j, |s.key|)] == Word(s, j)
  }

  /** Advances the working words by one and returns what was combined in. */
  method NextWord(s: Source, ss: array<Col>, w: nat) returns (temp: Col)
    requires Working(ss[..], s, w) && w < 4 * s.Rounds() + 4
    modifies ss
    ensures Working(ss[..], s, w + 1) && temp == Temp(s, w) && ss[Place(w, |s.key|)] == Word(s, w)
    ensures forall c :: |s.key| <= c < ss.Length ==> ss[c] == old(ss[c])
  {
    hide Xor, Word, Place;
    var nk := |s.key|;
    Places(w, nk);
    var c := Place(w, nk);
    Cycle(s, w);
    assert ss[..][Place(w - nk, nk)] == Word(s, w - nk) && ss[..][Place(w - 1, nk)] == Word(s, w - 1);
    LsBoxIs(s.b, Word(s, w - 1));
    if c == 0 {
      temp := Xor(LsBox(s.b, ss[nk - 1], 3), s.rc[w / nk - 1]);
    } else if nk == 8 && c == 4 {
      temp := LsBox(s.b, ss[3], 0);
    } else {
      temp := ss[c - 1];
    }
    ghost var before := ss[..];
    ss[c] := Xor(ss[c], temp);
    WorkingNext(s, before, ss[..], w);
  }

  lemma WorkingNext(s: Source, ss: seq<Col>, ss': seq<Col>, w: nat)
    requires Working(ss, s, w) && w < 4 * s.Rounds() + 4
    requires var c := Place(w, |s.key|); ss' == ss[c := Xor(ss[c], Temp(s, w))]
    ensures Working(ss', s, w + 1) && ss'[Place(w, |s.key|)] == Word(s, w)
  {
    assert Word(s, w) == Xor(Word(s, w - |s.key|), Temp(s, w));
    hide Word, Temp, Xor, Place;
    Places(w, |s.key|);
    forall j | w + 1 - |s.key| <= j < w + 1 ensures ss'[Place(j, |s.key|)] == Word(s, j) {
      if j < w { PlacesDiffer(j, w, |s.key|); }
    }
  }

  /** The encryption key schedule. */
  method EncryptKey(s: Source, cx: Context)
    requires s.Valid() && cx.Valid()
    modifies cx, cx.ks
    ensures cx.inf == 16 * s.Rounds() && cx.ks[..4 * s.Rounds() + 4] == Expanded(s)
  {
    hide Xor, Word, Temp, Place, Working;
    var nk, n := |s.key|, s.Rounds();
    var ss := new Col[nk](i requires 0 <= i < nk => s.key[i]);
    forall i | 0 <= i < nk { cx.ks[i] := s.key[i]; }
    WorkingStart(s, ss[..]);
    var w := nk;
    while w < 4 * n + 4
      invariant nk <= w <= 4 * n + 4 && Working(ss[..], s, w)
      invariant forall j :: 0 <= j < w ==> cx.ks[j] == Word(s, j)
    {
      var temp := NextWord(s, ss, w);
      cx.ks[w] := ss[Place(w, nk)];
      w := w + 1;
    }
    cx.inf := n * 16;
  }

  lemma WorkingStart(s: Source, ss: seq<Col>)
    requires s.Valid() && ss[..] == s.key
    ensures Working(ss, s, |s.key|) && forall j :: 0 <= j < |s.key| ==> Word(s, j) == s.key[j]
  {}

  // ---- decryption schedules ----

  /** Word j of the decryption schedule: mixed, except in the first and the last round key. */
  function DecWord(s: Source, j: nat): Col
    requires s.Valid() && j < 4 * s.Rounds() + 4
  {
    if 4 <= j < 4 * s.Rounds() then InvMix(Word(s, j)) else Word(s, j)
  }

  /** The first w words of the decryption schedule are stored. */
  ghost predicate Filled(ks: seq<Col>, s: Source, w: nat, rev: bool) {
    s.Valid() && |ks| == KS_LENGTH && w <= 4 * s.Rounds() + 4
    && forall j :: 0 <= j < w ==> ks[Slot(s.Rounds(), j, rev)] == DecWord(s, j)
  }

  lemma SlotInjective(n: nat, i: nat, j: nat, rev: bool)
    requires i < 4 * n + 4 && j < 4 * n + 4 && i != j
    ensures Slot(n, i, rev) != Slot(n, j, rev)
  {
    if rev {
      var p, q := i / 4, j / 4;
      assert i == 4 * p + i % 4 && j == 4 * q + j % 4;
    }
  }

  lemma FilledNext(ks: seq<Col>, ks': seq<Col>, s: Source, w: nat, rev: bool, x: Col)
    requires Filled(ks, s, w, rev) && w < 4 * s.Rounds() + 4
    requires ks' == ks[Slot(s.Rounds(), w, rev) := x] && x == DecWord(s, w)
    ensures Filled(ks', s, w + 1, rev)
  {
    hide DecWord, Slot;
    forall j | 0 <= j < w + 1 ensures ks'[Slot(s.Rounds(), j, rev)] == DecWord(s, j) {
      if j < w { SlotInjective(s.Rounds(), j, w, rev); }
    }
  }

  method Store(s: Source, cx: Context, w: nat, rev: bool, x: Col)
    requires cx.Valid() && Filled(cx.ks[..], s, w, rev) && w < 4 * s.Rounds() + 4 && x == DecWord(s, w)
    modifies cx.ks
    ensures Filled(cx.ks[..], s, w + 1, rev)
  {
    hide DecWord, Slot;
    ghost var before := cx.ks[..];
    cx.ks[Slot(s.Rounds(), w, rev)] := x;
    FilledNext(before, cx.ks[..], s, w, rev, x);
  }

  /** A mixed word is the mixed word one cycle before, combined with the mix of what was combined in. */
  lemma MixedStep(s: Source, w: nat)
    requires s.Valid() && |s.key| <= w < 4 * s.Rounds() + 4
    ensures InvMix(Word(s, w)) == Xor(InvMix(Temp(s, w)), InvMix(Word(s, w - |s.key|)))
  {
    assert Word(s, w) == Xor(Word(s, w - |s.key|), Temp(s, w));
    hide Word, Temp, InvMix, Xor;
    InvMixLinear(Word(s, w - |s.key|), Temp(s, w));
    XorComm(InvMix(Word(s, w - |s.key|)), InvMix(Temp(s, w)));
  }

  /** The decryption schedule for 192-bit and 256-bit keys, mixing only what is new in each cycle. */
  method DecryptKeyLong(s: Source, cx: Context, rev: bool)
    requires s.Valid() && cx.Valid() && |s.key| > 4
    modifies cx, cx.ks
    ensures cx.inf == 16 * s.Rounds() && Filled(cx.ks[..], s, 4 * s.Rounds() + 4, rev)
  {
    hide Xor, Word, Temp, InvMix, Place, Filled, Working;
    var nk, n := |s.key|, s.Rounds();
    var ss := new Col[nk](i requires 0 <= i < nk => s.key[i]);
    WorkingStart(s, ss[..]);
    FilledStart(cx.ks[..], s, rev);
    var w := 0;
    while w < nk
      invariant 0 <= w <= nk && Filled(cx.ks[..], s, w, rev) && Working(ss[..], s, nk)
    {
      Store(s, cx, w, rev, if w < 4 then s.key[w] else InvMix(s.key[w]));
      w := w + 1;
    }
    var x := Zero;
    while w < 4 * n + 4
      invariant nk <= w <= 4 * n + 4 && Working(ss[..], s, w) && Filled(cx.ks[..], s, w, rev)
      invariant 2 * nk < w <= 4 * n ==> x == InvMix(Word(s, w - 1))
    {
      var temp := NextWord(s, ss, w);
      var y := ss[Place(w, nk)];
      if w < 2 * nk {
        y := InvMix(y);
      } else if w < 4 * n {
        var k := Fetch(s, cx, w - nk, w, rev);
        FirstOfCycle(s, w);
        x := Xor(if Place(w, nk) == 0 || (nk == 8 && Place(w, nk) == 4) then InvMix(temp) else x, k);
        MixedStep(s, w);
        y := x;
      }
      Store(s, cx, w, rev, y);
      w := w + 1;
    }
    cx.inf := n * 16;
  }

  lemma FilledStart(ks: seq<Col>, s: Source, rev: bool)
    requires s.Valid() && |ks| == KS_LENGTH
    ensures Filled(ks, s, 0, rev)
  {}

  method Fetch(s: Source, cx: Context, j: nat, ghost w: nat, rev: bool) returns (k: Col)
    requires cx.Valid() && Filled(cx.ks[..], s, w, rev) && j < w
    ensures k == DecWord(s, j)
  {
    hide DecWord, Slot;
    k := cx.ks[Slot(s.Rounds(), j, rev)];
  }

  /** Inside a cycle the word before is combined in; at the start of a cycle of six or eight words it is not. */
  lemma FirstOfCycle(s: Source, w: nat)
    requires s.Valid() && |s.key| > 4 && |s.key| <= w < 4 * s.Rounds() + 4
    ensures !(Place(w, |s.key|) == 0 || (|s.key| == 8 && Place(w, |s.key|) == 4)) ==> Temp(s, w) == Word(s, w - 1)
    ensures w == 2 * |s.key| ==> Place(w, |s.key|) == 0
  {
    if w == 2 * |s.key| { DivModUnique(w, |s.key|, 2, 0); }
  }

  // ---- the folded decryption schedule for 128-bit keys ----

  /**
   * What the working words of the folded schedule hold.  From t = 0 on it is the last word of cycle t + 1; the four
   * values before are the sums of key words that make every step a single addition.
   */
  function Fold(s: Source, t: int): Col
    requires s.Valid() && |s.key| == 4 && -4 <= t < 10
  {
    if t >= 0 then Word(s, 4 * t + 7)
    else if t == -1 then s.key[3]
    else if t == -2 then Xor(s.key[2], s.key[3])
    else if t == -3 then Xor(s.key[1], s.key[3])
    else Xor(Xor(Xor(s.key[0], s.key[2]), s.key[1]), s.key[3])
  }

  /** What cycle t + 1 starts with. */
  function Start(s: Source, t: nat): Col
    requires s.Valid() && |s.key| == 4 && t < 10
  {
    Temp(s, 4 * t + 4)
  }

  lemma StartIs(s: Source, t: nat)
    requires s.Valid() && |s.key| == 4 && t < 10
    ensures Start(s, t) == Xor(LsBox(s.b, Fold(s, t - 1), 3), s.rc[t])
  {
    LsBoxIs(s.b, Fold(s, t - 1));
    hide LsBox, Xor;
    assert (4 * t + 4) % 4 == 0 && (4 * t + 4) / 4 - 1 == t;
    assert t == 0 ==> Word(s, 3) == s.key[3];
  }

  /** The words of a cycle, each from the one before and the one four places back. */
  lemma CycleWords(s: Source, t: nat)
    requires s.Valid() && |s.key| == 4 && t < 10
    ensures Word(s, 4 * t + 4) == Xor(Word(s, 4 * t), Start(s, t))
    ensures Word(s, 4 * t + 5) == Xor(Word(s, 4 * t + 1), Word(s, 4 * t + 4))
    ensures Word(s, 4 * t + 6) == Xor(Word(s, 4 * t + 2), Word(s, 4 * t + 5))
    ensures Word(s, 4 * t + 7) == Xor(Word(s, 4 * t + 3), Word(s, 4 * t + 6))
  {
    hide Xor;
    assert (4 * t + 5) % 4 == 1 && (4 * t + 6) % 4 == 2 && (4 * t + 7) % 4 == 3;
  }

  /** The sum of the four words of cycle t. */
  function CycleSum(s: Source, t: nat): Col
    requires s.Valid() && |s.key| == 4 && t < 11
  {
    Xor(Xor(Word(s, 4 * t), Word(s, 4 * t + 2)), Xor(Word(s, 4 * t + 1), Word(s, 4 * t + 3)))
  }

  lemma XorSwap(x: Col, y: Col, z: Col, w: Col)
    ensures Xor(Xor(x, y), Xor(z, w)) == Xor(Xor(x, z), Xor(y, w)) == Xor(Xor(Xor(x, y), z), w)
  {
    hide Xor;
    XorAssoc(Xor(x, y), z, w);
    XorAssoc(x, y, Xor(z, w));
    XorAssoc(y, z, w);
    XorComm(y, z);
    XorAssoc(z, y, w);
    XorAssoc(x, z, Xor(y, w));
  }

  lemma LastOfCycle(s: Source, t: nat)
    requires s.Valid() && |s.key| == 4 && t < 10
    ensures Word(s, 4 * t + 7) == Xor(CycleSum(s, t), Start(s, t))
  {
    CycleWords(s, t);
    hide Word, Start, Xor;
    var a, b, c, d, g := Word(s, 4 * t), Word(s, 4 * t + 1), Word(s, 4 * t + 2), Word(s, 4 * t + 3), Start(s, t);
    var e := Xor(a, g);
    // d + (c + (b + (a + g)))
    XorAssoc(d, c, Xor(b, e));
    XorAssoc(Xor(d, c), b, e);
    XorAssoc(Xor(Xor(d, c), b), a, g);
    XorSwap(d, c, b, a);
    XorSwap(a, c, b, d);
    XorComm(Xor(d, c), Xor(b, a));
    XorSwap(b, a, d, c);
    XorComm(Xor(b, d), Xor(a, c));
  }

  /** The sum of a cycle telescopes to the value four folds back. */
  lemma SumIsFold(s: Source, t: nat)
    requires s.Valid() && |s.key| == 4 && t < 10
    ensures CycleSum(s, t) == Fold(s, t - 4)
  {
    hide Word, Xor;
    KeyWords(s);
    if t == 0 {
      XorSwap(s.key[0], s.key[2], s.key[1], s.key[3]);
      return;
    }
    SumTwoBack(s, t);
    if t == 1 { return; }
    SumThreeBack(s, t);
    if t == 2 { return; }
    CycleWords(s, t - 3);
    XorComm(Word(s, 4 * t - 6), Word(s, 4 * t - 5));
    XorUndo2(Word(s, 4 * t - 9), Word(s, 4 * t - 6));
  }

  lemma KeyWords(s: Source)
    requires s.Valid() && |s.key| == 4
    ensures Word(s, 0) == s.key[0] && Word(s, 1) == s.key[1] && Word(s, 2) == s.key[2] && Word(s, 3) == s.key[3]
  {}

  lemma SumTwoBack(s: Source, t: nat)
    requires s.Valid() && |s.key| == 4 && 1 <= t < 10
    ensures CycleSum(s, t) == Xor(Word(s, 4 * t - 3), Word(s, 4 * t - 1))
  {
    CycleWords(s, t - 1);
    hide Word, Start, Xor;
    var a, b, c, d := Word(s, 4 * t), Word(s, 4 * t + 1), Word(s, 4 * t + 2), Word(s, 4 * t + 3);
    XorSwap(a, c, b, d);
    XorUndo2(a, Word(s, 4 * t - 3));
    XorUndo2(c, Word(s, 4 * t - 1));
    XorComm(a, Word(s, 4 * t - 3));
    XorComm(c, Word(s, 4 * t - 1));
  }

  lemma SumThreeBack(s: Source, t: nat)
    requires s.Valid() && |s.key| == 4 && 2 <= t <= 11
    ensures Xor(Word(s, 4 * t - 3), Word(s, 4 * t - 1)) == Xor(Word(s, 4 * t - 6), Word(s, 4 * t - 5))
  {
    CycleWords(s, t - 2);
    hide Word, Start, Xor;
    var b, c := Word(s, 4 * t - 3), Word(s, 4 * t - 2);
    var p, q := Word(s, 4 * t - 6), Word(s, 4 * t - 5);
    // b + (q + (p + b)) == p + q
    XorComm(q, Xor(p, b));
    XorAssoc(p, b, q);
    XorComm(b, q);
    XorAssoc(p, q, b);
    XorUndo2(b, Xor(p, q));
  }

  lemma FoldStep(s: Source, t: nat)
    requires s.Valid() && |s.key| == 4 && t < 10
    ensures Fold(s, t) == Xor(Fold(s, t - 4), Start(s, t))
  {
    LastOfCycle(s, t);
    SumIsFold(s, t);
  }

  /** The working words of the folded schedule after m steps: place t mod 4 holds the latest fold. */
  ghost predicate Folded(ss: seq<Col>, s: Source, m: nat) {
    s.Valid() && |s.key| == 4 && m <= 10 && |ss| == 5 && forall t :: m - 4 <= t < m ==> ss[(t + 4) % 4] == Fold(s, t)
  }

  /** One step of the working words; returns what the cycle starts with. */
  method FoldNext(s: Source, ss: array<Col>, i: nat) returns (g: Col)
    requires Folded(ss[..], s, i) && i < 10
    modifies ss
    ensures Folded(ss[..], s, i + 1) && g == Start(s, i)
  {
    hide Xor, Fold, Start, LsBox;
    StartIs(s, i);
    FoldStep(s, i);
    assert ss[..][(i - 1 + 4) % 4] == Fold(s, i - 1) && ss[..][(i - 4 + 4) % 4] == Fold(s, i - 4);
    g := Xor(LsBox(s.b, ss[(i + 3) % 4], 3), s.rc[i]);
    ss[4] := g;
    ss[i % 4] := Xor(ss[i % 4], g);
  }

  /** The first cycle is mixed word by word. */
  method FirstCycle(s: Source, cx: Context, ss: array<Col>, rev: bool)
    requires cx.Valid() && Folded(ss[..], s, 0) && Filled(cx.ks[..], s, 4, rev) && ss != cx.ks
    modifies ss, cx.ks
    ensures Folded(ss[..], s, 1) && Filled(cx.ks[..], s, 8, rev)
  {
    hide Xor, Fold, Start, Word, InvMix, Filled, Folded;
    FoldedValid(ss[..], s, 0);
    var g := FoldNext(s, ss, 0);
    CycleWords(s, 0);
    var j := 0;
    while j < 4
      invariant 0 <= j <= 4 && Folded(ss[..], s, 1) && Filled(cx.ks[..], s, 4 + j, rev)
      invariant g == if j == 0 then Start(s, 0) else Word(s, 3 + j)
    {
      var k := Fetch(s, cx, j, 4 + j, rev);
      XorComm(g, k);
      g := Xor(g, k);
      Store(s, cx, 4 + j, rev, InvMix(g));
      j := j + 1;
    }
  }

  lemma FoldedValid(ss: seq<Col>, s: Source, m: nat)
    requires Folded(ss, s, m)
    ensures s.Valid() && |s.key| == 4 && |ss| == 5
  {}

  /** Cycles 2 to 9: only the start of the cycle is mixed, the rest follows by linearity. */
  method MiddleCycle(s: Source, cx: Context, ss: array<Col>, i: nat, rev: bool)
    requires cx.Valid() && 1 <= i < 9 && Folded(ss[..], s, i) && Filled(cx.ks[..], s, 4 * i + 4, rev) && ss != cx.ks
    modifies ss, cx.ks
    ensures Folded(ss[..], s, i + 1) && Filled(cx.ks[..], s, 4 * i + 8, rev)
  {
    hide Xor, Fold, Start, Word, InvMix, Filled, Folded;
    FoldedValid(ss[..], s, i);
    var g := FoldNext(s, ss, i);
    CycleWords(s, i);
    g := InvMix(g);
    var j := 0;
    while j < 4
      invariant 0 <= j <= 4 && Folded(ss[..], s, i + 1) && Filled(cx.ks[..], s, 4 * i + 4 + j, rev)
      invariant g == if j == 0 then InvMix(Start(s, i)) else InvMix(Word(s, 4 * i + 3 + j))
    {
      var k := Fetch(s, cx, 4 * i + j, 4 * i + 4 + j, rev);
      InvMixLinear(Word(s, 4 * i + j), if j == 0 then Start(s, i) else Word(s, 4 * i + 3 + j));
      XorComm(g, k);
      g := Xor(g, k);
      Store(s, cx, 4 * i + 4 + j, rev, g);
      j := j + 1;
    }
  }

  /** The last cycle is not mixed; its words are recovered from the folds. */
  method LastCycle(s: Source, cx: Context, ss: array<Col>, rev: bool)
    requires cx.Valid() && Folded(ss[..], s, 9) && Filled(cx.ks[..], s, 40, rev) && ss != cx.ks
    modifies ss, cx.ks
    ensures Filled(cx.ks[..], s, 44, rev)
  {
    hide Xor, Start, Word, InvMix, Filled;
    FoldedValid(ss[..], s, 9);
    var g := FoldNext(s, ss, 9);
    assert ss[..][(6 + 4) % 4] == Fold(s, 6) && ss[..][(7 + 4) % 4] == Fold(s, 7) && ss[..][(8 + 4) % 4] == Fold(s, 8)
      && ss[..][(9 + 4) % 4] == Fold(s, 9);
    LastWords(s);
    ss[0] := Xor(ss[0], ss[1]);
    Store(s, cx, 40, rev, Xor(Xor(ss[0], ss[2]), ss[3]));
    Store(s, cx, 41, rev, Xor(ss[1], ss[3]));
    Store(s, cx, 42, rev, ss[0]);
    Store(s, cx, 43, rev, ss[1]);
  }

  lemma LastWords(s: Source)
    requires s.Valid() && |s.key| == 4
    ensures Word(s, 42) == Xor(Word(s, 39), Word(s, 43)) && Word(s, 41) == Xor(Word(s, 43), Word(s, 35))
    ensures Word(s, 40) == Xor(Xor(Xor(Word(s, 39), Word(s, 43)), Word(s, 31)), Word(s, 35))
  {
    hide Word, Xor, Start;
    CycleWords(s, 9);
    CycleWords(s, 8);
    CycleWords(s, 7);
    XorUndo2(Word(s, 39), Word(s, 42));
    SumThreeBack(s, 11);
    XorComm(Word(s, 38), Word(s, 39));
    XorUndo2(Word(s, 35), Word(s, 38));
    XorUndo2(Word(s, 41), Word(s, 43));
    SumThreeBack(s, 10);
    XorComm(Word(s, 34), Word(s, 35));
    XorUndo2(Word(s, 31), Word(s, 34));
    XorUndo2(Word(s, 37), Word(s, 39));
    XorUndo2(Word(s, 37), Word(s, 40));
    XorComm(Word(s, 35), Word(s, 43));
    XorComm(Word(s, 31), Word(s, 39));
    XorSwap(Word(s, 39), Word(s, 31), Word(s, 43), Word(s, 35));
    XorAssoc(Xor(Word(s, 39), Word(s, 43)), Word(s, 31), Word(s, 35));
  }

  /** The decryption schedule for 128-bit keys. */
  method DecryptKey128(s: Source, cx: Context, rev: bool)
    requires s.Valid() && |s.key| == 4 && cx.Valid()
    modifies cx, cx.ks
    ensures cx.inf == 10 * 16 && Filled(cx.ks[..], s, 44, rev)
  {
    hide Xor, Fold, Word, InvMix, Filled, Folded;
    var ss := new Col[5](i requires 0 <= i < 5 => if i < 4 then s.key[i] else Zero);
    FilledStart(cx.ks[..], s, rev);
    KeyWords(s);
    Store(s, cx, 0, rev, ss[0]);
    Store(s, cx, 1, rev, ss[1]);
    Store(s, cx, 2, rev, ss[2]);
    Store(s, cx, 3, rev, ss[3]);
    ss[0] := Xor(Xor(Xor(ss[0], ss[2]), ss[1]), ss[3]);
    ss[1] := Xor(ss[1], ss[3]);
    ss[2] := Xor(ss[2], ss[3]);
    FoldedStart(ss[..], s);
    FirstCycle(s, cx, ss, rev);
    var i := 1;
    while i < 9
      invariant 1 <= i <= 9 && Folded(ss[..], s, i) && Filled(cx.ks[..], s, 4 * i + 4, rev)
    {
      MiddleCycle(s, cx, ss, i, rev);
      i := i + 1;
    }
    LastCycle(s, cx, ss, rev);
    cx.inf := 10 * 16;
  }

  lemma FoldedStart(ss: seq<Col>, s: Source)
    requires s.Valid() && |s.key| == 4 && |ss| == 5 && ss[3] == s.key[3] && ss[2] == Xor(s.key[2], s.key[3])
    requires ss[1] == Xor(s.key[1], s.key[3]) && ss[0] == Xor(Xor(Xor(s.key[0], s.key[2]), s.key[1]), s.key[3])
    ensures Folded(ss, s, 0)
  {
    hide Xor;
  }

  // ---- keys as bytes ----

  /** The words of a key. */
  function KeyColumns(key: seq<byte>): (k: seq<Col>)
    requires |key| % 4 == 0
    ensures |k| == |key| / 4
  {
    seq(|key| / 4, c requires 0 <= c < |key| / 4 => Col(key[4 * c], key[4 * c + 1], key[4 * c + 2], key[4 * c + 3]))
  }

  /** The number of key bytes that a length given in bytes or in bits stands for. */
  function KeyBytes(len: int): (n: nat)
    ensures n == 16 || n == 24 || n == 32 || n == 0
    ensures n != 0 <==> len in {16, 24, 32, 128, 192, 256}
    ensures n != 0 ==> n == len || 8 * n == len
  {
    if len == 16 || len == 128 then 16
    else if len == 24 || len == 192 then 24
    else if len == 32 || len == 256 then 32
    else 0
  }

  // ---- the schedule as bytes ----

  lemma XorByte(x: Col, y: Col, r: nat)
    requires r < 4
    ensures ByteOf(Xor(x, y), r) == Add(ByteOf(x, r), ByteOf(y, r))
  {
    hide Add;
  }

  lemma SubByte(b: Boxes, x: Col, r: nat)
    requires r < 4
    ensures ByteOf(SubWord(b, x), r) == b.sub(ByteOf(x, r))
    ensures ByteOf(SubWord(b, RotWord(x)), r) == b.sub(ByteOf(x, (r + 1) % 4))
  {}

  lemma ExpandedByte(s: Source, i: nat, r: nat)
    requires s.Valid() && i < 4 * s.Rounds() + 4 && r < 4
    ensures WordByte(Flat(Expanded(s)), i, r) == ByteOf(Word(s, i), r)
  {
    hide Word, Flat;
    FlatAt(Expanded(s), i, r);
  }

  lemma TempByte(s: Source, i: nat, r: nat, w: seq<byte>)
    requires s.Valid() && |s.key| <= i < 4 * s.Rounds() + 4 && r < 4 && 4 * i <= |w| && i / |s.key| <= 10
    requires WordByte(w, i - 1, r) == ByteOf(Word(s, i - 1), r)
    requires WordByte(w, i - 1, (r + 1) % 4) == ByteOf(Word(s, i - 1), (r + 1) % 4)
    ensures ByteOf(Temp(s, i), r) == Combined(s.b.sub, s.rc, |s.key|, w, i, r)
  {
    hide Word, Xor, SubWord, RotWord, ByteOf, WordByte, Add;
    Cycle(s, i);
    var x := Word(s, i - 1);
    SubByte(s.b, x, r);
    if i % |s.key| == 0 { XorByte(SubWord(s.b, RotWord(x)), s.rc[i / |s.key| - 1], r); }
  }

  lemma ExpandedStep(s: Source, i: nat, r: nat)
    requires s.Valid() && |s.key| <= i < 4 * s.Rounds() + 4 && r < 4
    ensures Follows(s.b.sub, s.rc, |s.key|, Flat(Expanded(s)), i, r)
  {
    Cycle(s, i);
    assert Word(s, i) == Xor(Word(s, i - |s.key|), Temp(s, i));
    hide Word, Temp, Flat, Xor, ByteOf, Expanded, WordByte, Combined, Add;
    XorByte(Word(s, i - |s.key|), Temp(s, i), r);
    ExpandedByte(s, i, r);
    ExpandedByte(s, i - |s.key|, r);
    ExpandedByte(s, i - 1, r);
    ExpandedByte(s, i - 1, (r + 1) % 4);
    TempByte(s, i, r, Flat(Expanded(s)));
  }

  /** The expanded key is that of the standard, byte for byte. */
  lemma ExpandedIsStandard(b: Boxes, rc: seq<Col>, key: seq<byte>)
    requires |rc| == 10 && (|key| == 16 || |key| == 24 || |key| == 32)
    ensures KeyExpansion(b.sub, rc, key, Flat(Expanded(Source(b, rc, KeyColumns(key)))))
  {
    hide Flat, Expanded, Follows;
    var s := Source(b, rc, KeyColumns(key));
    var w := Flat(Expanded(s));
    forall i: nat, r: nat | |key| / 4 <= i < |key| + 28 && r < 4
      ensures Follows(b.sub, rc, |key| / 4, w, i, r)
    {
      ExpandedStep(s, i, r);
    }
    forall j | 0 <= j < |key| ensures w[j] == key[j] { ExpandedByte(s, j / 4, j % 4); }
  }

  lemma ColumnsInjective(x: Bytes, y: Bytes)
    requires Columns(x) == Columns(y)
    ensures x == y
  {
    OutIn(x);
    OutIn(y);
  }

  /** A decryption schedule, byte for byte. */
  lemma DecryptionIsStandard(d: seq<Col>, w: seq<Col>, n: nat)
    requires DecryptionKeys(d, w, n)
    ensures InverseSchedule(Flat(d), Flat(w), n)
  {
    hide InvMix, Flat, Columns, InvMixColumns, RoundBytes;
    forall i | 0 <= i <= n
      ensures RoundBytes(Flat(d), i) ==
        if 0 < i < n then InvMixColumns(RoundBytes(Flat(w), i)) else RoundBytes(Flat(w), i)
    {
      KeyIs(d, i);
      KeyIs(w, i);
      MixIs(RoundBytes(Flat(w), i));
      if 0 < i < n {
        assert Key(d, i) == InvMixState(Key(w, i));
        ColumnsInjective(RoundBytes(Flat(d), i), InvMixColumns(RoundBytes(Flat(w), i)));
      } else {
        assert Key(d, i) == Key(w, i);
        ColumnsInjective(RoundBytes(Flat(d), i), RoundBytes(Flat(w), i));
      }
    }
  }

  method SetEncryptKey(b: Boxes, rc: seq<Col>, key: seq<byte>, len: int, cx: Context) returns (ok: bool)
    requires cx.Valid() && |rc| == 10 && |key| == KeyBytes(len)
    modifies cx, cx.ks
    ensures ok <==> KeyBytes(len) != 0
    ensures ok ==>
      cx.Keyed() && cx.inf == 16 * (|key| / 4 + 6) && cx.ks[..|key| + 28] == Expanded(Source(b, rc, KeyColumns(key)))
    ensures ok ==> KeyExpansion(b.sub, rc, key, Flat(cx.ks[..|key| + 28]))
  {
    hide Expanded, KeyColumns, KeyExpansion, Flat;
    if KeyBytes(len) == 0 { return false; }
    ExpandedIsStandard(b, rc, key);
    EncryptKey(Source(b, rc, KeyColumns(key)), cx);
    return true;
  }

  method SetDecryptKey(b: Boxes, rc: seq<Col>, key: seq<byte>, len: int, cx: Context, rev: bool) returns (ok: bool)
    requires cx.Valid() && |rc| == 10 && |key| == KeyBytes(len)
    modifies cx, cx.ks
    ensures ok <==> KeyBytes(len) != 0
    ensures ok ==>
      cx.Keyed() && cx.inf == 16 * (|key| / 4 + 6) && Filled(cx.ks[..], Source(b, rc, KeyColumns(key)), |key| + 28, rev)
    ensures ok ==> forall w :: KeyExpansion(b.sub, rc, key, w) ==>
      InverseSchedule(Flat(Stored(cx.ks[..], |key| / 4 + 6, rev)), w, |key| / 4 + 6)
  {
    hide Filled, KeyColumns, KeyExpansion, Flat, Stored, InverseSchedule;
    if KeyBytes(len) == 0 { return false; }
    var s := Source(b, rc, KeyColumns(key));
    if KeyBytes(len) == 16 {
      DecryptKey128(s, cx, rev);
    } else {
      DecryptKeyLong(s, cx, rev);
    }
    FilledIsStandard(b, rc, key, cx.ks[..], rev);
    return true;
  }

  /** A filled schedule holds the decryption keys that belong to the expanded key. */
  lemma FilledIsDecryption(ks: seq<Col>, s: Source, rev: bool)
    requires Filled(ks, s, 4 * s.Rounds() + 4, rev)
    ensures s.Valid() && DecryptionKeys(Stored(ks, s.Rounds(), rev), Expanded(s), s.Rounds())
  {
    hide Word, InvMix;
  }

  /** The stored words are the schedule for decryption that belongs to the key's expansion. */
  lemma FilledIsStandard(b: Boxes, rc: seq<Col>, key: seq<byte>, ks: seq<Col>, rev: bool)
    requires |rc| == 10 && (|key| == 16 || |key| == 24 || |key| == 32) && |ks| == KS_LENGTH
    requires Filled(ks, Source(b, rc, KeyColumns(key)), |key| + 28, rev)
    ensures forall w :: KeyExpansion(b.sub, rc, key, w) ==>
      InverseSchedule(Flat(Stored(ks, |key| / 4 + 6, rev)), w, |key| / 4 + 6)
  {
    hide Filled, KeyExpansion, Flat, Stored, InverseSchedule, Expanded;
    var s := Source(b, rc, KeyColumns(key));
    FilledIsDecryption(ks, s, rev);
    DecryptionIsStandard(Stored(ks, s.Rounds(), rev), Expanded(s), s.Rounds());
    ExpandedIsStandard(b, rc, key);
    forall w | KeyExpansion(b.sub, rc, key, w)
      ensures InverseSchedule(Flat(Stored(ks, |key| / 4 + 6, rev)), w, |key| / 4 + 6)
    {
      OneExpansion(b.sub, rc, key, w, Flat(Expanded(s)));
    }
  }

  /** A key has one expansion. */
  lemma OneExpansion(sub: byte -> byte, rc: seq<Col>, key: seq<byte>, w: seq<byte>, w': seq<byte>)
    requires KeyExpansion(sub, rc, key, w) && KeyExpansion(sub, rc, key, w')
    ensures w == w'
  {
    hide KeyExpansion;
    SameLength(sub, rc, key, w, w');
    SameWords(sub, rc, key, w, w', |key| + 28);
    assert w[..|w|] == w && w'[..|w|] == w';
  }

  lemma SameLength(sub: byte -> byte, rc: seq<Col>, key: seq<byte>, w: seq<byte>, w': seq<byte>)
    requires KeyExpansion(sub, rc, key, w) && KeyExpansion(sub, rc, key, w')
    ensures |w| == |w'| == 4 * (|key| + 28)
  {}

  lemma {:induction false} SameWords(sub: byte -> byte, rc: seq<Col>, key: seq<byte>, w: seq<byte>, w': seq<byte>,
                                     n: nat)
    requires KeyExpansion(sub, rc, key, w) && KeyExpansion(sub, rc, key, w') && n <= |key| + 28
    ensures |w| == |w'| == 4 * (|key| + 28) && w[..4 * n] == w'[..4 * n]
  {
    hide Combined;
    if n > 0 {
      SameWords(sub, rc, key, w, w', n - 1);
      var i, nk := n - 1, |key| / 4;
      if n <= nk {
        assert w[..4 * n] == key[..4 * n] == w'[..4 * n];
      } else {
        forall r: nat | r < 4 ensures WordByte(w, i, r) == WordByte(w', i, r) {
          assert Follows(sub, rc, nk, w, i, r) && Follows(sub, rc, nk, w', i, r);
          SameCombined(sub, rc, nk, w, w', i, r);
          SameByte(w, w', i - nk, r, i);
        }
        assert WordByte(w, i, 0) == WordByte(w', i, 0) && WordByte(w, i, 1) == WordByte(w', i, 1);
        assert WordByte(w, i, 2) == WordByte(w', i, 2) && WordByte(w, i, 3) == WordByte(w', i, 3);
        assert w[..4 * n] == w[..4 * i] + [w[4 * i], w[4 * i + 1], w[4 * i + 2], w[4 * i + 3]];
        assert w'[..4 * n] == w'[..4 * i] + [w'[4 * i], w'[4 * i + 1], w'[4 * i + 2], w'[4 * i + 3]];
      }
    }
  }

  lemma SameByte(w: seq<byte>, w': seq<byte>, j: nat, r: nat, i: nat)
    requires j < i && r < 4 && 4 * i <= |w| == |w'| && w[..4 * i] == w'[..4 * i]
    ensures WordByte(w, j, r) == WordByte(w', j, r)
  {
    assert w[..4 * i][4 * j + r] == w'[..4 * i][4 * j + r];
  }

  lemma SameCombined(sub: byte -> byte, rc: seq<Col>, nk: nat, w: seq<byte>, w': seq<byte>, i: nat, r: nat)
    requires 0 < nk <= i && i / nk <= |rc| && r < 4 && 4 * i <= |w| == |w'| && w[..4 * i] == w'[..4 * i]
    ensures Combined(sub, rc, nk, w, i, r) == Combined(sub, rc, nk, w', i, r)
  {
    hide Add, ByteOf, WordByte;
    SameByte(w, w', i - 1, r, i);
    SameByte(w, w', i - 1, (r + 1) % 4, i);
  }

  /** Encrypting a block with one context and decrypting it with another that was given the same key restores it. */
  method RoundTrip(b: Boxes, rc: seq<Col>, key: seq<byte>, len: int, block: seq<byte>, rev: bool)
    returns (restored: seq<byte>)
    requires b.Valid() && |rc| == 10 && |key| == KeyBytes(len) != 0 && |block| == 16
    ensures restored == block
  {
    hide Filled, KeyColumns, Expanded, Encrypted, Decrypted, Stored, Columns, Out, Flat, Cipher, InvCipher;
    var e := new Context();
    var d := new Context();
    ghost var s, n := Source(b, rc, KeyColumns(key)), |key| / 4 + 6;
    var ok := SetEncryptKey(b, rc, key, len, e);
    var c;
    ok, c := Encrypt(b, e, block);
    EncryptedPrefix(b, e.ks[..], Columns(block), n);
    ok := SetDecryptKey(b, rc, key, len, d, rev);
    ok, restored := Decrypt(b, d, c, rev);
    FilledIsDecryption(d.ks[..], s, rev);
    assert e.ks[..][..|key| + 28] == e.ks[..|key| + 28];
    DecryptEncrypt(b, Expanded(s), Stored(d.ks[..], n, rev), Columns(block), n);
    OutIn(block);
  }

  lemma {:induction false} EncryptingPrefix(b: Boxes, w: seq<Col>, s: State, i: nat, n: nat)
    requires i <= n && 4 * n + 4 <= |w|
    ensures Encrypting(b, w[..4 * n + 4], s, i) == Encrypting(b, w, s, i)
  {
    hide FwdRound;
    if i > 0 { EncryptingPrefix(b, w, s, i - 1, n); }
  }

  lemma EncryptedPrefix(b: Boxes, w: seq<Col>, s: State, n: nat)
    requires 0 < n && 4 * n + 4 <= |w|
    ensures Encrypted(b, w[..4 * n + 4], s, n) == Encrypted(b, w, s, n)
  {
    hide FwdLast, FwdRound;
    EncryptingPrefix(b, w, s, n - 1, n);
  }
}
