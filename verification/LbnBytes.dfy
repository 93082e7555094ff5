/** Bytes of word arrays: extraction and insertion of byte strings at any offset, in either byte order. */
module LbnBytes {
  import opened Arith
  import opened Words
  import opened LbnBasic

  type byte = x: int | 0 <= x < 256 witness 0

  /** 2^(8 j). */
  function P(j: nat): (p: int)
    requires j <= 4
    ensures p > 0
  {
    if j == 0 then 1 else if j == 1 then 0x100 else if j == 2 then 0x1_0000 else if j == 3 then 0x100_0000 else B
  }

  function ByteOf(w: word, j: nat): byte
    requires j < 4
  {
    w / P(j) % 256
  }

  /** Byte k of a number. */
  function ByteAt(s: seq<word>, k: nat): byte
    requires k < 4 * |s|
  {
    ByteOf(s[k / 4], k % 4)
  }

  /** Where byte i of a buffer goes that is inserted at lsbyte. */
  function Spot(i: nat, len: nat, lsbyte: nat, big: bool): nat
    requires i < len
  {
    if big then lsbyte + len - 1 - i else lsbyte + i
  }

  /** The byte at place k after an insertion. */
  function Inserted(s: seq<word>, buf: seq<byte>, lsbyte: nat, big: bool, k: nat): byte
    requires k < 4 * |s|
  {
    if lsbyte <= k < lsbyte + |buf| then (if big then buf[lsbyte + |buf| - 1 - k] else buf[k - lsbyte])
      else ByteAt(s, k)
  }

  /** The number that bytes q up to q + m - 1 after the insertion make up. */
  ghost function Fresh(s: seq<word>, buf: seq<byte>, lsbyte: nat, big: bool, q: nat, m: nat): int
    requires q + m <= 4 * |s|
    decreases m
  {
    if m == 0 then 0 else Inserted(s, buf, lsbyte, big, q) + 256 * Fresh(s, buf, lsbyte, big, q + 1, m - 1)
  }

  lemma WordBytes(b0: byte, b1: byte, b2: byte, b3: byte)
    ensures var w := b0 + 256 * (b1 + 256 * (b2 + 256 * b3 as int));
      0 <= w < B && ByteOf(w, 0) == b0 && ByteOf(w, 1) == b1 && ByteOf(w, 2) == b2 && ByteOf(w, 3) == b3
  {
    var z: int := b3;
    var y: int := b2 + 256 * z;
    var x: int := b1 + 256 * y;
    var w: int := b0 + 256 * x;
    assert w / 256 == x && w / 0x1_0000 == y && w / 0x100_0000 == z;
  }

  lemma BytesWord(w: word)
    ensures w == ByteOf(w, 0) as int + 256 * (ByteOf(w, 1) as int
                                              + 256 * (ByteOf(w, 2) as int + 256 * ByteOf(w, 3) as int))
  {
    var x, y, z := w / 256, w / 0x1_0000, w / 0x100_0000;
    assert w == 256 * x + w % 256 && x == 256 * y + x % 256 && y == 256 * z + y % 256;
    assert z % 256 == z;
  }

  lemma NextByte(w: word, j: nat)
    requires j < 4
    ensures w / P(j) / 256 == w / P(j + 1)
  {}

  /** The bytes from lsbyte on, most significant first. */
  method ExtractBig(n: array<word>, lsbyte: nat, len: nat) returns (buf: seq<byte>)
    requires lsbyte + len <= 4 * n.Length
    ensures |buf| == len && forall i :: 0 <= i < len ==> buf[i] == ByteAt(n[..], Spot(i, len, lsbyte, true))
  {
    hide P;
    var end := lsbyte + len;
    var shift, i := end % 4, end / 4;
    var t: word := 0;
    if shift != 0 { t := n[i]; }
    buf := [];
    while |buf| < len
      invariant |buf| <= len && shift == (end - |buf|) % 4 && i == (end - |buf|) / 4 && (shift != 0 ==> t == n[i])
      invariant forall k :: 0 <= k < |buf| ==> buf[k] == ByteAt(n[..], Spot(k, len, lsbyte, true))
    {
      ghost var q := end - |buf|;
      if shift == 0 {
        i := i - 1;
        t := n[i];
        shift := 4;
      }
      shift := shift - 1;
      assert shift == (q - 1) % 4 && i == (q - 1) / 4;
      buf := buf + [ByteOf(t, shift)];
    }
  }

  /** The bytes from lsbyte on, least significant first. */
  method ExtractLittle(n: array<word>, lsbyte: nat, len: nat) returns (buf: seq<byte>)
    requires lsbyte + len <= 4 * n.Length
    ensures |buf| == len && forall i :: 0 <= i < len ==> buf[i] == ByteAt(n[..], Spot(i, len, lsbyte, false))
  {
    hide P, ByteOf, ByteAt;
    var i, q := lsbyte / 4, lsbyte;
    ghost var w, r := i, q % 4;
    var t: int := 0;
    if q % 4 != 0 {
      t := n[i] / P(q % 4);
      i := i + 1;
    }
    buf := [];
    while |buf| < len
      invariant |buf| <= len && q == lsbyte + |buf| == 4 * w + r && 0 <= r < 4 && i == (if r == 0 then w else w + 1)
      invariant 0 <= i <= n.Length && (r != 0 ==> t == n[w] / P(r))
      invariant forall k :: 0 <= k < |buf| ==> buf[k] == ByteAt(n[..], lsbyte + k)
    {
      Quarter(q, w, r);
      if q % 4 == 0 {
        t := n[i];
        i := i + 1;
        FirstByte(n[w]);
      }
      NextByte(n[w], r);
      ByteAtIs(n[..], q, w, r);
      buf := buf + [t % 256];
      t := t / 256;
      q := q + 1;
      if r == 3 { w, r := w + 1, 0; } else { r := r + 1; }
    }
  }

  lemma Quarter(q: nat, w: nat, r: nat)
    requires q == 4 * w + r && r < 4
    ensures q / 4 == w && q % 4 == r
  {}

  lemma ByteAtIs(s: seq<word>, q: nat, w: nat, r: nat)
    requires q == 4 * w + r && r < 4 && w < |s|
    ensures ByteAt(s, q) == ByteOf(s[w], r) == s[w] / P(r) % 256
  {
    Quarter(q, w, r);
  }

  lemma FirstByte(w: word)
    ensures w == w / P(0)
  {}

  /** t's low m bytes, before and after another byte is shifted in. */
  lemma ShiftIn(t: word, b: byte, m: nat)
    requires m < 4
    ensures (t * 256 + b) % B % P(m + 1) == 256 * (t % P(m)) + b
  {
    assert P(m + 1) == 256 * P(m) && B == P(3 - m) * P(m + 1)
      by { if m == 0 {} else if m == 1 {} else if m == 2 {} else {} }
    hide P;
    ShiftInParts(t, b, P(m), P(m + 1), P(3 - m));
  }

  lemma ShiftInParts(t: int, b: int, p: int, d: int, k: int)
    requires p > 0 && d == 256 * p && B == k * d && 0 <= b < 256
    ensures (t * 256 + b) % B % d == 256 * (t % p) + b
  {
    var h, l, x := t / p, t % p, t * 256 + b;
    assert x == h * d + (256 * l + b) by { assert t == p * h + l; assert h * (256 * p) == 256 * (p * h); }
    DivModUnique(x, d, h, 256 * l + b);
    var y := x / B;
    assert x == x % B + B * y;
    Associate(y, k, d);
    ModOf(x % B, y * k, d);
  }

  /** What a word loses when it is shifted up by r bytes. */
  lemma ShiftUp(t: word, r: nat)
    requires 1 <= r <= 3
    ensures t * P(r) % B == (t % P(4 - r)) * P(r)
  {
    ShiftParts(t, P(r), P(4 - r), B);
    DivModUnique(t as int * P(r), B, t / P(4 - r), (t % P(4 - r)) * P(r));
  }

  lemma LowBytes(w: word, r: nat)
    requires 1 <= r <= 3
    ensures w % P(r) == if r == 1 then ByteOf(w, 0) as int
      else if r == 2 then ByteOf(w, 0) as int + 256 * (ByteOf(w, 1) as int)
      else ByteOf(w, 0) as int + 256 * (ByteOf(w, 1) as int + 256 * (ByteOf(w, 2) as int))
  {
    BytesWord(w);
    UpperIs(w, r);
    hide ByteOf;
  }

  /** Inserts a buffer with its last (big) or first (little) byte at lsbyte; no other byte changes. */
  method Insert(n: array<word>, buf: seq<byte>, lsbyte: nat, big: bool)
    requires lsbyte + |buf| <= 4 * n.Length
    modifies n
    ensures forall k: nat :: k < 4 * n.Length ==> ByteAt(n[..], k) == Inserted(old(n[..]), buf, lsbyte, big, k)
  {
    hide P, ByteAt, ByteOf, Inserted, Fresh, DoneFrom, Merged;
    ghost var s := n[..];
    var q := lsbyte + |buf|;
    var i := q / 4;
    ghost var w, r := i, q % 4;
    var t: word := 0;
    FreshNone(s, buf, lsbyte, big, q);
    if q % 4 != 0 {
      HighBytes(s, buf, lsbyte, big, q, w, r);
      t := n[i] / P(q % 4);
      i := i + 1;
    }
    DoneStart(s, buf, lsbyte, big, i);
    q, i, t, w, r := InsertLoop(n, buf, lsbyte, big, q, i, t, s, w, r);
    Quarter(q, w, r);
    if q % 4 != 0 {
      assert n[i - 1] == n[..i][i - 1];
      MergedWord(s, buf, lsbyte, big, w, r, t);
      i := i - 1;
      StoreWord(n, i, Merged(t, n[i], q % 4), s, buf, lsbyte, big);
    }
    DoneAll(n[..], s, buf, lsbyte, big, i);
  }

  /** The number of bytes collected in t when the next byte goes to place r of its word. */
  function Collected(r: nat): nat
    requires r < 4
  {
    if r == 0 then 0 else 4 - r
  }

  /** Shifts the bytes in from the top, storing each word that is complete. */
  method InsertLoop(n: array<word>, buf: seq<byte>, lsbyte: nat, big: bool, q0: nat, i0: nat, t0: word,
                    ghost s: seq<word>, ghost w0: nat, ghost r0: nat)
    returns (q: nat, i: nat, t: word, ghost w: nat, ghost r: nat)
    requires q0 == lsbyte + |buf| == 4 * w0 + r0 <= 4 * n.Length && r0 < 4 && n[..] == s
    requires i0 == (if r0 == 0 then w0 else w0 + 1) <= n.Length && DoneFrom(n[..], s, buf, lsbyte, big, i0)
    requires t0 % P(Collected(r0)) == Fresh(s, buf, lsbyte, big, q0, Collected(r0))
    modifies n
    ensures q == lsbyte == 4 * w + r && r < 4 && i == (if r == 0 then w else w + 1) <= n.Length && n[..i] == s[..i]
    ensures DoneFrom(n[..], s, buf, lsbyte, big, i)
      && t % P(Collected(r)) == Fresh(s, buf, lsbyte, big, q, Collected(r))
  {
    hide P, ByteAt, ByteOf, Inserted, Fresh, DoneFrom;
    q, i, t, w, r := q0, i0, t0, w0, r0;
    var done := 0;
    while done < |buf|
      invariant 0 <= done <= |buf| && q == lsbyte + |buf| - done == 4 * w + r && r < 4
      invariant i == (if r == 0 then w else w + 1) <= n.Length
        && t % P(Collected(r)) == Fresh(s, buf, lsbyte, big, q, Collected(r))
      invariant n[..i] == s[..i] && DoneFrom(n[..], s, buf, lsbyte, big, i)
    {
      var b := if big then buf[done] else buf[|buf| - 1 - done];
      done := done + 1;
      ghost var m := Collected(r);
      ShiftIn(t, b, m);
      t := (t as int * 256 + b) % B;
      q := q - 1;
      FreshMore(s, buf, lsbyte, big, q, m, b);
      if r == 0 { w, r := w - 1, 3; } else { r := r - 1; }
      Quarter(q, w, r);
      if q % 4 == 0 {
        i := i - 1;
        WholeWord(s, buf, lsbyte, big, q, w, t);
        StoreWord(n, i, t, s, buf, lsbyte, big);
        FreshNone(s, buf, lsbyte, big, q);
      }
    }
  }

  method StoreWord(n: array<word>, i: nat, x: word, ghost s: seq<word>, ghost buf: seq<byte>, ghost lsbyte: nat,
                   ghost big: bool)
    requires i < n.Length == |s| && DoneFrom(n[..], s, buf, lsbyte, big, i + 1) && n[..i + 1] == s[..i + 1]
    requires forall j: nat :: j < 4 ==> ByteOf(x, j) == Inserted(s, buf, lsbyte, big, 4 * i + j)
    modifies n
    ensures DoneFrom(n[..], s, buf, lsbyte, big, i) && n[..i] == s[..i]
  {
    hide ByteOf, Inserted, DoneFrom;
    ghost var before := n[..];
    n[i] := x;
    DoneStep(before, n[..], s, buf, lsbyte, big, i);
    assert n[..i] == before[..i + 1][..i] == s[..i + 1][..i] == s[..i];
  }

  /** The words from i up hold their bytes after the insertion. */
  ghost predicate DoneFrom(cur: seq<word>, s: seq<word>, buf: seq<byte>, lsbyte: nat, big: bool, i: nat) {
    |cur| == |s| && forall k: nat :: 4 * i <= k < 4 * |s| ==> ByteAt(cur, k) == Inserted(s, buf, lsbyte, big, k)
  }

  lemma DoneStart(s: seq<word>, buf: seq<byte>, lsbyte: nat, big: bool, i: nat)
    requires lsbyte + |buf| <= 4 * i
    ensures DoneFrom(s, s, buf, lsbyte, big, i)
  {
    hide ByteAt;
  }

  lemma DoneStep(before: seq<word>, cur: seq<word>, s: seq<word>, buf: seq<byte>, lsbyte: nat, big: bool, i: nat)
    requires DoneFrom(before, s, buf, lsbyte, big, i + 1) && i < |cur| == |before| && cur == before[i := cur[i]]
    requires forall j: nat :: j < 4 ==> ByteOf(cur[i], j) == Inserted(s, buf, lsbyte, big, 4 * i + j)
    ensures DoneFrom(cur, s, buf, lsbyte, big, i)
  {
    hide ByteOf, Inserted;
    forall k: nat | 4 * i <= k < 4 * |s| ensures ByteAt(cur, k) == Inserted(s, buf, lsbyte, big, k) {
      if k < 4 * i + 4 {
        assert k / 4 == i && k == 4 * i + k % 4;
      } else {
        assert k / 4 > i && ByteAt(before, k) == Inserted(s, buf, lsbyte, big, k);
      }
    }
  }

  lemma DoneAll(cur: seq<word>, s: seq<word>, buf: seq<byte>, lsbyte: nat, big: bool, i: nat)
    requires i <= |s| && DoneFrom(cur, s, buf, lsbyte, big, i) && cur[..i] == s[..i] && 4 * i <= lsbyte
    ensures forall k: nat :: k < 4 * |s| ==> ByteAt(cur, k) == Inserted(s, buf, lsbyte, big, k)
  {
    hide ByteOf;
    forall k: nat | k < 4 * |s| ensures ByteAt(cur, k) == Inserted(s, buf, lsbyte, big, k) {
      if k < 4 * i { assert cur[k / 4] == cur[..i][k / 4] == s[..i][k / 4]; }
    }
  }

  lemma FreshNone(s: seq<word>, buf: seq<byte>, lsbyte: nat, big: bool, q: nat)
    requires q <= 4 * |s|
    ensures Fresh(s, buf, lsbyte, big, q, 0) == 0 && forall t: int :: t % P(0) == 0
  {}

  lemma FreshMore(s: seq<word>, buf: seq<byte>, lsbyte: nat, big: bool, q: nat, m: nat, b: byte)
    requires q + 1 + m <= 4 * |s| && lsbyte <= q < lsbyte + |buf| && b == if big then buf[lsbyte + |buf| - 1 - q]
      else buf[q - lsbyte]
    ensures Fresh(s, buf, lsbyte, big, q, m + 1) == b + 256 * Fresh(s, buf, lsbyte, big, q + 1, m)
  {}

  /** The bytes of a word from byte r up, as a number. */
  function Upper(w: word, r: nat): int
    requires 1 <= r <= 4
  {
    if r == 4 then 0
    else if r == 3 then ByteOf(w, 3)
    else if r == 2 then ByteOf(w, 2) + 256 * (ByteOf(w, 3) as int)
    else ByteOf(w, 1) + 256 * (ByteOf(w, 2) + 256 * (ByteOf(w, 3) as int))
  }

  lemma UpperIs(w: word, r: nat)
    requires 1 <= r <= 3
    ensures w / P(r) == Upper(w, r) && 0 <= Upper(w, r) < P(4 - r)
  {
    BytesWord(w);
  }

  /** Bytes above the insertion are the old ones. */
  lemma HighBytes(s: seq<word>, buf: seq<byte>, lsbyte: nat, big: bool, q: nat, w: nat, r: nat)
    requires q == lsbyte + |buf| == 4 * w + r && 1 <= r < 4 && w < |s|
    ensures 0 <= s[w] / P(r) < B
    ensures s[w] / P(r) % P(4 - r) == Fresh(s, buf, lsbyte, big, q, 4 - r)
  {
    UpperIs(s[w], r);
    assert P(4 - r) <= B;
    DivModUnique(Upper(s[w], r), P(4 - r), 0, Upper(s[w], r));
    hide P, ByteOf, ByteAt;
    ByteAtIs(s, q, w, r);
    if r < 3 { ByteAtIs(s, q + 1, w, r + 1); }
    if r < 2 { ByteAtIs(s, q + 2, w, r + 2); }
  }

  lemma FreshFour(s: seq<word>, buf: seq<byte>, lsbyte: nat, big: bool, q: nat)
    requires q + 4 <= 4 * |s|
    ensures Fresh(s, buf, lsbyte, big, q, 4) ==
      Inserted(s, buf, lsbyte, big, q) + 256 * (Inserted(s, buf, lsbyte, big, q + 1)
      + 256 * (Inserted(s, buf, lsbyte, big, q + 2) + 256 * Inserted(s, buf, lsbyte, big, q + 3) as int))
  {
    hide Inserted;
  }

  lemma WholeWord(s: seq<word>, buf: seq<byte>, lsbyte: nat, big: bool, q: nat, w: nat, t: word)
    requires q == 4 * w && w < |s| && t % P(4) == Fresh(s, buf, lsbyte, big, q, 4)
    ensures forall j: nat :: j < 4 ==> ByteOf(t, j) == Inserted(s, buf, lsbyte, big, 4 * w + j)
  {
    var b0, b1, b2, b3 := Inserted(s, buf, lsbyte, big, q), Inserted(s, buf, lsbyte, big, q + 1),
      Inserted(s, buf, lsbyte, big, q + 2), Inserted(s, buf, lsbyte, big, q + 3);
    hide Inserted, ByteOf;
    WordBytes(b0, b1, b2, b3);
    DivModUnique(t, P(4), 0, t);
    hide P;
    FreshFour(s, buf, lsbyte, big, q);
  }

  /** The low bytes of w with the low bytes of t above them. */
  function Merged(t: word, w: word, r: nat): word
    requires 1 <= r <= 3
  {
    ShiftUp(t, r);
    MergedFits(t, w, r);
    t * P(r) % B + w % P(r)
  }

  lemma MergedFits(t: word, w: word, r: nat)
    requires 1 <= r <= 3
    ensures 0 <= (t % P(4 - r)) * P(r) + w % P(r) < B
  {
    Scale(0, t % P(4 - r), P(r));
    Scale(t % P(4 - r), P(4 - r) - 1, P(r));
    assert (P(4 - r) - 1) * P(r) == B - P(r) by { if r == 1 {} else if r == 2 {} else {} }
  }

  /** A word put together from the low bytes of one number and the bytes of another above them. */
  lemma Merge(t: word, w: word, r: nat, b1: byte, b2: byte, b3: byte)
    requires 1 <= r <= 3
    requires r == 1 ==> t % P(3) == b1 + 256 * (b2 + 256 * b3 as int)
    requires r == 2 ==> t % P(2) == b2 + 256 * b3 as int
    requires r == 3 ==> t % P(1) == b3
    ensures var x := Merged(t, w, r);
      ByteOf(x, 0) == ByteOf(w, 0) && ByteOf(x, 1) == (if r <= 1 then b1 else ByteOf(w, 1))
      && ByteOf(x, 2) == (if r <= 2 then b2 else ByteOf(w, 2)) && ByteOf(x, 3) == b3
  {
    ShiftUp(t, r);
    LowBytes(w, r);
    hide ByteOf;
    if r == 1 {
      WordBytes(ByteOf(w, 0), b1, b2, b3);
    } else if r == 2 {
      WordBytes(ByteOf(w, 0), ByteOf(w, 1), b2, b3);
    } else {
      WordBytes(ByteOf(w, 0), ByteOf(w, 1), ByteOf(w, 2), b3);
    }
  }

  lemma MergedWord(s: seq<word>, buf: seq<byte>, lsbyte: nat, big: bool, w: nat, r: nat, t: word)
    requires lsbyte == 4 * w + r && 1 <= r < 4 && w < |s|
    requires t % P(4 - r) == Fresh(s, buf, lsbyte, big, lsbyte, 4 - r)
    ensures forall j: nat :: j < 4 ==> ByteOf(Merged(t, s[w], r), j) == Inserted(s, buf, lsbyte, big, 4 * w + j)
  {
    hide Inserted, P, ByteOf, Merged;
    var o := 4 * w;
    Below(s, buf, lsbyte, big, w, 0);
    Below(s, buf, lsbyte, big, w, 1);
    Below(s, buf, lsbyte, big, w, 2);
    Merge(t, s[w], r, Inserted(s, buf, lsbyte, big, o + 1), Inserted(s, buf, lsbyte, big, o + 2),
          Inserted(s, buf, lsbyte, big, o + 3));
  }

  lemma Below(s: seq<word>, buf: seq<byte>, lsbyte: nat, big: bool, w: nat, j: nat)
    requires w < |s| && j < 4
    ensures 4 * w + j < lsbyte ==> Inserted(s, buf, lsbyte, big, 4 * w + j) == ByteOf(s[w], j)
  {
    hide ByteAt;
    ByteAtIs(s, 4 * w + j, w, j);
  }

  /** Extracting what was inserted gives it back. */
  method InsertThenExtract(n: array<word>, buf: seq<byte>, lsbyte: nat, big: bool) returns (out: seq<byte>)
    requires lsbyte + |buf| <= 4 * n.Length
    modifies n
    ensures out == buf
  {
    hide ByteAt;
    Insert(n, buf, lsbyte, big);
    if big {
      out := ExtractBig(n, lsbyte, |buf|);
    } else {
      out := ExtractLittle(n, lsbyte, |buf|);
    }
  }

  /** Byte k of the words is byte k of the number: what is extracted is (number / 2^(8 lsbyte)) mod 2^(8 len). */
  lemma ByteOfValue(s: seq<word>, k: nat)
    requires k < 4 * |s|
    ensures Val(s) / Pow(2, 8 * k) % 256 == ByteAt(s, k)
  {
    var i, j := k / 4, k % 4;
    var h := Val(s[i + 1..]);
    assert Val(s[i..]) == s[i] + B * h by { assert s[i..][1..] == s[i + 1..]; }
    PowBytes(j);
    hide Val, Pow;
    WordsDropped(s, i);
    PowAdd(2, 32 * i, 8 * j);
    assert 8 * k == 32 * i + 8 * j;
    DivDiv(Val(s), Pow(2, 32 * i), P(j));
    UpperWords(s[i], h, j);
  }

  lemma PowBytes(j: nat)
    requires j < 4
    ensures Pow(2, 8 * j) == P(j)
  {
    assert Pow(2, 8) == 256;
    PowAdd(2, 8, 8);
    PowAdd(2, 16, 8);
  }

  lemma UpperWords(w: word, h: int, j: nat)
    requires j < 4
    ensures (w + B * h) / P(j) % 256 == ByteOf(w, j)
  {
    var p, k := P(j), P(3 - j);
    assert B == p * (256 * k) by { if j == 0 {} else if j == 1 {} else if j == 2 {} else {} }
    assert w + B * h == (w / p + k * h * 256) * p + w % p by {
      assert p * (256 * k) * h == k * h * 256 * p;
      assert (w / p + k * h * 256) * p == (w / p) * p + k * h * 256 * p;
    }
    DivModUnique(w + B * h, p, w / p + k * h * 256, w % p);
    ModOf(w / p, k * h, 256);
  }

  // ---- bytes of numbers ----

  /** Byte k of a number; above its top all bytes are zero. */
  function NumByte(v: int, k: nat): byte {
    v / Pow(2, 8 * k) % 256
  }

  /** The bytes of a number from lsbyte on, in either order. */
  function NumBytes(v: int, lsbyte: nat, len: nat, big: bool): (r: seq<byte>)
    ensures |r| == len
  {
    seq(len, i requires 0 <= i < len => NumByte(v, Spot(i, len, lsbyte, big)))
  }

  /** Byte k of a number after an insertion. */
  function Patched(v: int, buf: seq<byte>, lsbyte: nat, big: bool, k: nat): byte {
    if lsbyte <= k < lsbyte + |buf| then (if big then buf[lsbyte + |buf| - 1 - k] else buf[k - lsbyte])
      else NumByte(v, k)
  }

  lemma NoBytesAbove(v: int, n: nat, k: nat)
    requires 0 <= v < Pow(2, 32 * n) && k >= 4 * n
    ensures NumByte(v, k) == 0
  {
    hide Pow;
    PowMonotone(2, 32 * n, 8 * k);
    DivModUnique(v, Pow(2, 8 * k), 0, v);
  }

  /** The bytes of a number kept in the low n words of a buffer. */
  lemma BufferByte(s: seq<word>, n: nat, k: nat)
    requires n <= |s|
    ensures NumByte(Val(s[..n]), k) == if k < 4 * n then ByteAt(s, k) else 0
  {
    hide Val, Pow, Up;
    if k < 4 * n {
      ByteOfValue(s[..n], k);
    } else {
      ValBound(s[..n]);
      UpBits(n);
      NoBytesAbove(Val(s[..n]), n, k);
    }
  }

  /** A number is determined by its bytes. */
  lemma {:induction false} BytesDetermine(x: nat, y: nat)
    requires forall k: nat :: NumByte(x, k) == NumByte(y, k)
    ensures x == y
  {
    if x != 0 || y != 0 {
      assert NumByte(x, 0) == x % 256 && NumByte(y, 0) == y % 256;
      forall k: nat ensures NumByte(x / 256, k) == NumByte(y / 256, k) {
        NextPlace(x, k);
        NextPlace(y, k);
      }
      hide NumByte;
      BytesDetermine(x / 256, y / 256);
    }
  }

  lemma NextPlace(x: nat, k: nat)
    ensures NumByte(x / 256, k) == NumByte(x, k + 1)
  {
    assert Pow(2, 8) == 256;
    hide Pow;
    PowAdd(2, 8, 8 * k);
    DivDiv(x, 256, Pow(2, 8 * k));
  }

  /** Some byte from place 4 n on is not zero exactly in numbers of more than n words. */
  lemma {:induction false} ByteAbove(x: nat, n: nat)
    ensures x >= Pow(2, 32 * n) <==> exists k: nat :: k >= 4 * n && NumByte(x, k) != 0
  {
    hide NumByte;
    if x < Pow(2, 32 * n) {
      forall k: nat | k >= 4 * n ensures NumByte(x, k) == 0 { NoBytesAbove(x, n, k); }
    } else {
      var k := TopByte(x, 4 * n);
    }
  }

  lemma {:induction false} TopByte(x: nat, n: nat) returns (k: nat)
    requires x >= Pow(2, 8 * n)
    ensures k >= n && NumByte(x, k) != 0
    decreases x
  {
    if n == 0 {
      if x % 256 != 0 {
        assert NumByte(x, 0) == x % 256;
        return 0;
      }
      k := TopByte(x / 256, 0) by { assert x / 256 >= 1; }
    } else {
      DropByte(x, n);
      k := TopByte(x / 256, n - 1);
    }
    NextPlace(x, k);
    k := k + 1;
  }

  lemma DropByte(x: nat, n: nat)
    requires x >= Pow(2, 8 * n) && n > 0
    ensures x / 256 >= Pow(2, 8 * (n - 1)) && x / 256 < x
  {
    assert Pow(2, 8) == 256;
    hide Pow;
    PowAdd(2, 8, 8 * (n - 1));
    assert 8 + 8 * (n - 1) == 8 * n;
    AboveByte(x, Pow(2, 8 * (n - 1)));
  }

  lemma AboveByte(x: nat, p: int)
    requires x >= 256 * p && p > 0
    ensures x / 256 >= p && x / 256 < x
  {}
}
