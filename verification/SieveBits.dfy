/** A sieve is an array of bytes; bit k stands for the k-th number of an arithmetic progression. */
module SieveBits {
  import opened Arith

  type byte = bv8

  const Powers: seq<byte> := [1, 2, 4, 8, 16, 32, 64, 128]

  function ByteBit(x: byte, i: nat): bool
    requires i < 8
  {
    x & Powers[i] != 0
  }

  /** Bit k is set; bits beyond the array are not. */
  predicate BitSet(s: seq<byte>, k: nat) {
    k / 8 < |s| && ByteBit(s[k / 8], k % 8)
  }

  /** The n-th place that a sieving step visits. */
  function Place(start: nat, step: nat, n: nat): (k: nat)
  {
    Scale(0, n, step);
    start + n * step
  }

  ghost predicate Hit(k: nat, start: nat, step: nat) {
    exists n: nat :: k == Place(start, step, n)
  }

  lemma MaskBit(x: byte, p: byte, j: nat, i: nat)
    requires i < 8 && j < 8 && p == Powers[i]
    ensures ByteBit(x & !p, j) <==> ByteBit(x, j) && i != j
  {
    assert Powers[j] == [1, 2, 4, 8, 16, 32, 64, 128][j];
    assert i != j ==> p & Powers[j] == 0;
    assert (x & !p) & Powers[j] == x & (Powers[j] & !p);
  }

  lemma ClearOne(s: seq<byte>, p: nat, k: nat)
    requires p / 8 < |s|
    ensures BitSet(s[p / 8 := s[p / 8] & !Powers[p % 8]], k) <==> BitSet(s, k) && k != p
  {
    if k / 8 == p / 8 { MaskBit(s[p / 8], Powers[p % 8], k % 8, p % 8); }
  }

  /** The places visited so far by one lane: every eighth, from the r-th on and before the n-th. */
  ghost predicate InLane(k: nat, start: nat, step: nat, r: nat, n: nat) {
    exists m: nat :: r <= m < n && m % 8 == r % 8 && k == Place(start, step, m)
  }

  /** What is left of a sieve of which the places that P describes have been cleared. */
  ghost predicate Cleared(s: seq<byte>, s0: seq<byte>, P: nat -> bool) {
    |s| == |s0| && forall k: nat :: BitSet(s, k) <==> BitSet(s0, k) && !P(k)
  }

  lemma PlaceNext(start: nat, step: nat, n: nat)
    ensures Place(start, step, n + 1) == Place(start, step, n) + step
    ensures Place(start, step, n + 8) == Place(start, step, n) + 8 * step
  {
    assert (n + 1) * step == n * step + step;
    assert (n + 8) * step == n * step + 8 * step;
  }

  lemma PlaceGrows(start: nat, step: nat, m: nat, n: nat)
    requires m <= n
    ensures Place(start, step, m) <= Place(start, step, n)
  {
    Scale(m, n, step);
  }

  lemma LaneNext(k: nat, start: nat, step: nat, r: nat, n: nat)
    requires r <= n && n % 8 == r % 8
    ensures InLane(k, start, step, r, n + 8) <==> InLane(k, start, step, r, n) || k == Place(start, step, n)
  {
    hide Place;
    if InLane(k, start, step, r, n + 8) {
      var m: nat :| r <= m < n + 8 && m % 8 == r % 8 && k == Place(start, step, m);
      if m >= n { assert m == n; }
    }
    if InLane(k, start, step, r, n) {
      var m: nat :| r <= m < n && m % 8 == r % 8 && k == Place(start, step, m);
      assert r <= m < n + 8 && m % 8 == r % 8 && k == Place(start, step, m);
    }
  }

  /** Clears every eighth place from the r-th on; these all have the same position in their bytes. */
  method ClearLane(a: array<byte>, start: nat, step: nat, ghost start0: nat, ghost r: nat) returns (ghost n: nat)
    requires step > 0 && start == Place(start0, step, r) && start / 8 < a.Length
    modifies a
    ensures r <= n && Place(start0, step, n) >= 8 * a.Length
    ensures Cleared(a[..], old(a[..]), (k: nat) => InLane(k, start0, step, r, n))
  {
    hide Place, BitSet, InLane;
    n := r;
    var i := start / 8;
    var mask := !Powers[start % 8];
    LaneEmpty(start0, step, r);
    while true
      invariant r <= n && n % 8 == r % 8 && i == Place(start0, step, n) / 8 < a.Length
        && Place(start0, step, n) % 8 == start % 8
      invariant Cleared(a[..], old(a[..]), (k: nat) => InLane(k, start0, step, r, n))
      decreases a.Length - i
    {
      ghost var s := a[..];
      a[i] := a[i] & mask;
      LaneStep(s, a[..], old(a[..]), start0, step, r, n);
      PlaceNext(start0, step, n);
      n := n + 8;
      i := i + step;
      if i >= a.Length { break; }
    }
  }

  lemma LaneEmpty(start: nat, step: nat, r: nat)
    ensures forall k: nat :: !InLane(k, start, step, r, r)
  {}

  lemma LaneStep(s: seq<byte>, s': seq<byte>, s0: seq<byte>, start: nat, step: nat, r: nat, n: nat)
    requires r <= n && n % 8 == r % 8 && Cleared(s, s0, (k: nat) => InLane(k, start, step, r, n))
    requires var p := Place(start, step, n); p / 8 < |s| && s' == s[p / 8 := s[p / 8] & !Powers[p % 8]]
    ensures Cleared(s', s0, (k: nat) => InLane(k, start, step, r, n + 8))
  {
    hide Place, BitSet, InLane;
    forall k: nat ensures BitSet(s', k) <==> BitSet(s0, k) && !InLane(k, start, step, r, n + 8) {
      ClearOne(s, Place(start, step, n), k);
      LaneNext(k, start, step, r, n);
    }
  }

  /** The places visited by the first b lanes. */
  ghost predicate InLanes(k: nat, start: nat, step: nat, b: nat) {
    exists m: nat :: m % 8 < b && k == Place(start, step, m)
  }

  /** Clears the places start, start + step, start + 2 step, ... and no others. */
  method Single(a: array<byte>, start: nat, step: nat)
    requires step > 0
    modifies a
    ensures Cleared(a[..], old(a[..]), (k: nat) => Hit(k, start, step))
  {
    hide Place, BitSet, InLane, InLanes, Hit;
    var at, b := start, 0;
    LanesEmpty(start, step);
    while b < 8
      invariant 0 <= b <= 8 && at == Place(start, step, b)
      invariant Cleared(a[..], old(a[..]), (k: nat) => InLanes(k, start, step, b))
    {
      if at / 8 >= a.Length { break; }
      ghost var s := a[..];
      ghost var n := ClearLane(a, at, step, start, b);
      LanesStep(a[..], s, old(a[..]), start, step, b, n);
      PlaceNext(start, step, b);
      at := at + step;
      b := b + 1;
    }
    LanesAll(a[..], old(a[..]), start, step, b);
  }

  lemma LanesEmpty(start: nat, step: nat)
    ensures Place(start, step, 0) == start
    ensures forall k: nat :: !InLanes(k, start, step, 0)
  {}

  /** A lane that ran to the end of the array visited all of its places in the array. */
  lemma LanesNext(k: nat, size: nat, start: nat, step: nat, b: nat, n: nat)
    requires b < 8 && k < 8 * size <= Place(start, step, n)
    ensures InLanes(k, start, step, b + 1) <==> InLanes(k, start, step, b) || InLane(k, start, step, b, n)
  {
    hide Place;
    if InLanes(k, start, step, b + 1) {
      var m: nat :| m % 8 < b + 1 && k == Place(start, step, m);
      if m % 8 == b {
        if m >= n { PlaceGrows(start, step, n, m); }
        assert b <= m < n && m % 8 == b % 8 && k == Place(start, step, m);
      } else {
        assert m % 8 < b && k == Place(start, step, m);
      }
    }
    if InLanes(k, start, step, b) {
      var m: nat :| m % 8 < b && k == Place(start, step, m);
      assert m % 8 < b + 1 && k == Place(start, step, m);
    }
    if InLane(k, start, step, b, n) {
      var m: nat :| b <= m < n && m % 8 == b % 8 && k == Place(start, step, m);
      assert m % 8 < b + 1 && k == Place(start, step, m);
    }
  }

  lemma LanesStep(s': seq<byte>, s: seq<byte>, s0: seq<byte>, start: nat, step: nat, b: nat, n: nat)
    requires b < 8 && 8 * |s| <= Place(start, step, n)
    requires Cleared(s, s0, (k: nat) => InLanes(k, start, step, b))
      && Cleared(s', s, (k: nat) => InLane(k, start, step, b, n))
    ensures Cleared(s', s0, (k: nat) => InLanes(k, start, step, b + 1))
  {
    hide Place, InLane, InLanes;
    forall k: nat ensures BitSet(s', k) <==> BitSet(s0, k) && !InLanes(k, start, step, b + 1) {
      if k < 8 * |s| { LanesNext(k, |s|, start, step, b, n); }
    }
  }

  lemma LanesAll(s: seq<byte>, s0: seq<byte>, start: nat, step: nat, b: nat)
    requires b <= 8 && (b < 8 ==> 8 * |s| <= Place(start, step, b))
      && Cleared(s, s0, (k: nat) => InLanes(k, start, step, b))
    ensures Cleared(s, s0, (k: nat) => Hit(k, start, step))
  {
    hide Place, InLanes, Hit;
    forall k: nat ensures BitSet(s, k) <==> BitSet(s0, k) && !Hit(k, start, step) {
      if k < 8 * |s| { LanesHit(k, |s|, start, step, b); }
    }
  }

  lemma LanesHit(k: nat, size: nat, start: nat, step: nat, b: nat)
    requires b <= 8 && (b < 8 ==> 8 * size <= Place(start, step, b)) && k < 8 * size
    ensures InLanes(k, start, step, b) <==> Hit(k, start, step)
  {
    hide Place;
    if Hit(k, start, step) {
      var n: nat :| k == Place(start, step, n);
      if n >= b && b < 8 { PlaceGrows(start, step, b, n); }
      assert n % 8 < b && k == Place(start, step, n);
    }
    if InLanes(k, start, step, b) {
      var n: nat :| n % 8 < b && k == Place(start, step, n);
      assert k == Place(start, step, n);
    }
  }

  // ---- searching ----

  /** The position of the lowest set bit, by halving. */
  method LowestBit(x: byte) returns (i: nat)
    requires x != 0
    ensures i < 8 && ByteBit(x, i) && forall j :: 0 <= j < i ==> !ByteBit(x, j)
  {
    var t := x;
    i := 0;
    if t & 15 == 0 {
      t := t >> 4;
      i := i + 4;
    }
    if t & 3 == 0 {
      t := t >> 2;
      i := i + 2;
    }
    if t & 1 == 0 { i := i + 1; }
  }

  lemma ShiftBit(x: byte, i: nat, j: nat)
    requires i < 8 && j < 8
    ensures ByteBit(x >> i, j) <==> i + j < 8 && ByteBit(x, i + j)
  {
    assert Powers == [1, 2, 4, 8, 16, 32, 64, 128];
    if i == 0 {} else if i == 1 {} else if i == 2 {} else if i == 3 {} else if i == 4 {} else if i == 5 {}
      else if i == 6 {} else {}
  }

  lemma NoBits(x: byte, j: nat)
    requires x == 0 && j < 8
    ensures !ByteBit(x, j)
  {}

  /** From place at to the end of its byte, the set bits are those of the byte shifted down. */
  lemma ByteFrom(s: seq<byte>, at: nat, j: nat)
    requires at / 8 < |s| && at <= j < 8 * (at / 8) + 8
    ensures BitSet(s, j) <==> ByteBit(s[at / 8] >> (at % 8), j - at)
  {
    ShiftBit(s[at / 8], at % 8, j - at);
  }

  /** The first set bit from at on in its byte; none if the rest of the byte is clear. */
  method SearchByte(a: array<byte>, at: nat) returns (found: bool, k: nat)
    requires at / 8 < a.Length
    ensures found ==>
      at <= k < 8 * (at / 8) + 8 && BitSet(a[..], k) && forall j: nat :: at <= j < k ==> !BitSet(a[..], j)
    ensures !found ==> forall j: nat :: at <= j < 8 * (at / 8) + 8 ==> !BitSet(a[..], j)
  {
    hide ByteBit, BitSet;
    var t := a[at / 8] >> (at % 8);
    found, k := t != 0, 0;
    if found {
      var b := LowestBit(t);
      k := at + b;
      ShiftBit(a[at / 8], at % 8, b);
      forall j: nat | at <= j <= k ensures BitSet(a[..], j) <==> ByteBit(t, j - at) { ByteFrom(a[..], at, j); }
    } else {
      forall j: nat | at <= j < 8 * (at / 8) + 8
        ensures !BitSet(a[..], j)
      {
        ByteFrom(a[..], at, j);
        NoBits(t, j - at);
      }
    }
  }

  /** The next set bit after start in the first size bytes, or 0 if there is none. */
  method Search(a: array<byte>, size: nat, start: nat) returns (k: nat)
    requires size <= a.Length
    ensures k == 0 ==> forall j: nat :: start < j < 8 * size ==> !BitSet(a[..], j)
    ensures k != 0 ==> start < k < 8 * size && BitSet(a[..], k) && forall j: nat :: start < j < k ==> !BitSet(a[..], j)
  {
    hide ByteBit;
    var at := start + 1;
    var i := at / 8;
    if i >= size { return 0; }
    if at % 8 != 0 {
      var found, first := SearchByte(a, at);
      if found { return first; }
      i := i + 1;
      if i == size { return 0; }
    }
    while i < size
      invariant i <= size && start < 8 * i
      invariant forall j: nat :: start < j < 8 * i ==> !BitSet(a[..], j)
    {
      var found, first := SearchByte(a, 8 * i);
      if found { return first; }
      i := i + 1;
    }
    return 0;
  }
}
