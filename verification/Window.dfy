/**
 * The sliding window over an exponent, apart from any arithmetic on the base.  An exponent is read from its
 * top bit into a buffer of w + 1 bits; when the buffer's top bit is set its odd part v is scheduled to be
 * multiplied in at a lower position.
 */
module Window {
  import opened Arith
  import opened Words
  import opened LbnBasic

  function Two(k: nat): (p: int)
    ensures p > 0
  {
    Pow(2, k)
  }

  lemma TwoAdd(j: nat, k: nat)
    ensures Two(j + k) == Two(j) * Two(k)
  {
    PowAdd(2, j, k);
  }

  lemma TwoNext(k: nat)
    ensures Two(k + 1) == 2 * Two(k) && Two(0) == 1
  {}

  lemma TwoMonotone(j: nat, k: nat)
    requires j <= k
    ensures Two(j) <= Two(k)
  {
    PowMonotone(2, j, k);
  }

  /** How many exponent bits are still unread when the window's top bit stands at position pos. */
  function Unread(pos: nat, w: nat): nat {
    if pos >= w then pos - w else 0
  }

  /**
   * The exponent, scaled by 2^w, is the accumulated part a, plus the pending odd multiplier v at position
   * mp (pending while mp < lim), plus the buffer at position pos, plus the unread bits.  A pending multiplier
   * lies above everything in the buffer, so it is never overtaken.
   */
  ghost predicate Win(e: nat, a: int, v: int, mp: int, lim: nat, buf: nat, pos: nat, w: nat) {
    && Two(w) * e == a + (if mp < lim then v * Two(Abs(mp + w)) else 0) + buf * Two(pos)
      + Two(w) * (e % Two(Unread(pos, w)))
    && (mp < lim ==> 0 <= mp && pos <= mp + w && buf * Two(pos) < Two(mp + w))
  }

  function Abs(x: int): nat { if x < 0 then -x else x }

  lemma ModStep(e: nat, k: nat)
    ensures e % Two(k + 1) == ((e / Two(k)) % 2) * Two(k) + e % Two(k)
  {
    var p := Two(k);
    TwoNext(k);
    var q := e / p;
    assert e == q * p + e % p;
    var b := q % 2;
    assert q == 2 * (q / 2) + b;
    assert q * p == (q / 2) * (2 * p) + b * p by {
      assert (2 * (q / 2) + b) * p == (q / 2) * (2 * p) + b * p;
    }
    Scale(b, 1, p);
    Scale(0, b, p);
    DivModUnique(e, 2 * p, q / 2, b * p + e % p);
  }

  /** The bit the window takes in when its top moves down to pos. */
  function NextBit(e: nat, pos: nat, w: nat): (b: nat)
    ensures b <= 1
  {
    if pos >= w then (e / Two(pos - w)) % 2 else 0
  }

  lemma WinRead(e: nat, a: int, v: int, mp: int, lim: nat, buf: nat, pos: nat, w: nat, bit: nat)
    requires Win(e, a, v, mp, lim, buf, pos + 1, w) && bit == NextBit(e, pos, w)
    ensures Win(e, a, v, mp, lim, 2 * buf + bit, pos, w)
  {
    hide Two;
    var r := Unread(pos, w);
    TwoNext(pos);
    assert buf * Two(pos + 1) == 2 * buf * Two(pos);
    assert (2 * buf + bit) * Two(pos) == 2 * buf * Two(pos) + bit * Two(pos);
    if pos >= w {
      ModStep(e, r);
      TwoAdd(r, w);
      assert Two(w) * (bit * Two(r)) == bit * Two(pos);
      assert Two(w) * (bit * Two(r) + e % Two(r)) == Two(w) * (bit * Two(r)) + Two(w) * (e % Two(r));
    }
    if mp < lim { RoomForBit(buf, pos, mp + w, bit); }
  }

  lemma RoomForBit(buf: nat, pos: nat, top: nat, bit: nat)
    requires buf * Two(pos + 1) < Two(top) && bit <= 1
    requires pos < top
    ensures (2 * buf + bit) * Two(pos) < Two(top)
  {
    hide Two;
    TwoNext(pos);
    TwoAdd(top - pos - 1, pos + 1);
    CancelPow(buf, buf, Two(top - pos - 1), Two(pos + 1));
    Scale(buf + 1, Two(top - pos - 1), Two(pos + 1));
    assert (2 * buf + bit) * Two(pos) <= (buf + 1) * (2 * Two(pos)) - Two(pos) by {
      Scale(2 * buf + bit, 2 * buf + 1, Two(pos));
      assert (buf + 1) * (2 * Two(pos)) == (2 * buf + 1) * Two(pos) + Two(pos);
    }
  }

  /** While a multiplier is pending the buffer's top bit cannot be set: nothing pending is overwritten. */
  lemma PendingBlocks(e: nat, a: int, v: int, mp: int, buf: nat, pos: nat, w: nat)
    requires Win(e, a, v, mp, pos + 1, buf, pos, w) && buf >= Two(w)
    ensures mp > pos
  {
    hide Two;
    if mp <= pos {
      TwoAdd(w, pos);
      Scale(Two(w), buf, Two(pos));
      TwoMonotone(mp + w, w + pos);
    }
  }

  /** Past the exponent's end the buffer holds only zeros below the exponent's last bit. */
  lemma TrailingZeros(e: nat, a: int, c: int, v: int, mp: int, buf: nat, pos: nat, w: nat)
    requires Win(e, a, v, mp, pos + 1, buf, pos, w) && mp > pos && a == c * Two(pos + w) && pos < w
    ensures buf % Two(w - pos) == 0
  {
    hide Two;
    TwoAdd(pos, w);
    TwoAdd(w - pos, pos);
    TwoNext(0);
    assert Two(Unread(pos, w)) == 1;
    var k := e - c * Two(pos);
    assert Two(w) * k == Two(w) * e - c * (Two(pos) * Two(w)) by {
      assert Two(w) * (c * Two(pos)) == c * (Two(pos) * Two(w));
    }
    assert buf * Two(pos) == k * Two(w - pos) * Two(pos);
    CancelPow(buf, k * Two(w - pos), k * Two(w - pos) + 1, Two(pos));
    DivModUnique(buf, Two(w - pos), k, 0);
  }

  /**
   * Scheduling: the buffer's bits above the lowest delta, stripped of tz trailing zeros, become the pending
   * multiplier; the low delta bits stay in the buffer.
   */
  lemma WinSchedule(e: nat, a: int, c: int, v: int, mp: int, buf: nat, pos: nat, w: nat, delta: nat, tz: nat, odd: nat)
    requires Win(e, a, v, mp, pos + 1, buf, pos, w) && a == c * Two(pos + w)
    requires delta <= w && Two(w) <= buf < Two(w + 1)
    requires buf / Two(delta) == odd * Two(tz) && odd % 2 == 1
    ensures mp > pos
    ensures 0 <= pos - w + delta + tz <= pos
    ensures Win(e, a, odd, pos - w + delta + tz, pos + 1, buf % Two(delta), pos, w)
    ensures 0 < odd < Two(w - delta + 1)
  {
    assert mp > pos && 0 <= pos - w + delta + tz <= pos && 0 < odd < Two(w - delta + 1) by {
      hide Two;
      PendingBlocks(e, a, v, mp, buf, pos, w);
      TopRange(buf, buf / Two(delta), odd, w, delta, tz);
      if pos < w {
        TrailingZeros(e, a, c, v, mp, buf, pos, w);
        if w - pos > delta { ZerosBelow(buf, odd, w - pos, delta, tz); }
      }
    }
    hide Two;
    Rescheduled(buf, pos, w, delta, tz, odd);
  }

  lemma Rescheduled(buf: nat, pos: nat, w: nat, delta: nat, tz: nat, odd: nat)
    requires 0 <= pos - w + delta + tz && buf / Two(delta) == odd * Two(tz)
    ensures odd * Two(pos + delta + tz) + (buf % Two(delta)) * Two(pos) == buf * Two(pos)
    ensures (buf % Two(delta)) * Two(pos) < Two(pos + delta + tz)
  {
    hide Two;
    var low, top := buf % Two(delta), buf / Two(delta);
    assert buf == top * Two(delta) + low;
    TwoAdd(tz, delta);
    TwoAdd(tz + delta, pos);
    assert odd * (Two(tz) * Two(delta) * Two(pos)) == odd * Two(tz) * Two(delta) * Two(pos);
    assert (top * Two(delta) + low) * Two(pos) == top * Two(delta) * Two(pos) + low * Two(pos);
    TwoAdd(delta, pos);
    TwoMonotone(delta + pos, pos + delta + tz);
    Scale(low + 1, Two(delta), Two(pos));
    assert (low + 1) * Two(pos) == low * Two(pos) + Two(pos);
  }

  lemma TopRange(buf: nat, top: nat, odd: nat, w: nat, delta: nat, tz: nat)
    requires delta <= w && Two(w) <= buf < Two(w + 1) && top == buf / Two(delta) && top == odd * Two(tz)
    ensures odd > 0 && tz <= w - delta && odd < Two(w - delta + 1)
  {
    hide Two;
    TwoAdd(w - delta + 1, delta);
    TwoAdd(w - delta, delta);
    TwoAdd(delta, w - delta + 1);
    DivBelow(buf, Two(delta), Two(w - delta + 1));
    assert buf == top * Two(delta) + buf % Two(delta);
    TwoMonotone(delta, w);
    if odd <= 0 { Scale(odd, 0, Two(tz)); }
    if tz > w - delta {
      TwoMonotone(w - delta + 1, tz);
      Scale(1, odd, Two(tz));
    }
    if odd >= Two(w - delta + 1) {
      TwoMonotone(0, tz);
      TwoNext(0);
      Scale(1, Two(tz), odd);
    }
  }

  lemma ZerosBelow(buf: nat, odd: nat, z: nat, delta: nat, tz: nat)
    requires z > delta && buf % Two(z) == 0 && buf / Two(delta) == odd * Two(tz) && odd % 2 == 1
    ensures tz >= z - delta
  {
    hide Two;
    TwoAdd(z - delta, delta);
    var k := buf / Two(z);
    assert buf == Two(z) * k;
    assert buf == k * Two(z - delta) * Two(delta);
    DivModUnique(buf, Two(delta), k * Two(z - delta), 0);
    if tz < z - delta {
      TwoAdd(z - delta - tz, tz);
      assert odd * Two(tz) == k * Two(z - delta - tz) * Two(tz);
      TwoNext(z - delta - tz - 1);
      assert k * Two(z - delta - tz) == 2 * (k * Two(z - delta - tz - 1));
      CancelPow(odd, k * Two(z - delta - tz), k * Two(z - delta - tz) + 1, Two(tz));
    }
  }

  /** Position pos is finished: a multiplier due there joins the accumulated part. */
  lemma WinFinish(e: nat, a: int, v: int, mp: int, buf: nat, pos: nat, w: nat)
    requires Win(e, a, v, mp, pos + 1, buf, pos, w)
    ensures Win(e, if mp == pos then a + v * Two(pos + w) else a, v, mp, pos, buf, pos, w)
  {}

  /** At position 0 the whole exponent has been accumulated and the buffer is empty. */
  lemma WinEnd(e: nat, c: int, v: int, mp: int, buf: nat, w: nat)
    requires Win(e, c * Two(w), v, mp, 0, buf, 0, w) && buf < Two(w)
    ensures c == e && buf == 0
  {
    hide Two;
    TwoNext(0);
    assert mp >= 0;
    assert Two(w) * e == c * Two(w) + buf;
    DivModUnique(Two(w) * e, Two(w), c, buf);
    DivModUnique(Two(w) * e, Two(w), e, 0);
  }
}
