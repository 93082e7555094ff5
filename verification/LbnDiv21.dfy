/** Dividing a double word by a normalised word, one half-word digit at a time. */
module LbnDiv21 {
  import opened Arith
  import opened Words

  const H: int := 0x1_0000

  function HighHalf(x: word): (h: int)
    ensures 0 <= h < H && h * H <= x < (h + 1) * H
  {
    x / H
  }

  function LowHalf(x: word): (l: int)
    ensures 0 <= l < H && x == HighHalf(x) * H + l
  {
    x % H
  }

  /** The estimate from the high half of d: t is what r0.x minus q0 times d leaves, at most two d short. */
  lemma HalfEstimate(r0: int, x: int, d: int, dh: int, dl: int)
    requires H / 2 <= dh < H && 0 <= dl < H && d == dh * H + dl
    requires 0 <= r0 < d && 0 <= x < H
    ensures 0 <= r0 / dh <= H + 1
    ensures 0 <= (r0 / dh) * dl < B
    ensures 0 <= (r0 % dh) * H + x < dh * H
    ensures ((r0 % dh) * H + x) - (r0 / dh) * dl == r0 * H + x - (r0 / dh) * d
  {
    var q := r0 / dh;
    assert r0 == dh * q + r0 % dh;
    if q >= H + 2 { Scale(H + 2, q, dh); }
    if q < 0 { Scale(q, -1, dh); }
    Scale(q, H + 1, dl);
    Scale(0, q, dl);
    calc {
      q * d;
      q * (dh * H + dl);
      q * dh * H + q * dl;
    }
  }

  /** The digit that leaves a remainder below d fits a half word. */
  lemma HalfDigitFits(r0: int, x: int, d: int, q: int, r: int)
    requires 0 <= r0 < d && 0 <= x < H && r0 * H + x == q * d + r && 0 <= r < d
    ensures 0 <= q < H
  {
    if q >= H { Scale(H, q, d); }
    if q < 0 { Scale(q, -1, d); }
  }

  /** One half-word digit of the quotient, corrected at most twice, all in 32-bit arithmetic. */
  method HalfDigit(r0: word, x: int, d: word, dh: int, dl: int) returns (q: int, r: word)
    requires H / 2 <= dh < H && 0 <= dl < H && d == dh * H + dl
    requires r0 < d && 0 <= x < H
    ensures 0 <= q < H && r < d
    ensures r0 * H + x == q * d + r
  {
    hide Lo, Hi;
    HalfEstimate(r0, x, d, dh, dl);
    ghost var t := (r0 % dh) * H + x - (r0 / dh) * dl;
    q, r := CorrectDigit(r0 / dh, (r0 % dh) * H + x, (r0 / dh) * dl, d);
    Corrected(r0 * H + x, r0 / dh, d, q, t, r);
    HalfDigitFits(r0, x, d, q, r);
  }

  /** Lowers the digit while the subtraction of prod would go below zero; a wrapped sum ends the search. */
  method CorrectDigit(q0: int, r0: word, prod: word, d: word) returns (q: int, r: word)
    requires d >= B / 2 && r0 < d
    ensures q0 - 2 <= q <= q0
    ensures r as int == r0 as int - prod + (q0 - q) * d && r < d
  {
    q, r := q0, r0;
    if r < prod {
      q := q - 1;
      r := Lo(r as int + d);
      if r >= d && r < prod {
        q := q - 1;
        r := Lo(r as int + d);
      }
    }
    r := Lo(r as int - prod);
  }

  lemma Corrected(n: int, q0: int, d: int, q: int, t: int, r: int)
    requires n == q0 * d + t && q0 - 2 <= q <= q0 && r == t + (q0 - q) * d
    ensures n == q * d + r
  {}

  /** (nh, nl) divided by d, whose top bit is set. */
  method Div21(nh: word, nl: word, d: word) returns (q: word, r: word)
    requires d >= B / 2 && nh < d
    ensures nh * B + nl == q * d + r
    ensures r < d
  {
    var dh, dl := HighHalf(d), LowHalf(d);
    var qh, rh := HalfDigit(nh, HighHalf(nl), d, dh, dl);
    var ql, rl := HalfDigit(rh, LowHalf(nl), d, dh, dl);
    q := qh * H + ql;
    r := rl;
    assert (qh * H + ql) * d == qh * d * H + ql * d;
  }
}
