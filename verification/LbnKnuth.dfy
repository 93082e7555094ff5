/** Knuth's algorithm D on word arrays, with the quotient optionally laid over the dividend. */
module LbnKnuth {
  import opened Arith
  import opened Words
  import opened LbnBasic
  import opened LbnMul
  import opened LbnDiv21
  import opened LbnDiv

  // ---- the quotient digit estimate ----

  /** A digit that is neither low nor more than one high, judged on three dividend and two divisor words. */
  ghost predicate GoodEstimate(qhat: int, nh: int, nm: int, nl: int, dh: int, dl: int) {
    && 0 <= qhat < B
    && ((qhat + 1) * (dh * B + dl) > (nh * B + nm) * B + nl || qhat == B - 1)
    && (qhat * (dh * B + dl) <= (nh * B + nm) * B + nl || (qhat + 1) * dh <= nh * B + nm)
  }

  /**
   * What such an estimate is worth for the whole numbers: w = (n3, low) and d = (d2, low) agree with the
   * estimated words above p, and the true digit is qhat or qhat - 1.
   */
  lemma EstimateBounds(qhat: int, nh: int, nm: int, nl: int, dh: int, dl: int, p: int, wl: int, e: int, w: int, d: int)
    requires GoodEstimate(qhat, nh, nm, nl, dh, dl)
    requires B / 2 <= dh < B && 0 <= dl < B && 0 <= nm && 0 <= nl < B
    requires p > 0 && 0 <= wl < p && 0 <= e < p
    requires w == ((nh * B + nm) * B + nl) * p + wl && d == (dh * B + dl) * p + e
    requires 0 <= w < B * d
    ensures qhat * d + d > w
    ensures qhat * d - d <= w
  {
    var n2, n3, d2 := nh * B + nm, (nh * B + nm) * B + nl, dh * B + dl;
    if qhat == B - 1 {
      assert qhat * d + d == B * d;
    } else {
      Scale(n3 + 1, (qhat + 1) * d2, p);
      assert (qhat + 1) * d2 * p == (qhat + 1) * (d2 * p);
      Scale(0, qhat + 1, e);
      assert (qhat + 1) * (d2 * p + e) == (qhat + 1) * (d2 * p) + (qhat + 1) * e;
      assert (n3 + 1) * p == n3 * p + p;
    }
    NotTooHigh(qhat, n2, n3, dh, d2, nl, dl, p, wl, e, w, d);
  }

  lemma NotTooHigh(qhat: int, n2: int, n3: int, dh: int, d2: int, nl: int, dl: int, p: int, wl: int, e: int, w: int,
                   d: int)
    requires 0 <= qhat < B && n3 == n2 * B + nl && d2 == dh * B + dl
    requires B / 2 <= dh < B && 0 <= dl < B && 0 <= nl
    requires p > 0 && 0 <= wl && 0 <= e < p && w == n3 * p + wl && d == d2 * p + e && w >= 0
    requires qhat * d2 <= n3 || (qhat + 1) * dh <= n2
    ensures qhat * d - d <= w
  {
    Scale(0, d2, p);
    if qhat == 0 {
    } else if qhat * d2 <= n3 {
      Scale(qhat * d2, n3, p);
      Associate(qhat, d2, p);
      assert qhat * (d2 * p + e) == qhat * (d2 * p) + qhat * e;
      Scale(qhat, B, e);
      Scale(B, d2, p);
    } else {
      NotTooHighTop(qhat, n2, n3, dh, d2, nl, dl, p, e, d);
      Scale(0, wl, 1);
    }
  }

  /** The case in which even the top word of the estimate's product does not exceed the dividend's. */
  lemma NotTooHighTop(qhat: int, n2: int, n3: int, dh: int, d2: int, nl: int, dl: int, p: int, e: int, d: int)
    requires 0 < qhat < B && n3 == n2 * B + nl && d2 == dh * B + dl && B / 2 <= dh && 0 <= dl < B && 0 <= nl
    requires p > 0 && 0 <= e < p && d == d2 * p + e && (qhat + 1) * dh <= n2
    ensures qhat * d - d <= n3 * p
  {
    var m := B * p;
    assert d <= (dh + 1) * m by {
      assert d2 * p == dh * m + dl * p;
      Scale(dl, B - 1, p);
      assert (dh + 1) * m == dh * m + B * p;
    }
    Scale(d, (dh + 1) * m, qhat - 1);
    assert (qhat - 1) * d == qhat * d - d;
    MulExpand(qhat, -1, dh, 1);
    assert (qhat + 1) * dh == qhat * dh + dh;
    Scale((qhat - 1) * (dh + 1), n2, m);
    Exchange(dh + 1, m, qhat - 1);
    assert n3 * p == n2 * m + nl * p by { Associate(n2, B, p); }
    Scale(0, nl, p);
  }

  /** One correction: a failed test means qhat was too high, so one less is still not low. */
  lemma Lowered(qhat: int, r: int, dh: int, dl: int, n2: int, nl: int)
    requires n2 == qhat * dh + r
    ensures qhat * (dh * B + dl) - (n2 * B + nl) == qhat * dl - (r * B + nl)
    ensures n2 == (qhat - 1) * dh + (r + dh)
    ensures (qhat - 1) * dl == qhat * dl - dl
  {
    assert qhat * (dh * B + dl) == qhat * dh * B + qhat * dl;
  }

  /** A remainder past the word base passes the three-word test outright. */
  lemma WrapPasses(qhat: int, r: int, dl: int, nl: int)
    requires 0 <= qhat < B && 0 <= dl < B && r >= B && nl >= 0
    ensures qhat * dl <= r * B + nl
  {
    Scale(qhat, B, dl);
  }

  /** The estimate for all digits but the first. */
  method NextEstimate(nh: word, nm: word, nl: word, dh: word, dl: word) returns (qhat: word)
    requires dh >= B / 2 && nh <= dh
    ensures GoodEstimate(qhat, nh, nm, nl, dh, dl)
  {
    hide Lo, Hi;
    ghost var n2 := nh * B + nm;
    var r: word;
    if nh == dh {
      qhat := B - 1;
      assert n2 == qhat * dh + (nh + nm);
      r := Lo(nh as int + nm);
      if r < nh {
        Lowered(qhat, nh as int + nm, dh, dl, n2, nl);
        WrapPasses(qhat, nh as int + nm, dl, nl);
        return;
      }
    } else {
      qhat, r := Div21(nh, nm, dh);
    }
    qhat := Refine(qhat, r, nh, nm, nl, dh, dl, false);
  }

  /** The estimate for the first digit, whose window has nh beyond the stored words. */
  method FirstEstimate(nh: word, nm: word, nl: word, dh: word, dl: word) returns (qhat: word)
    requires dh >= B / 2 && nh < dh && (nh != 0 || nm >= dh)
    ensures GoodEstimate(qhat, nh, nm, nl, dh, dl)
  {
    var r: word;
    if nh != 0 {
      qhat, r := Div21(nh, nm, dh);
    } else {
      ShrBound(nm, dh);
      qhat, r := nm / dh, nm % dh;
      assert nm == qhat * dh + r;
    }
    qhat := Refine(qhat, r, nh, nm, nl, dh, dl, true);
  }

  /**
   * The three-word test, made at most twice.  For the first digit the code skips the second test when
   * the remainder was zero, which one add-back still covers.
   */
  method Refine(q0: word, r0: word, nh: word, nm: word, nl: word, dh: word, dl: word, first: bool) returns (qhat: word)
    requires dh >= B / 2 && nh * B + nm == q0 * dh + r0
    requires q0 == B - 1 || r0 < dh
    ensures GoodEstimate(qhat, nh, nm, nl, dh, dl)
  {
    hide Lo, Hi;
    ghost var n2 := nh * B + nm;
    qhat := q0;
    var t: int := qhat * dl;
    Lowered(q0, r0, dh, dl, n2, nl);
    Lowered(q0 as int - 1, r0 as int + dh, dh, dl, n2, nl);
    NotLow(q0, r0, dh, dl, n2, nl);
    if t > r0 * B + nl {
      ZeroPasses(q0, dl, r0, nl);
      qhat := qhat - 1;
      var r := Lo(r0 as int + dh);
      if (if first then r > dh else r >= dh) {
        t := t - dl;
        if t > r * B + nl {
          ZeroPasses(qhat, dl, r, nl);
          qhat := qhat - 1;
          Lowered(qhat, r as int + dh, dh, dl, n2, nl);
          WrapPasses(qhat, r as int + dh, dl, nl);
        }
      } else if r < dh {
        WrapPasses(qhat, r0 as int + dh, dl, nl);
      }
    }
  }

  lemma ZeroPasses(q: int, dl: int, r: int, nl: int)
    requires q >= 0 && r >= 0 && nl >= 0 && q * dl > r * B + nl
    ensures q > 0
  {}

  lemma NotLow(q: int, r: int, dh: int, dl: int, n2: int, nl: int)
    requires 0 <= q && n2 == q * dh + r && 0 <= dl && 0 <= nl < B && dh > 0
    ensures r < dh ==> (q + 1) * (dh * B + dl) > n2 * B + nl
  {
    if r < dh {
      assert (q + 1) * (dh * B + dl) == (q * dh + dh) * B + (q + 1) * dl;
      Scale(0, q + 1, dl);
    }
  }

  // ---- multiply and subtract ----

  /** What the word above the window, the returned carry and the sign of w - qhat*d have to do with each other. */
  lemma BorrowMeans(w: int, low: int, nh: int, r: int, x: int, d: int, qd: int, k: nat)
    requires w == low + Up(nh, k) && x + qd == low + Up(r, k)
    requires 0 <= x < Up(1, k) && 0 < d <= Up(1, k)
    requires qd + d > w && qd - d <= w
    ensures r > nh ==> x + d - Up(1, k) == w - qd + d && 0 <= w - qd + d < d
    ensures r <= nh ==> x == w - qd && 0 <= w - qd < d
  {
    hide Up;
    UpAdd(nh, r - nh, k);
    UpAdd(1, r - nh - 1, k);
    UpAdd(1, nh - r - 1, k);
    UpNeg(r - nh, k);
    UpMonotone(0, r - nh - 1, k);
    UpMonotone(0, r - nh - 2, k);
    UpAdd(1, r - nh - 2, k);
    UpMonotone(0, nh - r - 1, k);
    UpZero(k);
  }

  /** Subtracts qhat times the divisor from the window and adds the divisor back once if that was too much. */
  method SubtractDigit(n: array<word>, o: nat, d: array<word>, dd: nat, dlen: nat, nh: word, qhat: word, ghost w: int)
    returns (q: word)
    requires n != d && o + dlen <= n.Length && dd + dlen <= d.Length
    requires w == Val(n[o..o + dlen]) + Up(nh, dlen) && w >= 0
    requires Val(d[dd..dd + dlen]) > 0
    requires Val(d[dd..dd + dlen]) * qhat + Val(d[dd..dd + dlen]) > w
    requires Val(d[dd..dd + dlen]) * qhat - Val(d[dd..dd + dlen]) <= w
    modifies n
    ensures w == q * Val(d[dd..dd + dlen]) + Val(n[o..o + dlen])
    ensures Val(n[o..o + dlen]) < Val(d[dd..dd + dlen])
    ensures forall i :: 0 <= i < n.Length && (i < o || o + dlen <= i) ==> n[i] == old(n[i])
  {
    hide Val, Up;
    ghost var dv := Val(d[dd..dd + dlen]);
    ghost var low := Val(n[o..o + dlen]);
    ValBound(d[dd..dd + dlen]);
    var r := MulSub1(n, o, d, dd, dlen, qhat);
    ghost var x := Val(n[o..o + dlen]);
    ValBound(n[o..o + dlen]);
    BorrowMeans(w, low, nh, r, x, dv, dv * qhat, dlen);
    q := qhat;
    if r > nh {
      var c := AddN(n, o, d, dd, dlen);
      ValBound(n[o..o + dlen]);
      UpZero(dlen);
      assert c == 1;
      ZeroDigit(qhat, dv, w);
      q := qhat - 1;
      assert q * dv == dv * qhat - dv;
    }
  }

  lemma ZeroDigit(q: word, d: int, w: int)
    requires d * q > w && w >= 0
    ensures q > 0
  {}

  /** The words a window of the dividend and the divisor are estimated from. */
  lemma TopWords(s: seq<word>, k: nat)
    requires |s| == k >= 2
    ensures Val(s) == (s[k - 1] * B + s[k - 2]) * Up(1, k - 2) + Val(s[..k - 2])
    ensures 0 <= Val(s[..k - 2]) < Up(1, k - 2)
  {
    ValSplit(s, k - 2);
    ValBound(s[..k - 2]);
    assert s[k - 2..] == [s[k - 2], s[k - 1]];
    assert Val([s[k - 2], s[k - 1]]) == s[k - 2] + B * s[k - 1] by {
      assert [s[k - 2], s[k - 1]][1..] == [s[k - 1]];
      assert Val([s[k - 1]]) == s[k - 1];
    }
    hide Val, Up;
    var v := s[k - 1] * B + s[k - 2];
    UpIsProduct(v, k - 2);
    UpIsProduct(1, k - 2);
  }

  /** Whatever lies in the window below nh and the estimate's words, the bounds on the digit follow. */
  lemma WindowBounds(s: seq<word>, nh: word, d: seq<word>, qhat: word, k: nat)
    requires |s| == |d| == k >= 2 && d[k - 1] >= B / 2
    requires GoodEstimate(qhat, nh, s[k - 1], s[k - 2], d[k - 1], d[k - 2])
    requires 0 <= Val(s) + Up(nh, k) < B * Val(d)
    ensures Val(d) > 0
    ensures Val(d) * qhat + Val(d) > Val(s) + Up(nh, k)
    ensures Val(d) * qhat - Val(d) <= Val(s) + Up(nh, k)
  {
    hide Val, Up, GoodEstimate;
    TopWords(s, k);
    TopWords(d, k);
    var p := Up(1, k - 2);
    var low: int := d[k - 1] * B + d[k - 2];
    BaseSquared(nh, k - 2);
    ThreeWords(nh, s[k - 1], s[k - 2], p);
    Scale(1, low, p);
    EstimateBounds(qhat, nh, s[k - 1], s[k - 2], d[k - 1], d[k - 2], p, Val(s[..k - 2]), Val(d[..k - 2]),
                   Val(s) + Up(nh, k), Val(d));
    Commute(Val(d), qhat);
  }

  lemma Commute(x: int, y: int)
    ensures x * y == y * x
  {}

  lemma ThreeWords(x: int, y: int, z: int, p: int)
    ensures ((x * B + y) * B + z) * p == x * B * B * p + (y * B + z) * p
  {
    assert (x * B + y) * B + z == x * B * B + (y * B + z);
    var u, v := x * B * B, y * B + z;
    assert (u + v) * p == u * p + v * p;
  }

  lemma BaseSquared(x: int, k: nat)
    ensures Up(x, k + 2) == x * B * B * Up(1, k)
  {
    UpInner(x, k + 1);
    UpInner(x * B, k);
    UpIsProduct(x * B * B, k);
    UpIsProduct(1, k);
    assert B * x == x * B && B * (x * B) == x * B * B;
  }

  lemma TopWordOrder(s: seq<word>, d: seq<word>)
    requires |s| == |d| > 0
    ensures Val(s) < Val(d) ==> s[|s| - 1] <= d[|s| - 1]
    ensures s[|s| - 1] < d[|s| - 1] ==> Val(s) < Val(d)
  {
    var k := |s| - 1;
    if s[k] > d[k] { ValOrder(d, s, k); }
    if s[k] < d[k] { ValOrder(s, d, k); }
  }

  /** One digit of the main loop: the window of dlen + 1 words at o is reduced below the divisor. */
  method DivDigit(n: array<word>, o: nat, d: array<word>, dd: nat, dlen: nat) returns (q: word)
    requires n != d && dlen >= 2 && o + dlen < n.Length && dd + dlen <= d.Length && d[dd + dlen - 1] >= B / 2
    requires Val(n[o + 1..o + dlen + 1]) < Val(d[dd..dd + dlen])
    modifies n
    ensures old(Val(n[o..o + dlen + 1])) == q * Val(d[dd..dd + dlen]) + Val(n[o..o + dlen])
    ensures Val(n[o..o + dlen]) < Val(d[dd..dd + dlen])
    ensures forall i :: 0 <= i < n.Length && (i < o || o + dlen <= i) ==> n[i] == old(n[i])
  {
    hide Val, Up, GoodEstimate;
    ghost var s, dw := n[o..o + dlen], d[dd..dd + dlen];
    var nh := n[o + dlen];
    TopWordOrder(n[o + 1..o + dlen + 1], dw);
    ValGrow(n[..], o, dlen);
    ValCons(n[..], o, o + dlen + 1);
    assert n[..][o..o + dlen + 1] == n[o..o + dlen + 1] && n[..][o + 1..o + dlen + 1] == n[o + 1..o + dlen + 1];
    ValBound(n[o..o + dlen + 1]);
    var qhat := NextEstimate(nh, n[o + dlen - 1], n[o + dlen - 2], d[dd + dlen - 1], d[dd + dlen - 2]);
    WindowBounds(s, nh, dw, qhat, dlen);
    q := SubtractDigit(n, o, d, dd, dlen, nh, qhat, Val(s) + Up(nh, dlen));
  }

  lemma OverflowWindow(s: seq<word>, nh: word, d: seq<word>, k: nat)
    requires |s| == |d| == k > 0 && nh < d[k - 1]
    ensures 0 <= Val(s) + Up(nh, k) < B * Val(d)
  {
    hide Val, Up;
    ValBound(s);
    UpAdd(nh, 1, k);
    UpMonotone(nh as int + 1, d[k - 1], k);
    UpMonotone(0, nh, k);
    UpZero(k);
    ValGrow(d, 0, k - 1);
    assert d[0..k] == d;
    ValBound(d[0..k - 1]);
    UpStep(d[k - 1], k - 1);
  }

  /** The first digit, whose window has the overflow word nh above the stored words. */
  method FirstDigit(n: array<word>, o: nat, d: array<word>, dd: nat, dlen: nat, nh: word) returns (q: word)
    requires n != d && dlen >= 2 && o + dlen <= n.Length && dd + dlen <= d.Length && d[dd + dlen - 1] >= B / 2
    requires nh < d[dd + dlen - 1]
    modifies n
    ensures old(Val(n[o..o + dlen])) + Up(nh, dlen) == q * Val(d[dd..dd + dlen]) + Val(n[o..o + dlen])
    ensures Val(n[o..o + dlen]) < Val(d[dd..dd + dlen])
    ensures forall i :: 0 <= i < n.Length && (i < o || o + dlen <= i) ==> n[i] == old(n[i])
  {
    hide Val, Up, GoodEstimate;
    ghost var s, dw := n[o..o + dlen], d[dd..dd + dlen];
    var nm, dh := n[o + dlen - 1], d[dd + dlen - 1];
    if nh == 0 && nm < dh {
      TopWordOrder(s, dw);
      UpZero(dlen);
      return 0;
    }
    OverflowWindow(s, nh, dw, dlen);
    var qhat := FirstEstimate(nh, nm, n[o + dlen - 2], dh, d[dd + dlen - 2]);
    WindowBounds(s, nh, dw, qhat, dlen);
    q := SubtractDigit(n, o, d, dd, dlen, nh, qhat, Val(s) + Up(nh, dlen));
  }

  /** One step of the long division identity: the digit at word j joins the quotient. */
  lemma DigitJoins(s: seq<word>, s': seq<word>, no: nat, j: nat, k: nat, qv: int, q: word, d: int, t: int)
    requires no + j + k < |s| == |s'|
    requires forall i :: no <= i < no + j ==> s'[i] == s[i]
    requires t == Up(qv * d, j + 1) + Val(s[no..no + j + 1 + k])
    requires Val(s[no + j..no + j + k + 1]) == q * d + Val(s'[no + j..no + j + k])
    ensures t == Up((q + B * qv) * d, j) + Val(s'[no..no + j + k])
  {
    hide Val, Up;
    ValSplit(s[no..no + j + 1 + k], j);
    ValSplit(s'[no..no + j + k], j);
    assert s[no..no + j + 1 + k][..j] == s'[no..no + j + k][..j];
    assert s[no..no + j + 1 + k][j..] == s[no + j..no + j + k + 1];
    assert s'[no..no + j + k][j..] == s'[no + j..no + j + k];
    UpAdd(q * d, Val(s'[no + j..no + j + k]), j);
    UpInner(qv * d, j);
    UpAdd(q * d, B * (qv * d), j);
    assert (q + B * qv) * d == q * d + B * (qv * d);
  }

  /** The division identity with the digits from word j up already in the quotient. */
  ghost predicate Partial(t: int, q: seq<word>, qo: nat, qlen: nat, j: nat, qhigh: word, n: seq<word>, no: nat, d: int,
                          dlen: nat)
    requires j <= qlen && qo + qlen <= |q| && no + j + dlen <= |n|
  {
    t == Up((Val(q[qo + j..qo + qlen]) + Up(qhigh, qlen - j)) * d, j) + Val(n[no..no + j + dlen])
  }

  lemma PartialStart(t: int, q: seq<word>, qo: nat, qlen: nat, qhigh: word, n: seq<word>, no: nat, d: int, dlen: nat)
    requires qo + qlen <= |q| && no + qlen + dlen <= |n|
    requires t == Up(qhigh * d, qlen) + Val(n[no..no + qlen + dlen])
    ensures Partial(t, q, qo, qlen, qlen, qhigh, n, no, d, dlen)
  {
    ValEmpty(q, qo + qlen);
    UpAt0(qhigh);
  }

  lemma PartialEnd(t: int, q: seq<word>, qo: nat, qlen: nat, qhigh: word, n: seq<word>, no: nat, d: int, dlen: nat)
    requires qo + qlen <= |q| && no + dlen <= |n|
    requires Partial(t, q, qo, qlen, 0, qhigh, n, no, d, dlen)
    ensures t == (Val(q[qo..qo + qlen]) + Up(qhigh, qlen)) * d + Val(n[no..no + dlen])
  {
    UpAt0((Val(q[qo..qo + qlen]) + Up(qhigh, qlen)) * d);
  }

  lemma PartialStep(t: int, q: seq<word>, q': seq<word>, qo: nat, qlen: nat, j: nat, qhigh: word, digit: word,
                    n: seq<word>, n': seq<word>, no: nat, d: int, dlen: nat)
    requires j < qlen && qo + qlen <= |q| == |q'| && no + j + 1 + dlen <= |n| == |n'|
    requires Partial(t, q, qo, qlen, j + 1, qhigh, n, no, d, dlen)
    requires forall i :: no <= i < no + j ==> n'[i] == n[i]
    requires Val(n[no + j..no + j + dlen + 1]) == digit * d + Val(n'[no + j..no + j + dlen])
    requires q'[qo + j] == digit && q'[qo + j + 1..qo + qlen] == q[qo + j + 1..qo + qlen]
    ensures Partial(t, q', qo, qlen, j, qhigh, n', no, d, dlen)
  {
    DigitJoins(n, n', no, j, dlen, Val(q[qo + j + 1..qo + qlen]) + Up(qhigh, qlen - j - 1), digit, d, t);
    ValCons(q', qo + j, qo + qlen);
    hide Val, Up;
    UpStep(qhigh, qlen - j - 1);
    var qv, h := Val(q[qo + j + 1..qo + qlen]), Up(qhigh, qlen - j - 1);
    assert Val(q'[qo + j..qo + qlen]) + Up(qhigh, qlen - j) == digit + B * (qv + h);
  }

  /** The main loop: digits from the top down, each stored just above the words still in use. */
  method DivLoop(q: array<word>, qo: nat, n: array<word>, no: nat, qlen: nat, d: array<word>, dd: nat, dlen: nat,
                 qhigh: word, ghost t: int)
    requires no + qlen + dlen <= n.Length && qo + qlen <= q.Length && dd + dlen <= d.Length
    requires n != d && q != d && dlen >= 2 && d[dd + dlen - 1] >= B / 2
    requires q != n || no + dlen <= qo
    requires Val(n[no + qlen..no + qlen + dlen]) < Val(d[dd..dd + dlen])
    requires t == Up(qhigh * Val(d[dd..dd + dlen]), qlen) + Val(n[no..no + qlen + dlen])
    modifies q, n
    ensures t == (Val(q[qo..qo + qlen]) + Up(qhigh, qlen)) * Val(d[dd..dd + dlen]) + Val(n[no..no + dlen])
    ensures Val(n[no..no + dlen]) < Val(d[dd..dd + dlen])
    ensures forall i ::
      0 <= i < q.Length && (i < qo || qo + qlen <= i) && (q != n || i < no || no + qlen + dlen <= i) ==>
      q[i] == old(q[i])
    ensures forall i ::
      0 <= i < n.Length && (i < no || no + qlen + dlen <= i) && (q != n || i < qo || qo + qlen <= i) ==>
      n[i] == old(n[i])
  {
    hide Val, Up, Partial;
    ghost var dv := Val(d[dd..dd + dlen]);
    var j := qlen;
    PartialStart(t, q[..], qo, qlen, qhigh, n[..], no, dv, dlen);
    while j > 0
      invariant 0 <= j <= qlen
      invariant Val(n[no + j..no + j + dlen]) < dv
      invariant Partial(t, q[..], qo, qlen, j, qhigh, n[..], no, dv, dlen)
      invariant forall i ::
        0 <= i < q.Length && (i < qo || qo + qlen <= i) && (q != n || i < no || no + qlen + dlen <= i) ==>
        q[i] == old(q[i])
      invariant forall i ::
        0 <= i < n.Length && (i < no || no + qlen + dlen <= i) && (q != n || i < qo || qo + qlen <= i) ==>
        n[i] == old(n[i])
    {
      ghost var s, qs := n[..], q[..];
      j := j - 1;
      var digit := DivDigit(n, no + j, d, dd, dlen);
      ghost var r := n[no + j..no + j + dlen];
      q[qo + j] := digit;
      assert n[no + j..no + j + dlen] == r;
      PartialStep(t, qs, q[..], qo, qlen, j, qhigh, digit, s, n[..], no, dv, dlen);
    }
    PartialEnd(t, q[..], qo, qlen, qhigh, n[..], no, dv, dlen);
    assert q[..][qo..qo + qlen] == q[qo..qo + qlen] && n[..][no..no + dlen] == n[no..no + dlen];
  }

  lemma FirstJoins(s: seq<word>, s': seq<word>, no: nat, j: nat, k: nat, nh: word, q: word, d: int)
    requires no + j + k <= |s| == |s'|
    requires forall i :: no <= i < no + j ==> s'[i] == s[i]
    requires Val(s[no + j..no + j + k]) + Up(nh, k) == q * d + Val(s'[no + j..no + j + k])
    ensures Val(s[no..no + j + k]) + Up(nh, j + k) == Up(q * d, j) + Val(s'[no..no + j + k])
  {
    hide Val, Up;
    ValSplit(s[no..no + j + k], j);
    ValSplit(s'[no..no + j + k], j);
    assert s[no..no + j + k][..j] == s'[no..no + j + k][..j];
    assert s[no..no + j + k][j..] == s[no + j..no + j + k];
    assert s'[no..no + j + k][j..] == s'[no + j..no + j + k];
    UpUp(nh, k, j);
    UpAdd(Val(s[no + j..no + j + k]), Up(nh, k), j);
    UpAdd(q * d, Val(s'[no + j..no + j + k]), j);
  }

  /** Algorithm D proper, for a divisor whose top bit is set and a dividend with an overflow word above. */
  method DivNormalised(q: array<word>, qo: nat, n: array<word>, no: nat, qlen: nat, d: array<word>, dd: nat, dlen: nat,
                       nh: word)
    returns (qhigh: word)
    requires no + qlen + dlen <= n.Length && qo + qlen <= q.Length && dd + dlen <= d.Length
    requires n != d && q != d && dlen >= 2 && d[dd + dlen - 1] >= B / 2 && nh < d[dd + dlen - 1]
    requires q != n || no + dlen <= qo
    modifies q, n
    ensures old(Val(n[no..no + qlen + dlen])) + Up(nh, qlen + dlen)
         == (Val(q[qo..qo + qlen]) + Up(qhigh, qlen)) * Val(d[dd..dd + dlen]) + Val(n[no..no + dlen])
    ensures Val(n[no..no + dlen]) < Val(d[dd..dd + dlen])
    ensures forall i ::
      0 <= i < q.Length && (i < qo || qo + qlen <= i) && (q != n || i < no || no + qlen + dlen <= i) ==>
      q[i] == old(q[i])
    ensures forall i ::
      0 <= i < n.Length && (i < no || no + qlen + dlen <= i) && (q != n || i < qo || qo + qlen <= i) ==>
      n[i] == old(n[i])
  {
    hide Val, Up;
    ghost var s := n[..];
    qhigh := FirstDigit(n, no + qlen, d, dd, dlen, nh);
    FirstJoins(s, n[..], no, qlen, dlen, nh, qhigh, Val(d[dd..dd + dlen]));
    assert n[..][no..no + qlen + dlen] == n[no..no + qlen + dlen]
      && s[no..no + qlen + dlen] == old(n[no..no + qlen + dlen]);
    DivLoop(q, qo, n, no, qlen, d, dd, dlen, qhigh, Val(s[no..no + qlen + dlen]) + Up(nh, qlen + dlen));
  }

  /** Shifting the divisor up by its leading zeros loses nothing and sets its top bit. */
  lemma NormalisedTop(s: seq<word>, s': seq<word>, shift: nat, carry: word)
    requires |s| == |s'| > 0 && shift < 32
    requires Pow(2, 31) <= s[|s| - 1] * Pow(2, shift) < B
    requires Val(s') + Up(carry, |s|) == Val(s) * Pow(2, shift)
    ensures carry == 0 && Val(s') == Val(s) * Pow(2, shift) && s'[|s| - 1] >= B / 2
  {
    hide Val, Up, Pow;
    var k, p, h: int, u := |s| - 1, Pow(2, shift), s[|s| - 1], Up(1, |s| - 1);
    TwoPow32();
    TwoPow31();
    PowAdd(2, 32 - shift, shift);
    CancelPow(h, 0, Pow(2, 32 - shift), p);
    Scale(h + 1, Pow(2, 32 - shift), p);
    TopBounds(s);
    TopBounds(s');
    ValBound(s[..k]);
    ScaledBetween(Val(s), h, u, p, B / 2, B);
    UpStep(1, k);
    UpZero(|s|);
    ValBound(s');
    if carry > 0 { UpMonotone(1, carry, |s|); }
    if s'[k] < B / 2 { Scale(s'[k] as int + 1, B / 2, u); }
  }

  lemma ScaledBetween(v: int, h: int, u: int, p: int, lo: int, hi: int)
    requires u >= 0 && p > 0 && h * u <= v < (h + 1) * u && lo <= h * p && (h + 1) * p <= hi
    ensures lo * u <= v * p < hi * u
  {
    Scale(h * u, v, p);
    Scale(v + 1, (h + 1) * u, p);
    Scale(lo, h * p, u);
    Scale((h + 1) * p, hi, u);
    Swap(h, u, p);
    Swap(h + 1, u, p);
  }

  lemma Swap(x: int, y: int, z: int)
    ensures x * y * z == x * z * y
  {
    assert x * (y * z) == x * (z * y);
  }

  lemma TopBounds(s: seq<word>)
    requires s != []
    ensures s[|s| - 1] * Up(1, |s| - 1) <= Val(s) < (s[|s| - 1] as int + 1) * Up(1, |s| - 1)
  {
    hide Val, Up, Pow;
    var k := |s| - 1;
    ValGrow(s, 0, k);
    assert s[0..k + 1] == s;
    ValBound(s[0..k]);
    UpIsProduct(s[k], k);
    UpIsProduct(1, k);
    var t: int, u := s[k], Up(1, k);
    assert (t + 1) * u == t * u + u;
  }

  /** Shifting the remainder back down: it was a multiple of the shift. */
  lemma Unshift(nv: int, qv: int, dv: int, p: int, r: int, r': int, out: int)
    requires p > 0 && nv * p == qv * (dv * p) + r && r < dv * p
    requires r == r' * p + out && 0 <= out < p
    ensures nv == qv * dv + r' && r' < dv
  {
    Associate(qv, dv, p);
    assert (nv - qv * dv) * p == nv * p - qv * dv * p;
    DivModUnique(r, p, nv - qv * dv, 0);
    DivModUnique(r, p, r', out);
    CancelPow(r', r', dv, p);
  }

  /** Algorithm D between the two shifts that normalise the divisor and undo it. */
  method DivShifted(q: array<word>, qo: nat, n: array<word>, no: nat, qlen: nat, d: array<word>, dd: nat, dlen: nat,
                    shift: nat)
    returns (qhigh: word)
    requires no + qlen + dlen <= n.Length && qo + qlen <= q.Length && dd + dlen <= d.Length
    requires n != d && q != d && dlen >= 2 && 0 < shift < 32
    requires Pow(2, 31) <= d[dd + dlen - 1] * Pow(2, shift) < B
    requires q != n || no + dlen <= qo
    modifies q, n, d
    ensures d[..] == old(d[..])
    ensures old(Val(n[no..no + qlen + dlen]))
         == (Val(q[qo..qo + qlen]) + Up(qhigh, qlen)) * Val(d[dd..dd + dlen]) + Val(n[no..no + dlen])
    ensures Val(n[no..no + dlen]) < Val(d[dd..dd + dlen])
    ensures forall i ::
      0 <= i < q.Length && (i < qo || qo + qlen <= i) && (q != n || i < no || no + qlen + dlen <= i) ==>
      q[i] == old(q[i])
    ensures forall i ::
      0 <= i < n.Length && (i < no || no + qlen + dlen <= i) && (q != n || i < qo || qo + qlen <= i) ==>
      n[i] == old(n[i])
  {
    hide Val, Up, Pow;
    ghost var p, nv, d0 := Pow(2, shift), Val(n[no..no + qlen + dlen]), d[..];
    ghost var dv := Val(d[dd..dd + dlen]);
    var dcarry := Lshift(d, dd, dlen, shift);
    NormalisedTop(d0[dd..dd + dlen], d[dd..dd + dlen], shift, dcarry);
    TwoPow31();
    PowMonotone(2, shift, 31);
    var nh := Lshift(n, no, qlen + dlen, shift);
    qhigh := DivNormalised(q, qo, n, no, qlen, d, dd, dlen, nh);
    ghost var qs, qv := q[..], Val(q[qo..qo + qlen]) + Up(qhigh, qlen);
    ghost var r := Val(n[no..no + dlen]);
    RestoreDivisor(d, dd, dlen, shift, d0, dv);
    var out := Rshift(n, no, dlen, shift);
    Unshift(nv, qv, dv, p, r, Val(n[no..no + dlen]), out);
    assert q[qo..qo + qlen] == qs[qo..qo + qlen];
  }

  method RestoreDivisor(d: array<word>, dd: nat, dlen: nat, shift: nat, ghost d0: seq<word>, ghost dv: int)
    requires dd + dlen <= d.Length == |d0| && 0 < shift < 32
    requires forall i :: 0 <= i < d.Length && (i < dd || dd + dlen <= i) ==> d[i] == d0[i]
    requires dv == Val(d0[dd..dd + dlen]) && Val(d[dd..dd + dlen]) == dv * Pow(2, shift)
    modifies d
    ensures d[..] == d0
  {
    hide Val, Pow;
    var out := Rshift(d, dd, dlen, shift);
    ghost var v := Val(d[dd..dd + dlen]);
    DivModUnique(dv * Pow(2, shift), Pow(2, shift), dv, 0);
    DivModUnique(dv * Pow(2, shift), Pow(2, shift), v, out);
    ValInjective(d[dd..dd + dlen], d0[dd..dd + dlen]);
    assert forall i :: dd <= i < dd + dlen ==> d[i] == d[dd..dd + dlen][i - dd];
  }

  /**
   * n / d on word arrays.  The remainder replaces the low dlen words of n, the quotient's low words are
   * stored through q, which may overlay n's high words, and its top word is returned; d is restored.
   */
  method Div(q: array<word>, qo: nat, n: array<word>, no: nat, nlen: nat, d: array<word>, dd: nat, dlen: nat)
    returns (qhigh: word)
    requires 0 < dlen <= nlen && no + nlen <= n.Length && qo + nlen - dlen <= q.Length && dd + dlen <= d.Length
    requires n != d && q != d && d[dd + dlen - 1] != 0
    requires q != n || no + dlen <= qo
    modifies q, n, d
    ensures d[..] == old(d[..])
    ensures old(Val(n[no..no + nlen]))
         == (Val(q[qo..qo + nlen - dlen]) + Up(qhigh, nlen - dlen)) * Val(d[dd..dd + dlen]) + Val(n[no..no + dlen])
    ensures Val(n[no..no + dlen]) < Val(d[dd..dd + dlen])
    ensures forall i ::
      0 <= i < q.Length && (i < qo || qo + nlen - dlen <= i) && (q != n || i < no || no + nlen <= i) ==>
      q[i] == old(q[i])
    ensures forall i ::
      0 <= i < n.Length && (i < no || no + nlen <= i) && (q != n || i < qo || qo + nlen - dlen <= i) ==>
      n[i] == old(n[i])
  {
    hide Val, Up, Pow;
    var qlen := nlen - dlen;
    if dlen == 1 {
      qhigh := Div1(q, qo, n, no, n, no, nlen, d[dd]);
      ValOne(d[..], dd);
      ValOne(n[..], no);
      assert d[..][dd..dd + 1] == d[dd..dd + 1] && n[..][no..no + 1] == n[no..no + 1];
      return;
    }
    var shift := LeadingZeros(d[dd + dlen - 1]);
    if shift != 0 {
      qhigh := DivShifted(q, qo, n, no, qlen, d, dd, dlen, shift);
    } else {
      PowAt0(2);
      TwoPow31();
      UpZero(nlen);
      qhigh := DivNormalised(q, qo, n, no, qlen, d, dd, dlen, 0);
    }
  }
}
