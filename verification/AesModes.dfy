/**
 * The stream modes: cipher feedback, output feedback and counter mode.  A call may end anywhere in a block; the
 * position is saved in the context.  The block cipher is any function on blocks.
 */
module AesModes {
  import opened AesField

  const BLOCK := 16
  const BFR_BLOCKS := 8

  type Block = b: seq<byte> | |b| == BLOCK witness [0, 0, 0, 0, 0, 0, 0, 0, 0, 0, 0, 0, 0, 0, 0, 0]
  type Cipher = Block -> Block

  // ---- feedback modes, a byte at a time ----

  datatype Mode = CfbEncrypt | CfbDecrypt | Ofb

  /** What replaces the feedback register's byte k when x is processed; the output is always the sum of the two. */
  function Feedback(m: Mode, k: byte, x: byte): byte {
    match m
    case CfbEncrypt => Add(k, x)
    case CfbDecrypt => x
    case Ofb => k
  }

  /** The register and the position in it; at position 0 the register still has to be encrypted. */
  datatype Reg = Reg(iv: Block, pos: nat)

  function Ready(E: Cipher, r: Reg): Block {
    if r.pos == 0 then E(r.iv) else r.iv
  }

  function Step(m: Mode, E: Cipher, r: Reg, x: byte): (res: (byte, Reg))
    requires r.pos < BLOCK
    ensures res.1.pos < BLOCK
  {
    var iv := Ready(E, r);
    var k := iv[r.pos];
    (Add(k, x), Reg(iv[r.pos := Feedback(m, k, x)], (r.pos + 1) % BLOCK))
  }

  /** The output of a whole stream and the register after it. */
  function Run(m: Mode, E: Cipher, r: Reg, data: seq<byte>): (res: (seq<byte>, Reg))
    requires r.pos < BLOCK
    ensures |res.0| == |data| && res.1.pos < BLOCK
    decreases |data|
  {
    if data == [] then ([], r)
    else
      var (y, r') := Step(m, E, r, data[0]);
      var (out, last) := Run(m, E, r', data[1..]);
      ([y] + out, last)
  }

  /** A stream may be cut into calls anywhere. */
  lemma {:induction false} RunSplit(m: Mode, E: Cipher, r: Reg, a: seq<byte>, b: seq<byte>)
    requires r.pos < BLOCK
    ensures var (out, mid) := Run(m, E, r, a);
      Run(m, E, r, a + b) == (out + Run(m, E, mid, b).0, Run(m, E, mid, b).1)
    decreases |a|
  {
    hide Run, Step;
    if a == [] {
      RunEmpty(m, E, r);
      assert a + b == b && [] + Run(m, E, r, b).0 == Run(m, E, r, b).0;
    } else {
      var (y, r') := Step(m, E, r, a[0]);
      RunSplit(m, E, r', a[1..], b);
      RunCons(m, E, r, a);
      RunCons(m, E, r, a + b);
      assert (a + b)[0] == a[0] && (a + b)[1..] == a[1..] + b;
      var (out, mid) := Run(m, E, r', a[1..]);
      assert [y] + (out + Run(m, E, mid, b).0) == [y] + out + Run(m, E, mid, b).0;
    }
  }

  lemma RunCons(m: Mode, E: Cipher, r: Reg, data: seq<byte>)
    requires r.pos < BLOCK && data != []
    ensures var (y, r') := Step(m, E, r, data[0]);
      Run(m, E, r, data) == ([y] + Run(m, E, r', data[1..]).0, Run(m, E, r', data[1..]).1)
  {
    hide Step;
  }

  function Concat(calls: seq<seq<byte>>): seq<byte> {
    if calls == [] then [] else calls[0] + Concat(calls[1..])
  }

  /** A stream processed by a sequence of calls, each continuing from the register the one before left. */
  function RunCalls(m: Mode, E: Cipher, r: Reg, calls: seq<seq<byte>>): (seq<byte>, Reg)
    requires r.pos < BLOCK
    decreases |calls|
  {
    if calls == [] then ([], r)
    else
      var (out, mid) := Run(m, E, r, calls[0]);
      var (rest, last) := RunCalls(m, E, mid, calls[1..]);
      (out + rest, last)
  }

  /** However a stream is cut into calls, output and final register are those of a single call. */
  lemma {:induction false} AnySplitting(m: Mode, E: Cipher, r: Reg, calls: seq<seq<byte>>)
    requires r.pos < BLOCK
    ensures RunCalls(m, E, r, calls) == Run(m, E, r, Concat(calls))
    decreases |calls|
  {
    hide Run;
    if calls == [] {
      RunEmpty(m, E, r);
    } else {
      AnySplitting(m, E, Run(m, E, r, calls[0]).1, calls[1..]);
      RunSplit(m, E, r, calls[0], Concat(calls[1..]));
    }
  }

  /** The mode that undoes a mode. */
  function Inverse(m: Mode): Mode {
    match m
    case CfbEncrypt => CfbDecrypt
    case CfbDecrypt => CfbEncrypt
    case Ofb => Ofb
  }

  lemma StepInverse(m: Mode, E: Cipher, r: Reg, x: byte)
    requires r.pos < BLOCK
    ensures var (y, r') := Step(m, E, r, x); Step(Inverse(m), E, r, y) == (x, r')
  {
    hide Add;
    Undo(Ready(E, r)[r.pos], x);
  }

  /** Decryption from the same register restores the stream and leaves the same register. */
  lemma {:induction false} RunInverse(m: Mode, E: Cipher, r: Reg, data: seq<byte>)
    requires r.pos < BLOCK
    ensures var (out, last) := Run(m, E, r, data); Run(Inverse(m), E, r, out) == (data, last)
    decreases |data|
  {
    if data != [] {
      StepInverse(m, E, r, data[0]);
      hide Step;
      var (y, r') := Step(m, E, r, data[0]);
      var out := Run(m, E, r', data[1..]).0;
      RunInverse(m, E, r', data[1..]);
      assert ([y] + out)[0] == y && ([y] + out)[1..] == out && data == [data[0]] + data[1..];
    }
  }

  // ---- the program: finish a partial block, then whole blocks, then the rest ----

  class Stream {
    var iv: Block
    var pos: nat

    constructor (iv0: Block)
      ensures iv == iv0 && pos == 0
    {
      iv, pos := iv0, 0;
    }

    ghost predicate Valid()
      reads this
    {
      pos < BLOCK
    }

    /** Processes bytes with a register that has been encrypted, up to the end of the block or of the data. */
    method Consume(m: Mode, data: seq<byte>, b0: nat, ghost E: Cipher, ghost r: Reg) returns (out: seq<byte>, b: nat)
      requires b0 < BLOCK && r.pos == b0 && iv == Ready(E, r)
      modifies this`iv
      ensures b == (if b0 + |data| < BLOCK then b0 + |data| else BLOCK) && |out| == b - b0 <= |data|
      ensures data != [] ==> Run(m, E, r, data[..b - b0]) == (out, Reg(iv, b % BLOCK))
      ensures data == [] ==> iv == old(iv)
    {
      hide Run;
      out, b := [], b0;
      RunEmpty(m, E, r);
      while b < BLOCK && |out| < |data|
        invariant b0 <= b <= BLOCK && |out| == b - b0 <= |data|
        invariant b == b0 ==> out == [] && iv == Ready(E, r)
        invariant b > b0 ==> Run(m, E, r, data[..b - b0]) == (out, Reg(iv, b % BLOCK))
      {
        var x := data[|out|];
        ghost var mid := if b == b0 then r else Reg(iv, b);
        RunSplit(m, E, r, data[..b - b0], [x]);
        RunOne(m, E, mid, x);
        assert data[..b - b0] + [x] == data[..b - b0 + 1];
        out := out + [Add(iv[b], x)];
        iv := iv[b := Feedback(m, iv[b], x)];
        b := b + 1;
      }
    }

    /** All three feedback functions have this shape. */
    method Crypt(m: Mode, E: Cipher, ibuf: seq<byte>) returns (obuf: seq<byte>)
      requires Valid()
      modifies this
      ensures Valid() && (obuf, Reg(iv, pos)) == Run(m, E, old(Reg(iv, pos)), ibuf)
      ensures old(pos) == 0 ==> Standard(m, E, old(iv), ibuf, obuf, Reg(iv, pos))
    {
      hide Run, Standard;
      ghost var r := Reg(iv, pos);
      RunIsStandard(m, E, iv, ibuf);
      obuf := [];
      var b: nat := pos;
      RunEmpty(m, E, r);
      assert ibuf[..0] == [] && ibuf[0..] == ibuf;
      if b != 0 {
        obuf, b := Consume(m, ibuf, b, E, r);
        b := if b == BLOCK then 0 else b;
        assert ibuf == [] ==> ibuf[..|obuf|] == [];
      }
      while |obuf| + BLOCK <= |ibuf|
        invariant b < BLOCK && |obuf| <= |ibuf| && Run(m, E, r, ibuf[..|obuf|]) == (obuf, Reg(iv, b))
        invariant |obuf| < |ibuf| ==> b == 0
      {
        obuf, b := NextBlock(m, E, ibuf, obuf, b, r);
      }
      while |obuf| < |ibuf|
        invariant b < BLOCK && |obuf| <= |ibuf| && Run(m, E, r, ibuf[..|obuf|]) == (obuf, Reg(iv, b))
        invariant |obuf| < |ibuf| ==> b == 0
        decreases |ibuf| - |obuf|
      {
        obuf, b := NextBlock(m, E, ibuf, obuf, b, r);
      }
      assert ibuf[..|obuf|] == ibuf;
      pos := b;
    }

    /** Encrypts the register and uses it for the rest of the data or a whole block. */
    method NextBlock(m: Mode, E: Cipher, ibuf: seq<byte>, obuf: seq<byte>, b0: nat, ghost r: Reg)
      returns (obuf': seq<byte>, b: nat)
      requires b0 == 0 && |obuf| < |ibuf| && r.pos < BLOCK && Run(m, E, r, ibuf[..|obuf|]) == (obuf, Reg(iv, 0))
      modifies this`iv
      ensures b < BLOCK && |obuf| < |obuf'| <= |ibuf| && Run(m, E, r, ibuf[..|obuf'|]) == (obuf', Reg(iv, b))
      ensures |obuf'| < |ibuf| ==> b == 0
    {
      hide Run;
      ghost var mid := Reg(iv, 0);
      iv := E(iv);
      var out;
      out, b := Consume(m, ibuf[|obuf|..], 0, E, mid);
      ghost var piece := ibuf[|obuf|..][..b];
      RunSplit(m, E, r, ibuf[..|obuf|], piece);
      assert ibuf[..|obuf|] + piece == ibuf[..|obuf| + b];
      obuf' := obuf + out;
      b := if b == BLOCK then 0 else b;
    }
  }

  lemma RunEmpty(m: Mode, E: Cipher, r: Reg)
    requires r.pos < BLOCK
    ensures Run(m, E, r, []) == ([], r)
  {}

  lemma RunOne(m: Mode, E: Cipher, r: Reg, x: byte)
    requires r.pos < BLOCK
    ensures var iv := Ready(E, r);
      Run(m, E, r, [x]) == ([Add(iv[r.pos], x)], Reg(iv[r.pos := Feedback(m, iv[r.pos], x)], (r.pos + 1) % BLOCK))
  {
    hide Add;
    var (y, r') := Step(m, E, r, x);
    RunCons(m, E, r, [x]);
    assert [x][1..] == [] && [x][0] == x;
    RunEmpty(m, E, r');
    assert [y] + [] == [y];
  }

  // ---- counter mode ----

  /** The counter block after n increments. */
  function Counter(inc: Cipher, c: Block, n: nat): Block {
    if n == 0 then c else inc(Counter(inc, c, n - 1))
  }

  lemma {:induction false} CounterAdd(inc: Cipher, c: Block, m: nat, n: nat)
    ensures Counter(inc, Counter(inc, c, m), n) == Counter(inc, c, m + n)
  {
    if n > 0 { CounterAdd(inc, c, m, n - 1); }
  }

  /** Byte t of the key stream of counter c. */
  function KeyByte(E: Cipher, inc: Cipher, c: Block, t: nat): byte {
    E(Counter(inc, c, t / BLOCK))[t % BLOCK]
  }

  /** The stream with the key stream from byte t on added to it. */
  function CtrOut(E: Cipher, inc: Cipher, c: Block, t: nat, data: seq<byte>): (out: seq<byte>)
    ensures |out| == |data|
  {
    seq(|data|, k requires 0 <= k < |data| => Add(data[k], KeyByte(E, inc, c, t + k)))
  }

  /**
   * A saved counter and position, as an offset into the key stream of a counter: a saved position may be at the block's
   * end.
   */
  ghost predicate At(inc: Cipher, ctr: Block, pos: nat, c: Block, t: nat) {
    pos <= BLOCK && pos <= t && (t - pos) % BLOCK == 0 && ctr == Counter(inc, c, (t - pos) / BLOCK)
  }

  /** A stream may be cut into calls anywhere. */
  lemma CtrSplit(E: Cipher, inc: Cipher, c: Block, t: nat, a: seq<byte>, b: seq<byte>)
    ensures CtrOut(E, inc, c, t, a + b) == CtrOut(E, inc, c, t, a) + CtrOut(E, inc, c, t + |a|, b)
  {
    hide KeyByte, Add;
  }

  // ---- the saved state of counter mode ----

  /** The saved counter and position. */
  datatype Spot = Spot(ctr: Block, pos: nat)

  /**
   * The state a call on len bytes leaves: a block that was begun by an earlier call is not left when its end is
   * reached.
   */
  function After(inc: Cipher, s: Spot, len: nat): (r: Spot)
    requires s.pos <= BLOCK
    ensures r.pos <= BLOCK
  {
    var end := s.pos + len;
    if s.pos > 0 && end == BLOCK then Spot(s.ctr, BLOCK) else Spot(Counter(inc, s.ctr, end / BLOCK), end % BLOCK)
  }

  /** The same state, or the state at a block's end before its counter is incremented. */
  ghost predicate Behind(inc: Cipher, s: Spot, r: Spot) {
    s == r || (s.pos == BLOCK && r == Spot(inc(s.ctr), 0))
  }

  /** One call of 16 bytes and two calls of 8 do not leave the same state. */
  lemma EightAndEight(inc: Cipher, c: Block)
    ensures After(inc, Spot(c, 0), 16) == Spot(inc(c), 0)
    ensures After(inc, After(inc, Spot(c, 0), 8), 8) == Spot(c, 16)
  {
    assert Counter(inc, c, 0) == c && Counter(inc, c, 1) == inc(c);
  }

  /** Two calls leave the state of one, unless the second exactly fills a block that the first one began. */
  lemma TwoCalls(inc: Cipher, s: Spot, a: nat, b: nat)
    requires s.pos <= BLOCK
    ensures Behind(inc, After(inc, After(inc, s, a), b), After(inc, s, a + b))
    ensures After(inc, After(inc, s, a), b) == After(inc, s, a + b) <==>
      !((s.pos + a) % BLOCK != 0 && (s.pos + a) % BLOCK + b == BLOCK && (s.pos == 0 || s.pos + a > BLOCK))
  {
    var end := s.pos + a;
    CounterAdd(inc, s.ctr, end / BLOCK, (end % BLOCK + b) / BLOCK);
    assert end / BLOCK + (end % BLOCK + b) / BLOCK == (end + b) / BLOCK
      && (end % BLOCK + b) % BLOCK == (end + b) % BLOCK;
    if s.pos > 0 && end == BLOCK {
      CounterAdd(inc, s.ctr, 0, (BLOCK + b) / BLOCK);
    }
    if end % BLOCK + b == BLOCK {
      assert Counter(inc, s.ctr, end / BLOCK + 1) == inc(Counter(inc, s.ctr, end / BLOCK));
    }
  }

  /** Two states at the same offset of a key stream are equal or on the two sides of an increment. */
  lemma SameOffset(inc: Cipher, s: Spot, r: Spot, c: Block, t: nat)
    requires At(inc, s.ctr, s.pos, c, t) && At(inc, r.ctr, r.pos, c, t)
    ensures Behind(inc, s, r) || Behind(inc, r, s)
  {
    assert s.pos % BLOCK == r.pos % BLOCK;
    if s.pos == BLOCK && r.pos == 0 {
      assert t / BLOCK == (t - BLOCK) / BLOCK + 1;
    } else if s.pos == 0 && r.pos == BLOCK {
      assert t / BLOCK == (t - BLOCK) / BLOCK + 1;
    }
  }

  /** A state at offset t of a key stream continues that key stream. */
  lemma SameStream(E: Cipher, inc: Cipher, s: Spot, c: Block, t: nat, data: seq<byte>)
    requires At(inc, s.ctr, s.pos, c, t)
    ensures CtrOut(E, inc, s.ctr, s.pos, data) == CtrOut(E, inc, c, t, data)
  {
    hide KeyByte, Add;
    forall k | 0 <= k < |data| ensures CtrOut(E, inc, s.ctr, s.pos, data)[k] == CtrOut(E, inc, c, t, data)[k] {
      SameByte(E, inc, s, c, t, k);
    }
  }

  lemma SameByte(E: Cipher, inc: Cipher, s: Spot, c: Block, t: nat, k: nat)
    requires At(inc, s.ctr, s.pos, c, t)
    ensures KeyByte(E, inc, s.ctr, s.pos + k) == KeyByte(E, inc, c, t + k)
  {
    hide Counter;
    var n, i := (t - s.pos) / BLOCK, s.pos + k;
    CounterAdd(inc, c, n, i / BLOCK);
    assert t + k == BLOCK * (n + i / BLOCK) + i % BLOCK;
    KeyByteAt(E, inc, c, n + i / BLOCK, i % BLOCK);
  }

  /** A call moves the state by its length. */
  lemma AfterAt(inc: Cipher, s: Spot, c: Block, t: nat, len: nat)
    requires At(inc, s.ctr, s.pos, c, t)
    ensures var r := After(inc, s, len); At(inc, r.ctr, r.pos, c, t + len)
  {
    hide Counter;
    var n, end := (t - s.pos) / BLOCK, s.pos + len;
    assert t == BLOCK * n + s.pos;
    CounterAdd(inc, c, n, end / BLOCK);
    assert t + len == BLOCK * (n + end / BLOCK) + end % BLOCK;
  }

  /** A stream processed by a sequence of calls, each continuing from the state the one before left. */
  function CtrCalls(E: Cipher, inc: Cipher, s: Spot, calls: seq<seq<byte>>): (seq<byte>, Spot)
    requires s.pos <= BLOCK
    decreases |calls|
  {
    if calls == [] then ([], s)
    else
      var (rest, last) := CtrCalls(E, inc, After(inc, s, |calls[0]|), calls[1..]);
      (CtrOut(E, inc, s.ctr, s.pos, calls[0]) + rest, last)
  }

  /**
   * However a stream is cut into calls, the output is that of a single call, and the state the same or one increment
   * behind.
   */
  lemma {:induction false} CtrAnySplitting(E: Cipher, inc: Cipher, s: Spot, calls: seq<seq<byte>>)
    requires s.pos <= BLOCK
    ensures CtrCalls(E, inc, s, calls).0 == CtrOut(E, inc, s.ctr, s.pos, Concat(calls))
    ensures Behind(inc, CtrCalls(E, inc, s, calls).1, After(inc, s, |Concat(calls)|))
    decreases |calls|
  {
    hide CtrOut, KeyByte, Counter, Add, At, After;
    if calls == [] {
      CtrNone(E, inc, s.ctr, s.pos, []);
      AfterNone(inc, s);
    } else {
      var first, rest := calls[0], Concat(calls[1..]);
      var mid := After(inc, s, |first|);
      CtrAnySplitting(E, inc, mid, calls[1..]);
      AtSelf(inc, s);
      AfterAt(inc, s, s.ctr, s.pos, |first|);
      SameStream(E, inc, mid, s.ctr, s.pos + |first|, rest);
      CtrSplit(E, inc, s.ctr, s.pos, first, rest);
      TwoCalls(inc, s, |first|, |rest|);
      assert Concat(calls) == first + rest;
    }
  }

  /** A state behind another one produces the same output. */
  lemma BehindSame(E: Cipher, inc: Cipher, s: Spot, r: Spot, data: seq<byte>)
    requires Behind(inc, s, r)
    ensures CtrOut(E, inc, s.ctr, s.pos, data) == CtrOut(E, inc, r.ctr, r.pos, data)
  {
    if s != r {
      assert Counter(inc, s.ctr, 0) == s.ctr && Counter(inc, s.ctr, 1) == inc(s.ctr);
      SameStream(E, inc, r, s.ctr, s.pos, data);
    }
  }

  lemma AtSelf(inc: Cipher, s: Spot)
    requires s.pos <= BLOCK
    ensures At(inc, s.ctr, s.pos, s.ctr, s.pos)
  {}

  lemma AfterNone(inc: Cipher, s: Spot)
    requires s.pos <= BLOCK
    ensures Behind(inc, s, After(inc, s, 0))
  {}

  /** Encryption and decryption are the same. */
  lemma CtrInverse(E: Cipher, inc: Cipher, c: Block, t: nat, data: seq<byte>)
    ensures CtrOut(E, inc, c, t, CtrOut(E, inc, c, t, data)) == data
  {
    hide KeyByte, Add;
    forall k | 0 <= k < |data| ensures CtrOut(E, inc, c, t, CtrOut(E, inc, c, t, data))[k] == data[k] {
      Undo(data[k], KeyByte(E, inc, c, t + k));
    }
  }

  lemma KeyByteAt(E: Cipher, inc: Cipher, c: Block, n: nat, j: nat)
    requires j < BLOCK
    ensures KeyByte(E, inc, c, BLOCK * n + j) == E(Counter(inc, c, n))[j]
  {
    hide Counter;
    assert (BLOCK * n + j) / BLOCK == n && (BLOCK * n + j) % BLOCK == j;
  }

  class CounterStream {
    var ctr: Block
    var pos: nat

    constructor (c: Block)
      ensures ctr == c && pos == 0
    {
      ctr, pos := c, 0;
    }

    ghost predicate Valid()
      reads this
    {
      pos <= BLOCK
    }

    /** Uses up what is left of the current block. */
    method FinishBlock(E: Cipher, inc: Cipher, ibuf: seq<byte>, ghost c: Block, ghost t: nat) returns (obuf: seq<byte>)
      requires At(inc, ctr, pos, c, t) && pos != 0
      modifies this
      ensures |obuf| <= |ibuf| && At(inc, ctr, pos, c, t + |obuf|) && obuf == CtrOut(E, inc, c, t, ibuf[..|obuf|])
      ensures if old(pos) + |ibuf| <= BLOCK then |obuf| == |ibuf| else |obuf| < |ibuf| && pos == 0
      ensures old(pos) + |ibuf| <= BLOCK ==> ctr == old(ctr) && pos == old(pos) + |ibuf|
    {
      hide KeyByte, Add, Counter, CtrOut;
      var buf := E(ctr);
      ghost var n := (t - pos) / BLOCK;
      CtrNone(E, inc, c, t, ibuf);
      obuf := [];
      while pos < BLOCK && |obuf| < |ibuf|
        invariant 0 < pos <= BLOCK && |obuf| <= |ibuf| && BLOCK * n + pos == t + |obuf| && ctr == Counter(inc, c, n)
          && buf == E(ctr)
        invariant pos == old(pos) + |obuf| && ctr == old(ctr)
        invariant obuf == CtrOut(E, inc, c, t, ibuf[..|obuf|])
      {
        KeyByteAt(E, inc, c, n, pos);
        CtrGrow(E, inc, c, t, ibuf, |obuf|);
        obuf := obuf + [Add(ibuf[|obuf|], buf[pos])];
        pos := pos + 1;
      }
      if |obuf| < |ibuf| {
        ctr, pos := inc(ctr), 0;
        AtNext(inc, c, n, t + |obuf|);
      }
    }

    /** Encrypts the counters for up to eight blocks at once, then adds them to the data. */
    method Chunk(E: Cipher, inc: Cipher, data: seq<byte>, ghost c: Block, ghost t: nat) returns (out: seq<byte>)
      requires pos == 0 && At(inc, ctr, 0, c, t) && 0 < |data| <= BFR_BLOCKS * BLOCK
      modifies this
      ensures out == CtrOut(E, inc, c, t, data) && At(inc, ctr, pos, c, t + |data|) && pos < BLOCK
        && (|data| % BLOCK == 0 ==> pos == 0)
    {
      hide KeyByte, Add, Counter, CtrOut;
      ghost var n := t / BLOCK;
      var full := |data| / BLOCK;
      var buf := Counters(inc, full, c, n);
      if |data| % BLOCK != 0 { buf := buf + [ctr]; }
      buf := seq(|buf|, i requires 0 <= i < |buf| => E(buf[i]));
      out := AddWhole(E, inc, data, buf, full, c, t, n);
      if |data| % BLOCK != 0 { out, pos := AddTail(E, inc, data, out, buf[full], full, c, t, n); }
      OffsetAt(t, n, |data|, full, pos);
      assert data[..|data|] == data;
    }

    /** Adds the key stream to what is left of the data after the whole blocks. */
    method AddTail(ghost E: Cipher, ghost inc: Cipher, data: seq<byte>, whole: seq<byte>, key: Block, ghost full: nat,
                   ghost c: Block, ghost t: nat, ghost n: nat) returns (out: seq<byte>, p: nat)
      requires t == BLOCK * n && |whole| == BLOCK * full < |data| < BLOCK * full + BLOCK
        && key == E(Counter(inc, c, n + full))
      requires whole == CtrOut(E, inc, c, t, data[..|whole|])
      ensures out == CtrOut(E, inc, c, t, data) && |data| == BLOCK * full + p
    {
      hide KeyByte, Add, Counter, CtrOut;
      out, p := whole, 0;
      while |out| < |data|
        invariant |out| <= |data| && |out| == BLOCK * full + p && out == CtrOut(E, inc, c, t, data[..|out|])
      {
        OffsetAt(t, n, |out|, full, p);
        KeyByteAt(E, inc, c, n + full, p);
        CtrGrow(E, inc, c, t, data, |out|);
        out := out + [Add(data[|out|], key[p])];
        p := p + 1;
      }
      assert data[..|data|] == data;
    }

    /** Adds the key stream to the whole blocks of the data. */
    method AddWhole(ghost E: Cipher, ghost inc: Cipher, data: seq<byte>, buf: seq<Block>, full: nat, ghost c: Block,
                    ghost t: nat, ghost n: nat)
      returns (out: seq<byte>)
      requires t == BLOCK * n && BLOCK * full <= |data| && full <= |buf|
        && forall i :: 0 <= i < full ==> buf[i] == E(Counter(inc, c, n + i))
      ensures |out| == BLOCK * full && out == CtrOut(E, inc, c, t, data[..BLOCK * full])
    {
      hide KeyByte, Add, Counter, CtrOut;
      out := [];
      CtrNone(E, inc, c, t, data);
      var b := 0;
      while b < full
        invariant 0 <= b <= full && |out| == BLOCK * b && out == CtrOut(E, inc, c, t, data[..|out|])
      {
        var j := 0;
        while j < BLOCK
          invariant 0 <= j <= BLOCK && |out| == BLOCK * b + j && out == CtrOut(E, inc, c, t, data[..|out|])
        {
          OffsetAt(t, n, |out|, b, j);
          KeyByteAt(E, inc, c, n + b, j);
          CtrGrow(E, inc, c, t, data, |out|);
          out := out + [Add(data[|out|], buf[b][j])];
          j := j + 1;
        }
        b := b + 1;
      }
    }

    /** The next m counter blocks; the counter is left after them. */
    method Counters(inc: Cipher, m: nat, ghost c: Block, ghost n: nat) returns (buf: seq<Block>)
      requires ctr == Counter(inc, c, n)
      modifies this`ctr
      ensures |buf| == m && ctr == Counter(inc, c, n + m) && forall i :: 0 <= i < m ==> buf[i] == Counter(inc, c, n + i)
    {
      buf := [];
      while |buf| < m
        invariant |buf| <= m && ctr == Counter(inc, c, n + |buf|)
        invariant forall i :: 0 <= i < |buf| ==> buf[i] == Counter(inc, c, n + i)
      {
        buf := buf + [ctr];
        ctr := inc(ctr);
      }
    }

    /**
     * Counter mode: byte k of the data is added to byte (pos + k) mod 16 of the encryption of the saved counter
     * incremented (pos + k) / 16 times.
     */
    method Crypt(E: Cipher, inc: Cipher, ibuf: seq<byte>) returns (obuf: seq<byte>)
      requires Valid()
      modifies this
      ensures Valid() && Spot(ctr, pos) == After(inc, old(Spot(ctr, pos)), |ibuf|)
      ensures obuf == CtrOut(E, inc, old(ctr), old(pos), ibuf)
    {
      hide At, CtrOut, After, Counter;
      ghost var s := Spot(ctr, pos);
      AtSelf(inc, s);
      obuf := [];
      CtrNone(E, inc, s.ctr, s.pos, ibuf);
      if pos != 0 { obuf := FinishBlock(E, inc, ibuf, s.ctr, s.pos); }
      while |obuf| < |ibuf|
        invariant |obuf| <= |ibuf| && obuf == CtrOut(E, inc, s.ctr, s.pos, ibuf[..|obuf|])
          && At(inc, ctr, pos, s.ctr, s.pos + |obuf|)
        invariant |obuf| < |ibuf| ==> pos == 0
        invariant if s.pos > 0 && s.pos + |ibuf| <= BLOCK then Spot(ctr, pos) == Spot(s.ctr, s.pos + |ibuf|)
          else pos < BLOCK
        decreases |ibuf| - |obuf|
      {
        var left := |ibuf| - |obuf|;
        var blen := if left > BFR_BLOCKS * BLOCK then BFR_BLOCKS * BLOCK else left;
        var piece := ibuf[|obuf|..|obuf| + blen];
        var out := Chunk(E, inc, piece, s.ctr, s.pos + |obuf|);
        CtrSplit(E, inc, s.ctr, s.pos, ibuf[..|obuf|], piece);
        assert ibuf[..|obuf|] + piece == ibuf[..|obuf| + blen];
        obuf := obuf + out;
      }
      assert ibuf[..|ibuf|] == ibuf;
      LeftAfter(inc, s, Spot(ctr, pos), |ibuf|);
    }

    /** Processes a stream in a sequence of calls. */
    method CryptAll(E: Cipher, inc: Cipher, calls: seq<seq<byte>>) returns (out: seq<byte>)
      requires Valid()
      modifies this
      ensures Valid() && (out, Spot(ctr, pos)) == CtrCalls(E, inc, old(Spot(ctr, pos)), calls)
      ensures out == CtrOut(E, inc, old(ctr), old(pos), Concat(calls))
      ensures Behind(inc, Spot(ctr, pos), After(inc, old(Spot(ctr, pos)), |Concat(calls)|))
    {
      hide CtrOut, After, Behind;
      out := [];
      var i := 0;
      assert calls[0..] == calls;
      CtrAnySplitting(E, inc, Spot(ctr, pos), calls);
      assert [] + CtrCalls(E, inc, Spot(ctr, pos), calls).0 == CtrCalls(E, inc, Spot(ctr, pos), calls).0;
      while i < |calls|
        invariant 0 <= i <= |calls| && Valid()
        invariant var (rest, last) := CtrCalls(E, inc, Spot(ctr, pos), calls[i..]);
          (out + rest, last) == CtrCalls(E, inc, old(Spot(ctr, pos)), calls)
      {
        assert calls[i..][0] == calls[i] && calls[i..][1..] == calls[i + 1..];
        var piece := Crypt(E, inc, calls[i]);
        ghost var rest := CtrCalls(E, inc, Spot(ctr, pos), calls[i + 1..]).0;
        assert out + (piece + rest) == out + piece + rest;
        out := out + piece;
        i := i + 1;
      }
      assert out + [] == out;
    }
  }

  /** The state at the offset that a call reaches is the one stated, given on which side of an increment it is. */
  lemma LeftAfter(inc: Cipher, s: Spot, r: Spot, len: nat)
    requires s.pos <= BLOCK && At(inc, r.ctr, r.pos, s.ctr, s.pos + len)
    requires if s.pos > 0 && s.pos + len <= BLOCK then r == Spot(s.ctr, s.pos + len) else r.pos < BLOCK
    ensures r == After(inc, s, len)
  {
    var end := s.pos + len;
    if s.pos > 0 && end < BLOCK { assert Counter(inc, s.ctr, 0) == s.ctr; }
    assert r.pos < BLOCK ==> r.pos == end % BLOCK && (end - r.pos) / BLOCK == end / BLOCK;
  }

  lemma OffsetAt(t: nat, n: nat, i: nat, b: nat, j: nat)
    requires t == BLOCK * n && i == BLOCK * b + j && j <= BLOCK
    ensures t + i == BLOCK * (n + b) + j && (t + i - j) % BLOCK == 0 && (t + i - j) / BLOCK == n + b
  {}

  lemma AtNext(inc: Cipher, c: Block, n: nat, t: nat)
    requires t == BLOCK * n + BLOCK
    ensures At(inc, inc(Counter(inc, c, n)), 0, c, t)
  {
    assert t / BLOCK == n + 1;
  }

  lemma CtrNone(E: Cipher, inc: Cipher, c: Block, t: nat, data: seq<byte>)
    ensures CtrOut(E, inc, c, t, data[..0]) == []
  {}

  lemma CtrGrow(E: Cipher, inc: Cipher, c: Block, t: nat, data: seq<byte>, k: nat)
    requires k < |data|
    ensures CtrOut(E, inc, c, t, data[..k + 1]) ==
      CtrOut(E, inc, c, t, data[..k]) + [Add(data[k], KeyByte(E, inc, c, t + k))]
  {
    hide KeyByte, Add;
  }

  // ---- the modes of sections 6.3 and 6.4 of SP 800-38A, a block at a time ----

  /** Block j of a stream; the last one may be shorter. */
  function Piece(s: seq<byte>, j: nat): (p: seq<byte>)
    requires BLOCK * j <= |s|
    ensures |p| <= BLOCK
  {
    s[BLOCK * j..if BLOCK * j + BLOCK <= |s| then BLOCK * j + BLOCK else |s|]
  }

  /** The sum of a block, or the beginning of one, and a key block. */
  function Sum(p: seq<byte>, k: Block): (r: seq<byte>)
    requires |p| <= BLOCK
    ensures |r| == |p|
  {
    seq(|p|, i requires 0 <= i < |p| => Add(k[i], p[i]))
  }

  /** What is encrypted for block j: the block before of a stream, and the initial vector for the first. */
  function Before(iv: Block, s: seq<byte>, j: nat): Block
    requires BLOCK * j <= |s|
  {
    if j == 0 then iv else s[BLOCK * j - BLOCK..BLOCK * j]
  }

  /** The j-th output block of output feedback. */
  function OutputBlock(E: Cipher, iv: Block, j: nat): Block {
    if j == 0 then iv else E(OutputBlock(E, iv, j - 1))
  }

  /** What is encrypted for block j: the ciphertext block before, or the output block before. */
  function Chained(m: Mode, E: Cipher, iv: Block, data: seq<byte>, out: seq<byte>, j: nat): Block
    requires BLOCK * j <= |data| == |out|
  {
    match m
    case CfbEncrypt => Before(iv, out, j)
    case CfbDecrypt => Before(iv, data, j)
    case Ofb => OutputBlock(E, iv, j)
  }

  /** What replaces the first bytes of key block k once data d has been processed to o. */
  function Fed(m: Mode, d: seq<byte>, o: seq<byte>, k: Block): (r: seq<byte>)
    requires |d| == |o| <= BLOCK
    ensures |r| == |d|
  {
    match m
    case CfbEncrypt => o
    case CfbDecrypt => d
    case Ofb => k[..|d|]
  }

  /** The register after a stream: what the next block is made from, or the rest of a key block that is in use. */
  function Left(m: Mode, E: Cipher, iv: Block, data: seq<byte>, out: seq<byte>): Reg
    requires |data| == |out|
  {
    var j, p := |data| / BLOCK, |data| % BLOCK;
    var c := Chained(m, E, iv, data, out, j);
    Reg(if p == 0 then c else Fed(m, Piece(data, j), Piece(out, j), E(c)) + E(c)[p..], p)
  }

  /** A stream from the start of a block, as the standard describes it. */
  ghost predicate Standard(m: Mode, E: Cipher, iv: Block, data: seq<byte>, out: seq<byte>, r: Reg) {
    && |out| == |data| && r == Left(m, E, iv, data, out)
    && forall j: nat :: BLOCK * j < |data| ==> Piece(out, j) == Sum(Piece(data, j), E(Chained(m, E, iv, data, out, j)))
  }

  function FedBack(m: Mode, p: seq<byte>, k: Block): (r: seq<byte>)
    requires |p| <= BLOCK
    ensures |r| == |p|
  {
    Fed(m, p, Sum(p, k), k)
  }

  /** Up to one block from the start of a block. */
  lemma {:induction false} RunPiece(m: Mode, E: Cipher, iv: Block, p: seq<byte>)
    requires 0 < |p| <= BLOCK
    ensures Run(m, E, Reg(iv, 0), p) == (Sum(p, E(iv)), Reg(FedBack(m, p, E(iv)) + E(iv)[|p|..], |p| % BLOCK))
    decreases |p|
  {
    hide Run, Add, Sum, FedBack, Feedback;
    var n, k := |p| - 1, E(iv);
    var x, q := p[n], p[..n];
    assert p == q + [x];
    RunSplit(m, E, Reg(iv, 0), q, [x]);
    SumGrows(q, x, k);
    FedBackGrows(m, q, x, k);
    var iv': Block := FedBack(m, q, k) + k[n..];
    assert iv'[n] == k[n];
    if n == 0 {
      RunEmpty(m, E, Reg(iv, 0));
      RunOne(m, E, Reg(iv, 0), x);
      assert iv' == k && [] + [Add(k[0], x)] == [Add(k[0], x)] && Sum(q, k) == [];
    } else {
      RunPiece(m, E, iv, q);
      RunOne(m, E, Reg(iv', n), x);
    }
  }

  lemma SumGrows(q: seq<byte>, x: byte, k: Block)
    requires |q| < BLOCK
    ensures Sum(q + [x], k) == Sum(q, k) + [Add(k[|q|], x)]
  {
    hide Add;
  }

  lemma FedBackGrows(m: Mode, q: seq<byte>, x: byte, k: Block)
    requires |q| < BLOCK
    ensures (FedBack(m, q, k) + k[|q|..])[|q| := Feedback(m, k[|q|], x)] == FedBack(m, q + [x], k) + k[|q| + 1..]
  {
    hide Add;
    var l, r := (FedBack(m, q, k) + k[|q|..])[|q| := Feedback(m, k[|q|], x)], FedBack(m, q + [x], k) + k[|q| + 1..];
    assert |l| == |r| == BLOCK;
    forall i | 0 <= i < BLOCK ensures l[i] == r[i] {
      if i < |q| {
        assert l[i] == FedBack(m, q, k)[i];
      } else if i > |q| {
        assert l[i] == k[i] == r[i];
      }
    }
  }

  lemma {:induction false} OutputShift(E: Cipher, iv: Block, j: nat)
    ensures OutputBlock(E, E(iv), j) == OutputBlock(E, iv, j + 1)
  {
    if j > 0 { OutputShift(E, iv, j - 1); }
  }

  /** What is chained to the next block is what a stream chains that starts with what was fed back. */
  lemma ChainedShift(m: Mode, E: Cipher, iv: Block, data: seq<byte>, out: seq<byte>, j: nat)
    requires BLOCK <= |data| == |out| && BLOCK * j + BLOCK <= |data| && Piece(out, 0) == Sum(Piece(data, 0), E(iv))
    ensures var iv' := FedBack(m, Piece(data, 0), E(iv));
      Chained(m, E, iv', data[BLOCK..], out[BLOCK..], j) == Chained(m, E, iv, data, out, j + 1)
  {
    assert |Piece(data, 0)| == BLOCK;
    hide Sum, Before, Piece, OutputBlock;
    BeforeShift(iv, data, j);
    BeforeShift(iv, out, j);
    OutputShift(E, iv, j);
    assert E(iv)[..BLOCK] == E(iv);
  }

  lemma BeforeShift(iv: Block, s: seq<byte>, j: nat)
    requires BLOCK * j + BLOCK <= |s|
    ensures Before(Piece(s, 0), s[BLOCK..], j) == Before(iv, s, j + 1)
  {
    if j == 0 {
      assert Piece(s, 0) == s[..BLOCK];
    } else {
      var o := BLOCK * j;
      assert s[BLOCK..][o - BLOCK..o] == s[o..o + BLOCK];
    }
  }

  lemma PieceShift(s: seq<byte>, j: nat)
    requires BLOCK * j + BLOCK <= |s|
    ensures Piece(s[BLOCK..], j) == Piece(s, j + 1)
  {}

  lemma LeftShift(m: Mode, E: Cipher, iv: Block, data: seq<byte>, out: seq<byte>)
    requires BLOCK <= |data| == |out| && Piece(out, 0) == Sum(Piece(data, 0), E(iv))
    ensures Left(m, E, FedBack(m, Piece(data, 0), E(iv)), data[BLOCK..], out[BLOCK..]) == Left(m, E, iv, data, out)
  {
    assert |Piece(data, 0)| == BLOCK;
    hide Sum, Chained, FedBack, Piece, Fed;
    var iv': Block, data', out' := FedBack(m, Piece(data, 0), E(iv)), data[BLOCK..], out[BLOCK..];
    var j := |data'| / BLOCK;
    NextBlockAt(|data|, j);
    ChainedShift(m, E, iv, data, out, j);
    PieceShift(data, j);
    PieceShift(out, j);
    var c := Chained(m, E, iv', data', out', j);
    assert Left(m, E, iv', data', out').pos == Left(m, E, iv, data, out).pos == |data| % BLOCK;
    assert Piece(data', j) == Piece(data, j + 1) && Piece(out', j) == Piece(out, j + 1);
  }

  lemma NextBlockAt(n: nat, j: nat)
    requires n >= BLOCK && j == (n - BLOCK) / BLOCK
    ensures n / BLOCK == j + 1 && n % BLOCK == (n - BLOCK) % BLOCK && BLOCK * j + BLOCK <= n
  {}

  /** A stream from the start of a block is processed as the standard describes it. */
  lemma {:induction false} RunIsStandard(m: Mode, E: Cipher, iv: Block, data: seq<byte>)
    ensures var (out, r) := Run(m, E, Reg(iv, 0), data); Standard(m, E, iv, data, out, r)
    decreases |data|
  {
    hide Run, Add;
    var (out, r) := Run(m, E, Reg(iv, 0), data);
    if |data| == 0 {
      RunEmpty(m, E, Reg(iv, 0));
    } else if |data| < BLOCK {
      RunPiece(m, E, iv, data);
      ShortIsStandard(m, E, iv, data);
    } else {
      var first, rest := data[..BLOCK], data[BLOCK..];
      assert data == first + rest;
      RunPiece(m, E, iv, first);
      RunSplit(m, E, Reg(iv, 0), first, rest);
      var iv': Block := FedBack(m, first, E(iv));
      assert iv' + E(iv)[BLOCK..] == iv';
      RunIsStandard(m, E, iv', rest);
      assert out[BLOCK..] == Run(m, E, Reg(iv', 0), rest).0 && Piece(out, 0) == Sum(first, E(iv));
      NextIsStandard(m, E, iv, data, out, r);
    }
  }

  /** However a stream is cut into calls, it is processed as the standard describes it. */
  lemma CallsAreStandard(m: Mode, E: Cipher, iv: Block, calls: seq<seq<byte>>)
    ensures var (out, r) := RunCalls(m, E, Reg(iv, 0), calls); Standard(m, E, iv, Concat(calls), out, r)
  {
    hide Run, RunCalls, Standard;
    AnySplitting(m, E, Reg(iv, 0), calls);
    RunIsStandard(m, E, iv, Concat(calls));
  }

  lemma ShortIsStandard(m: Mode, E: Cipher, iv: Block, data: seq<byte>)
    requires 0 < |data| < BLOCK
    ensures Standard(m, E, iv, data, Sum(data, E(iv)), Reg(FedBack(m, data, E(iv)) + E(iv)[|data|..], |data| % BLOCK))
  {
    hide Add;
    assert Piece(data, 0) == data && Piece(Sum(data, E(iv)), 0) == Sum(data, E(iv));
    assert OutputBlock(E, iv, 0) == iv && OutputBlock(E, iv, 1) == E(iv);
    assert E(iv)[..|data|] + E(iv)[|data|..] == E(iv);
  }

  lemma NextIsStandard(m: Mode, E: Cipher, iv: Block, data: seq<byte>, out: seq<byte>, r: Reg)
    requires BLOCK <= |data| == |out| && Piece(out, 0) == Sum(Piece(data, 0), E(iv))
    requires Standard(m, E, FedBack(m, Piece(data, 0), E(iv)), data[BLOCK..], out[BLOCK..], r)
    ensures Standard(m, E, iv, data, out, r)
  {
    assert OutputBlock(E, iv, 0) == iv && OutputBlock(E, iv, 1) == E(iv);
    assert Chained(m, E, iv, data, out, 0) == iv;
    hide Sum, Chained, Left, Piece, FedBack;
    LeftShift(m, E, iv, data, out);
    forall j: nat | BLOCK * j < |data|
      ensures Piece(out, j) == Sum(Piece(data, j), E(Chained(m, E, iv, data, out, j)))
    {
      if j > 0 { NextPiece(m, E, iv, data, out, r, j - 1); }
    }
  }

  lemma NextPiece(m: Mode, E: Cipher, iv: Block, data: seq<byte>, out: seq<byte>, r: Reg, j: nat)
    requires BLOCK * j + BLOCK < |data| == |out| && Piece(out, 0) == Sum(Piece(data, 0), E(iv))
    requires Standard(m, E, FedBack(m, Piece(data, 0), E(iv)), data[BLOCK..], out[BLOCK..], r)
    ensures Piece(out, j + 1) == Sum(Piece(data, j + 1), E(Chained(m, E, iv, data, out, j + 1)))
  {
    assert |Piece(data, 0)| == BLOCK;
    hide Sum, Chained, Left, Piece, FedBack;
    var iv', data', out' := FedBack(m, Piece(data, 0), E(iv)), data[BLOCK..], out[BLOCK..];
    assert Piece(out', j) == Sum(Piece(data', j), E(Chained(m, E, iv', data', out', j)));
    ChainedShift(m, E, iv, data, out, j);
    PieceShift(data, j);
    PieceShift(out, j);
  }

  /** Counter mode is that of section 6.5 of SP 800-38A: block j is added to the encryption of counter block j. */
  lemma CtrIsStandard(E: Cipher, inc: Cipher, counters: nat -> Block, data: seq<byte>, j: nat)
    requires (forall i: nat :: counters(i + 1) == inc(counters(i))) && BLOCK * j < |data|
    ensures Piece(CtrOut(E, inc, counters(0), 0, data), j) == Sum(Piece(data, j), E(counters(j)))
  {
    hide Add, KeyByte;
    CountersAre(inc, counters, j);
    var out, p := CtrOut(E, inc, counters(0), 0, data), Piece(data, j);
    forall i | 0 <= i < |p| ensures Piece(out, j)[i] == Add(E(counters(j))[i], p[i]) {
      KeyByteAt(E, inc, counters(0), j, i);
      assert Piece(out, j)[i] == out[BLOCK * j + i] == Add(p[i], KeyByte(E, inc, counters(0), 0 + (BLOCK * j + i)));
      Comm(p[i], E(counters(j))[i]);
    }
  }

  lemma {:induction false} CountersAre(inc: Cipher, counters: nat -> Block, j: nat)
    requires forall i: nat :: counters(i + 1) == inc(counters(i))
    ensures Counter(inc, counters(0), j) == counters(j)
  {
    if j > 0 {
      CountersAre(inc, counters, j - 1);
      assert counters(j - 1 + 1) == inc(counters(j - 1));
    }
  }
}
