/** Conversion of UTF-8 strings to UTF-16 through a fast loop, a checked loop and a counting loop. */
module Utf16 {
  import opened Utf8

  type unit = x: int | 0 <= x < 0x10000 witness 0

  /** The UTF-16 form of a character; nothing for a missing substitute. */
  function Units(c: int): (u: seq<unit>)
    requires c <= 0x10FFFF
  {
    if c < 0 then [] else if c <= 0xFFFF then [c] else [c / 1024 + 0xD7C0, c % 1024 + 0xDC00]
  }

  /** Surrogate pairs are those of section 2.1 of RFC 2781, and the character can be read off them. */
  lemma UnitsDecode(c: int)
    requires 0x10000 <= c <= 0x10FFFF
    ensures 0xD800 <= Units(c)[0] <= 0xDBFF && 0xDC00 <= Units(c)[1] <= 0xDFFF
    ensures c == 0x10000 + (Units(c)[0] as int - 0xD800) * 1024 + (Units(c)[1] as int - 0xDC00)
  {}

  function Shown(c: int, sub: int): int { if c < 0 then sub else c }

  /** The whole string's UTF-16 form, with sub in place of every sequence in error. */
  function Convert(s: seq<byte>, sub: int): seq<unit>
    requires sub <= 0x10FFFF
    decreases |s|
  {
    if s == [] then []
    else
      var (c, n) := Decode(s);
      DecodeRange(s);
      Units(Shown(c, sub)) + Convert(s[n..], sub)
  }

  /** The number of sequences in error. */
  function Errors(s: seq<byte>): nat
    decreases |s|
  {
    if s == [] then 0
    else
      var (c, n) := Decode(s);
      (if c < 0 then 1 else 0) + Errors(s[n..])
  }

  /** Short sequences are in the basic plane, and no sequence takes more than six bytes. */
  lemma DecodeRange(s: seq<byte>)
    requires s != []
    ensures var (c, n) := Decode(s);
      -1 <= c <= 0x10FFFF && n <= 6 && (s[0] < 0xF0 ==> n <= 3 && c <= 0xFFFF) && (c >= 0 ==> Scalar(c))
  {
    if Length(s) > 0 { DecodeEncodes(s); }
  }

  /** With the source read up to i, the units produced so far and what the rest will give make up the whole. */
  ghost predicate Progress(src: seq<byte>, i: nat, out: seq<unit>, sub: int, errors: nat) {
    sub <= 0x10FFFF && i <= |src| && out + Convert(src[i..], sub) == Convert(src, sub)
      && errors + Errors(src[i..]) == Errors(src)
  }

  lemma ProgressStart(src: seq<byte>, sub: int)
    requires sub <= 0x10FFFF
    ensures Progress(src, 0, [], sub, 0)
  {
    assert src[0..] == src;
  }

  lemma ProgressStep(src: seq<byte>, i: nat, out: seq<unit>, sub: int, errors: nat, c: int, n: nat)
    requires Progress(src, i, out, sub, errors) && i < |src| && (c, n) == Decode(src[i..])
    ensures -1 <= c <= 0x10FFFF && Progress(src, i + n, out + Units(Shown(c, sub)), sub,
                                            if c < 0 then errors + 1 else errors)
  {
    hide Decode, Units, Convert, Errors;
    ConvertStep(src[i..], sub, c, n);
    assert src[i..][n..] == src[i + n..];
    assert out + (Units(Shown(c, sub)) + Convert(src[i + n..], sub)) ==
      out + Units(Shown(c, sub)) + Convert(src[i + n..], sub);
  }

  lemma ConvertStep(s: seq<byte>, sub: int, c: int, n: nat)
    requires s != [] && sub <= 0x10FFFF && (c, n) == Decode(s)
    ensures -1 <= c <= 0x10FFFF && Convert(s, sub) == Units(Shown(c, sub)) + Convert(s[n..], sub)
    ensures Errors(s) == (if c < 0 then 1 else 0) + Errors(s[n..])
  {
    hide Decode, Units;
    DecodeRange(s);
  }

  lemma ProgressEnd(src: seq<byte>, out: seq<unit>, sub: int, errors: nat)
    requires Progress(src, |src|, out, sub, errors)
    ensures out == Convert(src, sub) && errors == Errors(src)
  {
    assert src[|src|..] == [];
  }

  /** An error without a substitute shows in the number of errors. */
  lemma ProgressError(src: seq<byte>, i: nat, out: seq<unit>, sub: int, errors: nat)
    requires Progress(src, i, out, sub, errors) && errors > 0
    ensures Errors(src) > 0
  {}

  /** A string given with its length, or one that ends with its only zero byte. */
  datatype Input = Sized(bytes: seq<byte>) | ZeroEnded(bytes: seq<byte>) {
    predicate Valid() {
      ZeroEnded? ==> bytes != [] && bytes[|bytes| - 1] == 0 && forall i :: 0 <= i < |bytes| - 1 ==> bytes[i] != 0
    }

    /** The string itself. */
    ghost function Text(): seq<byte>
      requires Valid()
    {
      if Sized? then bytes else bytes[..|bytes| - 1]
    }

    /** Whether the string goes on at i. */
    predicate More(i: nat)
      requires Valid() && i <= |Text()|
    {
      if Sized? then i < |bytes| else bytes[i] != 0
    }
  }

  /** The bits of a three-byte sequence; the upper bits of the lead byte are lost in the conversion to 16 bits. */
  function Truncated(b0: int, b1: int, b2: int): (u: unit)
    ensures 0xE0 <= b0 <= 0xEF && 0x80 <= b1 <= 0xBF && 0x80 <= b2 <= 0xBF ==> u == Value3(b0, b1, b2)
  {
    (b0 * 4096 + (b1 - 0x80) * 64 + (b2 - 0x80)) % 0x10000
  }

  /**
   * The most common characters, decoded in line.  Without checks three bytes must be available; a zero byte is its own
   * check.
   */
  method Inline(inp: Input, i: nat, checked: bool, ghost src: seq<byte>) returns (hit: bool, u: unit, j: nat)
    requires inp.Valid() && src == inp.Text() && i < |src| && (!checked ==> i + 3 <= |src|)
    ensures hit ==> i < j <= i + 3 && j <= |src| && Decode(src[i..]) == (u, j - i)
    ensures !hit ==> src[i] > 0x7F
  {
    var s := inp.bytes;
    var ch := s[i];
    hit, u, j := true, 0, i;
    if ch <= 0x7F { return true, ch, i + 1; }
    if ch > 0xE0 {
      if ch <= 0xEC && (!checked || inp.ZeroEnded? || |s| - i >= 3) && Tail(s[i + 1]) && Tail(s[i + 2]) {
        return true, Truncated(ch, s[i + 1], s[i + 2]), i + 3;
      }
    } else if ch < 0xE0 {
      if ch >= 0xC2 && (!checked || inp.ZeroEnded? || |s| - i >= 2) && Tail(s[i + 1]) {
        return true, (ch % 32) as int * 64 + (s[i + 1] - 0x80), i + 2;
      }
    }
    hit := false;
  }

  // ---- the three loops over a string of known length ----

  /** What the loops have read, written and counted: the units that did not fit any more are only counted. */
  datatype Position = Position(i: nat, d: nat, req: nat, errors: nat, bad: bool)

  /** The state of a conversion that has produced the units out, of which the first d are in dest. */
  ghost predicate At(p: Position, src: seq<byte>, dest: seq<unit>, cap: nat, sub: int, out: seq<unit>) {
    && sub <= 0x10FFFF && cap <= |dest| && p.i <= |src|
    && if p.bad then sub < 0 && Errors(src) > 0
       else Progress(src, p.i, out, sub, p.errors) && |out| == p.d + p.req && p.d <= cap && dest[..p.d] == out[..p.d]
            && (p.req > 0 ==> p.d == cap) && (sub < 0 ==> p.errors == 0)
  }

  /** Decodes one complicated character; bad if it is in error and there is no substitute. */
  method Complicated(inp: Input, p: Position, sub: int, ghost src: seq<byte>, ghost dest: seq<unit>, cap: nat,
                     ghost out: seq<unit>)
    returns (c: int, p': Position, ghost out': seq<unit>)
    requires inp.Valid() && src == inp.Text() && At(p, src, dest, cap, sub, out) && !p.bad && p.i < |src|
      && src[p.i] > 0x7F
    ensures p'.bad ==> At(p', src, dest, cap, sub, out)
    ensures !p'.bad ==> 0 <= c <= 0x10FFFF && out' == out + Units(c) && Progress(src, p'.i, out', sub, p'.errors)
    ensures !p'.bad ==> p'.d == p.d && p'.req == p.req && (sub < 0 ==> p'.errors == 0) && p.i < p'.i <= p.i + 6
    ensures !p'.bad && src[p.i] < 0xF0 ==> p'.i <= p.i + 3 && (sub <= 0xFFFF ==> c <= 0xFFFF)
  {
    hide Decode, Units, Convert, Errors, Progress;
    var j;
    if inp.Sized? {
      c, j := NextPointer(inp.bytes, p.i + 1, inp.bytes[p.i]);
    } else {
      c, j := NextTerminated(inp.bytes, p.i + 1, inp.bytes[p.i]);
      assert inp.bytes[p.i..|inp.bytes| - 1] == src[p.i..];
    }
    ProgressStep(src, p.i, out, sub, p.errors, c, j - p.i);
    DecodeRange(src[p.i..]);
    out' := out + Units(Shown(c, sub));
    var errors := p.errors;
    if c < 0 {
      errors := errors + 1;
      c := sub;
      if c < 0 {
        ProgressError(src, j, out', sub, errors);
        return c, Position(j, p.d, p.req, errors, true), out';
      }
    }
    p' := Position(j, p.d, p.req, errors, false);
  }

  /** Writes one unit and moves on in the source. */
  method Emit(dest: array<unit>, p: Position, u: unit, j: nat, errors: nat, ghost src: seq<byte>, cap: nat,
              ghost sub: int, ghost out: seq<unit>)
    returns (p': Position)
    requires cap <= dest.Length && !p.bad && p.d < cap && p.req == 0 && |out| == p.d && dest[..p.d] == out
    requires Progress(src, j, out + [u], sub, errors) && (sub < 0 ==> errors == 0)
    modifies dest
    ensures p' == Position(j, p.d + 1, 0, errors, false) && At(p', src, dest[..], cap, sub, out + [u])
    ensures forall k :: cap <= k < dest.Length ==> dest[k] == old(dest[k])
  {
    hide Progress;
    ProgressRange(src, j, out + [u], sub, errors);
    dest[p.d] := u;
    p' := Position(j, p.d + 1, 0, errors, false);
    assert dest[..][..p'.d] == out + [u];
  }

  lemma ProgressRange(src: seq<byte>, i: nat, out: seq<unit>, sub: int, errors: nat)
    requires Progress(src, i, out, sub, errors)
    ensures i <= |src| && sub <= 0x10FFFF
  {}

  /** Writes a surrogate pair for which there is room. */
  method EmitPair(dest: array<unit>, p: Position, c: int, j: nat, errors: nat, ghost src: seq<byte>, cap: nat,
                  ghost sub: int, ghost out: seq<unit>)
    returns (p': Position)
    requires cap <= dest.Length && !p.bad && p.d + 2 <= cap && p.req == 0 && |out| == p.d && dest[..p.d] == out
      && 0xFFFF < c <= 0x10FFFF
    requires Progress(src, j, out + Units(c), sub, errors) && (sub < 0 ==> errors == 0)
    modifies dest
    ensures p' == Position(j, p.d + 2, 0, errors, false) && At(p', src, dest[..], cap, sub, out + Units(c))
    ensures forall k :: cap <= k < dest.Length ==> dest[k] == old(dest[k])
  {
    hide Progress;
    ProgressRange(src, j, out + Units(c), sub, errors);
    dest[p.d] := c / 1024 + 0xD7C0;
    dest[p.d + 1] := c % 1024 + 0xDC00;
    p' := Position(j, p.d + 2, 0, errors, false);
    assert dest[..][..p'.d] == out + Units(c);
  }

  /** One character of the fast loop.  There is room for it, and enough input is left not to look at the limit. */
  method FastOne(inp: Input, ghost src: seq<byte>, dest: array<unit>, cap: nat, sub: int, p: Position, wide: bool,
                 hit: bool, u: unit, j: nat, ghost out: seq<unit>)
    returns (p': Position, ghost out': seq<unit>)
    requires inp.Valid() && src == inp.Text() && cap <= dest.Length && At(p, src, dest[..], cap, sub, out) && !p.bad
      && p.req == 0 && p.i < |src|
    requires p.d + (if wide then 2 else 1) <= cap && (!wide && !hit ==> src[p.i] < 0xF0 && sub <= 0xFFFF)
    requires hit ==> p.i < j <= p.i + 3 && Decode(src[p.i..]) == (u, j - p.i)
    requires !hit ==> src[p.i] > 0x7F
    modifies dest
    ensures At(p', src, dest[..], cap, sub, out')
    ensures !p'.bad ==>
      p'.req == 0 && p.i < p'.i <= p.i + (if wide then 6 else 3) && p.d < p'.d <= p.d + (if wide then 2 else 1)
    ensures forall k :: cap <= k < dest.Length ==> dest[k] == old(dest[k])
  {
    hide Progress, Decode;
    assert out == dest[..][..p.d] == dest[..p.d];
    if hit {
      ProgressStep(src, p.i, out, sub, p.errors, u, j - p.i);
      out' := out + [u];
      p' := Emit(dest, p, u, j, p.errors, src, cap, sub, out);
    } else {
      var c, q;
      c, q, out' := Complicated(inp, p, sub, src, dest[..], cap, out);
      if q.bad { return q, out; }
      if c <= 0xFFFF {
        p' := Emit(dest, p, c, q.i, q.errors, src, cap, sub, out);
      } else {
        p' := EmitPair(dest, p, c, q.i, q.errors, src, cap, sub, out);
      }
    }
  }

  /** A burst of count characters without looking at the limits: three bytes and one unit are accounted for each. */
  method FastBurst(src: seq<byte>, dest: array<unit>, cap: nat, sub: int, p0: Position, count0: nat,
                   ghost out0: seq<unit>)
    returns (p: Position, ghost out: seq<unit>)
    requires cap <= dest.Length && At(p0, src, dest[..], cap, sub, out0) && !p0.bad && p0.req == 0
    requires 3 <= count0 <= cap - p0.d && p0.i + 3 * count0 <= |src|
    modifies dest
    ensures At(p, src, dest[..], cap, sub, out) && (!p.bad ==> p.req == 0 && p.i > p0.i)
    ensures forall k :: cap <= k < dest.Length ==> dest[k] == old(dest[k])
  {
    hide At, Decode;
    p, out := p0, out0;
    var count := count0;
    while true
      invariant 0 < count <= count0 && !p.bad && p.req == 0 && At(p, src, dest[..], cap, sub, out)
      invariant count <= cap - p.d && p.i + 3 * count <= |src| && p.i >= p0.i && (p.i > p0.i || count == count0)
      invariant forall k :: cap <= k < dest.Length ==> dest[k] == old(dest[k])
      decreases count
    {
      var hit, u, j := Inline(Sized(src), p.i, false, src);
      var wide := !hit && (src[p.i] >= 0xF0 || sub > 0xFFFF);
      if wide {
        count := count - 1;
        if count == 0 { break; }
      }
      p, out := FastOne(Sized(src), src, dest, cap, sub, p, wide, hit, u, j, out);
      if p.bad { break; }
      count := count - 1;
      if count == 0 { break; }
    }
  }

  /** Bursts while at least three characters are sure to fit; every burst makes progress. */
  method FastLoop(src: seq<byte>, dest: array<unit>, cap: nat, sub: int) returns (p: Position, ghost out: seq<unit>)
    requires cap <= dest.Length && sub <= 0x10FFFF
    modifies dest
    ensures At(p, src, dest[..], cap, sub, out) && p.req == 0
    ensures forall k :: cap <= k < dest.Length ==> dest[k] == old(dest[k])
  {
    hide At, Progress;
    p, out := Position(0, 0, 0, 0, false), [];
    ProgressStart(src, sub);
    AtStart(src, dest[..], cap, sub);
    while true
      invariant At(p, src, dest[..], cap, sub, out) && !p.bad && p.req == 0
      invariant forall k :: cap <= k < dest.Length ==> dest[k] == old(dest[k])
      decreases |src| - p.i
    {
      AtRange(p, src, dest[..], cap, sub, out);
      var count := cap - p.d;
      var thirds := (|src| - p.i) / 3;
      if count > thirds { count := thirds; }
      if count < 3 { break; }
      p, out := FastBurst(src, dest, cap, sub, p, count, out);
      AtRange(p, src, dest[..], cap, sub, out);
      if p.bad { p := p.(req := 0); break; }
    }
  }

  lemma AtStart(src: seq<byte>, dest: seq<unit>, cap: nat, sub: int)
    requires cap <= |dest| && sub <= 0x10FFFF
    ensures At(Position(0, 0, 0, 0, false), src, dest, cap, sub, [])
  {
    ProgressStart(src, sub);
  }

  lemma AtRange(p: Position, src: seq<byte>, dest: seq<unit>, cap: nat, sub: int, out: seq<unit>)
    requires At(p, src, dest, cap, sub, out)
    ensures p.i <= |src| && (!p.bad ==> p.d <= cap <= |dest|)
    ensures p.bad ==> At(p.(req := 0), src, dest, cap, sub, out)
  {}

  /** A surrogate pair of which only the first half fits; the second is counted. */
  method EmitHalf(dest: array<unit>, p: Position, c: int, j: nat, errors: nat, ghost src: seq<byte>, cap: nat,
                  ghost sub: int, ghost out: seq<unit>)
    returns (p': Position)
    requires cap <= dest.Length && !p.bad && p.d + 1 == cap && p.req == 0 && |out| == p.d && dest[..p.d] == out
      && 0xFFFF < c <= 0x10FFFF
    requires Progress(src, j, out + Units(c), sub, errors) && (sub < 0 ==> errors == 0)
    modifies dest
    ensures p' == Position(j, cap, 1, errors, false) && At(p', src, dest[..], cap, sub, out + Units(c))
    ensures forall k :: cap <= k < dest.Length ==> dest[k] == old(dest[k])
  {
    hide Progress;
    ProgressRange(src, j, out + Units(c), sub, errors);
    dest[p.d] := c / 1024 + 0xD7C0;
    p' := Position(j, cap, 1, errors, false);
    assert dest[..][..p'.d] == (out + Units(c))[..p'.d];
  }

  /** One character of the checked loop. */
  method SlowOne(inp: Input, ghost src: seq<byte>, dest: array<unit>, cap: nat, sub: int, p: Position,
                 ghost out: seq<unit>)
    returns (p': Position, ghost out': seq<unit>)
    requires inp.Valid() && src == inp.Text()
    requires cap <= dest.Length && At(p, src, dest[..], cap, sub, out) && !p.bad && p.req == 0 && p.i < |src|
      && p.d < cap
    modifies dest
    ensures At(p', src, dest[..], cap, sub, out') && (!p'.bad ==> p'.i > p.i)
    ensures forall k :: cap <= k < dest.Length ==> dest[k] == old(dest[k])
  {
    hide Progress, Decode;
    assert out == dest[..][..p.d] == dest[..p.d];
    var hit, u, j := Inline(inp, p.i, true, src);
    if hit {
      ProgressStep(src, p.i, out, sub, p.errors, u, j - p.i);
      out' := out + [u];
      p' := Emit(dest, p, u, j, p.errors, src, cap, sub, out);
      return;
    }
    var c, q;
    c, q, out' := Complicated(inp, p, sub, src, dest[..], cap, out);
    if q.bad { return q, out; }
    if c <= 0xFFFF {
      p' := Emit(dest, p, c, q.i, q.errors, src, cap, sub, out);
    } else if p.d + 1 < cap {
      p' := EmitPair(dest, p, c, q.i, q.errors, src, cap, sub, out);
    } else {
      p' := EmitHalf(dest, p, c, q.i, q.errors, src, cap, sub, out);
    }
  }

  method SlowLoop(inp: Input, ghost src: seq<byte>, dest: array<unit>, cap: nat, sub: int, p0: Position,
                  ghost out0: seq<unit>)
    returns (p: Position, ghost out: seq<unit>)
    requires inp.Valid() && src == inp.Text() && cap <= dest.Length && At(p0, src, dest[..], cap, sub, out0)
      && !p0.bad && p0.req == 0
    modifies dest
    ensures At(p, src, dest[..], cap, sub, out) && (!p.bad && p.i < |src| ==> p.d == cap)
    ensures forall k :: cap <= k < dest.Length ==> dest[k] == old(dest[k])
  {
    hide At;
    p, out := p0, out0;
    AtFull(p, src, dest[..], cap, sub, out);
    while inp.More(p.i) && p.d < cap
      invariant p.i <= |src| && At(p, src, dest[..], cap, sub, out) && !p.bad && p.req == 0
      invariant forall k :: cap <= k < dest.Length ==> dest[k] == old(dest[k])
      decreases |src| - p.i
    {
      AtRange(p, src, dest[..], cap, sub, out);
      p, out := SlowOne(inp, src, dest, cap, sub, p, out);
      AtFull(p, src, dest[..], cap, sub, out);
      if p.bad || p.req > 0 { return; }
    }
    AtRange(p, src, dest[..], cap, sub, out);
  }

  lemma AtFull(p: Position, src: seq<byte>, dest: seq<unit>, cap: nat, sub: int, out: seq<unit>)
    requires At(p, src, dest, cap, sub, out)
    ensures !p.bad && p.req > 0 ==> p.d == cap
    ensures p.i <= |src|
  {}

  /** One character of the counting loop. */
  method CountOne(inp: Input, ghost src: seq<byte>, ghost dest: seq<unit>, cap: nat, sub: int, p: Position,
                  ghost out: seq<unit>)
    returns (p': Position, ghost out': seq<unit>)
    requires inp.Valid() && src == inp.Text() && At(p, src, dest, cap, sub, out) && !p.bad && p.i < |src| && p.d == cap
    ensures At(p', src, dest, cap, sub, out') && (!p'.bad ==> p'.i > p.i && p'.d == cap)
  {
    hide Progress, Decode;
    var hit, u, j := Inline(inp, p.i, true, src);
    if hit {
      ProgressStep(src, p.i, out, sub, p.errors, u, j - p.i);
      out' := out + [u];
      p' := p.(i := j, req := p.req + 1);
      ProgressRange(src, j, out', sub, p.errors);
      assert out'[..p.d] == out[..p.d];
      return;
    }
    var c, q;
    c, q, out' := Complicated(inp, p, sub, src, dest, cap, out);
    if q.bad { return q, out; }
    p' := q.(req := q.req + if c <= 0xFFFF then 1 else 2);
    ProgressRange(src, q.i, out', sub, q.errors);
    assert out'[..p.d] == out[..p.d];
  }

  method CountLoop(inp: Input, ghost src: seq<byte>, ghost dest: seq<unit>, cap: nat, sub: int, p0: Position,
                   ghost out0: seq<unit>)
    returns (p: Position, ghost out: seq<unit>)
    requires inp.Valid() && src == inp.Text() && At(p0, src, dest, cap, sub, out0) && !p0.bad
      && (p0.i < |src| ==> p0.d == cap)
    ensures At(p, src, dest, cap, sub, out) && (!p.bad ==> p.i == |src|)
  {
    hide At;
    p, out := p0, out0;
    AtFull(p, src, dest, cap, sub, out);
    while inp.More(p.i)
      invariant p.i <= |src| && At(p, src, dest, cap, sub, out) && !p.bad && (p.i < |src| ==> p.d == cap)
        && p.i <= |src|
      decreases |src| - p.i
    {
      p, out := CountOne(inp, src, dest, cap, sub, p, out);
      AtFull(p, src, dest, cap, sub, out);
      if p.bad { return; }
    }
  }

  // ---- the conversion ----

  datatype Status = Terminated | NotTerminated | Overflow
  datatype Result = IllegalArgument | InvalidChar | Converted(length: nat, errors: nat, status: Status)

  function StatusOf(length: nat, cap: nat): Status {
    if length < cap then Terminated else if length == cap then NotTerminated else Overflow
  }

  predicate BadArguments(cap: int, sub: int) { cap < 0 || sub > 0x10FFFF || Surrogate(sub) }

  /** What a conversion promises, in terms of the pure decoder alone. */
  ghost predicate Promised(r: Result, before: seq<unit>, after: seq<unit>, cap: int, src: seq<byte>, sub: int) {
    && cap <= |before| == |after|
    && (r == IllegalArgument <==> BadArguments(cap, sub))
    && (r == InvalidChar <==> !BadArguments(cap, sub) && sub < 0 && Errors(src) > 0)
    && (r.Converted? ==>
         var units := Convert(src, sub);
         && r == Converted(|units|, Errors(src), StatusOf(|units|, cap))
         && (forall k :: 0 <= k < cap && k < |units| ==> after[k] == units[k])
         && (|units| < cap ==> after[|units|] == 0))
    && (!BadArguments(cap, sub) ==> forall k :: cap <= k < |before| ==> after[k] == before[k])
    && (BadArguments(cap, sub) ==> after == before)
  }

  /** Ends the string with a zero if there is room, and reports how it fit. */
  method Terminate(dest: array<unit>, cap: nat, length: nat) returns (status: Status)
    requires cap <= dest.Length
    modifies dest
    ensures status == StatusOf(length, cap)
    ensures length < cap ==> dest[length] == 0
    ensures forall k :: 0 <= k < dest.Length && (k != length || length >= cap) ==> dest[k] == old(dest[k])
  {
    if length < cap {
      dest[length] := 0;
      return Terminated;
    }
    return if length == cap then NotTerminated else Overflow;
  }

  /** Converts a string; the fast loop is for strings of known length only. */
  method FromUtf8(dest: array<unit>, cap: int, inp: Input, sub: int) returns (r: Result)
    requires cap <= dest.Length && inp.Valid()
    modifies dest
    ensures Promised(r, old(dest[..]), dest[..], cap, inp.Text(), sub)
  {
    hide At, Convert, Errors;
    ghost var src := inp.Text();
    if cap < 0 || sub > 0x10FFFF || 0xD800 <= sub <= 0xDFFF { return IllegalArgument; }
    var p: Position := Position(0, 0, 0, 0, false);
    ghost var out: seq<unit> := [];
    AtStart(src, dest[..], cap, sub);
    if inp.Sized? { p, out := FastLoop(inp.bytes, dest, cap, sub); }
    if !p.bad { p, out := SlowLoop(inp, src, dest, cap, sub, p, out); }
    if !p.bad { p, out := CountLoop(inp, src, dest[..], cap, sub, p, out); }
    AtEnd(p, src, dest[..], cap, sub, out);
    if p.bad { return InvalidChar; }
    var status := Terminate(dest, cap, p.d + p.req);
    return Converted(p.d + p.req, p.errors, status);
  }

  lemma AtEnd(p: Position, src: seq<byte>, dest: seq<unit>, cap: nat, sub: int, out: seq<unit>)
    requires At(p, src, dest, cap, sub, out) && (!p.bad ==> p.i == |src|)
    ensures sub <= 0x10FFFF && (p.bad ==> sub < 0 && Errors(src) > 0)
    ensures !p.bad ==>
      p.errors == Errors(src) && p.d + p.req == |Convert(src, sub)| && p.d <= cap && (p.req > 0 ==> p.d == cap)
    ensures !p.bad ==> forall k :: 0 <= k < p.d ==> dest[k] == Convert(src, sub)[k]
    ensures !p.bad && sub < 0 ==> Errors(src) == 0
  {
    if !p.bad {
      ProgressEnd(src, out, sub, p.errors);
      assert forall k :: 0 <= k < p.d ==> dest[k] == dest[..p.d][k];
    }
  }

  /** A sequence in error counts once and gives the substitute; the conversion goes on after what the error takes. */
  lemma ErrorConverts(s: seq<byte>, sub: int) returns (n: nat)
    requires s != [] && Length(s) == 0 && sub <= 0x10FFFF
    ensures Taken(s, n) && Errors(s) == 1 + Errors(s[n..])
    ensures Convert(s, sub) == (if sub < 0 then [] else Units(sub)) + Convert(s[n..], sub)
  {
    hide Length, Taken;
    ErrorTakes(s);
    n := Decode(s).1;
  }

  /** Two bytes of a three-byte sequence before a letter are one error, and the letter is kept. */
  lemma CutShort()
    ensures Convert([0xE2, 0x82, 0x41], 0xFFFD) == [0xFFFD, 0x41] && Errors([0xE2, 0x82, 0x41]) == 1
  {
    var s: seq<byte> := [0xE2, 0x82, 0x41];
    assert s[1..] == [0x82, 0x41] && s[1..][1..] == [0x41] && s[2..] == [0x41];
    assert Trails([0x41], 1) == 0;
    assert Decode(s) == (SENTINEL, 2);
    var t: seq<byte> := [0x41];
    assert Decode(t) == (0x41, 1) && t[1..] == [];
    assert Convert(t, 0xFFFD) == [0x41] + Convert(t[1..], 0xFFFD);
  }

  // ---- strings of scalar values ----

  predicate Scalars(cs: seq<int>) { forall i :: 0 <= i < |cs| ==> Scalar(cs[i]) }

  function EncodeAll(cs: seq<int>): seq<byte>
    requires Scalars(cs)
  {
    if cs == [] then [] else Encode(cs[0]) + EncodeAll(cs[1..])
  }

  function UnitsAll(cs: seq<int>): seq<unit>
    requires Scalars(cs)
  {
    if cs == [] then [] else Units(cs[0]) + UnitsAll(cs[1..])
  }

  /** A string of scalar values, encoded, converts to its UTF-16 form without an error, whatever the substitute. */
  lemma {:induction false} EncodedConverts(cs: seq<int>, sub: int)
    requires Scalars(cs) && sub <= 0x10FFFF
    ensures Convert(EncodeAll(cs), sub) == UnitsAll(cs) && Errors(EncodeAll(cs)) == 0
    decreases |cs|
  {
    if cs != [] {
      hide Decode, Units, Convert, Errors, Length, CodePoint;
      var e, rest := Encode(cs[0]), EncodeAll(cs[1..]);
      EncodedConverts(cs[1..], sub);
      EncodeDecodes(cs[0], rest);
      DecodeWellFormed(e + rest);
      ConvertStep(e + rest, sub, cs[0], |e|);
      assert (e + rest)[|e|..] == rest;
    } else {
      assert Convert([], sub) == [] && Errors([]) == 0;
    }
  }

  lemma DecodeWellFormed(s: seq<byte>)
    requires s != [] && Length(s) > 0
    ensures Decode(s) == (CodePoint(s), Length(s))
  {}
}
