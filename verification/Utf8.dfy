/** UTF-8 sequences as section 4 of RFC 3629 defines them, and their decoding one character at a time. */
module Utf8 {
  type byte = x: int | 0 <= x < 256 witness 0

  // ---- the standard's definition ----

  predicate Tail(b: byte) { 0x80 <= b <= 0xBF }

  /** The length of the well-formed sequence at the start of s, or 0 if there is none. */
  function Length(s: seq<byte>): nat
    requires s != []
  {
    if s[0] <= 0x7F then 1
    else if |s| >= 2 && 0xC2 <= s[0] <= 0xDF && Tail(s[1]) then 2
    else if |s| >= 3 && Three(s[0], s[1]) && Tail(s[2]) then 3
    else if |s| >= 4 && Four(s[0], s[1]) && Tail(s[2]) && Tail(s[3]) then 4
    else 0
  }

  /** The first two bytes of a three-byte sequence: no overlong forms and no surrogates. */
  predicate Three(b0: byte, b1: byte) {
    (b0 == 0xE0 && 0xA0 <= b1 <= 0xBF) || (0xE1 <= b0 <= 0xEC && Tail(b1)) || (b0 == 0xED && 0x80 <= b1 <= 0x9F)
    || (0xEE <= b0 <= 0xEF && Tail(b1))
  }

  /** The first two bytes of a four-byte sequence: no overlong forms and nothing above 10FFFF. */
  predicate Four(b0: byte, b1: byte) {
    (b0 == 0xF0 && 0x90 <= b1 <= 0xBF) || (0xF1 <= b0 <= 0xF3 && Tail(b1)) || (b0 == 0xF4 && 0x80 <= b1 <= 0x8F)
  }

  predicate Scalar(c: int) { 0 <= c <= 0x10FFFF && !(0xD800 <= c <= 0xDFFF) }

  function Value2(b0: int, b1: int): int { (b0 - 0xC0) * 64 + (b1 - 0x80) }
  function Value3(b0: int, b1: int, b2: int): int { (b0 - 0xE0) * 4096 + (b1 - 0x80) * 64 + (b2 - 0x80) }
  function Value4(b0: int, b1: int, b2: int, b3: int): int {
    (b0 - 0xF0) * 262144 + (b1 - 0x80) * 4096 + (b2 - 0x80) * 64 + (b3 - 0x80)
  }

  /** The character a well-formed sequence stands for. */
  function CodePoint(s: seq<byte>): int
    requires s != [] && Length(s) > 0
  {
    match Length(s)
    case 1 => s[0]
    case 2 => Value2(s[0], s[1])
    case 3 => Value3(s[0], s[1], s[2])
    case _ => Value4(s[0], s[1], s[2], s[3])
  }

  /** Encoding as in section 3 of RFC 3629. */
  function Encode(c: int): seq<byte>
    requires Scalar(c)
  {
    if c < 0x80 then [c]
    else if c < 0x800 then [0xC0 + c / 64, 0x80 + c % 64]
    else if c < 0x10000 then [0xE0 + c / 4096, 0x80 + c / 64 % 64, 0x80 + c % 64]
    else [0xF0 + c / 262144, 0x80 + c / 4096 % 64, 0x80 + c / 64 % 64, 0x80 + c % 64]
  }

  /** The digits of a number in base 64 are unique. */
  lemma Digits(c: int, x: int, y: int, z: int, w: int)
    requires 0 <= y < 64 && 0 <= z < 64 && 0 <= w < 64
    ensures c == x * 262144 + y * 4096 + z * 64 + w <==>
      x == c / 262144 && y == c / 4096 % 64 && z == c / 64 % 64 && w == c % 64
  {
    var p, q := c / 64, c / 4096;
    assert c == 64 * p + c % 64 && p == 64 * q + p % 64 && q == 64 * (q / 64) + q % 64;
    assert q / 64 == c / 262144 && p / 64 == q;
  }

  /** Every scalar value's encoding is well formed and decodes to it, whatever follows. */
  lemma EncodeDecodes(c: int, rest: seq<byte>)
    requires Scalar(c)
    ensures var s := Encode(c) + rest; Length(s) == |Encode(c)| && CodePoint(s) == c
  {
    var e, s := Encode(c), Encode(c) + rest;
    assert forall i :: 0 <= i < |e| ==> s[i] == e[i];
    Digits(c, c / 262144, c / 4096 % 64, c / 64 % 64, c % 64);
    if c < 0x80 {
    } else if c < 0x800 {
      Decodes2(c);
    } else if c < 0x10000 {
      Decodes3(c);
    } else {
      Decodes4(c);
    }
  }

  lemma Decodes2(c: int)
    requires 0x80 <= c < 0x800
    ensures 0xC2 <= 0xC0 + c / 64 <= 0xDF && Tail(0x80 + c % 64) && Value2(0xC0 + c / 64, 0x80 + c % 64) == c
  {}

  lemma Decodes3(c: int)
    requires 0x800 <= c < 0x10000 && Scalar(c)
    ensures var b0, b1, b2 := 0xE0 + c / 4096, 0x80 + c / 64 % 64, 0x80 + c % 64;
      b0 <= 0xEF && Three(b0, b1) && Tail(b2) && Value3(b0, b1, b2) == c
  {
    Digits(c, 0, c / 4096, c / 64 % 64, c % 64);
    var x, y, z := c / 4096, c / 64 % 64, c % 64;
    assert c == x * 4096 + y * 64 + z;
  }

  lemma Decodes4(c: int)
    requires 0x10000 <= c <= 0x10FFFF
    ensures var b0, b1, b2, b3 := 0xF0 + c / 262144, 0x80 + c / 4096 % 64, 0x80 + c / 64 % 64, 0x80 + c % 64;
      b0 <= 0xF4 && Four(b0, b1) && Tail(b2) && Tail(b3) && Value4(b0, b1, b2, b3) == c
  {
    var x, y, z, w := c / 262144, c / 4096 % 64, c / 64 % 64, c % 64;
    Digits(c, x, y, z, w);
  }

  /** A well-formed sequence is the encoding of the scalar value it stands for: there is exactly one. */
  lemma DecodeEncodes(s: seq<byte>)
    requires s != [] && Length(s) > 0
    ensures Scalar(CodePoint(s)) && s[..Length(s)] == Encode(CodePoint(s))
  {
    match Length(s)
    case 1 =>
    case 2 => Encodes2(s[0], s[1]);
    case 3 => Encodes3(s[0], s[1], s[2]);
    case _ => Encodes4(s[0], s[1], s[2], s[3]);
  }

  lemma Encodes2(b0: byte, b1: byte)
    requires 0xC2 <= b0 <= 0xDF && Tail(b1)
    ensures var c := Value2(b0, b1); 0x80 <= c < 0x800 && Encode(c) == [b0, b1]
  {}

  lemma Encodes3(b0: byte, b1: byte, b2: byte)
    requires Three(b0, b1) && Tail(b2)
    ensures var c := Value3(b0, b1, b2); 0x800 <= c < 0x10000 && Scalar(c) && Encode(c) == [b0, b1, b2]
  {
    var c := Value3(b0, b1, b2);
    Digits(c, 0, b0 - 0xE0, b1 - 0x80, b2 - 0x80);
    assert c / 4096 == b0 - 0xE0;
  }

  lemma Encodes4(b0: byte, b1: byte, b2: byte, b3: byte)
    requires Four(b0, b1) && Tail(b2) && Tail(b3)
    ensures var c := Value4(b0, b1, b2, b3); 0x10000 <= c <= 0x10FFFF && Encode(c) == [b0, b1, b2, b3]
  {
    Digits(Value4(b0, b1, b2, b3), b0 - 0xF0, b1 - 0x80, b2 - 0x80, b3 - 0x80);
  }

  // ---- the library's decoder ----

  const SENTINEL := -1
  const MinLegal: seq<int> := [0, 0x80, 0x800, 0x10000]

  /** The number of trail bytes that a lead byte announces; sequences of five and six bytes are counted too. */
  function TrailCount(lead: byte): nat {
    if lead < 0xF0 then (if lead >= 0xC0 then 1 else 0) + (if lead >= 0xE0 then 1 else 0)
    else if lead < 0xFE then 3 + (if lead >= 0xF8 then 1 else 0) + (if lead >= 0xFC then 1 else 0)
    else 0
  }

  /** How many of the first n bytes of s are trail bytes, up to the first that is not. */
  function Trails(s: seq<byte>, n: nat): (k: nat)
    ensures k <= n && k <= |s|
  {
    if n == 0 || s == [] || !Tail(s[0]) then 0 else 1 + Trails(s[1..], n - 1)
  }

  /**
   * What is decoded at the start of s, and how many bytes it takes; an error takes the lead byte and its trail bytes.
   */
  function Decode(s: seq<byte>): (r: (int, nat))
    requires s != []
    ensures 0 < r.1 <= |s|
  {
    if Length(s) > 0 then (CodePoint(s), Length(s)) else (SENTINEL, 1 + Trails(s[1..], TrailCount(s[0])))
  }

  /** The number of one bits at the top of a byte, from the bit of weight top down. */
  function LeadingOnes(b: byte, top: nat): nat {
    if top == 0 || b / top % 2 == 0 then 0 else 1 + LeadingOnes(b, top / 2)
  }

  /** The number of trail bytes that a lead byte announces, read off its leading one bits. */
  function Announced(lead: byte): int {
    if 0xC0 <= lead <= 0xFD then LeadingOnes(lead, 128) - 1 else 0
  }

  lemma TrailsAnnounced(lead: byte)
    ensures TrailCount(lead) == Announced(lead)
  {
    hide LeadingOnes;
    if 0xC0 <= lead <= 0xFD {
      OnesStep(lead, 128);
      OnesStep(lead, 64);
      OnesStep(lead, 32);
      if lead >= 0xE0 { OnesStep(lead, 16); }
      if lead >= 0xF0 { OnesStep(lead, 8); }
      if lead >= 0xF8 { OnesStep(lead, 4); }
      if lead >= 0xFC { OnesStep(lead, 2); }
    }
  }

  lemma OnesStep(b: byte, top: nat)
    requires top > 0
    ensures LeadingOnes(b, top) == if b / top % 2 == 0 then 0 else 1 + LeadingOnes(b, top / 2)
  {}

  /**
   * What an error takes: its lead byte and the trail bytes after it, up to the announced number, the end of the string
   * or the first byte that is no trail byte.
   */
  ghost predicate Taken(s: seq<byte>, n: nat) {
    && 0 < n <= |s| && n - 1 <= Announced(s[0]) && (forall i :: 1 <= i < n ==> 0x80 <= s[i] <= 0xBF)
    && (n - 1 == Announced(s[0]) || n == |s| || !(0x80 <= s[n] <= 0xBF))
  }

  /** Exactly the sequences that are not well formed are in error, and this is what they take. */
  lemma ErrorTakes(s: seq<byte>)
    requires s != []
    ensures Decode(s).0 < 0 <==> Length(s) == 0
    ensures Length(s) == 0 ==> Taken(s, Decode(s).1)
  {
    hide Length, LeadingOnes, CodePoint;
    if Length(s) == 0 {
      TrailsAnnounced(s[0]);
      TrailsAre(s[1..], TrailCount(s[0]));
    } else {
      DecodeEncodes(s);
    }
  }

  lemma {:induction false} TrailsAre(s: seq<byte>, n: nat)
    ensures var k := Trails(s, n);
      (forall i :: 0 <= i < k ==> Tail(s[i])) && (k == n || k == |s| || !Tail(s[k]))
  {
    if n > 0 && s != [] && Tail(s[0]) {
      TrailsAre(s[1..], n - 1);
      assert forall i :: 1 <= i < |s| ==> s[i] == s[1..][i - 1];
    }
  }

  function MaskLead(lead: byte, count: nat): int {
    match count
    case 0 => lead % 64
    case 1 => lead % 32
    case 2 => lead % 16
    case 3 => lead % 8
    case 4 => lead % 4
    case _ => lead % 2
  }

  predicate Surrogate(c: int) { 0xD800 <= c <= 0xDFFF }

  /** Moves past the trail bytes of a sequence in error. */
  method SkipTrails(src: seq<byte>, i: nat, count: nat) returns (j: nat)
    requires i <= |src|
    ensures j == i + Trails(src[i..], count) <= |src|
  {
    j := i;
    var left := count;
    while left > 0 && j < |src| && Tail(src[j])
      invariant i <= j <= |src| && 0 <= left <= count
      invariant j + Trails(src[j..], left) == i + Trails(src[i..], count)
      decreases left
    {
      assert src[j..][1..] == src[j + 1..];
      j := j + 1;
      left := left - 1;
    }
  }

  /** The number that the bits of a sequence make up, whether or not its trail bytes are trail bytes. */
  function Bits(s: seq<byte>): int
    requires |s| > 0 && |s| > TrailCount(s[0]) && 1 <= TrailCount(s[0]) <= 3
  {
    match TrailCount(s[0])
    case 1 => Append(s[0] % 32, s[1])
    case 2 => Append(Append(s[0] % 16, s[1]), s[2])
    case _ => Append(Append(Append(s[0] % 8, s[1]), s[2]), s[3])
  }

  /** Six more bits. */
  function Append(c: int, trail: int): int { c * 64 + trail % 64 }

  /** The checks on bits, shortest form and surrogates accept exactly the well-formed sequences. */
  lemma Checks(s: seq<byte>)
    requires |s| > 0 && |s| > TrailCount(s[0]) && 1 <= TrailCount(s[0]) <= 3
    ensures var n := TrailCount(s[0]); var c := Bits(s);
      (Length(s) > 0 <==> c >= MinLegal[n] && !Surrogate(c) && c <= 0x10FFFF && forall k :: 1 <= k <= n ==> Tail(s[k]))
      && (Length(s) > 0 ==> Length(s) == n + 1 && CodePoint(s) == c) && (n < 3 ==> c < 0x10000)
  {
    match TrailCount(s[0])
    case 1 => Checks2(s[0], s[1]);
    case 2 => Checks3(s[0], s[1], s[2]);
    case _ => Checks4(s[0], s[1], s[2], s[3]);
  }

  lemma Checks2(b0: byte, b1: byte)
    requires 0xC0 <= b0 <= 0xDF
    ensures var c := Append(b0 % 32, b1);
      (0xC2 <= b0 && Tail(b1) <==> c >= 0x80 && Tail(b1)) && c < 0x800 && (Tail(b1) ==> c == Value2(b0, b1))
  {}

  lemma Checks3(b0: byte, b1: byte, b2: byte)
    requires 0xE0 <= b0 <= 0xEF
    ensures var c := Append(Append(b0 % 16, b1), b2);
      (Three(b0, b1) && Tail(b2) <==> c >= 0x800 && !Surrogate(c) && Tail(b1) && Tail(b2)) && c < 0x10000
      && (Tail(b1) && Tail(b2) ==> c == Value3(b0, b1, b2))
  {}

  lemma Checks4(b0: byte, b1: byte, b2: byte, b3: byte)
    requires 0xF0 <= b0 <= 0xF7
    ensures var d := Append(b0 % 8, b1); var c := Append(Append(d, b2), b3);
      (Four(b0, b1) && Tail(b2) && Tail(b3) <==> c >= 0x10000 && c <= 0x10FFFF && Tail(b1) && Tail(b2) && Tail(b3))
      && (d < 0x110 <==> c <= 0x10FFFF) && (Tail(b1) && Tail(b2) && Tail(b3) ==> c == Value4(b0, b1, b2, b3))
  {}

  predicate NotTail(trail: byte) { trail / 64 != 2 }

  lemma TailBits(b: byte)
    ensures NotTail(b) <==> !Tail(b)
  {}

  /**
   * Reads the trail bytes of a sequence that is long enough; the switch falls through from longer to shorter sequences.
   */
  method ReadTrails(src: seq<byte>, i: nat, lead: byte, count: nat) returns (c: int, illegal: bool, j: nat)
    requires 0 < i && i + count <= |src| && src[i - 1] == lead && count == TrailCount(lead) && 1 <= count <= 3
    ensures !illegal && c >= MinLegal[count] && !Surrogate(c) <==> Length(src[i - 1..]) > 0
    ensures Length(src[i - 1..]) > 0 ==> (c, j - i + 1) == (CodePoint(src[i - 1..]), Length(src[i - 1..]))
  {
    hide Length, CodePoint, NotTail, Tail;
    ghost var s := src[i - 1..];
    assert forall k :: 0 <= k <= count ==> s[k] == src[i - 1 + k];
    Checks(s);
    TailBits(s[1]);
    c, illegal, j := MaskLead(lead, count), false, i;
    if count == 3 {
      Checks4(s[0], s[1], s[2], s[3]);
      var trail := src[j];
      j := j + 1;
      c := Append(c, trail);
      if c < 0x110 {
        illegal := illegal || NotTail(trail);
      } else {
        return c, true, j;
      }
    }
    if count >= 2 {
      TailBits(src[j]);
      c := Append(c, src[j]);
      illegal := illegal || NotTail(src[j]);
      j := j + 1;
    }
    TailBits(src[j]);
    c := Append(c, src[j]);
    illegal := illegal || NotTail(src[j]);
    j := j + 1;
  }

  lemma NotALead(s: seq<byte>)
    requires s != [] && s[0] > 0x7F
    ensures TrailCount(s[0]) == 0 ==> Decode(s) == (SENTINEL, 1)
    ensures TrailCount(s[0]) >= 4 || |s| <= TrailCount(s[0]) ==> Length(s) == 0
  {}

  /** Decodes a sequence whose lead byte stands before i, with all checks; the end of src is the limit. */
  method NextPointer(src: seq<byte>, i: nat, lead: byte) returns (ch: int, j: nat)
    requires 0 < i <= |src| && src[i - 1] == lead && lead > 0x7F
    ensures i <= j <= |src| && (ch, j - i + 1) == Decode(src[i - 1..])
    ensures ch < 0 ==> Taken(src[i - 1..], j - i + 1)
  {
    hide Length, CodePoint, Trails, Taken;
    ErrorTakes(src[i - 1..]);
    var count := TrailCount(lead);
    var illegal := true;
    ch, j := lead, i;
    NotALead(src[i - 1..]);
    assert src[i - 1..][1..] == src[i..];
    if |src| - i >= count {
      if count == 0 { return SENTINEL, i; }
      if count < 4 { ch, illegal, j := ReadTrails(src, i, lead, count); }
    }
    if illegal || ch < MinLegal[count] || Surrogate(ch) {
      j := SkipTrails(src, i, count);
      ch := SENTINEL;
    }
    assert Decode(src[i - 1..]).1 <= |src[i - 1..]|;
  }

  /**
   * The variant for strings that end with a zero byte, the last of src: reading stops at the first byte that is not a
   * trail byte.
   */
  method ReadTerminated(src: seq<byte>, i: nat, lead: byte, count: nat) returns (c: int, illegal: bool, j: nat)
    requires 0 < i < |src| && src[|src| - 1] == 0 && src[i - 1] == lead && count == TrailCount(lead) && 1 <= count <= 3
    ensures var s := src[i - 1..|src| - 1];
      (!illegal && c >= MinLegal[count] && !Surrogate(c) <==> Length(s) > 0)
      && (Length(s) > 0 ==> (c, j - i + 1) == (CodePoint(s), Length(s)))
  {
    hide Length, CodePoint, Tail, Append;
    ghost var s := src[i - 1..|src| - 1];
    assert forall k :: 0 <= k < |s| ==> s[k] == src[i - 1 + k];
    ZeroIsNoTail();
    TailsNeeded(s);
    if |s| > count { Checks(s); }
    if |s| > 3 && count == 3 { Checks4(s[0], s[1], s[2], s[3]); }
    c, illegal, j := MaskLead(lead, count), false, i;
    if count == 3 {
      c := Append(c, src[j]);
      if !Tail(src[j]) || c >= 0x110 { return c, true, j + 1; }
      j := j + 1;
    }
    if count >= 2 {
      if !Tail(src[j]) { return c, true, j + 1; }
      c := Append(c, src[j]);
      j := j + 1;
    }
    illegal := !Tail(src[j]);
    c := Append(c, src[j]);
    j := j + 1;
  }

  lemma ZeroIsNoTail()
    ensures !Tail(0)
  {}

  /** A well-formed sequence has all its trail bytes, and is in range. */
  lemma TailsNeeded(s: seq<byte>)
    requires s != [] && 1 <= TrailCount(s[0]) <= 3
    ensures Length(s) > 0 ==> |s| > TrailCount(s[0]) && forall k :: 1 <= k <= TrailCount(s[0]) ==> Tail(s[k])
    ensures Length(s) > 0 && TrailCount(s[0]) == 3 ==> Append(s[0] % 8, s[1]) < 0x110
  {}

  /** Moves past trail bytes; the terminating zero stops it at the latest. */
  method SkipTerminated(src: seq<byte>, i: nat, count: nat) returns (j: nat)
    requires i < |src| && src[|src| - 1] == 0
    ensures j == i + Trails(src[i..|src| - 1], count) < |src|
  {
    j := i;
    var left := count;
    while left > 0 && Tail(src[j])
      invariant i <= j < |src| && 0 <= left <= count
      invariant j + Trails(src[j..|src| - 1], left) == i + Trails(src[i..|src| - 1], count)
      decreases left
    {
      assert src[j..|src| - 1][1..] == src[j + 1..|src| - 1];
      j := j + 1;
      left := left - 1;
    }
  }

  method NextTerminated(src: seq<byte>, i: nat, lead: byte) returns (ch: int, j: nat)
    requires 0 < i < |src| && src[|src| - 1] == 0 && src[i - 1] == lead && lead > 0x7F
    ensures i <= j < |src| && (ch, j - i + 1) == Decode(src[i - 1..|src| - 1])
    ensures ch < 0 ==> Taken(src[i - 1..|src| - 1], j - i + 1)
  {
    hide Length, CodePoint, Trails, Taken;
    ErrorTakes(src[i - 1..|src| - 1]);
    var count := TrailCount(lead);
    ghost var s := src[i - 1..|src| - 1];
    var illegal := true;
    ch, j := lead, i;
    NotALead(s);
    assert s[1..] == src[i..|src| - 1] && s[0] == lead;
    if count == 0 { return SENTINEL, i; }
    if count < 4 { ch, illegal, j := ReadTerminated(src, i, lead, count); }
    if illegal || ch < MinLegal[count] || Surrogate(ch) {
      j := SkipTerminated(src, i, count);
      ch := SENTINEL;
    }
    assert Decode(s).1 <= |s|;
  }
}
