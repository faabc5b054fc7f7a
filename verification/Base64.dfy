/**
 * src/node_buffer.cc: `Base64Slice`, `Base64Write` and `base64_decoded_size`. Shifts and masks of bytes are
 * written as division and remainder by powers of two.
 */
module Base64 {
  import opened Common

  type Bytes = seq<Byte>

  const PAD: Byte := 61  // '='

  // ------------------------------------------------------------------ the tables

  /** `base64_table`. */
  function Table(i: Byte): Byte
    requires i < 64
  {
    if i < 26 then i + 65 else if i < 52 then i + 71 else if i < 62 then i - 4 else if i == 62 then 43 else 47
  }

  /** `unbase64(c) >= 0`. */
  predicate InAlphabet(c: Byte) {
    65 <= c <= 90 || 97 <= c <= 122 || 48 <= c <= 57 || c == 43 || c == 47
  }

  /** `unbase64(c)` where it is not negative. */
  function Index(c: Byte): Byte
    requires InAlphabet(c)
  {
    if 65 <= c <= 90 then c - 65 else if 97 <= c <= 122 then c - 71 else if 48 <= c <= 57 then c + 4
    else if c == 43 then 62 else 63
  }

  /** The two tables are inverse to each other. */
  lemma TablesInverse(i: Byte, c: Byte)
    ensures i < 64 ==> InAlphabet(Table(i)) && Index(Table(i)) == i
    ensures InAlphabet(c) ==> Index(c) < 64 && Table(Index(c)) == c
    ensures !InAlphabet(PAD)
  {
  }

  /** Table 1 of RFC 4648. */
  const ALPHABET := "ABCDEFGHIJKLMNOPQRSTUVWXYZ" + "abcdefghijklmnopqrstuvwxyz" + "0123456789+/"

  lemma Capitals(i: Byte)
    requires i < 26
    ensures "ABCDEFGHIJKLMNOPQRSTUVWXYZ"[i] as int == i as int + 65
  {
  }

  lemma SmallLetters(i: Byte)
    requires i < 26
    ensures "abcdefghijklmnopqrstuvwxyz"[i] as int == i as int + 97
  {
  }

  lemma DigitsAndSigns(i: Byte)
    requires i < 12
    ensures "0123456789+/"[i] as int == if i < 10 then i as int + 48 else if i == 10 then 43 else 47
  {
  }

  /** `base64_table` is that alphabet. */
  lemma TableIsAlphabet(i: Byte)
    requires i < 64
    ensures |ALPHABET| == 64 && Table(i) as int == ALPHABET[i] as int
  {
    var a, b, c := "ABCDEFGHIJKLMNOPQRSTUVWXYZ", "abcdefghijklmnopqrstuvwxyz", "0123456789+/";
    assert |a| == 26 && |b| == 26 && |c| == 12;
    if i < 26 {
      Capitals(i);
    } else if i < 52 {
      SmallLetters(i - 26);
    } else {
      DigitsAndSigns(i - 52);
    }
  }

  // ------------------------------------------------------------------ encoding

  /** The sextets of up to three bytes, missing ones being zero. */
  function Sextet0(x: Byte): (r: Byte)
    ensures r < 64
  { x / 4 }

  function Sextet1(x: Byte, y: Byte): (r: Byte)
    ensures r < 64
  { (x % 4) * 16 + y / 16 }

  function Sextet2(y: Byte, z: Byte): (r: Byte)
    ensures r < 64
  { (y % 16) * 4 + z / 64 }

  function Sextet3(z: Byte): (r: Byte)
    ensures r < 64
  { z % 64 }

  /** The 24 bits of three bytes, cut into four groups of six. */
  lemma SextetsSpell(x: Byte, y: Byte, z: Byte)
    ensures (x as int * 256 + y as int) * 256 + z as int
              == ((Sextet0(x) as int * 64 + Sextet1(x, y) as int) * 64 + Sextet2(y, z) as int) * 64 + Sextet3(z) as int
  {
    assert x as int == 4 * (x / 4) as int + (x % 4) as int;
    assert y as int == 16 * (y / 16) as int + (y % 16) as int;
    assert z as int == 64 * (z / 64) as int + (z % 64) as int;
  }

  /** The four characters for the first group of `b`. */
  function Group(b: Bytes): (g: Bytes)
    requires b != []
    ensures |g| == 4
  {
    var x, y, z := b[0], if |b| > 1 then b[1] else 0, if |b| > 2 then b[2] else 0;
    [Table(Sextet0(x)), Table(Sextet1(x, y)),
     if |b| > 1 then Table(Sextet2(y, z)) else PAD,
     if |b| > 2 then Table(Sextet3(z)) else PAD]
  }

  /** Section 4 of RFC 4648. */
  function Encode(b: Bytes): Bytes
    decreases |b|
  {
    if b == [] then [] else Group(b) + Encode(Next(b))
  }

  function Next(b: Bytes): Bytes {
    if |b| > 3 then b[3..] else []
  }

  lemma {:induction false} EncodeLength(b: Bytes)
    ensures |Encode(b)| == (|b| + 2) / 3 * 4
    decreases |b|
  {
    hide Group;
    if b == [] {
    } else {
      EncodeLength(Next(b));
      assert (|b| + 2) / 3 == (|Next(b)| + 2) / 3 + 1;
    }
  }

  /** `Base64Slice` on `data[start..end]`; the index may run past `end` by two. */
  method Base64Slice(data: array<Byte>, start: nat, end: nat) returns (out: array<Byte>)
    requires start <= end <= data.Length
    ensures fresh(out) && out[..] == Encode(data[start..end])
  {
    hide Encode, Group;
    var n := end - start;
    var outLen := (n + 2 - (n + 2) % 3) / 3 * 4;
    out := new Byte[outLen](_ => 0);
    var i, j := start, 0;
    ghost var all, rest := Encode(data[start..end]), data[start..end];
    EncodeLength(data[start..end]);
    while i < end
      invariant start <= i && j <= outLen == |all|
      invariant rest == if i < end then data[i..end] else []
      invariant all == all[..j] + Encode(rest) && out[..j] == all[..j]
      decreases end - i
    {
      ghost var group, j0 := Group(rest), j;
      GroupFits(all, j, rest);
      var b0 := data[i];
      i := i + 1;
      var b1, b1Oob := 0, true;
      if i < end { b1, b1Oob := data[i], false; }
      i := i + 1;
      var b2, b2Oob := 0, true;
      if i < end { b2, b2Oob := data[i], false; }
      i := i + 1;
      WriteGroup(out, j, b0, b1, b1Oob, b2, b2Oob, rest);
      j := j + 4;
      rest := Next(rest);
    }
    EncodeNothing();
    assert out[..] == out[..j] && all[..j] == all;
  }

  /** Lines 342-368: the four characters of one group. */
  method WriteGroup(out: array<Byte>, j: nat, b0: Byte, b1: Byte, b1Oob: bool, b2: Byte, b2Oob: bool, ghost rest: Bytes)
    requires j + 4 <= out.Length && rest != [] && rest[0] == b0
    requires if b1Oob then |rest| < 2 && b1 == 0 else |rest| >= 2 && rest[1] == b1
    requires if b2Oob then |rest| < 3 && b2 == 0 else |rest| >= 3 && rest[2] == b2
    modifies out
    ensures out[..j + 4] == old(out[..j]) + Group(rest)
  {
    hide Table, Sextet0, Sextet1, Sextet2, Sextet3;
    out[j] := Table(Sextet0(b0));
    out[j + 1] := Table(Sextet1(b0, b1));
    out[j + 2] := if b1Oob then PAD else Table(Sextet2(b1, b2));
    out[j + 3] := if b2Oob then PAD else Table(Sextet3(b2));
    assert out[..j] == old(out[..j]);
    assert out[..j + 4] == out[..j] + [out[j], out[j + 1], out[j + 2], out[j + 3]];
  }

  lemma EncodeNothing()
    ensures Encode([]) == []
  {
  }

  lemma GroupFits(all: Bytes, j: nat, rest: Bytes)
    requires rest != [] && j <= |all| && all == all[..j] + Encode(rest)
    ensures j + 4 <= |all| && all[..j + 4] == all[..j] + Group(rest) && all == all[..j + 4] + Encode(Next(rest))
  {
    hide Group;
    var p, g, e := all[..j], Group(rest), Encode(Next(rest));
    Assoc(p, g, e);
    assert all == (p + g) + e;
  }

  // ------------------------------------------------------------------ decoding

  /** The characters that count: everything outside the alphabet is skipped, padding included. */
  function Plain(s: Bytes): Bytes {
    if s == [] then [] else (if InAlphabet(s[0]) then [s[0]] else []) + Plain(s[1..])
  }

  function Byte0(a: Byte, b: Byte): Byte { (a % 64) * 4 + b / 16 % 4 }
  function Byte1(b: Byte, c: Byte): Byte { (b % 16) * 16 + c / 4 % 16 }
  function Byte2(c: Byte, d: Byte): Byte { (c % 4) * 64 + d % 64 }

  ghost predicate AllIn(p: Bytes) {
    forall i :: 0 <= i < |p| ==> InAlphabet(p[i])
  }

  /** Four characters give three bytes; two or three left over give one or two; one alone gives none. */
  function Decoded(p: Bytes): Bytes
    requires AllIn(p)
    decreases |p|
  {
    if |p| < 2 then []
    else
      var a, b := Index(p[0]), Index(p[1]);
      if |p| == 2 then [Byte0(a, b)]
      else
        var c := Index(p[2]);
        if |p| == 3 then [Byte0(a, b), Byte1(b, c)]
        else [Byte0(a, b), Byte1(b, c), Byte2(c, Index(p[3]))] + Decoded(p[4..])
  }

  lemma {:induction false} PlainIn(s: Bytes)
    ensures AllIn(Plain(s))
  {
    if s == [] {
    } else {
      PlainIn(s[1..]);
    }
  }

  lemma {:induction false} PlainAppend(a: Bytes, b: Bytes)
    ensures Plain(a + b) == Plain(a) + Plain(b)
  {
    hide InAlphabet;
    if a == [] {
      assert a + b == b;
    } else {
      assert (a + b)[1..] == a[1..] + b;
      PlainAppend(a[1..], b);
      Assoc(if InAlphabet(a[0]) then [a[0]] else [], Plain(a[1..]), Plain(b));
    }
  }

  /** What `Base64Write` makes of a text. */
  function Meaning(s: Bytes): Bytes {
    PlainIn(s);
    Decoded(Plain(s))
  }

  /** Four sextets give back the three bytes they were cut from, and so do the shorter groups. */
  lemma SextetsInverse(x: Byte, y: Byte, z: Byte)
    ensures Byte0(Sextet0(x), Sextet1(x, y)) == x
    ensures Byte1(Sextet1(x, y), Sextet2(y, z)) == y
    ensures Byte2(Sextet2(y, z), Sextet3(z)) == z
  {
    hide *;
    First(x, y);
    Second(x, y, z);
    Third(y, z);
  }

  lemma First(x: Byte, y: Byte)
    ensures Byte0(Sextet0(x), Sextet1(x, y)) == x
  {
    assert Sextet1(x, y) / 16 == x % 4;
  }

  lemma Second(x: Byte, y: Byte, z: Byte)
    ensures Byte1(Sextet1(x, y), Sextet2(y, z)) == y
  {
    assert Sextet1(x, y) % 16 == y / 16;
    assert Sextet2(y, z) / 4 == y % 16;
  }

  lemma Third(y: Byte, z: Byte)
    ensures Byte2(Sextet2(y, z), Sextet3(z)) == z
  {
    assert Sextet2(y, z) % 4 == z / 64;
  }

  /** The counting characters of one group. */
  function GroupPlain(b: Bytes): Bytes
    requires b != []
  {
    if |b| >= 3 then Group(b) else Group(b)[..|b| + 1]
  }

  lemma GroupIsPlain(b: Bytes)
    requires b != []
    ensures Plain(Group(b)) == GroupPlain(b) && AllIn(GroupPlain(b))
  {
    hide Table, InAlphabet, Index;
    var x, y, z := b[0], if |b| > 1 then b[1] else 0, if |b| > 2 then b[2] else 0;
    TablesInverse(Sextet0(x), 0);
    TablesInverse(Sextet1(x, y), 0);
    TablesInverse(Sextet2(y, z), 0);
    TablesInverse(Sextet3(z), 0);
    PlainFour(Group(b));
  }

  lemma PlainFour(g: Bytes)
    requires |g| == 4 && InAlphabet(g[0]) && InAlphabet(g[1])
    ensures Plain(g)
              == [g[0], g[1]] + (if InAlphabet(g[2]) then [g[2]] else []) + (if InAlphabet(g[3]) then [g[3]] else [])
  {
    hide InAlphabet;
    assert g[1..][1..] == g[2..] && g[2..][1..] == g[3..] && g[3..][1..] == [];
    var d := if InAlphabet(g[3]) then [g[3]] else [];
    var c := if InAlphabet(g[2]) then [g[2]] else [];
    assert Plain(g[3..]) == d + Plain([]) == d;
    assert Plain(g[2..]) == c + d;
    assert Plain(g[1..]) == [g[1]] + (c + d);
    assert Plain(g) == [g[0]] + ([g[1]] + (c + d)) == [g[0], g[1]] + c + d;
  }

  lemma DecodedNothing()
    ensures AllIn([]) && Decoded([]) == []
  {
  }

  lemma GroupDecodes(b: Bytes, tail: Bytes)
    requires b != [] && AllIn(tail) && (|b| < 3 ==> tail == [])
    ensures AllIn(GroupPlain(b) + tail)
    ensures Decoded(GroupPlain(b) + tail) == (if |b| <= 3 then b else b[..3]) + Decoded(tail)
  {
    hide Table, InAlphabet, Index, Byte0, Byte1, Byte2, Sextet0, Sextet1, Sextet2, Sextet3, Decoded, Plain;
    var x, y, z := b[0], if |b| > 1 then b[1] else 0, if |b| > 2 then b[2] else 0;
    GroupIsPlain(b);
    DecodeStages(GroupPlain(b) + tail);
    DecodedNothing();
    TablesInverse(Sextet0(x), 0);
    TablesInverse(Sextet1(x, y), 0);
    TablesInverse(Sextet2(y, z), 0);
    TablesInverse(Sextet3(z), 0);
    SextetsInverse(x, y, z);
    var p := GroupPlain(b) + tail;
    if |b| >= 3 {
      assert p[4..] == tail;
    }
  }

  /** The round trip: decoding the encoding, or any text with the same counting characters, restores the bytes. */
  lemma {:induction false} RoundTrip(b: Bytes)
    ensures Meaning(Encode(b)) == b
    decreases |b|
  {
    hide InAlphabet, Group;
    if b == [] {
    } else {
      var tail := Next(b);
      RoundTrip(tail);
      PlainAppend(Group(b), Encode(tail));
      GroupIsPlain(b);
      PlainIn(Encode(tail));
      GroupDecodes(b, Plain(Encode(tail)));
      assert |b| > 3 ==> b[..3] + b[3..] == b;
    }
  }

  // ------------------------------------------------------------------ Base64Write

  /** The character under the read pointer; past the end it is the terminating NUL. */
  function At(s: Bytes, i: nat): Byte {
    if i < |s| then s[i] else 0
  }

  /**
   * One stage of the decoding loop, `k` characters into a group: skip what does not count, stop at the end,
   * otherwise take a character.
   */
  method TakeChar(s: Bytes, src0: nat, remaining0: nat, k: nat) returns (src: nat, remaining: nat, c: Option<Byte>)
    requires src0 <= |s| && remaining0 == |s| - src0 + k
    ensures src0 <= src <= |s| && (c.Some? ==> remaining == |s| - src + k + 1)
    ensures Plain(s[src0..]) == if c.Some? then [c.value] + Plain(s[src..]) else []
    ensures c.Some? ==> InAlphabet(c.value) && src0 < src
  {
    hide InAlphabet;
    src, remaining := src0, remaining0;
    while !InAlphabet(At(s, src)) && src < |s|
      invariant src0 <= src <= |s| && remaining == |s| - src + k
      invariant Plain(s[src..]) == Plain(s[src0..])
      decreases |s| - src
    {
      assert s[src..][1..] == s[src + 1..];
      src := src + 1;
      remaining := remaining - 1;
    }
    if remaining <= k || At(s, src) == PAD {
      TablesInverse(0, 0);
      assert src == |s| && s[src..] == [];
      return src, remaining, None;
    }
    c := Some(s[src]);
    assert s[src..][1..] == s[src + 1..];
    src := src + 1;
  }

  datatype WriteResult = Written(count: nat) | OffsetOutOfBounds | BufferTooSmall

  /** `base64_decoded_size`. */
  function DecodedSize(s: Bytes): nat {
    var size := RawSize(|s|);
    if size == 0 then 0
    else SizeT(size - (if s[|s| - 1] == PAD then 1 else 0) - (if s[|s| - 2] == PAD then 1 else 0))
  }

  /** The estimate from the length alone. */
  function RawSize(length: nat): (size: nat)
    ensures size <= length && (size > 0 ==> length >= 2)
  {
    var remainder, quads := length % 4, length / 4 * 3;
    if remainder == 0 || (quads == 0 && remainder == 1) then quads
    else quads + 1 + (if remainder == 3 then 1 else 0)
  }

  /**
   * It is the number of bytes that so many characters can encode, and one more for a single character beyond the
   * groups of four.
   */
  lemma RawSizeIs(length: nat)
    ensures var n := RawSize(length) - if length % 4 == 1 && length > 1 then 1 else 0;
            n >= 0 && PlainLength(n) <= length < PlainLength(n + 1)
  {
  }

  /** Unsigned 64-bit wrap-around. */
  function SizeT(n: int): nat {
    n % 0x1_0000_0000_0000_0000
  }

  function Pads(s: Bytes): nat {
    if s == [] then 0 else (if s[0] == PAD then 1 else 0) + Pads(s[1..])
  }

  /**
   * `s` is the encoding of `b`, possibly with characters that do not count inserted anywhere, and with some or
   * all of its padding stripped.
   */
  ghost predicate TextOf(s: Bytes, b: Bytes) {
    Plain(s) == Plain(Encode(b)) && Pads(s) <= Pads(Encode(b))
  }

  lemma TextMeaning(s: Bytes, b: Bytes)
    requires TextOf(s, b)
    ensures Meaning(s) == b
  {
    RoundTrip(b);
  }

  lemma {:induction false} Counts(s: Bytes)
    ensures |Plain(s)| + Pads(s) <= |s|
    ensures |s| >= 1 && s[|s| - 1] == PAD ==> Pads(s) >= 1
    ensures |s| >= 2 && s[|s| - 2] == PAD ==> Pads(s) >= 1
    ensures |s| >= 2 && s[|s| - 1] == PAD && s[|s| - 2] == PAD ==> Pads(s) >= 2
  {
    if s == [] {
    } else {
      Counts(s[1..]);
    }
  }

  lemma {:induction false} PadsAppend(a: Bytes, b: Bytes)
    ensures Pads(a + b) == Pads(a) + Pads(b)
  {
    if a == [] {
      assert a + b == b;
    } else {
      assert (a + b)[1..] == a[1..] + b;
      PadsAppend(a[1..], b);
    }
  }

  lemma GroupPads(b: Bytes)
    requires b != []
    ensures Pads(Group(b)) == if |b| >= 3 then 0 else 3 - |b|
  {
    hide Table, InAlphabet, Index;
    var x, y, z := b[0], if |b| > 1 then b[1] else 0, if |b| > 2 then b[2] else 0;
    TablesInverse(Sextet0(x), 0);
    TablesInverse(Sextet1(x, y), 0);
    TablesInverse(Sextet2(y, z), 0);
    TablesInverse(Sextet3(z), 0);
    var g := Group(b);
    assert g[1..][1..] == g[2..] && g[2..][1..] == g[3..] && g[3..][1..] == [];
    assert Pads(g[2..]) == (if g[2] == PAD then 1 else 0) + (if g[3] == PAD then 1 else 0) by {
      assert Pads(g[3..]) == if g[3] == PAD then 1 else 0;
    }
  }

  /** How many counting characters and how many pads an encoding has. */
  lemma {:induction false} EncodeCounts(b: Bytes)
    ensures |Plain(Encode(b))| == PlainLength(|b|) && Pads(Encode(b)) == PadLength(|b|)
    decreases |b|
  {
    hide Group, InAlphabet;
    if b == [] {
    } else {
      EncodeCounts(Next(b));
      PlainAppend(Group(b), Encode(Next(b)));
      PadsAppend(Group(b), Encode(Next(b)));
      GroupIsPlain(b);
      GroupPads(b);
    }
  }

  /** The space reserved for such a text is never too small. */
  lemma SizeSuffices(s: Bytes, b: Bytes)
    requires TextOf(s, b) && |s| < 0x1_0000_0000_0000_0000
    ensures DecodedSize(s) >= |b|
  {
    hide Plain, Pads, Encode, RawSize;
    Counts(s);
    EncodeCounts(b);
    var k := if |s| < 2 then 0 else (if s[|s| - 1] == PAD then 1 else 0) + (if s[|s| - 2] == PAD then 1 else 0);
    RawSizeSuffices(|s|, |b|, k);
  }

  /** `n` bytes encode to this many counting characters and this many pads. */
  function PlainLength(n: nat): nat {
    n / 3 * 4 + (if n % 3 == 0 then 0 else n % 3 + 1)
  }

  function PadLength(n: nat): nat {
    if n % 3 == 0 then 0 else 3 - n % 3
  }

  lemma RawSizeSuffices(length: nat, n: nat, k: nat)
    requires length >= PlainLength(n) + k && k <= PadLength(n)
    ensures RawSize(length) >= n + k
  {
  }

  /** It is exact for the encoding itself and for the encoding with its padding stripped. */
  lemma SizeExact(b: Bytes)
    requires |Encode(b)| < 0x1_0000_0000_0000_0000
    ensures TextOf(Encode(b), b) && DecodedSize(Encode(b)) == |b|
    ensures TextOf(Plain(Encode(b)), b) && DecodedSize(Plain(Encode(b))) == |b|
  {
    hide Encode, Plain, Pads, InAlphabet;
    var e := Encode(b);
    var p := Plain(e);
    PlainIn(e);
    PlainAgain(p);
    EncodeCounts(b);
    Counts(e);
    if b == [] {
      EncodeNothing();
    } else {
      EncodedSizeExact(b);
      StrippedSizeExact(p, b);
    }
  }

  lemma EncodedSizeExact(b: Bytes)
    requires b != [] && |Encode(b)| < 0x1_0000_0000_0000_0000
    ensures DecodedSize(Encode(b)) == |b|
  {
    hide Encode;
    EncodeLength(b);
    EncodePadsLast(b);
  }

  lemma StrippedSizeExact(p: Bytes, b: Bytes)
    requires b != [] && AllIn(p) && |p| < 0x1_0000_0000_0000_0000
    requires |p| == PlainLength(|b|)
    ensures DecodedSize(p) == |b|
  {
    assert forall i :: 0 <= i < |p| ==> p[i] != PAD;
  }

  lemma {:induction false} PlainAgain(p: Bytes)
    requires AllIn(p)
    ensures Plain(p) == p && Pads(p) == 0
  {
    TablesInverse(0, 0);
    hide InAlphabet;
    if p == [] {
    } else {
      PlainAgain(p[1..]);
      assert [p[0]] + p[1..] == p;
    }
  }

  lemma GroupPadsLast(b: Bytes)
    requires b != []
    ensures var g := Group(b); (g[3] == PAD <==> |b| < 3) && (g[2] == PAD <==> |b| < 2)
  {
    hide Table, InAlphabet, Index, Sextet0, Sextet1, Sextet2, Sextet3;
    var y, z := if |b| > 1 then b[1] else 0, if |b| > 2 then b[2] else 0;
    TablesInverse(Sextet2(y, z), 0);
    TablesInverse(Sextet3(z), 0);
  }

  /** The pads of an encoding are its last characters. */
  lemma {:induction false} EncodePadsLast(b: Bytes)
    requires b != []
    ensures var e := Encode(b);
            |e| >= 4 && (e[|e| - 1] == PAD <==> |b| % 3 != 0) && (e[|e| - 2] == PAD <==> |b| % 3 == 1)
    decreases |b|
  {
    hide Group;
    var e := Encode(b);
    if |b| > 3 {
      EncodePadsLast(b[3..]);
      var t := Encode(b[3..]);
      assert e == Group(b) + t;
      assert e[|e| - 1] == t[|t| - 1] && e[|e| - 2] == t[|t| - 2];
    } else {
      EncodeNothing();
      assert e == Group(b);
      GroupPadsLast(b);
    }
  }

  /**
   * `Base64Write` of such a text at `offset`: the check against `base64_decoded_size` makes the unchecked
   * writes stay inside the buffer, and they are the encoded bytes.
   */
  method Base64Write(buffer: array<Byte>, s: Bytes, offset: nat, ghost b: Bytes) returns (r: WriteResult)
    requires TextOf(s, b) && |s| < 0x1_0000_0000_0000_0000
    modifies buffer
    ensures r.Written? && buffer.Length > 0 ==>
              r.count == |b| && offset + |b| <= buffer.Length && buffer[offset..offset + |b|] == b
    ensures r.Written? && buffer.Length == 0 ==> r.count == 0
    ensures forall k :: 0 <= k < buffer.Length && !(r.Written? && offset <= k < offset + r.count)
              ==> buffer[k] == old(buffer[k])
    ensures r.OffsetOutOfBounds? <==> offset >= buffer.Length && !(offset == 0 && buffer.Length == 0)
    ensures r.BufferTooSmall? <==> offset < buffer.Length && DecodedSize(s) > buffer.Length - offset
  {
    if offset == 0 && buffer.Length == 0 { return Written(0); }
    if offset >= buffer.Length { return OffsetOutOfBounds; }
    var size := DecodedSize(s);
    if size > buffer.Length - offset { return BufferTooSmall; }
    SizeSuffices(s, b);
    TextMeaning(s, b);
    var count := DecodeInto(buffer, s, offset);
    return Written(count);
  }

  /** What the characters of one group, read one after the other, decode to. */
  lemma DecodeStages(p: Bytes)
    requires AllIn(p)
    ensures |p| < 2 ==> Decoded(p) == []
    ensures |p| == 2 ==> Decoded(p) == [Byte0(Index(p[0]), Index(p[1]))]
    ensures |p| == 3 ==> Decoded(p) == [Byte0(Index(p[0]), Index(p[1])), Byte1(Index(p[1]), Index(p[2]))]
    ensures |p| >= 4 ==>
              var a, b, c, d := Index(p[0]), Index(p[1]), Index(p[2]), Index(p[3]);
              Decoded(p) == [Byte0(a, b), Byte1(b, c), Byte2(c, d)] + Decoded(p[4..])
    ensures |p| >= 2 ==> |Decoded(p)| >= 1
    ensures |p| >= 3 ==> |Decoded(p)| >= 2
  {
  }

  /** One round of the decoding loop, lines 614-647; `stop` is a `break`. */
  method DecodeGroup(buffer: array<Byte>, s: Bytes, src0: nat, dst0: nat) returns (src: nat, dst: nat, stop: bool)
    requires src0 < |s| && dst0 + |Meaning(s[src0..])| <= buffer.Length
    modifies buffer
    ensures src0 <= src <= |s| && dst0 <= dst <= buffer.Length && (!stop ==> src0 < src)
    ensures Meaning(s[src0..]) == buffer[dst0..dst] + if stop then [] else Meaning(s[src..])
    ensures forall k :: 0 <= k < buffer.Length && !(dst0 <= k < dst) ==> buffer[k] == old(buffer[k])
  {
    hide Plain, Decoded, InAlphabet, Index, Byte0, AllIn;
    ghost var p := Plain(s[src0..]);
    PlainIn(s[src0..]);
    DecodeStages(p);
    src, dst, stop := src0, dst0, true;
    var remaining := |s| - src;
    var a, b: Option<Byte>;
    src, remaining, a := TakeChar(s, src, remaining, 0);
    if a.None? { return; }
    src, remaining, b := TakeChar(s, src, remaining, 1);
    if b.None? { return; }
    assert p == [a.value, b.value] + Plain(s[src..]);
    var first := Byte0(Index(a.value), Index(b.value));
    buffer[dst] := first;
    src, dst, stop := DecodeTail(buffer, s, src, dst + 1, remaining, a.value, b.value);
    ghost var rest := if stop then [] else Meaning(s[src..]);
    assert buffer[dst0..dst] == [first] + buffer[dst0 + 1..dst];
    Assoc([first], buffer[dst0 + 1..dst], rest);
  }

  /** Lines 631-646: the rest of the round, once two characters are read and the first byte is written. */
  method DecodeTail(
      buffer: array<Byte>, s: Bytes, src0: nat, dst0: nat, remaining0: nat, ghost a: Byte, b: Byte)
    returns (src: nat, dst: nat, stop: bool)
    requires src0 <= |s| && remaining0 == |s| - src0 + 2 && InAlphabet(b) && AllIn([a, b] + Plain(s[src0..]))
    requires dst0 + |Decoded([a, b] + Plain(s[src0..]))| <= buffer.Length + 1
    modifies buffer
    ensures src0 <= src <= |s| && dst0 <= dst <= buffer.Length
    ensures Decoded([a, b] + Plain(s[src0..])) ==
            [Byte0(Index(a), Index(b))] + (buffer[dst0..dst] + if stop then [] else Meaning(s[src..]))
    ensures forall k :: 0 <= k < buffer.Length && !(dst0 <= k < dst) ==> buffer[k] == old(buffer[k])
  {
    hide Plain, Decoded, InAlphabet, Index, Byte0, Byte1, Byte2, AllIn;
    ghost var p := [a, b] + Plain(s[src0..]);
    DecodeStages(p);
    src, dst, stop := src0, dst0, true;
    var remaining := remaining0;
    var c, d: Option<Byte>;
    src, remaining, c := TakeChar(s, src, remaining, 2);
    if c.None? {
      assert p == [a, b];
      return;
    }
    assert p == [a, b, c.value] + Plain(s[src..]);
    buffer[dst] := Byte1(Index(b), Index(c.value));
    dst := dst + 1;
    src, remaining, d := TakeChar(s, src, remaining, 3);
    if d.None? {
      assert p == [a, b, c.value];
      return;
    }
    assert p == [a, b, c.value, d.value] + Plain(s[src..]);
    assert p[4..] == Plain(s[src..]);
    buffer[dst] := Byte2(Index(c.value), Index(d.value));
    dst := dst + 1;
    stop := false;
  }

  method DecodeInto(buffer: array<Byte>, s: Bytes, offset: nat) returns (n: nat)
    requires offset + |Meaning(s)| <= buffer.Length
    modifies buffer
    ensures n == |Meaning(s)| && buffer[offset..offset + n] == Meaning(s)
    ensures forall k :: 0 <= k < buffer.Length && !(offset <= k < offset + n) ==> buffer[k] == old(buffer[k])
  {
    hide Meaning;
    var src, dst, stop := 0, offset, false;
    ghost var all, left := Meaning(s), Meaning(s);
    assert s[0..] == s;
    while src < |s| && !stop
      invariant src <= |s| && offset <= dst <= buffer.Length
      invariant left == if stop then [] else Meaning(s[src..])
      invariant all == buffer[offset..dst] + left
      invariant forall k :: 0 <= k < buffer.Length && !(offset <= k < dst) ==> buffer[k] == old(buffer[k])
      decreases !stop, |s| - src
    {
      ghost var done, dst0 := buffer[offset..dst], dst;
      src, dst, stop := DecodeGroup(buffer, s, src, dst);
      left := if stop then [] else Meaning(s[src..]);
      Assoc(done, buffer[dst0..dst], left);
      assert buffer[offset..dst0] == done;
      assert buffer[offset..dst] == done + buffer[dst0..dst];
    }
    MeaningNothing();
    assert stop || s[src..] == [];
    assert left == [] && all == buffer[offset..dst];
    n := dst - offset;
  }

  lemma MeaningNothing()
    ensures Meaning([]) == []
  {
  }
}
