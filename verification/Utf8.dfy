/**
 * lib/string_decoder.js, `StringDecoder.write` for utf8: bytes arrive in arbitrary pieces, a character cut in
 * two is held back in `charBuffer`. The byte runs that the code hands to `toString` are modelled; decoding them
 * is section 3 of RFC 3629.
 */
module Utf8 {

  import opened Common

  type Bytes = seq<Byte>

  // ------------------------------------------------------------------ UTF-8

  /** The length announced by a lead byte; 0 for a byte that cannot lead. */
  function LeadLength(b: Byte): (n: nat)
    ensures n <= 4
  {
    if b < 0x80 then 1 else if b / 32 == 6 then 2 else if b / 16 == 14 then 3 else if b / 8 == 30 then 4 else 0
  }

  predicate Continues(b: Byte) {
    b / 64 == 2
  }

  /** Whole characters, the last of which may be cut short. */
  predicate WellFormed(s: Bytes)
    decreases |s|
  {
    s == [] ||
    var n := LeadLength(s[0]);
    && n >= 1
    && (forall i :: 1 <= i < n && i < |s| ==> Continues(s[i]))
    && (|s| >= n ==> WellFormed(s[n..]))
  }

  /** How many bytes belong to whole characters. */
  function Whole(s: Bytes): (k: nat)
    ensures k <= |s|
    decreases |s|
  {
    if s == [] then 0
    else var n := LeadLength(s[0]); if n == 0 || n > |s| then 0 else n + Whole(s[n..])
  }

  function CutOff(s: Bytes): Bytes {
    s[Whole(s)..]
  }

  /** Section 3 of RFC 3629: the scalar value of one character. */
  function Scalar(c: Bytes): int
    requires c != [] && |c| == LeadLength(c[0])
  {
    var low := (i: int) requires 0 <= i < |c| => c[i] as int % 64;
    match |c|
    case 1 => c[0] as int
    case 2 => (c[0] as int % 32) * 64 + low(1)
    case 3 => (c[0] as int % 16) * 4096 + low(1) * 64 + low(2)
    case _ => (c[0] as int % 8) * 262144 + low(1) * 4096 + low(2) * 64 + low(3)
  }

  function Decode(s: Bytes): seq<int>
    decreases |s|
  {
    if s == [] then []
    else var n := LeadLength(s[0]); if n == 0 || n > |s| then [] else [Scalar(s[..n])] + Decode(s[n..])
  }

  function Flat(chunks: seq<Bytes>): Bytes {
    if chunks == [] then [] else Flat(chunks[..|chunks| - 1]) + chunks[|chunks| - 1]
  }

  // ------------------------------------------------------------------ the backward scan

  /** The tests at lines 78-93 on the byte that is `i` from the end: the length it announces, if it is cut off. */
  function Announces(i: nat, c: Byte): nat {
    if i == 1 && c / 32 == 6 then 2
    else if i <= 2 && c / 16 == 14 then 3
    else if i <= 3 && c / 8 == 30 then 4
    else 0
  }

  /** The loop at line 72: from `i` bytes before the end downwards. */
  function Scan(s: Bytes, i: nat): (r: (nat, nat))
    requires i <= |s| && i <= 3
    ensures (r.0 == r.1 == 0) || (1 <= r.0 <= i && r.0 < r.1 <= 4)
  {
    if i == 0 then (0, 0)
    else var n := Announces(i, s[|s| - i]); if n != 0 then (i, n) else Scan(s, i - 1)
  }

  function Window(s: Bytes): nat {
    if |s| >= 3 then 3 else |s|
  }

  lemma {:induction false} ScanSuffix(a: Bytes, s: Bytes, i: nat)
    requires i <= |s| && i <= 3
    ensures Scan(a + s, i) == Scan(s, i)
  {
    if i == 0 {
    } else {
      assert (a + s)[|a + s| - i] == s[|s| - i];
      ScanSuffix(a, s, i - 1);
    }
  }

  /** The byte `m` from the end announces no character that is cut off. */
  predicate Passes(s: Bytes, m: nat)
    requires 1 <= m <= |s|
  {
    Announces(m, s[|s| - m]) == 0
  }

  lemma {:induction false} ScanPasses(s: Bytes, i: nat, j: nat)
    requires j <= i <= |s| && i <= 3
    requires forall m :: j < m <= i ==> Passes(s, m)
    ensures Scan(s, i) == Scan(s, j)
  {
    if j < i {
      assert Passes(s, i);
      ScanPasses(s, i - 1, j);
    }
  }

  lemma FirstCharPasses(s: Bytes, m: nat)
    requires WellFormed(s) && s != [] && 1 <= LeadLength(s[0]) <= |s| && |s| - LeadLength(s[0]) < m <= |s| && m <= 3
    ensures Passes(s, m)
  {
    assert |s| - m > 0 ==> Continues(s[|s| - m]);
  }

  /** On well-formed bytes the scan finds exactly the character that is cut off, if there is one. */
  lemma {:induction false} ScanFinds(s: Bytes)
    requires WellFormed(s)
    ensures Scan(s, Window(s)) == if CutOff(s) == [] then (0, 0) else (|CutOff(s)|, LeadLength(CutOff(s)[0]))
    decreases |s|
  {
    hide Announces, Continues, Passes;
    if s == [] {
    } else {
      var n := LeadLength(s[0]);
      if n <= |s| {
        var t := s[n..];
        assert s == s[..n] + t && CutOff(s) == CutOff(t);
        ScanFinds(t);
        var w := Window(t);
        ScanSuffix(s[..n], t, w);
        forall m | w < m <= Window(s) ensures Passes(s, m) {
          FirstCharPasses(s, m);
        }
        ScanPasses(s, Window(s), w);
      } else {
        assert CutOff(s) == s;
        FirstCharCut(s);
      }
    }
  }

  lemma FirstCharCut(s: Bytes)
    requires s != [] && |s| < LeadLength(s[0])
    ensures Scan(s, Window(s)) == (|s|, LeadLength(s[0]))
  {
  }

  // ------------------------------------------------------------------ cutting well-formed streams

  lemma {:induction false} WellFormedPrefix(a: Bytes, b: Bytes)
    requires WellFormed(a + b)
    ensures WellFormed(a) && WellFormed(CutOff(a) + b)
    ensures Whole(a + b) == Whole(a) + Whole(CutOff(a) + b)
    decreases |a|
  {
    if a == [] {
      assert a + b == b && CutOff(a) + b == b;
    } else {
      var n := LeadLength(a[0]);
      assert (a + b)[0] == a[0];
      assert forall i :: 1 <= i < n && i < |a| ==> a[i] == (a + b)[i];
      if n <= |a| {
        assert (a + b)[n..] == a[n..] + b;
        WellFormedPrefix(a[n..], b);
        assert CutOff(a) == CutOff(a[n..]);
      } else {
        assert CutOff(a) == a;
      }
    }
  }

  lemma CutOffExtends(a: Bytes, b: Bytes)
    requires WellFormed(a + b)
    ensures CutOff(a + b) == CutOff(CutOff(a) + b)
    ensures (a + b)[..Whole(a + b)] == a[..Whole(a)] + (CutOff(a) + b)[..Whole(CutOff(a) + b)]
  {
    hide Whole, WellFormed;
    WellFormedPrefix(a, b);
    var whole, rest := a[..Whole(a)], CutOff(a) + b;
    assert a + b == whole + rest;
    Slices(whole, rest, Whole(rest));
  }

  lemma Slices(p: Bytes, x: Bytes, k: nat)
    requires k <= |x|
    ensures (p + x)[|p| + k..] == x[k..] && (p + x)[..|p| + k] == p + x[..k]
  {
  }

  lemma {:induction false} DecodeAppend(a: Bytes, b: Bytes)
    requires Whole(a) == |a|
    ensures Decode(a + b) == Decode(a) + Decode(b)
    decreases |a|
  {
    if a == [] {
      assert a + b == b;
    } else {
      var n := LeadLength(a[0]);
      assert (a + b)[0] == a[0] && (a + b)[..n] == a[..n] && (a + b)[n..] == a[n..] + b;
      DecodeAppend(a[n..], b);
    }
  }

  /** What is cut off is less than one character. */
  lemma {:induction false} CutOffShort(s: Bytes)
    requires WellFormed(s)
    ensures var c := CutOff(s); c == [] || (WellFormed(c) && |c| < LeadLength(c[0]))
    ensures Whole(s[..Whole(s)]) == Whole(s) && WellFormed(s[..Whole(s)])
    decreases |s|
  {
    if s == [] {
    } else {
      var n := LeadLength(s[0]);
      if n <= |s| {
        var t := s[n..];
        CutOffShort(t);
        assert CutOff(s) == CutOff(t);
        var w := s[..Whole(s)];
        assert w[n..] == t[..Whole(t)];
      } else {
        assert CutOff(s) == s && s[..Whole(s)] == [];
      }
    }
  }

  // ------------------------------------------------------------------ StringDecoder.write

  /** Bytes held back, and the length of the character they begin. */
  datatype Held = Held(pending: Bytes, length: nat)

  const NOTHING := Held([], 0)

  ghost predicate HeldOk(h: Held) {
    h == NOTHING || |h.pending| < h.length <= 4
  }

  /** Lines 67-111, for a buffer that starts at a character boundary: what is held back, what is emitted. */
  function Ending(buffer: Bytes): (Held, Bytes) {
    var (i, n) := Scan(buffer, Window(buffer));
    if n == 0 then (NOTHING, buffer) else (Held(buffer[|buffer| - i..], n), buffer[..|buffer| - i])
  }

  /** What `write` holds back, and the two byte runs it turns into text: the completed character and the rest. */
  datatype Outcome = Outcome(held: Held, charStr: Bytes, body: Bytes)

  function Written(h: Held, buffer: Bytes): Outcome {
    if h.length == 0 then var (h', body) := Ending(buffer); Outcome(h', [], body)
    else
      var missing := if |h.pending| < h.length then h.length - |h.pending| else 0;
      if |buffer| < missing then Outcome(Held(h.pending + buffer, h.length), [], [])
      else if |buffer| == missing then Outcome(NOTHING, h.pending + buffer, [])
      else
        var (h', body) := Ending(buffer[missing..]);
        Outcome(h', h.pending + buffer[..missing], body)
  }

  class StringDecoder {
    const charBuffer: array<Byte>
    var charReceived: nat
    var charLength: nat

    ghost predicate Valid()
      reads this
    {
      charBuffer.Length == 4 && (charReceived == charLength == 0 || charReceived < charLength <= 4)
    }

    ghost function Abs(): Held
      requires Valid()
      reads this, charBuffer
    {
      Held(charBuffer[..charReceived], charLength)
    }

    constructor ()
      ensures Valid() && fresh(charBuffer) && Abs() == NOTHING
    {
      charBuffer := new Byte[4](_ => 0);
      charReceived, charLength := 0, 0;
    }

    /** `buffer.copy(this.charBuffer, at, 0, n)`. */
    method Copy(buffer: Bytes, at: nat, n: nat)
      requires n <= |buffer| && at + n <= charBuffer.Length
      modifies charBuffer
      ensures charBuffer[..at] == old(charBuffer[..at]) && charBuffer[at..at + n] == buffer[..n]
    {
      for k := 0 to n
        invariant charBuffer[..at] == old(charBuffer[..at])
        invariant forall j :: 0 <= j < k ==> charBuffer[at + j] == buffer[j]
      {
        charBuffer[at + k] := buffer[k];
      }
    }

    method Write(input: Bytes) returns (charStr: Bytes, body: Bytes)
      requires Valid()
      modifies this, charBuffer
      ensures Valid() && Outcome(Abs(), charStr, body) == Written(old(Abs()), input)
    {
      var buffer := input;
      charStr, body := [], [];
      if charLength > 0 {
        var i := if |buffer| >= charLength - charReceived then charLength - charReceived else |buffer|;
        Copy(buffer, charReceived, i);
        assert charBuffer[..charReceived + i]
            == charBuffer[..charReceived] + charBuffer[charReceived..charReceived + i];
        charReceived := charReceived + i;
        assert buffer[..|buffer|] == buffer;
        if charReceived < charLength { return; }
        charStr := charBuffer[..charLength];
        charReceived, charLength := 0, 0;
        if i == |buffer| { return; }
        buffer := buffer[i..];
      }
      body := WriteEnding(buffer);
    }

    /** The loop at line 72: sets `charLength` if a character is cut off `i` bytes before the end. */
    method FindCut(buffer: Bytes) returns (i: nat)
      requires Valid() && charLength == 0
      modifies this`charLength
      ensures (i, charLength) == Scan(buffer, Window(buffer))
    {
      i := if |buffer| >= 3 then 3 else |buffer|;
      while i > 0
        invariant i <= 3 && i <= |buffer| && charLength == 0
        invariant Scan(buffer, Window(buffer)) == Scan(buffer, i)
      {
        var c := buffer[|buffer| - i];
        if i == 1 && c / 32 == 6 {
          charLength := 2;
          break;
        }
        if i <= 2 && c / 16 == 14 {
          charLength := 3;
          break;
        }
        if i <= 3 && c / 8 == 30 {
          charLength := 4;
          break;
        }
        i := i - 1;
      }
    }

    /** Lines 67-111. */
    method WriteEnding(buffer: Bytes) returns (body: Bytes)
      requires Valid() && charLength == 0
      modifies this, charBuffer
      ensures Valid() && (Abs(), body) == Ending(buffer)
    {
      var i := FindCut(buffer);
      if charLength == 0 {
        return buffer;
      }
      var tail := buffer[|buffer| - i..];
      Copy(tail, 0, i);
      charReceived := i;
      assert charBuffer[..i] == charBuffer[0..i] && tail[..i] == tail;
      body := if |buffer| - i > 0 then buffer[..|buffer| - i] else [];
    }
  }

  // ------------------------------------------------------------------ what write does to a stream

  /** For arbitrary bytes: nothing is lost, invented or reordered, and fewer bytes are held than announced. */
  lemma WriteConserves(h: Held, buffer: Bytes)
    requires HeldOk(h)
    ensures var w := Written(h, buffer); HeldOk(w.held) && w.charStr + w.body + w.held.pending == h.pending + buffer
  {
    hide Ending;
    var missing := h.length - |h.pending|;
    if h.length == 0 {
      EndingConserves(buffer);
      assert h.pending + buffer == buffer;
    } else if |buffer| > missing {
      var (h', body) := Ending(buffer[missing..]);
      EndingConserves(buffer[missing..]);
      Regroup(h.pending, buffer[..missing], body, h'.pending);
      assert buffer[..missing] + buffer[missing..] == buffer;
    }
  }

  lemma Regroup(a: Bytes, b: Bytes, c: Bytes, d: Bytes)
    ensures ((a + b) + c) + d == a + (b + (c + d))
  {
  }

  lemma EndingConserves(buffer: Bytes)
    ensures var (h, body) := Ending(buffer); HeldOk(h) && body + h.pending == buffer
  {
    var (i, n) := Scan(buffer, Window(buffer));
    assert buffer[..|buffer| - i] + buffer[|buffer| - i..] == buffer;
  }

  /** What must be held back after the bytes `t`. */
  function HeldAfter(t: Bytes): Held {
    var c := CutOff(t);
    if c == [] then NOTHING else Held(c, LeadLength(c[0]))
  }

  lemma EndingDecodes(buffer: Bytes)
    requires WellFormed(buffer)
    ensures Ending(buffer) == (HeldAfter(buffer), buffer[..Whole(buffer)])
  {
    hide WellFormed, Whole, Scan, LeadLength;
    ScanFinds(buffer);
    var k := Whole(buffer);
    assert |CutOff(buffer)| == |buffer| - k;
    assert CutOff(buffer) == [] ==> buffer[..k] == buffer;
  }

  /** A held-back character and the bytes that go on: still short, or one whole character and a boundary. */
  lemma HeldCharacter(c: Bytes, buffer: Bytes)
    requires c != [] && |c| < LeadLength(c[0]) && WellFormed(c + buffer)
    ensures var s := c + buffer; var missing := LeadLength(c[0]) - |c|;
            if |buffer| < missing then Whole(s) == 0
            else
              && s == (c + buffer[..missing]) + buffer[missing..]
              && Whole(c + buffer[..missing]) == |c| + missing
              && WellFormed(buffer[missing..]) && Whole(s) == |c| + missing + Whole(buffer[missing..])
  {
    var n := LeadLength(c[0]);
    var s := c + buffer;
    assert s[0] == c[0];
    if |buffer| >= n - |c| {
      var first := c + buffer[..n - |c|];
      assert s[n..] == buffer[n - |c|..];
      assert first[0] == c[0] && |first| == n && first[n..] == [];
    }
  }

  lemma ResumeDecodes(c: Bytes, buffer: Bytes)
    requires c == [] || |c| < LeadLength(c[0])
    requires WellFormed(c + buffer)
    ensures var s := c + buffer; var w := Written(if c == [] then NOTHING else Held(c, LeadLength(c[0])), buffer);
            && w.held == HeldAfter(s)
            && w.charStr + w.body == s[..Whole(s)]
            && Whole(w.charStr) == |w.charStr|
  {
    hide WellFormed, Whole, LeadLength, Ending;
    WholeEmpty();
    if c == [] {
      assert c + buffer == buffer;
      EndingDecodes(buffer);
    } else if |buffer| < LeadLength(c[0]) - |c| {
      HeldCharacter(c, buffer);
      assert (c + buffer)[0] == c[0];
    } else {
      CompletesCharacter(c, buffer);
    }
  }

  lemma CompletesCharacter(c: Bytes, buffer: Bytes)
    requires c != [] && |c| < LeadLength(c[0]) <= |c| + |buffer| && WellFormed(c + buffer)
    ensures var s := c + buffer; var w := Written(Held(c, LeadLength(c[0])), buffer);
            && w.held == HeldAfter(s)
            && w.charStr + w.body == s[..Whole(s)]
            && Whole(w.charStr) == |w.charStr|
  {
    hide WellFormed, Whole, LeadLength, Ending;
    HeldCharacter(c, buffer);
    var missing := LeadLength(c[0]) - |c|;
    var first, rest := c + buffer[..missing], buffer[missing..];
    Slices(first, rest, Whole(rest));
    EndingDecodes(rest);
    if |buffer| == missing {
      WholeEmpty();
      assert rest == [] && buffer[..missing] == buffer;
    }
  }

  lemma WholeEmpty()
    ensures Whole([]) == 0
  {
  }

  /**
   * Wherever a well-formed stream is cut, writing the next piece holds back exactly what is cut off then, and
   * the text produced is the decoding of the characters completed by that piece.
   */
  lemma WriteDecodes(t: Bytes, buffer: Bytes)
    requires WellFormed(t + buffer)
    ensures var w := Written(HeldAfter(t), buffer);
            && w.held == HeldAfter(t + buffer)
            && Decode((t + buffer)[..Whole(t + buffer)]) == Decode(t[..Whole(t)]) + (Decode(w.charStr) + Decode(w.body))
  {
    hide WellFormed, Whole, LeadLength, Decode, Written;
    var s := CutOff(t) + buffer;
    WellFormedPrefix(t, buffer);
    CutOffExtends(t, buffer);
    CutOffShort(t);
    ResumeDecodes(CutOff(t), buffer);
    var w := Written(HeldAfter(t), buffer);
    DecodeAppend(t[..Whole(t)], s[..Whole(s)]);
    DecodeAppend(w.charStr, w.body);
  }

  /**
   * Any stream in any chunks, one `write` each, from a fresh decoder. For arbitrary bytes, what was emitted and
   * what is held back is the stream; for well-formed ones, the text is the decoding of its whole characters.
   */
  method WriteAll(chunks: seq<Bytes>) returns (d: StringDecoder, emitted: Bytes, text: seq<int>)
    ensures d.Valid() && HeldOk(d.Abs()) && emitted + d.Abs().pending == Flat(chunks)
    ensures var s := Flat(chunks); WellFormed(s) ==> d.Abs() == HeldAfter(s) && text == Decode(s[..Whole(s)])
  {
    hide Decode, Whole, WellFormed, Written, HeldAfter;
    d := new StringDecoder();
    emitted, text := [], [];
    ghost var fed: Bytes := [];
    StartEmpty();
    for i := 0 to |chunks|
      invariant d.Valid() && fresh(d) && fresh(d.charBuffer)
      invariant fed == Flat(chunks[..i]) && HeldOk(d.Abs()) && emitted + d.Abs().pending == fed
      invariant WellFormed(Flat(chunks)) ==> d.Abs() == HeldAfter(fed) && text == Decode(fed[..Whole(fed)])
    {
      assert chunks[..i + 1][..i] == chunks[..i];
      if WellFormed(Flat(chunks)) {
        FlatPrefix(chunks, i + 1);
        WriteDecodes(fed, chunks[i]);
      }
      WriteConserves(d.Abs(), chunks[i]);
      ghost var pending := d.Abs().pending;
      var charStr, body := d.Write(chunks[i]);
      Joined(emitted, pending, chunks[i], charStr + body, d.Abs().pending);
      fed := fed + chunks[i];
      emitted := emitted + (charStr + body);
      text := text + (Decode(charStr) + Decode(body));
    }
    assert chunks[..|chunks|] == chunks;
  }

  lemma Joined(emitted: Bytes, pending: Bytes, chunk: Bytes, now: Bytes, held: Bytes)
    requires now + held == pending + chunk
    ensures (emitted + now) + held == (emitted + pending) + chunk
  {
    Assoc(emitted, now, held);
    Assoc(emitted, pending, chunk);
  }

  lemma StartEmpty()
    ensures HeldAfter([]) == NOTHING && Decode([][..Whole([])]) == []
  {
  }

  lemma {:induction false} FlatPrefix(chunks: seq<Bytes>, i: nat)
    requires i <= |chunks| && WellFormed(Flat(chunks))
    ensures WellFormed(Flat(chunks[..i]))
    decreases |chunks|
  {
    hide WellFormed;
    if i == |chunks| {
      assert chunks[..i] == chunks;
    } else {
      var init := chunks[..|chunks| - 1];
      WellFormedPrefix(Flat(init), chunks[|chunks| - 1]);
      FlatPrefix(init, i);
      assert init[..i] == chunks[..i];
    }
  }
}
