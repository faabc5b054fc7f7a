/**
 * lib/_debugger.js `Protocol`: the incremental reader of length-framed messages. JSON is opaque: a response is
 * recorded by its body text.
 */
module Debugger {

  import opened Common

  const EMPTY_LINE := "\r\n\r\n"

  // ------------------------------------------------------------------ text

  /** `s.indexOf(pat, from)`. */
  function Find(s: string, pat: string, from: nat): (i: int)
    ensures -1 <= i
    ensures i >= 0 ==> from <= i && i + |pat| <= |s| && s[i..i + |pat|] == pat
    decreases |s| - from
  {
    if from + |pat| > |s| then -1
    else if s[from..from + |pat|] == pat then from
    else if from == |s| then -1
    else Find(s, pat, from + 1)
  }

  /** `s.split('\r\n')`. */
  function Lines(s: string): seq<string>
    decreases |s|
  {
    var i := Find(s, "\r\n", 0);
    if i < 0 then [s] else [s[..i]] + Lines(s[i + 2..])
  }

  /** Where `/: +/` first matches, or -1. */
  function FindColon(s: string, from: nat): (i: int)
    ensures -1 <= i && (i >= 0 ==> from <= i && i + 1 < |s|)
    decreases |s| - from
  {
    if from + 1 >= |s| then -1
    else if s[from] == ':' && s[from + 1] == ' ' then from
    else FindColon(s, from + 1)
  }

  function SkipSpaces(s: string): string {
    if s != "" && s[0] == ' ' then SkipSpaces(s[1..]) else s
  }

  /** The first two pieces of `line.split(/: +/)`; the second may be missing. */
  function KeyValue(line: string): (string, Option<string>) {
    var i := FindColon(line, 0);
    if i < 0 then (line, None)
    else
      var rest := SkipSpaces(line[i + 1..]);
      var j := FindColon(rest, 0);
      (line[..i], Some(if j < 0 then rest else rest[..j]))
  }

  function HeadersOf(lines: seq<string>): map<string, Option<string>> {
    if lines == [] then map[]
    else var kv := KeyValue(lines[|lines| - 1]); HeadersOf(lines[..|lines| - 1])[kv.0 := kv.1]
  }

  predicate Digits(s: string) {
    forall i :: 0 <= i < |s| ==> '0' <= s[i] <= '9'
  }

  function DecimalValue(s: string): nat
    requires Digits(s)
  {
    if s == "" then 0
    else DecimalValue(s[..|s| - 1]) * 10 + (s[|s| - 1] as int - '0' as int)
  }

  /** The unary plus on header text; `None` is NaN. */
  function ToNumber(s: string): Option<nat> {
    if Digits(s) then Some(DecimalValue(s)) else None
  }

  function LengthHeader(headers: map<string, Option<string>>): Option<nat> {
    if "Content-Length" in headers && headers["Content-Length"].Some?
    then ToNumber(headers["Content-Length"].value) else None
  }

  function ContentLength(head: string): Option<nat> {
    LengthHeader(HeadersOf(Lines(head)))
  }

  // ------------------------------------------------------------------ the meaning of a text

  /** The bodies of the complete messages in a text, and what is left after them. */
  datatype Reading = Reading(bodies: seq<string>, rest: string)

  /** Where the first message ends, if it is complete; a missing length never completes. */
  function FirstEnd(text: string): (end: Option<nat>)
    ensures end.Some? ==> 0 < end.value <= |text|
  {
    var e := Find(text, EMPTY_LINE, 0);
    if e < 0 then None
    else match ContentLength(text[..e])
      case None => None
      case Some(n) => if |text| - (e + 4) < n then None else Some(e + 4 + n)
  }

  function FirstBody(text: string): string
    requires FirstEnd(text).Some?
  {
    text[Find(text, EMPTY_LINE, 0) + 4..FirstEnd(text).value]
  }

  function Read(text: string): Reading
    decreases |text|
  {
    var end := FirstEnd(text);
    if end.None? then Reading([], text)
    else var r := Read(text[end.value..]); Reading([FirstBody(text)] + r.bodies, r.rest)
  }

  lemma {:induction false} FindExtends(s: string, d: string, pat: string, from: nat)
    requires Find(s, pat, from) >= 0
    ensures Find(s + d, pat, from) == Find(s, pat, from)
    decreases |s| - from
  {
    assert (s + d)[from..from + |pat|] == s[from..from + |pat|];
    if s[from..from + |pat|] != pat {
      FindExtends(s, d, pat, from + 1);
    }
  }

  lemma FirstExtends(a: string, d: string)
    requires FirstEnd(a).Some?
    ensures FirstEnd(a + d) == FirstEnd(a) && FirstBody(a + d) == FirstBody(a)
    ensures (a + d)[FirstEnd(a).value..] == a[FirstEnd(a).value..] + d
  {
    hide ContentLength, Find;
    var e := Find(a, EMPTY_LINE, 0);
    FindExtends(a, d, EMPTY_LINE, 0);
    assert (a + d)[..e] == a[..e];
  }

  /** Reading may stop anywhere and go on from what was left: nothing depends on the cut. */
  lemma {:induction false} ReadExtends(a: string, d: string)
    ensures var r := Read(a); var more := Read(r.rest + d); Read(a + d) == Reading(r.bodies + more.bodies, more.rest)
    decreases |a|
  {
    hide FirstEnd, FirstBody;
    var end := FirstEnd(a);
    if end.None? {
      assert [] + Read(a + d).bodies == Read(a + d).bodies;
    } else {
      FirstExtends(a, d);
      ReadExtends(a[end.value..], d);
      var r := Read(a[end.value..]);
      var more := Read(r.rest + d);
      assert [FirstBody(a)] + (r.bodies + more.bodies) == ([FirstBody(a)] + r.bodies) + more.bodies;
    }
  }

  lemma ReadIncomplete(text: string)
    requires FirstEnd(text).None?
    ensures Read(text) == Reading([], text)
  {
  }

  // ------------------------------------------------------------------ the code

  datatype ParseState = Headers | Body

  class Protocol {
    var raw: string
    var headers: map<string, Option<string>>
    var state: ParseState
    var contentLength: Option<nat>
    var bodyStartIndex: nat
    ghost var responses: seq<string>

    /** Between calls the text kept holds no complete message, and the fields agree with it. */
    ghost predicate Valid()
      reads this
    {
      var e := Find(raw, EMPTY_LINE, 0);
      && FirstEnd(raw).None?
      && (state.Headers? ==> e < 0)
      && (state.Body? ==> e >= 0 && bodyStartIndex == e + 4 && contentLength == ContentLength(raw[..e]))
    }

    constructor ()
      ensures Valid() && raw == "" && responses == []
    {
      raw, headers, state, contentLength, bodyStartIndex := "", map[], Headers, None, 0;
      responses := [];
    }

    /** `_newRes`. */
    method NewRes(text: string)
      modifies this
      ensures Valid()
      ensures responses == old(responses) + Read(text).bodies && raw == Read(text).rest
      decreases |text|, 1
    {
      raw, headers, state := text, map[], Headers;
      assert text + "" == text;
      Execute("");
    }

    /** `execute`: appends, parses headers once they are complete, and delivers a complete body. */
    method Execute(d: string)
      requires state.Body? ==> Valid()
      modifies this
      ensures Valid()
      ensures var r := Read(old(raw) + d); responses == old(responses) + r.bodies && raw == r.rest
      decreases |raw + d|, 0
    {
      hide ContentLength, Find;
      ghost var was := raw;
      raw := raw + d;
      if state.Body? {
        FindExtends(was, d, EMPTY_LINE, 0);
        assert raw[..bodyStartIndex - 4] == was[..bodyStartIndex - 4];
      } else {
        var endHeaderIndex := Find(raw, EMPTY_LINE, 0);
        if endHeaderIndex < 0 { return; }
        ParseHeaders(endHeaderIndex);
        state := Body;
      }
      if contentLength.Some? && |raw| - bodyStartIndex >= contentLength.value {
        var end := bodyStartIndex + contentLength.value;
        var body := raw[bodyStartIndex..end];
        responses := responses + [body];
        assert FirstEnd(raw) == Some(end) && FirstBody(raw) == body;
        NewRes(raw[end..]);
      }
    }

    /** Lines 94-101. */
    method ParseHeaders(endHeaderIndex: nat)
      requires endHeaderIndex <= |raw|
      modifies this`headers, this`contentLength, this`bodyStartIndex
      ensures contentLength == ContentLength(raw[..endHeaderIndex]) && bodyStartIndex == endHeaderIndex + 4
    {
      hide Lines, KeyValue, LengthHeader;
      var lines := Lines(raw[..endHeaderIndex]);
      headers := map[];
      for i := 0 to |lines|
        invariant headers == HeadersOf(lines[..i])
      {
        var kv := KeyValue(lines[i]);
        headers := headers[kv.0 := kv.1];
        assert lines[..i + 1][..i] == lines[..i];
      }
      assert lines[..|lines|] == lines;
      contentLength := LengthHeader(headers);
      bodyStartIndex := endHeaderIndex + 4;
    }

    /** Any sequence of chunks, one `execute` each. */
    method ExecuteAll(chunks: seq<string>)
      requires Valid()
      modifies this
      ensures Valid()
      ensures var r := Read(old(raw) + Concat(chunks)); responses == old(responses) + r.bodies && raw == r.rest
    {
      hide Read, FirstEnd, ContentLength, Find;
      ghost var fed := raw;
      ReadIncomplete(raw);
      assert old(raw) + Concat([]) == old(raw);
      for i := 0 to |chunks|
        invariant Valid()
        invariant fed == old(raw) + Concat(chunks[..i])
        invariant responses == old(responses) + Read(fed).bodies && raw == Read(fed).rest
      {
        ReadExtends(fed, chunks[i]);
        Execute(chunks[i]);
        assert fed + chunks[i] == old(raw) + Concat(chunks[..i + 1]) by {
          assert chunks[..i + 1][..i] == chunks[..i];
        }
        fed := fed + chunks[i];
      }
      assert chunks[..|chunks|] == chunks;
    }
  }

  function Concat(chunks: seq<string>): string {
    if chunks == [] then "" else Concat(chunks[..|chunks| - 1]) + chunks[|chunks| - 1]
  }

  // ------------------------------------------------------------------ framed messages

  /** `n.toString()`. */
  function Decimal(n: nat): string {
    if n < 10 then [('0' as int + n) as char] else Decimal(n / 10) + [('0' as int + n % 10) as char]
  }

  /** A message: a body, and the header lines around the one with its length. */
  datatype Message = Message(before: seq<string>, after: seq<string>, body: string)

  /** The lines are lines, and none of the later ones is another length. */
  predicate MessageOk(m: Message) {
    && (forall i :: 0 <= i < |m.before| ==> CleanLine(m.before[i]))
    && (forall i :: 0 <= i < |m.after| ==> CleanLine(m.after[i]) && KeyValue(m.after[i]).0 != "Content-Length")
  }

  predicate CleanLine(line: string) {
    line != "" && '\r' !in line
  }

  function LengthLine(body: string): string {
    "Content-Length: " + Decimal(|body|)
  }

  function HeaderLines(m: Message): seq<string> {
    m.before + [LengthLine(m.body)] + m.after
  }

  function Join(lines: seq<string>): string {
    if lines == [] then "" else if |lines| == 1 then lines[0] else lines[0] + "\r\n" + Join(lines[1..])
  }

  function Header(m: Message): string {
    Join(HeaderLines(m))
  }

  /** The text of a message; `serialize` writes one with no other header line. */
  function Frame(m: Message): string {
    Header(m) + EMPTY_LINE + m.body
  }

  function Frames(messages: seq<Message>): string {
    if messages == [] then "" else Frame(messages[0]) + Frames(messages[1..])
  }

  function Bodies(messages: seq<Message>): seq<string> {
    if messages == [] then [] else [messages[0].body] + Bodies(messages[1..])
  }

  lemma {:induction false} DecimalDigits(n: nat)
    ensures Decimal(n) != "" && Digits(Decimal(n)) && DecimalValue(Decimal(n)) == n
  {
    var s := Decimal(n);
    if n >= 10 {
      DecimalDigits(n / 10);
      assert s[..|s| - 1] == Decimal(n / 10);
    } else {
      assert s[..0] == "";
    }
  }

  /** Nothing is found before position `n` if the pattern's first character does not occur there. */
  lemma {:induction false} FindSkips(s: string, pat: string, from: nat, n: nat)
    requires pat != "" && from <= n <= |s| && forall i :: from <= i < n ==> s[i] != pat[0]
    ensures Find(s, pat, from) == Find(s, pat, n)
    decreases n - from
  {
    if from < n {
      if from + |pat| <= |s| {
        assert s[from..from + |pat|][0] == s[from];
        FindSkips(s, pat, from + 1, n);
      } else {
        FindBeyond(s, pat, n);
      }
    }
  }

  lemma FindBeyond(s: string, pat: string, from: nat)
    requires from + |pat| > |s|
    ensures Find(s, pat, from) == -1
  {
  }

  predicate At(s: string, pat: string, i: nat) {
    i + |pat| <= |s| && s[i..i + |pat|] == pat
  }

  /** The first place where the pattern is. */
  lemma {:induction false} FindFirst(s: string, pat: string, from: nat, n: nat)
    requires from <= n && At(s, pat, n) && forall i :: from <= i < n ==> !At(s, pat, i)
    ensures Find(s, pat, from) == n
    decreases n - from
  {
    if from < n {
      assert !At(s, pat, from);
      FindFirst(s, pat, from + 1, n);
    }
  }

  lemma {:induction false} FindNone(s: string, pat: string, from: nat)
    requires from <= |s| && forall i :: from <= i <= |s| ==> !At(s, pat, i)
    ensures Find(s, pat, from) == -1
    decreases |s| - from
  {
    assert !At(s, pat, from);
    if from + |pat| <= |s| && from < |s| {
      FindNone(s, pat, from + 1);
    }
  }

  lemma NotAt(s: string, pat: string, i: nat, j: nat)
    requires j < |pat| && i + j < |s| && s[i + j] != pat[j]
    ensures !At(s, pat, i)
  {
    if i + |pat| <= |s| { assert s[i..i + |pat|][j] == s[i + j]; }
  }

  /** The same place in a longer text. */
  lemma AtLater(s: string, pat: string, k: nat, i: nat)
    requires k <= |s|
    ensures At(s[k..], pat, i) <==> At(s, pat, k + i)
  {
    if k + i + |pat| <= |s| { assert s[k..][i..i + |pat|] == s[k + i..k + i + |pat|]; }
  }

  lemma AtPrefix(s: string, pat: string, k: nat, i: nat)
    requires k <= |s|
    ensures At(s[..k], pat, i) <==> At(s, pat, i) && i + |pat| <= k
  {
    if i + |pat| <= k { assert s[..k][i..i + |pat|] == s[i..i + |pat|]; }
  }

  lemma OneLine(head: string)
    requires '\r' !in head
    ensures Lines(head) == [head]
  {
    FindSkips(head, "\r\n", 0, |head|);
    FindBeyond(head, "\r\n", |head|);
  }

  /** Lines that were joined are split again. */
  lemma {:induction false} LinesJoin(lines: seq<string>)
    requires lines != [] && forall i :: 0 <= i < |lines| ==> CleanLine(lines[i])
    ensures Lines(Join(lines)) == lines
  {
    hide Find;
    if |lines| == 1 {
      OneLine(lines[0]);
      assert lines == [lines[0]];
    } else {
      LinesJoin(lines[1..]);
      FirstLine(lines[0], Join(lines[1..]));
      assert lines == [lines[0]] + lines[1..];
    }
  }

  lemma FirstLine(line: string, rest: string)
    requires '\r' !in line
    ensures Lines(line + "\r\n" + rest) == [line] + Lines(rest)
  {
    hide Find;
    var s, n := line + "\r\n" + rest, |line|;
    forall i | 0 <= i < n
      ensures !At(s, "\r\n", i)
    {
      NotAt(s, "\r\n", i, 0);
    }
    assert s[n..n + 2] == "\r\n";
    FindFirst(s, "\r\n", 0, n);
    assert s[..n] == line && s[n + 2..] == rest;
  }

  /** No place inside the header looks like its end. */
  ghost predicate EndsAt(text: string, n: nat) {
    At(text, EMPTY_LINE, n) && forall i :: 0 <= i < n ==> !At(text, EMPTY_LINE, i)
  }

  lemma {:induction false} JoinEndsAt(lines: seq<string>, tail: string)
    requires lines != [] && forall i :: 0 <= i < |lines| ==> CleanLine(lines[i])
    ensures EndsAt(Join(lines) + EMPTY_LINE + tail, |Join(lines)|)
  {
    hide At;
    if |lines| == 1 {
      LastLine(lines[0], tail);
    } else {
      var rest := Join(lines[1..]);
      JoinEndsAt(lines[1..], tail);
      RestStarts(lines[1..]);
      LineBefore(lines[0], rest, tail);
    }
  }

  lemma InLine(line: string, rest: string)
    requires '\r' !in line
    ensures forall i :: 0 <= i < |line| ==> !At(line + rest, EMPTY_LINE, i)
  {
    forall i | 0 <= i < |line|
      ensures !At(line + rest, EMPTY_LINE, i)
    {
      NotAt(line + rest, EMPTY_LINE, i, 0);
    }
  }

  lemma LastLine(line: string, tail: string)
    requires '\r' !in line
    ensures EndsAt(line + EMPTY_LINE + tail, |line|)
  {
    var text := line + EMPTY_LINE + tail;
    assert text == line + (EMPTY_LINE + tail);
    InLine(line, EMPTY_LINE + tail);
    assert text[|line|..|line| + 4] == EMPTY_LINE;
  }

  lemma LineBefore(line: string, rest: string, tail: string)
    requires '\r' !in line && rest != "" && rest[0] != '\r' && EndsAt(rest + EMPTY_LINE + tail, |rest|)
    ensures var head := line + "\r\n" + rest; EndsAt(head + EMPTY_LINE + tail, |head|)
  {
    hide At;
    var n, more := |line|, rest + EMPTY_LINE + tail;
    var text := (line + "\r\n" + rest) + EMPTY_LINE + tail;
    assert text == line + ("\r\n" + more) && text[n + 2..] == more;
    InLine(line, "\r\n" + more);
    assert text[n + 1] == '\n' && text[n + 2] == rest[0];
    NotAt(text, EMPTY_LINE, n, 2);
    NotAt(text, EMPTY_LINE, n + 1, 0);
    forall i | n + 2 <= i <= n + 2 + |rest|
      ensures At(text, EMPTY_LINE, i) <==> i == n + 2 + |rest|
    {
      AtLater(text, EMPTY_LINE, n + 2, i - n - 2);
    }
  }

  lemma RestStarts(lines: seq<string>)
    requires lines != [] && CleanLine(lines[0])
    ensures Join(lines) != "" && Join(lines)[0] != '\r'
  {
  }

  lemma {:induction false} FindColonSkips(s: string, from: nat, n: nat)
    requires from <= n < |s| && forall i :: from <= i < n ==> s[i] != ':'
    ensures FindColon(s, from) == FindColon(s, n)
    decreases n - from
  {
    if from < n {
      FindColonSkips(s, from + 1, n);
    }
  }

  lemma ColonAt(s: string, n: nat)
    requires n + 1 < |s| && s[n] == ':' && s[n + 1] == ' ' && forall i :: 0 <= i < n ==> s[i] != ':'
    ensures FindColon(s, 0) == n
  {
    FindColonSkips(s, 0, n);
  }

  lemma {:induction false} NoColon(s: string, from: nat)
    requires ':' !in s
    ensures FindColon(s, from) == -1
    decreases |s| - from
  {
    if from + 1 < |s| {
      assert s[from] in s;
      NoColon(s, from + 1);
    }
  }

  lemma HeaderPieces(digits: string)
    requires digits != "" && Digits(digits)
    ensures KeyValue("Content-Length: " + digits) == ("Content-Length", Some(digits))
  {
    hide FindColon, SkipSpaces;
    var line := "Content-Length: " + digits;
    ColonAt(line, 14);
    assert line[15..] == " " + digits && line[..14] == "Content-Length";
    SkipOne(digits);
    NoColon(digits, 0);
  }

  lemma SkipOne(s: string)
    requires s != "" && s[0] != ' '
    ensures SkipSpaces(" " + s) == s
  {
    assert (" " + s)[1..] == s;
  }

  lemma NoReturn(digits: string)
    requires Digits(digits)
    ensures '\r' !in "Content-Length: " + digits
  {
    var line := "Content-Length: " + digits;
    assert forall i :: 16 <= i < |line| ==> line[i] == digits[i - 16];
  }

  lemma LengthLineReads(body: string)
    ensures CleanLine(LengthLine(body))
    ensures exists digits ::
              KeyValue(LengthLine(body)) == ("Content-Length", Some(digits)) && ToNumber(digits) == Some(|body|)
  {
    hide KeyValue, Decimal, DecimalValue;
    var digits := Decimal(|body|);
    DecimalDigits(|body|);
    NoReturn(digits);
    HeaderPieces(digits);
    assert ToNumber(digits) == Some(|body|);
  }

  lemma {:induction false} HeaderAmong(before: seq<string>, line: string, after: seq<string>, key: string)
    requires KeyValue(line).0 == key && forall i :: 0 <= i < |after| ==> KeyValue(after[i]).0 != key
    ensures var headers := HeadersOf(before + [line] + after); key in headers && headers[key] == KeyValue(line).1
    decreases |after|
  {
    hide KeyValue;
    var lines := before + [line] + after;
    var n := |lines| - 1;
    if after == [] {
      assert lines[n] == line;
    } else {
      var less := after[..|after| - 1];
      assert lines[n] == after[|after| - 1] && lines[..n] == before + [line] + less;
      HeaderAmong(before, line, less, key);
    }
  }

  lemma HeaderClean(m: Message)
    requires MessageOk(m)
    ensures forall i :: 0 <= i < |HeaderLines(m)| ==> CleanLine(HeaderLines(m)[i])
  {
    hide KeyValue;
    LengthLineReads(m.body);
  }

  /** The length is read back wherever its line stands in the header. */
  lemma HeaderLength(m: Message)
    requires MessageOk(m)
    ensures ContentLength(Header(m)) == Some(|m.body|)
  {
    hide Lines, KeyValue, HeadersOf, Join, LengthLine, ToNumber;
    HeaderClean(m);
    LinesJoin(HeaderLines(m));
    LengthLineReads(m.body);
    HeaderAmong(m.before, LengthLine(m.body), m.after, "Content-Length");
  }

  lemma HeaderEnds(m: Message, tail: string)
    requires MessageOk(m)
    ensures EndsAt(Header(m) + EMPTY_LINE + tail, |Header(m)|)
  {
    hide EndsAt, Join, LengthLine, KeyValue;
    HeaderClean(m);
    JoinEndsAt(HeaderLines(m), tail);
  }

  /** A frame followed by anything: its end and its body. */
  lemma FrameFirst(m: Message, rest: string)
    requires MessageOk(m)
    ensures FirstEnd(Frame(m) + rest) == Some(|Frame(m)|)
    ensures FirstBody(Frame(m) + rest) == m.body
    ensures (Frame(m) + rest)[|Frame(m)|..] == rest
  {
    hide ContentLength, Find, Header, MessageOk, At;
    var text := Frame(m) + rest;
    var n := |Header(m)|;
    HeaderLength(m);
    HeaderEnds(m, m.body + rest);
    assert text == Header(m) + EMPTY_LINE + (m.body + rest);
    FindFirst(text, EMPTY_LINE, 0, n);
    assert text[..n] == Header(m);
    assert text[n + 4..n + 4 + |m.body|] == m.body;
  }

  /** A frame that is not all there is not a message yet, wherever it is cut. */
  lemma FrameCut(m: Message, k: nat)
    requires MessageOk(m) && k < |Frame(m)|
    ensures FirstEnd(Frame(m)[..k]).None?
  {
    hide ContentLength, Header, MessageOk, Find, At;
    var whole, text := Frame(m), Frame(m)[..k];
    var n := |Header(m)|;
    HeaderLength(m);
    HeaderEnds(m, m.body);
    forall i: nat
      ensures At(text, EMPTY_LINE, i) <==> At(whole, EMPTY_LINE, i) && i + 4 <= k
    {
      AtPrefix(whole, EMPTY_LINE, k, i);
    }
    if k >= n + 4 {
      FindFirst(text, EMPTY_LINE, 0, n);
      assert text[..n] == Header(m);
    } else {
      FindNone(text, EMPTY_LINE, 0);
    }
  }

  /** All complete frames are read, in order, and the cut-off one is kept. */
  lemma {:induction false} ReadFrames(messages: seq<Message>, rest: string)
    requires FirstEnd(rest).None? && forall i :: 0 <= i < |messages| ==> MessageOk(messages[i])
    ensures Read(Frames(messages) + rest) == Reading(Bodies(messages), rest)
  {
    hide FirstEnd, FirstBody, MessageOk, Frame;
    if messages == [] {
      assert Frames(messages) + rest == rest;
    } else {
      var tail := Frames(messages[1..]) + rest;
      assert Frames(messages) + rest == Frame(messages[0]) + tail;
      FrameFirst(messages[0], tail);
      ReadFrames(messages[1..], rest);
    }
  }

  /** Whole frames, then one cut at `k`, however chopped into chunks, from a fresh protocol object. */
  method Deliver(messages: seq<Message>, last: Message, k: nat, chunks: seq<string>) returns (p: Protocol)
    requires MessageOk(last) && forall i :: 0 <= i < |messages| ==> MessageOk(messages[i])
    requires k < |Frame(last)| && Concat(chunks) == Frames(messages) + Frame(last)[..k]
    ensures p.responses == Bodies(messages) && p.raw == Frame(last)[..k]
  {
    hide Read, FirstEnd, MessageOk, Frame, Frames;
    p := new Protocol();
    FrameCut(last, k);
    ReadFrames(messages, Frame(last)[..k]);
    assert "" + Concat(chunks) == Concat(chunks);
    p.ExecuteAll(chunks);
  }
}
