/**
 * A client's reader of whole messages, after sections 4.1 and 4.4 of RFC 2616: the header's lines and fields, and from
 * them how the body is delimited. It reads back what lib/http.js writes.
 */
module HttpReader {
  import opened Common
  import opened HttpChunked
  import opened HttpHeader

  // ------------------------------------------------------------------ lines and fields

  /** The first line and what follows it. */
  function ReadLine(s: Bytes): (r: Option<(Bytes, Bytes)>)
    ensures r.Some? ==> |r.value.1| + 2 <= |s|
  {
    if |s| < 2 then None
    else if s[..2] == CRLF then Some(([], s[2..]))
    else
      match ReadLine(s[1..])
      case None => None
      case Some((line, rest)) => Some(([s[0]] + line, rest))
  }

  /** All lines up to the empty one. */
  function ReadLines(s: Bytes): (r: Option<(seq<Bytes>, Bytes)>)
    decreases |s|
  {
    match ReadLine(s)
    case None => None
    case Some((line, rest)) =>
      if line == [] then Some(([], rest))
      else
        match ReadLines(rest)
        case None => None
        case Some((lines, after)) => Some(([line] + lines, after))
  }

  function SkipSpaces(s: Bytes): Bytes {
    if s == [] || s[0] != ' ' then s else SkipSpaces(s[1..])
  }

  /** The name before the colon, the value after it and after any spaces. */
  function ParseField(line: Bytes): Field {
    if line == [] then Field([], [])
    else if line[0] == ':' then Field([], SkipSpaces(line[1..]))
    else var f := ParseField(line[1..]); Field([line[0]] + f.name, f.value)
  }

  function ParseFields(lines: seq<Bytes>): (fields: seq<Field>)
    ensures |fields| == |lines| && forall i :: 0 <= i < |lines| ==> fields[i] == ParseField(lines[i])
  {
    if lines == [] then [] else [ParseField(lines[0])] + ParseFields(lines[1..])
  }

  /** A start line and the fields. */
  function ReadHead(s: Bytes): Option<(Bytes, seq<Field>, Bytes)> {
    match ReadLines(s)
    case None => None
    case Some((lines, rest)) => if lines == [] then None else Some((lines[0], ParseFields(lines[1..]), rest))
  }

  // ------------------------------------------------------------------ section 4.4

  function LowerAll(s: Bytes): (t: Bytes)
    ensures |t| == |s| && forall i :: 0 <= i < |s| ==> t[i] == LowerChar(s[i])
  {
    if s == [] then [] else [LowerChar(s[0])] + LowerAll(s[1..])
  }

  /** The value of the first field of that name. */
  function ValueOf(fields: seq<Field>, name: Bytes): Option<Bytes> {
    if fields == [] then None
    else if LowerAll(fields[0].name) == name then Some(fields[0].value)
    else ValueOf(fields[1..], name)
  }

  function Digits(s: Bytes): Option<nat> {
    if s == [] then Some(0)
    else
      var c := s[|s| - 1];
      match Digits(s[..|s| - 1])
      case None => None
      case Some(n) => if '0' <= c <= '9' then Some(10 * n + (c as int - '0' as int)) else None
  }

  /** One or more decimal digits. */
  function Number(s: Bytes): Option<nat> {
    if s == [] then None else Digits(s)
  }

  /** How the end of a body is found. */
  datatype Framing = NoBody | Chunks | Length(n: nat) | UntilClose | Unreadable

  /** Section 4.4, 1: the responses that never have a body. */
  predicate Bodyless(isHead: bool, status: nat) {
    isHead || status / 100 == 1 || status in {204, 304}
  }

  /** The order of section 4.4. */
  function FramingOf(bodyless: bool, fields: seq<Field>): Framing {
    var coding, length := ValueOf(fields, "transfer-encoding"), ValueOf(fields, "content-length");
    if bodyless then NoBody
    else if coding.Some? && LowerAll(coding.value) != "identity" then Chunks
    else if length.Some? then
      match Number(length.value)
      case None => Unreadable
      case Some(n) => Length(n)
    else UntilClose
  }

  /** The body and what follows the message. */
  function ReadBody(framing: Framing, s: Bytes): Option<(Bytes, Bytes)> {
    match framing
    case NoBody => Some(([], s))
    case Chunks => Decode(s)
    case Length(n) => if n <= |s| then Some((s[..n], s[n..])) else None
    case UntilClose => Some((s, []))
    case Unreadable => None
  }

  /** A whole message: its fields, its body and what follows it. */
  function ReadMessage(bodyless: bool, s: Bytes): Option<(seq<Field>, Bytes, Bytes)> {
    match ReadHead(s)
    case None => None
    case Some((_, fields, rest)) =>
      match ReadBody(FramingOf(bodyless, fields), rest)
      case None => None
      case Some((body, after)) => Some((fields, body, after))
  }

  // ------------------------------------------------------------------ the header reads back

  /** A field that a reader cannot mistake. */
  predicate FieldOk(f: Field) {
    && f.name != [] && ':' !in f.name && '\r' !in f.name && '\n' !in f.name
    && '\r' !in f.value && '\n' !in f.value && (f.value != [] ==> f.value[0] != ' ')
  }

  predicate FieldsOk(fields: seq<Field>) {
    forall i :: 0 <= i < |fields| ==> FieldOk(fields[i])
  }

  lemma {:induction false} LineReads(line: Bytes, rest: Bytes)
    requires '\r' !in line
    ensures ReadLine(line + CRLF + rest) == Some((line, rest))
  {
    var s := line + CRLF + rest;
    if line == [] {
      assert s[..2] == CRLF && s[2..] == rest;
    } else {
      assert s[1..] == line[1..] + CRLF + rest;
      assert s[..2] != CRLF by { assert s[..2][0] == line[0]; }
      LineReads(line[1..], rest);
      assert [line[0]] + line[1..] == line;
    }
  }

  lemma {:induction false} LinesRead(lines: seq<Bytes>, rest: Bytes)
    requires forall i :: 0 <= i < |lines| ==> Clean(lines[i])
    ensures ReadLines(Lines(lines) + CRLF + rest) == Some((lines, rest))
  {
    hide ReadLine, Lines;
    if lines == [] {
      LinesNothing();
      LineReads([], rest);
    } else {
      var tail := Lines(lines[1..]) + CRLF + rest;
      LinesFront(lines);
      Tail(lines[0], Lines(lines[1..]), rest);
      LineReads(lines[0], tail);
      LinesRead(lines[1..], rest);
      assert [lines[0]] + lines[1..] == lines;
    }
  }

  lemma LinesNothing()
    ensures Lines([]) == []
  {
  }

  lemma Tail(line: Bytes, more: Bytes, rest: Bytes)
    ensures (line + CRLF + more) + CRLF + rest == line + CRLF + (more + CRLF + rest)
  {
  }

  lemma {:induction false} FieldParses(name: Bytes, value: Bytes)
    requires ':' !in name && (value != [] ==> value[0] != ' ')
    ensures ParseField(name + ": " + value) == Field(name, value)
  {
    var s := name + ": " + value;
    if name == [] {
      assert s[1..] == " " + value;
      assert (" " + value)[1..] == value;
      assert SkipSpaces(value) == value;
    } else {
      assert s[1..] == name[1..] + ": " + value;
      FieldParses(name[1..], value);
      assert [name[0]] + name[1..] == name;
    }
  }

  lemma RenderParses(fields: seq<Field>)
    requires FieldsOk(fields)
    ensures ParseFields(Render(fields)) == fields
    ensures forall i :: 0 <= i < |fields| ==> Clean(Render(fields)[i])
  {
    forall i | 0 <= i < |fields|
      ensures ParseField(Render(fields)[i]) == fields[i] && Clean(Render(fields)[i])
    {
      FieldParses(fields[i].name, fields[i].value);
      LineClean(fields[i]);
    }
  }

  lemma LineClean(f: Field)
    requires FieldOk(f)
    ensures Clean(Line(f))
  {
  }

  /** Every header of clean fields reads back as its start line and exactly the fields sent. */
  lemma HeadReads(first: Bytes, fields: seq<Field>, rest: Bytes)
    requires Clean(first) && FieldsOk(fields)
    ensures ReadHead((first + CRLF) + Lines(Render(fields)) + CRLF + rest) == Some((first, fields, rest))
  {
    hide ReadLines, ParseFields, Render, Lines, FieldsOk;
    RenderParses(fields);
    var lines := [first] + Render(fields);
    LinesFront(lines);
    assert lines[1..] == Render(fields);
    assert Lines(lines) == (first + CRLF) + Lines(Render(fields));
    LinesRead(lines, rest);
  }

  // ------------------------------------------------------------------ the framing is the one the writer chose

  lemma {:induction false} ValueAppend(a: seq<Field>, b: seq<Field>, name: Bytes)
    ensures ValueOf(a + b, name) == if ValueOf(a, name).Some? then ValueOf(a, name) else ValueOf(b, name)
  {
    if a == [] {
      assert a + b == b;
    } else {
      assert (a + b)[1..] == a[1..] + b;
      ValueAppend(a[1..], b, name);
    }
  }

  lemma NamedTransfer(name: Bytes)
    requires LowerAll(name) == "transfer-encoding"
    ensures KindOf(Field(name, [])) == TransferEncoding
  {
    assert forall i :: 0 <= i <= 7 ==> LowerChar(name[i]) == "transfer-encoding"[i] && LowerChar(name[i]) != 'c';
    NoMention(name, "connection");
    assert MatchesAt(name, "transfer-encoding", 0);
  }

  lemma Mismatch(s: Bytes, t: Bytes, i: nat, j: nat)
    requires i + |t| <= |s| && j < |t| && LowerChar(s[i + j]) != t[j]
    ensures !MatchesAt(s, t, i)
  {
  }

  lemma NamedLength(name: Bytes)
    requires LowerAll(name) == "content-length"
    ensures KindOf(Field(name, [])) == ContentLength
  {
    NotConnection(name);
    assert !Mentions(name, "transfer-encoding") by { TooShort(name, "transfer-encoding"); }
    assert MatchesAt(name, "content-length", 0);
  }

  lemma TooShort(s: Bytes, t: Bytes)
    requires |s| < |t|
    ensures !Mentions(s, t)
  {
  }

  lemma NotConnection(name: Bytes)
    requires LowerAll(name) == "content-length"
    ensures !Mentions(name, "connection")
  {
    hide MatchesAt, LowerAll, LowerChar;
    var t := "connection";
    var l := "content-length";
    assert forall i :: 0 <= i < |name| ==> LowerChar(name[i]) == l[i];
    assert l[3] != t[3] && l[1] != t[0] && l[2] != t[0] && l[3] != t[0] && l[4] != t[0];
    Mismatch(name, t, 0, 3);
    Mismatch(name, t, 1, 0);
    Mismatch(name, t, 2, 0);
    Mismatch(name, t, 3, 0);
    Mismatch(name, t, 4, 0);
    forall i | 0 <= i <= |name|
      ensures !MatchesAt(name, t, i)
    {
      if i > 4 { Beyond(name, t, i); }
    }
  }

  lemma Beyond(s: Bytes, t: Bytes, i: nat)
    requires i + |t| > |s|
    ensures !MatchesAt(s, t, i)
  {
  }

  /** A field by that name is one the writer takes for it. */
  lemma {:induction false} ValueMeans(fields: seq<Field>)
    ensures ValueOf(fields, "transfer-encoding").Some? ==> Has(fields, TransferEncoding)
    ensures ValueOf(fields, "content-length").Some? ==> Has(fields, ContentLength)
  {
    hide KindOf, LowerAll;
    if fields == [] {
    } else {
      ValueMeans(fields[1..]);
      assert forall k :: Has(fields[1..], k) ==> Has(fields, k) by { HasTail(fields); }
      var name := fields[0].name;
      if LowerAll(name) == "transfer-encoding" { NamedTransfer(name); KindByName(fields[0]); }
      if LowerAll(name) == "content-length" { NamedLength(name); KindByName(fields[0]); }
    }
  }

  lemma KindByName(f: Field)
    ensures KindOf(f) == KindOf(Field(f.name, []))
  {
  }

  lemma HasTail(fields: seq<Field>)
    requires fields != []
    ensures forall k :: Has(fields[1..], k) ==> Has(fields, k)
  {
    hide KindOf;
    forall k | Has(fields[1..], k)
      ensures Has(fields, k)
    {
      var i :| 0 <= i < |fields[1..]| && KindOf(fields[1..][i]) == k;
      assert fields[i + 1] == fields[1..][i];
    }
  }

  lemma OneValue(f: Field, name: Bytes)
    ensures ValueOf([f], name) == if LowerAll(f.name) == name then Some(f.value) else None
  {
    assert [f][1..] == [];
  }

  lemma AddedValues()
    ensures ValueOf([KEEP_ALIVE], "transfer-encoding").None? && ValueOf([KEEP_ALIVE], "content-length").None?
    ensures ValueOf([CLOSE], "transfer-encoding").None? && ValueOf([CLOSE], "content-length").None?
    ensures ValueOf([CHUNKED_FIELD], "transfer-encoding") == Some("chunked")
    ensures ValueOf([CHUNKED_FIELD], "content-length").None?
    ensures LowerAll("chunked") != "identity"
  {
    hide LowerAll, ValueOf;
    OneValue(KEEP_ALIVE, "transfer-encoding");
    OneValue(KEEP_ALIVE, "content-length");
    OneValue(CLOSE, "transfer-encoding");
    OneValue(CLOSE, "content-length");
    OneValue(CHUNKED_FIELD, "transfer-encoding");
    OneValue(CHUNKED_FIELD, "content-length");
    LowerTransfer();
    assert |"connection"| == 10 && |"transfer-encoding"| == 17 && |"content-length"| == 14 && |"identity"| == 8;
    assert |LowerAll("Connection")| == 10 && |LowerAll("chunked")| == 7;
  }

  lemma LowerTransfer()
    ensures LowerAll("Transfer-Encoding") == "transfer-encoding"
  {
    hide LowerAll;
    var a, b := "Transfer-Encoding", "transfer-encoding";
    assert |LowerAll(a)| == |b| == 17;
    assert forall i :: 0 <= i < 17 ==> LowerAll(a)[i] == LowerChar(a[i]) == b[i];
  }

  /** A body is chunked exactly if it has to be; else the caller's length counts, or the close of the connection. */
  lemma FramingDecided(fields: seq<Field>, useChunked: bool, keepAlive: bool)
    requires !Has(fields, TransferEncoding)
    ensures var framing := FramingOf(false, Sent(fields, true, useChunked, keepAlive));
            var length := ValueOf(fields, "content-length");
            if useChunked && !Has(fields, ContentLength) then framing == Chunks
            else if length.None? then framing == UntilClose
            else framing == match Number(length.value) { case None => Unreadable case Some(n) => Length(n) }
  {
    hide Has, ValueOf, LowerAll, Number;
    ValueMeans(fields);
    AddedValues();
    var conn := Added(fields, false, useChunked, keepAlive);
    var more := if useChunked && !Has(fields, ContentLength) then [CHUNKED_FIELD] else [];
    assert Added(fields, true, useChunked, keepAlive) == conn + more;
    assert conn == [] || conn == [KEEP_ALIVE] || conn == [CLOSE];
    NoValue("transfer-encoding");
    NoValue("content-length");
    ValueAppend(fields, conn + more, "transfer-encoding");
    ValueAppend(fields, conn + more, "content-length");
    ValueAppend(conn, more, "transfer-encoding");
    ValueAppend(conn, more, "content-length");
  }

  lemma NoValue(name: Bytes)
    ensures ValueOf([], name).None?
  {
  }

  /** A field that the writer takes for a length and a reader does not. */
  predicate Misleads(fields: seq<Field>) {
    Has(fields, ContentLength) && ValueOf(fields, "content-length").None?
  }

  /** The end of a message that is not the last can be found, unless exactly such a field is there. */
  lemma EndFound(fields: seq<Field>, useChunked: bool, keepAlive: bool)
    requires !Has(fields, TransferEncoding) && !LastBy(fields, true, useChunked, keepAlive)
    ensures FramingOf(false, Sent(fields, true, useChunked, keepAlive)) == UntilClose <==> Misleads(fields)
  {
    hide Has, ValueOf, FramingOf, Closes;
    FramingDecided(fields, useChunked, keepAlive);
    ValueMeans(fields);
  }

  /** Such a field is X-Content-Length: taken for a length, so nobody can find the end of the message. */
  lemma EndNotFound(value: Bytes)
    ensures var fields := [Field("X-Content-Length", value)];
            && FramingOf(false, Sent(fields, true, true, true)) == UntilClose
            && !LastBy(fields, true, true, true)
  {
    hide LowerAll, KindOf, FramingOf, ValueOf;
    var f := Field("X-Content-Length", value);
    var fields := [f];
    MentionsLength(f);
    assert fields[0] == f && Has(fields, ContentLength) && !Has(fields, Connection) && !Has(fields, TransferEncoding);
    OneValue(f, "content-length");
    assert |LowerAll(f.name)| == 16 && |"content-length"| == 14;
    FramingDecided(fields, true, true);
  }

  lemma MentionsLength(f: Field)
    requires f.name == "X-Content-Length"
    ensures KindOf(f) == ContentLength
  {
    hide MatchesAt;
    var s, t := f.name, "connection";
    Mismatch(s, t, 0, 0);
    Mismatch(s, t, 1, 0);
    Mismatch(s, t, 2, 3);
    Mismatch(s, t, 3, 0);
    Mismatch(s, t, 4, 0);
    Mismatch(s, t, 5, 0);
    Mismatch(s, t, 6, 0);
    forall i | 0 <= i <= |s|
      ensures !MatchesAt(s, t, i)
    {
      if i > 6 { Beyond(s, t, i); }
    }
    TooShort(s, "transfer-encoding");
    MatchesLength();
  }

  lemma MatchesLength()
    ensures MatchesAt("X-Content-Length", "content-length", 2)
  {
    var s, t := "X-Content-Length", "content-length";
    assert forall j :: 0 <= j < 14 ==> LowerChar(s[2 + j]) == t[j];
  }

  // ------------------------------------------------------------------ whole messages

  lemma KeepAliveOk()
    ensures FieldOk(KEEP_ALIVE)
  {
  }

  lemma CloseOk()
    ensures FieldOk(CLOSE)
  {
  }

  lemma TransferClean()
    ensures ':' !in "Transfer-Encoding" && '\r' !in "Transfer-Encoding" && '\n' !in "Transfer-Encoding"
  {
  }

  lemma ChunkedClean()
    ensures '\r' !in "chunked" && '\n' !in "chunked"
  {
  }

  lemma ChunkedFieldOk()
    ensures FieldOk(CHUNKED_FIELD)
  {
    TransferClean();
    ChunkedClean();
  }

  lemma AddedOk(fields: seq<Field>, hasBody: bool, useChunked: bool, keepAlive: bool)
    requires FieldsOk(fields)
    ensures FieldsOk(Sent(fields, hasBody, useChunked, keepAlive))
  {
    hide Has, FieldOk;
    KeepAliveOk();
    CloseOk();
    ChunkedFieldOk();
    var added := Added(fields, hasBody, useChunked, keepAlive);
    assert FieldsOk(added);
  }

  /** What the handler owes a reader: a length it gives is the true one, and trailers are clean. */
  ghost predicate KeepsWord(fields: seq<Field>, hasBody: bool, chunked: bool, writes: seq<Bytes>, lines: seq<Bytes>) {
    && (chunked ==> forall i :: 0 <= i < |lines| ==> Clean(lines[i]))
    && (hasBody && !chunked && Has(fields, ContentLength) ==>
          var length := ValueOf(fields, "content-length");
          length.Some? && Number(length.value) == Some(|Concat(writes)|))
  }

  /** The text of a complete message. */
  function MessageText(
      firstLine: Bytes, fields: seq<Field>, hasBody: bool, useChunked: bool, keepAlive: bool, writes: seq<Bytes>,
      lines: seq<Bytes>): Bytes
  {
    var chunked := hasBody && useChunked && !Has(fields, ContentLength);
    HeaderText(firstLine, fields, hasBody, useChunked, keepAlive) + Body(chunked, writes) +
    (if chunked then LastChunk(Lines(lines)) else [])
  }

  /** Its header, read back. */
  lemma HeaderReads(
      first: Bytes, fields: seq<Field>, hasBody: bool, useChunked: bool, keepAlive: bool, rest: Bytes)
    requires Clean(first) && FieldsOk(fields)
    ensures ReadHead(HeaderText(first + CRLF, fields, hasBody, useChunked, keepAlive) + rest)
              == Some((first, Sent(fields, hasBody, useChunked, keepAlive), rest))
  {
    hide ReadHead, Sent, Lines, Render, FieldsOk;
    AddedOk(fields, hasBody, useChunked, keepAlive);
    HeadReads(first, Sent(fields, hasBody, useChunked, keepAlive), rest);
  }

  /** Its body, read back by whatever framing the header announces. */
  lemma BodyReads(
      fields: seq<Field>, hasBody: bool, useChunked: bool, keepAlive: bool, writes: seq<Bytes>, lines: seq<Bytes>,
      rest: Bytes)
    requires !Has(fields, TransferEncoding) && (!hasBody ==> writes == [])
    requires forall i :: 0 <= i < |writes| ==> writes[i] != []
    requires KeepsWord(fields, hasBody, hasBody && useChunked && !Has(fields, ContentLength), writes, lines)
    requires EndsByClose(fields, hasBody, useChunked) ==> rest == []
    ensures var chunked := hasBody && useChunked && !Has(fields, ContentLength);
            ReadBody(FramingOf(!hasBody, Sent(fields, hasBody, useChunked, keepAlive)),
                     Body(chunked, writes) + (if chunked then LastChunk(Lines(lines)) else []) + rest)
              == Some((Concat(writes), rest))
  {
    hide Has, ValueOf, Number, Sent, LastChunk, Lines, Decode, Concat;
    var chunked := hasBody && useChunked && !Has(fields, ContentLength);
    if !hasBody {
      NothingWritten();
      assert [] + [] + rest == rest;
    } else {
      FramingDecided(fields, useChunked, keepAlive);
      ValueMeans(fields);
      if chunked {
        DecodeChunks(writes, lines, rest);
      } else {
        PlainBody(Concat(writes), rest);
      }
    }
  }

  lemma NothingWritten()
    ensures Concat([]) == []
  {
  }

  lemma PlainBody(body: Bytes, rest: Bytes)
    ensures (body + [] + rest)[..|body|] == body && (body + [] + rest)[|body|..] == rest
    ensures rest == [] ==> body + [] + rest == body
  {
  }

  /** A complete message followed by anything reads back: its fields, its body, and where it ends. */
  lemma MessageReads(
      first: Bytes, fields: seq<Field>, hasBody: bool, useChunked: bool, keepAlive: bool, writes: seq<Bytes>,
      lines: seq<Bytes>, rest: Bytes)
    requires Clean(first) && FieldsOk(fields) && !Has(fields, TransferEncoding) && (!hasBody ==> writes == [])
    requires forall i :: 0 <= i < |writes| ==> writes[i] != []
    requires KeepsWord(fields, hasBody, hasBody && useChunked && !Has(fields, ContentLength), writes, lines)
    requires EndsByClose(fields, hasBody, useChunked) ==> rest == []
    ensures var text := MessageText(first + CRLF, fields, hasBody, useChunked, keepAlive, writes, lines);
            ReadMessage(!hasBody, text + rest)
              == Some((Sent(fields, hasBody, useChunked, keepAlive), Concat(writes), rest))
  {
    hide Has, Sent, HeaderText, Body, LastChunk, Lines, ReadHead, FramingOf, ReadBody, Concat, FieldsOk, KeepsWord;
    var chunked := hasBody && useChunked && !Has(fields, ContentLength);
    var head := HeaderText(first + CRLF, fields, hasBody, useChunked, keepAlive);
    var body, last := Body(chunked, writes), if chunked then LastChunk(Lines(lines)) else [];
    Parts(head, body, last, rest);
    HeaderReads(first, fields, hasBody, useChunked, keepAlive, body + last + rest);
    BodyReads(fields, hasBody, useChunked, keepAlive, writes, lines, rest);
  }

  lemma Parts(a: Bytes, b: Bytes, c: Bytes, d: Bytes)
    ensures (a + b + c) + d == a + (b + c + d)
  {
  }
}
