/**
 * lib/http.js, `_storeHeader`: which header fields a message gets, and with them how its end can be found: by
 * its length, by chunks, or by the close of the connection (section 4.4 of RFC 2616).
 */
module HttpHeader {
  import opened Common
  import opened HttpChunked

  datatype Field = Field(name: Bytes, value: Bytes)

  datatype Kind = Connection | TransferEncoding | ContentLength | Other

  function LowerChar(c: char): char {
    if 'A' <= c <= 'Z' then c + 32 as char else c
  }

  predicate MatchesAt(s: Bytes, t: Bytes, i: nat) {
    i + |t| <= |s| && forall j :: 0 <= j < |t| ==> LowerChar(s[i + j]) == t[j]
  }

  /** A match of the literal regular expression `t`, ignoring case. */
  predicate Mentions(s: Bytes, t: Bytes) {
    exists i :: 0 <= i <= |s| && MatchesAt(s, t, i)
  }

  function KindOf(f: Field): Kind {
    if Mentions(f.name, "connection") then Connection
    else if Mentions(f.name, "transfer-encoding") then TransferEncoding
    else if Mentions(f.name, "content-length") then ContentLength
    else Other
  }

  function Line(f: Field): Bytes {
    f.name + ": " + f.value
  }

  function Render(fields: seq<Field>): (lines: seq<Bytes>)
    ensures |lines| == |fields| && forall i :: 0 <= i < |lines| ==> lines[i] == Line(fields[i])
  {
    if fields == [] then [] else [Line(fields[0])] + Render(fields[1..])
  }

  predicate Has(fields: seq<Field>, k: Kind) {
    exists i :: 0 <= i < |fields| && KindOf(fields[i]) == k
  }

  /** A Connection field that says close. */
  predicate Closes(fields: seq<Field>) {
    exists i :: 0 <= i < |fields| && KindOf(fields[i]) == Connection && Mentions(fields[i].value, "close")
  }

  /** A Transfer-Encoding field that says chunked. */
  predicate AnnouncesChunks(fields: seq<Field>) {
    exists i :: 0 <= i < |fields| && KindOf(fields[i]) == TransferEncoding && Mentions(fields[i].value, "chunk")
  }

  const KEEP_ALIVE := Field("Connection", "keep-alive")
  const CLOSE := Field("Connection", "close")
  const CHUNKED_FIELD := Field("Transfer-Encoding", "chunked")

  /** Text that has the first letter of `t` nowhere early enough does not mention it. */
  lemma NoMention(s: Bytes, t: Bytes)
    requires t != [] && forall i :: 0 <= i <= |s| - |t| ==> LowerChar(s[i]) != t[0]
    ensures !Mentions(s, t)
  {
    assert forall i :: 0 <= i <= |s| && MatchesAt(s, t, i) ==> LowerChar(s[i + 0]) == t[0];
  }

  lemma AboutKeepAlive()
    ensures KindOf(KEEP_ALIVE) == Connection && !Mentions(KEEP_ALIVE.value, "close")
  {
    assert MatchesAt("Connection", "connection", 0);
    NoMention("keep-alive", "close");
  }

  lemma AboutClose()
    ensures KindOf(CLOSE) == Connection && Mentions(CLOSE.value, "close")
  {
    assert MatchesAt("Connection", "connection", 0);
    assert MatchesAt("close", "close", 0);
  }

  lemma AboutChunkedField()
    ensures KindOf(CHUNKED_FIELD) == TransferEncoding && Mentions(CHUNKED_FIELD.value, "chunk")
  {
    hide MatchesAt, LowerChar, Mentions;
    TransferEncodingName();
    SaysChunk();
  }

  lemma TransferEncodingName()
    ensures Mentions("Transfer-Encoding", "transfer-encoding") && !Mentions("Transfer-Encoding", "connection")
  {
    NoMention("Transfer-Encoding", "connection");
    assert MatchesAt("Transfer-Encoding", "transfer-encoding", 0);
  }

  lemma SaysChunk()
    ensures Mentions("chunked", "chunk")
  {
    assert MatchesAt("chunked", "chunk", 0);
  }

  /** What one more field adds. */
  lemma OneMore(fields: seq<Field>, f: Field)
    ensures forall k :: Has(fields + [f], k) <==> Has(fields, k) || KindOf(f) == k
    ensures Closes(fields + [f]) <==> Closes(fields) || (KindOf(f) == Connection && Mentions(f.value, "close"))
    ensures AnnouncesChunks(fields + [f]) <==>
              AnnouncesChunks(fields) || (KindOf(f) == TransferEncoding && Mentions(f.value, "chunk"))
    ensures Lines(Render(fields + [f])) == Lines(Render(fields)) + (Line(f) + CRLF)
  {
    hide KindOf, Mentions, Line;
    var more := fields + [f];
    assert more[|fields|] == f && forall i :: 0 <= i < |fields| ==> more[i] == fields[i];
    assert Render(more)[..|fields|] == Render(fields);
  }

  lemma ClosesMeans(fields: seq<Field>)
    ensures Closes(fields) ==> Has(fields, Connection)
  {
  }

  lemma Nothing()
    ensures forall k :: !Has([], k)
    ensures !Closes([]) && !AnnouncesChunks([]) && Lines(Render([])) == []
  {
  }

  /** The message text so far, and what it says. */
  ghost predicate Says(firstLine: Bytes, sent: seq<Field>, message: Bytes, conn: bool, length: bool,
      transfer: bool, chunked: bool) {
    && message == firstLine + Lines(Render(sent))
    && (conn <==> Has(sent, Connection)) && (length <==> Has(sent, ContentLength)) && (transfer
        <==> Has(sent, TransferEncoding))
    && (chunked <==> AnnouncesChunks(sent))
  }

  lemma SaysMore(firstLine: Bytes, sent: seq<Field>, message: Bytes, conn: bool, length: bool, transfer: bool,
      chunked: bool, f: Field)
    requires Says(firstLine, sent, message, conn, length, transfer, chunked)
    ensures Says(firstLine, sent + [f], message + (Line(f) + CRLF),
                 conn || KindOf(f) == Connection,
                 length || KindOf(f) == ContentLength,
                 transfer || KindOf(f) == TransferEncoding,
                 chunked || (KindOf(f) == TransferEncoding && Mentions(f.value, "chunk")))
  {
    hide KindOf, Mentions, Line, Lines, Render;
    OneMore(sent, f);
    Assoc(firstLine, Lines(Render(sent)), Line(f) + CRLF);
  }

  lemma SaysNothing(firstLine: Bytes)
    ensures Says(firstLine, [], firstLine, false, false, false, false)
  {
    Nothing();
  }

  lemma SaysWhat(firstLine: Bytes, sent: seq<Field>, message: Bytes, conn: bool, length: bool, transfer: bool,
      chunked: bool)
    requires Says(firstLine, sent, message, conn, length, transfer, chunked)
    ensures message == firstLine + Lines(Render(sent)) && (conn <==> Has(sent, Connection))
    ensures (length <==> Has(sent, ContentLength)) && (transfer <==> Has(sent, TransferEncoding))
    ensures (chunked <==> AnnouncesChunks(sent))
    ensures chunked ==> transfer
  {
  }

  /** No length is given, and the client does not know chunks: only the close of the connection ends the body. */
  predicate EndsByClose(fields: seq<Field>, hasBody: bool, useChunked: bool) {
    hasBody && !useChunked && !Has(fields, ContentLength) && !Has(fields, TransferEncoding)
  }

  /** The message ends the connection: its fields say so, or it cannot end otherwise. */
  predicate LastBy(fields: seq<Field>, hasBody: bool, useChunked: bool, shouldKeepAlive: bool) {
    || EndsByClose(fields, hasBody, useChunked)
    || if Has(fields, Connection) then Closes(fields)
       else !(shouldKeepAlive && (Has(fields, ContentLength) || useChunked))
  }

  /** What is added: a Connection field if there is none, and Transfer-Encoding if the body has to be chunked. */
  function Added(fields: seq<Field>, hasBody: bool, useChunked: bool, shouldKeepAlive: bool): seq<Field> {
    (if Has(fields, Connection) then []
     else if shouldKeepAlive && (Has(fields, ContentLength) || useChunked) then [KEEP_ALIVE] else [CLOSE]) +
    (if hasBody && useChunked && !Has(fields, ContentLength) && !Has(fields, TransferEncoding) then [CHUNKED_FIELD]
     else [])
  }

  function Sent(fields: seq<Field>, hasBody: bool, useChunked: bool, shouldKeepAlive: bool): seq<Field> {
    fields + Added(fields, hasBody, useChunked, shouldKeepAlive)
  }

  /** The text of a header, down to its empty line. */
  function HeaderText(
      firstLine: Bytes, fields: seq<Field>, hasBody: bool, useChunked: bool, shouldKeepAlive: bool): Bytes
  {
    firstLine + Lines(Render(Sent(fields, hasBody, useChunked, shouldKeepAlive))) + CRLF
  }

  /**
   * Where the caller leaves it open, the client is told to close exactly if the message is the last, and that is
   * exactly if keep-alive is not wanted or the end could not be found.
   */
  lemma CloseAnnounced(fields: seq<Field>, hasBody: bool, useChunked: bool, keepAlive: bool)
    requires !Has(fields, Connection)
    ensures Closes(Sent(fields, hasBody, useChunked, keepAlive)) <==> LastBy(fields, hasBody, useChunked, keepAlive)
    ensures LastBy(fields, hasBody, useChunked, keepAlive) <==>
              !keepAlive || !(useChunked || Has(fields, ContentLength))
  {
    hide KindOf, Mentions, Line, Lines, Render, Has, Closes;
    ClosesMeans(fields);
    AboutKeepAlive();
    AboutClose();
    AboutChunkedField();
    var f := if keepAlive && (Has(fields, ContentLength) || useChunked) then KEEP_ALIVE else CLOSE;
    OneMore(fields, f);
    OneMore(fields + [f], CHUNKED_FIELD);
    assert fields + ([f] + [CHUNKED_FIELD]) == (fields + [f]) + [CHUNKED_FIELD];
    assert [f] + [] == [f];
  }

  /**
   * `_storeHeader`: the fields of the caller and those added. The message is the connection's last exactly when
   * it was to be, or says so, or can only end that way; otherwise its end can be found without closing.
   */
  method StoreHeader(firstLine: Bytes, fields: seq<Field>, hasBody: bool, useChunked: bool,
      shouldKeepAlive: bool, wasLast: bool)
    returns (header: Bytes, last: bool, chunked: bool, ghost sent: seq<Field>)
    ensures header == HeaderText(firstLine, fields, hasBody, useChunked, shouldKeepAlive) && header != []
    ensures sent == Sent(fields, hasBody, useChunked, shouldKeepAlive)
    ensures Has(sent, Connection) && (Has(sent, ContentLength) <==> Has(fields, ContentLength))
    ensures last <==> wasLast || Closes(sent) || EndsByClose(fields, hasBody, useChunked)
    ensures last <==> wasLast || LastBy(fields, hasBody, useChunked, shouldKeepAlive)
    ensures chunked <==> AnnouncesChunks(sent)
    ensures !Has(fields, TransferEncoding) ==> last || !hasBody || chunked || Has(sent, ContentLength)
    ensures !Has(fields, TransferEncoding) ==> (chunked <==> hasBody && useChunked && !Has(fields, ContentLength))
  {
    hide KindOf, Mentions, Line, Lines, Render, Says, Has, Closes, AnnouncesChunks;
    var message := firstLine;
    var conn, length, transfer := false, false, false;
    last, chunked, sent := wasLast, false, [];
    SaysNothing(firstLine);
    Nothing();
    for i := 0 to |fields|
      invariant sent == fields[..i] && Says(firstLine, sent, message, conn, length, transfer, chunked)
      invariant last <==> wasLast || Closes(sent)
    {
      var f := fields[i];
      SaysMore(firstLine, sent, message, conn, length, transfer, chunked, f);
      OneMore(sent, f);
      message := message + (Line(f) + CRLF);
      match KindOf(f) {
        case Connection =>
          conn := true;
          if Mentions(f.value, "close") { last := true; }
        case TransferEncoding =>
          transfer := true;
          if Mentions(f.value, "chunk") { chunked := true; }
        case ContentLength => length := true;
        case Other =>
      }
      sent := sent + [f];
    }
    assert sent == fields;
    ClosesMeans(sent);
    ghost var added := [];
    SaysWhat(firstLine, sent, message, conn, length, transfer, chunked);
    if !conn {
      var f := if shouldKeepAlive && (length || useChunked) then KEEP_ALIVE else CLOSE;
      AboutKeepAlive();
      AboutClose();
      SaysMore(firstLine, sent, message, conn, length, transfer, chunked, f);
      OneMore(sent, f);
      last := last || f == CLOSE;
      message, conn, sent, added := message + (Line(f) + CRLF), true, sent + [f], [f];
    }
    if !length && !transfer {
      if hasBody && useChunked {
        AboutChunkedField();
        SaysMore(firstLine, sent, message, conn, length, transfer, chunked, CHUNKED_FIELD);
        OneMore(sent, CHUNKED_FIELD);
        message, chunked, sent := message + (Line(CHUNKED_FIELD) + CRLF), true, sent + [CHUNKED_FIELD];
        added := added + [CHUNKED_FIELD];
      } else if hasBody {
        last := true;
      } else {
        chunked := false;
      }
    }
    SaysWhat(firstLine, sent, message, conn, length, Has(sent, TransferEncoding), chunked);
    assert sent == Sent(fields, hasBody, useChunked, shouldKeepAlive) by { assert sent == fields + added; }
    header := message + CRLF;
  }
}
