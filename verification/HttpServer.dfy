/**
 * lib/http.js: responses that buffer themselves until they own the socket, and the server connection that lets
 * them have it one after the other, in the order of the requests.
 */
module HttpServer {
  import opened Common
  import opened HttpChunked
  import HttpHeader

  /** What is written: a string, standing for its bytes, or a buffer. */
  datatype Data = Str(bytes: Bytes) | Buf(bytes: Bytes)

  datatype Encoding = Utf8 | Ascii | Binary

  // ------------------------------------------------------------------ buffered output

  function Flat(output: seq<Data>): Bytes {
    if output == [] then [] else output[0].bytes + Flat(output[1..])
  }

  lemma {:induction false} FlatPush(output: seq<Data>, d: Data)
    ensures Flat(output + [d]) == Flat(output) + d.bytes
  {
    if output == [] {
      assert (output + [d])[1..] == [];
    } else {
      assert (output + [d])[1..] == output[1..] + [d];
      FlatPush(output[1..], d);
    }
  }

  /** Text added to the last piece counts as written after it. */
  lemma FlatMerge(output: seq<Data>, more: Bytes)
    requires output != []
    ensures var n := |output| - 1; Flat(output[n := Str(output[n].bytes + more)]) == Flat(output) + more
  {
    var n := |output| - 1;
    var front, d := output[..n], output[n];
    assert output == front + [d] && output[n := Str(d.bytes + more)] == front + [Str(d.bytes + more)];
    FlatPush(front, d);
    FlatPush(front, Str(d.bytes + more));
    Assoc(Flat(front), d.bytes, more);
  }

  /** Both arrays are of a length, and buffers carry no encoding. */
  predicate Aligned(output: seq<Data>, encodings: seq<Option<Encoding>>) {
    |encodings| == |output| && forall i :: 0 <= i < |output| && output[i].Buf? ==> encodings[i].None?
  }

  /** Bytes handed over in two steps. */
  lemma Handed(wire: Bytes, a: Bytes, b: Bytes, c: Bytes)
    requires a <= b <= c
    ensures (wire + b[|a|..]) + c[|b|..] == wire + c[|a|..]
  {
    assert c[|a|..] == b[|a|..] + c[|b|..];
    Assoc(wire, b[|a|..], c[|b|..]);
  }

  // ------------------------------------------------------------------ one response

  /** What is given beforehand: the request, and what an implicit header will be made of. */
  datatype Setup = Setup(
    req: nat, useChunked: bool, keepAlive: bool, statusCode: nat, statusLine: Bytes, fields: seq<HttpHeader.Field>)

  /** The message as far as its handler has made it. */
  datatype Content = Content(
    header: Bytes, headerSent: bool, chunked: bool, hasBody: bool, last: bool, finished: bool,
    trailer: Bytes, lines: seq<Bytes>, writes: seq<Bytes>)

  /** What a response looks like between two calls. */
  datatype State = State(
    setup: Setup, content: Content,
    output: seq<Data>, encodings: seq<Option<Encoding>>, attached: bool, sent: Bytes)

  /** The message as far as its handler has made it: header, body and, once ended, the last chunk. */
  function Message(v: State): Bytes {
    if !v.content.headerSent then []
    else
      v.content.header + Body(v.content.chunked, v.content.writes) +
      (if v.content.finished && v.content.chunked then LastChunk(Lines(v.content.lines)) else [])
  }

  /** What was sent and what is buffered make up the message. */
  ghost predicate Good(v: State) {
    && Aligned(v.output, v.encodings)
    && v.sent + Flat(v.output) == Message(v)
    && (v.content.headerSent ==> v.content.header != [])
    && (!v.content.headerSent ==> v.output == [] && v.content.writes == [] && !v.content.finished)
    && (v.content.chunked ==> v.content.hasBody)
    && (v.content.header == [] ==> !v.content.chunked)
    && (!v.content.finished ==> v.content.trailer == Lines(v.content.lines))
    && (!v.content.hasBody ==> v.content.writes == [])
    && !HttpHeader.Has(v.setup.fields, HttpHeader.TransferEncoding)
    && forall i :: 0 <= i < |v.content.writes| ==> v.content.writes[i] != []
  }

  /** The handler's part is the same; only the way out has changed. */
  predicate SameMessage(v: State, w: State) {
    v.setup == w.setup && v.content == w.content
  }

  /** The header, if it is still to be sent. */
  function HeaderDue(v: State): Bytes {
    if v.content.headerSent then [] else v.content.header
  }

  ghost function OutOf(v: State): Bytes {
    v.sent + Flat(v.output)
  }

  /** `v` and one more piece of the body is `w`. */
  lemma WriteGood(v: State, w: State, data: Bytes)
    requires Good(v) && v.content.header != [] && v.content.hasBody && !v.content.finished && data != []
    requires w.setup == v.setup && w.content == v.content.(headerSent := true, writes := v.content.writes + [data])
    requires Aligned(w.output, w.encodings)
    requires OutOf(w) == OutOf(v) + (HeaderDue(v) + Piece(v.content.chunked, data))
    ensures Good(w)
  {
    hide Flat, Body, Piece, Lines, Aligned, HttpHeader.Has;
    BodyAppend(v.content.chunked, v.content.writes, data);
    EmptyBody(v.content.chunked);
    FlatNothing();
    var body, piece := Body(v.content.chunked, v.content.writes), Piece(v.content.chunked, data);
    JoinsMessage(v.content.header, body, piece);
  }

  lemma JoinsMessage(head: Bytes, body: Bytes, piece: Bytes)
    ensures (head + body + []) + ([] + piece) == head + (body + piece) + []
    ensures [] + (head + piece) == head + ([] + piece) + []
  {
  }

  lemma EndsMessage(head: Bytes, body: Bytes, tail: Bytes)
    ensures (head + body + []) + ([] + tail) == head + body + tail
    ensures [] + (head + tail) == head + [] + tail
  {
  }

  /** `v` and its last piece is `w`: the last chunk, or nothing. */
  lemma EndGood(v: State, w: State)
    requires Good(v) && v.content.header != [] && !v.content.finished
    requires w.setup == v.setup && w.content == v.content.(headerSent := true, finished := true)
    requires Aligned(w.output, w.encodings)
    requires OutOf(w) == OutOf(v) + (HeaderDue(v) + if v.content.chunked then LastChunk(v.content.trailer) else [])
    ensures Good(w)
  {
    hide Flat, Body, Piece, Lines, Aligned, LastChunk, HttpHeader.Has;
    EmptyBody(v.content.chunked);
    FlatNothing();
    var body := Body(v.content.chunked, v.content.writes);
    EndsMessage(v.content.header, body, if v.content.chunked then LastChunk(v.content.trailer) else []);
  }

  /** The text of the fast path of `end`. */
  function HotText(chunked: bool, header: Bytes, data: Bytes, trailer: Bytes): Bytes {
    if chunked then header + Hex(|data|) + CRLF + data + "\r\n0\r\n" + trailer + CRLF else header + data
  }

  /** It is byte for byte a write followed by the last chunk. */
  lemma HotPath(chunked: bool, header: Bytes, data: Bytes, trailer: Bytes)
    ensures HotText(chunked, header, data, trailer)
              == header + Body(chunked, [data]) + if chunked then LastChunk(trailer) else []
  {
    hide Hex;
    hide Body;
    OneWrite(data);
    Joint();
    HotRegroup(header, Hex(|data|), CRLF, data, "0\r\n", trailer);
  }

  lemma HotGood(v: State, w: State, data: Bytes)
    requires Good(v) && v.content.header != [] && !v.content.headerSent && v.content.hasBody && data != []
    requires w.setup == v.setup && w.output == v.output && w.encodings == v.encodings
    requires w.content == v.content.(headerSent := true, writes := v.content.writes + [data], finished := true)
    requires w.sent == v.sent + HotText(v.content.chunked, v.content.header, data, v.content.trailer)
    ensures Good(w)
  {
    hide Flat, HotText, Aligned, Lines, HttpHeader.Has, Body, LastChunk;
    FlatNothing();
    HotPath(v.content.chunked, v.content.header, data, v.content.trailer);
    assert v.content.writes + [data] == [data];
  }

  lemma Joint()
    ensures "\r\n0\r\n" == CRLF + "0\r\n"
  {
  }

  lemma OneWrite(data: Bytes)
    ensures Body(true, [data]) == Chunk(data) && Body(false, [data]) == data
  {
    BodyAppend(true, [], data);
    BodyAppend(false, [], data);
    EmptyBody(true);
    EmptyBody(false);
    assert [] + [data] == [data];
  }

  lemma HotRegroup(header: Bytes, size: Bytes, eol: Bytes, data: Bytes, zero: Bytes, trailer: Bytes)
    ensures header + size + eol + data + (eol + zero) + trailer + eol
              == header + (size + eol + data + eol) + (zero + trailer + eol)
  {
  }

  lemma ThreeSends(out: Bytes, head: Bytes, size: Bytes, data: Bytes, eol: Bytes)
    ensures ((out + (head + (size + eol))) + ([] + data)) + ([] + eol) == out + (head + (size + eol + data + eol))
  {
  }

  lemma GoodMeans(v: State)
    requires Good(v)
    ensures Aligned(v.output, v.encodings)
    ensures (!v.content.headerSent ==> v.output == []) && (v.content.header == [] ==> !v.content.headerSent)
  {
  }

  lemma FreshFacts(v: State)
    requires Good(v) && !v.content.headerSent
    ensures v.content.writes == [] && v.output == []
  {
  }

  lemma UnfinishedHead(v: State)
    requires Good(v) && v.content.header == []
    ensures !v.content.finished && !v.content.headerSent
  {
  }

  lemma EmptyBody(chunked: bool)
    ensures Body(chunked, []) == []
  {
  }

  lemma FlatNothing()
    ensures Flat([]) == []
  {
  }

  /** Lines 630-645: one line for each field. */
  method TrailerText(fields: seq<HttpHeader.Field>) returns (text: Bytes)
    ensures text == Lines(HttpHeader.Render(fields))
  {
    hide Lines, HttpHeader.Render, HttpHeader.Has, HttpHeader.Closes, HttpHeader.AnnouncesChunks;
    HttpHeader.Nothing();
    text := [];
    for i := 0 to |fields|
      invariant text == Lines(HttpHeader.Render(fields[..i]))
    {
      HttpHeader.OneMore(fields[..i], fields[i]);
      assert fields[..i] + [fields[i]] == fields[..i + 1];
      text := text + (HttpHeader.Line(fields[i]) + CRLF);
    }
    assert fields[..|fields|] == fields;
  }

  /** Sections 10.1, 10.2.5 and 10.3.5 of RFC 2616. */
  predicate BodyAllowed(statusCode: nat) {
    statusCode != 204 && statusCode != 304 && !(100 <= statusCode <= 199)
  }

  /** What the header decides: how the body is written, and whether the message is the last. */
  predicate Determined(
      hasBody: bool, chunked: bool, last: bool, wasLast: bool,
      fields: seq<HttpHeader.Field>, useChunked: bool, keepAlive: bool)
  {
    && (chunked <==> hasBody && useChunked && !HttpHeader.Has(fields, HttpHeader.ContentLength))
    && (last <==> wasLast || HttpHeader.LastBy(fields, hasBody, useChunked, keepAlive))
  }

  /** The header and what it decides. */
  datatype Head = Head(header: Bytes, hasBody: bool, chunked: bool, last: bool)

  function HeadOf(c: Content): Head {
    Head(c.header, c.hasBody, c.chunked, c.last)
  }

  /** The header is settled: as it was, or now from the status and the fields set. */
  ghost predicate HeadedFrom(s: Setup, c: Head, d: Head) {
    if c.header == [] then HeadIs(s, c, d, s.statusCode, s.statusLine, s.fields) else d == c
  }

  /** The message goes on: its header is settled, and the data, if it has a body and there are any, joins it. */
  ghost predicate GoesOn(s: Setup, c: Content, s': Setup, d: Content, data: Bytes) {
    && s' == s && d.header != [] && HeadedFrom(s, HeadOf(c), HeadOf(d)) && d.lines == c.lines
    && d.writes == c.writes + if d.hasBody && data != [] then [data] else []
  }

  lemma GoesOnBy(s: Setup, c: Content, h: Content, d: Content, data: Bytes)
    requires HeadedFrom(s, HeadOf(c), HeadOf(h)) && h.header != [] && d.lines == c.lines
    requires d.header == h.header && d.hasBody == h.hasBody && d.chunked == h.chunked && d.last == h.last
    requires d.writes == c.writes + if d.hasBody && data != [] then [data] else []
    ensures GoesOn(s, c, s, d, data)
  {
    hide HeadedFrom;
  }

  function GivenBytes(data: Option<Data>): Bytes {
    if data.Some? then data.value.bytes else []
  }

  /** It is the one for this status and these fields. */
  ghost predicate HeadIs(s: Setup, c: Head, d: Head, code: nat, line: Bytes, fields: seq<HttpHeader.Field>) {
    && d.header != [] && d.header == HttpHeader.HeaderText(line, fields, d.hasBody, s.useChunked, s.keepAlive)
    && d.hasBody == (c.hasBody && BodyAllowed(code))
    && Determined(d.hasBody, d.chunked, d.last, c.last, fields, s.useChunked, s.keepAlive)
  }

  class Response {
    const server: Connection
    const req: nat
    var output: seq<Data>
    var outputEncodings: seq<Option<Encoding>>
    var header: Bytes
    var headerSent: bool
    var chunkedEncoding: bool
    const useChunkedByDefault: bool
    const shouldKeepAlive: bool
    var hasBody: bool
    var last: bool
    var finished: bool
    var attached: bool
    var trailer: Bytes
    var statusCode: nat
    var statusLine: Bytes
    var fields: seq<HttpHeader.Field>
    ghost var lines: seq<Bytes>
    ghost var writes: seq<Bytes>
    ghost var sent: Bytes

    ghost function View(): State
      reads this
    {
      State(
        Setup(req, useChunkedByDefault, shouldKeepAlive, statusCode, statusLine, fields),
        Content(header, headerSent, chunkedEncoding, hasBody, last, finished, trailer, lines, writes),
        output, outputEncodings, attached, sent)
    }

    constructor (server: Connection, req: nat, statusLine: Bytes, isHead: bool, http11: bool, keepAlive: bool)
      ensures this.server == server && this.req == req
      ensures hasBody == !isHead && useChunkedByDefault == http11 && shouldKeepAlive == keepAlive
      ensures Good(View()) && !attached && sent == [] && !headerSent && !finished && !last && header == []
      ensures writes == []
      ensures statusCode == 200 && this.statusLine == statusLine && fields == [] && lines == []
    {
      this.server, this.req := server, req;
      output, outputEncodings, header, headerSent, chunkedEncoding := [], [], [], false, false;
      useChunkedByDefault, shouldKeepAlive, hasBody, last := http11, keepAlive, !isHead, false;
      finished, attached, trailer, statusCode, this.statusLine, fields := false, false, [], 200, statusLine, [];
      lines, writes, sent := [], [], [];
    }

    /** The socket is this response's and takes data. */
    predicate Live()
      reads this, server
    {
      attached && server.current == this && server.writable
    }

    /** Whether the message has a body, once its header is settled. */
    predicate WillHaveBody()
      reads this
    {
      hasBody && (header == [] ==> BodyAllowed(statusCode))
    }

    twostate predicate Headed()
      reads this
    {
      && header != [] && View().setup == old(View()).setup
      && HeadedFrom(View().setup, HeadOf(old(View()).content), HeadOf(View().content))
    }

    twostate predicate Says(data: Bytes)
      reads this
    {
      GoesOn(old(View()).setup, old(View()).content, View().setup, View().content, data)
    }

    /** Sent and buffered so far. */
    ghost function Out(): Bytes
      reads this
    {
      sent + Flat(output)
    }

    /** The wire got what was sent, and nothing was sent unless the socket is ours. */
    twostate predicate Moved()
      reads this, server
    {
      && old(sent) <= sent
      && server.wire == old(server.wire) + sent[|old(sent)|..]
      && (!Live() ==> sent == old(sent))
    }

    /** `_buffer`: a string is added to a string that stands last, where the encodings allow it. */
    method Buffer(d: Data, e: Option<Encoding>)
      requires Aligned(output, outputEncodings) && (d.Buf? ==> e.None?)
      modifies this`output, this`outputEncodings
      ensures Aligned(output, outputEncodings) && Flat(output) == old(Flat(output)) + d.bytes
      ensures (d.bytes == [] ==> output == old(output)) && |output| <= |old(output)| + 1
      ensures d.Str? && e.None? && old(output) != [] && old(output)[|old(output)| - 1].Str? ==>
                |output| == |old(output)|
    {
      hide Flat;
      if d.bytes == [] { return; }
      var n := |output|;
      FlatPush(output, d);
      if n == 0 || d.Buf? {
        output, outputEncodings := output + [d], outputEncodings + [e];
        return;
      }
      if (e.Some? && outputEncodings[n - 1] == e) || (e.None? && output[n - 1].Str?) {
        assert output[n - 1].Str?;
        FlatMerge(output, d.bytes);
        output := output[n - 1 := Str(output[n - 1].bytes + d.bytes)];
        return;
      }
      output, outputEncodings := output + [d], outputEncodings + [e];
    }

    /** `_writeRaw`: straight to the socket, after what is buffered, if the socket is ours; else buffered. */
    method WriteRaw(d: Data, e: Option<Encoding>)
      requires Aligned(output, outputEncodings) && (d.Buf? ==> e.None?)
      modifies this`output, this`outputEncodings, this`sent, server`wire
      ensures Aligned(output, outputEncodings) && Out() == old(Out()) + d.bytes && Moved() && (Live() ==> output == [])
    {
      if Live() {
        Drain();
        Hand(d.bytes);
      } else {
        Buffer(d, e);
        Assoc(sent, old(Flat(output)), d.bytes);
      }
    }

    /** What is buffered goes to the socket, in order. */
    method Drain()
      requires Aligned(output, outputEncodings) && Live()
      modifies this`output, this`outputEncodings, this`sent, server`wire
      ensures output == [] && outputEncodings == [] && sent == old(Out()) && Moved()
    {
      while output != []
        invariant Aligned(output, outputEncodings) && Out() == old(Out()) && Moved()
      {
        var d := output[0];
        assert Flat(output) == d.bytes + Flat(output[1..]);
        Assoc(sent, d.bytes, Flat(output[1..]));
        Hand(d.bytes);
        output, outputEncodings := output[1..], outputEncodings[1..];
      }
    }

    /** `socket.write`. */
    method Hand(b: Bytes)
      requires Live()
      modifies this`sent, server`wire
      ensures sent == old(sent) + b && server.wire == old(server.wire) + b && Moved()
    {
      sent := sent + b;
      server.wire := server.wire + b;
    }

    /** `_send`: the header goes out with the first piece. */
    method Send(d: Data, e: Option<Encoding>)
      requires Aligned(output, outputEncodings) && (d.Buf? ==> e.None?) && (!headerSent ==> output == [])
      modifies this`output, this`outputEncodings, this`sent, this`headerSent, server`wire
      ensures Aligned(output, outputEncodings) && Moved() && (Live() ==> output == [])
      ensures headerSent && Out() == old(Out()) + ((if old(headerSent) then [] else header) + d.bytes)
    {
      var d := d;
      if !headerSent {
        if d.Str? {
          d := Str(header + d.bytes);
        } else {
          output, outputEncodings := [Str(header)] + output, [Some(Ascii)] + outputEncodings;
          assert output[1..] == [];
        }
        headerSent := true;
      }
      WriteRaw(d, e);
    }

    /** `writeHead`, once: the header is settled, and with it how the end of the message is found. */
    method WriteHead(statusCode: nat, line: Bytes, fields: seq<HttpHeader.Field>)
      returns (ghost all: seq<HttpHeader.Field>)
      requires Good(View()) && header == [] && !HttpHeader.Has(fields, HttpHeader.TransferEncoding)
      modifies this`header, this`headerSent, this`chunkedEncoding, this`hasBody, this`last
      ensures Good(View()) && !headerSent && header != []
      ensures header == HttpHeader.HeaderText(line, fields, hasBody, useChunkedByDefault, shouldKeepAlive)
      ensures hasBody == (old(hasBody) && BodyAllowed(statusCode))
      ensures all == HttpHeader.Sent(fields, hasBody, useChunkedByDefault, shouldKeepAlive)
      ensures last || !hasBody || chunkedEncoding || HttpHeader.Has(all, HttpHeader.ContentLength)
      ensures Determined(hasBody, chunkedEncoding, last, old(last), fields, useChunkedByDefault, shouldKeepAlive)
      ensures last <==>
                old(last) || HttpHeader.Closes(all) || HttpHeader.EndsByClose(fields, hasBody, useChunkedByDefault)
    {
      hide Flat, Lines, Body, Aligned, LastChunk;
      hide HttpHeader.Render, HttpHeader.Has, HttpHeader.Closes, HttpHeader.EndsByClose, HttpHeader.AnnouncesChunks;
      hide HttpHeader.LastBy, HttpHeader.HeaderText, HttpHeader.Sent;
      if !BodyAllowed(statusCode) { hasBody := false; }
      header, last, chunkedEncoding, all := HttpHeader.StoreHeader(line, fields, hasBody, useChunkedByDefault,
          shouldKeepAlive, last);
      headerSent := false;
    }

    /** `_implicitHeader`. */
    method ImplicitHeader()
      requires Good(View()) && header == []
      modifies this`header, this`headerSent, this`chunkedEncoding, this`hasBody, this`last
      ensures Good(View()) && !headerSent && Headed()
    {
      hide Flat, Lines, Body, Aligned, LastChunk, HttpHeader.HeaderText, Determined, HttpHeader.Has;
      var _ := WriteHead(statusCode, statusLine, fields);
    }

    /** Lines 607-622: a piece of the body, in its chunk if the message is chunked. */
    method SendPiece(chunk: Data, e: Option<Encoding>)
      requires Aligned(output, outputEncodings) && (chunk.Buf? ==> e.None?) && (!headerSent ==> output == [])
      modifies this`output, this`outputEncodings, this`sent, this`headerSent, server`wire
      ensures Aligned(output, outputEncodings) && Moved() && (Live() ==> output == [])
      ensures headerSent
      ensures Out() == old(Out()) + ((if old(headerSent) then [] else header) + Piece(chunkedEncoding, chunk.bytes))
    {
      hide Aligned, Flat, Hex;
      if chunkedEncoding && chunk.Str? {
        Send(Str(Hex(|chunk.bytes|) + CRLF + chunk.bytes + CRLF), e);
      } else if chunkedEncoding {
        Send(Str(Hex(|chunk.bytes|) + CRLF), None);
        ghost var one := sent;
        Send(chunk, None);
        Handed(old(server.wire), old(sent), one, sent);
        ghost var two := sent;
        Send(Str(CRLF), None);
        Handed(old(server.wire), old(sent), two, sent);
        ThreeSends(old(Out()), if old(headerSent) then [] else header, Hex(|chunk.bytes|), chunk.bytes, CRLF);
      } else {
        Send(chunk, e);
      }
    }

    method EnsureHeader()
      requires Good(View())
      modifies this`header, this`headerSent, this`chunkedEncoding, this`hasBody, this`last
      ensures Good(View()) && Headed() && (old(header) != [] ==> View() == old(View()))
    {
      hide Good, HeadIs;
      if header == [] { ImplicitHeader(); }
    }

    /** One more piece of the body. */
    method Append(chunk: Data, e: Option<Encoding>)
      requires Good(View()) && header != [] && !finished && hasBody && chunk.bytes != [] && (chunk.Buf? ==> e.None?)
      modifies this`output, this`outputEncodings, this`sent, this`headerSent, this`writes, server`wire
      ensures Good(View()) && Moved() && writes == old(writes) + [chunk.bytes] && (Live() ==> output == [])
    {
      hide Good, Aligned, Flat, Piece;
      ghost var v := View();
      GoodMeans(v);
      SendPiece(chunk, e);
      writes := writes + [chunk.bytes];
      WriteGood(v, View(), chunk.bytes);
    }

    /** `write`: the data joins the body; a message without a body ignores it. */
    method WriteBody(chunk: Data, e: Option<Encoding>)
      requires Good(View()) && !finished && (chunk.Buf? ==> e.None?)
      modifies this`output, this`outputEncodings, this`sent, server`wire
      modifies this`header, this`headerSent, this`chunkedEncoding, this`hasBody, this`last, this`writes
      ensures Good(View()) && Moved() && Headed() && (Live() && old(output) == [] ==> output == [])
      ensures Says(chunk.bytes)
      ensures writes == old(writes) + if hasBody && chunk.bytes != [] then [chunk.bytes] else []
    {
      hide Good, HttpHeader.HeaderText, Determined, HeadedFrom;
      EnsureHeader();
      if !hasBody || chunk.bytes == [] { return; }
      Append(chunk, e);
    }

    /** `end`, up to where the message is finished: by the fast path or by a write and the last chunk. */
    method EndBody(data: Option<Data>, e: Option<Encoding>)
      requires Good(View()) && !finished && (data.Some? && data.value.Buf? ==> e.None?)
      modifies this`output, this`outputEncodings, this`sent, server`wire
      modifies this`header, this`headerSent, this`chunkedEncoding, this`hasBody, this`last, this`writes, this`finished
      ensures Good(View()) && Moved() && finished && (Live() ==> output == [])
      ensures Says(GivenBytes(data))
    {
      hide Good, HeadedFrom, GoesOn, Aligned;
      EnsureHeader();
      var given := data.Some? && data.value != Str([]) && hasBody;
      var hot := !headerSent && given && data.value.Str? && output == [] && Live();
      ghost var c := View().content;
      if hot {
        HotEnd(data.value.bytes);
      } else {
        SlowEnd(given, data, e);
      }
      GoesOnBy(View().setup, old(View()).content, c, View().content, GivenBytes(data));
    }

    /** Lines 689-703: the data, if any, then the end. */
    method SlowEnd(given: bool, data: Option<Data>, e: Option<Encoding>)
      requires Good(View()) && header != [] && !finished
      requires given ==> hasBody && data.Some? && (data.value.Buf? ==> e.None?)
      modifies this`output, this`outputEncodings, this`sent, server`wire
      modifies this`header, this`headerSent, this`chunkedEncoding, this`hasBody, this`last, this`writes, this`finished
      ensures Good(View()) && Moved() && finished && (Live() ==> output == [])
      ensures writes == old(writes) + if given && data.value.bytes != [] then [data.value.bytes] else []
      ensures hasBody == old(hasBody) && header == old(header)
      ensures last == old(last) && chunkedEncoding == old(chunkedEncoding)
    {
      hide Good, HeadIs;
      if given { WriteBody(data.value, e); }
      ghost var middle := sent;
      SendLast();
      Handed(old(server.wire), old(sent), middle, sent);
    }

    /** Lines 694-703: the last chunk, or nothing but what was buffered. */
    method SendLast()
      requires Good(View()) && header != [] && !finished
      modifies this`output, this`outputEncodings, this`sent, this`headerSent, this`finished, server`wire
      ensures Good(View()) && Moved() && (Live() ==> output == []) && finished
    {
      hide Good, Aligned, Flat, LastChunk;
      ghost var v := View();
      GoodMeans(v);
      var last := if chunkedEncoding then LastChunk(trailer) else [];
      Send(Str(last), None);
      finished := true;
      EndGood(v, View());
    }

    /** Lines 679-687: header, data and end in one write. */
    method HotEnd(data: Bytes)
      requires Good(View()) && header != [] && !headerSent && hasBody && data != [] && Live()
      modifies this`sent, this`headerSent, this`writes, this`finished, server`wire
      ensures Good(View()) && Moved() && finished && writes == old(writes) + [data] && Live() && output == []
    {
      hide Good, HotText;
      ghost var v := View();
      GoodMeans(v);
      Hand(HotText(chunkedEncoding, header, data, trailer));
      headerSent := true;
      writes := writes + [data];
      finished := true;
      HotGood(v, View(), data);
    }

    /** `addTrailers`: what a trailer will say, if the message is not finished yet. */
    method AddTrailers(more: seq<HttpHeader.Field>)
      requires Good(View())
      modifies this`trailer, this`lines
      ensures Good(View()) && trailer == Lines(HttpHeader.Render(more))
      ensures lines == if finished then old(lines) else HttpHeader.Render(more)
    {
      hide Flat, Body, LastChunk, Aligned, HttpHeader.Has, Lines, HttpHeader.Render;
      trailer := TrailerText(more);
      if !finished { lines := HttpHeader.Render(more); }
    }

    /** What `write` does to the line. */
    method WriteInLine(chunk: Data, e: Option<Encoding>, ghost i: nat)
      requires Owned(server, server.all) && i < |server.all| && server.all[i] == this
      requires Good(View()) && !finished && (chunk.Buf? ==> e.None?)
      modifies this`output, this`outputEncodings, this`sent, server`wire
      modifies this`header, this`headerSent, this`chunkedEncoding, this`hasBody, this`last, this`writes
      ensures Good(View()) && Moved() && ViewsOf(server.all) == old(ViewsOf(server.all))[i := View()]
      ensures Says(chunk.bytes) && (Live() && old(output) == [] ==> output == [])
    {
      hide Good, GoesOn, Aligned;
      WriteBody(chunk, e);
    }

    /** `write` by a handler, at any time before the end: the others do not notice, and the line stays in order. */
    method Write(chunk: Data, e: Option<Encoding>, ghost i: nat)
      requires server.Valid() && i < |server.all| && server.all[i] == this
      requires !finished && (chunk.Buf? ==> e.None?)
      modifies this, server`wire
      ensures server.Valid() && server.Views() == old(server.Views())[i := View()]
      ensures Says(chunk.bytes) && !finished
    {
      hide Settled, Good, Flowing, Owned, InLine, ViewsOf, GoesOn, Touched;
      ghost var l := server.LineNow();
      ViewAt(server.all, i);
      PlaceOf(l, i);
      FlowingMeans(l, i);
      CurrentInLine(server.all, server.done, server.current, server.outgoing);
      WriteInLine(chunk, e, i);
      TouchInto(l, server.LineNow(), i, View());
      TouchSettled(l, i, View());
    }

    /** What `end` does to the line before the response is let go. */
    method EndInLine(data: Option<Data>, e: Option<Encoding>, ghost i: nat)
      requires Owned(server, server.all) && i < |server.all| && server.all[i] == this
      requires Good(View()) && !finished && (data.Some? && data.value.Buf? ==> e.None?)
      modifies this`output, this`outputEncodings, this`sent, server`wire
      modifies this`header, this`headerSent, this`chunkedEncoding, this`hasBody, this`last, this`writes, this`finished
      ensures Good(View()) && Moved() && ViewsOf(server.all) == old(ViewsOf(server.all))[i := View()]
      ensures finished && (Live() ==> output == []) && Says(GivenBytes(data))
    {
      hide Good, GoesOn, Aligned;
      EndBody(data, e);
    }

    /** Everything but the finish handler: if it is not to be called, the line flows on. */
    method EndSettled(data: Option<Data>, e: Option<Encoding>, ghost i: nat)
      requires server.Valid() && i < |server.all| && server.all[i] == this
      requires !finished && (data.Some? && data.value.Buf? ==> e.None?)
      modifies this`output, this`outputEncodings, this`sent, server`wire
      modifies this`header, this`headerSent, this`chunkedEncoding, this`hasBody, this`last, this`writes, this`finished
      ensures Settled(server.LineNow()) && server.Views() == old(server.Views())[i := View()]
      ensures (output == [] && server.current == this) || (output != [] && Flowing(server.LineNow()))
      ensures finished && (output == [] ==> attached) && Says(GivenBytes(data))
    {
      hide Settled, Good, Flowing, Owned, InLine, ViewsOf, GoesOn, Touched;
      ghost var l := server.LineNow();
      ViewAt(server.all, i);
      PlaceOf(l, i);
      CurrentInLine(server.all, server.done, server.current, server.outgoing);
      EndInLine(data, e, i);
      TouchInto(l, server.LineNow(), i, View());
      EndStep(l, i, View(), server.current == this);
    }

    /** Lines 705-710: a response that has sent all it has lets the socket go. */
    method LetGo(ghost i: nat)
      requires server.Linked() && i < |server.all| && server.all[i] == this && Settled(server.LineNow()) && finished
      requires (output == [] && server.current == this) || (output != [] && Flowing(server.LineNow()))
      modifies server, server.all
      ensures server.Valid() && server.all == old(server.all) && server.aborted == old(server.aborted)
      ensures SameMessages(server.Views(), old(server.Views())) && (old(server.closing) ==> server.closing)
      ensures i < server.done || output != []
      ensures old(server.writable) ==> server.writable || server.closing
    {
      hide Settled, Flowing, Owned, SameMessages, ViewsOf;
      SameRefl(server.Views());
      ClosingFree(server.LineNow());
      if output == [] && server.current == this {
        OnlyOnce(server, server.all, server.done, i);
        server.Finish();
      }
    }

    /** Lines 653-712 on a message that is not finished. */
    method EndOnce(data: Option<Data>, e: Option<Encoding>, ghost i: nat)
      requires server.Valid() && i < |server.all| && server.all[i] == this
      requires !finished && (data.Some? && data.value.Buf? ==> e.None?)
      modifies server, server.all
      ensures server.Valid() && server.all == old(server.all) && server.aborted == old(server.aborted)
      ensures old(server.closing) ==> server.closing
      ensures finished && (i < server.done || output != []) && Says(GivenBytes(data)) && server.Views()[i] == View()
      ensures SameMessages(server.Views(), old(server.Views())[i := View()])
      ensures old(server.writable) ==> server.writable || server.closing
    {
      hide Settled, Flowing, Owned, InLine, SameMessages, ViewsOf, GoesOn;
      ViewAt(server.all, i);
      EndSettled(data, e, i);
      ghost var v := View();
      LetGo(i);
      ViewAt(server.all, i);
      SameWith(server.Views(), old(server.Views()), i, v);
    }

    /**
     * `end` by a handler, in any order: a response that has the socket lets it go; any other keeps its message
     * till its turn.
     */
    method End(data: Option<Data>, e: Option<Encoding>, ghost i: nat)
      requires server.Valid() && i < |server.all| && server.all[i] == this
      requires data.Some? && data.value.Buf? ==> e.None?
      modifies server, server.all
      ensures server.Valid() && server.all == old(server.all) && server.aborted == old(server.aborted)
      ensures old(server.closing) ==> server.closing
      ensures old(finished) ==> server.LineNow() == old(server.LineNow())
      ensures !old(finished) ==> Says(GivenBytes(data)) && (i < server.done || output != [])
      ensures finished && server.Views()[i] == View()
      ensures SameMessages(server.Views(), old(server.Views())[i := View()])
      ensures old(server.writable) ==> server.writable || server.closing
    {
      hide Settled, Flowing, Owned, InLine, ViewsOf, GoesOn, SameMessages;
      if finished {
        ViewAt(server.all, i);
        assert server.Views()[i := View()] == server.Views();
        SameRefl(server.Views());
        return;
      }
      EndOnce(data, e, i);
    }

    /** `writeHead` by a handler. */
    method Head(statusCode: nat, line: Bytes, more: seq<HttpHeader.Field>, ghost i: nat)
      requires server.Valid() && i < |server.all| && server.all[i] == this
      requires header == [] && !HttpHeader.Has(more, HttpHeader.TransferEncoding)
      modifies this`header, this`headerSent, this`chunkedEncoding, this`hasBody, this`last
      ensures server.Valid() && server.Views() == old(server.Views())[i := View()]
      ensures HeadIs(View().setup, HeadOf(old(View()).content), HeadOf(View().content), statusCode, line, more)
      ensures View().setup == old(View()).setup && !finished
    {
      hide Settled, Good, Flowing, Owned, InLine, ViewsOf, HttpHeader.Has, HttpHeader.HeaderText;
      hide Determined, HeadedFrom;
      ghost var l := server.LineNow();
      ViewAt(server.all, i);
      PlaceOf(l, i);
      UnfinishedHead(View());
      HeadInLine(statusCode, line, more, i);
      TouchQuietly(l, i, View());
    }

    method HeadInLine(statusCode: nat, line: Bytes, more: seq<HttpHeader.Field>, ghost i: nat)
      requires Owned(server, server.all) && i < |server.all| && server.all[i] == this
      requires Good(View()) && header == [] && !HttpHeader.Has(more, HttpHeader.TransferEncoding)
      modifies this`header, this`headerSent, this`chunkedEncoding, this`hasBody, this`last
      ensures Good(View()) && header != [] && ViewsOf(server.all) == old(ViewsOf(server.all))[i := View()]
      ensures HeadIs(View().setup, HeadOf(old(View()).content), HeadOf(View().content), statusCode, line, more)
    {
      hide Good, HttpHeader.Has, HttpHeader.HeaderText, Determined, HeadedFrom;
      var _ := WriteHead(statusCode, line, more);
    }

    /** `statusCode`, `setHeader` and `removeHeader` by a handler, before the header is settled. */
    method Prepare(code: nat, line: Bytes, rendered: seq<HttpHeader.Field>, ghost i: nat)
      requires server.Valid() && i < |server.all| && server.all[i] == this
      requires header == [] && !HttpHeader.Has(rendered, HttpHeader.TransferEncoding)
      modifies this`statusCode, this`statusLine, this`fields
      ensures server.Valid() && server.Views() == old(server.Views())[i := View()]
      ensures statusCode == code && statusLine == line && fields == rendered
    {
      hide Settled, Good, Flowing, Owned, InLine, ViewsOf, HttpHeader.Has;
      ghost var l := server.LineNow();
      ViewAt(server.all, i);
      PlaceOf(l, i);
      PrepareInLine(code, line, rendered, i);
      TouchQuietly(l, i, View());
    }

    method PrepareInLine(code: nat, line: Bytes, rendered: seq<HttpHeader.Field>, ghost i: nat)
      requires Owned(server, server.all) && i < |server.all| && server.all[i] == this
      requires Good(View()) && header == [] && !HttpHeader.Has(rendered, HttpHeader.TransferEncoding)
      modifies this`statusCode, this`statusLine, this`fields
      ensures Good(View()) && ViewsOf(server.all) == old(ViewsOf(server.all))[i := View()]
      ensures statusCode == code && statusLine == line && fields == rendered
    {
      hide HttpHeader.Has, Flat, Body, LastChunk, Aligned;
      statusCode, statusLine, fields := code, line, rendered;
    }

    /** `addTrailers` by a handler, at any time before the end. */
    method Trailers(more: seq<HttpHeader.Field>, ghost i: nat)
      requires server.Valid() && i < |server.all| && server.all[i] == this && !finished
      modifies this`trailer, this`lines
      ensures server.Valid() && server.Views() == old(server.Views())[i := View()]
      ensures lines == HttpHeader.Render(more)
    {
      hide Settled, Good, Flowing, Owned, InLine, ViewsOf, HttpHeader.Render;
      ghost var l := server.LineNow();
      ViewAt(server.all, i);
      PlaceOf(l, i);
      TrailersInLine(more, i);
      TouchQuietly(l, i, View());
    }

    method TrailersInLine(more: seq<HttpHeader.Field>, ghost i: nat)
      requires Owned(server, server.all) && i < |server.all| && server.all[i] == this
      requires Good(View()) && !finished
      modifies this`trailer, this`lines
      ensures Good(View()) && ViewsOf(server.all) == old(ViewsOf(server.all))[i := View()]
      ensures lines == HttpHeader.Render(more)
    {
      hide Good, HttpHeader.Render, Lines;
      AddTrailers(more);
    }
  }

  // ------------------------------------------------------------------ the line of responses

  /**
   * All responses of a connection in the order of their requests. The first `done` are over; the next one has
   * the socket if it is `busy`.
   */
  datatype Line = Line(
    views: seq<State>, done: nat, busy: bool, writable: bool, closing: bool, aborted: bool,
    incoming: seq<nat>, wire: Bytes)

  function Begun(l: Line): nat {
    l.done + if l.busy then 1 else 0
  }

  function SentBy(views: seq<State>, n: nat): Bytes
    requires n <= |views|
  {
    if n == 0 then [] else SentBy(views, n - 1) + views[n - 1].sent
  }

  ghost predicate Done(v: State) {
    v.content.finished && v.output == [] && !v.attached
  }

  ghost predicate Waiting(v: State) {
    !v.attached && v.sent == []
  }

  /** `incoming` lists the requests still to be answered, unless they were aborted. */
  ghost predicate Listed(l: Line) {
    if l.aborted then l.incoming == []
    else
      && |l.incoming| + l.done == |l.views|
      && forall j :: 0 <= j < |l.incoming| ==> l.incoming[j] == l.views[l.done + j].setup.req
  }

  /** The wire carries what the responses sent, one after the other. */
  ghost predicate Settled(l: Line) {
    && Begun(l) <= |l.views|
    && (forall i :: 0 <= i < |l.views| ==> Good(l.views[i]))
    && (forall i :: 0 <= i < l.done ==> Done(l.views[i]))
    && (l.busy ==> l.views[l.done].attached && !l.closing)
    && (l.closing ==> l.done > 0 && l.views[l.done - 1].content.last)
    && (forall i :: 0 <= i < l.done && l.views[i].content.last ==> l.closing && i == l.done - 1)
    && (forall i :: Begun(l) <= i < |l.views| ==> Waiting(l.views[i]))
    && l.wire == SentBy(l.views, Begun(l))
    && Listed(l)
  }

  /**
   * Nothing is held up: the response that has an open socket has sent all it has and is not finished, and a
   * free socket is wanted by nobody.
   */
  ghost predicate Flowing(l: Line) {
    && (l.busy && l.done < |l.views| && l.writable ==>
          !l.views[l.done].content.finished && l.views[l.done].output == [])
    && (!l.busy && !l.closing ==> l.done == |l.views|)
  }

  ghost predicate SameMessages(a: seq<State>, b: seq<State>) {
    |a| == |b| && forall i :: 0 <= i < |a| ==> SameMessage(a[i], b[i])
  }

  /** The last in line may have been marked as the last of all. */
  ghost predicate MayBeMarked(a: seq<State>, b: seq<State>) {
    a == b || (b != [] && var n := |b| - 1; a == b[n := b[n].(content := b[n].content.(last := true))])
  }

  lemma SameRefl(a: seq<State>)
    ensures SameMessages(a, a)
  {
  }

  lemma SameTrans(a: seq<State>, b: seq<State>, c: seq<State>)
    requires SameMessages(a, b) && SameMessages(b, c)
    ensures SameMessages(a, c)
  {
    forall i | 0 <= i < |a|
      ensures SameMessage(a[i], c[i])
    {
      assert SameMessage(a[i], b[i]) && SameMessage(b[i], c[i]);
    }
  }

  lemma SameBut(a: seq<State>, i: nat, v: State)
    requires i < |a| && SameMessage(v, a[i])
    ensures SameMessages(a[i := v], a)
  {
  }

  /** Whether the socket is closed does not matter to what was sent. */
  lemma SettledAnyway(l: Line)
    requires Settled(l)
    ensures forall w: bool :: Settled(l.(writable := w))
  {
    hide Good;
  }

  lemma {:induction false} SentBySame(a: seq<State>, b: seq<State>, n: nat)
    requires n <= |a| && n <= |b| && forall i :: 0 <= i < n ==> a[i].sent == b[i].sent
    ensures SentBy(a, n) == SentBy(b, n)
  {
    if n == 0 {
    } else {
      SentBySame(a, b, n - 1);
    }
  }

  /** A response that is not over moves on; the wire gets what it sends. */
  ghost function Touched(l: Line, i: nat, v: State): Line
    requires i < |l.views| && |l.views[i].sent| <= |v.sent|
  {
    l.(views := l.views[i := v], wire := l.wire + v.sent[|l.views[i].sent|..])
  }

  lemma TouchSettled(l: Line, i: nat, v: State)
    requires Settled(l) && l.done <= i < |l.views| && Good(v) && v.setup.req == l.views[i].setup.req
    requires v.attached == l.views[i].attached
    requires l.views[i].sent <= v.sent && (v.sent == l.views[i].sent || (l.busy && i == l.done))
    ensures Settled(Touched(l, i, v))
    ensures Flowing(l) && (!l.busy || i != l.done || !l.writable || (!v.content.finished && v.output == [])) ==>
              Flowing(Touched(l, i, v))
  {
    hide Good, SentBy, Listed;
    var views, more := l.views[i := v], v.sent[|l.views[i].sent|..];
    TouchWire(l.views, Begun(l), i, v);
    TouchListed(l, i, v, l.wire + more);
    assert forall j :: 0 <= j < |views| && j != i ==> views[j] == l.views[j];
  }

  lemma FlowingMeans(l: Line, i: nat)
    requires Flowing(l) && i < |l.views|
    ensures l.busy && i == l.done && l.writable ==> !l.views[i].content.finished && l.views[i].output == []
  {
  }

  /** The line is the one in which response `i` has moved on. */
  ghost predicate IsTouched(l: Line, m: Line, i: nat, v: State)
    requires i < |l.views| && |l.views[i].sent| <= |v.sent|
  {
    && m.views == l.views[i := v] && m.wire == l.wire + v.sent[|l.views[i].sent|..]
    && m.done == l.done && m.busy == l.busy && m.writable == l.writable && m.closing == l.closing
    && m.aborted == l.aborted && m.incoming == l.incoming
  }

  lemma TouchInto(l: Line, m: Line, i: nat, v: State)
    requires i < |l.views| && |l.views[i].sent| <= |v.sent| && IsTouched(l, m, i, v)
    ensures m == Touched(l, i, v)
  {
  }

  /** What a handler does without sending anything. */
  lemma TouchQuietly(l: Line, i: nat, v: State)
    requires Settled(l) && Flowing(l) && l.done <= i < |l.views| && Good(v)
    requires v.setup.req == l.views[i].setup.req && v.attached == l.views[i].attached && v.sent == l.views[i].sent
    requires v.content.finished == l.views[i].content.finished && v.output == l.views[i].output
    ensures Settled(l.(views := l.views[i := v])) && Flowing(l.(views := l.views[i := v]))
  {
    hide Settled, Flowing, Good;
    FlowingMeans(l, i);
    TouchSettled(l, i, v);
    assert l.wire + v.sent[|v.sent|..] == l.wire;
  }

  lemma TouchWire(views: seq<State>, n: nat, i: nat, v: State)
    requires i < |views| && n <= |views| && views[i].sent <= v.sent && (v.sent == views[i].sent || n == i + 1)
    ensures SentBy(views[i := v], n) == SentBy(views, n) + v.sent[|views[i].sent|..]
  {
    var was := views[i].sent;
    assert v.sent == was + v.sent[|was|..];
    if n == i + 1 {
      SentBySame(views, views[i := v], i);
      Assoc(SentBy(views, i), was, v.sent[|was|..]);
    } else {
      SentBySame(views, views[i := v], n);
      assert v.sent[|was|..] == [];
    }
  }

  lemma TouchListed(l: Line, i: nat, v: State, wire: Bytes)
    requires Listed(l) && i < |l.views| && v.setup.req == l.views[i].setup.req
    ensures Listed(l.(views := l.views[i := v], wire := wire))
  {
  }

  lemma LastGood(v: State)
    requires Good(v)
    ensures Good(v.(content := v.content.(last := true)))
  {
  }

  lemma StopFlow(l: Line)
    requires Flowing(l)
    ensures Flowing(l.(writable := false))
  {
  }

  lemma SameFront(now: seq<State>, was: seq<State>, v: State)
    requires SameMessages(now, was + [v])
    ensures SameMessages(now[..|was|], was) && |now| == |was| + 1 && SameMessage(now[|was|], v)
  {
    assert forall i :: 0 <= i < |was| ==> SameMessage(now[i], (was + [v])[i]);
    assert SameMessage(now[|was|], (was + [v])[|was|]);
  }

  lemma AttachGood(v: State, attached: bool)
    requires Good(v)
    ensures Good(v.(attached := attached))
  {
  }

  lemma DrainGood(v: State, w: State)
    requires Good(v) && w == v.(output := [], encodings := [], sent := OutOf(v))
    ensures Good(w)
  {
  }

  lemma SettledMeans(l: Line)
    requires Settled(l)
    ensures Begun(l) <= |l.views|
    ensures (forall i :: 0 <= i < |l.views| ==> Good(l.views[i]) && Aligned(l.views[i].output, l.views[i].encodings))
    ensures l.busy ==> l.views[l.done].attached && !l.closing
  {
  }

  /** A response that is not finished is not over, and one without the socket cannot send. */
  lemma PlaceOf(l: Line, i: nat)
    requires Settled(l) && i < |l.views|
    ensures Good(l.views[i]) && (!l.views[i].content.finished || l.views[i].content.header == [] ==> l.done <= i)
    ensures l.views[i].attached ==> l.busy && i == l.done
    ensures l.busy && i == l.done ==> l.views[i].attached
    ensures l.done <= i && !l.views[i].attached ==> l.views[i].sent == []
  {
  }

  /** A finished message that has sent nothing is all in the buffer, and is not empty. */
  lemma FinishedHolds(v: State)
    requires Good(v) && v.content.finished && v.sent == []
    ensures v.output != []
  {
  }

  lemma HoldsUnlessAttached(v: State, w: State)
    requires Good(w) && w.content.finished && w.attached == v.attached
    requires !v.attached ==> v.sent == [] && w.sent == v.sent
    ensures w.output == [] ==> w.attached
  {
    if !w.attached { FinishedHolds(w); }
  }

  /** A response ends: it waits, or all is sent and the finish handler is due, or the socket is closed. */
  lemma EndStep(l: Line, i: nat, v: State, current: bool)
    requires Settled(l) && Flowing(l) && l.done <= i < |l.views| && Good(v) && v.setup.req == l.views[i].setup.req
    requires v.attached == l.views[i].attached
    requires v.content.finished && l.views[i].sent <= v.sent
    requires l.busy && i == l.done ==> current
    requires if v.attached && current && l.writable then v.output == [] else v.sent == l.views[i].sent
    ensures Settled(Touched(l, i, v)) && (v.output == [] ==> v.attached)
    ensures (v.output == [] && current) || (v.output != [] && Flowing(Touched(l, i, v)))
  {
    hide Settled, Flowing, Good;
    PlaceOf(l, i);
    TouchSettled(l, i, v);
    HoldsUnlessAttached(l.views[i], v);
  }

  lemma ClosingFree(l: Line)
    requires Settled(l)
    ensures l.closing ==> !l.busy
  {
  }

  /** Everybody is the same except for `i`, which is now as it is. */
  lemma SameWith(now: seq<State>, was: seq<State>, i: nat, v: State)
    requires i < |was| && SameMessages(now, was[i := v])
    ensures |now| == |was| && SameMessage(now[i], v) && SameMessages(now, was[i := now[i]])
  {
    forall j | 0 <= j < |was|
      ensures SameMessage(now[j], was[i := now[i]][j])
    {
      assert SameMessage(now[j], was[i := v][j]);
    }
    assert SameMessage(now[i], was[i := v][i]);
  }

  /** The finish handler lets go of a response that is all sent. */
  ghost function Released(l: Line): Line
    requires l.done < |l.views|
  {
    var v := l.views[l.done];
    l.(views := l.views[l.done := v.(attached := false)], done := l.done + 1, busy := false, closing := v.content.last,
       incoming := if l.incoming == [] then [] else l.incoming[1..])
  }

  lemma ReleaseSettled(l: Line)
    requires Settled(l) && l.busy && l.views[l.done].content.finished && l.views[l.done].output == []
    ensures l.incoming == [] || l.incoming[0] == l.views[l.done].setup.req
    ensures Settled(Released(l)) && SameMessages(Released(l).views, l.views)
  {
    hide Good, SameMessages;
    var v := l.views[l.done];
    AttachGood(v, false);
    SentBySame(l.views, Released(l).views, l.done + 1);
    SameBut(l.views, l.done, v.(attached := false));
  }

  /** The next response gets the socket. */
  lemma AssignSettled(l: Line)
    requires Settled(l) && !l.busy && l.done < |l.views| && !l.closing
    ensures var v := l.views[l.done]; Settled(l.(views := l.views[l.done := v.(attached := true)], busy := true))
  {
    hide Good;
    AttachGood(l.views[l.done], true);
    var views := l.views[l.done := l.views[l.done].(attached := true)];
    SentBySame(l.views, views, l.done);
  }

  /** Another request arrives. */
  lemma ArriveSettled(l: Line, v: State)
    requires Settled(l) && !l.aborted && Good(v) && Waiting(v)
    ensures Settled(l.(views := l.views + [v], incoming := l.incoming + [v.setup.req]))
  {
    hide Good;
    SentBySame(l.views, l.views + [v], Begun(l));
  }

  // ------------------------------------------------------------------ what the client gets

  function Messages(views: seq<State>, n: nat): Bytes
    requires n <= |views|
  {
    if n == 0 then [] else Messages(views, n - 1) + Message(views[n - 1])
  }

  lemma {:induction false} DoneSent(views: seq<State>, n: nat)
    requires n <= |views| && forall i :: 0 <= i < n ==> Good(views[i]) && Done(views[i])
    ensures SentBy(views, n) == Messages(views, n)
  {
    hide Good, Message;
    if n == 0 {
    } else {
      DoneSent(views, n - 1);
      assert Good(views[n - 1]) && Done(views[n - 1]);
      DoneMessage(views[n - 1]);
    }
  }

  lemma DoneMessage(v: State)
    requires Good(v) && v.output == []
    ensures v.sent == Message(v)
  {
  }

  lemma BegunMessage(v: State)
    requires Good(v)
    ensures v.sent <= Message(v)
  {
  }

  /** The wire: the complete responses in the order of the requests, then as much of the present one as was sent. */
  ghost predicate InOrder(l: Line) {
    && Begun(l) <= |l.views|
    && (forall i :: 0 <= i < l.done ==> l.views[i].content.finished)
    && l.wire == Messages(l.views, l.done) + (if l.busy then l.views[l.done].sent else [])
    && (l.busy ==> l.views[l.done].sent <= Message(l.views[l.done]))
  }

  lemma WireInOrder(l: Line)
    requires Settled(l)
    ensures InOrder(l)
  {
    hide Good, Message;
    DoneSent(l.views, l.done);
    if l.busy { BegunMessage(l.views[l.done]); }
  }

  /** The messages from `m` on. */
  function After(views: seq<State>, m: nat, n: nat): Bytes
    requires m <= n <= |views|
  {
    if m == n then [] else After(views, m, n - 1) + Message(views[n - 1])
  }

  lemma {:induction false} MessagesSplit(views: seq<State>, m: nat, n: nat)
    requires m <= n <= |views|
    ensures Messages(views, n) == Messages(views, m) + After(views, m, n)
  {
    hide Message;
    if m < n {
      MessagesSplit(views, m, n - 1);
      Assoc(Messages(views, m), After(views, m, n - 1), Message(views[n - 1]));
    }
  }

  /**
   * A reader who has come to the body of a chunked response reads what was written, and finds the next message
   * after it.
   */
  lemma BodyReadable(l: Line, i: nat)
    requires Settled(l) && i < l.done && l.views[i].content.chunked
    requires forall j :: 0 <= j < |l.views[i].content.lines| ==> Clean(l.views[i].content.lines[j])
    ensures var at := |Messages(l.views, i)| + |l.views[i].content.header|;
            var next := |Messages(l.views, i + 1)|;
            at <= next <= |l.wire| && Decode(l.wire[at..]) == Some((Concat(l.views[i].content.writes), l.wire[next..]))
  {
    hide Decode, Chunks, LastChunk, Messages, After, Lines, Concat, Settled, Message;
    WireSplit(l, i);
    DoneChunked(l, i);
    var v := l.views[i];
    BodyAt(Messages(l.views, i), v.content.header, v.content.writes, v.content.lines, RestOf(l, i + 1), l.wire);
  }

  /** What the wire carries from message `i` on. */
  ghost function RestOf(l: Line, i: nat): Bytes
    requires i <= l.done && Begun(l) <= |l.views|
  {
    After(l.views, i, l.done) + if l.busy then l.views[l.done].sent else []
  }

  lemma WireSplit(l: Line, i: nat)
    requires Settled(l) && i < l.done
    ensures Begun(l) <= |l.views| && l.wire == Messages(l.views, i + 1) + RestOf(l, i + 1)
    ensures Messages(l.views, i + 1) == Messages(l.views, i) + Message(l.views[i])
  {
    hide Messages, After, Message, Good, SentBy;
    WireInOrder(l);
    MessagesSplit(l.views, i + 1, l.done);
    MessagesNext(l.views, i);
    Assoc(Messages(l.views, i + 1), After(l.views, i + 1, l.done), if l.busy then l.views[l.done].sent else []);
  }

  lemma DoneChunked(l: Line, i: nat)
    requires Settled(l) && i < l.done && l.views[i].content.chunked
    ensures var c := l.views[i].content;
            && Message(l.views[i]) == c.header + Chunks(c.writes) + LastChunk(Lines(c.lines))
            && forall j :: 0 <= j < |c.writes| ==> c.writes[j] != []
  {
    hide Chunks, LastChunk, Lines, Concat, Flat, SentBy;
    assert Good(l.views[i]) && Done(l.views[i]);
    FinishedChunked(l.views[i]);
  }

  lemma FinishedChunked(v: State)
    requires Good(v) && v.content.finished && v.content.chunked
    ensures Message(v) == v.content.header + Chunks(v.content.writes) + LastChunk(Lines(v.content.lines))
    ensures forall j :: 0 <= j < |v.content.writes| ==> v.content.writes[j] != []
  {
    hide Chunks, LastChunk, Lines, Concat, Flat;
  }

  lemma MessagesNext(views: seq<State>, i: nat)
    requires i < |views|
    ensures Messages(views, i + 1) == Messages(views, i) + Message(views[i])
  {
  }

  lemma BodyAt(before: Bytes, header: Bytes, writes: seq<Bytes>, lines: seq<Bytes>, rest: Bytes, wire: Bytes)
    requires forall j :: 0 <= j < |lines| ==> Clean(lines[j])
    requires forall j :: 0 <= j < |writes| ==> writes[j] != []
    requires wire == before + (header + Chunks(writes) + LastChunk(Lines(lines))) + rest
    ensures var at := |before| + |header|; var next := |before + (header + Chunks(writes) + LastChunk(Lines(lines)))|;
            at <= next <= |wire| && Decode(wire[at..]) == Some((Concat(writes), wire[next..]))
  {
    hide Decode, Chunks, LastChunk, Lines, Concat;
    var body, last := Chunks(writes), LastChunk(Lines(lines));
    FourParts(before, header, body, last, rest);
    assert wire[|before| + |header|..] == body + last + rest;
    assert wire[|before + (header + body + last)|..] == rest;
    DecodeChunks(writes, lines, rest);
  }

  lemma FourParts(a: Bytes, b: Bytes, c: Bytes, d: Bytes, e: Bytes)
    ensures (a + (b + c + d)) + e == (a + b) + (c + d + e)
  {
  }

  /** The responses are objects of their own. */
  ghost predicate Owned(c: Connection, all: seq<Response>) {
    && (forall i :: 0 <= i < |all| ==> all[i].server == c)
    && (forall i, j :: 0 <= i < j < |all| ==> all[i] != all[j])
  }

  ghost predicate InLine(all: seq<Response>, done: nat, current: Response?, outgoing: seq<Response>) {
    && done <= |all|
    && (current != null ==> done < |all| && all[done] == current)
    && outgoing == all[if current == null then done else done + 1..]
  }

  ghost function ViewsOf(all: seq<Response>): (views: seq<State>)
    reads all
    ensures |views| == |all|
  {
    seq(|all|, i requires 0 <= i < |all| reads all => all[i].View())
  }

  lemma ViewAt(all: seq<Response>, i: nat)
    requires i < |all|
    ensures ViewsOf(all)[i] == all[i].View()
  {
  }

  lemma OnlyOnce(c: Connection, all: seq<Response>, i: nat, j: nat)
    requires Owned(c, all) && i < |all| && j < |all| && all[i] == all[j]
    ensures i == j
  {
  }

  lemma CurrentInLine(all: seq<Response>, done: nat, current: Response?, outgoing: seq<Response>)
    requires InLine(all, done, current, outgoing)
    ensures done <= |all| && (current != null ==> done < |all| && all[done] == current)
  {
  }

  lemma LastInLine(all: seq<Response>, done: nat, current: Response?, outgoing: seq<Response>)
    requires InLine(all, done, current, outgoing)
    ensures outgoing != [] || current != null ==> all != []
    ensures outgoing != [] ==> outgoing[|outgoing| - 1] == all[|all| - 1]
    ensures outgoing == [] && current != null ==> current == all[|all| - 1]
  {
  }

  lemma NextInLine(all: seq<Response>, done: nat, current: Response, outgoing: seq<Response>)
    requires InLine(all, done, current, outgoing)
    ensures done < |all| && all[done] == current && InLine(all, done + 1, null, outgoing)
  {
  }

  class Connection {
    var incoming: seq<nat>
    var outgoing: seq<Response>
    var current: Response?
    var writable: bool
    var closing: bool
    ghost var aborted: bool
    ghost var all: seq<Response>
    ghost var done: nat
    ghost var wire: Bytes

    ghost function Views(): (views: seq<State>)
      reads this, all
    {
      ViewsOf(all)
    }

    ghost function LineNow(): Line
      reads this, all
    {
      Line(Views(), done, current != null, writable, closing, aborted, incoming, wire)
    }

    /** The present response and the queue are the rest of the line. */
    ghost predicate Linked()
      reads this
    {
      Owned(this, all) && InLine(all, done, current, outgoing)
    }

    ghost predicate Valid()
      reads this, all
    {
      Linked() && Settled(LineNow()) && Flowing(LineNow())
    }

    constructor ()
      ensures Valid() && all == [] && wire == [] && writable && !closing && !aborted
    {
      incoming, outgoing, current, writable, closing := [], [], null, true, false;
      aborted, all, done, wire := false, [], 0, [];
    }

    method SetAttached(m: Response, ghost i: nat, attached: bool)
      requires Owned(this, all) && i < |all| && m == all[i]
      modifies m`attached
      ensures Views() == old(Views())[i := old(Views())[i].(attached := attached)]
    {
      m.attached := attached;
    }

    method SetLast(m: Response, ghost i: nat)
      requires Owned(this, all) && i < |all| && m == all[i]
      modifies m`last
      ensures var v := old(Views())[i]; Views() == old(Views())[i := v.(content := v.content.(last := true))] && m.last
    {
      m.last := true;
    }

    /** Lines 1106-1110: the request is taken off the list and the socket is free. */
    method Release() returns (last: bool)
      requires Linked() && Settled(LineNow()) && current != null && current.finished && current.output == []
      modifies this`incoming, this`current, this`done, current`attached
      ensures Linked() && current == null && done == old(done) + 1 && !closing && Settled(LineNow().(closing := last))
      ensures SameMessages(Views(), old(Views()))
    {
      hide Settled, SameMessages, Owned, InLine, ViewsOf;
      var res := current;
      NextInLine(all, done, res, outgoing);
      ViewAt(all, done);
      ReleaseSettled(LineNow());
      ClosingFree(LineNow());
      assert incoming == [] || incoming[0] == res.req;
      SetAttached(res, done, false);
      last := res.last;
      incoming := if incoming == [] then [] else incoming[1..];
      current, done := null, done + 1;
      assert LineNow().(closing := last) == Released(old(LineNow()));
    }

    /** The 'finish' handler of the response that has the socket: on to the next one, unless this was the last. */
    method Finish()
      requires Linked() && Settled(LineNow()) && current != null && current.finished && current.output == []
      modifies this, all
      ensures Valid() && all == old(all) && SameMessages(Views(), old(Views())) && aborted == old(aborted)
      ensures done > old(done)
      ensures old(writable) ==> writable || closing
      decreases |outgoing|, 0
    {
      hide Settled, SameMessages, ViewsOf, Owned;
      var last := Release();
      ghost var middle := Views();
      SameRefl(middle);
      if last {
        SettledAnyway(LineNow().(closing := true));
        DestroySoon();
        assert Views() == middle;
      } else if outgoing != [] {
        var m := outgoing[0];
        outgoing := outgoing[1..];
        assert Views() == middle;
        AssignSocket(m);
      }
      SameTrans(Views(), middle, old(Views()));
    }

    /** `socket.destroySoon`: from now on it is to be closed, at once or when drained. */
    method DestroySoon()
      modifies this`writable, this`closing
      ensures closing && (writable ==> old(writable))
    {
      closing := true;
      var drained: bool := *;
      if drained { writable := false; }
    }

    /** `assignSocket`: the first response in line gets the free socket. */
    method AssignSocket(m: Response)
      requires Owned(this, all) && Settled(LineNow()) && current == null && !closing
      requires done < |all| && m == all[done] && outgoing == all[done + 1..]
      modifies this, all
      ensures Valid() && all == old(all) && SameMessages(Views(), old(Views())) && aborted == old(aborted)
      ensures done >= old(done)
      ensures old(writable) ==> writable || closing
      decreases |outgoing|, 2
    {
      hide Settled, SameMessages;
      AssignSettled(LineNow());
      SetAttached(m, done, true);
      current := m;
      ghost var middle := Views();
      assert middle == old(Views())[done := old(Views())[done].(attached := true)];
      SameBut(old(Views()), done, middle[done]);
      Flush();
      SameTrans(Views(), middle, old(Views()));
    }

    method DrainCurrent()
      requires Linked() && Settled(LineNow()) && current != null && writable
      modifies this`wire, current
      ensures Linked() && Settled(LineNow()) && current.output == [] && SameMessages(Views(), old(Views()))
      ensures current.finished == old(current.finished)
    {
      hide Settled, Good, SameMessages, Flat, Flowing;
      var m := current;
      SettledMeans(LineNow());
      m.Drain();
      DrainGood(old(m.View()), m.View());
      TouchSettled(old(LineNow()), done, m.View());
      assert LineNow() == Touched(old(LineNow()), done, m.View());
      SameBut(old(Views()), done, m.View());
    }

    /** `_flush`: what the response has buffered goes out; if it is finished, the next one follows. */
    method Flush()
      requires Linked() && Settled(LineNow()) && current != null
      modifies this, all
      ensures Valid() && all == old(all) && SameMessages(Views(), old(Views())) && aborted == old(aborted)
      ensures done >= old(done)
      ensures old(writable) ==> writable || closing
      decreases |outgoing|, 1
    {
      hide Settled, SameMessages;
      SameRefl(Views());
      if current.output != [] {
        if !writable { return; }
        DrainCurrent();
      }
      ghost var middle := Views();
      if current.finished {
        Finish();
        SameTrans(Views(), middle, old(Views()));
      }
    }

    /** The new response is put down as the last of the line. */
    method PutDown(res: Response)
      requires Valid() && !aborted && !closing
      requires res.server == this && res !in all && Good(res.View()) && Waiting(res.View())
      modifies this`incoming, this`all, this`outgoing
      ensures all == old(all) + [res] && Owned(this, all) && Settled(LineNow())
      ensures Views() == old(Views()) + [res.View()]
      ensures current != null ==> InLine(all, done, current, outgoing) && Flowing(LineNow())
      ensures current == null ==> done == |old(all)| && outgoing == []
    {
      hide Settled, Good;
      ghost var l := LineNow();
      ArriveSettled(l, res.View());
      incoming := incoming + [res.req];
      all := all + [res];
      if current != null { outgoing := outgoing + [res]; }
      assert Views() == l.views + [res.View()];
    }

    /** `onIncoming`: a new response takes the socket if it is free, else it stands at the end of the queue. */
    method OnIncoming(req: nat, statusLine: Bytes, isHead: bool, http11: bool, keepAlive: bool) returns (res: Response)
      requires Valid() && !closing && !aborted
      modifies this, all
      ensures Valid() && fresh(res) && all == old(all) + [res] && !aborted && res.req == req
      ensures SameMessages(Views()[..|old(all)|], old(Views())) && !res.finished && res.header == [] && res.writes == []
      ensures res.hasBody == !isHead && res.statusCode == 200 && res.statusLine == statusLine && res.fields == []
      ensures res.useChunkedByDefault == http11 && res.shouldKeepAlive == keepAlive && !res.chunkedEncoding && !res.last
      ensures res.lines == []
      ensures old(writable) ==> writable || closing
    {
      hide Settled, Good, Owned, SameMessages, Flowing, InLine;
      res := new Response(this, req, statusLine, isHead, http11, keepAlive);
      ghost var v := res.View();
      FreshFacts(v);
      assert Views() == old(Views());
      PutDown(res);
      SameRefl(Views());
      if current == null { AssignSocket(res); }
      SameFront(Views(), old(Views()), v);
    }

    /** The socket is closed, or its other side has closed and half-open is not allowed: the requests are aborted. */
    method Abort()
      requires Valid()
      modifies this`incoming, this`writable, this`aborted
      ensures Valid() && ViewsOf(all) == old(ViewsOf(all)) && wire == old(wire) && incoming == [] && !writable
      ensures aborted
    {
      hide Good, SentBy;
      incoming, writable, aborted := [], false, true;
    }

    /** `socket.onend`: with half-open allowed, the last response in line becomes the last on the connection. */
    method OnEnd(httpAllowHalfOpen: bool)
      requires Valid()
      modifies this, all
      ensures Valid() && all == old(all) && wire == old(wire) && closing == old(closing)
      ensures MayBeMarked(Views(), old(Views())) && (!httpAllowHalfOpen ==> Views() == old(Views()))
      ensures httpAllowHalfOpen && (outgoing != [] || current != null) ==> all[|all| - 1].last
      ensures !httpAllowHalfOpen ==> !writable && incoming == [] && aborted
      ensures httpAllowHalfOpen ==> writable == (old(writable) && (outgoing != [] || current != null))
      ensures httpAllowHalfOpen ==> aborted == old(aborted) && incoming == old(incoming)
    {
      hide Settled, Good, Flowing, Owned, InLine, ViewsOf;
      LastInLine(all, done, current, outgoing);
      if !httpAllowHalfOpen {
        Abort();
      } else if outgoing != [] {
        MarkLast(outgoing[|outgoing| - 1]);
      } else if current != null {
        MarkLast(current);
      } else {
        SettledAnyway(LineNow());
        StopFlow(LineNow());
        writable := false;
      }
    }

    method MarkLast(m: Response)
      requires Valid() && (outgoing != [] || current != null) && all != [] && m == all[|all| - 1]
      modifies m`last
      ensures Valid() && m.last
      ensures var n := |all| - 1; var v := old(Views())[n];
              Views() == old(Views())[n := v.(content := v.content.(last := true))]
    {
      hide Settled, Good, Flowing, Owned, ViewsOf;
      ghost var l := LineNow();
      ViewAt(all, |all| - 1);
      PlaceOf(l, |all| - 1);
      LastGood(m.View());
      TouchQuietly(l, |all| - 1, m.View().(content := m.View().content.(last := true)));
      SetLast(m, |all| - 1);
    }
  }

  // ------------------------------------------------------------------ whole runs

  /** What may happen to a connection; `i` counts the requests, whose handlers act in any order. */
  datatype Event =
    | Request(req: nat, line: Bytes, isHead: bool, http11: bool, keepAlive: bool)
    | Heads(i: nat, code: nat, line: Bytes, fields: seq<HttpHeader.Field>)
    | Sets(i: nat, code: nat, line: Bytes, fields: seq<HttpHeader.Field>)
    | Trails(i: nat, fields: seq<HttpHeader.Field>)
    | Writes(i: nat, chunk: Data, e: Option<Encoding>)
    | Ends(i: nat, data: Option<Data>, e: Option<Encoding>)
    | ClientEnds(httpAllowHalfOpen: bool)
    | Closes

  /** What a handler has said so far, read off the events alone. */
  datatype Told = Told(
    req: nat, http11: bool, keepAlive: bool, isHead: bool, hasBody: bool, headed: bool, chunked: bool,
    finished: bool, last: bool, marked: bool,
    code: nat, line: Bytes, fields: seq<HttpHeader.Field>, lines: seq<Bytes>, writes: seq<Bytes>)

  /** The header is settled with this status and these fields. */
  function Settle(t: Told, code: nat, line: Bytes, fields: seq<HttpHeader.Field>): Told {
    var hasBody := t.hasBody && BodyAllowed(code);
    t.(headed := true, hasBody := hasBody, code := code, line := line, fields := fields,
       chunked := hasBody && t.http11 && !HttpHeader.Has(fields, HttpHeader.ContentLength),
       last := t.last || HttpHeader.LastBy(fields, hasBody, t.http11, t.keepAlive))
  }

  /** It is settled now at the latest. */
  function Commit(t: Told): Told {
    if t.headed then t else Settle(t, t.code, t.line, t.fields)
  }

  function Add(t: Told, data: Bytes): Told {
    if t.hasBody && data != [] then t.(writes := t.writes + [data]) else t
  }

  predicate Plain(fields: seq<HttpHeader.Field>) {
    !HttpHeader.Has(fields, HttpHeader.TransferEncoding)
  }

  /** What one event adds: a head or its parts while the header is open, data and trailers until the end, one end. */
  function Tell(t: Told, ev: Event): Told {
    match ev
    case Heads(_, code, line, fields) =>
      if t.headed || !Plain(fields) then t else Settle(t, code, line, fields)
    case Sets(_, code, line, fields) =>
      if t.headed || !Plain(fields) then t else t.(code := code, line := line, fields := fields)
    case Trails(_, fields) => if t.finished then t else t.(lines := HttpHeader.Render(fields))
    case Writes(_, chunk, e) => if t.finished || (chunk.Buf? && e.Some?) then t else Add(Commit(t), chunk.bytes)
    case Ends(_, data, e) =>
      if t.finished || (data.Some? && data.value.Buf? && e.Some?) then t
      else Add(Commit(t), GivenBytes(data)).(finished := true)
    case _ => t
  }

  predicate ByHandler(ev: Event) {
    ev.Heads? || ev.Sets? || ev.Trails? || ev.Writes? || ev.Ends?
  }

  function NewTold(req: nat, http11: bool, keepAlive: bool, isHead: bool, line: Bytes): Told {
    Told(req, http11, keepAlive, isHead, !isHead, false, false, false, false, false, 200, line, [], [], [])
  }

  /** All handlers; a request that is taken brings one more, and the client's end may mark the last one. */
  function TellAll(told: seq<Told>, ev: Event, taken: bool): seq<Told> {
    if ev.Request? then
      if taken then told + [NewTold(ev.req, ev.http11, ev.keepAlive, ev.isHead, ev.line)] else told
    else if ev.ClientEnds? && ev.httpAllowHalfOpen && told != [] then
      var n := |told| - 1;
      told[n := told[n].(marked := true)]
    else if ByHandler(ev) && ev.i < |told| then told[ev.i := Tell(told[ev.i], ev)]
    else told
  }

  /** The tale of a run in which requests are taken among the first `until` events. */
  function Tale(events: seq<Event>, until: nat): seq<Told> {
    if events == [] then []
    else var n := |events| - 1; TellAll(Tale(events[..n], until), events[n], n < until)
  }

  /** A response holds what its handler has said. */
  ghost predicate Reflects(v: State, t: Told) {
    HeadHolds(v.setup, HeadOf(v.content), t) && RestHolds(v.content, t)
  }

  /** As to the header and what it decides. */
  ghost predicate HeadHolds(s: Setup, c: Head, t: Told) {
    && s.req == t.req && s.useChunked == t.http11 && s.keepAlive == t.keepAlive
    && c.hasBody == t.hasBody && c.chunked == t.chunked
    && (t.last ==> c.last) && (c.last ==> t.last || t.marked)
    && (t.headed <==> c.header != [])
    && if t.headed then c.header == HttpHeader.HeaderText(t.line, t.fields, t.hasBody, t.http11, t.keepAlive)
       else s.statusCode == t.code && s.statusLine == t.line && s.fields == t.fields
  }

  /** As to the rest. */
  ghost predicate RestHolds(c: Content, t: Told) {
    c.finished == t.finished && c.lines == t.lines && c.writes == t.writes
  }

  ghost predicate Recites(views: seq<State>, told: seq<Told>) {
    |views| == |told| && forall i :: 0 <= i < |views| ==> Reflects(views[i], told[i])
  }

  lemma SameRecites(a: seq<State>, b: seq<State>, told: seq<Told>)
    requires Recites(b, told) && SameMessages(a, b)
    ensures Recites(a, told)
  {
    hide HttpHeader.HeaderText;
    forall i | 0 <= i < |a|
      ensures Reflects(a[i], told[i])
    {
      assert Reflects(b[i], told[i]);
      assert SameMessages(a, b) ==> SameMessage(a[i], b[i]);
    }
  }

  /** The header is settled by the handler. */
  lemma SettleHolds(s: Setup, c: Head, d: Head, t: Told, code: nat, line: Bytes, fields: seq<HttpHeader.Field>)
    requires HeadHolds(s, c, t) && c.header == [] && HeadIs(s, c, d, code, line, fields)
    ensures var u := Settle(t, code, line, fields);
            HeadHolds(s, d, u) && u.writes == t.writes && u.lines == t.lines && u.finished == t.finished
  {
    hide HttpHeader.HeaderText, HttpHeader.LastBy, HttpHeader.Has;
  }

  /** The header is settled, now or before. */
  lemma CommitHolds(s: Setup, c: Head, d: Head, t: Told)
    requires HeadHolds(s, c, t) && HeadedFrom(s, c, d)
    ensures HeadHolds(s, d, Commit(t))
    ensures Commit(t).writes == t.writes && Commit(t).lines == t.lines && Commit(t).finished == t.finished
  {
    hide HttpHeader.HeaderText, HeadIs;
    if c.header == [] { SettleHolds(s, c, d, t, s.statusCode, s.statusLine, s.fields); }
  }

  /** Data is added, and perhaps the end. */
  lemma SaidHolds(s: Setup, c: Content, s': Setup, d: Content, t: Told, data: Bytes)
    requires HeadHolds(s, HeadOf(c), t) && RestHolds(c, t) && GoesOn(s, c, s', d, data)
    ensures var u := Add(Commit(t), data).(finished := d.finished); HeadHolds(s', HeadOf(d), u) && RestHolds(d, u)
    ensures d.finished == c.finished ==> Add(Commit(t), data).(finished := d.finished) == Add(Commit(t), data)
  {
    hide HeadedFrom, HeadHolds, Commit;
    CommitHolds(s, HeadOf(c), HeadOf(d), t);
    AddKeepsHead(s, HeadOf(d), Commit(t), data, d.finished);
  }

  lemma AddKeepsHead(s: Setup, d: Head, t: Told, data: Bytes, finished: bool)
    requires HeadHolds(s, d, t)
    ensures HeadHolds(s, d, Add(t, data).(finished := finished)) && d.hasBody == t.hasBody
  {
    hide HttpHeader.HeaderText;
  }

  lemma HeadedMeans(s: Setup, d: Head, t: Told)
    requires HeadHolds(s, d, t)
    ensures t.headed <==> d.header != []
  {
    hide HttpHeader.HeaderText;
  }

  /** Status and fields are set for an implicit header. */
  lemma SetsHold(s: Setup, d: Head, t: Told, code: nat, line: Bytes, fields: seq<HttpHeader.Field>)
    requires HeadHolds(s, d, t) && d.header == []
    ensures HeadHolds(s.(statusCode := code, statusLine := line, fields := fields), d,
                      t.(code := code, line := line, fields := fields))
  {
    hide HttpHeader.HeaderText;
  }

  /** Trailers are added. */
  lemma TrailsHold(s: Setup, d: Head, t: Told, lines: seq<Bytes>)
    requires HeadHolds(s, d, t)
    ensures HeadHolds(s, d, t.(lines := lines))
  {
    hide HttpHeader.HeaderText;
  }

  /** One response has changed, and so has what its handler said. */
  lemma RecitesAt(a: seq<State>, b: seq<State>, told: seq<Told>, i: nat, t: Told)
    requires Recites(b, told) && i < |b| && |a| == |b| && SameMessages(a, b[i := a[i]]) && Reflects(a[i], t)
    ensures Recites(a, told[i := t])
  {
    hide Reflects, SameMessage;
    assert Recites(b[i := a[i]], told[i := t]);
    SameRecites(a, b[i := a[i]], told[i := t]);
  }

  /** What a handler does with its response; what it must not do is left undone. */
  method HandlerActs(c: Connection, m: Response, ev: Event, ghost i: nat, ghost told: seq<Told>)
    requires c.Valid() && i < |c.all| && m == c.all[i] && m.server == c
    requires Recites(c.Views(), told) && ByHandler(ev)
    modifies c, c.all
    ensures c.Valid() && c.all == old(c.all) && c.aborted == old(c.aborted) && (old(c.closing) ==> c.closing)
    ensures Recites(c.Views(), told[i := Tell(told[i], ev)])
    ensures old(c.writable) ==> c.writable || c.closing
  {
    hide Settled, Flowing, Owned, InLine, ViewsOf, HttpHeader.Has;
    hide HttpHeader.Render, HttpHeader.HeaderText, SameMessages, Recites, Reflects, Tell;
    ViewAt(c.all, i);
    RecitesOne(c.Views(), told, i);
    if ev.Ends? {
      HandlerEnds(m, ev, i, told[i]);
    } else {
      HandlerSays(m, ev, i, told[i]);
      SameRefl(c.Views());
      ViewAt(c.all, i);
    }
    RecitesAt(c.Views(), old(c.Views()), told, i, Tell(told[i], ev));
  }

  lemma RecitesOne(views: seq<State>, told: seq<Told>, i: nat)
    requires Recites(views, told) && i < |views|
    ensures |told| == |views| && Reflects(views[i], told[i])
  {
  }

  method HandlerEnds(m: Response, ev: Event, ghost i: nat, ghost t: Told)
    requires m.server.Valid() && i < |m.server.all| && m == m.server.all[i] && Reflects(m.View(), t) && ev.Ends?
    modifies m.server, m.server.all
    ensures m.server.Valid() && m.server.all == old(m.server.all) && m.server.aborted == old(m.server.aborted)
    ensures (old(m.server.closing) ==> m.server.closing) && Reflects(m.View(), Tell(t, ev))
    ensures m.server.Views()[i] == m.View() && SameMessages(m.server.Views(), old(m.server.Views())[i := m.View()])
    ensures old(m.server.writable) ==> m.server.writable || m.server.closing
  {
    hide Settled, Flowing, Owned, InLine, ViewsOf, HttpHeader.Has, HttpHeader.Render, HeadHolds, GoesOn, SameMessages;
    ViewAt(m.server.all, i);
    ghost var v := m.View();
    if ev.data.Some? && ev.data.value.Buf? ==> ev.e.None? {
      m.End(ev.data, ev.e, i);
      if !v.content.finished {
        SaidHolds(v.setup, v.content, m.View().setup, m.View().content, t, GivenBytes(ev.data));
      }
    } else {
      assert m.server.Views()[i := m.View()] == m.server.Views();
      SameRefl(m.server.Views());
    }
  }

  /** Everything but an end. */
  method HandlerSays(m: Response, ev: Event, ghost i: nat, ghost t: Told)
    requires m.server.Valid() && i < |m.server.all| && m == m.server.all[i]
    requires Reflects(m.View(), t) && ByHandler(ev) && !ev.Ends?
    modifies m, m.server`wire
    ensures m.server.Valid() && m.server.Views() == old(m.server.Views())[i := m.View()]
    ensures Reflects(m.View(), Tell(t, ev))
  {
    hide Settled, Flowing, Owned, InLine, ViewsOf, HttpHeader.Has, HttpHeader.Render, HeadHolds, HeadIs, GoesOn, Settle;
    ViewAt(m.server.all, i);
    assert m.server.Views()[i := m.View()] == m.server.Views();
    ghost var v := m.View();
    HeadedMeans(v.setup, HeadOf(v.content), t);
    match ev
    case Heads(_, code, line, fields) =>
      if m.header == [] && Plain(fields) {
        m.Head(code, line, fields, i);
        SettleHolds(v.setup, HeadOf(v.content), HeadOf(m.View().content), t, code, line, fields);
      }
    case Sets(_, code, line, fields) =>
      if m.header == [] && Plain(fields) {
        m.Prepare(code, line, fields, i);
        SetsHold(v.setup, HeadOf(v.content), t, code, line, fields);
      }
    case Trails(_, fields) =>
      if !m.finished {
        m.Trailers(fields, i);
        TrailsHold(v.setup, HeadOf(v.content), t, HttpHeader.Render(fields));
      }
    case Writes(_, chunk, e) =>
      if !m.finished && (chunk.Buf? ==> e.None?) {
        m.Write(chunk, e, i);
        SaidHolds(v.setup, v.content, m.View().setup, m.View().content, t, chunk.bytes);
      }
  }

  predicate Stops(ev: Event) {
    ev.ClientEnds? || ev.Closes?
  }

  /** With these the requests are aborted. */
  predicate Ceases(ev: Event) {
    ev.Closes? || (ev.ClientEnds? && !ev.httpAllowHalfOpen)
  }

  /** One event. `open` says whether requests may still come. */
  method Handle(c: Connection, handlers: seq<Response>, open: bool, ev: Event, ghost told: seq<Told>)
    returns (handlers': seq<Response>, open': bool)
    requires c.Valid() && c.all == handlers && (c.aborted ==> !open) && Recites(c.Views(), told)
    modifies c, c.all
    ensures c.Valid() && c.all == handlers' && (c.aborted ==> !open') && (old(c.closing) ==> c.closing)
    ensures handlers <= handlers' && forall k :: |handlers| <= k < |handlers'| ==> fresh(handlers'[k])
    ensures Recites(c.Views(), TellAll(told, ev, open && !old(c.closing))) && open' == (open && !Stops(ev))
    ensures old(c.writable) ==> c.writable || c.closing || Stops(ev)
    ensures (old(c.aborted) ==> c.aborted) && (Ceases(ev) ==> c.aborted && !c.writable && c.incoming == [])
    ensures Stops(ev) && !Ceases(ev) && c.all != [] && (c.outgoing != [] || c.current != null) ==>
              c.all[|c.all| - 1].last
    ensures Stops(ev) && !Ceases(ev) && c.outgoing == [] && c.current == null ==> !c.writable
  {
    hide Settled, Flowing, InLine, ViewsOf, Recites, Tell;
    handlers', open' := handlers, open;
    RecitesLength(c.Views(), told);
    match ev
    case Request(req, line, isHead, http11, keepAlive) =>
      if open && !c.closing {
        var res := c.OnIncoming(req, line, isHead, http11, keepAlive);
        handlers' := handlers + [res];
        ViewAt(c.all, |handlers|);
        RecitesMore(c.Views(), old(c.Views()), told, NewTold(req, http11, keepAlive, isHead, line));
      }
    case ClientEnds(half) =>
      c.OnEnd(half);
      RecitesMarked(c.Views(), old(c.Views()), told, half);
      open' := false;
    case Closes =>
      c.Abort();
      open' := false;
    case _ =>
      if ev.i < |handlers| { HandlerActs(c, handlers[ev.i], ev, ev.i, told); }
  }

  lemma RecitesLength(views: seq<State>, told: seq<Told>)
    requires Recites(views, told)
    ensures |told| == |views|
  {
  }

  lemma RecitesMarked(now: seq<State>, was: seq<State>, told: seq<Told>, half: bool)
    requires Recites(was, told) && MayBeMarked(now, was) && (!half ==> now == was)
    ensures Recites(now, TellAll(told, ClientEnds(half), false))
  {
    hide HttpHeader.HeaderText;
    forall i | 0 <= i < |now|
      ensures Reflects(now[i], TellAll(told, ClientEnds(half), false)[i])
    {
      assert Reflects(was[i], told[i]);
    }
  }

  lemma RecitesMore(now: seq<State>, was: seq<State>, told: seq<Told>, t: Told)
    requires Recites(was, told) && |now| == |was| + 1 && SameMessages(now[..|was|], was) && Reflects(now[|was|], t)
    ensures Recites(now, told + [t])
  {
    hide Reflects;
    SameRecites(now[..|was|], was, told);
    assert forall i :: 0 <= i < |was| ==> now[i] == now[..|was|][i];
  }

  /**
   * Requests and handlers in any order. Every request among the first `until` events has its response, which
   * holds what its handler said; `until` is the whole run unless the client or the socket ended it, or a last
   * response was sent. The client has the complete responses in the order of the requests, then a part of the
   * next.
   */
  method Run(events: seq<Event>) returns (c: Connection, ghost until: nat)
    ensures fresh(c) && c.Valid() && InOrder(c.LineNow()) && Recites(c.Views(), Tale(events, until))
    ensures until <= |events| && forall k :: 0 <= k < until - 1 ==> !Stops(events[k])
    ensures until == |events| || c.closing || (until > 0 && Stops(events[until - 1]))
    ensures c.writable || c.closing || exists k :: 0 <= k < |events| && Stops(events[k])
    ensures (exists k :: 0 <= k < |events| && Ceases(events[k])) ==> c.aborted
  {
    hide Settled, Flowing, Owned, InLine, ViewsOf, InOrder, Recites, TellAll, Tale;
    c := new Connection();
    var handlers, open := [], true;
    until := 0;
    TaleStarts(c.Views(), until);
    for n := 0 to |events|
      invariant c.Valid() && c.all == handlers && (c.aborted ==> !open) && fresh(c)
      invariant forall k :: 0 <= k < |c.all| ==> fresh(c.all[k])
      invariant Recites(c.Views(), Tale(events[..n], until))
      invariant until <= n && (open && !c.closing ==> until == n)
      invariant open ==> forall k :: 0 <= k < n ==> !Stops(events[k])
      invariant forall k :: 0 <= k < until - 1 ==> !Stops(events[k])
      invariant open || c.closing || (until > 0 && Stops(events[until - 1]))
      invariant c.writable || c.closing || exists k :: 0 <= k < n && Stops(events[k])
      invariant (exists k :: 0 <= k < n && Ceases(events[k])) ==> c.aborted
    {
      ghost var taken := open && !c.closing;
      ghost var next := if taken then n + 1 else until;
      TaleGoesOn(events, n, until, next, taken);
      handlers, open := Handle(c, handlers, open, events[n], Tale(events[..n], until));
      until := next;
    }
    assert events[..|events|] == events;
    WireInOrder(c.LineNow());
  }

  lemma TaleStarts(views: seq<State>, until: nat)
    requires views == []
    ensures Recites(views, Tale([], until))
  {
  }

  lemma {:induction false} TaleSame(events: seq<Event>, until: nat, next: nat)
    requires |events| <= until && |events| <= next
    ensures Tale(events, until) == Tale(events, next)
  {
    hide TellAll;
    if events == [] {
    } else {
      TaleSame(events[..|events| - 1], until, next);
    }
  }

  lemma TaleGoesOn(events: seq<Event>, n: nat, until: nat, next: nat, taken: bool)
    requires n < |events| && until <= n && (taken ==> until == n && next == n + 1) && (!taken ==> next == until)
    ensures Tale(events[..n + 1], next) == TellAll(Tale(events[..n], until), events[n], taken)
  {
    hide TellAll;
    assert events[..n + 1][..n] == events[..n];
    if taken { TaleSame(events[..n], until, next); }
  }
}
