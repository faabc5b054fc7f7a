/**
 * lib/http.js, the chunked transfer coding: what a message with a chunked body looks like, and the reader of
 * section 3.6.1 of RFC 2616 that takes it apart. Text stands for its bytes, one character each.
 */
module HttpChunked {
  import opened Common

  type Bytes = string

  const CRLF: Bytes := "\r\n"

  // ------------------------------------------------------------------ writing

  /** `n.toString(16)`. */
  function Hex(n: nat): (s: Bytes)
    ensures s != []
  {
    if n < 16 then [HexDigit(n, 'a')] else Hex(n / 16) + [HexDigit(n % 16, 'a')]
  }

  function Chunk(data: Bytes): (s: Bytes)
    ensures s != []
  {
    Hex(|data|) + CRLF + data + CRLF
  }

  function Chunks(writes: seq<Bytes>): Bytes {
    if writes == [] then [] else Chunks(writes[..|writes| - 1]) + Chunk(writes[|writes| - 1])
  }

  function Concat(writes: seq<Bytes>): Bytes {
    if writes == [] then [] else Concat(writes[..|writes| - 1]) + writes[|writes| - 1]
  }

  /** Header or trailer lines, each with its line end. */
  function Lines(lines: seq<Bytes>): Bytes {
    if lines == [] then [] else Lines(lines[..|lines| - 1]) + (lines[|lines| - 1] + CRLF)
  }

  function LastChunk(trailer: Bytes): Bytes {
    "0\r\n" + trailer + CRLF
  }

  /** The body of a message, chunked or plain. */
  function Body(chunked: bool, writes: seq<Bytes>): Bytes {
    if chunked then Chunks(writes) else Concat(writes)
  }

  function Piece(chunked: bool, data: Bytes): Bytes {
    if chunked then Chunk(data) else data
  }

  lemma BodyAppend(chunked: bool, writes: seq<Bytes>, data: Bytes)
    ensures Body(chunked, writes + [data]) == Body(chunked, writes) + Piece(chunked, data)
  {
    assert (writes + [data])[..|writes|] == writes;
  }

  // ------------------------------------------------------------------ reading

  /** The hexadecimal digits at the front, as a number continuing `acc`, and what follows them. */
  function ReadHex(s: Bytes, acc: nat): (r: (nat, Bytes))
    ensures |r.1| <= |s|
  {
    if s == [] || !IsHex(s[0]) then (acc, s) else ReadHex(s[1..], 16 * acc + HexValue(s[0]))
  }

  /** What follows the first line end. */
  function AfterLine(s: Bytes): (r: Option<Bytes>)
    ensures r.Some? ==> |r.value| <= |s| - 2
  {
    if |s| < 2 then None else if s[..2] == CRLF then Some(s[2..]) else AfterLine(s[1..])
  }

  /** The trailer: lines up to an empty one. */
  function ReadTrailer(s: Bytes): (r: Option<Bytes>)
    decreases |s|
  {
    if |s| >= 2 && s[..2] == CRLF then Some(s[2..])
    else
      match AfterLine(s)
      case None => None
      case Some(rest) => ReadTrailer(rest)
  }

  /** A chunk's size line: digits and an optional extension. */
  function ReadSize(s: Bytes): (r: Option<(nat, Bytes)>)
    ensures r.Some? ==> |r.value.1| < |s|
  {
    var (n, rest) := ReadHex(s, 0);
    if rest == s || rest == [] || (rest[0] != ';' && rest[0] != '\r') then None
    else
      match AfterLine(rest)
      case None => None
      case Some(after) => if rest[0] == '\r' && after != rest[2..] then None else Some((n, after))
  }

  /** Chunked-Body of section 3.6.1: the data, and what follows the message. */
  function Decode(s: Bytes): (r: Option<(Bytes, Bytes)>)
    decreases |s|
  {
    match ReadSize(s)
    case None => None
    case Some((n, rest)) =>
      if n == 0 then
        match ReadTrailer(rest)
        case None => None
        case Some(after) => Some(([], after))
      else if |rest| < n + 2 || rest[n..n + 2] != CRLF then None
      else
        match Decode(rest[n + 2..])
        case None => None
        case Some((data, after)) => Some((rest[..n] + data, after))
  }

  // ------------------------------------------------------------------ reading what was written

  lemma DigitRead(n: nat, acc: nat, rest: Bytes)
    requires n < 16
    ensures ReadHex([HexDigit(n, 'a')] + rest, acc) == ReadHex(rest, 16 * acc + n)
  {
    var s := [HexDigit(n, 'a')] + rest;
    assert HexValue(s[0]) == n;
    assert s[1..] == rest;
  }

  lemma {:induction false} HexRead(n: nat, rest: Bytes)
    ensures ReadHex(Hex(n) + rest, 0) == ReadHex(rest, n)
  {
    hide ReadHex, HexDigit;
    if n < 16 {
      DigitRead(n, 0, rest);
    } else {
      var d := [HexDigit(n % 16, 'a')];
      assert Hex(n) + rest == Hex(n / 16) + (d + rest);
      HexRead(n / 16, d + rest);
      DigitRead(n % 16, n / 16, rest);
      assert 16 * (n / 16) + n % 16 == n;
    }
  }

  lemma LineEnd(rest: Bytes)
    ensures AfterLine(CRLF + rest) == Some(rest)
  {
    assert (CRLF + rest)[..2] == CRLF && (CRLF + rest)[2..] == rest;
  }

  lemma SizeRead(n: nat, rest: Bytes)
    ensures ReadSize(Hex(n) + CRLF + rest) == Some((n, rest))
  {
    var tail := CRLF + rest;
    var s := Hex(n) + CRLF + rest;
    assert s == Hex(n) + tail;
    HexRead(n, tail);
    assert !IsHex(tail[0]);
    assert ReadHex(s, 0) == (n, tail) && tail != s by { assert |tail| < |s|; }
    LineEnd(rest);
    assert tail[2..] == rest;
  }

  /** A trailer line a reader cannot mistake: not empty, and without line ends in it. */
  predicate Clean(line: Bytes) {
    line != [] && '\r' !in line && '\n' !in line
  }

  lemma {:induction false} LineSkipped(line: Bytes, rest: Bytes)
    requires '\r' !in line
    ensures AfterLine(line + CRLF + rest) == Some(rest)
  {
    if line == [] {
      assert line + CRLF + rest == CRLF + rest;
      LineEnd(rest);
    } else {
      var s := line + CRLF + rest;
      assert s[1..] == line[1..] + CRLF + rest;
      assert s[..2] != CRLF by { assert s[..2][0] == line[0]; }
      LineSkipped(line[1..], rest);
    }
  }

  lemma {:induction false} TrailerRead(lines: seq<Bytes>, rest: Bytes)
    requires forall i :: 0 <= i < |lines| ==> Clean(lines[i])
    ensures ReadTrailer(Lines(lines) + CRLF + rest) == Some(rest)
  {
    if lines == [] {
      assert Lines(lines) + CRLF + rest == CRLF + rest;
      assert (CRLF + rest)[..2] == CRLF && (CRLF + rest)[2..] == rest;
    } else {
      var s := Lines(lines) + CRLF + rest;
      var s' := Lines(lines[1..]) + CRLF + rest;
      LinesFront(lines);
      assert s == lines[0] + CRLF + s';
      assert s[0] == lines[0][0] && lines[0][0] in lines[0];
      LineSkipped(lines[0], s');
      assert s[..2] != CRLF by { assert s[..2][0] == lines[0][0]; }
      TrailerRead(lines[1..], rest);
    }
  }

  lemma {:induction false} LinesFront(lines: seq<Bytes>)
    requires lines != []
    ensures Lines(lines) == lines[0] + CRLF + Lines(lines[1..])
  {
    if |lines| > 1 {
      var front := lines[..|lines| - 1];
      LinesFront(front);
      assert front[1..] == lines[1..][..|lines| - 2];
    }
  }

  lemma {:induction false} ChunksFront(writes: seq<Bytes>)
    requires writes != []
    ensures Chunks(writes) == Chunk(writes[0]) + Chunks(writes[1..])
  {
    hide Chunk;
    if |writes| > 1 {
      var n := |writes| - 1;
      ChunksFront(writes[..n]);
      assert writes[..n][1..] == writes[1..][..n - 1];
      Assoc(Chunk(writes[0]), Chunks(writes[1..][..n - 1]), Chunk(writes[n]));
    } else {
      assert writes[..0] == [] && writes[1..] == [];
    }
  }

  lemma {:induction false} ConcatFront(writes: seq<Bytes>)
    requires writes != []
    ensures Concat(writes) == writes[0] + Concat(writes[1..])
  {
    if |writes| > 1 {
      var n := |writes| - 1;
      ConcatFront(writes[..n]);
      assert writes[..n][1..] == writes[1..][..n - 1];
      Assoc(writes[0], Concat(writes[1..][..n - 1]), writes[n]);
    } else {
      assert writes[..0] == [] && writes[1..] == [];
    }
  }

  /** One chunk is taken off. */
  lemma ChunkRead(data: Bytes, rest: Bytes)
    requires data != []
    ensures Decode(Chunk(data) + rest) ==
      match Decode(rest) { case None => None case Some((more, after)) => Some((data + more, after)) }
  {
    var s := Chunk(data) + rest;
    var body := data + CRLF + rest;
    assert s == Hex(|data|) + CRLF + body;
    SizeRead(|data|, body);
    assert body[..|data|] == data && body[|data|..|data| + 2] == CRLF && body[|data| + 2..] == rest;
  }

  /** Every chunked body, whatever follows it, reads back as exactly what was written, and ends where it ended. */
  lemma {:induction false} DecodeChunks(writes: seq<Bytes>, lines: seq<Bytes>, rest: Bytes)
    requires forall i :: 0 <= i < |writes| ==> writes[i] != []
    requires forall i :: 0 <= i < |lines| ==> Clean(lines[i])
    ensures Decode(Chunks(writes) + LastChunk(Lines(lines)) + rest) == Some((Concat(writes), rest))
  {
    hide Chunk, ReadSize, ReadTrailer;
    var s := Chunks(writes) + LastChunk(Lines(lines)) + rest;
    if writes == [] {
      var tail := Lines(lines) + CRLF + rest;
      assert s == Hex(0) + CRLF + tail;
      SizeRead(0, tail);
      TrailerRead(lines, rest);
    } else {
      ChunksFront(writes);
      ConcatFront(writes);
      var s' := Chunks(writes[1..]) + LastChunk(Lines(lines)) + rest;
      assert s == Chunk(writes[0]) + s';
      DecodeChunks(writes[1..], lines, rest);
      ChunkRead(writes[0], s');
    }
  }
}
