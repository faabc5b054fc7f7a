/**
 * lib/http.js as its client sees it: the responses of a run are read back from the wire alone, one after the other,
 * with the reader of sections 4.1 and 4.4 of RFC 2616.
 */
module HttpWire {
  import opened Common
  import opened HttpChunked
  import opened HttpHeader
  import opened HttpReader
  import opened HttpServer

  /** What a settled header decides, for a handler's tale. */
  ghost predicate Decided(t: Told) {
    && Plain(t.fields)
    && t.hasBody == !(if t.headed then Bodyless(t.isHead, t.code) else t.isHead)
    && (!t.hasBody ==> t.writes == [])
    && (t.finished ==> t.headed)
    && (!t.headed ==> t.writes == [])
    && (forall k :: 0 <= k < |t.writes| ==> t.writes[k] != [])
    && (t.headed ==>
          && (t.chunked <==> t.hasBody && t.http11 && !Has(t.fields, ContentLength))
          && (LastBy(t.fields, t.hasBody, t.http11, t.keepAlive) ==> t.last))
  }

  lemma TellDecided(t: Told, ev: Event)
    requires Decided(t)
    ensures Decided(Tell(t, ev))
  {
    hide Has, LastBy, Render;
  }

  lemma {:induction false} TaleDecided(events: seq<Event>, until: nat)
    ensures forall i :: 0 <= i < |Tale(events, until)| ==> Decided(Tale(events, until)[i])
  {
    hide Tell, Has, LastBy;
    if events == [] {
    } else {
      var n := |events| - 1;
      var told, ev := Tale(events[..n], until), events[n];
      TaleDecided(events[..n], until);
      if ev.Request? { NewDecided(ev); }
      if ByHandler(ev) && ev.i < |told| { TellDecided(told[ev.i], ev); }
    }
  }

  lemma NewDecided(ev: Event)
    requires ev.Request?
    ensures Decided(NewTold(ev.req, ev.http11, ev.keepAlive, ev.isHead, ev.line))
  {
  }

  /** The data an event brings. */
  function DataOf(ev: Event): Bytes {
    match ev
    case Writes(_, chunk, _) => chunk.bytes
    case Ends(_, data, _) => GivenBytes(data)
    case _ => []
  }

  /** A buffer has no encoding. */
  predicate Refused(ev: Event) {
    match ev
    case Writes(_, chunk, e) => chunk.Buf? && e.Some?
    case Ends(_, data, e) => data.Some? && data.value.Buf? && e.Some?
    case _ => false
  }

  /** The same but for what has been written. */
  predicate Same(t: Told, u: Told) {
    u.req == t.req && u.isHead == t.isHead &&
    (t.headed ==> u.headed && u.code == t.code && u.line == t.line && u.fields == t.fields)
  }

  lemma CommitSame(t: Told)
    requires Decided(t)
    ensures var u := Commit(t);
            Decided(u) && u.headed && Same(t, u) && u.writes == t.writes && u.finished == t.finished
  {
    hide Has, LastBy;
  }

  lemma AddSpeaks(t: Told, data: Bytes)
    requires Decided(t) && t.headed
    ensures var u := Add(t, data);
            && Concat(u.writes) == Concat(t.writes) + (if Bodyless(u.isHead, u.code) then [] else data)
            && Same(t, u) && u.headed && u.finished == t.finished
  {
    hide Has, LastBy, Concat;
    ConcatMore(t.writes, data);
  }

  lemma ConcatMore(writes: seq<Bytes>, data: Bytes)
    ensures Concat(writes + [data]) == Concat(writes) + data
  {
    assert (writes + [data])[..|writes|] == writes;
  }

  /**
   * What a handler's event adds to the body that the client is to get: its data, until the end and in a response that
   * has a body, and nothing else ever.
   */
  lemma TellSpeaks(t: Told, ev: Event)
    requires Decided(t)
    ensures var u, speaks := Tell(t, ev), !t.finished && !Refused(ev) && (ev.Writes? || ev.Ends?);
            && Concat(u.writes)
                 == Concat(t.writes) + (if speaks && !Bodyless(u.isHead, u.code) then DataOf(ev) else [])
            && u.finished == (t.finished || (ev.Ends? && !Refused(ev))) && Same(t, u) && (speaks ==> u.headed)
  {
    hide Decided, Commit, Add, Settle, Concat, Bodyless, Render;
    if ev.Writes? || ev.Ends? {
      CommitSame(t);
      AddSpeaks(Commit(t), DataOf(ev));
    } else if ev.Heads? {
      SettleSame(t, ev.code, ev.line, ev.fields);
    }
  }

  lemma SettleSame(t: Told, code: nat, line: Bytes, fields: seq<Field>)
    ensures var u := Settle(t, code, line, fields);
            u.req == t.req && u.isHead == t.isHead && u.writes == t.writes && u.finished == t.finished
  {
  }

  /** The handler gave a clean first line, clean fields and trailers, and the true length where it gave one. */
  ghost predicate Honest(t: Told) {
    && FieldsOk(t.fields)
    && (exists first :: Clean(first) && t.line == first + CRLF)
    && KeepsWord(t.fields, t.hasBody, t.chunked, t.writes, t.lines)
  }

  /** What was said, as a reader gets it: the fields and the body. */
  function Heard(t: Told): (seq<Field>, Bytes) {
    (Sent(t.fields, t.hasBody, t.http11, t.keepAlive), Concat(t.writes))
  }

  /** A finished message with anything after it reads back; one that only the close can end needs that close. */
  lemma FinishedReads(v: State, t: Told, rest: Bytes)
    requires Reflects(v, t) && Decided(t) && Honest(t) && t.finished && v.content.headerSent
    requires EndsByClose(t.fields, t.hasBody, t.http11) ==> rest == []
    ensures ReadMessage(Bodyless(t.isHead, t.code), Message(v) + rest) == Some((Heard(t).0, Heard(t).1, rest))
  {
    hide ReadMessage, HeaderText, Body, LastChunk, Lines, Has, LastBy, EndsByClose, FieldsOk, KeepsWord, Sent, Concat;
    var first :| Clean(first) && t.line == first + CRLF;
    MessageReads(first, t.fields, t.hasBody, t.http11, t.keepAlive, t.writes, t.lines, rest);
  }

  /** What is said of a response that is over. */
  lemma OverMeans(l: Line, told: seq<Told>, i: nat)
    requires Settled(l) && Recites(l.views, told) && i < l.done
    ensures Begun(l) <= |l.views| == |told| && Reflects(l.views[i], told[i])
    ensures told[i].finished && l.views[i].content.headerSent
    ensures told[i].last ==> RestOf(l, i + 1) == []
  {
    hide Message, Flat, HeaderText, SentBy, Listed, Has, Messages, Lines;
    assert Done(l.views[i]) && Good(l.views[i]);
    assert Reflects(l.views[i], told[i]);
  }

  /** A client that has read the messages before it reads this one, and is then at the next. */
  lemma MessageReadable(l: Line, told: seq<Told>, i: nat)
    requires Settled(l) && Recites(l.views, told) && i < l.done
    requires Decided(told[i]) && Honest(told[i])
    ensures var at, next := |Messages(l.views, i)|, |Messages(l.views, i + 1)|;
            && at <= next <= |l.wire|
            && ReadMessage(Bodyless(told[i].isHead, told[i].code), l.wire[at..])
                 == Some((Heard(told[i]).0, Heard(told[i]).1, l.wire[next..]))
  {
    hide Settled, Recites, Reflects, Decided, Honest, ReadMessage, Messages, Message, Heard, RestOf;
    hide LastBy, EndsByClose;
    OverMeans(l, told, i);
    WireSplit(l, i);
    DecidedLast(told[i]);
    var m, rest := Message(l.views[i]), RestOf(l, i + 1);
    FinishedReads(l.views[i], told[i], rest);
    MiddlePart(Messages(l.views, i), m, rest);
  }

  lemma DecidedLast(t: Told)
    requires Decided(t) && t.finished
    ensures EndsByClose(t.fields, t.hasBody, t.http11) ==> t.last
  {
    hide Has;
  }

  lemma MiddlePart(a: Bytes, b: Bytes, c: Bytes)
    ensures ((a + b) + c)[|a|..] == b + c && ((a + b) + c)[|a + b|..] == c
  {
  }

  /** A client reading one message for each of these requests, knowing which was a HEAD and the status it reads. */
  function ReadResponses(told: seq<Told>, s: Bytes): Option<(seq<(seq<Field>, Bytes)>, Bytes)> {
    if told == [] then Some(([], s))
    else
      match ReadMessage(Bodyless(told[0].isHead, told[0].code), s)
      case None => None
      case Some((fields, body, rest)) =>
        match ReadResponses(told[1..], rest)
        case None => None
        case Some((more, after)) => Some(([(fields, body)] + more, after))
  }

  function AllHeard(told: seq<Told>): seq<(seq<Field>, Bytes)> {
    if told == [] then [] else [Heard(told[0])] + AllHeard(told[1..])
  }

  lemma {:induction false} ReadFrom(l: Line, told: seq<Told>, i: nat)
    requires Settled(l) && Recites(l.views, told) && i <= l.done <= |told|
    requires forall k :: 0 <= k < l.done ==> Decided(told[k]) && Honest(told[k])
    requires |Messages(l.views, i)| <= |l.wire| && |Messages(l.views, l.done)| <= |l.wire|
    ensures ReadResponses(told[i..l.done], l.wire[|Messages(l.views, i)|..])
              == Some((AllHeard(told[i..l.done]), l.wire[|Messages(l.views, l.done)|..]))
    decreases l.done - i
  {
    hide Settled, Recites, Decided, Honest, ReadMessage, Messages, Heard;
    if i == l.done {
    } else {
      MessageReadable(l, told, i);
      ReadFrom(l, told, i + 1);
      assert told[i..l.done][1..] == told[i + 1..l.done];
    }
  }

  /**
   * The whole run: a client that knows only its requests and the wire gets back, in their order, the fields and the
   * body of every response that is over, and is left with what was sent of the present one.
   */
  lemma ResponsesRead(l: Line, events: seq<Event>, until: nat)
    requires Settled(l) && Recites(l.views, Tale(events, until))
    requires forall k :: 0 <= k < l.done && k < |Tale(events, until)| ==> Honest(Tale(events, until)[k])
    ensures l.done <= |Tale(events, until)|
    ensures ReadResponses(Tale(events, until)[..l.done], l.wire)
              == Some((AllHeard(Tale(events, until)[..l.done]), if l.busy then l.views[l.done].sent else []))
  {
    hide Settled, Decided, Honest, ReadResponses, AllHeard, Messages, Tale, Reflects;
    var told := Tale(events, until);
    TaleDecided(events, until);
    WireInOrder(l);
    NoMessages(l.views);
    ReadFrom(l, told, 0);
    assert told[0..l.done] == told[..l.done];
  }

  lemma NoMessages(views: seq<State>)
    ensures Messages(views, 0) == []
  {
  }
}
