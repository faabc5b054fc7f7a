/**
 * doc/sh_main.js: what `sh_highlightString` means. The style of every character is read off the matches of its line
 * and the environments that the matches before it have entered and left; no word is said about how tags are put out.
 */
module HighlightStyles {
  import opened Common
  import opened Highlight
  import opened MergeTags

  // ------------------------------------------------------------------ environments

  /**
   * The pattern whose environment is entered and not yet left after these matches, or the one that is `exits` levels
   * further out. Read from the last match back.
   */
  function Innermost(history: seq<Pattern>, exits: nat): Option<Pattern> {
    if history == [] then None
    else
      var n := |history| - 1;
      match history[n].action
      case Stay => Innermost(history[..n], exits)
      case Exit => Innermost(history[..n], exits + 1)
      case ExitAll => None
      case Enter(_) => if exits == 0 then Some(history[n]) else Innermost(history[..n], exits - 1)
  }

  /** The patterns of this state are the ones looked for. */
  function StateOf(history: seq<Pattern>): nat {
    match Innermost(history, 0)
    case None => 0
    case Some(p) => if p.action.Enter? then p.action.state else 0
  }

  /** Text without a style of its own has that of the environment; a state has none. */
  function Environment(history: seq<Pattern>): Option<StyleName> {
    match Innermost(history, 0)
    case None => None
    case Some(p) => if p.isState || p.style.Parts? then None else p.style.name
  }

  // ------------------------------------------------------------------ the matches of a line

  /** A match of a pattern, at a position in the text. */
  datatype Matched = Matched(pattern: Pattern, index: nat, hit: Hit)

  /** How much text it covers: its subexpressions, or all of it. */
  function Extent(h: Matched): nat {
    match h.pattern.style
    case Whole(_) => h.hit.length
    case Parts(names) => if |names| <= |h.hit.parts| then Sum(h.hit.parts[..|names|]) else 0
  }

  /** The subexpression that covers an offset gives its style. */
  function PartAt(names: seq<Option<StyleName>>, lengths: seq<nat>, offset: nat): Option<StyleName>
    decreases |names|
  {
    if names == [] || lengths == [] then None
    else if offset < lengths[0] then names[0]
    else PartAt(names[1..], lengths[1..], offset - lengths[0])
  }

  function Given(h: Matched, offset: nat): Option<StyleName> {
    match h.pattern.style
    case Whole(name) => name
    case Parts(names) => PartAt(names, h.hit.parts, offset)
  }

  function Patterns(hits: seq<Matched>): seq<Pattern> {
    if hits == [] then [] else [hits[0].pattern] + Patterns(hits[1..])
  }

  /** The style of the character at `q`: of the match that covers it, else of the environment it lies in. */
  function Painted(before: seq<Pattern>, hits: seq<Matched>, q: nat): Option<StyleName>
    decreases |hits|
  {
    if hits == [] || q < hits[0].index then Environment(before)
    else if q < hits[0].index + Extent(hits[0]) then
      var given := Given(hits[0], q - hits[0].index);
      if given.Some? then given else Environment(before)
    else Painted(before + [hits[0].pattern], hits[1..], q)
  }

  /** Of all matches at or after `from` it is the leftmost, and of those the one of the first pattern. */
  ghost predicate IsBest(l: Line, state: nat, from: nat, p: nat, m: Match)
    requires state < |l.language|
  {
    && p < |l.language[state]| && from <= m.index <= l.length && l.matches(state, p, m.index) == Some(m.hit)
    && forall r, i :: 0 <= r < |l.language[state]| && from <= i <= l.length && l.matches(state, r, i).Some? ==>
         m.index < i || (m.index == i && p <= r)
  }

  ghost predicate NothingMatches(l: Line, state: nat, from: nat)
    requires state < |l.language|
  {
    forall r, i :: 0 <= r < |l.language[state]| && from <= i <= l.length ==> l.matches(state, r, i).None?
  }

  /** `h` is the best match of the line from position `pos` on, for the state that the earlier matches led to. */
  ghost predicate BestAt(l: Line, before: seq<Pattern>, pos: nat, h: Matched)
    requires StateOf(before) < |l.language|
  {
    l.start <= pos && l.start <= h.index
    && exists p :: 0 <= p < |l.language[StateOf(before)]| && h.pattern == l.language[StateOf(before)][p]
         && IsBest(l, StateOf(before), pos - l.start, p, Match(h.index - l.start, h.hit))
  }

  /** These are the matches of the line from `pos` on, one after the other; after the last one nothing matches. */
  ghost predicate Scans(l: Line, before: seq<Pattern>, pos: nat, hits: seq<Matched>, ended: bool)
    decreases |hits|
  {
    && StateOf(before) < |l.language| && l.start <= pos
    && if hits == [] then ended ==> NothingMatches(l, StateOf(before), pos - l.start)
       else
         && BestAt(l, before, pos, hits[0])
         && Scans(l, before + [hits[0].pattern], hits[0].index + Extent(hits[0]), hits[1..], ended)
  }

  // ------------------------------------------------------------------ the search

  lemma {:induction false} SearchLeftmost(l: Line, s: nat, p: nat, from: nat, i: nat)
    requires from <= i <= l.length && l.matches(s, p, i).Some?
    ensures var m := Search(l, s, p, from); m.Some? && m.value.index <= i
    decreases i - from
  {
    if from < i {
      SearchLeftmost(l, s, p, from + 1, i);
    }
  }

  lemma BestMeans(l: Line, s: nat, from: nat)
    requires s < |l.language|
    ensures match BestOf(l, s, from, |l.language[s]|)
            case NoMatch => NothingMatches(l, s, from)
            case Found(p, m) => IsBest(l, s, from, p, m)
  {
    hide Search, BestOf;
    var k := |l.language[s]|;
    forall r, i | 0 <= r < k && from <= i <= l.length && l.matches(s, r, i).Some?
      ensures var b := BestOf(l, s, from, k); b.Found? && (b.m.index < i || (b.m.index == i && b.pattern <= r))
    {
      SearchLeftmost(l, s, r, from, i);
      BestIsLeast(l, s, from, k, r);
    }
  }

  /** There is only one best match, */
  lemma BestUnique(l: Line, before: seq<Pattern>, pos: nat, g: Matched, h: Matched)
    requires StateOf(before) < |l.language| && BestAt(l, before, pos, g) && BestAt(l, before, pos, h)
    ensures g == h
  {
    hide StateOf;
    var state, from := StateOf(before), pos - l.start;
    var p :| 0 <= p < |l.language[state]| && g.pattern == l.language[state][p]
      && IsBest(l, state, from, p, Match(g.index - l.start, g.hit));
    var r :| 0 <= r < |l.language[state]| && h.pattern == l.language[state][r]
      && IsBest(l, state, from, r, Match(h.index - l.start, h.hit));
    assert l.matches(state, p, g.index - l.start).Some? && l.matches(state, r, h.index - l.start).Some?;
  }

  lemma BestMatches(l: Line, before: seq<Pattern>, pos: nat, h: Matched)
    requires StateOf(before) < |l.language| && BestAt(l, before, pos, h)
    ensures l.start <= pos && !NothingMatches(l, StateOf(before), pos - l.start)
  {
    hide StateOf;
    var state := StateOf(before);
    var p :| 0 <= p < |l.language[state]| && h.pattern == l.language[state][p]
      && IsBest(l, state, pos - l.start, p, Match(h.index - l.start, h.hit));
    assert l.matches(state, p, h.index - l.start).Some?;
  }

  /** so the matches of a line are determined, and with them every style. */
  lemma {:induction false} ScansUnique(l: Line, before: seq<Pattern>, pos: nat, a: seq<Matched>, b: seq<Matched>)
    requires Scans(l, before, pos, a, true) && Scans(l, before, pos, b, true)
    ensures a == b
    decreases |a|
  {
    hide BestAt, NothingMatches, StateOf, Extent;
    if a != [] { BestMatches(l, before, pos, a[0]); }
    if b != [] { BestMatches(l, before, pos, b[0]); }
    if a == [] {
    } else {
      BestUnique(l, before, pos, a[0], b[0]);
      ScansUnique(l, before + [a[0].pattern], a[0].index + Extent(a[0]), a[1..], b[1..]);
      assert a == [a[0]] + a[1..] && b == [b[0]] + b[1..];
    }
  }

  // ------------------------------------------------------------------ the stack

  /** The stack holds the environments that the history reads back. */
  ghost predicate Stands(history: seq<Pattern>, stack: seq<Pattern>) {
    forall k: nat :: Innermost(history, k) == if k < |stack| then Some(stack[|stack| - 1 - k]) else None
  }

  /** What Exit, ExitAll and Enter leave on the stack is what the history says. */
  lemma ApplyStands(history: seq<Pattern>, stack: seq<Pattern>, p: Pattern)
    requires Stands(history, stack)
    ensures Stands(history + [p], Apply(stack, p))
  {
    var more := history + [p];
    assert more[..|history|] == history;
    forall k: nat
      ensures Innermost(more, k) == var t := Apply(stack, p); if k < |t| then Some(t[|t| - 1 - k]) else None
    {
      match p.action
      case Stay => assert Innermost(more, k) == Innermost(history, k);
      case Exit => assert Innermost(more, k) == Innermost(history, k + 1);
      case ExitAll =>
      case Enter(_) => if k > 0 { assert Innermost(more, k) == Innermost(history, k - 1); }
    }
  }

  lemma StandsMeans(history: seq<Pattern>, stack: seq<Pattern>)
    requires Stands(history, stack)
    ensures Environment(history) == Ambient(stack) && StateOf(history) == StateIndex(stack)
  {
    assert Innermost(history, 0) == if 0 < |stack| then Some(stack[|stack| - 1]) else None;
  }

  // ------------------------------------------------------------------ tags read position by position

  /** The style that the tags leave at `q`: that of the last tag up to there. */
  function Reads(tags: seq<Tag>, q: nat): Option<StyleName> {
    if tags == [] then None
    else
      var n := |tags| - 1;
      if tags[n].pos > q then Reads(tags[..n], q) else if tags[n].Open? then Some(tags[n].node) else None
  }

  lemma ReadsMore(tags: seq<Tag>, t: Tag, q: nat)
    ensures Reads(tags + [t], q)
              == if t.pos > q then Reads(tags, q) else if t.Open? then Some(t.node) else None
  {
    assert (tags + [t])[..|tags|] == tags;
  }

  /** From the present position on, it is the current style. */
  lemma ReadsNow(s: State, q: nat)
    requires TagsOk(s) && s.pos <= q
    ensures Reads(s.tags, q) == s.style
  {
    if s.tags != [] {
      assert InPlace(s.tags, |s.tags| - 1);
    }
  }

  /** What was painted stays, and the text put out gets its style, or the environment's. */
  ghost predicate Paints(s: State, t: State, q: nat, style: Option<StyleName>) {
    Reads(t.tags, q) == if q < s.pos then Reads(s.tags, q) else style
  }

  lemma OutputPaints(s: State, length: nat, given: Option<StyleName>, q: nat)
    requires TagsOk(s) && q < s.pos + length
    ensures Paints(s, Output(s, length, given), q, if given.Some? then given else Ambient(s.stack))
  {
    hide TagsOk, Ambient, Reads;
    var style := if given.Some? then given else Ambient(s.stack);
    if s.pos <= q { ReadsNow(s, q); }
    if length > 0 && s.style != style {
      ReadsMore(s.tags, Close(s.pos), q);
      if style.Some? {
        ReadsMore(CloseTag(s).tags, Open(style.value, s.pos), q);
      }
    }
  }

  lemma {:induction false} PartsPaint(s: State, lengths: seq<nat>, names: seq<Option<StyleName>>, q: nat)
    requires |names| <= |lengths| && TagsOk(s) && q < s.pos + Sum(lengths[..|names|])
    ensures var t := OutputParts(s, lengths, names);
            && t.pos == s.pos + Sum(lengths[..|names|])
            && var given := if s.pos <= q then PartAt(names, lengths, q - s.pos) else None;
               Paints(s, t, q, if given.Some? then given else Ambient(s.stack))
    decreases |names|
  {
    hide TagsOk, Ambient, Reads;
    if names == [] {
    } else {
      var u := Output(s, lengths[0], names[0]);
      SumFront(lengths, |names|);
      OutputTagsOk(s, lengths[0], names[0]);
      if q < u.pos { OutputPaints(s, lengths[0], names[0], q); }
      PartsSum(u, lengths[1..], names[1..]);
      if q < u.pos {
        PartsKeep(u, lengths[1..], names[1..], q);
      } else {
        PartsPaint(u, lengths[1..], names[1..], q);
      }
    }
  }

  lemma SumFront(lengths: seq<nat>, n: nat)
    requires 0 < n <= |lengths|
    ensures Sum(lengths[..n]) == lengths[0] + Sum(lengths[1..][..n - 1])
  {
    assert lengths[..n][1..] == lengths[1..][..n - 1];
  }

  lemma {:induction false} PartsSum(s: State, lengths: seq<nat>, names: seq<Option<StyleName>>)
    requires |names| <= |lengths|
    ensures OutputParts(s, lengths, names).pos == s.pos + Sum(lengths[..|names|])
    decreases |names|
  {
    if names == [] {
    } else {
      SumFront(lengths, |names|);
      PartsSum(Output(s, lengths[0], names[0]), lengths[1..], names[1..]);
    }
  }

  lemma {:induction false} PartsKeep(s: State, lengths: seq<nat>, names: seq<Option<StyleName>>, q: nat)
    requires |names| <= |lengths| && TagsOk(s) && q < s.pos
    ensures Reads(OutputParts(s, lengths, names).tags, q) == Reads(s.tags, q)
    decreases |names|
  {
    hide TagsOk, Ambient, Reads;
    if names == [] {
    } else {
      OutputTagsOk(s, lengths[0], names[0]);
      OutputPaints(s, lengths[0], names[0], q);
      PartsKeep(Output(s, lengths[0], names[0]), lengths[1..], names[1..], q);
    }
  }

  /** The match and the text before it. */
  lemma MatchPaints(s: State, m: Match, at: nat, h: Matched, before: seq<Pattern>, q: nat)
    requires at <= m.index && (h.pattern.style.Parts? ==> |h.pattern.style.names| <= |m.hit.parts|)
    requires TagsOk(s) && Stands(before, s.stack) && at <= s.pos
    requires h.hit == m.hit && h.index == s.pos + (m.index - at)
    ensures var t := AfterMatch(s, m, at, h.pattern);
            && t.pos == h.index + Extent(h)
            && (q < t.pos ==> Paints(s, t, q, Painted(before, [h], q)))
  {
    hide TagsOk, Ambient, Reads, Stands, Innermost, Apply;
    StandsMeans(before, s.stack);
    var u := Output(s, m.index - at, None);
    OutputTagsOk(s, m.index - at, None);
    if q < u.pos { OutputPaints(s, m.index - at, None, q); }
    match h.pattern.style {
      case Whole(name) =>
        if q < u.pos + m.hit.length { OutputPaints(u, m.hit.length, name, q); }
      case Parts(names) =>
        PartsSum(u, m.hit.parts, names);
        if q < u.pos {
          PartsKeep(u, m.hit.parts, names, q);
        } else if q < u.pos + Sum(m.hit.parts[..|names|]) {
          PartsPaint(u, m.hit.parts, names, q);
        }
    }
  }

  // ------------------------------------------------------------------ a run within a line

  /** The matches of a run. */
  ghost function HitsOf(l: Line, s: State, n: nat): seq<Matched>
    requires LineOk(l) && StateOk(l, s)
    decreases n
  {
    if n == 0 then []
    else
      var state := StateIndex(s.stack);
      match BestOf(l, state, s.pos - l.start, |l.language[state]|)
      case NoMatch => []
      case Found(p, m) =>
        StepOk(l, s);
        [Matched(l.language[state][p], l.start + m.index, m.hit)] + HitsOf(l, FreshStep(l, s).0, n - 1)
  }

  /** A round of the loop that finds a match: it is the best one, and is painted as it says. */
  lemma RoundPaints(l: Line, s: State, before: seq<Pattern>, h: Matched, p: nat, m: Match, q: nat)
    requires LineOk(l) && StateOk(l, s) && TagsOk(s) && Stands(before, s.stack)
    requires var state := StateIndex(s.stack);
             && BestOf(l, state, s.pos - l.start, |l.language[state]|) == Found(p, m)
             && h == Matched(l.language[state][p], l.start + m.index, m.hit)
    ensures var t := FreshStep(l, s).0;
            && StateOf(before) < |l.language| && BestAt(l, before, s.pos, h)
            && StateOk(l, t) && TagsOk(t) && Stands(before + [h.pattern], t.stack) && t.pos == h.index + Extent(h)
            && (q < t.pos ==> Paints(s, t, q, Painted(before, [h], q)))
  {
    hide Search, AfterMatch, TagsOk, HitOk, Reads, Stands, Innermost, Painted, Extent, IsBest, Apply;
    var state, at := StateIndex(s.stack), s.pos - l.start;
    StandsMeans(before, s.stack);
    BestMeans(l, state, at);
    assert HitOk(l, h.pattern, m.index, l.matches(state, p, m.index));
    UseHit(l, h.pattern, m);
    StepOk(l, s);
    MatchTagsOk(s, m, at, h.pattern);
    AfterMatchMoves(l, s, m, at, h.pattern);
    ApplyStands(before, s.stack, h.pattern);
    MatchPaints(s, m, at, h, before, q);
  }

  lemma PaintedFirst(before: seq<Pattern>, hits: seq<Matched>, q: nat)
    requires hits != []
    ensures Painted(before, hits, q)
              == if q < hits[0].index + Extent(hits[0]) then Painted(before, [hits[0]], q)
                 else Painted(before + [hits[0].pattern], hits[1..], q)
  {
    hide Innermost;
  }

  /** The matches of a run are the best ones in turn, the stack is what they lead to, and every character is painted. */
  lemma {:induction false} RunPaints(l: Line, s: State, n: nat, before: seq<Pattern>, q: nat)
    requires LineOk(l) && StateOk(l, s) && TagsOk(s) && Stands(before, s.stack)
    ensures var (t, ended) := FreshRun(l, s, n);
            var hits := HitsOf(l, s, n);
            && Scans(l, before, s.pos, hits, ended) && Stands(before + Patterns(hits), t.stack) && s.pos <= t.pos
            && (q < t.pos ==> Paints(s, t, q, Painted(before, hits, q)))
    decreases n
  {
    hide Search, BestOf, FreshStep, TagsOk, Reads, Stands, Innermost, Painted, Extent, BestAt, LineOk;
    StandsMeans(before, s.stack);
    assert before + [] == before;
    var state, at := StateIndex(s.stack), s.pos - l.start;
    StateExists(l, s);
    if n == 0 {
    } else {
      var b := BestOf(l, state, at, |l.language[state]|);
      if b.NoMatch? {
        BestMeans(l, state, at);
        RestPaints(l, s, before, q);
      } else {
        var h := Matched(l.language[state][b.pattern], l.start + b.m.index, b.m.hit);
        RoundPaints(l, s, before, h, b.pattern, b.m, q);
        RoundGoesOn(l, s);
        var u := FreshStep(l, s).0;
        StepOk(l, s);
        RunPaints(l, u, n - 1, before + [h.pattern], q);
        var rest := HitsOf(l, u, n - 1);
        var hits := [h] + rest;
        assert hits[1..] == rest;
        assert before + Patterns(hits) == (before + [h.pattern]) + Patterns(rest);
        PaintedFirst(before, hits, q);
      }
    }
  }

  lemma StateExists(l: Line, s: State)
    requires LineOk(l) && StateOk(l, s)
    ensures StateIndex(s.stack) < |l.language|
  {
  }

  lemma RoundGoesOn(l: Line, s: State)
    requires LineOk(l) && StateOk(l, s)
    ensures FreshStep(l, s).1 <==>
              BestOf(l, StateIndex(s.stack), s.pos - l.start, |l.language[StateIndex(s.stack)]|).NoMatch?
  {
    hide BestOf, AfterMatch;
  }

  /** The rest of a line in which nothing matches. */
  lemma RestPaints(l: Line, s: State, before: seq<Pattern>, q: nat)
    requires LineOk(l) && StateOk(l, s) && TagsOk(s) && Stands(before, s.stack)
    requires BestOf(l, StateIndex(s.stack), s.pos - l.start, |l.language[StateIndex(s.stack)]|).NoMatch?
    ensures var (t, ended) := FreshStep(l, s);
            && ended && t.stack == s.stack && t.pos == l.start + l.length
            && (q < t.pos ==> Paints(s, t, q, Painted(before, [], q)))
  {
    hide Search, BestOf, TagsOk, Reads, Stands, Innermost;
    StandsMeans(before, s.stack);
    var length := l.length - (s.pos - l.start);
    if q < s.pos + length { OutputPaints(s, length, None, q); }
  }

  // ------------------------------------------------------------------ tags and spans

  lemma {:induction false} SpansAppend(tags: seq<Tag>, o: Tag, c: Tag)
    requires Alternating(tags) && o.Open? && c.Close?
    ensures Alternating(tags + [o, c]) && SpansOf(tags + [o, c]) == SpansOf(tags) + [Span(o.node, o.pos, c.pos)]
    decreases |tags|
  {
    var all := tags + [o, c];
    if tags == [] {
      assert all == [o, c] && all[2..] == [];
    } else {
      assert all[2..] == tags[2..] + [o, c];
      SpansAppend(tags[2..], o, c);
    }
  }

  lemma {:induction false} StyleAppend(spans: seq<Span>, last: Span, q: nat)
    ensures StyleAt(spans + [last], q)
              == if StyleAt(spans, q).Some? then StyleAt(spans, q)
                 else if last.from <= q < last.upto then Some(last.node) else None
  {
    if spans == [] {
      assert (spans + [last])[1..] == [];
    } else {
      assert (spans + [last])[1..] == spans[1..] + [last];
      StyleAppend(spans[1..], last, q);
    }
  }

  /** The tags read one by one give every position the style of the span that covers it. */
  lemma {:induction false} ReadsSpans(tags: seq<Tag>, q: nat)
    requires Spans(tags)
    ensures Alternating(tags) && StyleAt(SpansOf(tags), q) == Reads(tags, q)
    decreases |tags|
  {
    if tags == [] {
    } else {
      var n := |tags| - 2;
      var front, o, c := tags[..n], tags[n], tags[n + 1];
      assert InPlace(tags, n) && InPlace(tags, n + 1);
      assert Spans(front) by {
        forall i | 0 <= i < n
          ensures InPlace(front, i)
        {
          assert InPlace(tags, i);
        }
      }
      ReadsSpans(front, q);
      SpansAppend(front, o, c);
      StyleAppend(SpansOf(front), Span(o.node, o.pos, c.pos), q);
      assert tags == front + [o, c] && tags[..n + 1] == front + [o] && tags[..n + 1][..n] == front;
      if o.pos <= q && front != [] {
        assert front[n - 1] == tags[n - 1] && InPlace(tags, n - 1);
      }
    }
  }

  // ------------------------------------------------------------------ the whole text

  /** All patterns matched in these lines. */
  function History(hits: seq<seq<Matched>>): seq<Pattern> {
    if hits == [] then [] else var n := |hits| - 1; History(hits[..n]) + Patterns(hits[n])
  }

  /** The matches of every line. */
  ghost function TextHits(language: Language, rows: seq<Row>): (hits: seq<seq<Matched>>)
    requires TextOk(language, rows)
    ensures |hits| == |rows|
  {
    if rows == [] then []
    else
      var n := |rows| - 1;
      TextPrefix(language, rows, n);
      TextHits(language, rows[..n]) + [HitsOf(rows[n].line, Highlighted(language, rows[..n]), rows[n].rounds)]
  }

  /** The end of a line has no style. */
  lemma EndLinePaints(s: State, next: nat, q: nat)
    requires TagsOk(s)
    ensures Reads(EndLine(s, next).tags, q) == if q < s.pos then Reads(s.tags, q) else None
  {
    hide TagsOk, Reads;
    if s.pos <= q { ReadsNow(s, q); }
    ReadsMore(s.tags, Close(s.pos), q);
  }

  /** How one line is painted, after all the lines before it. */
  ghost predicate RowPainted(row: Row, before: seq<Pattern>, hits: seq<Matched>, q: nat, style: Option<StyleName>) {
    row.line.start <= q < row.next ==>
      style == if q < row.line.start + row.line.length then Painted(before, hits, q) else None
  }

  /** All lines so far have their matches and their styles at `q`. */
  ghost predicate RowsPainted(rows: seq<Row>, hits: seq<seq<Matched>>, q: nat, style: Option<StyleName>) {
    |hits| == |rows| && forall i :: 0 <= i < |rows| ==> RowIs(rows[i], History(hits[..i]), hits[i], q, style)
  }

  ghost predicate RowIs(row: Row, before: seq<Pattern>, hits: seq<Matched>, q: nat, style: Option<StyleName>) {
    Scans(row.line, before, row.line.start, hits, true) && RowPainted(row, before, hits, q, style)
  }

  /** The next line changes nothing before it. */
  lemma RowsMore(
      rows: seq<Row>, hits: seq<seq<Matched>>, q: nat, was: Option<StyleName>, style: Option<StyleName>)
    requires rows != [] && |hits| == |rows|
    requires var n := |rows| - 1;
             && RowsPainted(rows[..n], hits[..n], q, was) && RowIs(rows[n], History(hits[..n]), hits[n], q, style)
             && (q < rows[n].line.start ==> style == was)
             && forall i :: 0 <= i < n ==> rows[i].next <= rows[n].line.start
    ensures RowsPainted(rows, hits, q, style)
  {
    hide Scans, Painted, History;
    var n := |rows| - 1;
    forall i | 0 <= i < n
      ensures RowIs(rows[i], History(hits[..i]), hits[i], q, style)
    {
      assert rows[i] == rows[..n][i] && hits[i] == hits[..n][i] && hits[..n][..i] == hits[..i];
      assert RowIs(rows[..n][i], History(hits[..n][..i]), hits[..n][i], q, was);
    }
  }

  lemma TextHitsFront(language: Language, rows: seq<Row>)
    requires TextOk(language, rows) && rows != [] && TextOk(language, rows[..|rows| - 1])
    ensures var n := |rows| - 1; var hits := TextHits(language, rows);
            && |hits| == n + 1 && hits[..n] == TextHits(language, rows[..n])
            && History(hits) == History(hits[..n]) + Patterns(hits[n])
  {
    hide Highlighted, HitsOf, Patterns;
  }

  lemma {:induction false} TextPaints(language: Language, rows: seq<Row>, q: nat)
    requires TextOk(language, rows) && RowsEnd(language, rows)
    ensures var hits, s := TextHits(language, rows), Highlighted(language, rows);
            Stands(History(hits), s.stack) && RowsPainted(rows, hits, q, Reads(s.tags, q))
  {
    hide TagsOk, Reads, Stands, Scans, RowPainted, LineOk, Spans, TextOk, RowsEnd, RowEnds;
    if rows == [] {
      NothingStands();
    } else {
      hide Highlighted, TextHits, History;
      var n := |rows| - 1;
      EndsBefore(language, rows, n);
      TextPaints(language, rows[..n], q);
      TextHitsFront(language, rows);
      RowPaints(language, rows, q);
      forall i | 0 <= i < n
        ensures rows[i].next <= rows[n].line.start
      {
        StartsLater(language, rows, i);
      }
      RowsMore(rows, TextHits(language, rows), q, Reads(Highlighted(language, rows[..n]).tags, q),
               Reads(Highlighted(language, rows).tags, q));
    }
  }

  lemma NothingStands()
    ensures Stands([], [])
  {
  }

  lemma EndsBefore(language: Language, rows: seq<Row>, n: nat)
    requires TextOk(language, rows) && RowsEnd(language, rows) && n < |rows|
    ensures TextOk(language, rows[..n]) && RowsEnd(language, rows[..n])
    ensures RowEnds(language, rows, n)
  {
    hide RowAt, FreshRun;
    TextPrefix(language, rows, n);
    forall i | 0 <= i < n
      ensures RowEnds(language, rows[..n], i)
    {
      assert RowEnds(language, rows, i) && rows[..n][..i] == rows[..i];
    }
  }

  /** The lines before the last one end where it starts at the latest. */
  lemma {:induction false} StartsLater(language: Language, rows: seq<Row>, i: nat)
    requires TextOk(language, rows) && i + 1 < |rows|
    ensures rows[i].next <= rows[|rows| - 1].line.start
  {
    hide LineOk;
    var n := |rows| - 1;
    assert RowAt(language, rows, n) && RowAt(language, rows, n - 1);
    if i + 1 < n {
      TextPrefix(language, rows, n);
      StartsLater(language, rows[..n], i);
    }
  }

  /** The last line. */
  lemma RowPaints(language: Language, rows: seq<Row>, q: nat)
    requires TextOk(language, rows) && rows != [] && TextOk(language, rows[..|rows| - 1])
    requires RowEnds(language, rows, |rows| - 1)
    requires Stands(History(TextHits(language, rows[..|rows| - 1])), Highlighted(language, rows[..|rows| - 1]).stack)
    ensures var n := |rows| - 1;
            var row, s, t := rows[n], Highlighted(language, rows[..n]), Highlighted(language, rows);
            var before, hits := History(TextHits(language, rows[..n])), TextHits(language, rows)[n];
            && RowIs(row, before, hits, q, Reads(t.tags, q)) && Stands(before + Patterns(hits), t.stack)
            && (q < row.line.start ==> Reads(t.tags, q) == Reads(s.tags, q))
  {
    hide TagsOk, Reads, Stands, Scans, Painted, FreshRun, HitsOf, LineOk, Spans;
    var n := |rows| - 1;
    TextPrefix(language, rows, n);
    var row, s := rows[n], Highlighted(language, rows[..n]);
    var before := History(TextHits(language, rows[..n]));
    RunPaints(row.line, s, row.rounds, before, q);
    LineScanned(row.line, s, row.rounds);
    RunTagsOk(row.line, s, row.rounds);
    EndLinePaints(FreshRun(row.line, s, row.rounds).0, row.next, q);
  }

  /**
   * The whole text. In every line the matches are the best ones in turn, for the states that all matches before them
   * lead to, until nothing matches; every character has the style of the match or subexpression that covers it, or
   * else of the innermost environment; line ends have none.
   */
  lemma HighlightedMeans(language: Language, rows: seq<Row>)
    requires TextOk(language, rows) && RowsEnd(language, rows)
    ensures var tags := Highlighted(language, rows).tags;
            && Alternating(tags)
            && exists hits: seq<seq<Matched>> ::
                 |hits| == |rows| && forall i :: 0 <= i < |rows| ==>
                   && Scans(rows[i].line, History(hits[..i]), rows[i].line.start, hits[i], true)
                   && forall q :: RowPainted(rows[i], History(hits[..i]), hits[i], q, StyleAt(SpansOf(tags), q))
  {
    hide Reads, Scans, Painted, Highlighted, TextHits, Alternating, SpansOf, TextOk;
    hide RowsEnd, RowPainted, Stands, History, Spans;
    var tags, hits := Highlighted(language, rows).tags, TextHits(language, rows);
    ReadsSpans(tags, 0);
    TextPaints(language, rows, 0);
    forall i, q: nat | 0 <= i < |rows|
      ensures RowPainted(rows[i], History(hits[..i]), hits[i], q, StyleAt(SpansOf(tags), q))
    {
      TextPaints(language, rows, q);
      ReadsSpans(tags, q);
      assert RowIs(rows[i], History(hits[..i]), hits[i], q, Reads(tags, q));
    }
  }
}
