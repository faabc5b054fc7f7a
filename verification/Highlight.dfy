/**
 * doc/sh_main.js, `sh_highlightString`: one line at a time, every pattern of the current state is searched for;
 * matches are cached and reused as long as they lie ahead. The cached scanner is proved to take the very steps
 * of one that always searches afresh, and the tags it emits are proved to be what `sh_mergeTags` asks for.
 */
module Highlight {

  import opened Common

  type StyleName = string

  // ------------------------------------------------------------------ language and line

  /** The style of a pattern: one for the match, or one for each subexpression. */
  datatype Style = Whole(name: Option<StyleName>) | Parts(names: seq<Option<StyleName>>)

  /** What matching it does to the pattern stack; `Enter` holds the index of the state to enter. */
  datatype Action = Stay | Exit | ExitAll | Enter(state: nat)

  datatype Pattern = Pattern(style: Style, action: Action, isState: bool)

  type Language = seq<seq<Pattern>>

  /** A match: its length and the lengths of its subexpressions. */
  datatype Hit = Hit(length: nat, parts: seq<nat>)

  datatype Match = Match(index: nat, hit: Hit)

  /** Whether pattern `p` of state `s` matches the line at a given index. */
  type Matcher = (nat, nat, nat) -> Option<Hit>

  /** A language and one line: where it starts, its length, and what matches in it. */
  datatype Line = Line(language: Language, start: nat, length: nat, matches: Matcher)

  /** `regex.exec(line)` with `lastIndex = from`: the leftmost match at or after `from`. */
  function Search(l: Line, s: nat, p: nat, from: nat): (m: Option<Match>)
    ensures m.Some? ==> from <= m.value.index <= l.length && l.matches(s, p, m.value.index) == Some(m.value.hit)
    decreases l.length + 1 - from
  {
    if from > l.length then None
    else
      var hit := l.matches(s, p, from);
      if hit.Some? then Some(Match(from, hit.value)) else Search(l, s, p, from + 1)
  }

  /** A later search finds the same match as long as it has not been passed, and nothing where nothing was. */
  lemma {:induction false} SearchLater(l: Line, s: nat, p: nat, from: nat, later: nat)
    requires from <= later
    ensures var m := Search(l, s, p, from);
            m.None? || later <= m.value.index ==> Search(l, s, p, later) == m
    decreases later - from
  {
    if from < later {
      if from <= l.length && l.matches(s, p, from).None? {
        SearchLater(l, s, p, from + 1, later);
      }
    }
  }

  // ------------------------------------------------------------------ the best match, searched afresh

  datatype Best = NoMatch | Found(pattern: nat, m: Match)

  function Better(best: Best, p: nat, m: Option<Match>): Best {
    if m.Some? && (best.NoMatch? || m.value.index < best.m.index) then Found(p, m.value) else best
  }

  /** The best among the first `k` patterns: least index, and among those the least pattern number. */
  function BestOf(l: Line, s: nat, from: nat, k: nat): (b: Best)
    ensures b.Found? ==> b.pattern < k && Search(l, s, b.pattern, from) == Some(b.m)
  {
    if k == 0 then NoMatch else Better(BestOf(l, s, from, k - 1), k - 1, Search(l, s, k - 1, from))
  }

  /**
   * That is what it says: no pattern matches at all, or none matches earlier, and none with a smaller number as
   * early.
   */
  lemma {:induction false} BestIsLeast(l: Line, s: nat, from: nat, k: nat, p: nat)
    requires p < k
    ensures var b, m := BestOf(l, s, from, k), Search(l, s, p, from);
            && (b.NoMatch? ==> m.None?)
            && (b.Found? && m.Some? ==> b.m.index <= m.value.index && (m.value.index == b.m.index ==> b.pattern <= p))
  {
    if p < k - 1 {
      BestIsLeast(l, s, from, k - 1, p);
    }
  }

  /** Once a match at the current position is found, the remaining patterns do not matter. */
  lemma {:induction false} BestSettled(l: Line, s: nat, from: nat, j: nat, k: nat)
    requires j <= k && BestOf(l, s, from, j).Found? && BestOf(l, s, from, j).m.index == from
    ensures BestOf(l, s, from, k) == BestOf(l, s, from, j)
    decreases k - j
  {
    if j < k {
      BestSettled(l, s, from, j + 1, k);
    }
  }

  // ------------------------------------------------------------------ output

  datatype Tag = Open(node: StyleName, pos: nat) | Close(pos: nat)

  /** The scanner's variables, but for the cache. */
  datatype State = State(tags: seq<Tag>, stack: seq<Pattern>, pos: nat, style: Option<StyleName>)

  /** The style that unmatched text gets from the innermost environment. */
  function Ambient(stack: seq<Pattern>): Option<StyleName> {
    if stack == [] then None
    else var top := stack[|stack| - 1]; if top.isState || top.style.Parts? then None else top.style.name
  }

  function CloseTag(s: State): State {
    if s.style.Some? then s.(tags := s.tags + [Close(s.pos)], style := None) else s
  }

  /** The closure `output`. */
  function Output(s: State, length: nat, given: Option<StyleName>): State {
    if length == 0 then s
    else
      var style := if given.Some? then given else Ambient(s.stack);
      if s.style == style then s.(pos := s.pos + length)
      else
        var t := CloseTag(s);
        t.(tags := if style.Some? then t.tags + [Open(style.value, s.pos)] else t.tags,
           pos := s.pos + length, style := style)
  }

  function OutputParts(s: State, lengths: seq<nat>, names: seq<Option<StyleName>>): State
    requires |names| <= |lengths|
    decreases |names|
  {
    if names == [] then s else OutputParts(Output(s, lengths[0], names[0]), lengths[1..], names[1..])
  }

  function Sum(lengths: seq<nat>): nat {
    if lengths == [] then 0 else lengths[0] + Sum(lengths[1..])
  }

  function StateIndex(stack: seq<Pattern>): nat {
    if stack == [] || !stack[|stack| - 1].action.Enter? then 0 else stack[|stack| - 1].action.state
  }

  function Apply(stack: seq<Pattern>, p: Pattern): seq<Pattern> {
    match p.action
    case Stay => stack
    case Exit => if stack == [] then [] else stack[..|stack| - 1]
    case ExitAll => []
    case Enter(_) => stack + [p]
  }

  /** What the language and the matches must obey: states exist, and subexpressions lie inside their match. */
  ghost predicate LineOk(l: Line) {
    && |l.language| > 0
    && (forall s, p :: 0 <= s < |l.language| && 0 <= p < |l.language[s]| ==> PatternOk(l.language, l.language[s][p]))
    && (forall s, p, i :: 0 <= s < |l.language| && 0 <= p < |l.language[s]| && 0 <= i <= l.length ==>
          HitOk(l, l.language[s][p], i, l.matches(s, p, i)))
  }

  predicate PatternOk(language: Language, p: Pattern) {
    p.action.Enter? ==> p.action.state < |language| && (p.isState || p.style.Whole?)
  }

  predicate HitOk(l: Line, p: Pattern, i: nat, hit: Option<Hit>) {
    hit.Some? ==>
      && i + hit.value.length <= l.length
      && (p.style.Parts? ==> |p.style.names| <= |hit.value.parts| && Sum(hit.value.parts) <= hit.value.length)
  }

  ghost predicate StackOk(language: Language, stack: seq<Pattern>) {
    forall i :: 0 <= i < |stack| ==> stack[i].action.Enter? && stack[i].action.state < |language|
  }

  ghost predicate StateOk(l: Line, s: State) {
    l.start <= s.pos <= l.start + l.length && StackOk(l.language, s.stack)
  }

  /** One round of the loop at line 153 that searches afresh; true when it ends the line. */
  function FreshStep(l: Line, s: State): (State, bool)
    requires LineOk(l) && StateOk(l, s)
  {
    var at := s.pos - l.start;
    var state := StateIndex(s.stack);
    match BestOf(l, state, at, |l.language[state]|)
    case NoMatch => (Output(s, l.length - at, None), true)
    case Found(p, m) =>
      assert HitOk(l, l.language[state][p], m.index, l.matches(state, p, m.index));
      (AfterMatch(s, m, at, l.language[state][p]), false)
  }

  function AfterMatch(s: State, m: Match, at: nat, pattern: Pattern): State
    requires at <= m.index && (pattern.style.Parts? ==> |pattern.style.names| <= |m.hit.parts|)
  {
    var s1 := Output(s, m.index - at, None);
    var s2 := match pattern.style
      case Whole(name) => Output(s1, m.hit.length, name)
      case Parts(names) => OutputParts(s1, m.hit.parts, names);
    s2.(stack := Apply(s2.stack, pattern))
  }

  /** `n` rounds, or fewer if the line ends. */
  function FreshRun(l: Line, s: State, n: nat): (State, bool)
    requires LineOk(l) && StateOk(l, s)
    decreases n
  {
    if n == 0 then (s, false)
    else
      var (t, ended) := FreshStep(l, s);
      if ended then (t, true) else StepOk(l, s); FreshRun(l, t, n - 1)
  }

  lemma {:induction false} PartsMove(s: State, lengths: seq<nat>, names: seq<Option<StyleName>>)
    requires |names| <= |lengths|
    ensures var t := OutputParts(s, lengths, names); t.stack == s.stack && s.pos <= t.pos <= s.pos + Sum(lengths)
    decreases |names|
  {
    if names == [] {
    } else {
      PartsMove(Output(s, lengths[0], names[0]), lengths[1..], names[1..]);
    }
  }

  lemma AfterMatchMoves(l: Line, s: State, m: Match, at: nat, pattern: Pattern)
    requires l.start <= s.pos && at == s.pos - l.start && at <= m.index && HitOk(l, pattern, m.index, Some(m.hit))
    ensures var t := AfterMatch(s, m, at, pattern);
            s.pos <= t.pos <= l.start + l.length && t.stack == Apply(s.stack, pattern)
  {
    hide Ambient, Apply;
    var s1 := Output(s, m.index - at, None);
    if pattern.style.Parts? {
      PartsMove(s1, m.hit.parts, pattern.style.names);
    }
  }

  /** A round keeps the position inside the line and never moves it back. */
  lemma StepOk(l: Line, s: State)
    requires LineOk(l) && StateOk(l, s)
    ensures var t := FreshStep(l, s).0; StateOk(l, t) && s.pos <= t.pos
  {
    hide Search, BestOf, AfterMatch, HitOk;
    var at := s.pos - l.start;
    var state := StateIndex(s.stack);
    var b := BestOf(l, state, at, |l.language[state]|);
    if b.Found? {
      var pattern := l.language[state][b.pattern];
      assert PatternOk(l.language, pattern);
      assert HitOk(l, pattern, b.m.index, l.matches(state, b.pattern, b.m.index));
      AfterMatchMoves(l, s, b.m, at, pattern);
    }
  }

  // ------------------------------------------------------------------ the cached scanner

  /** A cached result can stand in for a search from `at` whenever the code reuses it. */
  ghost predicate Fresh(l: Line, s: nat, p: nat, at: nat, cached: Option<Match>) {
    cached.None? || at <= cached.value.index ==> Search(l, s, p, at) == cached
  }

  type Cache = map<nat, seq<Option<Match>>>

  ghost predicate CacheOk(l: Line, at: nat, cache: Cache) {
    forall s, p :: s in cache && 0 <= p < |cache[s]| ==> Fresh(l, s, p, at, cache[s][p])
  }

  /** Moving right keeps a cached result good. */
  lemma FreshLater(l: Line, s: nat, p: nat, from: nat, later: nat, cached: Option<Match>)
    requires from <= later && Fresh(l, s, p, from, cached)
    ensures Fresh(l, s, p, later, cached)
  {
    if cached.None? || later <= cached.value.index {
      SearchLater(l, s, p, from, later);
    }
  }

  lemma CachePut(l: Line, at: nat, cache: Cache, s: nat, mc: seq<Option<Match>>)
    requires CacheOk(l, at, cache) && forall p :: 0 <= p < |mc| ==> Fresh(l, s, p, at, mc[p])
    ensures CacheOk(l, at, cache[s := mc])
  {
    hide Fresh;
  }

  lemma CacheGet(l: Line, at: nat, cache: Cache, s: nat)
    requires CacheOk(l, at, cache) && s in cache
    ensures forall p :: 0 <= p < |cache[s]| ==> Fresh(l, s, p, at, cache[s][p])
  {
    hide Fresh;
  }

  lemma CacheLater(l: Line, from: nat, later: nat, cache: Cache)
    requires from <= later && CacheOk(l, from, cache)
    ensures CacheOk(l, later, cache)
  {
    hide Fresh;
    forall s, p | s in cache && 0 <= p < |cache[s]| ensures Fresh(l, s, p, later, cache[s][p]) {
      FreshLater(l, s, p, from, later, cache[s][p]);
    }
  }

  class Scanner {
    const line: Line
    var tags: seq<Tag>
    var patternStack: seq<Pattern>
    var pos: nat
    var currentStyle: Option<StyleName>
    var matchCache: Cache

    ghost function Abs(): State
      reads this
    {
      State(tags, patternStack, pos, currentStyle)
    }

    ghost predicate Valid()
      reads this
    {
      LineOk(line) && StateOk(line, Abs()) && CacheOk(line, pos - line.start, matchCache)
    }

    /** A new line: the stack, the style and the tags carry over, the cache does not. */
    constructor (line: Line, s: State)
      requires LineOk(line) && StateOk(line, s)
      ensures Valid() && Abs() == s && this.line == line
    {
      this.line := line;
      tags, patternStack, pos, currentStyle, matchCache := s.tags, s.stack, s.pos, s.style, map[];
    }

    /** Lines 168-192: the search through the patterns with the cache. */
    method FindBest(at: nat, stateIndex: nat) returns (best: Best)
      requires stateIndex < |line.language| && CacheOk(line, at, matchCache)
      modifies this`matchCache
      ensures best == BestOf(line, stateIndex, at, |line.language[stateIndex]|)
      ensures CacheOk(line, at, matchCache)
    {
      hide Search, Fresh, CacheOk;
      var numPatterns := |line.language[stateIndex]|;
      if stateIndex !in matchCache {
        CachePut(line, at, matchCache, stateIndex, []);
        matchCache := matchCache[stateIndex := []];
      }
      CacheGet(line, at, matchCache, stateIndex);
      var mc := matchCache[stateIndex];
      best := NoMatch;
      var i := 0;
      while i < numPatterns
        invariant 0 <= i <= numPatterns && i <= |mc|
        invariant CacheOk(line, at, matchCache) && forall p :: 0 <= p < |mc| ==> Fresh(line, stateIndex, p, at, mc[p])
        invariant best == BestOf(line, stateIndex, at, i)
        invariant best.Found? ==> at < best.m.index
      {
        var found: Option<Match>;
        if i < |mc| && (mc[i].None? || at <= mc[i].value.index) {
          found := mc[i];
          UseFresh(line, stateIndex, i, at, found);
        } else {
          found := Search(line, stateIndex, i, at);
          MakeFresh(line, stateIndex, i, at);
          mc := if i < |mc| then mc[i := found] else mc + [found];
          CachePut(line, at, matchCache, stateIndex, mc);
          matchCache := matchCache[stateIndex := mc];
        }
        if found.Some? && (best.NoMatch? || found.value.index < best.m.index) {
          best := Found(i, found.value);
          if found.value.index == at {
            BestSettled(line, stateIndex, at, i + 1, numPatterns);
            return;
          }
        }
        i := i + 1;
      }
    }

    /** The closure `output`, for text of the given length. */
    method Emit(length: nat, given: Option<StyleName>)
      modifies this`tags, this`pos, this`currentStyle
      ensures Abs() == Output(old(Abs()), length, given)
    {
      if length == 0 { return; }
      var style := given;
      if style.None? && |patternStack| != 0 {
        var pattern := patternStack[|patternStack| - 1];
        if !pattern.isState && pattern.style.Whole? {
          style := pattern.style.name;
        }
      }
      if currentStyle != style {
        if currentStyle.Some? {
          tags := tags + [Close(pos)];
        }
        if style.Some? {
          tags := tags + [Open(style.value, pos)];
        }
      }
      pos := pos + length;
      currentStyle := style;
    }

    /** Lines 200-217: the text before the match, then the match or its subexpressions. */
    method EmitMatch(m: Match, at: nat, pattern: Pattern)
      requires at <= m.index && (pattern.style.Parts? ==> |pattern.style.names| <= |m.hit.parts|)
      modifies this`tags, this`pos, this`currentStyle, this`patternStack
      ensures Abs() == AfterMatch(old(Abs()), m, at, pattern)
    {
      hide Output, Ambient;
      ghost var s1 := Output(Abs(), m.index - at, None);
      if m.index > at {
        Emit(m.index - at, None);
      } else {
        OutputNothing(Abs());
      }
      match pattern.style {
        case Parts(names) =>
          var k := 0;
          ghost var all := OutputParts(s1, m.hit.parts, names);
          assert names[0..] == names && m.hit.parts[0..] == m.hit.parts;
          while k < |names|
            invariant 0 <= k <= |names| && patternStack == old(patternStack)
            invariant OutputParts(Abs(), m.hit.parts[k..], names[k..]) == all
          {
            assert names[k..][1..] == names[k + 1..] && m.hit.parts[k..][1..] == m.hit.parts[k + 1..];
            Emit(m.hit.parts[k], names[k]);
            k := k + 1;
          }
        case Whole(name) =>
          Emit(m.hit.length, name);
      }
      match pattern.action {
        case Stay =>
        case Exit => if patternStack != [] { patternStack := patternStack[..|patternStack| - 1]; }
        case ExitAll => patternStack := [];
        case Enter(_) => patternStack := patternStack + [pattern];
      }
    }

    /** One round of the loop at line 153: the same as a round that searches every pattern afresh. */
    method Step() returns (ended: bool)
      requires Valid()
      modifies this
      ensures Valid() && (Abs(), ended) == FreshStep(line, old(Abs()))
    {
      hide Search, BestOf, AfterMatch, Output, HitOk, CacheOk;
      ghost var s := Abs();
      StepOk(line, s);
      var at := pos - line.start;
      var stateIndex := if patternStack == [] then 0 else StateIndex(patternStack);
      var best := FindBest(at, stateIndex);
      if best.NoMatch? {
        Emit(line.length - at, None);
        ended := true;
      } else {
        var pattern := line.language[stateIndex][best.pattern];
        assert HitOk(line, pattern, best.m.index, line.matches(stateIndex, best.pattern, best.m.index));
        UseHit(line, pattern, best.m);
        EmitMatch(best.m, at, pattern);
        ended := false;
      }
      CacheLater(line, at, pos - line.start, matchCache);
    }

    /** Any number of rounds within a line. */
    method Run(n: nat) returns (ended: bool)
      requires Valid()
      modifies this
      ensures Valid() && (Abs(), ended) == FreshRun(line, old(Abs()), n)
    {
      hide FreshStep, CacheOk;
      ended := false;
      var k := n;
      while k > 0 && !ended
        invariant Valid()
        invariant if ended then FreshRun(line, old(Abs()), n) == (Abs(), true)
                  else FreshRun(line, old(Abs()), n) == FreshRun(line, Abs(), k)
      {
        ended := Step();
        k := k - 1;
      }
    }
  }

  lemma OutputNothing(s: State)
    ensures Output(s, 0, None) == s
  {
  }

  lemma UseHit(l: Line, p: Pattern, m: Match)
    requires HitOk(l, p, m.index, Some(m.hit))
    ensures p.style.Parts? ==> |p.style.names| <= |m.hit.parts|
  {
  }

  lemma UseFresh(l: Line, s: nat, p: nat, at: nat, cached: Option<Match>)
    requires Fresh(l, s, p, at, cached) && (cached.None? || at <= cached.value.index)
    ensures Search(l, s, p, at) == cached
  {
  }

  lemma MakeFresh(l: Line, s: nat, p: nat, at: nat)
    ensures Fresh(l, s, p, at, Search(l, s, p, at))
  {
  }

  // ------------------------------------------------------------------ the tags

  /** Tag `i` has the right kind, and comes after the tag before it; a span is not empty. */
  ghost predicate InPlace(tags: seq<Tag>, i: nat)
    requires i < |tags|
  {
    if i % 2 == 0 then tags[i].Open? && (i > 0 ==> tags[i - 1].pos <= tags[i].pos)
    else tags[i].Close? && tags[i - 1].pos < tags[i].pos
  }

  /** Alternating, non-overlapping, non-empty spans in text order: what `sh_mergeTags` asks for. */
  ghost predicate Spans(tags: seq<Tag>) {
    |tags| % 2 == 0 && forall i :: 0 <= i < |tags| ==> InPlace(tags, i)
  }

  ghost predicate TagsOk(s: State) {
    && (forall i :: 0 <= i < |s.tags| ==> InPlace(s.tags, i))
    && (s.style.Some? <==> |s.tags| % 2 == 1)
    && (s.style.Some? ==> var last := s.tags[|s.tags| - 1]; last.pos < s.pos && last == Open(s.style.value, last.pos))
    && (s.style.None? && s.tags != [] ==> s.tags[|s.tags| - 1].pos <= s.pos)
  }

  lemma Snoc(tags: seq<Tag>, t: Tag)
    requires forall i :: 0 <= i < |tags| ==> InPlace(tags, i)
    requires if |tags| % 2 == 0 then t.Open? && (tags != [] ==> tags[|tags| - 1].pos <= t.pos)
             else t.Close? && tags[|tags| - 1].pos < t.pos
    ensures forall i :: 0 <= i < |tags| + 1 ==> InPlace(tags + [t], i)
  {
    forall i | 0 <= i < |tags| + 1 ensures InPlace(tags + [t], i) {
      if i < |tags| {
        assert InPlace(tags, i);
      }
    }
  }

  lemma CloseTagOk(s: State)
    requires TagsOk(s)
    ensures TagsOk(CloseTag(s)) && CloseTag(s).style.None?
  {
    if s.style.Some? {
      Snoc(s.tags, Close(s.pos));
    }
  }

  lemma OutputTagsOk(s: State, length: nat, given: Option<StyleName>)
    requires TagsOk(s)
    ensures TagsOk(Output(s, length, given))
  {
    hide InPlace, Ambient;
    var style := if given.Some? then given else Ambient(s.stack);
    if length > 0 && s.style != style {
      CloseTagOk(s);
      var t := CloseTag(s);
      if style.Some? {
        Snoc(t.tags, Open(style.value, s.pos));
      }
    }
  }

  lemma {:induction false} PartsTagsOk(s: State, lengths: seq<nat>, names: seq<Option<StyleName>>)
    requires |names| <= |lengths| && TagsOk(s)
    ensures TagsOk(OutputParts(s, lengths, names))
    decreases |names|
  {
    hide TagsOk, Output;
    if names == [] {
    } else {
      OutputTagsOk(s, lengths[0], names[0]);
      PartsTagsOk(Output(s, lengths[0], names[0]), lengths[1..], names[1..]);
    }
  }

  lemma MatchTagsOk(s: State, m: Match, at: nat, pattern: Pattern)
    requires at <= m.index && (pattern.style.Parts? ==> |pattern.style.names| <= |m.hit.parts|) && TagsOk(s)
    ensures TagsOk(AfterMatch(s, m, at, pattern))
  {
    hide Output, OutputParts, InPlace;
    var s1 := Output(s, m.index - at, None);
    OutputTagsOk(s, m.index - at, None);
    match pattern.style {
      case Whole(name) => OutputTagsOk(s1, m.hit.length, name);
      case Parts(names) => PartsTagsOk(s1, m.hit.parts, names);
    }
  }

  /** Every run within a line keeps the tags in order. */
  lemma {:induction false} RunTagsOk(l: Line, s: State, n: nat)
    requires LineOk(l) && StateOk(l, s) && TagsOk(s)
    ensures var t := FreshRun(l, s, n).0; TagsOk(t) && StateOk(l, t)
    decreases n
  {
    hide TagsOk, Output, AfterMatch, BestOf, Search, HitOk;
    if n == 0 {
    } else {
      var at := s.pos - l.start;
      var state := StateIndex(s.stack);
      var b := BestOf(l, state, at, |l.language[state]|);
      if b.NoMatch? {
        OutputTagsOk(s, l.length - at, None);
      } else {
        var pattern := l.language[state][b.pattern];
        assert HitOk(l, pattern, b.m.index, l.matches(state, b.pattern, b.m.index));
        UseHit(l, pattern, b.m);
        MatchTagsOk(s, b.m, at, pattern);
      }
      StepOk(l, s);
      var (t, ended) := FreshStep(l, s);
      if !ended {
        RunTagsOk(l, t, n - 1);
      }
    }
  }

  /** Lines 239-247: the end of a line closes the current style and moves past the line break. */
  function EndLine(s: State, startOfNextLine: nat): State {
    CloseTag(s).(pos := startOfNextLine)
  }

  /** After any line the tags are spans ready for merging, and the next line may begin. */
  lemma LineTagsOk(l: Line, s: State, n: nat, startOfNextLine: nat)
    requires LineOk(l) && StateOk(l, s) && TagsOk(s) && l.start + l.length <= startOfNextLine
    ensures var t := EndLine(FreshRun(l, s, n).0, startOfNextLine);
            && TagsOk(t) && Spans(t.tags) && t.style.None? && StackOk(l.language, t.stack) && t.pos == startOfNextLine
  {
    hide FreshRun, InPlace, StackOk;
    RunTagsOk(l, s, n);
    CloseTagOk(FreshRun(l, s, n).0);
  }

  // ------------------------------------------------------------------ the whole text

  /** A line of the text, the rounds it takes, and where the next one starts. */
  datatype Row = Row(line: Line, rounds: nat, next: nat)

  const BEGIN := State([], [], 0, None)

  /** The lines follow each other, with their line ends in between, in one language. */
  ghost predicate TextOk(language: Language, rows: seq<Row>) {
    forall i :: 0 <= i < |rows| ==> RowAt(language, rows, i)
  }

  ghost predicate RowAt(language: Language, rows: seq<Row>, i: nat)
    requires i < |rows|
  {
    RowOk(language, rows[i]) && rows[i].line.start == if i == 0 then 0 else rows[i - 1].next
  }

  ghost predicate RowOk(language: Language, row: Row) {
    LineOk(row.line) && row.line.language == language && row.line.start + row.line.length <= row.next
  }

  lemma TextPrefix(language: Language, rows: seq<Row>, n: nat)
    requires TextOk(language, rows) && n <= |rows|
    ensures TextOk(language, rows[..n])
    ensures n < |rows| ==> RowOk(language, rows[n]) && rows[n].line.start == if n == 0 then 0 else rows[..n][n - 1].next
  {
    hide RowOk;
    forall i | 0 <= i < n
      ensures RowAt(language, rows[..n], i)
    {
      assert RowAt(language, rows, i);
    }
    assert n < |rows| ==> RowAt(language, rows, n);
  }

  /** Lines 136-248 without the cache. */
  ghost function Highlighted(language: Language, rows: seq<Row>): (s: State)
    requires TextOk(language, rows)
    ensures TagsOk(s) && Spans(s.tags) && s.style.None? && StackOk(language, s.stack)
    ensures s.pos == if rows == [] then 0 else rows[|rows| - 1].next
  {
    if rows == [] then BEGIN
    else
      var n := |rows| - 1;
      TextPrefix(language, rows, n);
      var s := Highlighted(language, rows[..n]);
      LineTagsOk(rows[n].line, s, rows[n].rounds, rows[n].next);
      EndLine(FreshRun(rows[n].line, s, rows[n].rounds).0, rows[n].next)
  }

  /** The rounds of each line are those its loop takes until it ends. */
  ghost predicate RowsEnd(language: Language, rows: seq<Row>)
    requires TextOk(language, rows)
  {
    forall n :: 0 <= n < |rows| ==> RowEnds(language, rows, n)
  }

  ghost predicate RowEnds(language: Language, rows: seq<Row>, n: nat)
    requires TextOk(language, rows) && n < |rows|
  {
    TextPrefix(language, rows, n);
    FreshRun(rows[n].line, Highlighted(language, rows[..n]), rows[n].rounds).1
  }

  /** A line that is ended is scanned to its end. */
  lemma {:induction false} LineScanned(l: Line, s: State, n: nat)
    requires LineOk(l) && StateOk(l, s) && FreshRun(l, s, n).1
    ensures FreshRun(l, s, n).0.pos == l.start + l.length
    decreases n
  {
    hide AfterMatch, BestOf, Search, HitOk;
    if n == 0 {
    } else {
      StepOk(l, s);
      var (t, ended) := FreshStep(l, s);
      if !ended { LineScanned(l, t, n - 1); }
    }
  }

  /**
   * The whole text, line by line with a new cache each: the tags are those of fresh searches, and spans ready
   * for merging.
   */
  method HighlightString(ghost language: Language, rows: seq<Row>) returns (tags: seq<Tag>)
    requires TextOk(language, rows) && RowsEnd(language, rows)
    ensures tags == Highlighted(language, rows).tags && Spans(tags)
  {
    hide FreshRun, CacheOk, LineOk, TagsOk, Spans;
    var s := BEGIN;
    TextPrefix(language, rows, 0);
    for i := 0 to |rows|
      invariant TextOk(language, rows[..i]) && s == Highlighted(language, rows[..i])
    {
      assert rows[..i + 1][..i] == rows[..i];
      TextPrefix(language, rows, i);
      TextPrefix(language, rows, i + 1);
      var scanner := new Scanner(rows[i].line, s);
      var ended := scanner.Run(rows[i].rounds);
      assert RowEnds(language, rows, i);
      LineScanned(rows[i].line, s, rows[i].rounds);
      assert ended && scanner.pos == rows[i].line.start + rows[i].line.length;
      s := EndLine(State(scanner.tags, scanner.patternStack, scanner.pos, scanner.currentStyle), rows[i].next);
    }
    assert rows[..|rows|] == rows;
    tags := s.tags;
  }
}
