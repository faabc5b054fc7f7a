/**
 * doc/sh_main.js, `sh_mergeTags`: interleaves the original tags of an element with highlighting spans, cutting
 * a span in two where an original tag falls inside it.
 */
module MergeTags {
  import opened Common
  import opened Highlight

  // ------------------------------------------------------------------ spans and items

  /** A highlighting span: a start tag and its end tag. */
  datatype Span = Span(node: StyleName, from: nat, upto: nat)

  /** A merged list keeps track of where its tags come from; a piece of a span is a pair of adjacent tags. */
  datatype Item = Original(tag: Tag) | Piece(span: Span)

  predicate Alternating(tags: seq<Tag>) {
    tags == [] || (|tags| >= 2 && tags[0].Open? && tags[1].Close? && Alternating(tags[2..]))
  }

  function SpansOf(tags: seq<Tag>): seq<Span>
    requires Alternating(tags)
  {
    if tags == [] then [] else [Span(tags[0].node, tags[0].pos, tags[1].pos)] + SpansOf(tags[2..])
  }

  function TagsOf(item: Item): seq<Tag> {
    match item
    case Original(tag) => [tag]
    case Piece(s) => [Open(s.node, s.from), Close(s.upto)]
  }

  function Flatten(items: seq<Item>): seq<Tag> {
    if items == [] then [] else TagsOf(items[0]) + Flatten(items[1..])
  }

  /** Non-empty spans in text order, none starting before `lo`. */
  predicate SpanList(spans: seq<Span>, lo: nat)
    decreases |spans|
  {
    spans == [] || (lo <= spans[0].from < spans[0].upto && SpanList(spans[1..], spans[0].upto))
  }

  predicate Sorted(tags: seq<Tag>, lo: nat)
    decreases |tags|
  {
    tags == [] || (lo <= tags[0].pos && Sorted(tags[1..], tags[0].pos))
  }

  // ------------------------------------------------------------------ the merge, on lists

  function Merge(originals: seq<Tag>, spans: seq<Span>): seq<Item>
    decreases |originals| + |spans|, if originals != [] && spans != [] && originals[0].pos > spans[0].from then 1 else 0
  {
    if originals == [] && spans == [] then []
    else if originals == [] then [Piece(spans[0])] + Merge([], spans[1..])
    else if spans == [] then [Original(originals[0])] + Merge(originals[1..], [])
    else
      var tag, s := originals[0], spans[0];
      if tag.pos <= s.from then [Original(tag)] + Merge(originals[1..], spans)
      else if s.upto <= tag.pos then [Piece(s)] + Merge(originals, spans[1..])
      else [Piece(Span(s.node, s.from, tag.pos))] + Merge(originals, [Span(s.node, tag.pos, s.upto)] + spans[1..])
  }

  // ------------------------------------------------------------------ the code

  /** Without originals, or without spans, the merge is the other list. */
  lemma {:induction false} MergeAlone(originals: seq<Tag>, tags: seq<Tag>)
    requires Alternating(tags) && (originals == [] || tags == [])
    ensures Flatten(Merge(originals, SpansOf(tags))) == originals + tags
    decreases |originals| + |tags|
  {
    if originals != [] {
      MergeAlone(originals[1..], tags);
      var items := Merge(originals, []);
      assert items[1..] == Merge(originals[1..], []);
      assert Flatten(items) == [originals[0]] + (originals[1..] + tags) == originals + tags;
    } else if tags != [] {
      MergeAlone(originals, tags[2..]);
      var items := Merge([], SpansOf(tags));
      assert SpansOf(tags)[1..] == SpansOf(tags[2..]);
      assert items[1..] == Merge([], SpansOf(tags[2..]));
      assert Flatten(items) == [tags[0], tags[1]] + tags[2..] == tags;
      assert originals + tags == tags;
    }
  }

  /** What one round of the first loop pushes, and the lists it leaves. */
  lemma MergeStep(originals: seq<Tag>, tags: seq<Tag>)
    requires Alternating(tags) && originals != [] && tags != []
    ensures var all := Flatten(Merge(originals, SpansOf(tags))); var tag, h := originals[0], tags[0];
            if tag.pos <= h.pos then all == [tag] + Flatten(Merge(originals[1..], SpansOf(tags)))
            else if tags[1].pos <= tag.pos then all == [h, tags[1]] + Flatten(Merge(originals, SpansOf(tags[2..])))
            else
              var cut := [Open(h.node, tag.pos)] + tags[1..];
              Alternating(cut) && all == [h, Close(tag.pos)] + Flatten(Merge(originals, SpansOf(cut)))
  {
    var spans := SpansOf(tags);
    var items := Merge(originals, spans);
    var tag, h := originals[0], tags[0];
    assert spans[1..] == SpansOf(tags[2..]);
    if tag.pos <= h.pos {
      assert items[1..] == Merge(originals[1..], spans);
    } else if tags[1].pos <= tag.pos {
      assert items[1..] == Merge(originals, spans[1..]);
    } else {
      var cut := [Open(h.node, tag.pos)] + tags[1..];
      assert cut[2..] == tags[2..];
      assert SpansOf(cut) == [Span(h.node, tag.pos, tags[1].pos)] + spans[1..];
      assert items[1..] == Merge(originals, SpansOf(cut));
    }
  }

  /**
   * `sh_mergeTags`. The split branch moves neither index, but leaves a start tag at the position of the
   * original tag, so the next round moves on.
   */
  method MergeTags(originalTags: seq<Tag>, highlightTags: array<Tag>) returns (result: seq<Tag>)
    requires Alternating(highlightTags[..])
    modifies highlightTags
    ensures result == Flatten(Merge(originalTags, old(SpansOf(highlightTags[..]))))
  {
    hide Merge, Flatten, SpansOf, Alternating;
    ghost var all := Flatten(Merge(originalTags, SpansOf(highlightTags[..])));
    if |originalTags| == 0 {
      MergeAlone(originalTags, highlightTags[..]);
      assert originalTags + highlightTags[..] == highlightTags[..];
      return highlightTags[..];
    }
    if highlightTags.Length == 0 {
      MergeAlone(originalTags, highlightTags[..]);
      assert originalTags + highlightTags[..] == originalTags;
      return originalTags;
    }
    result := [];
    var originalIndex, highlightIndex := 0, 0;
    assert originalTags[0..] == originalTags && highlightTags[0..] == highlightTags[..];
    while originalIndex < |originalTags| && highlightIndex < highlightTags.Length
      invariant 0 <= originalIndex <= |originalTags| && 0 <= highlightIndex <= highlightTags.Length
      invariant Alternating(highlightTags[highlightIndex..])
      invariant result + Flatten(Merge(originalTags[originalIndex..], SpansOf(highlightTags[highlightIndex..]))) == all
      decreases |originalTags| - originalIndex + highlightTags.Length - highlightIndex,
                if originalIndex < |originalTags| && highlightIndex < highlightTags.Length
                   && originalTags[originalIndex].pos > highlightTags[highlightIndex].pos then 1 else 0
    {
      var originalTag := originalTags[originalIndex];
      var highlightTag := highlightTags[highlightIndex];
      ghost var os, hs := originalTags[originalIndex..], highlightTags[highlightIndex..];
      AlternatingStarts(hs);
      MergeStep(os, hs);
      assert os[1..] == originalTags[originalIndex + 1..] && hs[2..] == highlightTags[highlightIndex + 2..];
      if originalTag.pos <= highlightTag.pos {
        Assoc(result, [originalTag], Flatten(Merge(os[1..], SpansOf(hs))));
        result := result + [originalTag];
        originalIndex := originalIndex + 1;
      } else if highlightTags[highlightIndex + 1].pos <= originalTag.pos {
        Assoc(result, [highlightTag, hs[1]], Flatten(Merge(os, SpansOf(hs[2..]))));
        result := result + [highlightTag, highlightTags[highlightIndex + 1]];
        highlightIndex := highlightIndex + 2;
      } else {
        ghost var cut := [Open(highlightTag.node, originalTag.pos)] + hs[1..];
        Assoc(result, [highlightTag, Close(originalTag.pos)], Flatten(Merge(os, SpansOf(cut))));
        result := result + [highlightTag, Close(originalTag.pos)];
        highlightTags[highlightIndex] := Open(highlightTag.node, originalTag.pos);
        assert highlightTags[highlightIndex..] == cut;
      }
    }
    MergeAlone(originalTags[originalIndex..], highlightTags[highlightIndex..]);
    Assoc(result, originalTags[originalIndex..], highlightTags[highlightIndex..]);
    result := PushRest(result, originalTags, originalIndex);
    result := PushRest(result, highlightTags[..], highlightIndex);
    assert highlightTags[..][highlightIndex..] == highlightTags[highlightIndex..];
  }

  /** The loops at lines 382 and 387. */
  method PushRest(start: seq<Tag>, tags: seq<Tag>, index: nat) returns (result: seq<Tag>)
    requires index <= |tags|
    ensures result == start + tags[index..]
  {
    result := start;
    var i := index;
    while i < |tags|
      invariant index <= i <= |tags|
      invariant result == start + tags[index..i]
    {
      result := result + [tags[i]];
      i := i + 1;
    }
    assert tags[index..|tags|] == tags[index..];
  }

  lemma AlternatingStarts(tags: seq<Tag>)
    requires Alternating(tags) && tags != []
    ensures |tags| >= 2 && tags[0].Open? && tags[1].Close? && Alternating(tags[2..])
  {
  }

  // ------------------------------------------------------------------ what the merge keeps

  function Originals(items: seq<Item>): seq<Tag> {
    if items == [] then [] else (if items[0].Original? then [items[0].tag] else []) + Originals(items[1..])
  }

  function Pieces(items: seq<Item>): seq<Span> {
    if items == [] then [] else (if items[0].Piece? then [items[0].span] else []) + Pieces(items[1..])
  }

  /** The style of the text character at `p`. */
  function StyleAt(spans: seq<Span>, p: nat): Option<StyleName> {
    if spans == [] then None
    else if spans[0].from <= p < spans[0].upto then Some(spans[0].node)
    else StyleAt(spans[1..], p)
  }

  /** How deep the elements are nested after `tags`; `None` when an end tag has no start tag. */
  function Depth(tags: seq<Tag>, d: nat): Option<nat>
    decreases |tags|
  {
    if tags == [] then Some(d)
    else if tags[0].Open? then Depth(tags[1..], d + 1)
    else if d == 0 then None else Depth(tags[1..], d - 1)
  }

  predicate SortedItems(items: seq<Item>, lo: nat)
    decreases |items|
  {
    items == [] ||
    match items[0]
    case Original(tag) => lo <= tag.pos && SortedItems(items[1..], tag.pos)
    case Piece(s) => lo <= s.from < s.upto && SortedItems(items[1..], s.upto)
  }

  /** The original tags come out unchanged and in their order. */
  lemma {:induction false} MergeOriginals(originals: seq<Tag>, spans: seq<Span>)
    ensures Originals(Merge(originals, spans)) == originals
    decreases |originals| + |spans|, if originals != [] && spans != [] && originals[0].pos > spans[0].from then 1 else 0
  {
    var items := Merge(originals, spans);
    if originals == [] && spans == [] {
    } else if originals == [] {
      MergeOriginals([], spans[1..]);
      assert items[1..] == Merge([], spans[1..]);
    } else if spans == [] || originals[0].pos <= spans[0].from {
      MergeOriginals(originals[1..], spans);
      assert items[1..] == Merge(originals[1..], spans);
      assert [originals[0]] + originals[1..] == originals;
    } else if spans[0].upto <= originals[0].pos {
      MergeOriginals(originals, spans[1..]);
      assert items[1..] == Merge(originals, spans[1..]);
    } else {
      var rest := [Span(spans[0].node, originals[0].pos, spans[0].upto)] + spans[1..];
      MergeOriginals(originals, rest);
      assert items[1..] == Merge(originals, rest);
    }
  }

  /** The pieces give every text position the style it had. */
  lemma {:induction false} MergeStyles(originals: seq<Tag>, spans: seq<Span>, p: nat)
    ensures StyleAt(Pieces(Merge(originals, spans)), p) == StyleAt(spans, p)
    decreases |originals| + |spans|, if originals != [] && spans != [] && originals[0].pos > spans[0].from then 1 else 0
  {
    var items := Merge(originals, spans);
    if originals == [] && spans == [] {
    } else if originals == [] {
      MergeStyles([], spans[1..], p);
      PiecesStep(items);
      assert items[1..] == Merge([], spans[1..]);
    } else if spans == [] || originals[0].pos <= spans[0].from {
      MergeStyles(originals[1..], spans, p);
      PiecesStep(items);
      assert items[1..] == Merge(originals[1..], spans);
    } else if spans[0].upto <= originals[0].pos {
      MergeStyles(originals, spans[1..], p);
      PiecesStep(items);
      assert items[1..] == Merge(originals, spans[1..]);
    } else {
      var rest := [Span(spans[0].node, originals[0].pos, spans[0].upto)] + spans[1..];
      MergeStyles(originals, rest, p);
      PiecesStep(items);
      assert items[1..] == Merge(originals, rest);
      assert rest[1..] == spans[1..];
    }
  }

  /** An end of a piece is the end of its span, or an original tag stands there. */
  ghost predicate EndOk(at: nat, end: nat, originals: seq<Tag>) {
    at == end || exists i :: 0 <= i < |originals| && originals[i].pos == at
  }

  ghost predicate PartOf(piece: Span, s: Span, originals: seq<Tag>) {
    && piece.node == s.node && s.from <= piece.from && piece.upto <= s.upto
    && EndOk(piece.from, s.from, originals) && EndOk(piece.upto, s.upto, originals)
  }

  /** A span is cut nowhere but at original tags. */
  lemma {:induction false} MergeCuts(originals: seq<Tag>, spans: seq<Span>, piece: Span)
    requires piece in Pieces(Merge(originals, spans))
    ensures exists i :: 0 <= i < |spans| && PartOf(piece, spans[i], originals)
    decreases |originals| + |spans|,
              if originals != [] && spans != [] && originals[0].pos > spans[0].from then 1 else 0, 2
  {
    var items := Merge(originals, spans);
    if originals == [] && spans == [] {
    } else if originals == [] {
      PiecesStep(items);
      assert items[1..] == Merge([], spans[1..]);
      if piece == spans[0] { assert PartOf(piece, spans[0], originals); } else { CutsLater(originals, spans, piece); }
    } else if spans == [] || originals[0].pos <= spans[0].from {
      PiecesStep(items);
      assert items[1..] == Merge(originals[1..], spans);
      MergeCuts(originals[1..], spans, piece);
      var i :| 0 <= i < |spans| && PartOf(piece, spans[i], originals[1..]);
      MoreOriginals(piece, spans[i], originals);
    } else if spans[0].upto <= originals[0].pos {
      PiecesStep(items);
      assert items[1..] == Merge(originals, spans[1..]);
      if piece == spans[0] { assert PartOf(piece, spans[0], originals); } else { CutsLater(originals, spans, piece); }
    } else {
      CutsRest(originals, spans, piece);
    }
  }

  lemma {:induction false} CutsLater(originals: seq<Tag>, spans: seq<Span>, piece: Span)
    requires spans != [] && piece in Pieces(Merge(originals, spans[1..]))
    ensures exists i :: 0 <= i < |spans| && PartOf(piece, spans[i], originals)
    decreases |originals| + |spans|, 0, 0
  {
    MergeCuts(originals, spans[1..], piece);
    var i :| 0 <= i < |spans[1..]| && PartOf(piece, spans[1..][i], originals);
    assert spans[i + 1] == spans[1..][i];
  }

  /** The first span is cut at the first original tag. */
  lemma {:induction false} CutsRest(originals: seq<Tag>, spans: seq<Span>, piece: Span)
    requires originals != [] && spans != [] && spans[0].from < originals[0].pos < spans[0].upto
    requires piece in Pieces(Merge(originals, spans))
    ensures exists i :: 0 <= i < |spans| && PartOf(piece, spans[i], originals)
    decreases |originals| + |spans|, 1, 0
  {
    var s, pos := spans[0], originals[0].pos;
    var first, left := Span(s.node, s.from, pos), Span(s.node, pos, s.upto);
    var rest := [left] + spans[1..];
    var items := Merge(originals, spans);
    PiecesStep(items);
    assert items[0] == Piece(first) && items[1..] == Merge(originals, rest);
    if piece == first {
      assert PartOf(piece, spans[0], originals);
    } else {
      MergeCuts(originals, rest, piece);
      var i :| 0 <= i < |rest| && PartOf(piece, rest[i], originals);
      if i == 0 {
        assert PartOf(piece, spans[0], originals);
      } else {
        assert rest[i] == spans[i];
      }
    }
  }

  lemma MoreOriginals(piece: Span, s: Span, originals: seq<Tag>)
    requires originals != [] && PartOf(piece, s, originals[1..])
    ensures PartOf(piece, s, originals)
  {
    assert forall i :: 0 <= i < |originals[1..]| ==> originals[1..][i] == originals[i + 1];
  }

  lemma PiecesStep(items: seq<Item>)
    requires items != []
    ensures var rest := Pieces(items[1..]);
            Pieces(items) == if items[0].Piece? then [items[0].span] + rest else rest
    ensures items[0].Piece? ==> Pieces(items)[1..] == Pieces(items[1..])
  {
  }

  /** The merged list is in text order, and its pieces are not empty. */
  lemma {:induction false} MergeSorted(originals: seq<Tag>, spans: seq<Span>, lo: nat)
    requires Sorted(originals, lo) && SpanList(spans, lo)
    ensures SortedItems(Merge(originals, spans), lo)
    decreases |originals| + |spans|, if originals != [] && spans != [] && originals[0].pos > spans[0].from then 1 else 0
  {
    var items := Merge(originals, spans);
    if originals == [] && spans == [] {
    } else if originals == [] {
      MergeSorted([], spans[1..], spans[0].upto);
      assert items[1..] == Merge([], spans[1..]);
    } else if spans == [] || originals[0].pos <= spans[0].from {
      MergeSorted(originals[1..], spans, originals[0].pos);
      assert items[1..] == Merge(originals[1..], spans);
    } else if spans[0].upto <= originals[0].pos {
      MergeSorted(originals, spans[1..], spans[0].upto);
      assert items[1..] == Merge(originals, spans[1..]);
    } else {
      var rest := [Span(spans[0].node, originals[0].pos, spans[0].upto)] + spans[1..];
      assert rest[1..] == spans[1..];
      MergeSorted(originals, rest, originals[0].pos);
      assert items[1..] == Merge(originals, rest);
    }
  }

  lemma SortedPair(s: Span, rest: seq<Tag>, lo: nat)
    requires lo <= s.from < s.upto && Sorted(rest, s.upto)
    ensures Sorted([Open(s.node, s.from), Close(s.upto)] + rest, lo)
  {
    var tags := [Open(s.node, s.from), Close(s.upto)] + rest;
    assert tags[1..] == [Close(s.upto)] + rest;
    assert ([Close(s.upto)] + rest)[1..] == rest;
  }

  lemma {:induction false} FlattenSorted(items: seq<Item>, lo: nat)
    requires SortedItems(items, lo)
    ensures Sorted(Flatten(items), lo)
    decreases |items|
  {
    if items == [] {
    } else {
      var rest := Flatten(items[1..]);
      match items[0] {
        case Original(tag) =>
          FlattenSorted(items[1..], tag.pos);
          assert Flatten(items)[1..] == rest;
        case Piece(s) =>
          FlattenSorted(items[1..], s.upto);
          SortedPair(s, rest, lo);
      }
    }
  }

  /** Pieces are adjacent pairs, so the nesting is that of the original tags. */
  lemma {:induction false} FlattenNests(items: seq<Item>, d: nat)
    ensures Depth(Flatten(items), d) == Depth(Originals(items), d)
    decreases |items|
  {
    hide Depth;
    if items == [] {
    } else {
      var rest := Flatten(items[1..]);
      match items[0] {
        case Original(tag) =>
          DepthOne(tag, rest, d);
          DepthOne(tag, Originals(items[1..]), d);
          if tag.Open? {
            FlattenNests(items[1..], d + 1);
          } else if d > 0 {
            FlattenNests(items[1..], d - 1);
          }
        case Piece(s) =>
          DepthPair(s, rest, d);
          assert Originals(items) == Originals(items[1..]);
          FlattenNests(items[1..], d);
      }
    }
  }

  lemma DepthOne(tag: Tag, rest: seq<Tag>, d: nat)
    ensures Depth([tag] + rest, d) ==
              if tag.Open? then Depth(rest, d + 1) else if d == 0 then None else Depth(rest, d - 1)
  {
    assert ([tag] + rest)[1..] == rest;
  }

  lemma DepthPair(s: Span, rest: seq<Tag>, d: nat)
    ensures Depth([Open(s.node, s.from), Close(s.upto)] + rest, d) == Depth(rest, d)
  {
    assert [Open(s.node, s.from), Close(s.upto)] + rest == [Open(s.node, s.from)] + ([Close(s.upto)] + rest);
    DepthOne(Open(s.node, s.from), [Close(s.upto)] + rest, d);
    DepthOne(Close(s.upto), rest, d + 1);
  }

  /** The spans of the highlighter's tags are the spans asked for here. */
  lemma {:induction false} SpansAreSpanList(tags: seq<Tag>, lo: nat)
    requires Spans(tags) && (tags != [] ==> lo <= tags[0].pos)
    ensures Alternating(tags) && SpanList(SpansOf(tags), lo)
    decreases |tags|
  {
    if tags == [] {
    } else {
      assert InPlace(tags, 0) && InPlace(tags, 1);
      var rest := tags[2..];
      forall i | 0 <= i < |rest| ensures InPlace(rest, i) {
        assert InPlace(tags, i + 2);
      }
      if rest != [] {
        assert InPlace(tags, 2);
      }
      SpansAreSpanList(rest, tags[1].pos);
      assert SpansOf(tags)[1..] == SpansOf(rest);
    }
  }

  /**
   * Merging the highlighter's tags into sorted, well-nested original tags: the result is sorted and well
   * nested, holds the originals in order, and paints every text position as before.
   */
  lemma MergeCorrect(originals: seq<Tag>, tags: seq<Tag>, p: nat)
    requires Sorted(originals, 0) && Depth(originals, 0) == Some(0) && Spans(tags)
    ensures Alternating(tags)
    ensures var items := Merge(originals, SpansOf(tags));
            && Sorted(Flatten(items), 0) && SortedItems(items, 0) && Depth(Flatten(items), 0) == Some(0)
            && Originals(items) == originals
            && StyleAt(Pieces(items), p) == StyleAt(SpansOf(tags), p)
  {
    SpansAreSpanList(tags, 0);
    var spans := SpansOf(tags);
    MergeSorted(originals, spans, 0);
    FlattenSorted(Merge(originals, spans), 0);
    FlattenNests(Merge(originals, spans), 0);
    MergeOriginals(originals, spans);
    MergeStyles(originals, spans, p);
  }
}
