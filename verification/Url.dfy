/**
 * lib/url.js, `urlResolveObject`: the path merge and the dot-segment pass, for a slashed protocol and a
 * non-empty host. It is compared with sections 5.2.2 to 5.2.4 of RFC 3986, whose `remove_dot_segments` is
 * written out on strings, buffer by buffer.
 */
module Url {
  import opened Strings
  import Path

  type Segments = Path.Segments

  // ------------------------------------------------------------------ RFC 3986

  predicate StartsWith(s: string, prefix: string) {
    |s| >= |prefix| && s[..|prefix|] == prefix
  }

  /** Index of the next slash at or after `from`, or the length. */
  function NextSlash(s: string, from: nat): (i: nat)
    requires from <= |s|
    ensures from <= i <= |s| && (i < |s| ==> s[i] == '/') && '/' !in s[from..i]
    decreases |s| - from
  {
    if from == |s| || s[from] == '/' then from else NextSlash(s, from + 1)
  }

  /** Step 2C: the output buffer without its last segment and the slash before it. */
  function DropLastSegment(out: string): string {
    if out == "" then ""
    else if out[|out| - 1] == '/' then out[..|out| - 1]
    else DropLastSegment(out[..|out| - 1])
  }

  /** The input and output buffers of section 5.2.4 of RFC 3986. */
  datatype Buffers = Buffers(input: string, out: string)

  /** Steps 2A to 2E of section 5.2.4, whichever applies. */
  function Step(b: Buffers): (r: Buffers)
    requires b.input != ""
    ensures |r.input| < |b.input|
  {
    var input, out := b.input, b.out;
    if StartsWith(input, "../") then Buffers(input[3..], out)
    else if StartsWith(input, "./") then Buffers(input[2..], out)
    else if StartsWith(input, "/./") then Buffers(input[2..], out)
    else if input == "/." then Buffers("/", out)
    else if StartsWith(input, "/../") then Buffers(input[3..], DropLastSegment(out))
    else if input == "/.." then Buffers("/", DropLastSegment(out))
    else if input == "." || input == ".." then Buffers("", out)
    else var end := NextSlash(input, 1); Buffers(input[end..], out + input[..end])
  }

  function RemoveDotSegments(b: Buffers): string
    decreases |b.input|
  {
    if b.input == "" then b.out else RemoveDotSegments(Step(b))
  }

  /** Section 5.2.3 of RFC 3986, for a base with an authority. */
  function Merge(base: string, reference: string): string {
    if base == "" then "/" + reference
    else var parts := Split(base, '/'); Join(parts[..|parts| - 1] + [reference], '/')
  }

  /** The path that is resolved: the reference's own, or the base's, or the two merged. */
  function TargetPath(base: string, referenceHasHost: bool, reference: string): string {
    if referenceHasHost then reference
    else if reference == "" then base
    else if reference[0] == '/' then reference
    else Merge(base, reference)
  }

  /** The protocol a reference names: none, that of the base, or another one. */
  datatype Scheme = NoScheme | SameScheme | OtherScheme

  /** The parsed parts of a reference that decide the path of the result. */
  datatype Reference = Reference(scheme: Scheme, hasHost: bool, path: string, hasSearch: bool, hasHash: bool)

  /** Section 5.2.2 of RFC 3986, not strict: naming the base's own scheme is like naming none. */
  function RfcPath(base: string, r: Reference): string {
    if r.scheme.OtherScheme? || r.hasHost then RemoveDotSegments(Buffers(r.path, ""))
    else if r.path == "" then base
    else RemoveDotSegments(Buffers(TargetPath(base, false, r.path), ""))
  }

  // ------------------------------------------------------------------ dot segments as a stack

  function Slashed(parts: Segments): string {
    if parts == [] then "" else "/" + parts[0] + Slashed(parts[1..])
  }

  predicate EndsInDot(parts: Segments) {
    parts != [] && parts[|parts| - 1] in [".", ".."]
  }

  function Final(names: Segments, parts: Segments): Segments {
    Path.Walk(Path.Place(0, names), parts).names + if EndsInDot(parts) then [""] else []
  }

  lemma {:induction false} SlashedAppend(a: Segments, b: Segments)
    ensures Slashed(a + b) == Slashed(a) + Slashed(b)
  {
    if a == [] {
      assert a + b == b;
    } else {
      assert (a + b)[1..] == a[1..] + b;
      SlashedAppend(a[1..], b);
    }
  }

  lemma SlashedSnoc(names: Segments, word: string)
    ensures Slashed(names + [word]) == Slashed(names) + "/" + word
  {
    SlashedAppend(names, [word]);
    assert Slashed([word]) == "/" + word + Slashed([]) == "/" + word;
  }

  lemma {:induction false} SlashedIsJoin(parts: Segments)
    requires parts != []
    ensures Slashed(parts) == "/" + Join(parts, '/')
    ensures Slashed(parts) == Join([""] + parts, '/')
  {
    assert ([""] + parts)[1..] == parts;
    assert Join([""] + parts, '/') == "" + ['/'] + Join(parts, '/');
    if |parts| > 1 {
      var rest := Join(parts[1..], '/');
      SlashedIsJoin(parts[1..]);
      assert Slashed(parts) == "/" + parts[0] + ("/" + rest);
    } else {
      assert Slashed(parts[1..]) == "";
    }
  }

  lemma {:induction false} DropLastWord(out: string, word: string)
    requires '/' !in word
    ensures DropLastSegment(out + "/" + word) == out
  {
    var s := out + "/" + word;
    if word == "" {
    } else {
      assert s[..|s| - 1] == out + "/" + word[..|word| - 1];
      DropLastWord(out, word[..|word| - 1]);
    }
  }

  lemma DropLastSlashed(names: Segments)
    requires Free(names, '/')
    ensures DropLastSegment(Slashed(names)) == Slashed(if names == [] then [] else names[..|names| - 1])
  {
    if names != [] {
      var init, last := names[..|names| - 1], names[|names| - 1];
      assert names == init + [last];
      SlashedSnoc(init, last);
      DropLastWord(Slashed(init), last);
    }
  }

  lemma {:induction false} NextSlashUnique(s: string, from: nat, i: nat)
    requires from <= i <= |s| && '/' !in s[from..i] && (i < |s| ==> s[i] == '/')
    ensures NextSlash(s, from) == i
    decreases i - from
  {
    if from < i {
      assert s[from] == s[from..i][0];
      assert s[from + 1..i] == s[from..i][1..];
      NextSlashUnique(s, from + 1, i);
    }
  }

  lemma FirstSegment(word: string, tail: Segments)
    requires '/' !in word
    ensures var input := "/" + word + Slashed(tail);
            NextSlash(input, 1) == 1 + |word| && input[1..1 + |word|] == word && input[1 + |word|..] == Slashed(tail)
  {
    var input := "/" + word + Slashed(tail);
    assert input[1..1 + |word|] == word;
    NextSlashUnique(input, 1, 1 + |word|);
  }

  /** Only the segment `dots` itself makes a slashed text equal `/dots` or start with `/dots/`. */
  lemma DotsFirst(word: string, tail: Segments, dots: string)
    requires '/' !in word && '/' !in dots
    ensures var input := "/" + word + Slashed(tail);
            StartsWith(input, "/" + dots + "/") || input == "/" + dots ==> word == dots
  {
    hide NextSlash, Slashed, StartsWith;
    var input := "/" + word + Slashed(tail);
    FirstSegment(word, tail);
    if StartsWith(input, "/" + dots + "/") {
      SegmentBefore(input, dots);
      NextSlashUnique(input, 1, 1 + |dots|);
    } else if input == "/" + dots {
      SegmentAlone(input, dots);
      NextSlashUnique(input, 1, 1 + |dots|);
    }
  }

  lemma SegmentBefore(input: string, dots: string)
    requires StartsWith(input, "/" + dots + "/")
    ensures |input| >= |dots| + 2 && input[1..1 + |dots|] == dots && input[1 + |dots|] == '/'
  {
    var p := "/" + dots + "/";
    assert |p| == |dots| + 2 && p[1..1 + |dots|] == dots && p[1 + |dots|] == '/';
    assert input[..|p|] == p;
    assert input[..|p|][1..1 + |dots|] == input[1..1 + |dots|];
    assert input[..|p|][1 + |dots|] == input[1 + |dots|];
  }

  lemma SegmentAlone(input: string, dots: string)
    requires input == "/" + dots
    ensures |input| == |dots| + 1 && input[1..1 + |dots|] == dots
  {
  }

  lemma RootedInput(input: string)
    requires input != "" && input[0] == '/'
    ensures !StartsWith(input, "../") && !StartsWith(input, "./") && input != "." && input != ".."
  {
    assert |input| >= 3 ==> input[..3][0] == '/';
    assert |input| >= 2 ==> input[..2][0] == '/';
  }

  lemma StepName(word: string, tail: Segments, out: string)
    requires '/' !in word && word !in [".", ".."]
    ensures Step(Buffers("/" + word + Slashed(tail), out)) == Buffers(Slashed(tail), out + "/" + word)
  {
    FirstSegment(word, tail);
    assert "/" + "." == "/." && "/" + ".." == "/.." && "/" + "." + "/" == "/./" && "/" + ".." + "/" == "/../";
    DotsFirst(word, tail, ".");
    DotsFirst(word, tail, "..");
    var input := "/" + word + Slashed(tail);
    RootedInput(input);
    assert input[..1 + |word|] == "/" + word;
    assert out + ("/" + word) == out + "/" + word;
  }

  lemma StepDots(word: string, tail: Segments, out: string)
    requires word in [".", ".."]
    ensures Step(Buffers("/" + word + Slashed(tail), out))
         == Buffers(if tail == [] then "/" else Slashed(tail), if word == "." then out else DropLastSegment(out))
  {
    var input := "/" + word + Slashed(tail);
    RootedInput(input);
    assert word == ".." ==> input[..3][2] == '.';
    if tail == [] {
      assert Slashed(tail) == "";
      if word == "." { assert input == "/."; } else { assert input == "/.."; }
    } else {
      assert input[|word| + 1..] == Slashed(tail);
      assert Slashed(tail)[0] == '/';
      if word == "." { assert input[..3] == "/./"; } else { assert input[..4] == "/../"; }
    }
  }

  /** One step on a slashed list: the first segment is read onto the stack in the output buffer. */
  lemma StepReads(names: Segments, parts: Segments)
    requires Free(names, '/') && Free(parts, '/') && parts != []
    ensures Step(Buffers(Slashed(parts), Slashed(names)))
         == Buffers(if |parts| == 1 && EndsInDot(parts) then "/" else Slashed(parts[1..]),
                    Slashed(Path.Enter(Path.Place(0, names), parts[0]).names))
  {
    if parts[0] in [".", ".."] {
      StepDots(parts[0], parts[1..], Slashed(names));
      DropLastSlashed(names);
    } else {
      StepName(parts[0], parts[1..], Slashed(names));
      SlashedSnoc(names, parts[0]);
    }
  }

  lemma StepOnce(b: Buffers, next: Buffers)
    requires b.input != "" && Step(b) == next
    ensures RemoveDotSegments(b) == RemoveDotSegments(next)
  {
  }

  /** `remove_dot_segments` of an absolute path is the stack reading of its segments. */
  lemma {:induction false} RemoveDotsIsStack(names: Segments, parts: Segments)
    requires Free(names, '/') && Free(parts, '/')
    ensures RemoveDotSegments(Buffers(Slashed(parts), Slashed(names))) == Slashed(Final(names, parts))
    decreases |parts|
  {
    if parts != [] {
      var next := Path.Enter(Path.Place(0, names), parts[0]).names;
      var input := if |parts| == 1 && EndsInDot(parts) then "/" else Slashed(parts[1..]);
      assert RemoveDotSegments(Buffers(Slashed(parts), Slashed(names)))
          == RemoveDotSegments(Buffers(input, Slashed(next))) by {
        StepReads(names, parts);
        StepOnce(Buffers(Slashed(parts), Slashed(names)), Buffers(input, Slashed(next)));
      }
      FinalStep(names, parts);
      if |parts| == 1 && EndsInDot(parts) {
        RemoveLoneSlash(next);
      } else {
        RemoveDotsIsStack(next, parts[1..]);
      }
    } else {
      assert Final(names, parts) == names;
    }
  }

  lemma FinalStep(names: Segments, parts: Segments)
    requires parts != []
    ensures var next := Path.Enter(Path.Place(0, names), parts[0]).names; var tail := parts[1..];
            Final(names, parts) == if tail == [] && EndsInDot(parts) then next + [""] else Final(next, tail)
  {
    var p := Path.Enter(Path.Place(0, names), parts[0]);
    Path.WalkNames(p, Path.Place(0, p.names), parts[1..]);
  }

  lemma RemoveLoneSlash(names: Segments)
    ensures RemoveDotSegments(Buffers("/", Slashed(names))) == Slashed(names + [""])
  {
    StepName("", [], Slashed(names));
    assert "/" + "" + Slashed([]) == "/";
    SlashedSnoc(names, "");
  }

  // ------------------------------------------------------------------ the pass of urlResolveObject

  /** The end of the pass: from the kept names to the segments of the pathname. */
  function PutSlashes(kept: Segments, hasTrailingSlash: bool): Segments {
    var rooted := if kept == [] || kept[0] != "" then [""] + kept else kept;
    if hasTrailingSlash && !Path.HasTrailingSlash(Join(rooted, '/')) then rooted + [""] else rooted
  }

  /** Lines 451-505 on the list of segments: what the pass leaves in `srcPath`. */
  function Passed(srcPath: Segments): Segments
    requires srcPath != []
  {
    var last := srcPath[|srcPath| - 1];
    var hasTrailingSlash := last in [".", "..", ""];
    PutSlashes(Path.Evaluate(srcPath, false), hasTrailingSlash)
  }

  /** Lines 417-443: the segment list before the pass; `Untouched` when the path is left alone. */
  datatype Merged = Untouched | Parts(parts: Segments)

  function MergePaths(base: string, referenceHasHost: bool, reference: string, hasSearch: bool): Merged {
    var srcPath := if base == "" then [] else Split(base, '/');
    var relPath := if reference == "" then [] else Split(reference, '/');
    if referenceHasHost || (reference != "" && reference[0] == '/') then Parts(relPath)
    else if relPath != [] then Parts((if srcPath == [] then [] else srcPath[..|srcPath| - 1]) + relPath)
    else if hasSearch then Untouched
    else Parts(srcPath)
  }

  function Pathname(base: string, m: Merged): string {
    if m.Untouched? then base else if m.parts == [] then "" else Join(Passed(m.parts), '/')
  }

  predicate IsEmpty(r: Reference) {
    r.scheme.NoScheme? && !r.hasHost && r.path == "" && !r.hasSearch && !r.hasHash
  }

  /** Lines 338-372: a host with no protocol, or with another one, brings its own path. */
  predicate BringsPath(r: Reference) {
    r.hasHost && !r.scheme.SameScheme?
  }

  /** What `urlResolveObject` makes of the two paths. */
  function ResolvedPath(base: string, r: Reference): string {
    if IsEmpty(r) then base
    else if BringsPath(r) then r.path
    else Pathname(base, MergePaths(base, r.hasHost, r.path, r.hasSearch))
  }

  /** A path after a host, `path-abempty` in section 3.3 of RFC 3986: empty, or it starts with a slash. */
  predicate AfterHost(path: string) {
    path == "" || path[0] == '/'
  }

  /** The base has a host, and so has a reference to another protocol. */
  predicate ReferenceOk(base: string, r: Reference) {
    AfterHost(base) && (r.hasHost ==> AfterHost(r.path)) && (r.scheme.OtherScheme? ==> r.hasHost)
  }

  /** The pathname computed by `urlResolveObject`; an undefined pathname is the empty string. */
  method ResolvePathname(base: string, r: Reference) returns (pathname: string)
    requires ReferenceOk(base, r)
    ensures pathname == ResolvedPath(base, r)
  {
    if r.scheme.NoScheme? && !r.hasHost && r.path == "" && !r.hasSearch && !r.hasHash { return base; }
    if r.hasHost && r.scheme.NoScheme? { return r.path; }
    if r.scheme.OtherScheme? { return r.path; }
    var srcPath := if base == "" then [] else Split(base, '/');
    var relPath := if r.path == "" then [] else Split(r.path, '/');
    var isRelAbs := r.hasHost || (r.path != "" && r.path[0] == '/');
    var mustEndAbs := isRelAbs || base != "" || r.path != "";
    if isRelAbs {
      srcPath := relPath;
    } else if relPath != [] {
      if srcPath != [] { srcPath := srcPath[..|srcPath| - 1]; }
      srcPath := srcPath + relPath;
    } else if r.hasSearch {
      return base;
    }
    if srcPath == [] { return ""; }
    assert mustEndAbs;
    pathname := DotPass(srcPath);
  }

  /**
   * Lines 451-505 when the path must end absolute: splice out the dots, then put back the leading and the
   * trailing slash.
   */
  method DotPass(input: Segments) returns (pathname: string)
    requires input != []
    ensures pathname == Join(Passed(input), '/')
  {
    var last := input[|input| - 1];
    var hasTrailingSlash := last == "." || last == ".." || last == "";
    var srcPath := Path.NormalizeArray(input, false);
    if srcPath == [] || srcPath[0] != "" {
      srcPath := [""] + srcPath;
    }
    if hasTrailingSlash && !Path.HasTrailingSlash(Join(srcPath, '/')) {
      srcPath := srcPath + [""];
    }
    pathname := Join(srcPath, '/');
  }

  // ------------------------------------------------------------------ agreement with RFC 3986

  /** The reference is merged with a base that has no path: then no leading empty segment is there. */
  predicate Bare(base: string, referenceHasHost: bool, reference: string) {
    base == "" && !referenceHasHost && reference != "" && reference[0] != '/'
  }

  predicate Wellformed(base: string, referenceHasHost: bool, reference: string) {
    (base == "" || base[0] == '/') && (referenceHasHost && reference != "" ==> reference[0] == '/')
  }

  /**
   * Exactly when the pass swallows a slash: the leading empty segment is absent, or eaten by a `..` that climbs
   * above the root, and an empty segment comes first of what is left; or the path ends in a dot segment right
   * after an empty one.
   */
  predicate LosesSlash(bare: bool, parts: Segments) {
    var place := Path.Walk(Path.START, parts);
    var f := Final([], parts);
    || ((bare || place.ups > 0) && |f| >= 2 && f[0] == "")
    || (EndsInDot(parts) && place.names != [] && place.names[|place.names| - 1] == "")
  }

  lemma SplitAbsolute(path: string)
    requires path != "" && path[0] == '/'
    ensures var parts := Split(path, '/'); |parts| >= 2 && parts[0] == "" && path == Slashed(parts[1..])
  {
    var parts := Split(path, '/');
    assert parts == [""] + Split(path[1..], '/');
    JoinSplit(path, '/');
    SlashedIsJoin(parts[1..]);
    assert [""] + parts[1..] == parts;
  }

  /** The segment list handed to the pass is the split target path, without its leading empty segment if bare. */
  lemma MergeIsTarget(base: string, referenceHasHost: bool, reference: string, hasSearch: bool)
    requires Wellformed(base, referenceHasHost, reference)
    ensures var path := TargetPath(base, referenceHasHost, reference);
            var m := MergePaths(base, referenceHasHost, reference, hasSearch);
            m.Parts? ==>
              && (path == "" <==> m.parts == [])
              && (path != "" ==> path[0] == '/' && var parts := Split(path, '/');
                    m.parts == if Bare(base, referenceHasHost, reference) then parts[1..] else parts)
  {
    if !referenceHasHost && reference != "" && reference[0] != '/' {
      if base == "" {
        assert Split("/" + reference, '/') == [""] + Split(reference, '/');
      } else {
        SplitAbsolute(base);
        var parts := Split(base, '/');
        var init := parts[..|parts| - 1];
        JoinAppend(init, [reference], '/');
        SplitConcat(Join(init, '/'), reference, '/');
        SplitJoin(init, '/');
        assert init[0] == "";
        assert Merge(base, reference)[0] == '/' by {
          if |init| > 1 { assert Join(init, '/') == "" + ['/'] + Join(init[1..], '/'); }
        }
      }
    }
  }

  lemma {:induction false} WalkShift(p: Path.Place, parts: Segments)
    ensures var q := Path.Walk(p, parts);
            Path.Walk(Path.Place(p.ups + 1, p.names), parts) == Path.Place(q.ups + 1, q.names)
    decreases |parts|
  {
    if parts == [] {
    } else {
      WalkShift(Path.Enter(p, parts[0]), parts[1..]);
    }
  }

  /** A bottom element `x` survives the walk unless some `..` climbs above it. */
  lemma {:induction false} WalkOnBottom(x: string, names: Segments, parts: Segments)
    ensures var q := Path.Walk(Path.Place(0, names), parts);
            Path.Walk(Path.Place(0, [x] + names), parts).names == if q.ups == 0 then [x] + q.names else q.names
    decreases |parts|
  {
    if parts == [] {
    } else {
      var p := Path.Enter(Path.Place(0, names), parts[0]);
      var px := Path.Enter(Path.Place(0, [x] + names), parts[0]);
      if p.ups == 0 {
        assert px == Path.Place(0, [x] + p.names);
        WalkOnBottom(x, p.names, parts[1..]);
      } else {
        assert px.names == [];
        WalkNames2(px, p, parts[1..]);
      }
    }
  }

  lemma WalkNames2(p: Path.Place, q: Path.Place, parts: Segments)
    requires p.names == q.names && q.ups == 1
    ensures Path.Walk(p, parts).names == Path.Walk(q, parts).names && Path.Walk(q, parts).ups > 0
  {
    Path.WalkNames(p, q, parts);
    WalkShift(Path.Place(0, q.names), parts);
  }

  lemma {:induction false} WalkFree(p: Path.Place, parts: Segments)
    requires Free(p.names, '/') && Free(parts, '/')
    ensures Free(Path.Walk(p, parts).names, '/')
    ensures "" !in p.names && "" !in parts ==> "" !in Path.Walk(p, parts).names
    decreases |parts|
  {
    if parts == [] {
    } else {
      WalkFree(Path.Enter(p, parts[0]), parts[1..]);
    }
  }

  lemma {:induction false} JoinEndsInSlash(parts: Segments)
    requires parts != [] && Free(parts, '/')
    ensures Path.HasTrailingSlash(Join(parts, '/')) <==> |parts| >= 2 && parts[|parts| - 1] == ""
  {
    if |parts| >= 2 {
      JoinEndsInSlash(parts[1..]);
      var rest := Join(parts[1..], '/');
      assert |parts| > 2 ==> |rest| >= 1;
    }
  }

  lemma PutSlashesCompared(names: Segments, eaten: bool, dot: bool)
    requires Free(names, '/') && (!dot ==> names != [])
    ensures var out := PutSlashes(if eaten then names else [""] + names, dot || names[|names| - 1] == "");
            var f := names + if dot then [""] else [];
            && out != [] && Free(out, '/')
            && (out == [""] + f
                <==> !((eaten && |f| >= 2 && f[0] == "") || (dot && names != [] && names[|names| - 1] == "")))
  {
    var kept := if eaten then names else [""] + names;
    var rooted := if kept == [] || kept[0] != "" then [""] + kept else kept;
    JoinEndsInSlash(rooted);
    var out := PutSlashes(kept, dot || names[|names| - 1] == "");
    var f := names + if dot then [""] else [];
    if eaten && names != [] && names[0] == "" {
      assert |rooted| == |names|;
    } else {
      assert rooted == [""] + names;
    }
  }

  /** On lists: the pass yields a leading empty segment and then the RFC's segments, or it loses a slash. */
  lemma PassedSegments(bare: bool, parts: Segments)
    requires parts != [] && Free(parts, '/')
    ensures var out := Passed(if bare then parts else [""] + parts);
            && out != [] && Free(out, '/')
            && (out == [""] + Final([], parts) <==> !LosesSlash(bare, parts))
  {
    var place := Path.Walk(Path.START, parts);
    var names := place.names;
    var eaten := bare || place.ups > 0;
    assert Free(names, '/') by { WalkFree(Path.START, parts); }
    LastName(parts);
    assert Passed(if bare then parts else [""] + parts)
        == PutSlashes(if eaten then names else [""] + names, EndsInDot(parts) || names[|names| - 1] == "") by {
      KeptNames(bare, parts);
    }
    PutSlashesCompared(names, eaten, EndsInDot(parts));
  }

  lemma KeptNames(bare: bool, parts: Segments)
    requires parts != []
    ensures var src := if bare then parts else [""] + parts;
            var place := Path.Walk(Path.START, parts);
            && Path.Evaluate(src, false) == (if bare || place.ups > 0 then place.names else [""] + place.names)
            && src[|src| - 1] == parts[|parts| - 1]
  {
    hide Path.Walk, Path.Evaluate;
    var src := if bare then parts else [""] + parts;
    EvaluateBelow(src);
    if !bare {
      WalkOnBottom("", [], parts);
      assert [""] + [] == [""];
      WalkEmptyFirst(parts);
    }
  }

  lemma EvaluateBelow(parts: Segments)
    ensures Path.Evaluate(parts, false) == Path.Walk(Path.START, parts).names
  {
    hide Path.Walk;
  }

  lemma WalkEmptyFirst(parts: Segments)
    ensures Path.Walk(Path.START, [""] + parts) == Path.Walk(Path.Place(0, [""]), parts)
  {
    var src := [""] + parts;
    assert src[0] == "" && src[1..] == parts;
    assert Path.Enter(Path.START, "") == Path.Place(0, [""]);
  }

  /** A last segment that is not a dot segment is the last name. */
  lemma LastName(parts: Segments)
    requires parts != []
    ensures !EndsInDot(parts) ==>
              var names := Path.Walk(Path.START, parts).names;
              names != [] && names[|names| - 1] == parts[|parts| - 1]
  {
    var init, last := parts[..|parts| - 1], parts[|parts| - 1];
    assert parts == init + [last];
    Path.WalkLast(Path.START, init, last);
  }

  /** A path that is split and resolved: the dot pass gives what `remove_dot_segments` gives unless a slash is lost. */
  lemma PassAgrees(base: string, referenceHasHost: bool, reference: string, hasSearch: bool)
    requires Wellformed(base, referenceHasHost, reference)
    ensures var path := TargetPath(base, referenceHasHost, reference);
            var m := MergePaths(base, referenceHasHost, reference, hasSearch);
            m.Parts? ==>
              (Pathname(base, m) == RemoveDotSegments(Buffers(path, "")) <==>
               (path == "" || !LosesSlash(Bare(base, referenceHasHost, reference), Split(path, '/')[1..])))
  {
    var path := TargetPath(base, referenceHasHost, reference);
    var m := MergePaths(base, referenceHasHost, reference, hasSearch);
    var bare := Bare(base, referenceHasHost, reference);
    MergeIsTarget(base, referenceHasHost, reference, hasSearch);
    if m.Parts? && path != "" {
      SplitAbsolute(path);
      var all := Split(path, '/');
      var parts := all[1..];
      assert all == [""] + parts;
      assert Free(parts, '/');
      RemoveDotsIsStack([], parts);
      PassedSegments(bare, parts);
      FinalFree(parts);
      var f := Final([], parts);
      SlashedIsJoin(f);
      assert RemoveDotSegments(Buffers(path, "")) == Join([""] + f, '/');
      SplitJoin([""] + f, '/');
      SplitJoin(Passed(m.parts), '/');
    }
  }

  /** The pass leaves a path alone exactly when it has no dot segment. */
  lemma PassKeepsPath(base: string)
    requires base != "" && base[0] == '/'
    ensures Join(Passed(Split(base, '/')), '/') == base <==> Path.Proper(Split(base, '/'))
  {
    var parts := Split(base, '/');
    SplitAbsolute(base);
    JoinSplit(base, '/');
    PassedProper(parts);
    if Path.Proper(parts) { PassedSame(parts); }
    SplitJoin(Passed(parts), '/');
  }

  /** What the pass leaves has no dot segments. */
  lemma PassedProper(parts: Segments)
    requires parts != [] && Free(parts, '/')
    ensures Passed(parts) != [] && Free(Passed(parts), '/') && Path.Proper(Passed(parts))
  {
    hide PutSlashes, Path.Walk, Path.Proper;
    var kept := Path.Walk(Path.START, parts).names;
    assert Path.Evaluate(parts, false) == kept;
    NothingProper();
    Path.WalkKeeps(Path.START, parts);
    WalkFree(Path.START, parts);
    PutSlashesProper(kept, parts[|parts| - 1] in [".", "..", ""]);
  }

  lemma NothingProper()
    ensures Path.Proper([])
  {
  }

  /** It is the path itself if there were none. */
  lemma PassedSame(parts: Segments)
    requires |parts| >= 2 && parts[0] == "" && Free(parts, '/') && Path.Proper(parts)
    ensures Passed(parts) == parts
  {
    hide PutSlashes, Path.Walk;
    Path.WalkProper(Path.START, parts);
    assert [] + parts == parts;
    assert Path.Evaluate(parts, false) == parts;
    PutSlashesSame(parts, parts[|parts| - 1] in [".", "..", ""]);
  }

  lemma PutSlashesProper(kept: Segments, hasTrailingSlash: bool)
    requires Path.Proper(kept) && Free(kept, '/')
    ensures var out := PutSlashes(kept, hasTrailingSlash); out != [] && Path.Proper(out) && Free(out, '/')
  {
    hide Join;
  }

  lemma PutSlashesSame(parts: Segments, hasTrailingSlash: bool)
    requires |parts| >= 2 && parts[0] == "" && Free(parts, '/') && (hasTrailingSlash ==> parts[|parts| - 1] == "")
    ensures PutSlashes(parts, hasTrailingSlash) == parts
  {
    hide Join;
    JoinEndsInSlash(parts);
  }

  /** `remove_dot_segments` leaves a path alone exactly when it has no dot segment. */
  lemma RemoveDotsKeepsPath(path: string)
    requires path != "" && path[0] == '/'
    ensures RemoveDotSegments(Buffers(path, "")) == path <==> Path.Proper(Split(path, '/')[1..])
  {
    hide RemoveDotSegments, Path.Walk;
    SplitAbsolute(path);
    var parts := Split(path, '/')[1..];
    assert Split(path, '/') == [""] + parts && Free(parts, '/');
    assert Slashed([]) == "";
    RemoveDotsIsStack([], parts);
    FinalFree(parts);
    SplitText(Slashed(Final([], parts)), Final([], parts));
    assert Slashed(Final([], parts)) == path ==> Final([], parts) == parts by {
      assert ([""] + Final([], parts))[1..] == Final([], parts);
    }
    FinalProper(parts);
  }

  /** What is left has no dot segment, and is all there was if there was none. */
  lemma FinalProper(parts: Segments)
    requires parts != []
    ensures Path.Proper(Final([], parts)) && (Path.Proper(parts) ==> Final([], parts) == parts)
  {
    hide Path.Walk;
    Path.WalkKeeps(Path.START, parts);
    if Path.Proper(parts) {
      Path.WalkProper(Path.START, parts);
      assert [] + parts == parts;
    }
  }

  /** What a caller can see: of the two paths, the one that is not changed has no dot segment, or no slash is lost. */
  ghost predicate Agrees(base: string, r: Reference) {
    if IsEmpty(r) then true
    else if BringsPath(r) then r.path == "" || Path.Proper(Split(r.path, '/')[1..])
    else if !r.hasHost && r.path == "" then r.hasSearch || Path.Proper(Split(base, '/'))
    else
      var path := TargetPath(base, r.hasHost, r.path);
      path == "" || !LosesSlash(Bare(base, r.hasHost, r.path), Split(path, '/')[1..])
  }

  /** The pathname is the one of RFC 3986 exactly under that condition. */
  lemma ResolveAgreesWithRfc(base: string, r: Reference)
    requires ReferenceOk(base, r)
    ensures ResolvedPath(base, r) == RfcPath(base, r) <==> Agrees(base, r)
  {
    hide LosesSlash, Passed, Join;
    if IsEmpty(r) {
    } else if BringsPath(r) {
      if r.path != "" { RemoveDotsKeepsPath(r.path); }
    } else if !r.hasHost && r.path == "" {
      if base == "" {
        assert Split("", '/') == [""];
      } else {
        PassKeepsPath(base);
      }
    } else {
      PassAgrees(base, r.hasHost, r.path, r.hasSearch);
    }
  }

  lemma FinalFree(parts: Segments)
    requires parts != [] && Free(parts, '/')
    ensures Final([], parts) != [] && Free(Final([], parts), '/')
  {
    WalkFree(Path.START, parts);
    LastName(parts);
  }

  /** No empty segment but the leading one and perhaps the last: then no slash is lost. */
  lemma PlainPathsAgree(bare: bool, parts: Segments)
    requires parts != [] && Free(parts, '/') && "" !in parts[..|parts| - 1]
    ensures !LosesSlash(bare, parts)
  {
    var init, last := parts[..|parts| - 1], parts[|parts| - 1];
    assert parts == init + [last];
    Path.WalkLast(Path.START, init, last);
    WalkFree(Path.START, init);
    var before := Path.Walk(Path.START, init).names;
    assert forall i :: 0 <= i < |before| ==> before[i] != "";
  }

  /** The segments of an absolute path given as text. */
  lemma SplitText(path: string, parts: Segments)
    requires parts != [] && Free(parts, '/') && path == Slashed(parts)
    ensures Split(path, '/') == [""] + parts
  {
    SlashedIsJoin(parts);
    SplitJoin([""] + parts, '/');
  }

  function PathOnly(path: string): Reference {
    Reference(NoScheme, false, path, false, false)
  }

  /** Both readings of a reference that is an absolute path, on its segments. */
  lemma AtSegments(base: string, path: string, parts: Segments)
    requires parts != [] && Free(parts, '/') && path == Slashed(parts)
    ensures ResolvedPath(base, PathOnly(path)) == Join(Passed([""] + parts), '/')
    ensures RfcPath(base, PathOnly(path)) == Slashed(Final([], parts))
  {
    hide Passed, Join;
    assert path[0] == '/';
    SplitText(path, parts);
    RemoveDotsIsStack([], parts);
    assert Slashed([]) == "";
  }

  lemma WalkThree(a: string, b: string, c: string)
    ensures Path.Walk(Path.START, [a, b, c]) == Path.Enter(Path.Enter(Path.Enter(Path.START, a), b), c)
  {
    hide Path.Enter;
    var p := Path.Enter(Path.START, a);
    var q := Path.Enter(p, b);
    assert [a, b, c][1..] == [b, c] && [b, c][1..] == [c] && [c][1..] == [];
    assert Path.Walk(q, [c]) == Path.Enter(q, c);
    assert Path.Walk(p, [b, c]) == Path.Enter(q, c);
  }

  lemma WalkDot(a: string, b: string)
    requires a !in [".", ".."] && b !in [".", ".."]
    ensures Path.Walk(Path.START, [a, b, "."]) == Path.Walk(Path.START, [a, ".", b]) == Path.Place(0, [a, b])
  {
    WalkThree(a, b, ".");
    WalkThree(a, ".", b);
  }

  lemma SlashedThree(a: string, b: string, c: string)
    ensures Slashed([b, c]) == "/" + b + "/" + c
    ensures Slashed([a, b, c]) == "/" + a + "/" + b + "/" + c
  {
    assert [a, b, c][1..] == [b, c] && [b, c][1..] == [c] && [c][1..] == [];
    assert Slashed([c]) == "/" + c;
    assert Slashed([b, c]) == "/" + b + ("/" + c);
    assert Slashed([a, b, c]) == "/" + a + ("/" + b + "/" + c);
  }

  lemma JoinThree(a: string, b: string, c: string)
    ensures Join([b, c], '/') == b + "/" + c
    ensures Join([a, b, c], '/') == a + "/" + b + "/" + c
  {
    assert [a, b, c][1..] == [b, c] && [b, c][1..] == [c];
    assert Join([c], '/') == c;
    assert Join([b, c], '/') == b + "/" + c;
    assert Join([a, b, c], '/') == a + "/" + (b + "/" + c);
  }

  /** What the pass leaves of an absolute path, from where its segments lead. */
  lemma PassedAt(parts: Segments, place: Path.Place)
    requires parts != [] && Path.Walk(Path.START, parts) == place
    ensures var kept := if place.ups > 0 then place.names else [""] + place.names;
            Passed([""] + parts) == PutSlashes(kept, parts[|parts| - 1] in [".", "..", ""])
  {
    hide Path.Walk, Path.Evaluate, PutSlashes;
    KeptNames(false, parts);
  }

  /** Nothing is to be put: the list starts with an empty segment, and no slash is missing at the end. */
  lemma NothingPut(kept: Segments, hasTrailingSlash: bool)
    requires |kept| >= 2 && Free(kept, '/') && (hasTrailingSlash ==> kept[|kept| - 1] == "")
    ensures PutSlashes(kept, hasTrailingSlash) == if kept[0] == "" then kept else [""] + kept
  {
    hide Join;
    JoinEndsInSlash(if kept[0] == "" then kept else [""] + kept);
  }

  /** Resolving `/..//a` gives `/a`, where RFC 3986 has `//a`: the leading empty segment is eaten. */
  lemma LeadingSlashLost(base: string)
    ensures ResolvedPath(base, PathOnly("/..//a")) == "/a"
    ensures RfcPath(base, PathOnly("/..//a")) == "//a"
  {
    hide Join, Slashed, ResolvedPath, RfcPath, Path.Walk, Passed, PutSlashes;
    var parts := ["..", "", "a"];
    WalkThree("..", "", "a");
    SlashedThree("..", "", "a");
    AtSegments(base, "/..//a", parts);
    PassedAt(parts, Path.Place(1, ["", "a"]));
    NothingPut(["", "a"], false);
    JoinThree("", "", "a");
    assert Final([], parts) == ["", "a"];
  }

  /** Resolving `/a//.` gives `/a/`, where RFC 3986 has `/a//`: the trailing slash is taken to be there. */
  lemma TrailingSlashLost(base: string)
    ensures ResolvedPath(base, PathOnly("/a//.")) == "/a/"
    ensures RfcPath(base, PathOnly("/a//.")) == "/a//"
  {
    hide Join, Slashed, ResolvedPath, RfcPath, Path.Walk, Path.Enter, Passed, PutSlashes;
    var parts := ["a", "", "."];
    SlashedThree("a", "", ".");
    WalkDot("a", "");
    AtSegments(base, "/a//.", parts);
    PassedAt(parts, Path.Place(0, ["a", ""]));
    assert [""] + ["a", ""] == ["", "a", ""];
    NothingPut(["", "a", ""], true);
    JoinThree("", "a", "");
    SlashedThree("a", "", "");
    assert Final([], parts) == ["a", "", ""];
  }

  /** A fragment alone, on `/a/./b`, gives `/a/b`, where RFC 3986 keeps the base. */
  lemma BaseNotKept()
    ensures var r := Reference(NoScheme, false, "", false, true);
            ResolvedPath("/a/./b", r) == "/a/b" && RfcPath("/a/./b", r) == "/a/./b"
  {
    hide Join, Slashed, Path.Walk, Path.Enter, Passed, PutSlashes;
    var parts := ["a", ".", "b"];
    SlashedThree("a", ".", "b");
    WalkDot("a", "b");
    SplitText("/a/./b", parts);
    PassedAt(parts, Path.Place(0, ["a", "b"]));
    assert [""] + ["a", "b"] == ["", "a", "b"];
    NothingPut(["", "a", "b"], false);
    JoinThree("", "a", "b");
  }

  /** The reference `//h/a/./b`, on any base, keeps `/a/./b`, where RFC 3986 has `/a/b`. */
  lemma DotsKept(base: string)
    ensures var r := Reference(NoScheme, true, "/a/./b", false, false);
            ResolvedPath(base, r) == "/a/./b" && RfcPath(base, r) == "/a/b"
  {
    hide Join, Slashed, Path.Walk, Path.Enter, RemoveDotSegments;
    var parts := ["a", ".", "b"];
    SlashedThree("a", ".", "b");
    SlashedThree("", "a", "b");
    WalkDot("a", "b");
    SlashedNothing();
    RemoveDotsIsStack([], parts);
    assert Final([], parts) == ["a", "b"];
    assert Slashed(parts) == "/a/./b";
    assert Slashed(["a", "b"]) == "/a/b";
  }

  lemma SlashedNothing()
    ensures Slashed([]) == ""
  {
  }
}
