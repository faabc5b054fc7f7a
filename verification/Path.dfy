/**
 * lib/path.js (posix): `normalizeArray` splices an array from right to left, counting pending `..` in `up`. It
 * is proved to give the plain left-to-right reading of `.` and `..` on a stack, and from that `normalize` is
 * idempotent and `resolve` is a sequence of `cd` commands.
 */
module Path {
  import opened Strings

  type Segments = seq<string>

  // ------------------------------------------------------------------ stack reading

  /** A position relative to a starting directory: `ups` levels above it, then down `names`. */
  datatype Place = Place(ups: nat, names: Segments)

  const START := Place(0, [])

  /** One path segment, read left to right. */
  function Enter(p: Place, s: string): Place {
    if s == "." then p
    else if s == ".." then
      if p.names == [] then Place(p.ups + 1, []) else Place(p.ups, p.names[..|p.names| - 1])
    else Place(p.ups, p.names + [s])
  }

  function Walk(p: Place, parts: Segments): Place
    decreases |parts|
  {
    if parts == [] then p else Walk(Enter(p, parts[0]), parts[1..])
  }

  function Ups(n: nat): (r: Segments)
    ensures |r| == n && forall i :: 0 <= i < n ==> r[i] == ".."
  {
    seq(n, _ => "..")
  }

  /** The segments of a place; levels above the root vanish unless they are allowed. */
  function Spell(p: Place, allowAboveRoot: bool): Segments {
    (if allowAboveRoot then Ups(p.ups) else []) + p.names
  }

  function Evaluate(parts: Segments, allowAboveRoot: bool): Segments {
    Spell(Walk(START, parts), allowAboveRoot)
  }

  // ------------------------------------------------------------------ right-to-left pass

  /** The suffix already kept after scanning a prefix leftwards with `up` names still to drop. */
  function Backward(p: Place, up: nat): Place {
    if up <= |p.names| then Place(p.ups, p.names[..|p.names| - up])
    else Place(p.ups + (up - |p.names|), [])
  }

  lemma {:induction false} WalkAppend(p: Place, a: Segments, b: Segments)
    ensures Walk(p, a + b) == Walk(Walk(p, a), b)
    decreases |a|
  {
    if a == [] {
      assert a + b == b;
    } else {
      assert (a + b)[0] == a[0] && (a + b)[1..] == a[1..] + b;
      WalkAppend(Enter(p, a[0]), a[1..], b);
    }
  }

  lemma WalkLast(p: Place, a: Segments, s: string)
    ensures Walk(p, a + [s]) == Enter(Walk(p, a), s)
  {
    WalkAppend(p, a, [s]);
  }

  /** What dropping one segment from the prefix does to the pending names. */
  lemma ScanStep(rest: Segments, last: string, up: nat)
    ensures var was := Backward(Walk(START, rest + [last]), up);
            if last == "." then Backward(Walk(START, rest), up) == was
            else if last == ".." then Backward(Walk(START, rest), up + 1) == was
            else if up > 0 then Backward(Walk(START, rest), up - 1) == was
            else var now := Backward(Walk(START, rest), 0); now.ups == was.ups && now.names + [last] == was.names
  {
    WalkLast(START, rest, last);
  }

  /** The whole reading, with `todo` still to be scanned, `up` names to drop and the suffix `kept`. */
  ghost predicate Amounts(whole: Place, todo: Segments, up: nat, kept: Segments) {
    var left := Backward(Walk(START, todo), up);
    whole.ups == left.ups && whole.names == left.names + kept
  }

  lemma ScanOne(whole: Place, rest: Segments, last: string, up: nat, kept: Segments)
    requires Amounts(whole, rest + [last], up, kept)
    ensures if last == "." then Amounts(whole, rest, up, kept)
            else if last == ".." then Amounts(whole, rest, up + 1, kept)
            else if up > 0 then Amounts(whole, rest, up - 1, kept)
            else Amounts(whole, rest, 0, [last] + kept)
  {
    hide Walk, Backward;
    ScanStep(rest, last, up);
    var names := Backward(Walk(START, rest), 0).names;
    assert names + [last] + kept == names + ([last] + kept);
  }

  /**
   * The first loop of `normalizeArray`: it starts one past the end, where `parts[i]` is undefined and nothing
   * happens; `splice(i, 1)` removes one element.
   */
  method ScanBack(input: Segments) returns (parts: Segments, up: nat)
    ensures Walk(START, input) == Place(up, parts)
  {
    hide Walk, Backward, Amounts;
    parts, up := input, 0;
    ghost var todo, kept := input, [];
    ghost var whole := Walk(START, input);
    assert Amounts(whole, todo, up, kept) by { ScanStarts(input); }
    var i := |parts|;
    while i >= 0
      invariant -1 <= i <= |input| && |todo| == (if i < |input| then i + 1 else i)
      invariant parts == todo + kept
      invariant i == |input| ==> up == 0 && kept == []
      invariant Amounts(whole, todo, up, kept)
    {
      if i < |parts| {
        var last := parts[i];
        ghost var rest := todo[..i];
        assert todo == rest + [last];
        ScanOne(whole, rest, last, up, kept);
        assert parts[..i] + parts[i + 1..] == rest + kept;
        if last == "." {
          parts := parts[..i] + parts[i + 1..];
        } else if last == ".." {
          parts := parts[..i] + parts[i + 1..];
          up := up + 1;
        } else if up > 0 {
          parts := parts[..i] + parts[i + 1..];
          up := up - 1;
        } else {
          kept := [last] + kept;
        }
        todo := rest;
      }
      i := i - 1;
    }
    ScanEnds(whole, up, kept);
  }

  lemma ScanStarts(input: Segments)
    ensures Amounts(Walk(START, input), input, 0, [])
  {
  }

  lemma ScanEnds(whole: Place, up: nat, kept: Segments)
    requires Amounts(whole, [], up, kept)
    ensures whole == Place(up, kept)
  {
  }

  /** `normalizeArray`, with the second loop that puts the leading `..` back. */
  method NormalizeArray(input: Segments, allowAboveRoot: bool) returns (parts: Segments)
    ensures parts == Evaluate(input, allowAboveRoot)
  {
    var up: nat;
    parts, up := ScanBack(input);
    if allowAboveRoot {
      ghost var kept, all := parts, up;
      while up > 0
        invariant up <= all
        invariant parts == Ups(all - up) + kept
      {
        parts := [".."] + parts;
        up := up - 1;
      }
    }
  }

  // ------------------------------------------------------------------ facts about the stack reading

  ghost predicate Proper(names: Segments) {
    forall i :: 0 <= i < |names| ==> names[i] != "." && names[i] != ".."
  }

  ghost predicate Clean(parts: Segments) {
    forall i :: 0 <= i < |parts| ==> parts[i] != "" && '/' !in parts[i]
  }

  lemma {:induction false} WalkKeeps(p: Place, parts: Segments)
    requires Proper(p.names)
    ensures Proper(Walk(p, parts).names)
    ensures Clean(p.names) && Clean(parts) ==> Clean(Walk(p, parts).names)
    decreases |parts|
  {
    if parts == [] {
    } else {
      WalkKeeps(Enter(p, parts[0]), parts[1..]);
    }
  }

  lemma {:induction false} WalkProper(p: Place, names: Segments)
    requires Proper(names)
    ensures Walk(p, names) == Place(p.ups, p.names + names)
    decreases |names|
  {
    if names == [] {
    } else {
      WalkProper(Enter(p, names[0]), names[1..]);
      assert [names[0]] + names[1..] == names;
    }
  }

  lemma {:induction false} WalkUps(k: nat, n: nat)
    ensures Walk(Place(k, []), Ups(n)) == Place(k + n, [])
    decreases n
  {
    if n == 0 {
    } else {
      assert Ups(n)[1..] == Ups(n - 1);
      WalkUps(k + 1, n - 1);
    }
  }

  /** How far above the root one stands has no effect on the names below it. */
  lemma {:induction false} WalkNames(p: Place, q: Place, parts: Segments)
    requires p.names == q.names
    ensures Walk(p, parts).names == Walk(q, parts).names
    decreases |parts|
  {
    if parts == [] {
    } else {
      WalkNames(Enter(p, parts[0]), Enter(q, parts[0]), parts[1..]);
    }
  }

  /** Reading an evaluated prefix again changes nothing: evaluation may be done piecewise. */
  lemma EvaluatePrefix(a: Segments, b: Segments, allowAboveRoot: bool)
    ensures Evaluate(Evaluate(a, allowAboveRoot) + b, allowAboveRoot) == Evaluate(a + b, allowAboveRoot)
    ensures Evaluate(Evaluate(a, allowAboveRoot), allowAboveRoot) == Evaluate(a, allowAboveRoot)
  {
    var p := Walk(START, a);
    var e := Evaluate(a, allowAboveRoot);
    WalkKeeps(START, a);
    WalkUps(0, p.ups);
    WalkAppend(START, if allowAboveRoot then Ups(p.ups) else [], p.names);
    WalkProper(if allowAboveRoot then Place(p.ups, []) else START, p.names);
    var q := Walk(START, e);
    assert q.names == p.names && (allowAboveRoot ==> q == p);
    WalkAppend(START, a, b);
    WalkAppend(START, e, b);
    WalkNames(p, q, b);
  }

  lemma EvaluateClean(parts: Segments, allowAboveRoot: bool)
    requires Clean(parts)
    ensures Clean(Evaluate(parts, allowAboveRoot))
  {
    WalkKeeps(START, parts);
  }

  // ------------------------------------------------------------------ paths as strings

  /** `parts.filter(function(p) { return !!p; })`. */
  function NonEmpty(parts: Segments): Segments {
    if parts == [] then []
    else (if parts[0] == "" then [] else [parts[0]]) + NonEmpty(parts[1..])
  }

  function Segs(path: string): Segments {
    NonEmpty(Split(path, '/'))
  }

  predicate IsAbsolute(path: string) {
    path != "" && path[0] == '/'
  }

  predicate HasTrailingSlash(path: string) {
    path != "" && path[|path| - 1] == '/'
  }

  lemma {:induction false} NonEmptyAppend(a: Segments, b: Segments)
    ensures NonEmpty(a + b) == NonEmpty(a) + NonEmpty(b)
  {
    if a == [] {
      assert a + b == b;
    } else {
      assert (a + b)[1..] == a[1..] + b;
      NonEmptyAppend(a[1..], b);
    }
  }

  lemma {:induction false} NonEmptyClean(parts: Segments)
    requires Free(parts, '/')
    ensures Clean(NonEmpty(parts))
    ensures Clean(parts) ==> NonEmpty(parts) == parts
  {
    if parts == [] {
    } else {
      NonEmptyClean(parts[1..]);
      assert [parts[0]] + parts[1..] == parts;
    }
  }

  lemma SegsClean(path: string)
    ensures Clean(Segs(path))
  {
    NonEmptyClean(Split(path, '/'));
  }

  /** A slash between two texts separates their segments; leading and trailing slashes add none. */
  lemma SegsConcat(a: string, b: string)
    ensures Segs(a + "/" + b) == Segs(a) + Segs(b)
    ensures Segs("/" + b) == Segs(b)
    ensures Segs(a + "/") == Segs(a)
  {
    SplitConcat(a, b, '/');
    NonEmptyAppend(Split(a, '/'), Split(b, '/'));
    SplitConcat("", b, '/');
    assert "" + ['/'] + b == "/" + b;
    NonEmptyAppend([""], Split(b, '/'));
    SplitConcat(a, "", '/');
    assert a + ['/'] + "" == a + "/";
    NonEmptyAppend(Split(a, '/'), [""]);
  }

  lemma SegsJoin(parts: Segments)
    requires Clean(parts)
    ensures Segs(Join(parts, '/')) == parts
    ensures parts != [] ==> var s := Join(parts, '/'); s != "" && s[0] != '/' && s[|s| - 1] != '/'
  {
    if parts != [] {
      SplitJoin(parts, '/');
      NonEmptyClean(parts);
      JoinEnds(parts);
    }
  }

  lemma {:induction false} JoinEnds(parts: Segments)
    requires Clean(parts) && parts != []
    ensures var s := Join(parts, '/'); s != "" && s[0] != '/' && s[|s| - 1] != '/'
  {
    if |parts| > 1 {
      JoinEnds(parts[1..]);
    }
  }

  // ------------------------------------------------------------------ normalize and join

  /** Slashes and `.` put around the joined segments. */
  function Dress(body: string, absolute: bool, trailingSlash: bool): string {
    var named := if body == "" && !absolute then "." else body;
    (if absolute then "/" else "") + (if named != "" && trailingSlash then named + "/" else named)
  }

  function Normalized(path: string): string {
    Dress(Join(Evaluate(Segs(path), !IsAbsolute(path)), '/'), IsAbsolute(path), HasTrailingSlash(path))
  }

  method Normalize(path: string) returns (r: string)
    ensures r == Normalized(path)
  {
    var isAbsolute := IsAbsolute(path);
    var trailingSlash := HasTrailingSlash(path);
    var parts := NormalizeArray(Segs(path), !isAbsolute);
    r := Join(parts, '/');
    if r == "" && !isAbsolute { r := "."; }
    if r != "" && trailingSlash { r := r + "/"; }
    r := (if isAbsolute then "/" else "") + r;
  }

  lemma DressSegs(e: Segments, absolute: bool, trailingSlash: bool)
    requires Clean(e)
    ensures Segs(Dress(Join(e, '/'), absolute, trailingSlash)) == if e == [] && !absolute then ["."] else e
  {
    SegsJoin(e);
    var body := Join(e, '/');
    var named := if body == "" && !absolute then "." else body;
    SplitWord(".", '/');
    var tail := if named != "" && trailingSlash then named + "/" else named;
    assert Segs(tail) == Segs(named) by { SegsConcat(named, ""); }
    SegsConcat("", tail);
    assert "" + tail == tail;
  }

  lemma DressEnds(e: Segments, absolute: bool, trailingSlash: bool)
    requires Clean(e)
    ensures var r := Dress(Join(e, '/'), absolute, trailingSlash);
            r != "" && IsAbsolute(r) == absolute && (e != [] || !absolute ==> HasTrailingSlash(r) == trailingSlash)
  {
    SegsJoin(e);
  }

  /** What the normalized text still says: same root, same place, and when it ends in a slash. */
  lemma NormalizedReads(path: string)
    ensures var r := Normalized(path); var abs := IsAbsolute(path);
            && r != ""
            && IsAbsolute(r) == abs
            && Evaluate(Segs(r), !abs) == Evaluate(Segs(path), !abs)
            && (Evaluate(Segs(path), !abs) != [] || !abs ==> HasTrailingSlash(r) == HasTrailingSlash(path))
  {
    var abs := IsAbsolute(path);
    var e := Evaluate(Segs(path), !abs);
    SegsClean(path);
    EvaluateClean(Segs(path), !abs);
    EvaluatePrefix(Segs(path), [], !abs);
    DressSegs(e, abs, HasTrailingSlash(path));
    DressEnds(e, abs, HasTrailingSlash(path));
    assert Walk(START, ["."]) == START;
  }

  predicate NoDouble(s: string) {
    forall i :: 0 < i < |s| ==> !(s[i - 1] == '/' && s[i] == '/')
  }

  lemma {:induction false} JoinNoDouble(parts: Segments)
    requires Clean(parts)
    ensures NoDouble(Join(parts, '/'))
  {
    if |parts| > 1 {
      JoinNoDouble(parts[1..]);
      JoinEnds(parts[1..]);
      var rest, s := Join(parts[1..], '/'), Join(parts, '/');
      var n := |parts[0]|;
      assert s == parts[0] + "/" + rest;
      forall i | 0 < i < |s|
        ensures !(s[i - 1] == '/' && s[i] == '/')
      {
        if i <= n {
          assert s[i - 1] == parts[0][i - 1];
        } else {
          assert s[i] == rest[i - n - 1];
          if i > n + 1 { assert s[i - 1] == rest[i - n - 2]; }
        }
      }
    }
  }

  lemma DressNoDouble(e: Segments, absolute: bool, trailingSlash: bool)
    requires Clean(e)
    ensures NoDouble(Dress(Join(e, '/'), absolute, trailingSlash))
  {
    hide Join;
    JoinNoDouble(e);
    SegsJoin(e);
    assert e == [] ==> Join(e, '/') == "" by { JoinNothing(); }
  }

  lemma JoinNothing()
    ensures Join<char>([], '/') == ""
  {
  }

  /** Names below some levels up, which a path from the root does not have. */
  ghost predicate Plain(e: Segments, absolute: bool) {
    exists n: nat, names: Segments :: e == Ups(n) + names && Proper(names) && (absolute ==> n == 0)
  }

  lemma EvaluatePlain(parts: Segments, absolute: bool)
    ensures Plain(Evaluate(parts, !absolute), absolute)
  {
    WalkKeeps(START, parts);
    var p := Walk(START, parts);
    assert absolute ==> Evaluate(parts, false) == Ups(0) + p.names;
  }

  /** The normalized text has no empty segment between others, no `.` but alone, and `..` only in front. */
  lemma NormalizedShape(path: string)
    ensures var r := Normalized(path); NoDouble(r) && (Segs(r) == ["."] || Plain(Segs(r), IsAbsolute(path)))
  {
    hide Evaluate, Dress, NoDouble, Plain, Segs, NonEmpty;
    var abs, slash := IsAbsolute(path), HasTrailingSlash(path);
    var e := Evaluate(Segs(path), !abs);
    SegsClean(path);
    EvaluateClean(Segs(path), !abs);
    EvaluatePlain(Segs(path), abs);
    DressNoDouble(e, abs, slash);
    DressSegs(e, abs, slash);
  }

  /** `normalize` is idempotent on every path. */
  lemma NormalizeIdempotent(path: string)
    ensures Normalized(Normalized(path)) == Normalized(path)
  {
    NormalizedReads(path);
  }

  /** An argument of `join` or `resolve`; anything that is not a string is skipped. */
  datatype Arg = Text(s: string) | NotText

  function Texts(args: seq<Arg>): Segments {
    if args == [] then []
    else (if args[0].Text? && args[0].s != "" then [args[0].s] else []) + Texts(args[1..])
  }

  function Joined(args: seq<Arg>): string {
    Normalized(Join(Texts(args), '/'))
  }

  /** From a place through all the arguments, one after the other. */
  function WalkArgs(p: Place, args: seq<Arg>): Place
    decreases |args|
  {
    if args == [] then p else WalkArgs(if args[0].Text? then Walk(p, Segs(args[0].s)) else p, args[1..])
  }

  /** The first argument that says anything starts at the root. */
  predicate FromTheRoot(args: seq<Arg>) {
    args != [] && if args[0].Text? && args[0].s != "" then IsAbsolute(args[0].s) else FromTheRoot(args[1..])
  }

  /** The last one ends in a slash. */
  predicate EndsInSlash(args: seq<Arg>) {
    var n := |args| - 1;
    args != [] && if args[n].Text? && args[n].s != "" then HasTrailingSlash(args[n].s) else EndsInSlash(args[..n])
  }

  lemma {:induction false} JoinWalks(p: Place, args: seq<Arg>)
    ensures Walk(p, Segs(Join(Texts(args), '/'))) == WalkArgs(p, args)
    decreases |args|
  {
    hide Walk, Segs, Join;
    WalkNowhere(p);
    if args == [] {
    } else if args[0].Text? && args[0].s != "" {
      JoinWalks(Walk(p, Segs(args[0].s)), args[1..]);
      assert Texts(args) == [args[0].s] + Texts(args[1..]);
      WalkFirst(p, args[0].s, Texts(args[1..]));
    } else {
      JoinWalks(p, args[1..]);
      assert Texts(args) == Texts(args[1..]);
    }
  }

  lemma WalkNowhere(p: Place)
    ensures Walk(p, Segs("")) == p && Join<char>([], '/') == ""
  {
  }

  lemma WalkFirst(p: Place, a: string, rest: seq<string>)
    ensures Walk(p, Segs(Join([a] + rest, '/'))) == Walk(Walk(p, Segs(a)), Segs(Join(rest, '/')))
  {
    hide Walk, Segs;
    WalkNowhere(Walk(p, Segs(a)));
    assert ([a] + rest)[1..] == rest;
    SegsConcat(a, Join(rest, '/'));
    WalkAppend(p, Segs(a), Segs(Join(rest, '/')));
  }

  lemma {:induction false} JoinStarts(args: seq<Arg>)
    ensures IsAbsolute(Join(Texts(args), '/')) == FromTheRoot(args)
  {
    if args == [] {
    } else {
      JoinStarts(args[1..]);
      if args[0].Text? && args[0].s != "" {
        assert Texts(args)[0] == args[0].s;
      } else {
        assert Texts(args) == Texts(args[1..]);
      }
    }
  }

  lemma {:induction false} JoinFinishes(args: seq<Arg>)
    ensures HasTrailingSlash(Join(Texts(args), '/')) == EndsInSlash(args)
    decreases |args|
  {
    if args == [] {
    } else {
      var n := |args| - 1;
      var front, last := args[..n], args[n];
      JoinFinishes(front);
      assert args == front + [last];
      TextsAppend(front, [last]);
      if last.Text? && last.s != "" {
        assert Texts([last]) == [last.s] && Join([last.s], '/') == last.s;
        if Texts(front) == [] {
          assert Texts(args) == [last.s];
        } else {
          JoinAppend(Texts(front), [last.s], '/');
        }
      } else {
        assert Texts([last]) == [] && Texts(args) == Texts(front);
      }
    }
  }

  /** `join`: the segments are those of a walk through all arguments, from the root if the first one starts there. */
  lemma JoinedReads(args: seq<Arg>)
    ensures var r, abs := Joined(args), FromTheRoot(args);
            var e := Spell(WalkArgs(START, args), !abs);
            && r != "" && IsAbsolute(r) == abs && NoDouble(r)
            && Segs(r) == (if e == [] && !abs then ["."] else e)
            && (e != [] || !abs ==> HasTrailingSlash(r) == EndsInSlash(args))
  {
    var s := Join(Texts(args), '/');
    JoinWalks(START, args);
    JoinStarts(args);
    JoinFinishes(args);
    NormalizedReads(s);
    NormalizedShape(s);
    var abs := FromTheRoot(args);
    SegsClean(s);
    EvaluateClean(Segs(s), !abs);
    DressSegs(Evaluate(Segs(s), !abs), abs, HasTrailingSlash(s));
  }

  lemma {:induction false} TextsAppend(xs: seq<Arg>, ys: seq<Arg>)
    ensures Texts(xs + ys) == Texts(xs) + Texts(ys)
  {
    if xs == [] {
      assert xs + ys == ys;
    } else {
      assert (xs + ys)[1..] == xs[1..] + ys;
      TextsAppend(xs[1..], ys);
    }
  }

  lemma {:induction false} JoinTexts(args: seq<Arg>)
    ensures Texts(args) != [] ==> Join(Texts(args), '/') != ""
  {
    if args == [] {
    } else {
      JoinTexts(args[1..]);
      var t := Texts(args);
      if args[0].Text? && args[0].s != "" {
        assert t[0] == args[0].s && t[1..] == Texts(args[1..]);
      }
    }
  }

  lemma NormalizePrefix(a: string, b: string)
    requires a != "" && b != ""
    ensures Normalized(Normalized(a) + "/" + b) == Normalized(a + "/" + b)
  {
    var n := Normalized(a);
    var abs := IsAbsolute(a);
    NormalizedReads(a);
    assert Evaluate(Segs(n + "/" + b), !abs) == Evaluate(Segs(a + "/" + b), !abs) by {
      SegsConcat(a, b);
      SegsConcat(n, b);
      EvaluatePrefix(Segs(a), Segs(b), !abs);
      EvaluatePrefix(Segs(n), Segs(b), !abs);
    }
    assert IsAbsolute(n + "/" + b) == IsAbsolute(a + "/" + b) == abs;
    assert HasTrailingSlash(n + "/" + b) == HasTrailingSlash(a + "/" + b);
  }

  /** Joining in stages: the first arguments may be joined beforehand, provided one of them is not empty. */
  lemma JoinInStages(xs: seq<Arg>, ys: seq<Arg>)
    requires Texts(xs) != []
    ensures Joined([Text(Joined(xs))] + ys) == Joined(xs + ys)
  {
    var a, b := Join(Texts(xs), '/'), Join(Texts(ys), '/');
    JoinTexts(xs);
    JoinTexts(ys);
    NormalizedReads(a);
    TextsAppend(xs, ys);
    TextsAppend([Text(Joined(xs))], ys);
    assert Texts([Text(Joined(xs))]) == [Joined(xs)];
    if Texts(ys) == [] {
      assert Texts(xs) + Texts(ys) == Texts(xs);
      assert [Joined(xs)] + Texts(ys) == [Joined(xs)];
      NormalizeIdempotent(a);
    } else {
      JoinAppend(Texts(xs), Texts(ys), '/');
      JoinAppend([Joined(xs)], Texts(ys), '/');
      NormalizePrefix(a, b);
    }
  }

  // ------------------------------------------------------------------ resolve

  /** A shell's working directory. */
  datatype Dir = Dir(absolute: bool, place: Place)

  const NOWHERE := Dir(false, START)

  /** `cd arg`. */
  function Cd(d: Dir, arg: Arg): Dir {
    if arg.NotText? || arg.s == "" then d
    else if IsAbsolute(arg.s) then Dir(true, Walk(START, Segs(arg.s)))
    else Dir(d.absolute, Walk(d.place, Segs(arg.s)))
  }

  function CdAll(d: Dir, args: seq<Arg>): Dir
    decreases |args|
  {
    if args == [] then d else CdAll(Cd(d, args[0]), args[1..])
  }

  /** `pwd`. */
  function Pwd(d: Dir): string {
    var text := (if d.absolute then "/" else "") + Join(Spell(d.place, !d.absolute), '/');
    if text == "" then "." else text
  }

  function Resolved(cwd: string, args: seq<Arg>): string {
    Pwd(CdAll(NOWHERE, [Text(cwd)] + args))
  }

  lemma {:induction false} CdAppend(d: Dir, xs: seq<Arg>, ys: seq<Arg>)
    ensures CdAll(d, xs + ys) == CdAll(CdAll(d, xs), ys)
    decreases |xs|
  {
    if xs == [] {
      assert xs + ys == ys;
    } else {
      assert (xs + ys)[1..] == xs[1..] + ys;
      CdAppend(Cd(d, xs[0]), xs[1..], ys);
    }
  }

  lemma CdThenWalk(d: Dir, path: string, rest: string)
    requires path != ""
    ensures Walk(Cd(d, Text(path)).place, Segs(rest))
         == Walk(if IsAbsolute(path) then START else d.place, Segs(path + "/" + rest))
  {
    SegsConcat(path, rest);
    WalkAppend(if IsAbsolute(path) then START else d.place, Segs(path), Segs(rest));
  }

  /**
   * `path.resolve`: scans the arguments right to left, prepending to `resolvedPath` until an absolute one is
   * met, then normalizes once. The result is what a shell prints after `cd cwd; cd args[0]; cd args[1]; ...;
   * pwd`.
   */
  method Resolve(cwd: string, args: seq<Arg>) returns (r: string)
    ensures r == Resolved(cwd, args)
  {
    var resolvedPath := "";
    var resolvedAbsolute := false;
    var i := |args|;
    ghost var all := [Text(cwd)] + args;
    ghost var todo := all;
    assert CdAll(NOWHERE, all) == Dir(CdAll(NOWHERE, todo).absolute, Walk(CdAll(NOWHERE, todo).place, Segs("")));
    while i >= -1 && !resolvedAbsolute
      invariant -2 <= i <= |args|
      invariant |todo| == (if i < |args| then i + 2 else i + 1) && todo == all[..|todo|]
      invariant resolvedAbsolute ==> CdAll(NOWHERE, all) == Dir(true, Walk(START, Segs(resolvedPath)))
      invariant !resolvedAbsolute ==>
          var d := CdAll(NOWHERE, todo); CdAll(NOWHERE, all) == Dir(d.absolute, Walk(d.place, Segs(resolvedPath)))
      invariant resolvedAbsolute == IsAbsolute(resolvedPath)
    {
      if i < |args| {
        var path := if i >= 0 then args[i] else Text(cwd);
        ghost var rest := todo[..i + 1];
        assert todo == rest + [path];
        CdAppend(NOWHERE, rest, [path]);
        ghost var d := CdAll(NOWHERE, rest);
        assert CdAll(d, [path]) == Cd(d, path);
        if path.Text? && path.s != "" {
          CdThenWalk(d, path.s, resolvedPath);
          resolvedPath := path.s + "/" + resolvedPath;
          resolvedAbsolute := IsAbsolute(path.s);
        }
        todo := rest;
      }
      i := i - 1;
    }
    var parts := NormalizeArray(Segs(resolvedPath), !resolvedAbsolute);
    var text := (if resolvedAbsolute then "/" else "") + Join(parts, '/');
    r := if text == "" then "." else text;
  }

  lemma {:induction false} CdKeeps(d: Dir, args: seq<Arg>)
    requires Proper(d.place.names) && Clean(d.place.names)
    ensures var e := CdAll(d, args); Proper(e.place.names) && Clean(e.place.names)
    ensures d.absolute ==> CdAll(d, args).absolute
    decreases |args|
  {
    if args == [] {
    } else {
      if args[0].Text? {
        SegsClean(args[0].s);
        WalkKeeps(d.place, Segs(args[0].s));
        WalkKeeps(START, Segs(args[0].s));
      }
      CdKeeps(Cd(d, args[0]), args[1..]);
    }
  }

  lemma {:induction false} CdNames(d: Dir, e: Dir, args: seq<Arg>)
    requires d.absolute == e.absolute && d.place.names == e.place.names
    ensures var x, y := CdAll(d, args), CdAll(e, args); x.absolute == y.absolute && x.place.names == y.place.names
    decreases |args|
  {
    if args == [] {
    } else {
      if args[0].Text? {
        WalkNames(d.place, e.place, Segs(args[0].s));
      }
      CdNames(Cd(d, args[0]), Cd(e, args[0]), args[1..]);
    }
  }

  lemma FromRoot(cwd: string, args: seq<Arg>)
    requires IsAbsolute(cwd)
    ensures var d := CdAll(NOWHERE, [Text(cwd)] + args); d.absolute && Proper(d.place.names) && Clean(d.place.names)
  {
    SegsClean(cwd);
    WalkKeeps(START, Segs(cwd));
    assert ([Text(cwd)] + args)[1..] == args;
    CdKeeps(Cd(NOWHERE, Text(cwd)), args);
  }

  lemma AbsoluteIsNormal(names: Segments)
    requires Proper(names) && Clean(names)
    ensures var r := "/" + Join(names, '/'); IsAbsolute(r) && Segs(r) == names && Normalized(r) == r
  {
    SegsJoin(names);
    SegsConcat("", Join(names, '/'));
    WalkProper(START, names);
    assert Evaluate(names, false) == names;
  }

  /** From an absolute directory `resolve` gives an absolute, already normalized path. */
  lemma ResolvedIsNormal(cwd: string, args: seq<Arg>)
    requires IsAbsolute(cwd)
    ensures var d := CdAll(NOWHERE, [Text(cwd)] + args); var r := Resolved(cwd, args);
            && d.absolute && r == "/" + Join(d.place.names, '/')
            && Segs(r) == d.place.names && Proper(d.place.names)
            && IsAbsolute(r) && Normalized(r) == r
  {
    var d := CdAll(NOWHERE, [Text(cwd)] + args);
    assert d.absolute && Proper(d.place.names) && Clean(d.place.names) by { FromRoot(cwd, args); }
    assert Spell(d.place, false) == d.place.names;
    AbsoluteIsNormal(d.place.names);
  }

  /** Resolving in stages: `resolve(xs..., ys...)` equals `resolve(resolve(xs...), ys...)`. */
  lemma ResolveInStages(cwd: string, xs: seq<Arg>, ys: seq<Arg>)
    requires IsAbsolute(cwd)
    ensures Resolved(cwd, [Text(Resolved(cwd, xs))] + ys) == Resolved(cwd, xs + ys)
  {
    var r := Resolved(cwd, xs);
    var home := [Text(cwd)];
    var d := CdAll(NOWHERE, home + xs);
    ResolvedIsNormal(cwd, xs);
    var e := Dir(true, Place(0, d.place.names));
    assert CdAll(NOWHERE, home + [Text(r)]) == e by {
      CdAppend(NOWHERE, home, [Text(r)]);
      WalkProper(START, d.place.names);
      assert CdAll(CdAll(NOWHERE, home), [Text(r)]) == Cd(CdAll(NOWHERE, home), Text(r));
    }
    assert CdAll(NOWHERE, home + ([Text(r)] + ys)) == CdAll(e, ys) by {
      assert home + ([Text(r)] + ys) == (home + [Text(r)]) + ys;
      CdAppend(NOWHERE, home + [Text(r)], ys);
    }
    assert CdAll(NOWHERE, home + (xs + ys)) == CdAll(d, ys) by {
      assert home + (xs + ys) == (home + xs) + ys;
      CdAppend(NOWHERE, home + xs, ys);
    }
    CdNames(d, e, ys);
    ResolvedIsNormal(cwd, xs + ys);
    ResolvedIsNormal(cwd, [Text(r)] + ys);
  }
}
