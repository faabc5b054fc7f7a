/**
 * lib/querystring.js: `unescapeBuffer`, `escape`, `stringify` and `parse`. A JavaScript string that is escaped
 * or unescaped stands here as its UTF-8 bytes; escaped text is a string of characters.
 */
module QueryString {
  import opened Common
  import opened Strings

  type Text = seq<Byte>

  // ------------------------------------------------------------------ percent encoding

  /** The characters that `encodeURIComponent` leaves alone. */
  predicate Unreserved(c: char) {
    'A' <= c <= 'Z' || 'a' <= c <= 'z' || '0' <= c <= '9' || c in "-_.!~*'()"
  }

  function EscapeByte(b: Byte): string {
    if b < 128 && Unreserved(b as char) then [b as char]
    else ['%', HexDigit(b as int / 16, 'A'), HexDigit(b as int % 16, 'A')]
  }

  /** `encodeURIComponent`. */
  function Escape(t: Text): string {
    if t == [] then ""
    else EscapeByte(t[0]) + Escape(t[1..])
  }

  /** A byte stored into a Buffer from a character code. */
  function Code(c: char): Byte {
    (c as int % 256) as Byte
  }

  /** The first escape, broken escape or plain character: its bytes and how many characters it takes. */
  function First(s: string, decodeSpaces: bool): (r: (Text, nat))
    requires s != ""
    ensures 1 <= r.1 <= |s| && 1 <= |r.0| <= r.1
  {
    if s[0] != '%' then ([if decodeSpaces && s[0] == '+' then 32 else Code(s[0])], 1)
    else if |s| == 1 then ([37], 1)
    else if !IsHex(s[1]) then ([37, Code(s[1])], 2)
    else if |s| == 2 then ([37, Code(s[1])], 2)
    else if !IsHex(s[2]) then ([37, Code(s[1]), Code(s[2])], 3)
    else ([(16 * HexValue(s[1]) + HexValue(s[2])) as Byte], 3)
  }

  /** The meaning of `unescapeBuffer`, reading escapes one by one; broken escapes stand for themselves. */
  function Unescaped(s: string, decodeSpaces: bool): Text {
    if s == "" then [] else var f := First(s, decodeSpaces); f.0 + Unescaped(s[f.1..], decodeSpaces)
  }

  datatype State = CHAR | HEX0 | HEX1

  /** What `charCodeAt` past the end (NaN) and any other code become when stored in a Buffer. */
  function Stored(c: int): Byte {
    if c < 0 then 0 else (c % 256) as Byte
  }

  /** As far as it reaches, the buffer holds `done`. */
  ghost predicate Holds(out: array<Byte>, outIndex: nat, done: Text)
    reads out
  {
    outIndex == |done| && forall k :: 0 <= k < |done| && k < out.Length ==> out[k] == done[k]
  }

  /** `out[i++] = c`: a store past the end of a Buffer is ignored. */
  method Put(out: array<Byte>, i: nat, c: int, ghost done: Text) returns (next: nat)
    requires Holds(out, i, done)
    modifies out
    ensures Holds(out, next, done + [Stored(c)])
  {
    if i < out.Length { out[i] := Stored(c); }
    next := i + 1;
  }

  predicate IsHexCode(c: int) {
    48 <= c <= 57 || 97 <= c <= 102 || 65 <= c <= 70
  }

  function HexCodeValue(c: int): int {
    if 48 <= c <= 57 then c - 48 else if 97 <= c <= 102 then c - 97 + 10 else c - 65 + 10
  }

  /** The characters read but not yet accounted for in the output. */
  ghost function Pending(state: State, hexchar: int): string
    requires state.HEX1? ==> 0 <= hexchar < 0xD800
  {
    match state
    case CHAR => ""
    case HEX0 => "%"
    case HEX1 => ['%', hexchar as char]
  }

  /** What one round of the loop stores, given the code it reads (negative for NaN). */
  ghost function Emitted(state: State, hexchar: int, c: int, decodeSpaces: bool): Text
    requires state.HEX1? ==> IsHexCode(hexchar)
  {
    match state
    case CHAR => if c == 37 then [] else [if decodeSpaces && c == 43 then 32 else Stored(c)]
    case HEX0 => if IsHexCode(c) then [] else [37, Stored(c)]
    case HEX1 => if IsHexCode(c) then [(16 * HexCodeValue(hexchar) + HexCodeValue(c)) as Byte]
        else [37, Stored(hexchar), Stored(c)]
  }

  ghost function Next(state: State, c: int): State {
    match state
    case CHAR => if c == 37 then HEX0 else CHAR
    case HEX0 => if IsHexCode(c) then HEX1 else CHAR
    case HEX1 => CHAR
  }

  lemma UnescapeStep(state: State, hexchar: int, c: char, t: string, decodeSpaces: bool)
    requires state.HEX1? ==> IsHexCode(hexchar)
    ensures Unescaped(Pending(state, hexchar) + ([c] + t), decodeSpaces)
         == Emitted(state, hexchar, c as int, decodeSpaces)
            + Unescaped(Pending(Next(state, c as int), if state.HEX0? then c as int else hexchar) + t, decodeSpaces)
  {
    match state {
      case CHAR => StepInChar(c, t, decodeSpaces);
      case HEX0 => StepInHex0(c, t, decodeSpaces);
      case HEX1 => StepInHex1(hexchar, c, t, decodeSpaces);
    }
  }

  lemma StepInChar(c: char, t: string, decodeSpaces: bool)
    ensures Unescaped("" + ([c] + t), decodeSpaces)
         == Emitted(CHAR, 0, c as int, decodeSpaces) + Unescaped(Pending(Next(CHAR, c as int), 0) + t, decodeSpaces)
  {
    var s := [c] + t;
    assert "" + s == s && s[1..] == t && "" + t == t;
    if c == '%' {
      assert "%" + t == s;
    }
  }

  lemma StepInHex0(c: char, t: string, decodeSpaces: bool)
    ensures Unescaped("%" + ([c] + t), decodeSpaces)
         == Emitted(HEX0, 0, c as int, decodeSpaces)
            + Unescaped(Pending(Next(HEX0, c as int), c as int) + t, decodeSpaces)
  {
    var s := ['%', c] + t;
    assert "%" + ([c] + t) == s && s[2..] == t && "" + t == t;
    if IsHex(c) {
      assert ['%', c as int as char] + t == s;
    }
  }

  lemma FirstTriple(s: string, hexchar: int, decodeSpaces: bool)
    requires |s| >= 3 && s[0] == '%' && IsHexCode(hexchar) && s[1] == hexchar as char
    ensures First(s, decodeSpaces) == (Emitted(HEX1, hexchar, s[2] as int, decodeSpaces), 3)
  {
  }

  lemma StepInHex1(hexchar: int, c: char, t: string, decodeSpaces: bool)
    requires IsHexCode(hexchar)
    ensures Unescaped(['%', hexchar as char] + ([c] + t), decodeSpaces)
         == Emitted(HEX1, hexchar, c as int, decodeSpaces) + Unescaped(t, decodeSpaces)
    ensures Pending(CHAR, hexchar) + t == t
  {
    hide First, Emitted;
    var s := ['%', hexchar as char] + ([c] + t);
    assert s[0] == '%' && s[1] == hexchar as char && s[2] == c && s[3..] == t;
    FirstTriple(s, hexchar, decodeSpaces);
  }

  lemma UnescapeEnd(state: State, hexchar: int, decodeSpaces: bool)
    requires state.HEX1? ==> IsHexCode(hexchar)
    ensures Emitted(state, hexchar, -1, decodeSpaces) == Unescaped(Pending(state, hexchar), decodeSpaces) + [0]
  {
  }

  ghost function CodeAt(s: string, i: nat): int {
    if i < |s| then s[i] as int else -1
  }

  /** Everything the loop stores from round `i` on, the last round being the one past the end. */
  ghost function Stores(s: string, i: nat, state: State, hexchar: int, decodeSpaces: bool): Text
    requires state.HEX1? ==> IsHexCode(hexchar)
    requires i <= |s| + 1
    decreases |s| + 1 - i
  {
    if i == |s| + 1 then []
    else
      var c := CodeAt(s, i);
      Emitted(state, hexchar, c, decodeSpaces)
      + Stores(s, i + 1, Next(state, c), if state.HEX0? then c else hexchar, decodeSpaces)
  }

  /** The stores are the meaning of what is pending and unread, and then one superfluous value. */
  lemma {:induction false} StoresMeaning(s: string, i: nat, state: State, hexchar: int, decodeSpaces: bool)
    requires state.HEX1? ==> IsHexCode(hexchar)
    requires i <= |s|
    ensures Stores(s, i, state, hexchar, decodeSpaces)
              == Unescaped(Pending(state, hexchar) + s[i..], decodeSpaces) + [0]
    decreases |s| - i
  {
    var c := CodeAt(s, i);
    var add := Emitted(state, hexchar, c, decodeSpaces);
    var state', hexchar' := Next(state, c), if state.HEX0? then c else hexchar;
    if i < |s| {
      assert s[i..] == [s[i]] + s[i + 1..];
      UnescapeStep(state, hexchar, s[i], s[i + 1..], decodeSpaces);
      StoresMeaning(s, i + 1, state', hexchar', decodeSpaces);
      Assoc(add, Unescaped(Pending(state', hexchar') + s[i + 1..], decodeSpaces), [0]);
    } else {
      assert Pending(state, hexchar) + s[i..] == Pending(state, hexchar);
      UnescapeEnd(state, hexchar, decodeSpaces);
      assert Stores(s, i, state, hexchar, decodeSpaces) == add + [] == add;
    }
  }

  lemma {:induction false} UnescapedShrinks(s: string, decodeSpaces: bool)
    ensures |Unescaped(s, decodeSpaces)| <= |s|
    decreases |s|
  {
    if s == "" {
    } else {
      UnescapedShrinks(s[First(s, decodeSpaces).1..], decodeSpaces);
    }
  }

  /** One round of the state machine in `unescapeBuffer`. */
  method Feed(out: array<Byte>, outIndex: nat, state: State, n: int, hexchar: int, code: int, decodeSpaces: bool,
              ghost done: Text)
    returns (outIndex': nat, state': State, n': int, hexchar': int)
    requires state.HEX1? ==> IsHexCode(hexchar) && n == HexCodeValue(hexchar)
    requires Holds(out, outIndex, done)
    modifies out
    ensures state' == Next(state, code)
    ensures hexchar' == if state.HEX0? then code else hexchar
    ensures state'.HEX1? ==> IsHexCode(hexchar') && n' == HexCodeValue(hexchar')
    ensures Holds(out, outIndex', done + Emitted(state, hexchar, code, decodeSpaces))
  {
    var c := code;
    outIndex', state', n', hexchar' := outIndex, state, n, hexchar;
    match state {
      case CHAR =>
        if c == 37 {
          n', state' := 0, HEX0;
          assert done + [] == done;
        } else {
          if c == 43 && decodeSpaces { c := 32; }
          outIndex' := Put(out, outIndex', c, done);
        }
      case HEX0 =>
        state' := HEX1;
        hexchar' := c;
        assert done + [] == done;
        if 48 <= c <= 57 {
          n' := c - 48;
        } else if 97 <= c <= 102 {
          n' := c - 97 + 10;
        } else if 65 <= c <= 70 {
          n' := c - 65 + 10;
        } else {
          outIndex' := Put(out, outIndex', 37, done);
          outIndex' := Put(out, outIndex', c, done + [37]);
          assert done + [37] + [Stored(c)] == done + [37, Stored(c)];
          state' := CHAR;
        }
      case HEX1 =>
        state' := CHAR;
        outIndex' := FeedHex1(out, outIndex, n, hexchar, c, done);
    }
  }

  /** A percent sign and one hex digit that turned out to stand for themselves, and what follows them. */
  method PutBroken(out: array<Byte>, i: nat, hexchar: int, c: int, ghost done: Text) returns (next: nat)
    requires Holds(out, i, done)
    modifies out
    ensures Holds(out, next, done + [37, Stored(hexchar), Stored(c)])
  {
    next := Put(out, i, 37, done);
    ghost var one := done + [37];
    next := Put(out, next, hexchar, one);
    ghost var two := one + [Stored(hexchar)];
    next := Put(out, next, c, two);
    assert two + [Stored(c)] == done + [37, Stored(hexchar), Stored(c)];
  }

  /** The second hex digit, or whatever stands in its place. */
  method FeedHex1(out: array<Byte>, outIndex: nat, n: int, hexchar: int, c: int, ghost done: Text)
    returns (outIndex': nat)
    requires IsHexCode(hexchar) && n == HexCodeValue(hexchar)
    requires Holds(out, outIndex, done)
    modifies out
    ensures Holds(out, outIndex', done + Emitted(HEX1, hexchar, c, false))
  {
    var m := 0;
    if 48 <= c <= 57 {
      m := c - 48;
    } else if 97 <= c <= 102 {
      m := c - 97 + 10;
    } else if 65 <= c <= 70 {
      m := c - 65 + 10;
    } else {
      outIndex' := PutBroken(out, outIndex, hexchar, c, done);
      return;
    }
    outIndex' := Put(out, outIndex, 16 * n + m, done);
  }

  /** The loop of `unescapeBuffer`: it runs one position past the end, where the code is NaN. */
  method UnescapeInto(out: array<Byte>, s: string, decodeSpaces: bool) returns (outIndex: nat)
    modifies out
    ensures Holds(out, outIndex, Stores(s, 0, CHAR, 0, decodeSpaces))
  {
    var state, n, hexchar := CHAR, 0, 0;
    var inIndex := 0;
    outIndex := 0;
    ghost var done: Text, all := [], Stores(s, 0, CHAR, 0, decodeSpaces);
    while inIndex <= |s|
      invariant 0 <= inIndex <= |s| + 1 && Holds(out, outIndex, done)
      invariant state.HEX1? ==> IsHexCode(hexchar) && n == HexCodeValue(hexchar)
      invariant done + Stores(s, inIndex, state, hexchar, decodeSpaces) == all
    {
      var c := if inIndex < |s| then s[inIndex] as int else -1;
      ghost var add := Emitted(state, hexchar, c, decodeSpaces);
      Assoc(done, add, Stores(s, inIndex + 1, Next(state, c), if state.HEX0? then c else hexchar, decodeSpaces));
      outIndex, state, n, hexchar := Feed(out, outIndex, state, n, hexchar, c, decodeSpaces, done);
      done := done + add;
      inIndex := inIndex + 1;
    }
    assert done == all;
  }

  /** `unescapeBuffer`: whatever the last state, the superfluous last value is cut off again. */
  method UnescapeBuffer(s: string, decodeSpaces: bool) returns (r: Text)
    ensures r == Unescaped(s, decodeSpaces)
    ensures |r| <= |s|
  {
    var out := new Byte[|s|](_ => 0);
    var outIndex := UnescapeInto(out, s, decodeSpaces);
    assert "" + s[0..] == s;
    StoresMeaning(s, 0, CHAR, 0, decodeSpaces);
    UnescapedShrinks(s, decodeSpaces);
    r := out[..outIndex - 1];
    assert r == (Unescaped(s, decodeSpaces) + [0])[..outIndex - 1];
  }

  // ------------------------------------------------------------------ escaping is undone

  /** The escape of one byte is the first thing read. */
  lemma EscapeFirst(b: Byte, rest: string, decodeSpaces: bool)
    ensures First(EscapeByte(b) + rest, decodeSpaces) == ([b], |EscapeByte(b)|)
  {
  }

  lemma {:induction false} EscapeRoundTrip(t: Text, decodeSpaces: bool)
    ensures Unescaped(Escape(t), decodeSpaces) == t
  {
    if t == [] {
    } else {
      EscapeFirst(t[0], Escape(t[1..]), decodeSpaces);
      EscapeRoundTrip(t[1..], decodeSpaces);
      assert Escape(t)[|EscapeByte(t[0])|..] == Escape(t[1..]);
      assert [t[0]] + t[1..] == t;
    }
  }

  /** A form's encoding: spaces are written as plus signs. */
  function FormEscape(t: Text): string {
    if t == [] then "" else (if t[0] == 32 then "+" else EscapeByte(t[0])) + FormEscape(t[1..])
  }

  lemma {:induction false} FormRoundTrip(t: Text)
    ensures Unescaped(FormEscape(t), true) == t
  {
    if t == [] {
    } else {
      var one, rest := if t[0] == 32 then "+" else EscapeByte(t[0]), FormEscape(t[1..]);
      EscapeFirst(t[0], rest, true);
      FormRoundTrip(t[1..]);
      assert FormEscape(t) == one + rest && FormEscape(t)[|one|..] == rest;
      assert First(one + rest, true) == ([t[0]], |one|);
      assert [t[0]] + t[1..] == t;
    }
  }

  function Codes(s: string): (t: Text)
    ensures |t| == |s| && forall i :: 0 <= i < |s| ==> t[i] == Code(s[i])
  {
    if s == "" then [] else [Code(s[0])] + Codes(s[1..])
  }

  /** Unreserved characters are not escaped. */
  lemma {:induction false} EscapePlain(s: string)
    requires forall i :: 0 <= i < |s| ==> Unreserved(s[i])
    ensures Escape(Codes(s)) == s
  {
    hide Unreserved, EscapeByte;
    if s == "" {
    } else {
      EscapePlain(s[1..]);
      PlainByte(s[0]);
      assert Codes(s)[1..] == Codes(s[1..]);
      assert [s[0]] + s[1..] == s;
    }
  }

  lemma PlainByte(c: char)
    requires Unreserved(c)
    ensures EscapeByte(Code(c)) == [c]
  {
    assert c < 128 as char;
  }

  /** No percent sign is followed by two hex digits. */
  predicate NoEscape(s: string) {
    forall i :: 0 <= i < |s| - 2 && s[i] == '%' ==> !(IsHex(s[i + 1]) && IsHex(s[i + 2]))
  }

  /** Text without escapes stands for itself, broken escapes included. */
  lemma {:induction false} BrokenStays(s: string, decodeSpaces: bool)
    requires NoEscape(s) && (decodeSpaces ==> '+' !in s)
    ensures Unescaped(s, decodeSpaces) == Codes(s)
    decreases |s|
  {
    hide First, NoEscape, Codes;
    if s == "" {
    } else {
      var f := First(s, decodeSpaces);
      FirstBroken(s, decodeSpaces);
      NoEscapeTail(s, f.1);
      BrokenStays(s[f.1..], decodeSpaces);
      assert f.0 + Codes(s[f.1..]) == Codes(s);
    }
  }

  lemma NoEscapeTail(s: string, k: nat)
    requires k <= |s| && NoEscape(s)
    ensures NoEscape(s[k..])
  {
    var t := s[k..];
    assert forall i :: 0 <= i < |t| ==> t[i] == s[k + i];
  }

  lemma FirstBroken(s: string, decodeSpaces: bool)
    requires s != "" && NoEscape(s) && (decodeSpaces ==> '+' !in s)
    ensures var f := First(s, decodeSpaces); |f.0| == f.1 && forall i :: 0 <= i < f.1 ==> f.0[i] == Code(s[i])
  {
  }

  /** A character that never occurs in escaped text, so it can separate. */
  predicate Separates(c: char) {
    !Unreserved(c) && c != '%'
  }

  lemma {:induction false} EscapeAvoids(t: Text, c: char)
    requires Separates(c)
    ensures c !in Escape(t)
  {
    if t == [] {
    } else {
      EscapeAvoids(t[1..], c);
    }
  }

  // ------------------------------------------------------------------ stringify and parse

  /** What a parsed or stringified object holds under a key: one string or an array of strings. */
  datatype Value = One(v: Text) | Many(vs: seq<Text>)

  function Field(k: Text, v: Text, eq: char): string {
    Escape(k) + [eq] + Escape(v)
  }

  function Fields(k: Text, vs: seq<Text>, eq: char): seq<string> {
    if vs == [] then [] else [Field(k, vs[0], eq)] + Fields(k, vs[1..], eq)
  }

  function KeyText(k: Text, value: Value, sep: char, eq: char): string {
    match value
    case One(v) => Field(k, v, eq)
    case Many(vs) => Join(Fields(k, vs, eq), sep)
  }

  function KeyTexts(m: map<Text, Value>, keys: seq<Text>, sep: char, eq: char): seq<string>
    requires forall k :: k in keys ==> k in m
  {
    if keys == [] then [] else [KeyText(keys[0], m[keys[0]], sep, eq)] + KeyTexts(m, keys[1..], sep, eq)
  }

  /** `Object.keys(m)` in some order. */
  ghost predicate Enumerates(keys: seq<Text>, m: map<Text, Value>) {
    (forall k :: k in keys <==> k in m) && (forall i, j :: 0 <= i < j < |keys| ==> keys[i] != keys[j])
  }

  /** `stringify`, for an object whose keys are visited in the order `keys`. */
  function Stringify(m: map<Text, Value>, keys: seq<Text>, sep: char, eq: char): string
    requires forall k :: k in keys ==> k in m
  {
    Join(KeyTexts(m, keys, sep, eq), sep)
  }

  /** The update of `obj` for one key and value. */
  function Add(obj: map<Text, Value>, k: Text, v: Text): map<Text, Value> {
    if k !in obj then obj[k := One(v)]
    else if obj[k].One? then obj[k := Many([obj[k].v, v])]
    else obj[k := Many(obj[k].vs + [v])]
  }

  /** The decoded key and value of one `key=value` piece. */
  function PairOf(kvp: string, eq: char): (Text, Text) {
    var x := Split(kvp, eq);
    (Unescaped(x[0], true), Unescaped(Join(x[1..], eq), true))
  }

  function PairsOf(kvps: seq<string>, eq: char): seq<(Text, Text)> {
    if kvps == [] then [] else [PairOf(kvps[0], eq)] + PairsOf(kvps[1..], eq)
  }

  function AddAll(obj: map<Text, Value>, pairs: seq<(Text, Text)>): map<Text, Value>
    decreases |pairs|
  {
    if pairs == [] then obj else AddAll(Add(obj, pairs[0].0, pairs[0].1), pairs[1..])
  }

  function Parsed(qs: string, sep: char, eq: char): map<Text, Value> {
    if qs == "" then map[] else AddAll(map[], PairsOf(Split(qs, sep), eq))
  }

  method Parse(qs: string, sep: char, eq: char) returns (obj: map<Text, Value>)
    ensures obj == Parsed(qs, sep, eq)
  {
    obj := map[];
    if qs == "" { return; }
    var kvps := Split(qs, sep);
    for i := 0 to |kvps|
      invariant AddAll(obj, PairsOf(kvps[i..], eq)) == AddAll(map[], PairsOf(kvps, eq))
    {
      var x := Split(kvps[i], eq);
      var k := UnescapeBuffer(x[0], true);
      var v := UnescapeBuffer(Join(x[1..], eq), true);
      assert kvps[i..][1..] == kvps[i + 1..];
      assert PairsOf(kvps[i..], eq)[1..] == PairsOf(kvps[i + 1..], eq);
      if k !in obj {
        obj := obj[k := One(v)];
      } else if obj[k].One? {
        obj := obj[k := Many([obj[k].v, v])];
      } else {
        obj := obj[k := Many(obj[k].vs + [v])];
      }
    }
  }

  /** The key is everything before the first separator, the value everything after it. */
  lemma PairCut(k: string, v: string, eq: char)
    requires eq !in k
    ensures PairOf(k + [eq] + v, eq) == (Unescaped(k, true), Unescaped(v, true))
    ensures PairOf(k, eq) == (Unescaped(k, true), [])
  {
    hide Unescaped;
    SplitConcat(k, v, eq);
    SplitWord(k, eq);
    JoinSplit(v, eq);
    var x := Split(k + [eq] + v, eq);
    assert x[0] == k && x[1..] == Split(v, eq);
    assert [k][1..] == [];
    UnescapedNothing();
  }

  lemma UnescapedNothing()
    ensures Join<char>([], '=') == "" && Unescaped("", true) == []
  {
  }

  // ------------------------------------------------------------------ the round trip

  lemma FieldParses(k: Text, v: Text, sep: char, eq: char)
    requires Separates(sep) && Separates(eq) && sep != eq
    ensures PairOf(Field(k, v, eq), eq) == (k, v)
    ensures sep !in Field(k, v, eq) && Field(k, v, eq) != ""
  {
    EscapeAvoids(k, eq);
    EscapeAvoids(v, eq);
    EscapeAvoids(k, sep);
    EscapeAvoids(v, sep);
    SplitConcat(Escape(k), Escape(v), eq);
    SplitWord(Escape(k), eq);
    SplitWord(Escape(v), eq);
    var x := Split(Field(k, v, eq), eq);
    assert x == [Escape(k), Escape(v)] && x[1..] == [Escape(v)];
    EscapeRoundTrip(k, true);
    EscapeRoundTrip(v, true);
  }

  ghost predicate Listable(m: map<Text, Value>) {
    forall k :: k in m ==> (m[k].Many? ==> |m[k].vs| >= 2)
  }

  function ListOf(value: Value): seq<Text> {
    if value.One? then [value.v] else value.vs
  }

  function Extend(value: Value, vs: seq<Text>): Value {
    if vs == [] then value else Many(ListOf(value) + vs)
  }

  function Keyed(k: Text, vs: seq<Text>): seq<(Text, Text)> {
    seq(|vs|, i requires 0 <= i < |vs| => (k, vs[i]))
  }

  lemma {:induction false} AddAllAppend(obj: map<Text, Value>, a: seq<(Text, Text)>, b: seq<(Text, Text)>)
    ensures AddAll(obj, a + b) == AddAll(AddAll(obj, a), b)
    decreases |a|
  {
    if a == [] {
      assert a + b == b;
    } else {
      assert (a + b)[1..] == a[1..] + b;
      AddAllAppend(Add(obj, a[0].0, a[0].1), a[1..], b);
    }
  }

  /** More values for a key that is present extend its array, making one first if need be. */
  lemma {:induction false} AddMore(obj: map<Text, Value>, k: Text, vs: seq<Text>)
    requires k in obj
    ensures AddAll(obj, Keyed(k, vs)) == obj[k := Extend(obj[k], vs)]
    decreases |vs|
  {
    if vs == [] {
      assert obj[k := obj[k]] == obj;
    } else {
      var next := obj[k := Many(ListOf(obj[k]) + [vs[0]])];
      assert obj[k].One? ==> ListOf(obj[k]) + [vs[0]] == [obj[k].v, vs[0]];
      assert Keyed(k, vs)[1..] == Keyed(k, vs[1..]);
      AddMore(next, k, vs[1..]);
      assert ListOf(obj[k]) + [vs[0]] + vs[1..] == ListOf(obj[k]) + vs;
      assert vs[1..] == [] ==> [vs[0]] == vs;
    }
  }

  lemma AddValue(obj: map<Text, Value>, k: Text, value: Value)
    requires k !in obj && (value.Many? ==> |value.vs| >= 2)
    ensures AddAll(obj, Keyed(k, ListOf(value))) == obj[k := value]
  {
    var vs := ListOf(value);
    assert Keyed(k, vs)[1..] == Keyed(k, vs[1..]);
    AddMore(obj[k := One(vs[0])], k, vs[1..]);
    assert [vs[0]] + vs[1..] == vs;
  }

  function AllPairs(m: map<Text, Value>, keys: seq<Text>): seq<(Text, Text)>
    requires forall k :: k in keys ==> k in m
  {
    if keys == [] then [] else Keyed(keys[0], ListOf(m[keys[0]])) + AllPairs(m, keys[1..])
  }

  function Restricted(m: map<Text, Value>, keys: seq<Text>): map<Text, Value> {
    map k | k in m && k in keys :: m[k]
  }

  lemma RestrictedStep(obj: map<Text, Value>, m: map<Text, Value>, keys: seq<Text>)
    requires keys != [] && keys[0] in m && keys[0] !in keys[1..]
    ensures obj[keys[0] := m[keys[0]]] + Restricted(m, keys[1..]) == obj + Restricted(m, keys)
  {
    assert forall x :: x in keys <==> x == keys[0] || x in keys[1..];
  }

  /** Adding the pairs key by key rebuilds the map. */
  lemma {:induction false} PairsRebuild(obj: map<Text, Value>, m: map<Text, Value>, keys: seq<Text>)
    requires Listable(m)
    requires forall k :: k in keys ==> k in m && k !in obj
    requires forall i, j :: 0 <= i < j < |keys| ==> keys[i] != keys[j]
    ensures AddAll(obj, AllPairs(m, keys)) == obj + Restricted(m, keys)
    decreases |keys|
  {
    if keys == [] {
      assert obj + Restricted(m, keys) == obj;
    } else {
      var k := keys[0];
      AddAllAppend(obj, Keyed(k, ListOf(m[k])), AllPairs(m, keys[1..]));
      AddValue(obj, k, m[k]);
      PairsRebuild(obj[k := m[k]], m, keys[1..]);
      RestrictedStep(obj, m, keys);
    }
  }

  function AllFields(m: map<Text, Value>, keys: seq<Text>, eq: char): seq<string>
    requires forall k :: k in keys ==> k in m
  {
    if keys == [] then [] else Fields(keys[0], ListOf(m[keys[0]]), eq) + AllFields(m, keys[1..], eq)
  }

  lemma {:induction false} FieldsParse(k: Text, vs: seq<Text>, sep: char, eq: char)
    requires Separates(sep) && Separates(eq) && sep != eq
    ensures PairsOf(Fields(k, vs, eq), eq) == Keyed(k, vs)
    ensures |Fields(k, vs, eq)| == |vs| && Free(Fields(k, vs, eq), sep) && "" !in Fields(k, vs, eq)
  {
    if vs == [] {
    } else {
      FieldParses(k, vs[0], sep, eq);
      FieldsParse(k, vs[1..], sep, eq);
      assert Fields(k, vs, eq)[1..] == Fields(k, vs[1..], eq);
      assert [(k, vs[0])] + Keyed(k, vs[1..]) == Keyed(k, vs);
    }
  }

  lemma {:induction false} PairsOfAppend(a: seq<string>, b: seq<string>, eq: char)
    ensures PairsOf(a + b, eq) == PairsOf(a, eq) + PairsOf(b, eq)
  {
    if a == [] {
      assert a + b == b;
    } else {
      assert (a + b)[1..] == a[1..] + b;
      PairsOfAppend(a[1..], b, eq);
    }
  }

  /** All fields of all keys, joined, and read back as pairs. */
  lemma {:induction false} StringifyJoins(m: map<Text, Value>, keys: seq<Text>, sep: char, eq: char)
    requires Separates(sep) && Separates(eq) && sep != eq
    requires Listable(m) && forall k :: k in keys ==> k in m
    ensures var all := AllFields(m, keys, eq);
            && Free(all, sep) && "" !in all && (keys != [] ==> all != [])
            && Stringify(m, keys, sep, eq) == Join(all, sep)
            && PairsOf(all, eq) == AllPairs(m, keys)
  {
    if keys == [] {
    } else {
      var k := keys[0];
      var here, rest := Fields(k, ListOf(m[k]), eq), AllFields(m, keys[1..], eq);
      StringifyJoins(m, keys[1..], sep, eq);
      FieldsParse(k, ListOf(m[k]), sep, eq);
      PairsOfAppend(here, rest, eq);
      assert KeyText(k, m[k], sep, eq) == Join(here, sep) by {
        assert m[k].One? ==> ListOf(m[k])[1..] == [];
      }
      KeyTextsStep(m, keys, sep, eq);
      if keys[1..] == [] {
        assert here + rest == here;
      } else {
        JoinAppend(here, rest, sep);
      }
    }
  }

  lemma KeyTextsStep(m: map<Text, Value>, keys: seq<Text>, sep: char, eq: char)
    requires keys != [] && forall k :: k in keys ==> k in m
    ensures Stringify(m, keys, sep, eq)
         == KeyText(keys[0], m[keys[0]], sep, eq)
            + if keys[1..] == [] then "" else [sep] + Stringify(m, keys[1..], sep, eq)
  {
    var texts := KeyTexts(m, keys, sep, eq);
    assert texts[1..] == KeyTexts(m, keys[1..], sep, eq);
  }

  lemma {:induction false} AddAllListable(obj: map<Text, Value>, pairs: seq<(Text, Text)>)
    requires Listable(obj)
    ensures Listable(AddAll(obj, pairs))
    decreases |pairs|
  {
    if pairs == [] {
    } else {
      AddAllListable(Add(obj, pairs[0].0, pairs[0].1), pairs[1..]);
    }
  }

  lemma JoinNotEmpty(parts: seq<string>, sep: char)
    requires parts != [] && "" !in parts
    ensures Join(parts, sep) != ""
  {
    assert parts[0] in parts;
  }

  /**
   * `parse(stringify(m))` gives `m` back, whatever the key order and the separators, exactly when every array
   * in `m` has at least two elements.
   */
  lemma ParseStringify(m: map<Text, Value>, keys: seq<Text>, sep: char, eq: char)
    requires Separates(sep) && Separates(eq) && sep != eq
    requires Enumerates(keys, m)
    ensures Parsed(Stringify(m, keys, sep, eq), sep, eq) == m <==> Listable(m)
  {
    var qs := Stringify(m, keys, sep, eq);
    AddAllListable(map[], PairsOf(Split(qs, sep), eq));
    if Listable(m) {
      ParseListable(m, keys, sep, eq);
    }
  }

  lemma ParsedFields(all: seq<string>, sep: char, eq: char)
    requires Free(all, sep) && "" !in all
    ensures Parsed(Join(all, sep), sep, eq) == AddAll(map[], PairsOf(all, eq))
  {
    if all != [] {
      JoinNotEmpty(all, sep);
      SplitJoin(all, sep);
    }
  }

  lemma ParseListable(m: map<Text, Value>, keys: seq<Text>, sep: char, eq: char)
    requires Separates(sep) && Separates(eq) && sep != eq
    requires Enumerates(keys, m) && Listable(m)
    ensures Parsed(Stringify(m, keys, sep, eq), sep, eq) == m
  {
    assert Parsed(Stringify(m, keys, sep, eq), sep, eq) == AddAll(map[], AllPairs(m, keys)) by {
      StringifyJoins(m, keys, sep, eq);
      ParsedFields(AllFields(m, keys, eq), sep, eq);
    }
    assert AddAll(map[], AllPairs(m, keys)) == m by {
      PairsRebuild(map[], m, keys);
      assert map[] + Restricted(m, keys) == m;
    }
  }
}
