/** The naive USDA reader (`parse_usda`, `parse_f32_attr`,
    `parse_vec3_attr`): the text is cut at every `"def "`, each piece that
    mentions `Sphere` becomes a sphere prim, and its name, radius and
    translation are read line by line.

    Strings are sequences of Unicode scalar values, as Rust's `&str` is
    when read character by character. Float parsing (`str::parse::<f32>`)
    is a parameter: `parse(s)` is `Some(x)` when `s` is a float literal
    with value `x`, `None` otherwise. */
module Usda {
  import opened Options

  // ---------------------------------------------------------------------
  // The string operations the reader uses

  /** `char::is_whitespace`: the characters with the Unicode White_Space
      property. */
  predicate IsWhitespace(c: char) {
    c == ' ' || ('\t' <= c <= '\r') || c == '\U{0085}' || c == '\U{00A0}' || c == '\U{1680}'
    || ('\U{2000}' <= c <= '\U{200A}') || c == '\U{2028}' || c == '\U{2029}'
    || c == '\U{202F}' || c == '\U{205F}' || c == '\U{3000}'
  }

  predicate StartsWith(s: string, prefix: string) {
    |prefix| <= |s| && s[..|prefix|] == prefix
  }

  /** `s.contains(t)`. */
  predicate Contains(s: string, t: string) {
    exists i :: 0 <= i <= |s| && StartsWith(s[i..], t)
  }

  /** The end of the run of characters satisfying `p` that starts at
      position `i`. */
  function RunEnd(s: string, p: char -> bool, i: nat): (n: nat)
    requires i <= |s|
    ensures i <= n <= |s|
    ensures forall k :: i <= k < n ==> p(s[k])
    ensures n < |s| ==> !p(s[n])
    decreases |s| - i
  {
    if i < |s| && p(s[i]) then RunEnd(s, p, i + 1) else i
  }

  /** The start of the run of characters satisfying `p` that ends just
      before position `j`. */
  function RunStart(s: string, p: char -> bool, j: nat): (m: nat)
    requires j <= |s|
    ensures m <= j
    ensures forall k :: m <= k < j ==> p(s[k])
    ensures m > 0 ==> !p(s[m - 1])
  {
    if j > 0 && p(s[j - 1]) then RunStart(s, p, j - 1) else j
  }

  /** `trim_start_matches(p)`: the leading characters satisfying `p`
      removed. What remains is a suffix of `s` that does not start with
      such a character, and everything removed satisfies `p`. */
  function TrimStartBy(s: string, p: char -> bool): (r: string)
    ensures |r| <= |s| && r == s[|s| - |r|..]
    ensures |r| > 0 ==> !p(r[0])
    ensures forall i :: 0 <= i < |s| - |r| ==> p(s[i])
  {
    s[RunEnd(s, p, 0)..]
  }

  /** `trim_end_matches(p)`: the trailing characters satisfying `p`
      removed, with the mirror-image guarantees. */
  function TrimEndBy(s: string, p: char -> bool): (r: string)
    ensures |r| <= |s| && r == s[..|r|]
    ensures |r| > 0 ==> !p(r[|r| - 1])
    ensures forall i :: |r| <= i < |s| ==> p(s[i])
  {
    s[..RunStart(s, p, |s|)]
  }

  /** `r` is the part `s[a..a + |r|]` of `s`, and every character of `s`
      before or after that part satisfies `p`. */
  predicate TrimmedAt(s: string, r: string, p: char -> bool, a: nat) {
    a + |r| <= |s| && r == s[a..a + |r|]
    && (forall i :: 0 <= i < a ==> p(s[i]))
    && (forall i :: a + |r| <= i < |s| ==> p(s[i]))
  }

  /** `trim_matches(p)`: both ends trimmed. The result neither starts
      nor ends with a character satisfying `p`. */
  function TrimBy(s: string, p: char -> bool): (r: string)
    ensures |r| <= |s|
    ensures |r| > 0 ==> !p(r[0]) && !p(r[|r| - 1])
  {
    TrimEndBy(TrimStartBy(s, p), p)
  }

  /** `trim_matches(p)` removes only characters satisfying `p`, and only
      around the part of `s` it keeps. */
  lemma TrimByPart(s: string, p: char -> bool)
    ensures exists a :: TrimmedAt(s, TrimBy(s, p), p, a)
  {
    var t := TrimStartBy(s, p);
    var r := TrimEndBy(t, p);
    var a := |s| - |t|;
    assert r == s[a..a + |r|];
    forall i | a + |r| <= i < |s|
      ensures p(s[i])
    {
      assert s[i] == t[i - a];
    }
    assert r == TrimBy(s, p);
    assert TrimmedAt(s, r, p, a);
  }

  /** Where the run starting at `i` is known to end at `a`. */
  lemma {:induction false} RunEndAt(s: string, p: char -> bool, i: nat, a: nat)
    requires i <= a < |s| && !p(s[a]) && forall k :: i <= k < a ==> p(s[k])
    ensures RunEnd(s, p, i) == a
    decreases a - i
  {
    if i < a {
      RunEndAt(s, p, i + 1, a);
    }
  }

  /** Where the run ending before `j` is known to start at `b`. */
  lemma {:induction false} RunStartAt(s: string, p: char -> bool, j: nat, b: nat)
    requires 0 < b <= j <= |s| && !p(s[b - 1]) && forall k :: b <= k < j ==> p(s[k])
    ensures RunStart(s, p, j) == b
    decreases j - b
  {
    if b < j {
      RunStartAt(s, p, j - 1, b);
    }
  }

  /** `trim_matches(p)` keeps exactly `s[a..b]` when the characters
      before `a` and from `b` on satisfy `p` and the first and last kept
      ones do not. */
  lemma TrimByBounds(s: string, p: char -> bool, a: nat, b: nat)
    requires a < b <= |s| && !p(s[a]) && !p(s[b - 1])
    requires forall k :: 0 <= k < a ==> p(s[k])
    requires forall k :: b <= k < |s| ==> p(s[k])
    ensures TrimBy(s, p) == s[a..b]
  {
    RunEndAt(s, p, 0, a);
    var t := s[a..];
    RunStartAt(t, p, |t|, b - a);
    assert t[..b - a] == s[a..b];
  }

  /** `trim_start()`. */
  function TrimStart(s: string): string {
    TrimStartBy(s, IsWhitespace)
  }

  /** `trim()`. */
  function Trim(s: string): string {
    TrimBy(s, IsWhitespace)
  }

  /** `split(sep)`: the pieces between the left-to-right, non-overlapping
      occurrences of `sep`. There is always at least one piece. */
  function SplitOn(s: string, sep: string): (ps: seq<string>)
    requires |sep| > 0
    ensures |ps| >= 1
    decreases |s|
  {
    if |s| < |sep| then [s]
    else if s[..|sep|] == sep then [[]] + SplitOn(s[|sep|..], sep)
    else
      var rest := SplitOn(s[1..], sep);
      [[s[0]] + rest[0]] + rest[1..]
  }

  /** The pieces put back together with the separator between them. */
  function Join(ps: seq<string>, sep: string): string
    requires |ps| >= 1
  {
    if |ps| == 1 then ps[0] else ps[0] + sep + Join(ps[1..], sep)
  }

  /** Splitting loses nothing: joining the pieces gives back the text. */
  lemma {:induction false} SplitJoin(s: string, sep: string)
    requires |sep| > 0
    ensures Join(SplitOn(s, sep), sep) == s
    decreases |s|
  {
    if |s| < |sep| {
    } else if s[..|sep|] == sep {
      var rest := SplitOn(s[|sep|..], sep);
      var ps := [[]] + rest;
      assert SplitOn(s, sep) == ps;
      assert ps[1..] == rest;
      assert Join(ps, sep) == [] + sep + Join(rest, sep);
      SplitJoin(s[|sep|..], sep);
      assert s == sep + s[|sep|..];
    } else {
      var rest := SplitOn(s[1..], sep);
      assert SplitOn(s, sep) == [[s[0]] + rest[0]] + rest[1..];
      SplitJoin(s[1..], sep);
      JoinExtendFirst([s[0]], rest, sep);
      assert s == [s[0]] + s[1..];
    }
  }

  lemma JoinExtendFirst(x: string, ps: seq<string>, sep: string)
    requires |ps| >= 1
    ensures Join([x + ps[0]] + ps[1..], sep) == x + Join(ps, sep)
  {
    var qs := [x + ps[0]] + ps[1..];
    assert qs[1..] == ps[1..];
  }

  /** Split at a single character, no piece contains that character. */
  lemma {:induction false} SplitNoSeparator(s: string, c: char)
    ensures forall k :: 0 <= k < |SplitOn(s, [c])| ==> c !in SplitOn(s, [c])[k]
    decreases |s|
  {
    if |s| >= 1 {
      var ps := SplitOn(s, [c]);
      if s[..1] == [c] {
        SplitNoSeparator(s[1..], c);
        assert ps[1..] == SplitOn(s[1..], [c]);
      } else {
        var rest := SplitOn(s[1..], [c]);
        SplitNoSeparator(s[1..], c);
        assert s[0] != c;
        assert ps[1..] == rest[1..];
      }
    }
  }

  /** A text without the separator is a single piece. */
  lemma {:induction false} SplitAbsent(s: string, c: char)
    requires c !in s
    ensures SplitOn(s, [c]) == [s]
    decreases |s|
  {
    if |s| >= 1 {
      assert s[0] != c && s[..1] != [c];
      SplitAbsent(s[1..], c);
      assert [s[0]] + s[1..] == s;
    }
  }

  /** The first occurrence of the separator ends the first piece. */
  lemma {:induction false} SplitFirst(a: string, c: char, b: string)
    requires c !in a
    ensures SplitOn(a + [c] + b, [c]) == [a] + SplitOn(b, [c])
    decreases |a|
  {
    if |a| == 0 {
      assert ([] + [c] + b)[..1] == [c];
      assert ([] + [c] + b)[1..] == b;
    } else {
      var s := a + [c] + b;
      assert s[..1] == [a[0]] && a[0] != c;
      assert s[1..] == a[1..] + [c] + b;
      SplitFirst(a[1..], c, b);
      assert [a[0]] + a[1..] == a;
    }
  }

  /** `str::lines()`: split at `'\n'`; a final empty piece (text ending
      in a newline, or no text at all) is not a line, and a line ended by
      `"\r\n"` loses its `'\r'`. No line contains a newline. */
  function Lines(s: string): (ls: seq<string>)
    ensures forall k :: 0 <= k < |ls| ==> '\n' !in ls[k]
  {
    var ps := SplitOn(s, "\n");
    SplitNoSeparator(s, '\n');
    var last := ps[|ps| - 1];
    var init := seq(|ps| - 1, k requires 0 <= k < |ps| - 1 => StripCr(ps[k]));
    if last == [] then init else init + [last]
  }

  /** A line with its `'\r'` ending removed. */
  function StripCr(l: string): (r: string)
    ensures r == l || (l == r + ['\r'])
  {
    if |l| > 0 && l[|l| - 1] == '\r' then l[..|l| - 1] else l
  }

  /** `Iterator::find` over the lines: the first whose leading whitespace
      removed starts with `prefix`. */
  function FirstMatch(lines: seq<string>, prefix: string): (r: Option<nat>)
    ensures r.None? <==> forall i :: 0 <= i < |lines| ==> !StartsWith(TrimStart(lines[i]), prefix)
    ensures r.Some? ==> r.value < |lines| && StartsWith(TrimStart(lines[r.value]), prefix)
    ensures r.Some? ==> forall i :: 0 <= i < r.value ==> !StartsWith(TrimStart(lines[i]), prefix)
  {
    FirstMatchFrom(lines, prefix, 0)
  }

  function FirstMatchFrom(lines: seq<string>, prefix: string, from: nat): (r: Option<nat>)
    requires from <= |lines|
    ensures r.None? <==> forall i :: from <= i < |lines| ==> !StartsWith(TrimStart(lines[i]), prefix)
    ensures r.Some? ==> from <= r.value < |lines| && StartsWith(TrimStart(lines[r.value]), prefix)
    ensures r.Some? ==> forall i :: from <= i < r.value ==> !StartsWith(TrimStart(lines[i]), prefix)
    decreases |lines| - from
  {
    if from == |lines| then None
    else if StartsWith(TrimStart(lines[from]), prefix) then Some(from)
    else FirstMatchFrom(lines, prefix, from + 1)
  }

  /** `line.split(c).nth(n)`: the `n`-th piece, if there are that many.
      It never contains `c`. */
  function Field(line: string, c: char, n: nat): (r: Option<string>)
    ensures r.Some? ==> c !in r.value
    ensures c !in line ==> r == (if n == 0 then Some(line) else None)
  {
    var ps := SplitOn(line, [c]);
    SplitNoSeparator(line, c);
    assert c !in line ==> ps == [line] by {
      if c !in line {
        SplitAbsent(line, c);
      }
    }
    if n < |ps| then Some(ps[n]) else None
  }

  // ---------------------------------------------------------------------
  // Attributes

  /** The value after the `=` of the first line of `block` that starts
      (after indentation) with `decl`. */
  function AttrValue(block: string, decl: string): (r: Option<string>)
    ensures r.Some? ==> '=' !in r.value
    ensures FirstMatch(Lines(block), decl).None? ==> r.None?
  {
    var ls := Lines(block);
    match FirstMatch(ls, decl)
    case None => None
    case Some(i) => Field(ls[i], '=', 1)
  }

  /** `parse_f32_attr(block, key)`: the value of the first
      `float <key> = <value>;` line, trimmed of whitespace and of
      trailing `;`, if it parses. */
  function ParseF32Attr(block: string, key: string, parse: string -> Option<real>): (r: Option<real>)
    ensures AttrValue(block, "float " + key).None? ==> r.None?
    ensures r.Some? ==> exists v :: parse(v) == r
  {
    match AttrValue(block, "float " + key)
    case None => None
    case Some(v) => parse(TrimEndBy(Trim(v), (c: char) => c == ';'))
  }

  /** The characters `parse_vec3_attr` strips from both ends of the
      value. */
  predicate IsDelimiter(c: char) {
    c == '(' || c == ')' || c == ';'
  }

  /** `filter_map(|s| s.trim().parse().ok())`: the pieces that parse, in
      order. */
  function ParsedParts(parts: seq<string>, parse: string -> Option<real>): (vs: seq<real>)
    ensures |vs| <= |parts|
    ensures (forall k :: 0 <= k < |parts| ==> parse(Trim(parts[k])).Some?) ==>
      |vs| == |parts| && forall k :: 0 <= k < |parts| ==> vs[k] == parse(Trim(parts[k])).value
  {
    if |parts| == 0 then []
    else
      var rest := ParsedParts(parts[1..], parse);
      assert forall k :: 1 <= k < |parts| ==> parts[1..][k - 1] == parts[k];
      match parse(Trim(parts[0]))
      case Some(x) => [x] + rest
      case None => rest
  }

  lemma ParsedPartsCons(x: string, rest: seq<string>, parse: string -> Option<real>)
    ensures ParsedParts([x] + rest, parse) ==
      (if parse(Trim(x)).Some? then [parse(Trim(x)).value] else []) + ParsedParts(rest, parse)
  {
    assert ([x] + rest)[1..] == rest;
  }

  /** The three numbers of a `(x, y, z)` value as `parse_vec3_attr` reads
      them: delimiters stripped from both ends, the rest split at commas,
      and exactly three pieces parsing. */
  function Vec3Of(v: string, parse: string -> Option<real>): (r: Option<(real, real, real)>)
    ensures r.Some? <==> |ParsedParts(SplitOn(TrimBy(v, IsDelimiter), [',']), parse)| == 3
  {
    var vals := ParsedParts(SplitOn(TrimBy(v, IsDelimiter), [',']), parse);
    if |vals| == 3 then Some((vals[0], vals[1], vals[2])) else None
  }

  /** `parse_vec3_attr(block, key)` as written: the delimiters are
      stripped from the raw value, before any whitespace is removed. */
  function ParseVec3Attr(block: string, key: string, parse: string -> Option<real>): (r: Option<(real, real, real)>)
    ensures AttrValue(block, "double3 " + key).None? ==> r.None?
    ensures AttrValue(block, "double3 " + key).Some? ==> r == Vec3Of(AttrValue(block, "double3 " + key).value, parse)
  {
    match AttrValue(block, "double3 " + key)
    case None => None
    case Some(v) => Vec3Of(v, parse)
  }

  /** `parse_vec3_attr` with the value trimmed of whitespace first, as
      `parse_f32_attr` does, so that the `(` after `= ` is stripped. */
  function ParseVec3AttrTrimmed(block: string, key: string, parse: string -> Option<real>): (r: Option<(real, real, real)>)
    ensures AttrValue(block, "double3 " + key).None? ==> r.None?
    ensures AttrValue(block, "double3 " + key).Some? ==> r == Vec3Of(Trim(AttrValue(block, "double3 " + key).value), parse)
  {
    match AttrValue(block, "double3 " + key)
    case None => None
    case Some(v) => Vec3Of(Trim(v), parse)
  }

  // ---------------------------------------------------------------------
  // Prims

  datatype Prim = Sphere(name: string, radius: real, position: (real, real, real))

  /** The name of a block: the text between the first two `"` of its
      first line, or `Unnamed` when there is no line or no `"`. */
  function NameOf(block: string): (name: string)
    ensures '"' !in name || name == "Unnamed"
    ensures |Lines(block)| == 0 ==> name == "Unnamed"
  {
    var ls := Lines(block);
    if |ls| == 0 then "Unnamed"
    else match Field(ls[0], '"', 1)
      case None => "Unnamed"
      case Some(n) => n
  }

  /** The first line of a text is everything before its first newline,
      less a `'\r'` ending. */
  lemma FirstLine(a: string, rest: string)
    requires '\n' !in a
    ensures |Lines(a + "\n" + rest)| >= 1 && Lines(a + "\n" + rest)[0] == StripCr(a)
  {
    SplitFirst(a, '\n', rest);
  }

  /** A `'\r'` ending comes off the text after the closing quote. */
  lemma StripCrAfterQuote(head: string, b: string)
    requires |head| > 0 && head[|head| - 1] == '"'
    ensures StripCr(head + b) == head + StripCr(b)
  {
    if |b| > 0 && b[|b| - 1] == '\r' {
      assert (head + b)[..|head + b| - 1] == head + b[..|b| - 1];
    }
  }

  /** The text between the first two quotes of `a"n"b` is `n`. */
  lemma QuotedField(a: string, n: string, b: string)
    requires '"' !in a && '"' !in n
    ensures Field(a + ['"'] + (n + ['"'] + b), '"', 1) == Some(n)
  {
    SplitFirst(a, '"', n + ['"'] + b);
    SplitFirst(n, '"', b);
  }

  /** `a"n"b` has no newline when none of its parts has one. */
  lemma QuotedLineNoNewline(a: string, n: string, b: string)
    requires '\n' !in a + n + b
    ensures '\n' !in a + "\"" + n + "\"" + b
  {
    var line := a + "\"" + n + "\"" + b;
    forall k | 0 <= k < |line|
      ensures line[k] != '\n'
    {
      if k < |a| {
        assert line[k] == (a + n + b)[k];
      } else if |a| + 1 <= k < |a| + 1 + |n| {
        assert line[k] == (a + n + b)[k - 1];
      } else if |a| + |n| + 2 <= k {
        assert line[k] == (a + n + b)[k - 2];
      }
    }
  }

  /** A block whose first line reads `a"n"b` is named `n`: the text
      between the first two quotes of that line. */
  lemma NameOfQuoted(a: string, n: string, b: string, rest: string)
    requires '"' !in a && '"' !in n && '\n' !in a + n + b
    ensures NameOf(a + "\"" + n + "\"" + b + "\n" + rest) == n
  {
    var head := a + "\"" + n + "\"";
    var line := head + b;
    QuotedLineNoNewline(a, n, b);
    FirstLine(line, rest);
    StripCrAfterQuote(head, b);
    assert head + StripCr(b) == a + ['"'] + (n + ['"'] + StripCr(b));
    QuotedField(a, n, StripCr(b));
  }

  /** A block whose first line has no quote is `Unnamed`. */
  lemma NameOfUnquoted(a: string, rest: string)
    requires '"' !in a && '\n' !in a
    ensures NameOf(a + "\n" + rest) == "Unnamed"
  {
    FirstLine(a, rest);
    assert '"' !in StripCr(a) by {
      assert forall k :: 0 <= k < |StripCr(a)| ==> StripCr(a)[k] == a[k];
    }
  }

  /** The sphere prim read from one block: its name, the radius
      (1 when missing or unparsable) and the translation ((0, 0, 0) when
      missing or unreadable). */
  function SphereOf(block: string, parse: string -> Option<real>): (p: Prim)
    ensures p.name == NameOf(block)
    ensures ParseF32Attr(block, "radius", parse).None? ==> p.radius == 1.0
    ensures ParseF32Attr(block, "radius", parse).Some? ==> p.radius == ParseF32Attr(block, "radius", parse).value
    ensures ParseVec3AttrTrimmed(block, "xformOp:translate", parse).None? ==> p.position == (0.0, 0.0, 0.0)
    ensures ParseVec3AttrTrimmed(block, "xformOp:translate", parse).Some? ==>
      p.position == ParseVec3AttrTrimmed(block, "xformOp:translate", parse).value
  {
    var radius := match ParseF32Attr(block, "radius", parse)
      case Some(r) => r
      case None => 1.0;
    var position := match ParseVec3AttrTrimmed(block, "xformOp:translate", parse)
      case Some(t) => t
      case None => (0.0, 0.0, 0.0);
    Sphere(NameOf(block), radius, position)
  }

  /** A block describes a sphere when it mentions `Sphere` anywhere. */
  predicate IsSphereBlock(b: string) {
    Contains(b, "Sphere")
  }

  /** Every prim of `ps` is `f` of a sphere block of `blocks`. */
  predicate FromSphereBlocks(ps: seq<Prim>, blocks: seq<string>, f: string -> Prim) {
    forall k :: 0 <= k < |ps| ==> exists b :: b in blocks && IsSphereBlock(b) && ps[k] == f(b)
  }

  /** Every sphere block of `blocks` has its prim `f(b)` in `ps`. */
  predicate SphereBlocksRead(ps: seq<Prim>, blocks: seq<string>, f: string -> Prim) {
    forall b :: b in blocks && IsSphereBlock(b) ==> f(b) in ps
  }

  /** The number of blocks that mention `Sphere`. */
  function CountSphereBlocks(blocks: seq<string>): nat {
    if |blocks| == 0 then 0
    else (if IsSphereBlock(blocks[0]) then 1 else 0) + CountSphereBlocks(blocks[1..])
  }

  /** `f(b)` for each block `b` that describes a sphere, in order. */
  function SelectSpheres(blocks: seq<string>, f: string -> Prim): (ps: seq<Prim>)
    ensures |ps| == CountSphereBlocks(blocks) <= |blocks|
    ensures FromSphereBlocks(ps, blocks, f) && SphereBlocksRead(ps, blocks, f)
  {
    if |blocks| == 0 then []
    else
      var rest := SelectSpheres(blocks[1..], f);
      var ps := if IsSphereBlock(blocks[0]) then [f(blocks[0])] + rest else rest;
      assert FromSphereBlocks(ps, blocks, f) by {
        forall k | 0 <= k < |ps|
          ensures exists b :: b in blocks && IsSphereBlock(b) && ps[k] == f(b)
        {
          if IsSphereBlock(blocks[0]) && k == 0 {
            assert blocks[0] in blocks;
          } else {
            var j := if IsSphereBlock(blocks[0]) then k - 1 else k;
            assert ps[k] == rest[j];
            var b :| b in blocks[1..] && IsSphereBlock(b) && rest[j] == f(b);
            assert b in blocks;
          }
        }
      }
      assert SphereBlocksRead(ps, blocks, f) by {
        forall b | b in blocks && IsSphereBlock(b)
          ensures f(b) in ps
        {
          if b != blocks[0] {
            assert b in blocks[1..];
          }
        }
      }
      ps
  }

  /** `SphereOf` with the float parser fixed. */
  function SphereReader(parse: string -> Option<real>): string -> Prim {
    (b: string) => SphereOf(b, parse)
  }

  /** Selecting from two runs of blocks one after the other gives the
      prims of the first run, then those of the second. */
  lemma {:induction false} SelectSpheresAppend(p: seq<string>, q: seq<string>, f: string -> Prim)
    ensures SelectSpheres(p + q, f) == SelectSpheres(p, f) + SelectSpheres(q, f)
    decreases |p|
  {
    if |p| > 0 {
      assert (p + q)[1..] == p[1..] + q;
      SelectSpheresAppend(p[1..], q, f);
    } else {
      assert p + q == q;
    }
  }

  /** One block yields its prim exactly when it mentions `Sphere`. With
      `SelectSpheresAppend` this fixes the result: one prim per sphere
      block, in block order, and nothing else. */
  lemma SelectSpheresSingle(b: string, f: string -> Prim)
    ensures SelectSpheres([b], f) == (if IsSphereBlock(b) then [f(b)] else [])
  {
    assert [b][1..] == [];
  }

  /** `sep` does not start anywhere before position `n` of `s`. */
  predicate NoSepBefore(s: string, sep: string, n: nat) {
    forall i :: 0 <= i < n && i <= |s| ==> !StartsWith(s[i..], sep)
  }

  /** The first occurrence of the separator ends the first piece. */
  lemma {:induction false} SplitFirstSep(a: string, sep: string, b: string)
    requires |sep| > 0 && NoSepBefore(a + sep + b, sep, |a|)
    ensures SplitOn(a + sep + b, sep) == [a] + SplitOn(b, sep)
    decreases |a|
  {
    var s := a + sep + b;
    if |a| == 0 {
      assert s == sep + b && s[..|sep|] == sep && s[|sep|..] == b;
    } else {
      assert !StartsWith(s[0..], sep) && s[0..] == s;
      assert s[1..] == a[1..] + sep + b;
      forall i | 0 <= i < |a| - 1 && i <= |s[1..]|
        ensures !StartsWith(s[1..][i..], sep)
      {
        assert s[1..][i..] == s[i + 1..];
      }
      SplitFirstSep(a[1..], sep, b);
      assert [s[0]] + a[1..] == a;
    }
  }

  /** A text in which the separator never starts is a single piece. */
  lemma {:induction false} SplitNoSep(s: string, sep: string)
    requires |sep| > 0 && NoSepBefore(s, sep, |s| + 1)
    ensures SplitOn(s, sep) == [s]
    decreases |s|
  {
    if |s| >= |sep| {
      assert !StartsWith(s[0..], sep) && s[0..] == s;
      forall i | 0 <= i < |s[1..]| + 1 && i <= |s[1..]|
        ensures !StartsWith(s[1..][i..], sep)
      {
        assert s[1..][i..] == s[i + 1..];
      }
      SplitNoSep(s[1..], sep);
      assert [s[0]] + s[1..] == s;
    }
  }

  /** `parse_usda(text)`: the text cut at every `"def "`, and a sphere
      prim for each piece that mentions `Sphere`: every prim comes from
      such a piece, and every such piece yields its prim. */
  function ParseUsda(text: string, parse: string -> Option<real>): (ps: seq<Prim>)
    ensures |ps| == CountSphereBlocks(SplitOn(text, "def ")) <= |SplitOn(text, "def ")|
    ensures FromSphereBlocks(ps, SplitOn(text, "def "), SphereReader(parse))
    ensures SphereBlocksRead(ps, SplitOn(text, "def "), SphereReader(parse))
  {
    SelectSpheres(SplitOn(text, "def "), SphereReader(parse))
  }

  /** `parse_usda` reads the text one block at a time: a block `a` up to
      the first `"def "` yields its prim when it mentions `Sphere`, ahead
      of everything the rest of the text yields. */
  lemma ParseUsdaFirstBlock(a: string, b: string, parse: string -> Option<real>)
    requires NoSepBefore(a + "def " + b, "def ", |a|)
    ensures ParseUsda(a + "def " + b, parse)
         == (if IsSphereBlock(a) then [SphereOf(a, parse)] else []) + ParseUsda(b, parse)
  {
    SplitFirstSep(a, "def ", b);
    SelectSpheresAppend([a], SplitOn(b, "def "), SphereReader(parse));
    SelectSpheresSingle(a, SphereReader(parse));
  }

  /** A text without `"def "` is one block: one prim if it mentions
      `Sphere`, none otherwise. */
  lemma ParseUsdaLastBlock(a: string, parse: string -> Option<real>)
    requires NoSepBefore(a, "def ", |a| + 1)
    ensures ParseUsda(a, parse) == (if IsSphereBlock(a) then [SphereOf(a, parse)] else [])
  {
    SplitNoSep(a, "def ");
    SelectSpheresSingle(a, SphereReader(parse));
  }

  // ---------------------------------------------------------------------
  // The translation that is never read

  /** A number as written inside a `(x, y, z)` value: no comma, `=` or
      newline in it, and neither whitespace nor a delimiter at its ends. */
  predicate IsNumberText(x: string) {
    |x| > 0 && ',' !in x && '=' !in x && '\n' !in x
    && !IsWhitespace(x[0]) && !IsWhitespace(x[|x| - 1])
    && !IsDelimiter(x[0]) && !IsDelimiter(x[|x| - 1])
  }

  /** `str::parse::<f32>` rejects every text that starts with `(`. */
  ghost predicate RejectsParen(parse: string -> Option<real>) {
    forall t :: |t| > 0 && t[0] == '(' ==> parse(t).None?
  }

  /** The numbers of a `(x, y, z)` value between its parentheses:
      `x, y, z`. */
  function Listed(x: string, y: string, z: string): string {
    x + [','] + (" " + y) + [','] + (" " + z)
  }

  /** The declaration `double3 <key>` of a translation line. */
  function Double3Decl(key: string): string {
    "double3 " + key
  }

  /** The value ` (<x>, <y>, <z>)` after the `=` of a translation line. */
  function TranslateValueText(x: string, y: string, z: string): string {
    " " + Parenthesised(Listed(x, y, z))
  }

  function Parenthesised(l: string): string {
    "(" + l + ")"
  }

  /** The line `double3 <key> = (<x>, <y>, <z>)`, written the way USDA
      files write it, with a space after the `=`. */
  function TranslateText(key: string, x: string, y: string, z: string): string {
    Double3Decl(key) + " " + ['='] + TranslateValueText(x, y, z)
  }

  lemma Assoc(a: string, b: string, c: string)
    ensures a + (b + c) == (a + b) + c
  {}

  /** A text without a newline is one line. */
  lemma OneLine(s: string)
    requires |s| > 0 && '\n' !in s
    ensures Lines(s) == [s]
  {
    SplitAbsent(s, '\n');
  }

  /** Text that neither starts nor ends with whitespace is its own
      trim. */
  lemma TrimmedAlready(s: string)
    requires |s| > 0 && !IsWhitespace(s[0]) && !IsWhitespace(s[|s| - 1])
    ensures TrimStart(s) == s && Trim(s) == s
  {
    assert RunEnd(s, IsWhitespace, 0) == 0;
    assert s[0..] == s;
    assert RunStart(s, IsWhitespace, |s|) == |s|;
    assert s[..|s|] == s;
  }

  /** One leading space is trimmed away. */
  lemma TrimmedAfterSpace(s: string)
    requires |s| > 0 && !IsWhitespace(s[0]) && !IsWhitespace(s[|s| - 1])
    ensures Trim(" " + s) == s
  {
    var t := " " + s;
    assert RunEnd(t, IsWhitespace, 1) == 1;
    assert RunEnd(t, IsWhitespace, 0) == 1;
    assert t[1..] == s;
    TrimmedAlready(s);
  }

  /** A one-line block whose line starts with `decl` has the value
      after that line's first `=`. */
  lemma AttrOfOneLine(line: string, decl: string)
    requires |line| > 0 && '\n' !in line && !IsWhitespace(line[0]) && !IsWhitespace(line[|line| - 1])
    requires StartsWith(line, decl)
    ensures AttrValue(line, decl) == Field(line, '=', 1)
  {
    OneLine(line);
    TrimmedAlready(line);
  }

  /** The second `=`-piece of `a = b` when neither side has an `=`. */
  lemma FieldAfterEquals(a: string, b: string)
    requires '=' !in a && '=' !in b
    ensures Field(a + ['='] + b, '=', 1) == Some(b)
  {
    SplitFirst(a, '=', b);
    SplitAbsent(b, '=');
  }

  /** The value of a translation line: everything after its `=`. */
  lemma TranslateValue(key: string, x: string, y: string, z: string)
    requires '=' !in key && '\n' !in key && IsNumberText(x) && IsNumberText(y) && IsNumberText(z)
    ensures AttrValue(TranslateText(key, x, y, z), Double3Decl(key)) == Some(TranslateValueText(x, y, z))
  {
    var decl, v := Double3Decl(key), TranslateValueText(x, y, z);
    var line := TranslateText(key, x, y, z);
    var a := decl + " ";
    assert line == a + ['='] + v;
    assert '\n' !in Listed(x, y, z) && '=' !in Listed(x, y, z);
    assert '\n' !in v && '=' !in v;
    assert '\n' !in a && '=' !in a;
    assert line[0] == 'd' && line[|line| - 1] == ')';
    assert StartsWith(line, decl) by {
      Assoc(decl, " " + ['='], v);
      Assoc(decl, " ", ['=']);
      assert line == decl + (" " + ['='] + v);
    }
    AttrOfOneLine(line, decl);
    FieldAfterEquals(a, v);
  }

  /** `w + "x, y, z"` splits at its commas into `w + x`, `" " + y` and
      `" " + z`. */
  lemma PiecesOf(w: string, x: string, y: string, z: string)
    requires ',' !in w && ',' !in x && ',' !in y && ',' !in z
    ensures SplitOn(w + Listed(x, y, z), [',']) == [w + x, " " + y, " " + z]
  {
    var b, c := " " + y, " " + z;
    assert ',' !in b && ',' !in c;
    Assoc(w, x + [','] + b, [','] + c);
    Assoc(w, x + [','], b);
    Assoc(w, x, [',']);
    Assoc(w + x + [','], b, [','] + c);
    Assoc(w + x + [','] + b, [','], c);
    assert w + Listed(x, y, z) == (w + x) + [','] + (b + [','] + c);
    SplitFirst(w + x, ',', b + [','] + c);
    SplitFirst(b, ',', c);
    SplitAbsent(c, ',');
  }

  /** Stripping the delimiters from ` (x, y, z)` removes only the `)`:
      the leading space shields the `(`. */
  lemma DelimitersAsWritten(x: string, y: string, z: string)
    requires IsNumberText(x) && IsNumberText(y) && IsNumberText(z)
    ensures TrimBy(TranslateValueText(x, y, z), IsDelimiter) == " (" + Listed(x, y, z)
  {
    var v := TranslateValueText(x, y, z);
    var l := Listed(x, y, z);
    assert v[|v| - 1] == ')' && v[0] == ' ' && v[|v| - 2] == l[|l| - 1] == z[|z| - 1];
    TrimByBounds(v, IsDelimiter, 0, |v| - 1);
    assert v[0..|v| - 1] == " (" + l;
  }

  /** Trimming ` (x` leaves `(x`. */
  lemma TrimKeepsParen(x: string)
    requires IsNumberText(x)
    ensures Trim(" (" + x) == "(" + x
  {
    var t := " (" + x;
    assert t[0] == ' ' && t[1] == '(' && t[|t| - 1] == x[|x| - 1];
    TrimByBounds(t, IsWhitespace, 1, |t|);
    assert t[1..] == "(" + x;
  }

  /** When the first of three pieces does not parse, at most two
      numbers come out. */
  lemma FirstPartFails(p0: string, p1: string, p2: string, parse: string -> Option<real>)
    requires parse(Trim(p0)).None?
    ensures |ParsedParts([p0, p1, p2], parse)| <= 2
  {
    ParsedPartsCons(p0, [p1, p2], parse);
    assert [p0] + [p1, p2] == [p0, p1, p2];
  }

  /** When all three pieces parse, their three numbers come out in
      order. */
  lemma AllPartsParse(p0: string, p1: string, p2: string, parse: string -> Option<real>)
    requires parse(Trim(p0)).Some? && parse(Trim(p1)).Some? && parse(Trim(p2)).Some?
    ensures ParsedParts([p0, p1, p2], parse) == [parse(Trim(p0)).value, parse(Trim(p1)).value, parse(Trim(p2)).value]
  {
    var ps := [p0, p1, p2];
    assert forall k :: 0 <= k < |ps| ==> parse(Trim(ps[k])).Some?;
  }

  /** As written, the value ` (x, y, z)` is not read. */
  lemma Vec3AsWritten(x: string, y: string, z: string, parse: string -> Option<real>)
    requires IsNumberText(x) && IsNumberText(y) && IsNumberText(z) && RejectsParen(parse)
    ensures Vec3Of(TranslateValueText(x, y, z), parse).None?
  {
    DelimitersAsWritten(x, y, z);
    PiecesOf(" (", x, y, z);
    TrimKeepsParen(x);
    FirstPartFails(" (" + x, " " + y, " " + z, parse);
  }

  /** As written, a translation with a space after its `=` is never read:
      stripping the delimiters stops at that space, so the first piece
      keeps its `(` and does not parse, at most two numbers remain, and
      the prim falls back to the origin. */
  lemma TranslateDroppedAsWritten(key: string, x: string, y: string, z: string, parse: string -> Option<real>)
    requires '=' !in key && '\n' !in key && IsNumberText(x) && IsNumberText(y) && IsNumberText(z)
    requires RejectsParen(parse)
    ensures ParseVec3Attr(TranslateText(key, x, y, z), key, parse).None?
  {
    TranslateValue(key, x, y, z);
    Vec3AsWritten(x, y, z, parse);
  }

  /** The characters of `(l)`. */
  lemma ParenthesisedParts(l: string)
    ensures var v := Parenthesised(l);
      |v| == |l| + 2 && v[0] == '(' && v[|v| - 1] == ')' && v[1..|v| - 1] == l
  {}

  /** Stripping the delimiters from `(l)` leaves `l` when `l` neither
      starts nor ends with one. */
  lemma DelimitersOff(v: string, l: string)
    requires |l| > 0 && !IsDelimiter(l[0]) && !IsDelimiter(l[|l| - 1])
    requires |v| == |l| + 2 && v[0] == '(' && v[|v| - 1] == ')' && v[1..|v| - 1] == l
    ensures TrimBy(v, IsDelimiter) == l
  {
    assert v[1] == l[0] && v[|v| - 2] == l[|l| - 1];
    TrimByBounds(v, IsDelimiter, 1, |v| - 1);
  }

  /** Trimmed first, ` (l)` loses its space and both parentheses. */
  lemma ParenthesesStripped(l: string)
    requires |l| > 0 && !IsDelimiter(l[0]) && !IsDelimiter(l[|l| - 1])
    ensures TrimBy(Trim(" " + Parenthesised(l)), IsDelimiter) == l
  {
    var v := Parenthesised(l);
    ParenthesisedParts(l);
    TrimmedAfterSpace(v);
    DelimitersOff(v, l);
  }

  /** Trimmed first, ` (x, y, z)` loses both parentheses. */
  lemma DelimitersTrimmed(x: string, y: string, z: string)
    requires IsNumberText(x) && IsNumberText(y) && IsNumberText(z)
    ensures TrimBy(Trim(TranslateValueText(x, y, z)), IsDelimiter) == [] + Listed(x, y, z)
  {
    var l := Listed(x, y, z);
    assert l[0] == x[0] && l[|l| - 1] == z[|z| - 1];
    ParenthesesStripped(l);
    assert [] + l == l;
  }

  /** Trimmed first, the value ` (x, y, z)` is read as `(x, y, z)`. */
  lemma Vec3Trimmed(x: string, y: string, z: string, parse: string -> Option<real>)
    requires IsNumberText(x) && IsNumberText(y) && IsNumberText(z)
    requires parse(x).Some? && parse(y).Some? && parse(z).Some?
    ensures Vec3Of(Trim(TranslateValueText(x, y, z)), parse) == Some((parse(x).value, parse(y).value, parse(z).value))
  {
    DelimitersTrimmed(x, y, z);
    PiecesOf([], x, y, z);
    assert [] + x == x;
    PiecesTrimmed(x, y, z);
    Vec3OfPieces(Trim(TranslateValueText(x, y, z)), x, " " + y, " " + z, parse);
  }

  /** The pieces `x`, ` y` and ` z` of a listed value trim to the
      numbers. */
  lemma PiecesTrimmed(x: string, y: string, z: string)
    requires IsNumberText(x) && IsNumberText(y) && IsNumberText(z)
    ensures Trim(x) == x && Trim(" " + y) == y && Trim(" " + z) == z
  {
    TrimmedAlready(x);
    TrimmedAfterSpace(y);
    TrimmedAfterSpace(z);
  }

  /** A value whose stripped text splits into three pieces that all parse
      is read as their three numbers. */
  lemma Vec3OfPieces(v: string, p0: string, p1: string, p2: string, parse: string -> Option<real>)
    requires SplitOn(TrimBy(v, IsDelimiter), [',']) == [p0, p1, p2]
    requires parse(Trim(p0)).Some? && parse(Trim(p1)).Some? && parse(Trim(p2)).Some?
    ensures Vec3Of(v, parse) == Some((parse(Trim(p0)).value, parse(Trim(p1)).value, parse(Trim(p2)).value))
  {
    AllPartsParse(p0, p1, p2, parse);
  }

  /** With the value trimmed first, the same line is read: the three
      numbers are the ones `x`, `y` and `z` parse to. */
  lemma TranslateReadTrimmed(key: string, x: string, y: string, z: string, parse: string -> Option<real>)
    requires '=' !in key && '\n' !in key && IsNumberText(x) && IsNumberText(y) && IsNumberText(z)
    requires parse(x).Some? && parse(y).Some? && parse(z).Some?
    ensures ParseVec3AttrTrimmed(TranslateText(key, x, y, z), key, parse)
            == Some((parse(x).value, parse(y).value, parse(z).value))
  {
    TranslateValue(key, x, y, z);
    Vec3Trimmed(x, y, z, parse);
  }
}
