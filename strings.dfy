/** The JavaScript string operations the core relies on (`trim`, `trimEnd`,
    `toLowerCase`, `indexOf`, `includes`, `split` on one character, `join`,
    `slice`), stated on `string` = `seq<char>`. A `char` is one Unicode
    scalar value, so lengths and positions count scalar values: they agree
    with JavaScript's UTF-16 code units for text inside the Basic
    Multilingual Plane, and a character outside it counts once here where
    JavaScript counts two code units. */
module Strings {

  // ---------------------------------------------------------------------
  // Whitespace and trimming
  // ---------------------------------------------------------------------

  /** The WhiteSpace and LineTerminator code points of ECMAScript: exactly
      the characters `trim`, `trimStart` and `trimEnd` remove. */
  predicate IsWhitespace(c: char) {
    || c == '\t' || c == '\n' || c == '\U{000B}' || c == '\U{000C}' || c == '\r'
    || c == ' ' || c == '\U{00A0}' || c == '\U{1680}'
    || ('\U{2000}' <= c <= '\U{200A}')
    || c == '\U{2028}' || c == '\U{2029}' || c == '\U{202F}' || c == '\U{205F}'
    || c == '\U{3000}' || c == '\U{FEFF}'
  }

  /** The string is empty or whitespace only, i.e. `!s.trim()` holds. */
  predicate IsBlank(s: string) {
    forall i :: 0 <= i < |s| ==> IsWhitespace(s[i])
  }

  /** `s.trimStart()`: the longest suffix of `s` that does not start with
      whitespace. */
  function TrimStart(s: string): (r: string)
    ensures |r| <= |s| && r == s[|s| - |r|..]
    ensures IsBlank(s[..|s| - |r|])
    ensures r == [] || !IsWhitespace(r[0])
  {
    if s == [] || !IsWhitespace(s[0]) then s
    else
      var r := TrimStart(s[1..]);
      assert s[..|s| - |r|] == [s[0]] + s[1..][..|s| - 1 - |r|];
      r
  }

  /** `s.trimEnd()`: the longest prefix of `s` that does not end with
      whitespace. */
  function TrimEnd(s: string): (r: string)
    ensures |r| <= |s| && r == s[..|r|]
    ensures IsBlank(s[|r|..])
    ensures r == [] || !IsWhitespace(r[|r| - 1])
  {
    if s == [] || !IsWhitespace(s[|s| - 1]) then s
    else
      var r := TrimEnd(s[..|s| - 1]);
      assert s[|r|..] == s[..|s| - 1][|r|..] + [s[|s| - 1]];
      r
  }

  /** `s.trim()`: `s` without its leading and trailing whitespace. It is
      empty exactly when `s` is blank, and otherwise starts and ends with a
      character that is not whitespace. */
  function Trim(s: string): (r: string)
    ensures |r| <= |s|
    ensures r == [] <==> IsBlank(s)
    ensures r != [] ==> !IsWhitespace(r[0]) && !IsWhitespace(r[|r| - 1])
    ensures Surrounds(s, |s| - |TrimStart(s)|, r)
  {
    var t := TrimStart(s);
    TrimBlank(s);
    TrimMiddle(s);
    TrimEnd(t)
  }

  /** `r` is the part of `s` that starts at `k`, and everything of `s`
      before and after it is whitespace. */
  predicate Surrounds(s: string, k: int, r: string) {
    0 <= k && k + |r| <= |s| && r == s[k..k + |r|]
    && IsBlank(s[..k]) && IsBlank(s[k + |r|..])
  }

  /** What `trim` keeps is a contiguous part of `s`, and what it removes on
      either side is whitespace. */
  lemma TrimMiddle(s: string)
    ensures Surrounds(s, |s| - |TrimStart(s)|, TrimEnd(TrimStart(s)))
  {
    var t := TrimStart(s);
    var r := TrimEnd(t);
    var k := |s| - |t|;
    assert t[..|r|] == s[k..k + |r|];
    assert t[|r|..] == s[k + |r|..];
  }

  /** `trimEnd` is the only prefix that leaves a whitespace-only rest and
      does not itself end in whitespace. */
  lemma {:induction false} TrimEndUnique(p: string, kept: string)
    requires |kept| <= |p| && kept == p[..|kept|]
    requires IsBlank(p[|kept|..])
    requires kept == [] || !IsWhitespace(kept[|kept| - 1])
    ensures TrimEnd(p) == kept
    decreases |p|
  {
    if |kept| == |p| {
      assert kept == p;
    } else {
      assert IsWhitespace(p[|p| - 1]) by {
        assert p[|p| - 1] == p[|kept|..][|p| - 1 - |kept|];
      }
      var q := p[..|p| - 1];
      assert q[..|kept|] == kept;
      assert q[|kept|..] == p[|kept|..][..|p| - 1 - |kept|];
      TrimEndUnique(q, kept);
    }
  }

  lemma TrimBlank(s: string)
    ensures var t := TrimEnd(TrimStart(s));
      (t == [] <==> IsBlank(s)) && (t != [] ==> !IsWhitespace(t[0]))
  {
    var t := TrimStart(s);
    var r := TrimEnd(t);
    if r == [] {
      assert t[|r|..] == t;
      assert t == [];
      assert s[..|s| - |t|] == s;
    } else {
      assert r[0] == t[0];
      assert !IsWhitespace(s[|s| - |t|]);
    }
  }

  // ---------------------------------------------------------------------
  // Case mapping
  // ---------------------------------------------------------------------

  /** Lower-case mapping of one character; only the ASCII letters are
      mapped. */
  function LowerChar(c: char): char {
    if 'A' <= c <= 'Z' then (c as int + 32) as char else c
  }

  /** `s.toLowerCase()`, character by character. */
  function ToLower(s: string): (r: string)
    ensures |r| == |s|
    ensures forall i {:trigger r[i]} :: 0 <= i < |s| ==> r[i] == LowerChar(s[i])
  {
    if s == [] then [] else [LowerChar(s[0])] + ToLower(s[1..])
  }

  /** Lower-casing neither creates nor removes whitespace, so it commutes
      with deciding whether a query is blank. */
  lemma LowerKeepsBlank(s: string)
    ensures IsBlank(ToLower(s)) <==> IsBlank(s)
  {
    var l := ToLower(s);
    if IsBlank(l) {
      forall i | 0 <= i < |s| ensures IsWhitespace(s[i]) {
        assert IsWhitespace(l[i]);
      }
    }
  }

  // ---------------------------------------------------------------------
  // Searching
  // ---------------------------------------------------------------------

  /** `q` occurs in `s` starting at position `i`. */
  predicate OccursAt(s: string, q: string, i: int) {
    0 <= i && i + |q| <= |s| && s[i..i + |q|] == q
  }

  /** `s.indexOf(q, from)`: the first position at or after `from` where `q`
      occurs, or -1. */
  function IndexFrom(s: string, q: string, from: nat): (r: int)
    requires from <= |s|
    ensures r == -1 || (from <= r && OccursAt(s, q, r))
    ensures forall j {:trigger OccursAt(s, q, j)} ::
      from <= j && (r == -1 || j < r) ==> !OccursAt(s, q, j)
    decreases |s| - from
  {
    if from + |q| > |s| then -1
    else if s[from..from + |q|] == q then from
    else IndexFrom(s, q, from + 1)
  }

  /** `s.indexOf(q)`: the position of the first occurrence of `q` in `s`,
      or -1 when there is none. */
  function IndexOf(s: string, q: string): (r: int)
    ensures r == -1 || OccursAt(s, q, r)
    ensures forall j {:trigger OccursAt(s, q, j)} ::
      (r == -1 || j < r) ==> !OccursAt(s, q, j)
  {
    IndexFrom(s, q, 0)
  }

  // ---------------------------------------------------------------------
  // Splitting, joining, slicing
  // ---------------------------------------------------------------------

  /** `s.split(sep)` for a one-character separator: the pieces between
      separators, always at least one (`"".split("\n")` is `[""]`). */
  function Split(s: string, sep: char): (r: seq<string>)
    ensures |r| >= 1
  {
    if s == [] then [""]
    else
      var rest := Split(s[1..], sep);
      if s[0] == sep then [""] + rest else [[s[0]] + rest[0]] + rest[1..]
  }

  /** The last piece of a split contains no separator. */
  lemma LastPieceFree(s: string, sep: char)
    ensures var r := Split(s, sep); sep !in r[|r| - 1]
  {
    SplitPiecesFree(s, sep);
  }

  /** No piece of a split contains the separator. */
  lemma {:induction false} SplitPiecesFree(s: string, sep: char)
    ensures forall i :: 0 <= i < |Split(s, sep)| ==> sep !in Split(s, sep)[i]
  {
    if s != [] {
      SplitPiecesFree(s[1..], sep);
      var rest := Split(s[1..], sep);
      if s[0] != sep {
        var r := Split(s, sep);
        assert r[0] == [s[0]] + rest[0];
        forall i | 1 <= i < |r| ensures sep !in r[i] {
          assert r[i] == rest[i];
        }
      }
    }
  }

  /** `parts.join(sep)` for a one-character separator. */
  function Join(parts: seq<string>, sep: char): string {
    if parts == [] then ""
    else if |parts| == 1 then parts[0]
    else parts[0] + [sep] + Join(parts[1..], sep)
  }

  /** The shape of a join: the first part is a prefix, a separator follows
      it when there are more parts, and the last part is a suffix. */
  lemma {:induction false} JoinShape(parts: seq<string>, sep: char)
    requires |parts| >= 1
    ensures var r := Join(parts, sep);
      && |parts[0]| <= |r| && r[..|parts[0]|] == parts[0]
      && |parts[|parts| - 1]| <= |r| && r[|r| - |parts[|parts| - 1]|..] == parts[|parts| - 1]
      && (|parts| >= 2 ==> |parts[0]| < |r| && r[|parts[0]|] == sep)
  {
    if |parts| >= 2 {
      JoinShape(parts[1..], sep);
      var tail := Join(parts[1..], sep);
      var r := Join(parts, sep);
      var last := parts[|parts| - 1];
      assert r == parts[0] + [sep] + tail;
      assert parts[1..][|parts| - 2] == last;
      assert r[|r| - |last|..] == tail[|tail| - |last|..];
    }
  }

  /** The strings concatenated in order (`parts.join("")`). */
  function Concat(parts: seq<string>): string {
    if parts == [] then "" else Concat(parts[..|parts| - 1]) + parts[|parts| - 1]
  }

  /** Position `i` of a `slice` argument resolved against length `n`:
      negative positions count from the end, and the result is clamped to
      `0..n`. */
  function SliceIndex(i: int, n: nat): (k: nat)
    ensures k <= n
  {
    if i < 0 then (if n + i < 0 then 0 else n + i) else if i > n then n else i
  }

  /** `s.slice(start, end)`. For non-negative bounds this is the part of `s`
      between the bounds, each clamped to the length of `s`. */
  function Slice(s: string, start: int, end: int): (r: string)
    ensures 0 <= start <= end ==>
      r == s[(if start < |s| then start else |s|)..(if end < |s| then end else |s|)]
  {
    var from, to := SliceIndex(start, |s|), SliceIndex(end, |s|);
    if from < to then s[from..to] else ""
  }

  /** The decimal digits of `n`, as `String(n)` writes a non-negative
      integer. */
  function NatToString(n: nat): (r: string)
    ensures r != []
    ensures forall i :: 0 <= i < |r| ==> '0' <= r[i] <= '9'
  {
    var d := ['0', '1', '2', '3', '4', '5', '6', '7', '8', '9'];
    if n < 10 then [d[n]] else NatToString(n / 10) + [d[n % 10]]
  }

  // ---------------------------------------------------------------------
  // Lemmas about Split and Join
  // ---------------------------------------------------------------------

  /** How `Split` treats the first character. */
  lemma SplitCons(c: char, t: string, sep: char)
    ensures var rt := Split(t, sep);
      Split([c] + t, sep) == if c == sep then [""] + rt else [[c] + rt[0]] + rt[1..]
  {
    assert ([c] + t)[1..] == t;
  }

  /** A string without the separator is one piece. */
  lemma {:induction false} SplitNoSep(s: string, sep: char)
    requires sep !in s
    ensures Split(s, sep) == [s]
  {
    if s != [] {
      assert s == [s[0]] + s[1..];
      SplitNoSep(s[1..], sep);
      SplitCons(s[0], s[1..], sep);
    }
  }

  /** Sequence algebra for one step of SplitConcat: prefixing the first
      piece with `c` commutes with fusing the last piece with `b`. */
  lemma FusePrefix(c: string, rx: seq<string>, b: string, tl: seq<string>)
    requires |rx| >= 1
    ensures var rxy := rx[..|rx| - 1] + [rx[|rx| - 1] + b] + tl;
      var sx := [c + rx[0]] + rx[1..];
      [c + rxy[0]] + rxy[1..] == sx[..|sx| - 1] + [sx[|sx| - 1] + b] + tl
  {
    var rxy := rx[..|rx| - 1] + [rx[|rx| - 1] + b] + tl;
    var sx := [c + rx[0]] + rx[1..];
    if |rx| > 1 {
      assert rxy[0] == rx[0];
      assert rxy[1..] == rx[1..|rx| - 1] + [rx[|rx| - 1] + b] + tl;
      assert sx[..|sx| - 1] == [c + rx[0]] + rx[1..|rx| - 1];
      assert sx[|sx| - 1] == rx[|rx| - 1];
    } else {
      assert rxy == [rx[0] + b] + tl;
      assert c + (rx[0] + b) == (c + rx[0]) + b;
    }
  }

  /** The pieces of `x + y`: the last piece of `x` and the first piece of
      `y` fused into one, every other piece kept. */
  predicate SplitFuses(x: string, y: string, sep: char) {
    var sx, sy := Split(x, sep), Split(y, sep);
    Split(x + y, sep) == sx[..|sx| - 1] + [sx[|sx| - 1] + sy[0]] + sy[1..]
  }

  /** Splitting a concatenation: the last piece of `x` and the first piece
      of `y` fuse into one, every other piece is kept. */
  lemma {:induction false} SplitConcat(x: string, y: string, sep: char)
    ensures var sx, sy := Split(x, sep), Split(y, sep);
      Split(x + y, sep) == sx[..|sx| - 1] + [sx[|sx| - 1] + sy[0]] + sy[1..]
  {
    if x == [] {
      SplitConcatNil(y, sep);
    } else {
      SplitConcat(x[1..], y, sep);
      SplitConcatCons(x[0], x[1..], y, sep);
      assert x == [x[0]] + x[1..];
    }
  }

  /** The base case of SplitConcat: an empty `x`. */
  lemma SplitConcatNil(y: string, sep: char)
    ensures SplitFuses([], y, sep)
  {
    var sy := Split(y, sep);
    assert [] + y == y;
    assert "" + sy[0] == sy[0];
    assert sy == [sy[0]] + sy[1..];
  }

  /** The step of SplitConcat: from `t` to `[c] + t`. */
  lemma SplitConcatCons(c: char, t: string, y: string, sep: char)
    requires SplitFuses(t, y, sep)
    ensures SplitFuses([c] + t, y, sep)
  {
    assert ([c] + t) + y == [c] + (t + y);
    if c == sep {
      ConsSep(c, t, y, sep);
    } else {
      ConsOther(c, t, y, sep);
    }
  }

  lemma ConsSep(c: char, t: string, y: string, sep: char)
    requires SplitFuses(t, y, sep) && c == sep
    ensures var sx, sy := Split([c] + t, sep), Split(y, sep);
      Split([c] + (t + y), sep) == sx[..|sx| - 1] + [sx[|sx| - 1] + sy[0]] + sy[1..]
  {
    SplitCons(c, t, sep);
    SplitCons(c, t + y, sep);
    SepStep(Split(t, sep), Split(t + y, sep), Split(y, sep));
  }

  lemma ConsOther(c: char, t: string, y: string, sep: char)
    requires SplitFuses(t, y, sep) && c != sep
    ensures var sx, sy := Split([c] + t, sep), Split(y, sep);
      Split([c] + (t + y), sep) == sx[..|sx| - 1] + [sx[|sx| - 1] + sy[0]] + sy[1..]
  {
    SplitCons(c, t, sep);
    SplitCons(c, t + y, sep);
    var sy := Split(y, sep);
    FusePrefix([c], Split(t, sep), sy[0], sy[1..]);
  }

  /** Sequence algebra for the separator case of SplitConcat. */
  lemma SepStep(rx: seq<string>, ry: seq<string>, sy: seq<string>)
    requires |rx| >= 1 && |sy| >= 1
    requires ry == rx[..|rx| - 1] + [rx[|rx| - 1] + sy[0]] + sy[1..]
    ensures var sx := [""] + rx;
      [""] + ry == sx[..|sx| - 1] + [sx[|sx| - 1] + sy[0]] + sy[1..]
  {
    var sx := [""] + rx;
    assert sx[..|sx| - 1] == [""] + rx[..|rx| - 1];
    assert sx[|sx| - 1] == rx[|rx| - 1];
  }

  /** Joining the pieces of a split with the same separator gives back the
      original string: no character is lost or duplicated. */
  lemma {:induction false} JoinSplit(s: string, sep: char)
    ensures Join(Split(s, sep), sep) == s
  {
    if s != [] {
      var c, t := s[0], s[1..];
      assert s == [c] + t;
      JoinSplit(t, sep);
      SplitCons(c, t, sep);
      if c == sep {
        JoinSepFront(Split(t, sep), sep);
      } else {
        JoinCons(c, Split(t, sep), sep);
      }
    }
  }

  /** A join whose first piece is empty starts with the separator. */
  lemma JoinSepFront(rest: seq<string>, sep: char)
    requires |rest| >= 1
    ensures Join([""] + rest, sep) == [sep] + Join(rest, sep)
  {
    assert ([""] + rest)[1..] == rest;
  }

  /** Prefixing the first piece prefixes the join. */
  lemma JoinCons(c: char, rest: seq<string>, sep: char)
    requires |rest| >= 1
    ensures Join([[c] + rest[0]] + rest[1..], sep) == [c] + Join(rest, sep)
  {
    var parts := [[c] + rest[0]] + rest[1..];
    if |rest| > 1 {
      assert parts[1..] == rest[1..];
    }
  }

  /** Splitting a join of separator-free pieces gives back the pieces. */
  lemma {:induction false} SplitJoin(parts: seq<string>, sep: char)
    requires |parts| >= 1
    requires forall i :: 0 <= i < |parts| ==> sep !in parts[i]
    ensures Split(Join(parts, sep), sep) == parts
  {
    SplitNoSep(parts[0], sep);
    if |parts| > 1 {
      SplitJoin(parts[1..], sep);
      var tail := Join(parts[1..], sep);
      assert Join(parts, sep) == parts[0] + ([sep] + tail);
      SplitConcat(parts[0], [sep] + tail, sep);
      SplitCons(sep, tail, sep);
      assert parts[0] + "" == parts[0];
      assert parts == [parts[0]] + parts[1..];
    }
  }
}
