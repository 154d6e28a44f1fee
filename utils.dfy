/** Small string helpers: class-name merging, truncation with an ellipsis,
    and chat titles derived from a first message. */
module Utils {
  import opened Strings

  /** The horizontal ellipsis `…` (U+2026), one character. */
  const Ellipsis: char := '\U{2026}'

  /** An argument of `cn`: a string, or one of the other values its type
      admits (`undefined`, `null`, `false`). */
  datatype ClassArg = Name(name: string) | Undefined | Null | False

  /** `Boolean(a)`: only a non-empty string is truthy. */
  predicate Truthy(a: ClassArg) {
    a.Name? && a.name != ""
  }

  /** `args.filter(Boolean)`: the truthy arguments, in order, as strings. */
  function TruthyNames(args: seq<ClassArg>): (r: seq<string>)
    ensures |r| <= |args|
    ensures forall k :: 0 <= k < |r| ==> r[k] != ""
  {
    if args == [] then []
    else (if Truthy(args[0]) then [args[0].name] else []) + TruthyNames(args[1..])
  }

  /** The names kept are exactly the truthy arguments: each kept name is an
      argument, and each truthy argument is kept. */
  lemma {:induction false} TruthyNamesExact(args: seq<ClassArg>)
    ensures forall x :: x in TruthyNames(args) ==> Name(x) in args
    ensures forall a :: a in args && Truthy(a) ==> a.name in TruthyNames(args)
  {
    if args != [] {
      TruthyNamesExact(args[1..]);
      assert args == [args[0]] + args[1..];
    }
  }

  /** Filtering the arguments of two calls in a row is filtering them in
      one: the names keep the order of the arguments. */
  lemma {:induction false} TruthyNamesAppend(a: seq<ClassArg>, b: seq<ClassArg>)
    ensures TruthyNames(a + b) == TruthyNames(a) + TruthyNames(b)
  {
    if a == [] {
      assert a + b == b;
    } else {
      var head := if Truthy(a[0]) then [a[0].name] else [];
      assert (a + b)[0] == a[0];
      assert (a + b)[1..] == a[1..] + b;
      TruthyNamesAppend(a[1..], b);
      assert TruthyNames(a + b) == head + TruthyNames(a[1..] + b);
      assert TruthyNames(a) == head + TruthyNames(a[1..]);
    }
  }

  /** `cn(...classes)`: the truthy arguments joined with single spaces. The
      result is empty exactly when no argument is truthy, and when no name
      contains a space, splitting the result on spaces gives back exactly
      the truthy names, in order. */
  function Cn(args: seq<ClassArg>): (r: string)
    ensures r == "" <==> TruthyNames(args) == []
    ensures var names := TruthyNames(args);
      names != [] && (forall k :: 0 <= k < |names| ==> ' ' !in names[k]) ==>
      Split(r, ' ') == names
  {
    JoinFacts(TruthyNames(args), ' ');
    Join(TruthyNames(args), ' ')
  }

  /** A join of parts that start with a non-empty part is not empty, and a
      join of separator-free parts splits back into them. */
  lemma JoinFacts(parts: seq<string>, sep: char)
    ensures parts != [] && parts[0] != "" ==> Join(parts, sep) != ""
    ensures parts != [] && (forall k :: 0 <= k < |parts| ==> sep !in parts[k]) ==>
      Split(Join(parts, sep), sep) == parts
  {
    if parts != [] && (forall k :: 0 <= k < |parts| ==> sep !in parts[k]) {
      SplitJoin(parts, sep);
    }
  }

  /** `truncate(str, maxLen)`: `str` itself when it fits; otherwise its
      first `maxLen` characters (`slice` semantics, so a negative `maxLen`
      counts from the end) with trailing whitespace removed, then `…`. */
  function Truncate(str: string, maxLen: int): (r: string)
    ensures |str| <= maxLen ==> r == str
    ensures |str| > maxLen ==>
      && |r| >= 1 && r[|r| - 1] == Ellipsis
      && var kept := r[..|r| - 1];
         |kept| <= |str| && kept == str[..|kept|] && (kept == [] || !IsWhitespace(kept[|kept| - 1]))
    ensures 0 <= maxLen < |str| ==> |r| <= maxLen + 1 && IsBlank(str[|r| - 1..maxLen])
  {
    if |str| <= maxLen then str
    else
      var kept := TrimEnd(Slice(str, 0, maxLen));
      var r := kept + [Ellipsis];
      assert r[..|r| - 1] == kept;
      r
  }

  /** `generateTitle(content)`: the trimmed content cut to 50 characters.
      The title is empty exactly when the content is blank, is never longer
      than 51 characters, and is the trimmed content itself when that
      fits. A longer trimmed content gives its first 50 characters without
      their trailing whitespace, then `…`. */
  function GenerateTitle(content: string): (r: string)
    ensures r == "" <==> IsBlank(content)
    ensures |r| <= 51
    ensures |Trim(content)| <= 50 ==> r == Trim(content)
    ensures |Trim(content)| > 50 ==>
      |r| >= 1 && r[|r| - 1] == Ellipsis && r[..|r| - 1] == TrimEnd(Trim(content)[..50])
  {
    var t := Trim(content);
    TruncateCut(t, 50);
    Truncate(t, 50)
  }

  /** A string longer than `maxLen` is cut exactly as
      `str.slice(0, maxLen).trimEnd()` says: the kept text is `trimEnd` of
      the first `maxLen` characters, or, for a negative `maxLen`, of all
      but the last `-maxLen` characters (none when that is more than the
      string holds). */
  lemma TruncateCut(str: string, maxLen: int)
    ensures maxLen < |str| ==>
      var r := Truncate(str, maxLen); r[..|r| - 1] == TrimEnd(str[..SliceIndex(maxLen, |str|)])
  {
    if 0 <= maxLen < |str| {
      var r := Truncate(str, maxLen);
      var kept := r[..|r| - 1];
      var p := str[..maxLen];
      assert p[..|kept|] == kept;
      assert p[|kept|..] == str[|r| - 1..maxLen];
      TrimEndUnique(p, kept);
    } else if maxLen < 0 {
      var r := Truncate(str, maxLen);
      assert Slice(str, 0, maxLen) == str[..SliceIndex(maxLen, |str|)];
      assert r[..|r| - 1] == TrimEnd(Slice(str, 0, maxLen));
    }
  }
}
