/** The JavaScript string built-ins the agent relies on: `trim`, `split` on one
    character, `toLowerCase` and `startsWith`. Strings are sequences of Unicode
    scalar values; every character these operations inspect lies in the Basic
    Multilingual Plane, so UTF-16 code-unit indices and these indices agree. */
module JsString {

  /** The characters `String.prototype.trim` removes: the WhiteSpace and
      LineTerminator code points of ECMA-262 (tab, vertical tab, form feed,
      byte-order mark, every Zs space separator, LF, CR, LS and PS). */
  predicate IsWhite(c: char) {
    || c == '\t' || c == '\n' || c == '\U{000B}' || c == '\U{000C}' || c == '\r'
    || c == ' ' || c == '\U{00A0}' || c == '\U{1680}'
    || ('\U{2000}' <= c <= '\U{200A}')
    || c == '\U{2028}' || c == '\U{2029}' || c == '\U{202F}' || c == '\U{205F}'
    || c == '\U{3000}' || c == '\U{FEFF}'
  }

  /** Every character of `s` from index `lo` up to (not including) `hi` is white space. */
  predicate WhiteBetween(s: string, lo: int, hi: int)
    requires 0 <= lo <= hi <= |s|
  {
    forall k :: lo <= k < hi ==> IsWhite(s[k])
  }

  predicate AllWhite(s: string) {
    WhiteBetween(s, 0, |s|)
  }

  /** `s[i..j]` is what trimming `s` leaves: everything outside it is white
      space and, unless it is empty, it neither starts nor ends with white space. */
  predicate TrimsTo(s: string, i: int, j: int) {
    && 0 <= i <= j <= |s|
    && WhiteBetween(s, 0, i)
    && WhiteBetween(s, j, |s|)
    && (i < j ==> !IsWhite(s[i]) && !IsWhite(s[j - 1]))
  }

  /** `s` with its leading white space removed (see `TrimStartSpec`). */
  function TrimStart(s: string): string {
    if |s| > 0 && IsWhite(s[0]) then TrimStart(s[1..]) else s
  }

  lemma {:induction false} TrimStartSpec(s: string)
    ensures var r := TrimStart(s);
      && |r| <= |s| && r == s[|s| - |r|..]
      && WhiteBetween(s, 0, |s| - |r|)
      && (r == [] || !IsWhite(r[0]))
  {
    if |s| > 0 && IsWhite(s[0]) {
      var r := TrimStart(s[1..]);
      TrimStartSpec(s[1..]);
      assert forall k :: 1 <= k < |s| - |r| ==> s[k] == s[1..][k - 1];
    }
  }

  /** `s` with its trailing white space removed (see `TrimEndSpec`). */
  function TrimEnd(s: string): string {
    if |s| > 0 && IsWhite(s[|s| - 1]) then TrimEnd(s[..|s| - 1]) else s
  }

  lemma {:induction false} TrimEndSpec(s: string)
    ensures var r := TrimEnd(s);
      && |r| <= |s| && r == s[..|r|]
      && WhiteBetween(s, |r|, |s|)
      && (r == [] || !IsWhite(r[|r| - 1]))
  {
    if |s| > 0 && IsWhite(s[|s| - 1]) {
      var r := TrimEnd(s[..|s| - 1]);
      TrimEndSpec(s[..|s| - 1]);
      assert forall k :: |r| <= k < |s| - 1 ==> s[k] == s[..|s| - 1][k];
    }
  }

  /** `String.prototype.trim`: white space off both ends (see `TrimSpec`,
      `TrimDecomposes` and `TrimUnique`). */
  function Trim(s: string): string {
    TrimEnd(TrimStart(s))
  }

  /** Where the trimmed text starts in `s`. */
  function TrimOffset(s: string): int {
    |s| - |TrimStart(s)|
  }

  /** The trimmed text is the infix of `s` starting at `TrimOffset(s)`. */
  lemma TrimIsInfix(s: string)
    ensures 0 <= TrimOffset(s) && TrimOffset(s) + |Trim(s)| <= |s|
    ensures Trim(s) == s[TrimOffset(s)..TrimOffset(s) + |Trim(s)|]
  {
    var t := TrimStart(s);
    TrimStartSpec(s);
    TrimEndSpec(t);
    var r := TrimEnd(t);
    var i := |s| - |t|;
    var j := i + |r|;
    assert r == s[i..j];
  }

  /** Everything after the trimmed text is white space. */
  lemma TrimDropsTrailingWhite(s: string)
    ensures 0 <= TrimOffset(s) && TrimOffset(s) + |Trim(s)| <= |s|
    ensures WhiteBetween(s, TrimOffset(s) + |Trim(s)|, |s|)
  {
    var t := TrimStart(s);
    TrimStartSpec(s);
    TrimEndSpec(t);
    var r := TrimEnd(t);
    var i := |s| - |t|;
    assert forall k :: i <= k < |s| ==> s[k] == t[k - i];
  }

  /** The trimmed text, unless empty, starts and ends with non-white characters of `s`. */
  lemma TrimKeepsEdges(s: string)
    ensures 0 <= TrimOffset(s) && TrimOffset(s) + |Trim(s)| <= |s|
    ensures var i, j := TrimOffset(s), TrimOffset(s) + |Trim(s)|;
      i < j ==> !IsWhite(s[i]) && !IsWhite(s[j - 1])
  {
    var t := TrimStart(s);
    TrimStartSpec(s);
    TrimEndSpec(t);
    var r := TrimEnd(t);
    var i := |s| - |t|;
    var j := i + |r|;
    assert i < j ==> s[i] == r[0] && s[j - 1] == r[|r| - 1];
  }

  /** Trimming keeps one infix of `s` and removes only white space around it. */
  lemma TrimDecomposes(s: string)
    ensures TrimsTo(s, TrimOffset(s), TrimOffset(s) + |Trim(s)|)
    ensures Trim(s) == s[TrimOffset(s)..TrimOffset(s) + |Trim(s)|]
  {
    TrimStartSpec(s);
    TrimIsInfix(s);
    TrimDropsTrailingWhite(s);
    TrimKeepsEdges(s);
  }

  /** Trimming leaves nothing exactly when the text is all white space, and
      otherwise leaves text that neither starts nor ends with white space. */
  lemma TrimSpec(s: string)
    ensures Trim(s) == [] <==> AllWhite(s)
    ensures Trim(s) != [] ==> !IsWhite(Trim(s)[0]) && !IsWhite(Trim(s)[|Trim(s)| - 1])
  {
    TrimDecomposes(s);
  }

  /** Two ways of cutting `s` into white space, a core and white space leave
      the same core. */
  lemma TrimsToUnique(s: string, i: int, j: int, i': int, j': int)
    requires TrimsTo(s, i, j) && TrimsTo(s, i', j')
    ensures s[i..j] == s[i'..j']
  {
  }

  /** Any cut of `s` into white space, a core without white space at its
      ends, and white space, has `Trim(s)` as its core. */
  lemma TrimUnique(s: string, i: int, j: int)
    requires TrimsTo(s, i, j)
    ensures Trim(s) == s[i..j]
  {
    TrimDecomposes(s);
    TrimsToUnique(s, i, j, TrimOffset(s), TrimOffset(s) + |Trim(s)|);
  }

  /** Text without white space at either end is its own trim. */
  lemma TrimUnpadded(s: string)
    requires s == [] || (!IsWhite(s[0]) && !IsWhite(s[|s| - 1]))
    ensures Trim(s) == s
  {
    assert TrimsTo(s, 0, |s|);
    TrimUnique(s, 0, |s|);
  }

  lemma TrimIdempotent(s: string)
    ensures Trim(Trim(s)) == Trim(s)
  {
    TrimSpec(s);
    TrimUnpadded(Trim(s));
  }

  /** `c.toLowerCase()` for the characters whose lower-case form is a single
      ASCII character: `A`-`Z`, and U+212A KELVIN SIGN, which lowers to `k`.
      Every other character is left alone. */
  function LowerChar(c: char): char {
    if 'A' <= c <= 'Z' then (c as int + 32) as char
    else if c == '\U{212A}' then 'k'
    else c
  }

  /** `s.toLowerCase()`, character by character with `LowerChar`. */
  function ToLower(s: string): (r: string)
    ensures |r| == |s|
    ensures forall k :: 0 <= k < |s| ==> r[k] == LowerChar(s[k])
  {
    seq(|s|, k requires 0 <= k < |s| => LowerChar(s[k]))
  }

  /** The characters `LowerChar` changes: the ones lower-casing maps to an
      ASCII letter other than themselves. */
  predicate IsUpperLetter(c: char) {
    ('A' <= c <= 'Z') || c == '\U{212A}'
  }

  /** Lower-casing leaves no upper-case letter behind, and changes nothing else. */
  lemma ToLowerSpec(s: string)
    ensures forall k :: 0 <= k < |s| ==> !IsUpperLetter(ToLower(s)[k])
    ensures forall k :: 0 <= k < |s| && !IsUpperLetter(s[k]) ==> ToLower(s)[k] == s[k]
  {
  }

  /** Lower-casing twice is lower-casing once. */
  lemma ToLowerIdempotent(s: string)
    ensures ToLower(ToLower(s)) == ToLower(s)
  {
    ToLowerSpec(s);
    var t := ToLower(s);
    assert forall k :: 0 <= k < |t| ==> ToLower(t)[k] == t[k];
  }

  predicate StartsWith(s: string, prefix: string) {
    |prefix| <= |s| && s[..|prefix|] == prefix
  }

  /** `s.split(sep)` for a one-character separator: the maximal runs of
      non-separator characters, including the empty runs around adjacent,
      leading or trailing separators. */
  function Split(s: string, sep: char): (parts: seq<string>)
    ensures |parts| >= 1
    ensures forall k :: 0 <= k < |parts| ==> sep !in parts[k]
  {
    if |s| == 0 then [""]
    else
      var rest := Split(s[1..], sep);
      if s[0] == sep then [""] + rest
      else [[s[0]] + rest[0]] + rest[1..]
  }

  /** `parts.join(sep)`. */
  function Join(parts: seq<string>, sep: char): string
    requires |parts| >= 1
  {
    if |parts| == 1 then parts[0] else parts[0] + [sep] + Join(parts[1..], sep)
  }

  lemma {:induction false} JoinSplit(s: string, sep: char)
    ensures Join(Split(s, sep), sep) == s
  {
    if |s| > 0 {
      var rest := Split(s[1..], sep);
      JoinSplit(s[1..], sep);
      if s[0] == sep {
        assert Split(s, sep)[1..] == rest;
      } else if |rest| == 1 {
        assert s == [s[0]] + s[1..];
      } else {
        var parts := Split(s, sep);
        assert parts[1..] == rest[1..];
        assert Join(rest, sep) == rest[0] + [sep] + Join(rest[1..], sep);
        assert s == [s[0]] + s[1..];
      }
    }
  }

  lemma {:induction false} SplitNoSeparator(p: string, sep: char)
    requires sep !in p
    ensures Split(p, sep) == [p]
  {
    if |p| > 0 {
      SplitNoSeparator(p[1..], sep);
      assert p == [p[0]] + p[1..];
    }
  }

  lemma {:induction false} SplitAtSeparator(p: string, sep: char, t: string)
    requires sep !in p
    ensures Split(p + [sep] + t, sep) == [p] + Split(t, sep)
  {
    var s := p + [sep] + t;
    if |p| == 0 {
      assert s[1..] == t;
    } else {
      assert s[1..] == p[1..] + [sep] + t;
      SplitAtSeparator(p[1..], sep, t);
      assert p == [p[0]] + p[1..];
    }
  }

  /** Splitting undoes joining, provided no part contains the separator. */
  lemma {:induction false} SplitJoin(parts: seq<string>, sep: char)
    requires |parts| >= 1
    requires forall k :: 0 <= k < |parts| ==> sep !in parts[k]
    ensures Split(Join(parts, sep), sep) == parts
  {
    if |parts| == 1 {
      SplitNoSeparator(parts[0], sep);
    } else {
      SplitJoin(parts[1..], sep);
      SplitAtSeparator(parts[0], sep, Join(parts[1..], sep));
      assert parts == [parts[0]] + parts[1..];
    }
  }
}
