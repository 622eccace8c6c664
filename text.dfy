/** Character classes and string helpers used by every parser stage.

    They stand for the JVM library behaviour the parser relies on: the regular
    expression classes `\s` and `\w` (java.util.regex without
    UNICODE_CHARACTER_CLASS), Kotlin's `Char.isWhitespace` as used by
    `String.trim()`, and case mapping, which is modelled for ASCII letters. */
module Text {
  import opened Wrappers

  /** Regex `\s`: space, tab, line feed, vertical tab, form feed, carriage return. */
  predicate IsSpace(c: char) {
    c == ' ' || c == '\t' || c == '\n' || c == '\U{000B}' || c == '\U{000C}' || c == '\r'
  }

  /** Kotlin `Char.isWhitespace()` on the JVM: `Character.isWhitespace` or
      `Character.isSpaceChar` (the `\s` set, the four information separators,
      and the Unicode space, line and paragraph separators). */
  predicate IsWhitespace(c: char) {
    IsSpace(c) || ('\U{001C}' <= c <= '\U{001F}') || c == '\U{00A0}' || c == '\U{1680}'
    || ('\U{2000}' <= c <= '\U{200A}') || c == '\U{2028}' || c == '\U{2029}'
    || c == '\U{202F}' || c == '\U{205F}' || c == '\U{3000}'
  }

  predicate IsLetter(c: char) {
    'a' <= c <= 'z' || 'A' <= c <= 'Z'
  }

  /** Regex `\w`: [a-zA-Z_0-9]. */
  predicate IsWordChar(c: char) {
    IsLetter(c) || '0' <= c <= '9' || c == '_'
  }

  /** A non-empty run of `\w` characters: group 1 of `([\w_]+)`. */
  predicate IsIdentifier(s: string) {
    s != [] && forall k :: 0 <= k < |s| ==> IsWordChar(s[k])
  }

  /** The characters that regex `.` does not match when DOTALL is off. */
  predicate IsLineTerminator(c: char) {
    c == '\n' || c == '\r' || c == '\U{0085}' || c == '\U{2028}' || c == '\U{2029}'
  }

  function Upper(c: char): char {
    if 'a' <= c <= 'z' then (c as int - 32) as char else c
  }

  function Lower(c: char): char {
    if 'A' <= c <= 'Z' then (c as int + 32) as char else c
  }

  /** `String.uppercase()` */
  function UpperStr(s: string): (u: string) {
    seq(|s|, i requires 0 <= i < |s| => Upper(s[i]))
  }

  /** `String.lowercase()` */
  function LowerStr(s: string): (l: string) {
    seq(|s|, i requires 0 <= i < |s| => Lower(s[i]))
  }

  lemma UpperStrSlice(s: string, i: nat, j: nat)
    requires i <= j <= |s|
    ensures UpperStr(s)[i..j] == UpperStr(s[i..j])
  {
  }

  lemma LowerStrSlice(s: string, i: nat, j: nat)
    requires i <= j <= |s|
    ensures LowerStr(s)[i..j] == LowerStr(s[i..j])
  {
  }

  lemma UpperStrAppend(a: string, b: string)
    ensures UpperStr(a + b) == UpperStr(a) + UpperStr(b)
  {
  }

  /** An upper-case ASCII letter appears after upper-casing only where the
      text had it in one case or the other. */
  lemma UpperStrMissing(s: string, c: char)
    requires 'A' <= c <= 'Z' && c !in s && Lower(c) !in s
    ensures c !in UpperStr(s)
  {
    forall k | 0 <= k < |s| ensures UpperStr(s)[k] != c {
      assert s[k] != c && s[k] != Lower(c);
    }
  }

  /** `s.contains(p)` */
  predicate Contains(s: string, p: string)
    decreases |s|
  {
    p <= s || (s != [] && Contains(s[1..], p))
  }

  lemma {:induction false} ContainsWitness(s: string, p: string)
    requires Contains(s, p)
    ensures exists i :: 0 <= i <= |s| && p <= s[i..]
    decreases |s|
  {
    if p <= s {
      assert s[0..] == s;
    } else {
      ContainsWitness(s[1..], p);
      var i :| 0 <= i <= |s| - 1 && p <= s[1..][i..];
      assert s[1..][i..] == s[i + 1..];
    }
  }

  lemma {:induction false} ContainsAt(s: string, i: nat, p: string)
    requires i <= |s| && p <= s[i..]
    ensures Contains(s, p)
    decreases i
  {
    if i > 0 {
      assert s[1..][i - 1..] == s[i..];
      ContainsAt(s[1..], i - 1, p);
    } else {
      assert s[i..] == s;
    }
  }

  /** A prefix of the upper-cased text from `p` occurs in the upper-cased
      text. */
  lemma PrefixContained(s: string, p: nat, w: string)
    requires p <= |s| && w <= UpperStr(s[p..])
    ensures Contains(UpperStr(s), w)
  {
    UpperStrSlice(s, p, |s|);
    assert s[p..|s|] == s[p..];
    ContainsAt(UpperStr(s), p, w);
  }

  /** An occurrence of `p` in a part of `s` is an occurrence in `s`. */
  lemma ContainsInSlice(s: string, i: nat, j: nat, p: string)
    requires i <= j <= |s| && Contains(s[i..j], p)
    ensures Contains(s, p)
  {
    ContainsWitness(s[i..j], p);
    var k :| 0 <= k <= j - i && p <= s[i..j][k..];
    assert s[i..j][k..] <= s[i + k..];
    ContainsAt(s, i + k, p);
  }

  /** A two-character text occurs only where its two characters stand side by side. */
  lemma {:induction false} NotContainsPair(s: string, p: string)
    requires |p| == 2
    requires forall i :: 0 <= i < |s| - 1 ==> !(s[i] == p[0] && s[i + 1] == p[1])
    ensures !Contains(s, p)
    decreases |s|
  {
    if s != [] {
      NotContainsPair(s[1..], p);
      assert |s| < 2 || !(s[0] == p[0] && s[1] == p[1]);
    }
  }

  /** A pattern with a character the text lacks does not occur in it. */
  lemma {:induction false} NotContainsMissing(s: string, p: string, k: nat)
    requires k < |p| && p[k] !in s
    ensures !Contains(s, p)
    decreases |s|
  {
    if s != [] {
      NotContainsMissing(s[1..], p, k);
      if k < |s| {
        assert s[k] in s;
      }
    }
  }

  /** A text that occurs contains each of its prefixes. */
  lemma ContainsShorter(s: string, p: string, q: string)
    requires Contains(s, p + q)
    ensures Contains(s, p)
  {
    ContainsWitness(s, p + q);
    var i :| 0 <= i <= |s| && p + q <= s[i..];
    assert p <= s[i..];
    ContainsAt(s, i, p);
  }

  /** A two-character text whose first character is missing from `x` and
      whose second is missing from `y` does not occur in `x + y`. */
  lemma PairAcross(x: string, y: string, p: string)
    requires |p| == 2 && p[0] !in x && p[1] !in y
    ensures !Contains(x + y, p)
  {
    var s := x + y;
    forall i | 0 <= i < |s| - 1 ensures !(s[i] == p[0] && s[i + 1] == p[1]) {
      if i < |x| {
        assert s[i] == x[i];
      } else {
        assert s[i + 1] == y[i + 1 - |x|];
      }
    }
    NotContainsPair(s, p);
  }

  /** Two characters side by side are an occurrence of the text they spell. */
  lemma PairContained(s: string, i: nat, p: string)
    requires |p| == 2 && i + 1 < |s|
    ensures s[i] == p[0] && s[i + 1] == p[1] ==> Contains(s, p)
  {
    if s[i] == p[0] && s[i + 1] == p[1] {
      assert p <= s[i..];
      ContainsAt(s, i, p);
    }
  }

  /** Where a two-character text does not occur, its two characters never
      stand side by side. */
  lemma PairAbsent(s: string, p: string)
    requires |p| == 2 && !Contains(s, p)
    ensures forall i :: 0 <= i < |s| - 1 ==> !(s[i] == p[0] && s[i + 1] == p[1])
  {
    forall i | 0 <= i < |s| - 1 ensures !(s[i] == p[0] && s[i + 1] == p[1]) {
      PairContained(s, i, p);
    }
  }

  /** The length of the longest prefix of `s` whose characters are all in the class. */
  function Run(s: string, inClass: char -> bool): (n: nat)
    ensures n <= |s|
    ensures forall k :: 0 <= k < n ==> inClass(s[k])
    ensures n < |s| ==> !inClass(s[n])
    decreases |s|
  {
    if s != [] && inClass(s[0]) then 1 + Run(s[1..], inClass) else 0
  }

  /** A run is the only length whose prefix is all in the class and which
      stops at the end or at a character outside it. */
  lemma RunIs(s: string, inClass: char -> bool, n: nat)
    requires n <= |s| && forall k :: 0 <= k < n ==> inClass(s[k])
    requires n == |s| || !inClass(s[n])
    ensures Run(s, inClass) == n
  {
  }

  lemma RunIsOne(s: string, inClass: char -> bool)
    requires |s| >= 2 && inClass(s[0]) && !inClass(s[1])
    ensures Run(s, inClass) == 1
  {
    RunIs(s, inClass, 1);
  }

  /** `Matcher.find()` for a pattern whose match at a given start position is
      `matchAt`: every start position is tried in turn, and the first that
      matches decides the result. */
  function Find<T>(s: string, matchAt: string -> Option<T>): (r: Option<T>)
    decreases |s|
  {
    match matchAt(s)
    case Some(v) => Some(v)
    case None => if s == [] then None else Find(s[1..], matchAt)
  }

  /** What `Find` returns is the match at the leftmost position that matches,
      and it finds nothing exactly when no position matches. */
  lemma {:induction false} FindLeftmost<T>(s: string, matchAt: string -> Option<T>)
    ensures Find(s, matchAt).Some? ==>
              exists p :: 0 <= p <= |s| && matchAt(s[p..]) == Find(s, matchAt)
                          && forall q :: 0 <= q < p ==> matchAt(s[q..]).None?
    ensures Find(s, matchAt).None? <==> forall p :: 0 <= p <= |s| ==> matchAt(s[p..]).None?
    decreases |s|
  {
    assert s[0..] == s;
    if matchAt(s).None? && s != [] {
      FindLeftmost(s[1..], matchAt);
      forall p | 1 <= p <= |s| ensures s[1..][p - 1..] == s[p..] { }
      if Find(s, matchAt).Some? {
        var p :| 0 <= p <= |s| - 1 && matchAt(s[1..][p..]) == Find(s, matchAt)
                 && forall q :: 0 <= q < p ==> matchAt(s[1..][q..]).None?;
        assert s[1..][p..] == s[p + 1..];
      }
    }
  }

  /** Kotlin `trimStart()`: drops the leading whitespace. */
  function TrimStart(s: string): (r: string)
    ensures |r| <= |s| && r == s[|s| - |r|..]
    ensures r != [] ==> !IsWhitespace(r[0])
    ensures forall k :: 0 <= k < |s| - |r| ==> IsWhitespace(s[k])
    decreases |s|
  {
    if s != [] && IsWhitespace(s[0]) then TrimStart(s[1..]) else s
  }

  /** Kotlin `trimEnd()`: drops the trailing whitespace. */
  function TrimEnd(s: string): (r: string)
    ensures |r| <= |s| && r == s[..|r|]
    ensures r != [] ==> !IsWhitespace(r[|r| - 1])
    ensures forall k :: |r| <= k < |s| ==> IsWhitespace(s[k])
    decreases |s|
  {
    if s != [] && IsWhitespace(s[|s| - 1]) then TrimEnd(s[..|s| - 1]) else s
  }

  /** Kotlin `String.trim()`. */
  function Trim(s: string): (r: string)
    ensures r != [] ==> !IsWhitespace(r[0]) && !IsWhitespace(r[|r| - 1])
    ensures r == [] <==> forall k :: 0 <= k < |s| ==> IsWhitespace(s[k])
  {
    TrimEnd(TrimStart(s))
  }

  /** A text that starts and ends with non-whitespace is left alone by `trim()`. */
  lemma TrimUntouched(s: string)
    requires s != [] ==> !IsWhitespace(s[0]) && !IsWhitespace(s[|s| - 1])
    ensures Trim(s) == s
  {
  }

  /** One leading space before a trimmed text is trimmed away. */
  lemma TrimLeadingSpace(s: string)
    requires s != [] && !IsWhitespace(s[0]) && !IsWhitespace(s[|s| - 1])
    ensures Trim(" " + s) == s
  {
    var t := " " + s;
    assert t[1..] == s;
    assert TrimStart(t) == s;
  }

  /** One trailing space after a trimmed text is trimmed away. */
  lemma TrimTrailingSpace(s: string)
    requires s != [] ==> !IsWhitespace(s[0]) && !IsWhitespace(s[|s| - 1])
    ensures Trim(s + " ") == s
  {
    var t := s + " ";
    if s != [] {
      assert t[0] == s[0];
      assert TrimStart(t) == t;
      assert t[..|s|] == s;
    }
  }

  /** Number of occurrences of `c` in `s`. */
  function Count(s: string, c: char): nat
    decreases |s|
  {
    if s == [] then 0 else (if s[0] == c then 1 else 0) + Count(s[1..], c)
  }

  lemma {:induction false} CountAppend(a: string, b: string, c: char)
    ensures Count(a + b, c) == Count(a, c) + Count(b, c)
    decreases |a|
  {
    if a == [] {
      assert a + b == b;
    } else {
      assert (a + b)[1..] == a[1..] + b;
      CountAppend(a[1..], b, c);
    }
  }

  lemma {:induction false} CountAbsent(s: string, c: char)
    requires forall k :: 0 <= k < |s| ==> s[k] != c
    ensures Count(s, c) == 0
    decreases |s|
  {
    if s != [] {
      CountAbsent(s[1..], c);
    }
  }

  /** The pieces joined with the separator in between. */
  function Join(pieces: seq<string>, sep: string): string
    decreases |pieces|
  {
    if pieces == [] then []
    else if |pieces| == 1 then pieces[0]
    else pieces[0] + sep + Join(pieces[1..], sep)
  }
}
