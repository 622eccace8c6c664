/** The first stage of the parser (`normalizeSql`, DDLSqlParser.kt lines 38-44):
    line comments are removed, then block comments, then every run of regex
    whitespace becomes one space, and the ends are trimmed. Each step is one
    `String.replace(Regex, "")` call of the source, written out here as a scanner
    with the regular expression's leftmost-first semantics. */
module Normalizer {
  import opened Wrappers
  import opened Text

  /** Index of the first line feed in `s`, or `|s|` when there is none. */
  function LineEnd(s: string): (n: nat)
    ensures n <= |s|
    ensures n < |s| ==> s[n] == '\n'
    ensures forall k :: 0 <= k < n ==> s[k] != '\n'
  {
    Run(s, c => c != '\n')
  }

  /** `replace("--[^\n]*".toRegex(), "")`: from each `--` up to, but not
      including, the next line feed. */
  function StripLineComments(s: string): (r: string)
    ensures Count(r, '\n') == Count(s, '\n')
    ensures !Contains(r, "--")
    ensures !Contains(s, "--") ==> r == s
    ensures s != [] && !("--" <= s) ==> r != [] && r[0] == s[0]
    ensures "--" <= s ==> r == [] || r[0] == '\n'
    decreases |s|
  {
    if s == [] then []
    else if "--" <= s then
      var e := LineEnd(s);
      assert s == s[..e] + s[e..];
      CountAppend(s[..e], s[e..], '\n');
      CountAbsent(s[..e], '\n');
      StripLineComments(s[e..])
    else
      [s[0]] + StripLineComments(s[1..])
  }

  /** Where a block comment whose body starts at `j` ends: the lazy `.*?`
      (which stops at line terminators, DOTALL being off) followed by the
      closing star and slash. The result is the index just after the closing
      slash. */
  function CommentClose(s: string, j: nat): (e: Option<nat>)
    requires j <= |s|
    ensures e.Some? ==> j + 2 <= e.value <= |s| && s[e.value - 2] == '*' && s[e.value - 1] == '/'
    ensures e.Some? ==> forall k :: j <= k < e.value - 2 ==> !IsLineTerminator(s[k]) && !(s[k] == '*' && s[k + 1] == '/')
    decreases |s| - j
  {
    if j + 1 >= |s| then None
    else if s[j] == '*' && s[j + 1] == '/' then Some(j + 2)
    else if IsLineTerminator(s[j]) then None
    else CommentClose(s, j + 1)
  }

  /** `replace("/\\*.*?\\*\/".toRegex(), "")`: block comments that close on the
      line they open on. */
  function StripBlockComments(s: string): (r: string)
    ensures Count(r, '\n') == Count(s, '\n')
    ensures !Contains(s, "/*") ==> r == s
    decreases |s|
  {
    if s == [] then []
    else
      var close := if "/*" <= s then CommentClose(s, 2) else None;
      if close.Some? then
        var e := close.value;
        assert forall k :: 0 <= k < e ==> s[k] != '\n' by {
          forall k | 0 <= k < e ensures s[k] != '\n' {
            if 2 <= k < e - 2 { assert !IsLineTerminator(s[k]); }
          }
        }
        assert s == s[..e] + s[e..];
        CountAppend(s[..e], s[e..], '\n');
        CountAbsent(s[..e], '\n');
        StripBlockComments(s[e..])
      else
        [s[0]] + StripBlockComments(s[1..])
  }

  /** Every regex-whitespace character is a plain space and no two are adjacent. */
  predicate SingleSpaced(s: string) {
    forall i :: 0 <= i < |s| && IsSpace(s[i]) ==> s[i] == ' ' && (i + 1 < |s| ==> !IsSpace(s[i + 1]))
  }

  /** `s` without its regex-whitespace characters. */
  function NonSpace(s: string): string
    decreases |s|
  {
    if s == [] then [] else (if IsSpace(s[0]) then [] else [s[0]]) + NonSpace(s[1..])
  }

  /** `replace("\\s+".toRegex(), " ")`: each maximal run of regex whitespace
      becomes one space. The run is consumed one character at a time and the
      space is emitted at its last character. */
  function CollapseSpaces(s: string): (r: string)
    ensures SingleSpaced(r)
    ensures NonSpace(r) == NonSpace(s)
    ensures r == [] <==> s == []
    ensures s != [] ==> r[0] == (if IsSpace(s[0]) then ' ' else s[0])
    decreases |s|
  {
    if s == [] then []
    else if IsSpace(s[0]) && |s| > 1 && IsSpace(s[1]) then CollapseSpaces(s[1..])
    else
      var rest := CollapseSpaces(s[1..]);
      var r := [if IsSpace(s[0]) then ' ' else s[0]] + rest;
      assert r[1..] == rest;
      r
  }

  lemma SingleSpacedSlice(s: string, i: nat, j: nat)
    requires SingleSpaced(s) && i <= j <= |s|
    ensures SingleSpaced(s[i..j])
  {
    var t := s[i..j];
    forall k | 0 <= k < |t| && IsSpace(t[k])
      ensures t[k] == ' ' && (k + 1 < |t| ==> !IsSpace(t[k + 1]))
    {
      assert t[k] == s[i + k];
    }
  }

  lemma SingleSpacedTrim(s: string)
    requires SingleSpaced(s)
    ensures SingleSpaced(Trim(s))
  {
    var a := TrimStart(s);
    SingleSpacedSlice(s, |s| - |a|, |s|);
    SingleSpacedSlice(a, 0, |TrimEnd(a)|);
  }

  /** `normalizeSql`: the text the later stages work on. */
  function Normalize(sql: string): (r: string)
    ensures r != [] ==> !IsWhitespace(r[0]) && !IsWhitespace(r[|r| - 1])
    ensures SingleSpaced(r)
  {
    var c := CollapseSpaces(StripBlockComments(StripLineComments(sql)));
    SingleSpacedTrim(c);
    Trim(c)
  }

  /** `normalizeSql` as written: `text` is replaced stage by stage. */
  method NormalizeSql(sql: string) returns (text: string)
    ensures text == Normalize(sql)
  {
    text := sql;
    text := StripLineComments(text);
    text := StripBlockComments(text);
    text := CollapseSpaces(text);
    text := Trim(text);
  }

  /** A two-character marker that does not start a text does not start it
      once more text is appended, unless it is split across the join. */
  lemma MarkerNotAtJoin(a: string, t: string, m: string)
    requires |m| == 2 && a != [] && !(m <= a)
    requires |a| >= 2 || t == [] || a[0] != m[0] || t[0] != m[1]
    ensures !(m <= a + t)
  {
    if |a| >= 2 {
      assert (a + t)[..2] == a[..2];
    } else if t != [] {
      assert (a + t)[1] == t[0];
    }
  }

  /** The conditions on a kept prefix hold of its tail too. */
  lemma KeptTail(a: string, m: string)
    requires a != [] && !Contains(a, m)
    ensures !(m <= a) && !Contains(a[1..], m)
    ensures a[1..] == [] || a[1..][|a[1..]| - 1] == a[|a| - 1]
  {
  }

  /** The stripping step for the marker `m`: where the text does not start
      with the marker, its first character is copied. */
  ghost predicate CopiesOutsideMarker(strip: string -> string, m: string) {
    forall c, y :: !(m <= [c] + y) ==> strip([c] + y) == [c] + strip(y)
  }

  /** One step of MarkerFreeKept. */
  lemma MarkerFreeStep(strip: string -> string, m: string, a: string, t: string)
    requires CopiesOutsideMarker(strip, m) && a != [] && !(m <= a + t)
    requires strip(a[1..] + t) == a[1..] + strip(t)
    ensures strip(a + t) == a + strip(t)
  {
    var y := a[1..];
    assert a + t == [a[0]] + (y + t);
    assert a == [a[0]] + y;
  }

  /** A stripping pass `strip` that copies a character whenever the text does
      not start with the marker `m` keeps a marker-free prefix in front of
      whatever follows it. */
  lemma {:induction false} MarkerFreeKept(strip: string -> string, m: string, a: string, t: string)
    requires |m| == 2 && CopiesOutsideMarker(strip, m)
    requires !Contains(a, m) && (a == [] || t == [] || a[|a| - 1] != m[0] || t[0] != m[1])
    ensures strip(a + t) == a + strip(t)
    decreases |a|
  {
    if a == [] {
      assert a + t == t;
    } else {
      KeptTail(a, m);
      MarkerNotAtJoin(a, t, m);
      MarkerFreeKept(strip, m, a[1..], t);
      MarkerFreeStep(strip, m, a, t);
    }
  }

  /** Text with no `--` that does not end in a dash is kept in front of
      whatever follows it. */
  lemma StripLineKeepsPrefix(a: string, t: string)
    requires !Contains(a, "--") && (a == [] || a[|a| - 1] != '-')
    ensures StripLineComments(a + t) == a + StripLineComments(t)
  {
    forall c, y | !("--" <= [c] + y)
      ensures StripLineComments([c] + y) == [c] + StripLineComments(y)
    {
      var x := [c] + y;
      assert x[0] == c && x[1..] == y;
    }
    MarkerFreeKept(StripLineComments, "--", a, t);
  }

  /** A line comment is removed up to the line feed that ends it, or up to
      the end of the text. */
  lemma LineCommentRemoved(body: string, t: string)
    requires forall k :: 0 <= k < |body| ==> body[k] != '\n'
    requires t == [] || t[0] == '\n'
    ensures StripLineComments("--" + (body + t)) == StripLineComments(t)
  {
    var s := "--" + (body + t);
    var n := 2 + |body|;
    assert "--" <= s;
    forall k | 0 <= k < n ensures s[k] != '\n' {
      if k >= 2 {
        assert s[k] == body[k - 2];
      }
    }
    assert s[n..] == t;
    RunIs(s, c => c != '\n', n);
  }

  /** A line feed is kept by the line-comment pass. */
  lemma LineFeedKept(b: string)
    ensures StripLineComments("\n" + b) == "\n" + StripLineComments(b)
  {
    var u := "\n" + b;
    assert !("--" <= u);
    assert u[1..] == b;
  }

  /** Everything outside a line comment survives: the text before it, the
      line feed that ends it and, stripped in turn, the text after. */
  lemma LineCommentDropped(a: string, body: string, b: string)
    requires !Contains(a, "--") && (a == [] || a[|a| - 1] != '-')
    requires forall k :: 0 <= k < |body| ==> body[k] != '\n'
    ensures StripLineComments(a + ("--" + (body + ("\n" + b)))) == a + ("\n" + StripLineComments(b))
  {
    StripLineKeepsPrefix(a, "--" + (body + ("\n" + b)));
    LineCommentRemoved(body, "\n" + b);
    LineFeedKept(b);
  }

  /** A line comment that runs to the end of the text is removed. */
  lemma LineCommentToEnd(body: string)
    requires forall k :: 0 <= k < |body| ==> body[k] != '\n'
    ensures StripLineComments("--" + body) == []
  {
    LineCommentRemoved(body, []);
    assert body + [] == body;
  }

  /** A line comment that runs to the end of the text leaves the text before
      it. */
  lemma LineCommentAtEnd(a: string, body: string)
    requires !Contains(a, "--") && (a == [] || a[|a| - 1] != '-')
    requires forall k :: 0 <= k < |body| ==> body[k] != '\n'
    ensures StripLineComments(a + ("--" + body)) == a
  {
    StripLineKeepsPrefix(a, "--" + body);
    LineCommentToEnd(body);
    assert a + [] == a;
  }

  /** The lazy scan stops at the first closing star and slash when no line
      terminator comes before it. */
  lemma {:induction false} CommentCloseAt(s: string, j: nat, e: nat)
    requires j <= e && e + 2 <= |s| && s[e] == '*' && s[e + 1] == '/'
    requires forall k :: j <= k < e ==> !IsLineTerminator(s[k]) && !(s[k] == '*' && s[k + 1] == '/')
    ensures CommentClose(s, j) == Some(e + 2)
    decreases e - j
  {
    if j < e {
      CommentCloseAt(s, j + 1, e);
    }
  }

  /** Text that opens no block comment is kept in front of whatever follows
      it, unless its last slash and the next star would open one. */
  lemma StripBlockKeepsPrefix(a: string, t: string)
    requires !Contains(a, "/*") && (a == [] || t == [] || a[|a| - 1] != '/' || t[0] != '*')
    ensures StripBlockComments(a + t) == a + StripBlockComments(t)
  {
    forall c, y | !("/*" <= [c] + y)
      ensures StripBlockComments([c] + y) == [c] + StripBlockComments(y)
    {
      var x := [c] + y;
      assert x[0] == c && x[1..] == y;
    }
    MarkerFreeKept(StripBlockComments, "/*", a, t);
  }

  /** The lazy scan of a comment body that holds no line terminator and no
      closing pair stops at the star and slash after it. */
  lemma BodyScan(s: string, body: string)
    requires |s| >= 4 + |body| && s[2..2 + |body|] == body
    requires s[2 + |body|] == '*' && s[3 + |body|] == '/'
    requires forall k :: 0 <= k < |body| ==> !IsLineTerminator(body[k])
    requires forall i :: 0 <= i < |body| - 1 ==> !(body[i] == '*' && body[i + 1] == '/')
    ensures CommentClose(s, 2) == Some(4 + |body|)
  {
    var e := 2 + |body|;
    forall k | 2 <= k < e ensures !IsLineTerminator(s[k]) && !(s[k] == '*' && s[k + 1] == '/') {
      assert s[k] == body[k - 2];
      if k + 1 < e {
        assert s[k + 1] == body[k - 1];
      }
    }
    CommentCloseAt(s, 2, e);
  }

  /** Where the parts of a written block comment sit. */
  lemma BlockLayout(s: string, body: string, b: string)
    requires s == "/*" + (body + ("*/" + b))
    ensures |s| >= 4 + |body| && s[2..2 + |body|] == body
    ensures s[2 + |body|] == '*' && s[3 + |body|] == '/'
    ensures "/*" <= s && s[4 + |body|..] == b
  {
    assert s[2..] == body + ("*/" + b);
  }

  /** A block comment that opens the text and closes at `e` is removed. */
  lemma BlockStep(s: string, e: nat)
    requires "/*" <= s && CommentClose(s, 2) == Some(e)
    ensures StripBlockComments(s) == StripBlockComments(s[e..])
  {
  }

  /** A block comment that closes on its own line is removed. */
  lemma BlockCommentRemoved(body: string, b: string)
    requires forall k :: 0 <= k < |body| ==> !IsLineTerminator(body[k])
    requires !Contains(body, "*/")
    ensures StripBlockComments("/*" + (body + ("*/" + b))) == StripBlockComments(b)
  {
    var s := "/*" + (body + ("*/" + b));
    PairAbsent(body, "*/");
    BlockLayout(s, body, b);
    BodyScan(s, body);
    BlockStep(s, 4 + |body|);
  }

  /** Everything outside a one-line block comment survives: the text before
      it and, stripped in turn, the text after. */
  lemma BlockCommentDropped(a: string, body: string, b: string)
    requires !Contains(a, "/*")
    requires forall k :: 0 <= k < |body| ==> !IsLineTerminator(body[k])
    requires !Contains(body, "*/")
    ensures StripBlockComments(a + ("/*" + (body + ("*/" + b)))) == a + StripBlockComments(b)
  {
    var t := "/*" + (body + ("*/" + b));
    assert t[0] == '/';
    StripBlockKeepsPrefix(a, t);
    BlockCommentRemoved(body, b);
  }

  /** The character a whitespace-collapsing pass emits for `c`. */
  function SpaceFor(c: char): char {
    if IsSpace(c) then ' ' else c
  }

  /** The whitespace-collapsing step: a whitespace character followed by
      another is dropped, any other character is emitted as `SpaceFor`. */
  ghost predicate CollapsesLike(collapse: string -> string) {
    collapse([]) == []
    && forall c, y :: collapse([c] + y) ==
         if IsSpace(c) && y != [] && IsSpace(y[0]) then collapse(y) else [SpaceFor(c)] + collapse(y)
  }

  /** One step of CollapseLikeAppend: the first character of the first piece
      sees the same neighbour with or without the second piece. */
  lemma CollapseLikeStep(collapse: string -> string, a: string, t: string)
    requires CollapsesLike(collapse) && a != []
    requires |a| == 1 ==> !IsSpace(a[0])
    requires collapse(a[1..] + t) == collapse(a[1..]) + collapse(t)
    ensures collapse(a + t) == collapse(a) + collapse(t)
  {
    var y := a[1..];
    assert a == [a[0]] + y;
    assert a + t == [a[0]] + (y + t);
    if y != [] {
      assert (y + t)[0] == y[0];
    }
  }

  /** A pass `collapse` that drops a whitespace character followed by another
      and otherwise emits one character works piece by piece when the first
      piece does not end in whitespace. */
  lemma {:induction false} CollapseLikeAppend(collapse: string -> string, a: string, t: string)
    requires CollapsesLike(collapse)
    requires a == [] || !IsSpace(a[|a| - 1])
    ensures collapse(a + t) == collapse(a) + collapse(t)
    decreases |a|
  {
    if a == [] {
      assert a + t == t;
    } else {
      if |a| > 1 {
        assert a[1..][|a| - 2] == a[|a| - 1];
      }
      CollapseLikeAppend(collapse, a[1..], t);
      CollapseLikeStep(collapse, a, t);
    }
  }

  /** Collapsing works piece by piece when the first piece does not end in
      whitespace. */
  lemma CollapseAppend(a: string, t: string)
    requires a == [] || !IsSpace(a[|a| - 1])
    ensures CollapseSpaces(a + t) == CollapseSpaces(a) + CollapseSpaces(t)
  {
    forall c, y
      ensures CollapseSpaces([c] + y) ==
                if IsSpace(c) && y != [] && IsSpace(y[0]) then CollapseSpaces(y) else [SpaceFor(c)] + CollapseSpaces(y)
    {
      var x := [c] + y;
      assert x[0] == c && x[1..] == y;
      if y != [] {
        assert x[1] == y[0];
      }
    }
    assert CollapsesLike(CollapseSpaces);
    CollapseLikeAppend(CollapseSpaces, a, t);
  }

  /** A whitespace run followed by a non-space becomes one space. */
  lemma {:induction false} CollapseRun(w: string, b: string)
    requires w != [] && forall k :: 0 <= k < |w| ==> IsSpace(w[k])
    requires b == [] || !IsSpace(b[0])
    ensures CollapseSpaces(w + b) == " " + CollapseSpaces(b)
    decreases |w|
  {
    var s := w + b;
    assert s[1..] == w[1..] + b;
    assert s[0] == w[0];
    if |w| >= 2 {
      assert s[1] == w[1];
      CollapseRun(w[1..], b);
    } else if b != [] {
      assert s[1] == b[0];
    }
  }

  /** Each maximal whitespace run becomes exactly one space, and the text on
      either side is collapsed on its own. */
  lemma CollapseAround(a: string, w: string, b: string)
    requires a == [] || !IsSpace(a[|a| - 1])
    requires w != [] && forall k :: 0 <= k < |w| ==> IsSpace(w[k])
    requires b == [] || !IsSpace(b[0])
    ensures CollapseSpaces(a + (w + b)) == CollapseSpaces(a) + (" " + CollapseSpaces(b))
  {
    CollapseAppend(a, w + b);
    CollapseRun(w, b);
  }

  /** Text already in normal form comes back unchanged: no comment markers,
      single spaces, and no whitespace at either end. */
  lemma NormalizedUnchanged(s: string)
    requires !Contains(s, "--") && !Contains(s, "/*") && SingleSpaced(s)
    requires s != [] ==> !IsWhitespace(s[0]) && !IsWhitespace(s[|s| - 1])
    ensures Normalize(s) == s
  {
    CollapseSingleSpaced(s);
    TrimUntouched(s);
  }

  /** A two-character marker that ends in a non-space is not created by
      appending a space. */
  lemma PairAbsentBeforeSpace(s: string, p: string)
    requires |p| == 2 && p[1] != ' ' && !Contains(s, p)
    ensures !Contains(s + " ", p)
  {
    var t := s + " ";
    PairAbsent(s, p);
    forall i | 0 <= i < |t| - 1 ensures !(t[i] == p[0] && t[i + 1] == p[1]) {
      assert t[i] == s[i];
      if i + 1 < |s| {
        assert t[i + 1] == s[i + 1];
      } else {
        assert t[i + 1] == ' ';
      }
    }
    NotContainsPair(t, p);
  }

  /** Single-spaced text that does not end in whitespace keeps one trailing
      space through the collapsing step. */
  lemma CollapseTrailingSpace(x: string)
    requires SingleSpaced(x) && (x == [] || !IsSpace(x[|x| - 1]))
    ensures CollapseSpaces(x + " ") == x + " "
  {
    CollapseSingleSpaced(x);
    CollapseAppend(x, " ");
    assert CollapseSpaces(" ") == " ";
  }

  /** The normalizing stages, one after another. */
  lemma NormalizeStages(s: string, s1: string, s2: string, s3: string)
    requires s1 == StripLineComments(s) && s2 == StripBlockComments(s1) && s3 == CollapseSpaces(s2)
    ensures Normalize(s) == Trim(s3)
  {
  }

  /** A trailing line comment after normalized text is removed together with
      the space before it. */
  lemma TrailingCommentDropped(x: string, body: string)
    requires !Contains(x, "--") && !Contains(x, "/*") && SingleSpaced(x)
    requires x != [] ==> !IsWhitespace(x[0]) && !IsWhitespace(x[|x| - 1])
    requires forall k :: 0 <= k < |body| ==> body[k] != '\n'
    ensures Normalize(x + (" " + ("--" + body))) == x
  {
    var a := x + " ";
    assert x + (" " + ("--" + body)) == a + ("--" + body);
    PairAbsentBeforeSpace(x, "--");
    PairAbsentBeforeSpace(x, "/*");
    LineCommentAtEnd(a, body);
    CollapseTrailingSpace(x);
    TrimTrailingSpace(x);
    NormalizeStages(a + ("--" + body), a, a, a);
  }

  /** Collapsing whitespace cannot create a two-character token that contains
      no whitespace. */
  lemma {:induction false} CollapseKeepsPairAbsent(s: string, p: string)
    requires |p| == 2 && !IsSpace(p[0]) && !IsSpace(p[1])
    requires !Contains(s, p)
    ensures !Contains(CollapseSpaces(s), p)
    decreases |s|
  {
    if s != [] {
      CollapseKeepsPairAbsent(s[1..], p);
      if !(IsSpace(s[0]) && |s| > 1 && IsSpace(s[1])) {
        var r := CollapseSpaces(s);
        var rest := CollapseSpaces(s[1..]);
        assert r[1..] == rest;
      }
    }
  }

  lemma {:induction false} CollapseSingleSpaced(s: string)
    requires SingleSpaced(s)
    ensures CollapseSpaces(s) == s
    decreases |s|
  {
    if s != [] {
      SingleSpacedSlice(s, 1, |s|);
      CollapseSingleSpaced(s[1..]);
    }
  }

  lemma ContainsInTrim(s: string, p: string)
    requires Contains(Trim(s), p)
    ensures Contains(s, p)
  {
    var a := TrimStart(s);
    var t := TrimEnd(a);
    assert t == Trim(s) && t == a[0..|t|];
    ContainsInSlice(a, 0, |t|, p);
    var d := |s| - |a|;
    assert a == s[d..|s|];
    ContainsInSlice(s, d, |s|, p);
  }

  /** Collapsing and trimming cannot create a two-character token that
      contains no whitespace. */
  lemma TrimCollapseKeepsPairAbsent(s: string, p: string)
    requires |p| == 2 && !IsSpace(p[0]) && !IsSpace(p[1])
    requires !Contains(s, p)
    ensures !Contains(Trim(CollapseSpaces(s)), p)
  {
    CollapseKeepsPairAbsent(s, p);
    if Contains(Trim(CollapseSpaces(s)), p) {
      ContainsInTrim(CollapseSpaces(s), p);
    }
  }

  lemma MarkersHaveNoSpace()
    ensures |"--"| == 2 && !IsSpace("--"[0]) && !IsSpace("--"[1])
    ensures |"/*"| == 2 && !IsSpace("/*"[0]) && !IsSpace("/*"[1])
    ensures !IsWhitespace('-')
  {
  }

  /** Text without regex whitespace is left alone by the collapsing step. */
  lemma {:induction false} CollapseWithoutSpace(s: string)
    requires forall k :: 0 <= k < |s| ==> !IsSpace(s[k])
    ensures CollapseSpaces(s) == s
    decreases |s|
  {
    if s != [] {
      CollapseWithoutSpace(s[1..]);
    }
  }

  /** On text with no comment markers, normalizing twice is normalizing once. */
  lemma NormalizeIdempotent(sql: string)
    requires !Contains(sql, "--") && !Contains(sql, "/*")
    ensures Normalize(Normalize(sql)) == Normalize(sql)
  {
    var t := Normalize(sql);
    assert t == Trim(CollapseSpaces(sql));
    MarkersHaveNoSpace();
    TrimCollapseKeepsPairAbsent(sql, "--");
    TrimCollapseKeepsPairAbsent(sql, "/*");
    CollapseSingleSpaced(t);
    TrimUntouched(t);
  }

  /** Text without dashes and stars holds no comment marker. */
  lemma NoMarkerCharacters(x: string)
    requires '-' !in x && '*' !in x
    ensures !Contains(x, "--") && !Contains(x, "/*")
  {
    NotContainsMissing(x, "--", 0);
    NotContainsMissing(x, "/*", 1);
  }

  lemma IntTableMarkerFree(x: string)
    requires x == "CREATE TABLE t (a INT)"
    ensures !Contains(x, "--") && !Contains(x, "/*")
  {
    assert forall i :: 0 <= i < |x| ==> x[i] != '-' && x[i] != '*';
    NoMarkerCharacters(x);
  }

  lemma IntTableSpaced(x: string)
    requires x == "CREATE TABLE t (a INT)"
    ensures SingleSpaced(x) && !IsWhitespace(x[0]) && !IsWhitespace(x[|x| - 1])
  {
  }

  lemma KeywordCommentLayout(s: string)
    requires s == "CRE/**/ATE TABLE t (a INT)"
    ensures s == "CRE" + ("/*" + ("*/" + "ATE TABLE t (a INT)"))
  {
  }

  lemma KeywordHalvesJoined(a: string, b: string)
    requires a == "CRE" && b == "ATE TABLE t (a INT)"
    ensures a + b == "CREATE TABLE t (a INT)"
  {
  }

  /** An empty block comment inside CREATE is removed and the keyword
      joined. */
  lemma CommentInsideKeyword(s: string)
    requires s == "CRE/**/ATE TABLE t (a INT)"
    ensures Normalize(s) == "CREATE TABLE t (a INT)"
  {
    KeywordCommentLayout(s);
    KeywordHalvesJoined("CRE", "ATE TABLE t (a INT)");
    IntTableMarkerFree("CREATE TABLE t (a INT)");
    IntTableSpaced("CREATE TABLE t (a INT)");
    EmptyCommentJoins("CRE", "ATE TABLE t (a INT)");
  }

  lemma KeyTableMarkerFree(y: string)
    requires y == "CREATE TABLE t (PRIMARY KEY (id))"
    ensures !Contains(y, "--") && !Contains(y, "/*")
  {
    assert forall i :: 0 <= i < |y| ==> y[i] != '-' && y[i] != '*';
    NoMarkerCharacters(y);
  }

  /** Gluing two single-spaced texts keeps them single-spaced unless the
      first ends and the second starts in `\s`. */
  lemma SpacedConcat(a: string, b: string)
    requires SingleSpaced(a) && SingleSpaced(b)
    requires a == [] || b == [] || !IsSpace(a[|a| - 1]) || !IsSpace(b[0])
    ensures SingleSpaced(a + b)
  {
    var s := a + b;
    forall i | 0 <= i < |s| && IsSpace(s[i])
      ensures s[i] == ' ' && (i + 1 < |s| ==> !IsSpace(s[i + 1]))
    {
      if i < |a| {
        assert s[i] == a[i];
        if i + 1 < |a| {
          assert s[i + 1] == a[i + 1];
        }
      } else {
        assert s[i] == b[i - |a|];
        if i + 1 < |s| {
          assert s[i + 1] == b[i + 1 - |a|];
        }
      }
    }
  }

  /** A column as `name type` followed by further text, each part
      single-spaced: the whole is single-spaced. */
  lemma SpacedColumn(name: string, fieldType: string, mid: string, more: string)
    requires SingleSpaced(name) && SingleSpaced(fieldType) && SingleSpaced(mid) && SingleSpaced(more)
    requires name != [] && !IsSpace(name[|name| - 1])
    requires fieldType != [] && !IsSpace(fieldType[0]) && !IsSpace(fieldType[|fieldType| - 1])
    requires more != [] && !IsSpace(more[0])
    ensures SingleSpaced(name + (" " + (fieldType + (mid + more))))
  {
    SpacedConcat(mid, more);
    SpacedConcat(fieldType, mid + more);
    assert (fieldType + (mid + more))[0] == fieldType[0];
    SpacedConcat(" ", fieldType + (mid + more));
    SpacedConcat(name, " " + (fieldType + (mid + more)));
  }

  /** Two single-spaced texts joined by a comma and one space. */
  lemma SpacedAfterComma(x: string, y: string)
    requires SingleSpaced(x) && SingleSpaced(y) && y != [] && !IsSpace(y[0])
    ensures SingleSpaced(x + ("," + (" " + y)))
  {
    SpacedConcat(" ", y);
    SpacedConcat(",", " " + y);
    SpacedConcat(x, "," + (" " + y));
  }

  /** A single-spaced text in parentheses between two single-spaced texts. */
  lemma SpacedEnclosed(head: string, body: string, tail: string)
    requires SingleSpaced(head) && SingleSpaced(body) && SingleSpaced(tail)
    ensures SingleSpaced(head + ("(" + (body + (")" + tail))))
  {
    SpacedConcat(")", tail);
    SpacedConcat(body, ")" + tail);
    SpacedConcat("(", body + (")" + tail));
    SpacedConcat(head, "(" + (body + (")" + tail)));
  }

  lemma KeyTableHeadSpaced(a: string)
    requires a == "CREATE TABLE t ("
    ensures SingleSpaced(a) && !IsSpace(a[|a| - 1])
  {
  }

  lemma KeyTableClauseSpaced(b: string)
    requires b == "PRIMARY KEY (id))"
    ensures SingleSpaced(b)
  {
  }

  lemma KeyTableSpaced(y: string)
    requires y == "CREATE TABLE t (PRIMARY KEY (id))"
    ensures SingleSpaced(y) && !IsWhitespace(y[0]) && !IsWhitespace(y[|y| - 1])
  {
    var a, b := "CREATE TABLE t (", "PRIMARY KEY (id))";
    assert y == a + b;
    KeyTableHeadSpaced(a);
    KeyTableClauseSpaced(b);
    SpacedConcat(a, b);
  }

  /** `CREATE TABLE t (PRIMARY KEY (id))` is already in normal form. */
  lemma KeyTableNormal(y: string)
    requires y == "CREATE TABLE t (PRIMARY KEY (id))"
    ensures Normalize(y) == y
  {
    KeyTableMarkerFree(y);
    KeyTableSpaced(y);
    NormalizedUnchanged(y);
  }

  lemma ExampleHasNoLineComment()
    ensures StripLineComments("-/**/-") == "-/**/-"
  {
    NotContainsPair("-/**/-", "--");
  }

  lemma ExampleCommentRemoved()
    ensures StripBlockComments("-/**/-") == "--"
  {
    var s := "-/**/-";
    assert CommentClose(s[1..], 2) == Some(4);
    assert StripBlockComments(s[1..]) == "-";
  }

  lemma DashesKept()
    ensures Trim(CollapseSpaces("--")) == "--"
  {
    MarkersHaveNoSpace();
    CollapseWithoutSpace("--");
    TrimUntouched("--");
  }

  /** Removing a block comment can join two dashes into a line-comment marker. */
  lemma CommentJoinsDashes()
    ensures Normalize("-/**/-") == "--"
  {
    ExampleHasNoLineComment();
    ExampleCommentRemoved();
    DashesKept();
  }

  /** Putting an empty block comment between two texts adds no `--`. */
  lemma EmptyCommentAddsNoDashes(a: string, b: string)
    requires !Contains(a + b, "--")
    ensures !Contains(a + ("/*" + ("*/" + b)), "--")
  {
    var x := a + b;
    var s := a + ("/*" + ("*/" + b));
    PairAbsent(x, "--");
    var c := "/*" + ("*/" + b);
    assert s[|a|..] == c && c[..4] == "/**/";
    assert s[|a|] == '/' && s[|a| + 1] == '*' && s[|a| + 2] == '*' && s[|a| + 3] == '/';
    forall i | 0 <= i < |s| - 1 ensures !(s[i] == '-' && s[i + 1] == '-') {
      if i + 1 < |a| {
        assert s[i] == x[i] && s[i + 1] == x[i + 1];
      } else if i >= |a| + 4 {
        assert s[i] == x[i - 4] && s[i + 1] == x[i - 3];
      } else if i == |a| + 3 {
        assert s[i] == '/';
      } else {
        assert |a| <= i + 1 <= |a| + 3;
      }
    }
    NotContainsPair(s, "--");
  }

  /** The parts of a text without a marker have none either. */
  lemma MarkerAbsentFromParts(a: string, b: string, m: string)
    requires !Contains(a + b, m)
    ensures !Contains(a, m) && !Contains(b, m)
  {
    var x := a + b;
    assert x[0..|a|] == a && x[|a|..|x|] == b;
    if Contains(a, m) {
      ContainsInSlice(x, 0, |a|, m);
    }
    if Contains(b, m) {
      ContainsInSlice(x, |a|, |x|, m);
    }
  }

  lemma EmptyCommentKeepsDashFree(a: string, b: string, s: string)
    requires !Contains(a + b, "--") && s == a + ("/*" + ("*/" + b))
    ensures StripLineComments(s) == s
  {
    EmptyCommentAddsNoDashes(a, b);
  }

  lemma EmptyCommentRemoved(a: string, b: string, s: string)
    requires !Contains(a, "/*") && !Contains(b, "/*") && s == a + ("/*" + ("*/" + b))
    ensures StripBlockComments(s) == a + b
  {
    assert s == a + ("/*" + ("" + ("*/" + b)));
    BlockCommentDropped(a, "", b);
  }

  /** Comments go before anything else is read, so an empty block comment
      between two texts that are in normal form together joins them: for
      instance `CRE/**/ATE` becomes `CREATE`. */
  lemma EmptyCommentJoins(a: string, b: string)
    requires !Contains(a + b, "--") && !Contains(a + b, "/*") && SingleSpaced(a + b)
    requires a + b != [] ==> !IsWhitespace((a + b)[0]) && !IsWhitespace((a + b)[|a + b| - 1])
    ensures Normalize(a + ("/*" + ("*/" + b))) == a + b
  {
    var x := a + b;
    var s := a + ("/*" + ("*/" + b));
    MarkerAbsentFromParts(a, b, "/*");
    EmptyCommentKeepsDashFree(a, b, s);
    EmptyCommentRemoved(a, b, s);
    CollapseSingleSpaced(x);
    TrimUntouched(x);
    NormalizeStages(s, s, x, x);
  }

  lemma LineCommentOnly()
    ensures StripLineComments("--") == []
  {
    var s := "--";
    assert "--" <= s;
    RunIs(s, c => c != '\n', 2);
    assert s[2..] == [];
  }

  /** A bare line-comment marker normalizes to nothing. */
  lemma DashesVanish()
    ensures Normalize("--") == []
  {
    LineCommentOnly();
    assert StripBlockComments([]) == [];
    assert CollapseSpaces([]) == [];
  }

  /** Without the precondition of NormalizeIdempotent, normalizing is not
      idempotent. */
  lemma NormalizeNotIdempotent()
    ensures Normalize(Normalize("-/**/-")) != Normalize("-/**/-")
  {
    CommentJoinsDashes();
    DashesVanish();
  }

  /** A block comment that spans a line break is kept. */
  lemma MultiLineCommentKept()
    ensures StripBlockComments("/*a\nb*/") == "/*a\nb*/"
  {
    var s := "/*a\nb*/";
    assert CommentClose(s, 2) == None;
    NotContainsPair(s[1..], "/*");
  }
}
