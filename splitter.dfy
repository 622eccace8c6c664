/** The table body and its comma split, the first half of `extractFields`
    (DDLSqlParser.kt lines 54-62).

    The body is group 1 of `\((.*)\)` with DOTALL, found with `find()`: the
    match starts at the first `(` of the whole text and the greedy `.*` runs to
    the last `)`. The body is then split with `,(?![^()]*\))`: a comma is a
    split point unless the first parenthesis after it is a closing one. */
module Splitter {
  import opened Wrappers
  import opened Text

  /** Index of the first occurrence of `c`. */
  function FirstIndex(s: string, c: char): (r: Option<nat>)
    ensures r.Some? ==> r.value < |s| && s[r.value] == c && forall k :: 0 <= k < r.value ==> s[k] != c
    ensures r.None? ==> forall k :: 0 <= k < |s| ==> s[k] != c
    decreases |s|
  {
    if s == [] then None
    else if s[0] == c then Some(0)
    else match FirstIndex(s[1..], c)
      case None => None
      case Some(i) => Some(i + 1)
  }

  /** Index of the last occurrence of `c`. */
  function LastIndex(s: string, c: char): (r: Option<nat>)
    ensures r.Some? ==> r.value < |s| && s[r.value] == c && forall k :: r.value < k < |s| ==> s[k] != c
    ensures r.None? ==> forall k :: 0 <= k < |s| ==> s[k] != c
    decreases |s|
  {
    if s == [] then None
    else if s[|s| - 1] == c then Some(|s| - 1)
    else LastIndex(s[..|s| - 1], c)
  }

  /** Group 1 of `\((.*)\)` (DOTALL) found in `sql`, or None when the pattern
      does not occur. */
  function ExtractBody(sql: string): (r: Option<string>)
  {
    match FirstIndex(sql, '(')
    case None => None
    case Some(i) =>
      match LastIndex(sql, ')')
      case None => None
      case Some(j) => if i < j then Some(sql[i + 1..j]) else None
  }

  /** The body exists exactly when some `(` comes before some `)`, and then it
      is the text strictly between the first `(` and the last `)`. */
  lemma BodyBetweenFirstAndLast(sql: string)
    ensures ExtractBody(sql).Some? <==>
              exists i, j :: 0 <= i < j < |sql| && sql[i] == '(' && sql[j] == ')'
    ensures ExtractBody(sql).Some? ==>
              exists i, j :: 0 <= i < j < |sql| && sql[i] == '(' && sql[j] == ')'
                && (forall k :: 0 <= k < i ==> sql[k] != '(')
                && (forall k :: j < k < |sql| ==> sql[k] != ')')
                && ExtractBody(sql).value == sql[i + 1..j]
  {
    var fi, lj := FirstIndex(sql, '('), LastIndex(sql, ')');
    if ExtractBody(sql).None? {
      forall i, j | 0 <= i < j < |sql| && sql[i] == '(' ensures sql[j] != ')' {
        assert fi.Some? && fi.value <= i;
        assert lj.Some? ==> lj.value < j;
      }
    }
  }

  /** A statement that ends with its body in parentheses, after a header
      without `(`, gives that body back, whatever parentheses it holds. */
  lemma BodyAfterHeader(head: string, body: string)
    requires '(' !in head
    ensures ExtractBody(head + ("(" + (body + ")"))) == Some(body)
  {
    var sql := head + ("(" + (body + ")"));
    var i := |head|;
    assert sql[i] == '(';
    forall k | 0 <= k < i ensures sql[k] != '(' {
      assert sql[k] == head[k];
    }
    assert FirstIndex(sql, '(') == Some(i);
    assert LastIndex(sql, ')') == Some(|sql| - 1);
    assert sql[i + 1..|sql| - 1] == body;
  }

  /** The same with text after the body that holds no `)`, such as a
      table option. */
  lemma BodyBeforeTail(head: string, body: string, tail: string)
    requires '(' !in head && ')' !in tail
    ensures ExtractBody(head + ("(" + (body + (")" + tail)))) == Some(body)
  {
    var sql := head + ("(" + (body + (")" + tail)));
    var i, j := |head|, |head| + 1 + |body|;
    assert sql[i] == '(' && sql[j] == ')';
    forall k | 0 <= k < i ensures sql[k] != '(' {
      assert sql[k] == head[k];
    }
    forall k | j < k < |sql| ensures sql[k] != ')' {
      assert sql[k] == tail[k - j - 1];
    }
    assert FirstIndex(sql, '(') == Some(i);
    assert LastIndex(sql, ')') == Some(j);
    assert sql[i + 1..j] == body;
  }

  lemma IntTableLayout(x: string)
    requires x == "CREATE TABLE t (a INT)"
    ensures x == "CREATE TABLE t " + ("(" + ("a INT" + ")"))
  {
  }

  /** The body of `CREATE TABLE t (a INT)` is the one piece `a INT`. */
  lemma IntTableBody(x: string)
    requires x == "CREATE TABLE t (a INT)"
    ensures ExtractBody(x) == Some("a INT")
    ensures SplitDefinitions("a INT") == ["a INT"]
  {
    IntTableLayout(x);
    BodyAfterHeader("CREATE TABLE t ", "a INT");
    NoCommaOnePiece("a INT");
  }

  lemma KeyTableLayout(y: string)
    requires y == "CREATE TABLE t (PRIMARY KEY (id))"
    ensures y == "CREATE TABLE t " + ("(" + ("PRIMARY KEY (id)" + ")"))
  {
  }

  /** The body of `CREATE TABLE t (PRIMARY KEY (id))` is one piece: its
      comma-free key clause. */
  lemma KeyTableBody(y: string)
    requires y == "CREATE TABLE t (PRIMARY KEY (id))"
    ensures ExtractBody(y) == Some("PRIMARY KEY (id)")
    ensures SplitDefinitions("PRIMARY KEY (id)") == ["PRIMARY KEY (id)"]
  {
    KeyTableLayout(y);
    BodyAfterHeader("CREATE TABLE t ", "PRIMARY KEY (id)");
    NoCommaOnePiece("PRIMARY KEY (id)");
  }

  /** The lookahead `[^()]*\)`: the first parenthesis in `t` is a closing one. */
  predicate ClosesFirst(t: string)
    decreases |t|
  {
    t != [] && (t[0] == ')' || (t[0] != '(' && ClosesFirst(t[1..])))
  }

  /** `ClosesFirst` is the regular expression `[^()]*\)` matched at the start. */
  lemma {:induction false} ClosesFirstMeaning(t: string)
    ensures ClosesFirst(t) <==>
              exists m :: 0 <= m < |t| && t[m] == ')' && forall k :: 0 <= k < m ==> t[k] != '(' && t[k] != ')'
    decreases |t|
  {
    if t != [] {
      ClosesFirstMeaning(t[1..]);
      if t[0] != ')' && t[0] != '(' {
        if ClosesFirst(t[1..]) {
          var m :| 0 <= m < |t| - 1 && t[1..][m] == ')'
                   && forall k :: 0 <= k < m ==> t[1..][k] != '(' && t[1..][k] != ')';
          assert t[m + 1] == ')';
        } else {
          forall m | 0 <= m < |t| && t[m] == ')' ensures exists k :: 0 <= k < m && (t[k] == '(' || t[k] == ')') {
            assert m > 0;
            assert exists k :: 0 <= k < m - 1 && (t[1..][k] == '(' || t[1..][k] == ')');
            var k :| 0 <= k < m - 1 && (t[1..][k] == '(' || t[1..][k] == ')');
            assert t[k + 1] == t[1..][k];
          }
        }
      }
    }
  }

  /** A comma the split pattern `,(?![^()]*\))` matches. */
  predicate IsSplitComma(b: string, k: nat)
    requires k < |b|
  {
    b[k] == ',' && !ClosesFirst(b[k + 1..])
  }

  /** The lookahead only reads forward, so dropping a prefix keeps the split
      points of what remains. */
  lemma SplitCommaShift(b: string, d: nat, k: nat)
    requires d + k < |b|
    ensures IsSplitComma(b[d..], k) <==> IsSplitComma(b, d + k)
  {
    assert b[d..][k + 1..] == b[d + k + 1..];
  }

  /** The first split comma at or after `from`. */
  function FirstSplit(b: string, from: nat): (r: Option<nat>)
    requires from <= |b|
    ensures r.Some? ==> from <= r.value < |b| && IsSplitComma(b, r.value)
    ensures forall k :: from <= k < |b| && (r.None? || k < r.value) ==> !IsSplitComma(b, k)
    decreases |b| - from
  {
    if from == |b| then None
    else if IsSplitComma(b, from) then Some(from)
    else FirstSplit(b, from + 1)
  }

  /** Number of split commas at or after `from`. */
  function SplitCount(b: string, from: nat): nat
    requires from <= |b|
    decreases |b| - from
  {
    if from == |b| then 0
    else (if IsSplitComma(b, from) then 1 else 0) + SplitCount(b, from + 1)
  }

  lemma {:induction false} SplitCountShift(b: string, d: nat, m: nat)
    requires d + m <= |b|
    ensures SplitCount(b[d..], m) == SplitCount(b, d + m)
    decreases |b| - d - m
  {
    if d + m < |b| {
      SplitCommaShift(b, d, m);
      SplitCountShift(b, d, m + 1);
    }
  }

  lemma {:induction false} SplitCountSkip(b: string, from: nat, k: nat)
    requires from <= k <= |b|
    requires forall m :: from <= m < k ==> !IsSplitComma(b, m)
    ensures SplitCount(b, from) == SplitCount(b, k)
    decreases k - from
  {
    if from < k {
      SplitCountSkip(b, from + 1, k);
    }
  }

  /** Where piece `i` starts once the pieces are joined with commas. */
  function Offset(pieces: seq<string>, i: nat): nat
    requires i <= |pieces|
    decreases i
  {
    if i == 0 then 0 else |pieces[0]| + 1 + Offset(pieces[1..], i - 1)
  }

  /** Piece `i` sits at `Offset(pieces, i)` in the joined text. */
  lemma {:induction false} OffsetInJoin(pieces: seq<string>, i: nat)
    requires i < |pieces|
    ensures Offset(pieces, i) + |pieces[i]| <= |Join(pieces, ",")|
    ensures i + 1 < |pieces| ==> Offset(pieces, i) + |pieces[i]| < |Join(pieces, ",")|
    ensures Join(pieces, ",")[Offset(pieces, i)..Offset(pieces, i) + |pieces[i]|] == pieces[i]
    ensures i + 1 < |pieces| ==> Join(pieces, ",")[Offset(pieces, i) + |pieces[i]|] == ','
    decreases i
  {
    var j := Join(pieces, ",");
    if |pieces| > 1 {
      assert j == pieces[0] + "," + Join(pieces[1..], ",");
      if i > 0 {
        OffsetInJoin(pieces[1..], i - 1);
        var o := Offset(pieces[1..], i - 1);
        assert j[|pieces[0]| + 1..] == Join(pieces[1..], ",");
        assert j[Offset(pieces, i)..Offset(pieces, i) + |pieces[i]|]
            == Join(pieces[1..], ",")[o..o + |pieces[i]|];
      }
    }
  }

  /** Text without parentheses and then `(`: the lookahead fails. */
  lemma {:induction false} OpensFirst(w: string, v: string)
    requires '(' !in w && ')' !in w
    ensures !ClosesFirst(w + ("(" + v))
    decreases |w|
  {
    if w != [] {
      assert (w + ("(" + v))[1..] == w[1..] + ("(" + v);
      OpensFirst(w[1..], v);
    }
  }

  /** Text without parentheses and then `)`: the lookahead succeeds. */
  lemma {:induction false} ClosesAfter(w: string, v: string)
    requires '(' !in w && ')' !in w
    ensures ClosesFirst(w + (")" + v))
    decreases |w|
  {
    if w != [] {
      assert (w + (")" + v))[1..] == w[1..] + (")" + v);
      ClosesAfter(w[1..], v);
    }
  }

  /** `tableContent.split(",(?![^()]*\\))".toRegex())`, with Kotlin's
      behaviour of keeping empty pieces, trailing ones included. */
  function SplitDefinitions(b: string): (r: seq<string>)
    ensures |r| == SplitCount(b, 0) + 1
    ensures Join(r, ",") == b
    decreases |b|
  {
    match FirstSplit(b, 0)
    case None =>
      SplitCountSkip(b, 0, |b|);
      [b]
    case Some(k) =>
      var rest := SplitDefinitions(b[k + 1..]);
      var r := [b[..k]] + rest;
      assert r[1..] == rest;
      SplitCountSkip(b, 0, k);
      SplitCountShift(b, k + 1, 0);
      assert b == b[..k] + "," + b[k + 1..];
      r
  }

  /** A body without commas is one piece. */
  lemma NoCommaOnePiece(b: string)
    requires ',' !in b
    ensures SplitDefinitions(b) == [b]
  {
  }

  lemma CutAfterFirstPiece(b: string, k: nat, rest: seq<string>, i: nat)
    requires k < |b| && IsSplitComma(b, k) && 0 < i <= |rest|
    requires i > 1 ==> Offset(rest, i - 1) - 1 < |b| - (k + 1) && IsSplitComma(b[k + 1..], Offset(rest, i - 1) - 1)
    ensures 0 < Offset([b[..k]] + rest, i)
    ensures Offset([b[..k]] + rest, i) - 1 < |b| && IsSplitComma(b, Offset([b[..k]] + rest, i) - 1)
  {
    var r := [b[..k]] + rest;
    assert r[1..] == rest;
    assert Offset(r, i) == k + 1 + Offset(rest, i - 1);
    if i > 1 {
      SplitCommaShift(b, k + 1, Offset(rest, i - 1) - 1);
    }
  }

  /** More than one piece means a split comma, and the first piece ends there. */
  lemma SplitFirstPiece(b: string)
    requires 1 < |SplitDefinitions(b)|
    ensures FirstSplit(b, 0).Some?
    ensures SplitDefinitions(b) == [b[..FirstSplit(b, 0).value]] + SplitDefinitions(b[FirstSplit(b, 0).value + 1..])
  {
  }

  /** The cut before piece `i` is a split comma once the cut before piece
      `i - 1` of the rest, past the first split comma, is one. */
  lemma CutFromRest(b: string, i: nat)
    requires 0 < i < |SplitDefinitions(b)|
    requires i > 1 ==>
               var k := FirstSplit(b, 0).value;
               var t := b[k + 1..];
               Offset(SplitDefinitions(t), i - 1) - 1 < |t| && IsSplitComma(t, Offset(SplitDefinitions(t), i - 1) - 1)
    ensures Offset(SplitDefinitions(b), i) - 1 < |b|
    ensures IsSplitComma(b, Offset(SplitDefinitions(b), i) - 1)
  {
    var k := FirstSplit(b, 0).value;
    var t := b[k + 1..];
    var rest := SplitDefinitions(t);
    var r := [b[..k]] + rest;
    SplitFirstPiece(b);
    CutAfterFirstPiece(b, k, rest, i);
    CutOfEqualPieces(b, SplitDefinitions(b), r, i);
  }

  /** Equal piece lists cut at the same place. */
  lemma CutOfEqualPieces(b: string, p: seq<string>, q: seq<string>, i: nat)
    requires p == q && i <= |q|
    requires 0 < Offset(q, i) && Offset(q, i) - 1 < |b| && IsSplitComma(b, Offset(q, i) - 1)
    ensures Offset(p, i) - 1 < |b| && IsSplitComma(b, Offset(p, i) - 1)
  {
  }

  /** The pieces are cut exactly at the split commas: every cut is one, and
      there are as many cuts as split commas. */
  lemma {:induction false} SplitCutsAtSplitCommas(b: string, i: nat)
    requires 0 < i < |SplitDefinitions(b)|
    ensures Offset(SplitDefinitions(b), i) - 1 < |b|
    ensures IsSplitComma(b, Offset(SplitDefinitions(b), i) - 1)
    decreases |b|
  {
    if i > 1 {
      var k := FirstSplit(b, 0).value;
      SplitCutsAtSplitCommas(b[k + 1..], i - 1);
    }
    CutFromRest(b, i);
  }

  lemma PieceInJoin(pieces: seq<string>, b: string, i: nat)
    requires i < |pieces| && Join(pieces, ",") == b
    ensures Offset(pieces, i) + |pieces[i]| <= |b|
    ensures b[Offset(pieces, i)..Offset(pieces, i) + |pieces[i]|] == pieces[i]
  {
    OffsetInJoin(pieces, i);
  }

  /** Each piece is the text between two consecutive cuts. */
  lemma SplitPieceInText(b: string, i: nat)
    requires i < |SplitDefinitions(b)|
    ensures Offset(SplitDefinitions(b), i) + |SplitDefinitions(b)[i]| <= |b|
    ensures b[Offset(SplitDefinitions(b), i)..Offset(SplitDefinitions(b), i) + |SplitDefinitions(b)[i]|]
              == SplitDefinitions(b)[i]
  {
    PieceInJoin(SplitDefinitions(b), b, i);
  }

  /** A comma followed by text without parentheses and then `)`, as in
      `DECIMAL(10,2)`, is never a split point. */
  lemma CommaInsideGroupKept(b: string, k: nat, m: nat)
    requires k < m < |b| && b[k] == ',' && b[m] == ')'
    requires forall n :: k < n < m ==> b[n] != '(' && b[n] != ')'
    ensures !IsSplitComma(b, k)
  {
    var t := b[k + 1..];
    assert t[m - k - 1] == ')';
    ClosesFirstMeaning(t);
  }

  /** A comma after which `(` comes before any `)`, or no parenthesis at all,
      is a split point even inside a group: the lookahead does not count
      nesting, so `f(a, g(b))` is cut after `a`. */
  lemma CommaBeforeOpenSplits(b: string, k: nat)
    requires k < |b| && b[k] == ','
    requires forall m :: k < m < |b| && b[m] == ')' ==> exists n :: k < n < m && b[n] == '('
    ensures IsSplitComma(b, k)
  {
    var t := b[k + 1..];
    ClosesFirstMeaning(t);
  }

  /** A first comma whose lookahead fails cuts off the first piece. */
  lemma SplitAtFirstComma(p: string, q: string)
    requires ',' !in p && !ClosesFirst(q)
    ensures SplitDefinitions(p + ("," + q)) == [p] + SplitDefinitions(q)
  {
    var b := p + ("," + q);
    var k := |p|;
    assert b[k + 1..] == q;
    assert IsSplitComma(b, k);
    forall m | 0 <= m < k ensures !IsSplitComma(b, m) {
      assert b[m] == p[m];
    }
    assert FirstSplit(b, 0) == Some(k);
    assert b[..k] == p;
  }

  /** A comma whose lookahead succeeds, the only comma in the text, keeps the
      text in one piece. */
  lemma KeptCommaOnePiece(u: string, v: string)
    requires ',' !in u && ',' !in v && ClosesFirst(v)
    ensures SplitDefinitions(u + ("," + v)) == [u + ("," + v)]
  {
    var b := u + ("," + v);
    var k := |u|;
    assert b[k + 1..] == v;
    forall m | 0 <= m < |b| ensures !IsSplitComma(b, m) {
      if m < k {
        assert b[m] == u[m];
      } else if m > k {
        assert b[m] == v[m - k - 1];
      }
    }
    assert FirstSplit(b, 0).None?;
  }
}
