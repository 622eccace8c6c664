/** `extractTableName` (DDLSqlParser.kt lines 46-49) with TABLE_PATTERN
    (lines 214-215): `CREATE\s+TABLE\s+` followed by an identifier that may be
    wrapped in backticks, optional whitespace and an opening parenthesis,
    matched case-insensitively (ASCII) anywhere in the text. */
module TableName {
  import opened Wrappers
  import opened Text

  /** The tail of TABLE_PATTERN, `` `?([\w_]+)`?\s*\( ``, matched at the start
      of `u`; the result is the identifier. Every part of the pattern is
      followed by a character its own class excludes, so the greedy runs never
      give anything back: each run is the longest one. */
  function MatchNameAt(u: string): (r: Option<string>)
    ensures r.Some? ==> IsIdentifier(r.value) && '(' in u
  {
    var i3 := if u != [] && u[0] == '`' then 1 else 0;
    var i4 := i3 + Run(u[i3..], IsWordChar);
    if i4 == i3 then None
    else
      var i5 := if i4 < |u| && u[i4] == '`' then i4 + 1 else i4;
      var i6 := i5 + Run(u[i5..], IsSpace);
      if i6 < |u| && u[i6] == '(' then Some(u[i3..i4]) else None
  }

  /** TABLE_PATTERN matched at the start of `t`; the result is its group 1. */
  function MatchTableAt(t: string): (r: Option<string>)
    ensures r.Some? ==> IsIdentifier(r.value)
    ensures r.Some? ==> "CREATE" <= UpperStr(t) && '(' in t
  {
    if |t| < 6 || UpperStr(t[..6]) != "CREATE" then None
    else
      var i1 := 6 + Run(t[6..], IsSpace);
      if i1 == 6 || |t| < i1 + 5 || UpperStr(t[i1..i1 + 5]) != "TABLE" then None
      else
        var i2 := i1 + 5 + Run(t[i1 + 5..], IsSpace);
        if i2 == i1 + 5 then None
        else
          var r := MatchNameAt(t[i2..]);
          assert r.Some? ==> '(' in t[i2..];
          assert UpperStr(t)[..6] == UpperStr(t[..6]);
          r
  }

  /** `TABLE_PATTERN.matcher(sql).find()` and its group 1: the name in the
      leftmost match (see `Text.FindLeftmost`). */
  function ExtractTableName(s: string): (r: Option<string>)
    ensures r.Some? ==> IsIdentifier(r.value)
    ensures r.None? <==> forall p :: 0 <= p <= |s| ==> MatchTableAt(s[p..]).None?
    ensures r.Some? ==> exists p :: 0 <= p <= |s| && MatchTableAt(s[p..]) == r
                          && forall q :: 0 <= q < p ==> MatchTableAt(s[q..]).None?
  {
    FindLeftmost(s, MatchTableAt);
    Find(s, MatchTableAt)
  }

  /** A successful extraction means the text holds `CREATE` (in any case) and an
      opening parenthesis. */
  lemma FoundTableNeedsCreate(s: string)
    requires ExtractTableName(s).Some?
    ensures Contains(UpperStr(s), "CREATE") && '(' in s
  {
    FindLeftmost(s, MatchTableAt);
    var p :| 0 <= p <= |s| && MatchTableAt(s[p..]) == ExtractTableName(s);
    PrefixContained(s, p, "CREATE");
  }

  /** MatchNameAt read from the positions its runs reach. */
  lemma MatchNameAtPositions(u: string, i3: nat, i4: nat, i5: nat, n: nat)
    requires i3 < i4 <= i5 && i5 + n < |u|
    requires (if u[0] == '`' then 1 else 0) == i3
    requires i4 == i3 + Run(u[i3..], IsWordChar)
    requires (if u[i4] == '`' then i4 + 1 else i4) == i5
    requires Run(u[i5..], IsSpace) == n && u[i5 + n] == '('
    ensures MatchNameAt(u) == Some(u[i3..i4])
  {
    assert u != [];
    assert i4 < |u|;
    assert i5 + Run(u[i5..], IsSpace) == i5 + n;
  }

  /** The identifier, quoted or not, followed by the whitespace `gap` (which
      may be empty) and `(`. */
  function NameText(name: string, quoted: bool, gap: string, rest: string): string {
    var q := if quoted then "`" else "";
    q + (name + (q + (gap + ("(" + rest))))
  }

  /** The word run over an identifier stops where the identifier ends. */
  lemma WordRunEnds(name: string, t: string)
    requires IsIdentifier(name) && t != [] && !IsWordChar(t[0])
    ensures Run(name + t, IsWordChar) == |name|
  {
    var w := name + t;
    assert w[|name|] == t[0];
    forall j | 0 <= j < |name| ensures IsWordChar(w[j]) {
      assert w[j] == name[j];
    }
    RunIs(w, IsWordChar, |name|);
  }

  /** The whitespace run over a gap stops at the `(` after it. */
  lemma GapRunEnds(gap: string, rest: string)
    requires forall j :: 0 <= j < |gap| ==> IsSpace(gap[j])
    ensures Run(gap + ("(" + rest), IsSpace) == |gap|
    ensures (gap + ("(" + rest))[|gap|] == '('
  {
    var g := gap + ("(" + rest);
    assert g[|gap|] == '(';
    forall j | 0 <= j < |gap| ensures IsSpace(g[j]) {
      assert g[j] == gap[j];
    }
    RunIs(g, IsSpace, |gap|);
  }

  /** Where the runs of MatchNameAt stop over a bare identifier, a
      whitespace run of length `n` and `(`. */
  lemma BareLayout(name: string, g: string, n: nat)
    requires IsIdentifier(name) && n < |g| && Run(g, IsSpace) == n && g[n] == '('
    ensures var u := name + g;
            |name| + n < |u| && u[0] != '`' && u[|name|] != '`'
            && Run(u[0..], IsWordChar) == |name| && u[0..|name|] == name
            && Run(u[|name|..], IsSpace) == n && u[|name| + n] == '('
  {
    var u := name + g;
    assert g[0] == '(' || IsSpace(g[0]);
    WordRunEnds(name, g);
    assert u[0] == name[0] && u[|name|] == g[0];
    assert u[0..] == u && u[0..|name|] == name && u[|name|..] == g;
  }

  lemma NameBare(name: string, g: string, n: nat)
    requires IsIdentifier(name) && n < |g| && Run(g, IsSpace) == n && g[n] == '('
    ensures MatchNameAt(name + g) == Some(name)
  {
    BareLayout(name, g, n);
    MatchNameAtPositions(name + g, 0, |name|, |name|, n);
  }

  /** Where the runs of MatchNameAt stop over an identifier in backticks, a
      whitespace run of length `n` and `(`. */
  lemma QuotedLayout(name: string, g: string, n: nat)
    requires IsIdentifier(name) && n < |g| && Run(g, IsSpace) == n && g[n] == '('
    ensures var u := "`" + (name + ("`" + g));
            2 + |name| + n < |u| && u[0] == '`' && u[1 + |name|] == '`'
            && Run(u[1..], IsWordChar) == |name| && u[1..1 + |name|] == name
            && Run(u[2 + |name|..], IsSpace) == n && u[2 + |name| + n] == '('
  {
    var t := "`" + g;
    var u := "`" + (name + t);
    assert u[1..] == name + t;
    WordRunEnds(name, t);
    assert u[1..1 + |name|] == name && u[1 + |name|] == '`';
    assert u[2 + |name|..] == g;
  }

  lemma NameQuoted(name: string, g: string, n: nat)
    requires IsIdentifier(name) && n < |g| && Run(g, IsSpace) == n && g[n] == '('
    ensures MatchNameAt("`" + (name + ("`" + g))) == Some(name)
  {
    QuotedLayout(name, g, n);
    MatchNameAtPositions("`" + (name + ("`" + g)), 1, 1 + |name|, 2 + |name|, n);
  }

  /** Reading back an identifier behind an optional quote `q`, followed by a
      whitespace gap and `(`. */
  lemma NameAfterQuote(name: string, q: string, gap: string, rest: string)
    requires IsIdentifier(name) && |q| <= 1 && (q != [] ==> q[0] == '`')
    requires forall j :: 0 <= j < |gap| ==> IsSpace(gap[j])
    ensures MatchNameAt(q + (name + (q + (gap + ("(" + rest))))) == Some(name)
    ensures !IsSpace((q + (name + (q + (gap + ("(" + rest)))))[0])
  {
    var g := gap + ("(" + rest);
    GapRunEnds(gap, rest);
    NotSpace(name[0]);
    if q == [] {
      assert q + (name + (q + g)) == name + g;
      NameBare(name, g, |gap|);
    } else {
      assert q == "`";
      NameQuoted(name, g, |gap|);
    }
  }

  /** Reading back a rendered identifier yields it. */
  lemma NameRendered(name: string, quoted: bool, gap: string, rest: string)
    requires IsIdentifier(name)
    requires forall j :: 0 <= j < |gap| ==> IsSpace(gap[j])
    ensures MatchNameAt(NameText(name, quoted, gap, rest)) == Some(name)
    ensures !IsSpace(NameText(name, quoted, gap, rest)[0])
  {
    NameAfterQuote(name, if quoted then "`" else "", gap, rest);
  }

  /** A `CREATE TABLE` statement as it is written: the two keywords (in any
      case) separated by single spaces, then the identifier text above. */
  function CreateTableText(create: string, table: string, name: string, quoted: bool, gap: string, rest: string): string {
    create + (" " + (table + (" " + NameText(name, quoted, gap, rest))))
  }

  lemma NotSpace(c: char)
    requires IsWordChar(c) || c == '`'
    ensures !IsSpace(c)
  {
  }

  /** MatchTableAt read from the positions its runs reach, for keywords
      separated by a single space. */
  lemma MatchTableAtPositions(t: string)
    requires |t| >= 13 && UpperStr(t[..6]) == "CREATE" && UpperStr(t[7..12]) == "TABLE"
    requires Run(t[6..], IsSpace) == 1 && Run(t[12..], IsSpace) == 1
    ensures MatchTableAt(t) == MatchNameAt(t[13..])
  {
  }

  /** After `create table ` the match continues with the identifier. */
  lemma HeaderThenName(create: string, table: string, u: string)
    requires |create| == 6 && UpperStr(create) == "CREATE"
    requires |table| == 5 && UpperStr(table) == "TABLE"
    requires u != [] && !IsSpace(u[0])
    ensures MatchTableAt(create + (" " + (table + (" " + u)))) == MatchNameAt(u)
  {
    var t := create + (" " + (table + (" " + u)));
    assert t[..6] == create;
    assert t[7..12] == table;
    assert t[13..] == u;
    assert t[6] == ' ' && t[7] == table[0] && t[12] == ' ';
    assert Upper(table[0]) == UpperStr(table)[0] == 'T';
    NotSpace(table[0]);
    RunIs(t[6..], IsSpace, 1);
    RunIs(t[12..], IsSpace, 1);
    MatchTableAtPositions(t);
  }

  /** Reading back a rendered `CREATE TABLE name (` statement yields the
      name, whatever whitespace (none included) comes before `(`. */
  lemma ExtractRendered(create: string, table: string, name: string, quoted: bool, gap: string, rest: string)
    requires |create| == 6 && UpperStr(create) == "CREATE"
    requires |table| == 5 && UpperStr(table) == "TABLE"
    requires IsIdentifier(name)
    requires forall j :: 0 <= j < |gap| ==> IsSpace(gap[j])
    ensures ExtractTableName(CreateTableText(create, table, name, quoted, gap, rest)) == Some(name)
  {
    NameRendered(name, quoted, gap, rest);
    HeaderThenName(create, table, NameText(name, quoted, gap, rest));
  }

  /** A statement that starts `CREATE TABLE t (` names the table `t`. */
  lemma TableT(x: string)
    requires "CREATE TABLE t (" <= x
    ensures ExtractTableName(x) == Some("t")
  {
    var rest := x[16..];
    assert x == CreateTableText("CREATE", "TABLE", "t", false, " ", rest);
    ExtractRendered("CREATE", "TABLE", "t", false, " ", rest);
  }

  lemma IntTableName(x: string)
    requires x == "CREATE TABLE t (a INT)"
    ensures ExtractTableName(x) == Some("t")
  {
    TableT(x);
  }

  lemma KeyTableName(y: string)
    requires y == "CREATE TABLE t (PRIMARY KEY (id))"
    ensures ExtractTableName(y) == Some("t")
  {
    TableT(y);
  }

  /** A statement that starts `CREATE TABLE name (`, with one space before
      `(`, names the table `name`. */
  lemma NamedAfterHeader(name: string, rest: string)
    requires IsIdentifier(name)
    ensures ExtractTableName(("CREATE TABLE " + (name + " ")) + ("(" + rest)) == Some(name)
  {
    var x := ("CREATE TABLE " + (name + " ")) + ("(" + rest);
    assert "CREATE TABLE " == "CREATE" + (" " + ("TABLE" + " "));
    assert x == CreateTableText("CREATE", "TABLE", name, false, " ", rest);
    ExtractRendered("CREATE", "TABLE", name, false, " ", rest);
  }
}
