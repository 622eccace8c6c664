/** One column definition: `parseFieldDefinition` (DDLSqlParser.kt lines
    87-121) with its helpers `sqlTypeToJavaType` (lines 123-137) and
    `extractComment` (lines 139-142, COMMENT_PATTERN at lines 223-224), and the
    table-level test of `extractFields` (lines 67-76). */
module FieldParser {
  import opened Wrappers
  import opened Text
  import Naming

  /** The field the parser builds: the Java field name, the column name, the
      Java type, the comment and the primary-key flag. */
  datatype FieldDefinition = FieldDefinition(
    name: string,
    columnName: string,
    javaType: string,
    comment: string,
    primaryKey: bool)

  /** A fragment whose upper-cased form starts with one of the table-level
      keywords is not a column. */
  predicate IsTableLevel(trimmed: string) {
    var u := UpperStr(trimmed);
    "PRIMARY KEY" <= u || "UNIQUE" <= u || "FOREIGN KEY" <= u
    || "CONSTRAINT" <= u || "KEY" <= u || "INDEX" <= u
  }

  /** The prefix test also catches a column whose name starts with a keyword,
      such as `key_name`. */
  lemma KeyNamedColumnSkipped(rest: string)
    ensures IsTableLevel("key_name" + rest)
  {
    var u := UpperStr("key_name" + rest);
    assert u[..3] == "KEY";
  }

  /** Where the match of `^`?([\w_]+)`?\s+` ends, with its group 1. */
  datatype ColumnMatch = ColumnMatch(column: string, end: nat)

  /** The name pattern matched at the start of the fragment. The greedy runs
      stop at characters their class excludes, so none gives anything back. */
  function MatchColumn(d: string): (r: Option<ColumnMatch>)
    ensures r.Some? ==> IsIdentifier(r.value.column) && 0 < r.value.end <= |d|
    ensures r.Some? ==> IsSpace(d[r.value.end - 1]) && (r.value.end < |d| ==> !IsSpace(d[r.value.end]))
  {
    var i3 := if d != [] && d[0] == '`' then 1 else 0;
    var i4 := i3 + Run(d[i3..], IsWordChar);
    if i4 == i3 then None
    else
      var i5 := if i4 < |d| && d[i4] == '`' then i4 + 1 else i4;
      var i6 := i5 + Run(d[i5..], IsSpace);
      if i6 == i5 then None else Some(ColumnMatch(d[i3..i4], i6))
  }

  /** The class `[\w()]` of the type pattern. */
  predicate IsTypeChar(c: char) {
    IsWordChar(c) || c == '(' || c == ')'
  }

  /** Group 1 of `^([\w()]+)`: the type token, which stops at the first
      character outside the class, a comma for instance. */
  function TypeToken(rem: string): (r: Option<string>)
    ensures r.Some? ==> r.value != [] && r.value <= rem && forall k :: 0 <= k < |r.value| ==> IsTypeChar(r.value[k])
    ensures r.Some? ==> |r.value| == |rem| || !IsTypeChar(rem[|r.value|])
    ensures r.None? <==> rem == [] || !IsTypeChar(rem[0])
  {
    var n := Run(rem, IsTypeChar);
    if n == 0 then None else Some(rem[..n])
  }

  /** `sqlTypeToJavaType`: the first rule whose keyword occurs in the
      lower-cased type wins. */
  function SqlTypeToJavaType(sqlType: string): (r: string)
  {
    var t := LowerStr(sqlType);
    if Contains(t, "int") then "Integer"
    else if Contains(t, "bigint") || Contains(t, "long") then "Long"
    else if Contains(t, "float") || Contains(t, "double") then "Double"
    else if Contains(t, "decimal") || Contains(t, "number") then "java.math.BigDecimal"
    else if Contains(t, "date") || Contains(t, "timestamp") then "java.util.Date"
    else if Contains(t, "time") then "java.util.Date"
    else if Contains(t, "boolean") || Contains(t, "bit") then "Boolean"
    else if Contains(t, "blob") || Contains(t, "binary") then "byte[]"
    else "String"
  }

  predicate IsJavaType(j: string) {
    j in {"Integer", "Long", "Double", "java.math.BigDecimal", "java.util.Date", "Boolean", "byte[]", "String"}
  }

  /** The mapping is total and only ever yields one of the listed types. */
  lemma JavaTypeListed(sqlType: string)
    ensures IsJavaType(SqlTypeToJavaType(sqlType))
  {
  }

  /** Any type containing `int`, `bigint` included, is an Integer. */
  lemma IntWins(sqlType: string)
    requires Contains(LowerStr(sqlType), "int")
    ensures SqlTypeToJavaType(sqlType) == "Integer"
  {
  }

  lemma {:induction false} ContainsLonger(s: string, p: string, q: string)
    requires Contains(s, p + q)
    ensures Contains(s, q)
    decreases |s|
  {
    if p + q <= s {
      assert q <= s[|p|..];
      ContainsAt(s, |p|, q);
    } else {
      ContainsLonger(s[1..], p, q);
    }
  }

  /** `bigint` is masked by `int`: Long is reached only through `long`. */
  lemma LongOnlyThroughLong(sqlType: string)
    ensures SqlTypeToJavaType(sqlType) == "Long" <==>
              !Contains(LowerStr(sqlType), "int") && Contains(LowerStr(sqlType), "long")
  {
    var t := LowerStr(sqlType);
    if Contains(t, "bigint") {
      assert "bigint" == "big" + "int";
      ContainsLonger(t, "big", "int");
    }
  }

  /** The type names one of the fourteen keywords of the mapping. */
  predicate NamesTypeKeyword(t: string) {
    Contains(t, "int") || Contains(t, "bigint") || Contains(t, "long")
    || Contains(t, "float") || Contains(t, "double")
    || Contains(t, "decimal") || Contains(t, "number")
    || Contains(t, "date") || Contains(t, "timestamp") || Contains(t, "time")
    || Contains(t, "boolean") || Contains(t, "bit")
    || Contains(t, "blob") || Contains(t, "binary")
  }

  /** A type maps to String exactly when its lower-cased form names none of
      the keywords. */
  lemma OtherTypesAreStrings(sqlType: string)
    ensures SqlTypeToJavaType(sqlType) == "String" <==> !NamesTypeKeyword(LowerStr(sqlType))
  {
  }

  /** Without the letters i, b, l, f, d and n, the keywords up to `number`
      do not occur. */
  lemma NoNumericKeyword(t: string)
    requires 'i' !in t && 'b' !in t && 'l' !in t && 'f' !in t && 'd' !in t && 'n' !in t
    ensures !Contains(t, "int") && !Contains(t, "bigint") && !Contains(t, "long")
    ensures !Contains(t, "float") && !Contains(t, "double")
    ensures !Contains(t, "decimal") && !Contains(t, "number")
  {
    NotContainsMissing(t, "int", 0);
    NotContainsMissing(t, "bigint", 0);
    NotContainsMissing(t, "long", 0);
    NotContainsMissing(t, "float", 0);
    NotContainsMissing(t, "double", 0);
    NotContainsMissing(t, "decimal", 0);
    NotContainsMissing(t, "number", 0);
  }

  /** Without the letters i, b and d, the keywords from `date` on do not
      occur. */
  lemma NoOtherKeyword(t: string)
    requires 'i' !in t && 'b' !in t && 'd' !in t
    ensures !Contains(t, "date") && !Contains(t, "timestamp") && !Contains(t, "time")
    ensures !Contains(t, "boolean") && !Contains(t, "bit")
    ensures !Contains(t, "blob") && !Contains(t, "binary")
  {
    NotContainsMissing(t, "date", 0);
    NotContainsMissing(t, "timestamp", 1);
    NotContainsMissing(t, "time", 1);
    NotContainsMissing(t, "boolean", 0);
    NotContainsMissing(t, "bit", 0);
    NotContainsMissing(t, "blob", 0);
    NotContainsMissing(t, "binary", 0);
  }

  lemma TextLetters()
    ensures LowerStr("TEXT") == "text"
    ensures 'i' !in "text" && 'b' !in "text" && 'l' !in "text"
    ensures 'f' !in "text" && 'd' !in "text" && 'n' !in "text"
  {
  }

  /** `TEXT` names no keyword, so it maps to String. */
  lemma TextIsString()
    ensures SqlTypeToJavaType("TEXT") == "String"
  {
    TextLetters();
    NoNumericKeyword("text");
    NoOtherKeyword("text");
    OtherTypesAreStrings("TEXT");
  }

  lemma BigintLower()
    ensures LowerStr("BIGINT") == "bigint"
  {
  }

  /** `BIGINT` maps to Integer, not Long. */
  lemma BigintIsInteger()
    ensures SqlTypeToJavaType("BIGINT") == "Integer"
  {
    BigintLower();
    assert "int" <= "bigint"[3..];
    ContainsAt("bigint", 3, "int");
  }

  /** Without the letters `n` and `o` no integer or floating keyword
      occurs. */
  lemma NeitherIntegerNorFloating(t: string)
    requires 'n' !in t && 'o' !in t
    ensures !Contains(t, "int") && !Contains(t, "bigint") && !Contains(t, "long")
    ensures !Contains(t, "float") && !Contains(t, "double")
  {
    NotContainsMissing(t, "int", 1);
    NotContainsMissing(t, "bigint", 4);
    NotContainsMissing(t, "long", 1);
    NotContainsMissing(t, "float", 2);
    NotContainsMissing(t, "double", 1);
  }

  lemma DatetimeLetters()
    ensures LowerStr("datetime") == "datetime"
    ensures 'n' !in "datetime" && 'o' !in "datetime" && 'c' !in "datetime"
    ensures "date" <= "datetime"
  {
  }

  /** A type with `date` but without the letters `n`, `o` and `c` is a
      Date. */
  lemma DateWithoutNumber(sqlType: string)
    requires 'n' !in LowerStr(sqlType) && 'o' !in LowerStr(sqlType) && 'c' !in LowerStr(sqlType)
    requires "date" <= LowerStr(sqlType)
    ensures SqlTypeToJavaType(sqlType) == "java.util.Date"
  {
    var t := LowerStr(sqlType);
    NeitherIntegerNorFloating(t);
    NotContainsMissing(t, "decimal", 2);
    NotContainsMissing(t, "number", 0);
    ContainsAt(t, 0, "date");
  }

  lemma DatetimeIsDate()
    ensures SqlTypeToJavaType("datetime") == "java.util.Date"
  {
    DatetimeLetters();
    DateWithoutNumber("datetime");
  }

  lemma DecimalTokenLetters()
    ensures LowerStr("DECIMAL(10") == "decimal(10"
    ensures 'n' !in "decimal(10" && 'o' !in "decimal(10"
    ensures "decimal" <= "decimal(10"
  {
  }

  /** A type with `decimal` but without the letters `n` and `o` is a
      BigDecimal. */
  lemma DecimalWithoutInteger(sqlType: string)
    requires 'n' !in LowerStr(sqlType) && 'o' !in LowerStr(sqlType)
    requires "decimal" <= LowerStr(sqlType)
    ensures SqlTypeToJavaType(sqlType) == "java.math.BigDecimal"
  {
    var t := LowerStr(sqlType);
    NeitherIntegerNorFloating(t);
    ContainsAt(t, 0, "decimal");
  }

  /** The token read from `DECIMAL(10,2)` is `DECIMAL(10`, which still maps
      to BigDecimal. */
  lemma DecimalTokenIsBigDecimal()
    ensures TypeToken("DECIMAL(10" + ",2)") == Some("DECIMAL(10")
    ensures SqlTypeToJavaType("DECIMAL(10") == "java.math.BigDecimal"
  {
    TypeTokenOf("DECIMAL(10", ",2)");
    DecimalTokenLetters();
    DecimalWithoutInteger("DECIMAL(10");
  }

  /** COMMENT_PATTERN, `COMMENT\s+'([^']*)'` (case-insensitive), matched at the
      start of `t`; the result is group 1. */
  function MatchCommentAt(t: string): (r: Option<string>)
    ensures r.Some? ==> '\'' !in r.value
    ensures r.Some? ==> |t| > 7 && UpperStr(t[..7]) == "COMMENT"
  {
    if |t| < 7 || UpperStr(t[..7]) != "COMMENT" then None
    else
      var i1 := 7 + Run(t[7..], IsSpace);
      if i1 == 7 || i1 == |t| || t[i1] != '\'' then None
      else
        var n := Run(t[i1 + 1..], c => c != '\'');
        if i1 + 1 + n == |t| then None
        else Some(t[i1 + 1..i1 + 1 + n])
  }

  /** `extractComment`: group 1 of the leftmost COMMENT clause, or empty. */
  function ExtractComment(d: string): (r: string)
    ensures '\'' !in r
    ensures (exists p :: 0 <= p <= |d| && MatchCommentAt(d[p..]).Some?) ==>
              exists p :: 0 <= p <= |d| && MatchCommentAt(d[p..]) == Some(r)
                          && forall q :: 0 <= q < p ==> MatchCommentAt(d[q..]).None?
    ensures (forall p :: 0 <= p <= |d| ==> MatchCommentAt(d[p..]).None?) ==> r == []
  {
    FindLeftmost(d, MatchCommentAt);
    match Find(d, MatchCommentAt)
    case Some(c) => c
    case None => ""
  }

  /** A keyword found, in any case, at position `p` occurs in the
      upper-cased text. */
  lemma KeywordAt(d: string, p: nat, w: string)
    requires p + |w| <= |d| && UpperStr(d[p..][..|w|]) == w
    ensures Contains(UpperStr(d), w)
  {
    var u := UpperStr(d);
    var q := p + |w|;
    UpperStrSlice(d, p, q);
    assert d[p..][..|w|] == d[p..q];
    assert u[p..q] == w;
    assert u[p..][..|w|] == u[p..q];
    ContainsAt(u, p, w);
  }

  /** Without the keyword COMMENT (in any case) there is no comment. */
  lemma NoKeywordNoComment(d: string)
    requires !Contains(UpperStr(d), "COMMENT")
    ensures ExtractComment(d) == ""
  {
    FindLeftmost(d, MatchCommentAt);
    if Find(d, MatchCommentAt).Some? {
      var p :| 0 <= p <= |d| && MatchCommentAt(d[p..]) == Find(d, MatchCommentAt);
      KeywordAt(d, p, "COMMENT");
    }
  }

  /** MatchCommentAt read from the positions its runs reach. */
  lemma CommentAtPositions(t: string, n: nat)
    requires |t| >= 10 + n && UpperStr(t[..7]) == "COMMENT" && t[7] == ' ' && t[8] == '\''
    requires forall k :: 9 <= k < 9 + n ==> t[k] != '\''
    requires t[9 + n] == '\''
    ensures MatchCommentAt(t) == Some(t[9..9 + n])
  {
    RunIsOne(t[7..], IsSpace);
    RunIs(t[9..], c => c != '\'', n);
  }

  /** A written clause `COMMENT 'text'` reads back as its text. */
  lemma CommentRendered(keyword: string, text: string, rest: string)
    requires |keyword| == 7 && UpperStr(keyword) == "COMMENT" && '\'' !in text
    ensures MatchCommentAt(keyword + (" '" + (text + ("'" + rest)))) == Some(text)
  {
    var t := keyword + (" '" + (text + ("'" + rest)));
    var n := |text|;
    assert t[..7] == keyword;
    assert t[7] == ' ' && t[8] == '\'' && t[9 + n] == '\'';
    assert t[9..9 + n] == text;
    CommentAtPositions(t, n);
  }

  lemma KeywordAbsent(d: string, p: nat, w: string)
    requires p + |w| <= |d| && !Contains(UpperStr(d), w)
    ensures UpperStr(d[p..][..|w|]) != w
  {
    if UpperStr(d[p..][..|w|]) == w {
      KeywordAt(d, p, w);
    }
  }

  /** No COMMENT clause starts inside a keyword-free prefix that ends with a
      space. */
  lemma NoCommentInPrefix(prefix: string, s: string, p: nat)
    requires p < |prefix| && prefix[|prefix| - 1] == ' ' && !Contains(UpperStr(prefix), "COMMENT")
    ensures MatchCommentAt((prefix + s)[p..]).None?
  {
    var t := (prefix + s)[p..];
    if |t| >= 7 {
      if p + 7 <= |prefix| {
        assert t[..7] == prefix[p..][..7];
        KeywordAbsent(prefix, p, "COMMENT");
      } else {
        var j := |prefix| - 1 - p;
        assert t[..7][j] == ' ';
        assert UpperStr(t[..7])[j] == ' ';
      }
    }
  }

  /** A clause written after a keyword-free prefix is the comment read back. */
  lemma CommentAfterPrefix(prefix: string, keyword: string, text: string, rest: string)
    requires !Contains(UpperStr(prefix), "COMMENT") && (prefix == [] || prefix[|prefix| - 1] == ' ')
    requires |keyword| == 7 && UpperStr(keyword) == "COMMENT" && '\'' !in text
    ensures ExtractComment(prefix + (keyword + (" '" + (text + ("'" + rest))))) == text
  {
    var s := keyword + (" '" + (text + ("'" + rest)));
    var d := prefix + s;
    CommentRendered(keyword, text, rest);
    assert d[|prefix|..] == s;
    FindLeftmost(d, MatchCommentAt);
    var p :| 0 <= p <= |d| && MatchCommentAt(d[p..]) == Find(d, MatchCommentAt)
             && forall q :: 0 <= q < p ==> MatchCommentAt(d[q..]).None?;
    if p < |prefix| {
      NoCommentInPrefix(prefix, s, p);
    }
  }

  /** `parseFieldDefinition`: None when the fragment does not start with a
      column name followed by whitespace and a type token. */
  function ParseFieldDefinition(definition: string): (r: Option<FieldDefinition>)
    ensures r.Some? ==> IsIdentifier(r.value.columnName)
    ensures r.Some? ==> r.value.name == Naming.CamelCase(r.value.columnName)
    ensures r.Some? ==> IsJavaType(r.value.javaType)
    ensures r.Some? ==> r.value.comment == ExtractComment(definition)
    ensures r.Some? ==> (r.value.primaryKey <==> Contains(UpperStr(definition), "PRIMARY KEY"))
  {
    if definition == [] then None
    else
      match MatchColumn(definition)
      case None => None
      case Some(m) =>
        match TypeToken(definition[m.end..])
        case None => None
        case Some(fieldType) =>
          JavaTypeListed(fieldType);
          Some(FieldDefinition(
            Naming.CamelCase(m.column),
            m.column,
            SqlTypeToJavaType(fieldType),
            ExtractComment(definition),
            Contains(UpperStr(definition), "PRIMARY KEY")))
  }

  /** A field is produced exactly when the name pattern matches and a type
      token follows it; in particular no name match means no field. */
  lemma FieldNeedsNameAndType(definition: string)
    ensures ParseFieldDefinition(definition).Some? <==>
              MatchColumn(definition).Some? && TypeToken(definition[MatchColumn(definition).value.end..]).Some?
  {
  }

  /** A fragment without whitespace yields no field: the name must be
      followed by whitespace. */
  lemma NoWhitespaceNoField(definition: string)
    requires forall k :: 0 <= k < |definition| ==> !IsSpace(definition[k])
    ensures ParseFieldDefinition(definition).None?
  {
  }

  /** A fragment that starts with neither a backtick nor a word character
      yields no field. */
  lemma NoLeadingIdentifierNoField(definition: string)
    requires definition != [] && definition[0] != '`' && !IsWordChar(definition[0])
    ensures ParseFieldDefinition(definition).None?
  {
    assert Run(definition, IsWordChar) == 0;
  }

  /** A fragment whose name and whitespace are followed by no type token
      yields no field. */
  lemma MissingTypeNoField(definition: string)
    requires MatchColumn(definition).Some?
    requires var e := MatchColumn(definition).value.end; e == |definition| || !IsTypeChar(definition[e])
    ensures ParseFieldDefinition(definition).None?
  {
  }

  /** MatchColumn read from the positions its runs reach. */
  lemma ColumnAtPositions(d: string, i3: nat, i4: nat, i5: nat)
    requires i3 < i4 <= i5 && i5 + 1 < |d|
    requires (if d[0] == '`' then 1 else 0) == i3
    requires i4 == i3 + Run(d[i3..], IsWordChar)
    requires (if d[i4] == '`' then i4 + 1 else i4) == i5
    requires Run(d[i5..], IsSpace) == 1
    ensures MatchColumn(d) == Some(ColumnMatch(d[i3..i4], i5 + 1))
  {
  }

  /** The name pattern over a column behind an optional quote (`k` is 1 for
      a backtick, 0 for none), one space and a tail. */
  lemma ColumnFromLayout(d: string, k: nat, column: string, tail: string)
    requires k <= 1 && IsIdentifier(column) && tail != [] && !IsSpace(tail[0])
    requires |d| == 2 * k + |column| + 1 + |tail|
    requires k == 1 ==> d[0] == '`' && d[1 + |column|] == '`'
    requires d[k..k + |column|] == column
    requires d[2 * k + |column|] == ' ' && d[2 * k + |column| + 1..] == tail
    ensures MatchColumn(d) == Some(ColumnMatch(column, 2 * k + |column| + 1))
  {
    var e := k + |column|;
    assert d[k] == column[0];
    assert d[e + k + 1] == tail[0];
    var word := d[k..];
    forall j | 0 <= j < |column| ensures IsWordChar(word[j]) {
      assert word[j] == d[k..k + |column|][j];
    }
    assert word[|column|] == d[e] && (d[e] == '`' || d[e] == ' ');
    RunIs(word, IsWordChar, |column|);
    var spaces := d[e + k..];
    assert spaces[0] == ' ' && spaces[1] == tail[0];
    RunIsOne(spaces, IsSpace);
    ColumnAtPositions(d, k, e, e + k);
  }

  /** Where the parts of a written column sit. */
  lemma ColumnLayout(d: string, q: string, column: string, tail: string)
    requires |q| <= 1 && (q != [] ==> q[0] == '`')
    requires d == q + (column + (q + (" " + tail)))
    ensures |d| == 2 * |q| + |column| + 1 + |tail|
    ensures d[|q|..|q| + |column|] == column
    ensures |q| == 1 ==> d[0] == '`' && d[1 + |column|] == '`'
    ensures d[2 * |q| + |column|] == ' ' && d[2 * |q| + |column| + 1..] == tail
  {
    var k := |q|;
    assert d[k..] == column + (q + (" " + tail));
    assert d[k + |column|..] == q + (" " + tail);
  }

  /** The name pattern over a column written as name (quoted or not) and
      one space. */
  lemma ColumnTextMatch(q: string, column: string, tail: string)
    requires |q| <= 1 && (q != [] ==> q[0] == '`')
    requires IsIdentifier(column) && tail != [] && !IsSpace(tail[0])
    ensures MatchColumn(q + (column + (q + (" " + tail))))
              == Some(ColumnMatch(column, 2 * |q| + |column| + 1))
    ensures (q + (column + (q + (" " + tail))))[2 * |q| + |column| + 1..] == tail
  {
    var d := q + (column + (q + (" " + tail)));
    ColumnLayout(d, q, column, tail);
    ColumnFromLayout(d, |q|, column, tail);
  }

  /** The field assembled from a name match and a type token. */
  lemma ParseFromParts(d: string, m: ColumnMatch, fieldType: string)
    requires MatchColumn(d) == Some(m) && m.end <= |d| && TypeToken(d[m.end..]) == Some(fieldType)
    ensures ParseFieldDefinition(d).Some?
    ensures ParseFieldDefinition(d).value.columnName == m.column
    ensures ParseFieldDefinition(d).value.javaType == SqlTypeToJavaType(fieldType)
  {
  }

  /** The type pattern over a written type token. */
  lemma TypeTokenOf(fieldType: string, rest: string)
    requires fieldType != [] && forall k :: 0 <= k < |fieldType| ==> IsTypeChar(fieldType[k])
    requires rest == [] || !IsTypeChar(rest[0])
    ensures TypeToken(fieldType + rest) == Some(fieldType)
  {
    RunIs(fieldType + rest, IsTypeChar, |fieldType|);
    assert (fieldType + rest)[..|fieldType|] == fieldType;
  }

  /** A column written as name (quoted or not), one space and a type token
      reads back as that column with that token's Java type. */
  lemma ColumnRendered(q: string, column: string, fieldType: string, rest: string)
    requires |q| <= 1 && (q != [] ==> q[0] == '`')
    requires IsIdentifier(column) && fieldType != []
    requires forall k :: 0 <= k < |fieldType| ==> IsTypeChar(fieldType[k])
    requires rest == [] || !IsTypeChar(rest[0])
    ensures var d := q + (column + (q + (" " + (fieldType + rest))));
            ParseFieldDefinition(d).Some?
            && ParseFieldDefinition(d).value.columnName == column
            && ParseFieldDefinition(d).value.javaType == SqlTypeToJavaType(fieldType)
  {
    var tail := fieldType + rest;
    assert tail[0] == fieldType[0];
    ColumnTextMatch(q, column, tail);
    TypeTokenOf(fieldType, rest);
    ParseFromParts(q + (column + (q + (" " + tail))), ColumnMatch(column, 2 * |q| + |column| + 1), fieldType);
  }

  lemma IntColumnNotTableLevel(d: string)
    requires d == "a INT"
    ensures !IsTableLevel(d)
  {
    var u := UpperStr(d);
    assert |u| == 5 && u[0] == 'A';
  }

  lemma IntColumnShape(d: string)
    requires d == "a INT"
    ensures ParseFieldDefinition(d).Some? && ParseFieldDefinition(d).value.columnName == "a"
    ensures ParseFieldDefinition(d).value.javaType == SqlTypeToJavaType("INT")
  {
    assert d == "" + ("a" + ("" + (" " + ("INT" + ""))));
    ColumnRendered("", "a", "INT", "");
  }

  lemma IntIsInteger(t: string)
    requires t == "INT"
    ensures SqlTypeToJavaType(t) == "Integer"
  {
    assert LowerStr(t) == "int";
    IntWins(t);
  }

  lemma IntColumnKeywordFree(d: string)
    requires d == "a INT"
    ensures !Contains(UpperStr(d), "COMMENT") && !Contains(UpperStr(d), "PRIMARY KEY")
  {
    var u := UpperStr(d);
    assert u == "A INT";
    NotContainsMissing(u, "COMMENT", 1);
    NotContainsMissing(u, "PRIMARY KEY", 0);
  }

  /** The column `a INT` is an Integer field named `a`, without comment and
      not flagged as primary key. */
  lemma IntColumnParsed(d: string)
    requires d == "a INT"
    ensures !IsTableLevel(d)
    ensures ParseFieldDefinition(d) == Some(FieldDefinition("a", "a", "Integer", "", false))
  {
    IntColumnNotTableLevel(d);
    IntColumnShape(d);
    IntIsInteger("INT");
    IntColumnKeywordFree(d);
    NoKeywordNoComment(d);
    Naming.CamelCaseWithoutUnderscore("a");
  }

  /** A primary-key clause is table-level. */
  lemma KeyClauseTableLevel(d: string)
    requires d == "PRIMARY KEY (id)"
    ensures IsTableLevel(d)
  {
    assert UpperStr(d)[..11] == "PRIMARY KEY";
  }

  /** No COMMENT keyword straddles two texts when `C` is missing from the
      first and `O` from the second, in either case. */
  lemma NoCommentAcross(x: string, y: string)
    requires 'C' !in x && 'c' !in x && 'O' !in y && 'o' !in y
    ensures !Contains(UpperStr(x + y), "COMMENT")
  {
    var u := UpperStr(x + y);
    UpperStrMissing(x, 'C');
    UpperStrMissing(y, 'O');
    UpperStrAppend(x, y);
    PairAcross(UpperStr(x), UpperStr(y), "CO");
    if Contains(u, "COMMENT") {
      assert "COMMENT" == "CO" + "MMENT";
      ContainsShorter(u, "CO", "MMENT");
    }
  }

  /** A `COMMENT 'text'` clause as it is written. */
  function CommentClause(text: string): string {
    "COMMENT" + (" '" + (text + "'"))
  }

  lemma CommentKeyword(k: string)
    requires k == "COMMENT"
    ensures |k| == 7 && UpperStr(k) == "COMMENT"
  {
  }

  /** The comment clause after a keyword-free prefix is the comment. */
  lemma ClauseAfterPrefix(prefix: string, text: string, d: string)
    requires !Contains(UpperStr(prefix), "COMMENT") && prefix != [] && prefix[|prefix| - 1] == ' '
    requires '\'' !in text && d == prefix + CommentClause(text)
    ensures ExtractComment(d) == text
  {
    assert d == prefix + ("COMMENT" + (" '" + (text + ("'" + ""))));
    CommentKeyword("COMMENT");
    CommentAfterPrefix(prefix, "COMMENT", text, "");
  }

  /** The column and type of a written column with further text after the
      type. */
  lemma ColumnThenMore(column: string, fieldType: string, more: string, d: string)
    requires IsIdentifier(column) && fieldType != []
    requires forall k :: 0 <= k < |fieldType| ==> IsTypeChar(fieldType[k])
    requires more != [] && !IsTypeChar(more[0])
    requires d == column + (" " + (fieldType + more))
    ensures ParseFieldDefinition(d).Some? && ParseFieldDefinition(d).value.columnName == column
    ensures ParseFieldDefinition(d).value.javaType == SqlTypeToJavaType(fieldType)
  {
    assert d == "" + (column + ("" + (" " + (fieldType + more))));
    ColumnRendered("", column, fieldType, more);
  }

  /** A column written as name, one space, a type token, further text that
      ends in a space and does not hold the keyword COMMENT, and a comment
      clause: the field has that column, the type's Java type and the
      comment's text. */
  lemma CommentedColumnParsed(column: string, fieldType: string, mid: string, text: string)
    requires IsIdentifier(column) && fieldType != []
    requires forall k :: 0 <= k < |fieldType| ==> IsTypeChar(fieldType[k])
    requires mid != [] && !IsTypeChar(mid[0]) && mid[|mid| - 1] == ' '
    requires !Contains(UpperStr(column + (" " + (fieldType + mid))), "COMMENT")
    requires '\'' !in text
    ensures var d := column + (" " + (fieldType + (mid + CommentClause(text))));
            ParseFieldDefinition(d)
              == Some(FieldDefinition(Naming.CamelCase(column), column, SqlTypeToJavaType(fieldType), text,
                                      Contains(UpperStr(d), "PRIMARY KEY")))
  {
    var c := CommentClause(text);
    var d := column + (" " + (fieldType + (mid + c)));
    var prefix := column + (" " + (fieldType + mid));
    assert d == prefix + c;
    ClauseAfterPrefix(prefix, text, d);
    ColumnThenMore(column, fieldType, mid + c, d);
  }

  /** A column that ends in a comment clause starts with its name and ends
      in a quote. */
  lemma ColumnEnds(column: string, fieldType: string, mid: string, text: string)
    requires column != []
    ensures var d := column + (" " + (fieldType + (mid + CommentClause(text))));
            d[0] == column[0] && d[|d| - 1] == '\''
  {
  }

  /** The key column of the `t_order` example,
      `id BIGINT PRIMARY KEY AUTO_INCREMENT COMMENT '主键'`, by its parts. */
  const IdColumn: string := "id" + (" " + ("BIGINT" + (IdMiddle + CommentClause("主键"))))
  const IdMiddle: string := " " + ("PRIMARY KEY" + (" AUTO_" + "INCREMENT "))

  lemma IdColumnPieces()
    ensures IsIdentifier("id") && forall k :: 0 <= k < 6 ==> IsTypeChar("BIGINT"[k])
    ensures !IsTypeChar(IdMiddle[0]) && IdMiddle[|IdMiddle| - 1] == ' '
    ensures '\'' !in "主键" && '_' !in "id"
  {
  }

  lemma IdPrefixCommentFree()
    ensures !Contains(UpperStr("id" + (" " + ("BIGINT" + IdMiddle))), "COMMENT")
  {
    var x := "id" + (" " + ("BIGINT" + (" " + ("PRIMARY KEY" + " AUTO_"))));
    var y := "INCREMENT ";
    assert "id" + (" " + ("BIGINT" + IdMiddle)) == x + y;
    NoCommentAcross(x, y);
  }

  /** An upper-case keyword written inside a text is found in its
      upper-cased form. */
  lemma KeywordInside(a: string, w: string, b: string)
    requires UpperStr(w) == w
    ensures Contains(UpperStr(a + (w + b)), w)
  {
    UpperStrAppend(a, w + b);
    UpperStrAppend(w, b);
    assert w <= UpperStr(a + (w + b))[|a|..];
    ContainsAt(UpperStr(a + (w + b)), |a|, w);
  }

  lemma IdColumnFlagged()
    ensures Contains(UpperStr(IdColumn), "PRIMARY KEY")
  {
    var a := "id" + (" " + ("BIGINT" + " "));
    var b := " AUTO_" + ("INCREMENT " + CommentClause("主键"));
    assert IdColumn == a + ("PRIMARY KEY" + b);
    assert UpperStr("PRIMARY KEY") == "PRIMARY KEY";
    KeywordInside(a, "PRIMARY KEY", b);
  }

  lemma IdColumnNotTableLevel()
    ensures !IsTableLevel(IdColumn)
  {
    var u := UpperStr(IdColumn);
    assert IdColumn[0] == 'i' && IdColumn[1] == 'd';
    assert |u| > 2 && u[0] == 'I' && u[1] == 'D';
  }

  /** The key column of the `t_order` example: an Integer field `id`
      (BIGINT is masked by INT) with comment `主键`, flagged as primary key. */
  lemma IdColumnParsed()
    ensures !IsTableLevel(IdColumn)
    ensures ParseFieldDefinition(IdColumn) == Some(FieldDefinition("id", "id", "Integer", "主键", true))
  {
    IdColumnNotTableLevel();
    IdColumnPieces();
    IdPrefixCommentFree();
    CommentedColumnParsed("id", "BIGINT", IdMiddle, "主键");
    IdColumnFlagged();
    BigintIsInteger();
    Naming.IdExample();
  }

  /** The second column of the `t_order` example,
      `amount DECIMAL(10,2) COMMENT '金额'`, by its parts: the type token stops
      at the comma inside the precision. */
  const AmountColumn: string := "amount" + (" " + ("DECIMAL(10" + (AmountMiddle + CommentClause("金额"))))
  const AmountMiddle: string := ",2) "

  lemma AmountColumnPieces()
    ensures IsIdentifier("amount") && forall k :: 0 <= k < 10 ==> IsTypeChar("DECIMAL(10"[k])
    ensures !IsTypeChar(AmountMiddle[0]) && AmountMiddle[|AmountMiddle| - 1] == ' '
    ensures '\'' !in "金额" && '_' !in "amount"
  {
  }

  lemma AmountPrefixCommentFree()
    ensures !Contains(UpperStr("amount" + (" " + ("DECIMAL(10" + AmountMiddle))), "COMMENT")
  {
    var x := "amount" + " DE";
    var y := "CIMAL(10" + ",2) ";
    assert "amount" + (" " + ("DECIMAL(10" + AmountMiddle)) == x + y;
    NoCommentAcross(x, y);
  }

  lemma AmountColumnUnflagged()
    ensures !Contains(UpperStr(AmountColumn), "PRIMARY KEY")
  {
    var c := CommentClause("金额");
    assert 'P' !in c && 'p' !in c;
    UpperStrMissing(AmountColumn, 'P');
    NotContainsMissing(UpperStr(AmountColumn), "PRIMARY KEY", 0);
  }

  lemma AmountColumnNotTableLevel()
    ensures !IsTableLevel(AmountColumn)
  {
    var u := UpperStr(AmountColumn);
    assert AmountColumn[0] == 'a';
    assert |u| > 2 && u[0] == 'A';
  }

  /** The second column of the `t_order` example: a BigDecimal field
      `amount` with comment `金额`, not flagged as primary key. */
  lemma AmountColumnParsed()
    ensures !IsTableLevel(AmountColumn)
    ensures ParseFieldDefinition(AmountColumn)
              == Some(FieldDefinition("amount", "amount", "java.math.BigDecimal", "金额", false))
  {
    AmountColumnNotTableLevel();
    AmountColumnPieces();
    AmountPrefixCommentFree();
    CommentedColumnParsed("amount", "DECIMAL(10", AmountMiddle, "金额");
    AmountColumnUnflagged();
    DecimalTokenIsBigDecimal();
    Naming.CamelCaseWithoutUnderscore("amount");
  }
}
