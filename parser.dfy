/** `DDLSqlParser.parse` (DDLSqlParser.kt lines 16-36) with the loop of
    `extractFields` (lines 51-85) and `identifyPrimaryKey` (lines 165-173).
    The exceptions the source throws are the failures of a Result. */
module DdlParser {
  import opened Wrappers
  import opened Text
  import Normalizer
  import TableName
  import Splitter
  import Naming
  import opened FieldParser

  /** The four ParseException cases, in the order `parse` meets them. */
  datatype ParseError =
    | EmptyInput
    | MissingTableName
    | InvalidCreateTable
    | NoColumns

  /** The exception message the source attaches to each case. */
  function Message(e: ParseError): string {
    match e
    case EmptyInput => "SQL 语句不能为空"
    case MissingTableName => "无法从SQL中解析出表名"
    case InvalidCreateTable => "无效的CREATE TABLE语法"
    case NoColumns => "表中至少需要一个字段"
  }

  /** `ParseResult`: the table name, the columns in order, and the primary
      key field. */
  datatype ParseResult = ParseResult(
    tableName: string,
    fields: seq<FieldDefinition>,
    primaryKey: Option<FieldDefinition>)
  {
    /** The `className` property. */
    function ClassName(): string {
      Naming.ClassNameOf(tableName)
    }
  }

  /** What one split piece contributes: nothing for a table-level clause or a
      fragment that does not parse, else its field. */
  function FieldOf(definition: string): Option<FieldDefinition> {
    var trimmed := Trim(definition);
    if IsTableLevel(trimmed) then None else ParseFieldDefinition(trimmed)
  }

  /** The values `pick` yields on the pieces, in the order of the pieces. */
  function Collect<T>(pieces: seq<string>, pick: string -> Option<T>): seq<T>
    decreases |pieces|
  {
    if pieces == [] then []
    else
      var n := |pieces| - 1;
      Collect(pieces[..n], pick) + match pick(pieces[n]) { case Some(v) => [v] case None => [] }
  }

  /** Values of consecutive pieces come out in that order. */
  lemma {:induction false} CollectAppend<T>(a: seq<string>, b: seq<string>, pick: string -> Option<T>)
    ensures Collect(a + b, pick) == Collect(a, pick) + Collect(b, pick)
    decreases |b|
  {
    if b == [] {
      assert a + b == a;
    } else {
      var n := |b| - 1;
      assert (a + b)[..|a| + n] == a + b[..n];
      CollectAppend(a, b[..n], pick);
    }
  }

  /** Every value comes from some piece, and every piece that yields a value
      contributes it: nothing is invented or lost. */
  lemma {:induction false} CollectMembers<T>(pieces: seq<string>, pick: string -> Option<T>)
    ensures |Collect(pieces, pick)| <= |pieces|
    ensures forall v :: v in Collect(pieces, pick) ==>
              exists i :: 0 <= i < |pieces| && pick(pieces[i]) == Some(v)
    ensures forall i :: 0 <= i < |pieces| && pick(pieces[i]).Some? ==>
              pick(pieces[i]).value in Collect(pieces, pick)
    decreases |pieces|
  {
    if pieces != [] {
      var n := |pieces| - 1;
      var init := pieces[..n];
      CollectMembers(init, pick);
      var last := match pick(pieces[n]) { case Some(w) => [w] case None => [] };
      assert Collect(pieces, pick) == Collect(init, pick) + last;
      forall i | 0 <= i < n ensures pieces[i] == init[i] { }
      forall v | v in Collect(pieces, pick)
        ensures exists i :: 0 <= i < |pieces| && pick(pieces[i]) == Some(v)
      {
        if v in Collect(init, pick) {
          var i :| 0 <= i < |init| && pick(init[i]) == Some(v);
          assert pick(pieces[i]) == Some(v);
        } else {
          assert v in last;
          assert pick(pieces[n]) == Some(v);
        }
      }
    }
  }

  lemma CollectStep<T>(pieces: seq<string>, i: nat, pick: string -> Option<T>)
    requires i < |pieces|
    ensures Collect(pieces[..i + 1], pick)
              == Collect(pieces[..i], pick) + match pick(pieces[i]) { case Some(v) => [v] case None => [] }
  {
    assert pieces[..i + 1][..i] == pieces[..i];
  }

  /** The fields of the pieces, in the order of the pieces. */
  function FieldsOf(definitions: seq<string>): seq<FieldDefinition> {
    Collect(definitions, FieldOf)
  }

  /** Fields keep the order of their pieces: the fields of two runs of pieces
      are the fields of the first run followed by those of the second. */
  lemma FieldsInOrder(a: seq<string>, b: seq<string>)
    ensures FieldsOf(a + b) == FieldsOf(a) + FieldsOf(b)
  {
    CollectAppend(a, b, FieldOf);
  }

  /** Every field has a well-formed column name and the field name derived
      from it. */
  lemma FieldsWellFormed(definitions: seq<string>)
    ensures forall f :: f in FieldsOf(definitions) ==>
              IsIdentifier(f.columnName) && f.name == Naming.CamelCase(f.columnName) && IsJavaType(f.javaType)
  {
    CollectMembers(definitions, FieldOf);
    forall f | f in FieldsOf(definitions)
      ensures IsIdentifier(f.columnName) && f.name == Naming.CamelCase(f.columnName) && IsJavaType(f.javaType)
    {
      var i :| 0 <= i < |definitions| && FieldOf(definitions[i]) == Some(f);
      assert ParseFieldDefinition(Trim(definitions[i])) == Some(f);
    }
  }

  /** A piece starting with a table-level keyword, after trimming, adds no
      field. */
  lemma TableLevelSkipped(definition: string)
    requires IsTableLevel(Trim(definition))
    ensures FieldOf(definition).None?
  {
  }

  /** The fields of a normalized statement: None when the body pattern does
      not occur. */
  function FieldsOfSql(sql: string): Option<seq<FieldDefinition>> {
    match Splitter.ExtractBody(sql)
    case None => None
    case Some(body) => Some(FieldsOf(Splitter.SplitDefinitions(body)))
  }

  /** `extractFields`: the body, the split, and the loop that skips
      table-level clauses and fragments that do not parse. */
  method ExtractFields(sql: string) returns (r: Result<seq<FieldDefinition>, ParseError>)
    ensures Splitter.ExtractBody(sql).None? ==> r == Failure(InvalidCreateTable)
    ensures Splitter.ExtractBody(sql).Some? ==> r == Success(FieldsOfSql(sql).value)
  {
    var content := Splitter.ExtractBody(sql);
    if content.None? {
      return Failure(InvalidCreateTable);
    }
    var definitions := Splitter.SplitDefinitions(content.value);
    var fields: seq<FieldDefinition> := [];
    for i := 0 to |definitions|
      invariant fields == FieldsOf(definitions[..i])
    {
      CollectStep(definitions, i, FieldOf);
      var trimmed := Trim(definitions[i]);
      if IsTableLevel(trimmed) {
        continue;
      }
      var field := ParseFieldDefinition(trimmed);
      if field.Some? {
        fields := fields + [field.value];
      }
    }
    assert definitions[..|definitions|] == definitions;
    return Success(fields);
  }

  /** The first field flagged as primary key, if any. */
  function FirstPrimary(fields: seq<FieldDefinition>): (r: Option<FieldDefinition>)
    ensures r.Some? ==> exists i :: 0 <= i < |fields| && fields[i] == r.value && fields[i].primaryKey
                          && forall j :: 0 <= j < i ==> !fields[j].primaryKey
    ensures r.None? <==> forall i :: 0 <= i < |fields| ==> !fields[i].primaryKey
    decreases |fields|
  {
    if fields == [] then None
    else if fields[0].primaryKey then Some(fields[0])
    else
      var r := FirstPrimary(fields[1..]);
      assert forall i :: 1 <= i < |fields| ==> fields[i] == fields[1..][i - 1];
      if r.Some? then
        assert exists i :: 1 <= i < |fields| && fields[i] == r.value && fields[i].primaryKey
                 && forall j :: 0 <= j < i ==> !fields[j].primaryKey by {
          var i :| 0 <= i < |fields[1..]| && fields[1..][i] == r.value && fields[1..][i].primaryKey
                   && forall j :: 0 <= j < i ==> !fields[1..][j].primaryKey;
          assert forall j :: 1 <= j < i + 1 ==> !fields[j].primaryKey;
        }
        r
      else r
  }

  /** The primary key `identifyPrimaryKey` settles on: the first flagged
      field, else the first field, else none. */
  function PrimaryKeyOf(fields: seq<FieldDefinition>): Option<FieldDefinition> {
    match FirstPrimary(fields)
    case Some(f) => Some(f)
    case None => if fields == [] then None else Some(fields[0])
  }

  /** There is a primary key exactly when there are fields, it is one of
      them, and it is flagged whenever any field is. */
  lemma PrimaryKeyChosen(fields: seq<FieldDefinition>)
    ensures PrimaryKeyOf(fields).Some? <==> fields != []
    ensures PrimaryKeyOf(fields).Some? ==> PrimaryKeyOf(fields).value in fields
    ensures (exists i :: 0 <= i < |fields| && fields[i].primaryKey) ==> PrimaryKeyOf(fields).value.primaryKey
    ensures (forall i :: 0 <= i < |fields| ==> !fields[i].primaryKey) && fields != [] ==>
              PrimaryKeyOf(fields) == Some(fields[0])
  {
  }

  /** `identifyPrimaryKey`: the loop returns at the first flagged field. */
  method IdentifyPrimaryKey(fields: seq<FieldDefinition>) returns (pk: Option<FieldDefinition>)
    ensures pk == PrimaryKeyOf(fields)
  {
    for i := 0 to |fields|
      invariant forall j :: 0 <= j < i ==> !fields[j].primaryKey
    {
      if fields[i].primaryKey {
        assert FirstPrimary(fields) == Some(fields[i]) by {
          var w := FirstPrimary(fields);
          assert w.Some?;
          var k :| 0 <= k < |fields| && fields[k] == w.value && fields[k].primaryKey
                   && forall j :: 0 <= j < k ==> !fields[j].primaryKey;
          assert k == i;
        }
        return Some(fields[i]);
      }
    }
    if fields == [] {
      return None;
    }
    return Some(fields[0]);
  }

  /** `parse` as a function of its input; `None` stands for a null string. */
  function ParseDdl(ddlSql: Option<string>): Result<ParseResult, ParseError> {
    if ddlSql.None? || Trim(ddlSql.value) == [] then Failure(EmptyInput)
    else
      var sql := Normalizer.Normalize(ddlSql.value);
      match TableName.ExtractTableName(sql)
      case None => Failure(MissingTableName)
      case Some(tableName) =>
        match FieldsOfSql(sql)
        case None => Failure(InvalidCreateTable)
        case Some(fields) =>
          if fields == [] then Failure(NoColumns)
          else Success(ParseResult(tableName, fields, PrimaryKeyOf(fields)))
  }

  /** A successful parse names the table with an identifier, has at least
      one well-formed field, and picks one of them as primary key. */
  lemma ParsedResultWellFormed(ddlSql: Option<string>)
    requires ParseDdl(ddlSql).Success?
    ensures var p := ParseDdl(ddlSql).value;
            IsIdentifier(p.tableName) && p.fields != []
            && p.primaryKey.Some? && p.primaryKey.value in p.fields
            && forall f :: f in p.fields ==> IsIdentifier(f.columnName) && f.name == Naming.CamelCase(f.columnName)
  {
    var sql := Normalizer.Normalize(ddlSql.value);
    var name := TableName.ExtractTableName(sql).value;
    var definitions := Splitter.SplitDefinitions(Splitter.ExtractBody(sql).value);
    var fields := FieldsOf(definitions);
    assert ParseDdl(ddlSql) == Success(ParseResult(name, fields, PrimaryKeyOf(fields)));
    FieldsWellFormed(definitions);
    PrimaryKeyChosen(fields);
  }

  /** Blank input is rejected first, whatever else holds. */
  lemma BlankRejected(ddlSql: string)
    requires forall k :: 0 <= k < |ddlSql| ==> IsWhitespace(ddlSql[k])
    ensures ParseDdl(Some(ddlSql)) == Failure(EmptyInput)
  {
  }

  /** Once the input is not blank, a missing table name is the failure. */
  lemma TableNameMissing(ddlSql: string)
    requires Trim(ddlSql) != []
    requires TableName.ExtractTableName(Normalizer.Normalize(ddlSql)).None?
    ensures ParseDdl(Some(ddlSql)) == Failure(MissingTableName)
  {
  }

  lemma NoCreateNoName(sql: string)
    requires !Contains(UpperStr(sql), "CREATE")
    ensures TableName.ExtractTableName(sql).None?
  {
    if TableName.ExtractTableName(sql).Some? {
      TableName.FoundTableNeedsCreate(sql);
    }
  }

  /** Text without the keyword CREATE has no table name. */
  lemma WithoutCreateNoTable(ddlSql: string)
    requires Trim(ddlSql) != []
    requires !Contains(UpperStr(Normalizer.Normalize(ddlSql)), "CREATE")
    ensures ParseDdl(Some(ddlSql)) == Failure(MissingTableName)
  {
    NoCreateNoName(Normalizer.Normalize(ddlSql));
    TableNameMissing(ddlSql);
  }

  /** A statement whose table name is found but which has no closing
      parenthesis fails on its body. */
  lemma UnclosedBodyRejected(ddlSql: string)
    requires Trim(ddlSql) != []
    requires TableName.ExtractTableName(Normalizer.Normalize(ddlSql)).Some?
    requires ')' !in Normalizer.Normalize(ddlSql)
    ensures ParseDdl(Some(ddlSql)) == Failure(InvalidCreateTable)
  {
    Splitter.BodyBetweenFirstAndLast(Normalizer.Normalize(ddlSql));
  }

  /** A single piece contributes exactly its own value, or nothing. */
  lemma CollectOne<T>(piece: string, pick: string -> Option<T>)
    ensures Collect([piece], pick) == match pick(piece) { case Some(v) => [v] case None => [] }
  {
    assert [piece][..0] == [];
  }

  lemma IntColumnField(d: string)
    requires d == "a INT"
    ensures FieldOf(d) == Some(FieldDefinition("a", "a", "Integer", "", false))
  {
    TrimUntouched(d);
    IntColumnParsed(d);
  }

  lemma IntTableFields(x: string)
    requires x == "CREATE TABLE t (a INT)"
    ensures TableName.ExtractTableName(x) == Some("t")
    ensures FieldsOfSql(x) == Some([FieldDefinition("a", "a", "Integer", "", false)])
  {
    TableName.IntTableName(x);
    Splitter.IntTableBody(x);
    IntColumnField("a INT");
    CollectOne("a INT", FieldOf);
  }

  /** Comments are removed before the table pattern runs, so a block comment
      inside CREATE does not stop the statement from parsing: the keyword is
      joined, and the table and its one column are found. */
  lemma CommentSplitsKeyword()
    ensures var f := FieldDefinition("a", "a", "Integer", "", false);
            ParseDdl(Some("CRE/**/ATE TABLE t (a INT)")) == Success(ParseResult("t", [f], Some(f)))
  {
    var s := "CRE/**/ATE TABLE t (a INT)";
    assert !IsWhitespace(s[0]);
    Normalizer.CommentInsideKeyword(s);
    IntTableFields("CREATE TABLE t (a INT)");
  }

  lemma KeyClauseNoField(d: string)
    requires d == "PRIMARY KEY (id)"
    ensures FieldsOf([d]) == []
  {
    TrimUntouched(d);
    KeyClauseTableLevel(d);
    TableLevelSkipped(d);
    CollectOne(d, FieldOf);
  }

  lemma KeyTableFields(y: string)
    requires y == "CREATE TABLE t (PRIMARY KEY (id))"
    ensures TableName.ExtractTableName(y) == Some("t")
    ensures FieldsOfSql(y) == Some([])
  {
    TableName.KeyTableName(y);
    Splitter.KeyTableBody(y);
    KeyClauseNoField("PRIMARY KEY (id)");
  }

  /** A body made only of table-level clauses has no column, so the
      statement is rejected for having no fields. */
  lemma PrimaryKeyOnlyNoColumns()
    ensures ParseDdl(Some("CREATE TABLE t (PRIMARY KEY (id))")) == Failure(NoColumns)
  {
    var y := "CREATE TABLE t (PRIMARY KEY (id))";
    assert !IsWhitespace(y[0]);
    Normalizer.KeyTableNormal(y);
    KeyTableFields(y);
  }

  /** The `t_order` example statement,
      `CREATE TABLE t_order (id BIGINT PRIMARY KEY AUTO_INCREMENT COMMENT '主键',
      amount DECIMAL(10,2) COMMENT '金额') COMMENT='订单表';` on one line, by its
      parts. */
  const OrderDdl: string := OrderHead + ("(" + (OrderBody + (")" + OrderTail)))
  const OrderHead: string := "CREATE TABLE " + ("t_order" + " ")
  const OrderBody: string := IdColumn + ("," + (" " + AmountColumn))
  const OrderTail: string := " COMMENT='订单表';"

  lemma CommentClauseSpaced(text: string)
    requires Normalizer.SingleSpaced(text)
    ensures Normalizer.SingleSpaced(CommentClause(text))
  {
    Normalizer.SpacedConcat(text, "'");
    Normalizer.SpacedConcat(" '", text + "'");
    Normalizer.SpacedConcat("COMMENT", " '" + (text + "'"));
  }

  lemma IdMiddleSpaced()
    ensures Normalizer.SingleSpaced(IdMiddle)
  {
    Normalizer.SpacedConcat(" AUTO_", "INCREMENT ");
    Normalizer.SpacedConcat("PRIMARY KEY", " AUTO_" + "INCREMENT ");
    Normalizer.SpacedConcat(" ", "PRIMARY KEY" + (" AUTO_" + "INCREMENT "));
  }

  lemma IdColumnSpaced()
    ensures Normalizer.SingleSpaced(IdColumn)
  {
    CommentClauseSpaced("主键");
    IdMiddleSpaced();
    Normalizer.SpacedColumn("id", "BIGINT", IdMiddle, CommentClause("主键"));
  }

  lemma AmountColumnSpaced()
    ensures Normalizer.SingleSpaced(AmountColumn)
  {
    CommentClauseSpaced("金额");
    Normalizer.SpacedColumn("amount", "DECIMAL(10", AmountMiddle, CommentClause("金额"));
  }

  lemma OrderSpaced()
    ensures Normalizer.SingleSpaced(OrderDdl)
  {
    IdColumnSpaced();
    AmountColumnSpaced();
    Normalizer.SpacedAfterComma(IdColumn, AmountColumn);
    Normalizer.SpacedEnclosed(OrderHead, OrderBody, OrderTail);
  }

  lemma IdColumnMarkerFree()
    ensures '-' !in IdColumn && '*' !in IdColumn
  {
    var c := CommentClause("主键");
    assert '-' !in c && '*' !in c;
    assert '-' !in IdMiddle && '*' !in IdMiddle;
  }

  lemma AmountColumnMarkerFree()
    ensures '-' !in AmountColumn && '*' !in AmountColumn
  {
    var c := CommentClause("金额");
    assert '-' !in c && '*' !in c;
  }

  lemma OrderMarkerFree()
    ensures '-' !in OrderDdl && '*' !in OrderDdl
  {
    IdColumnMarkerFree();
    AmountColumnMarkerFree();
    assert '-' !in OrderHead && '*' !in OrderHead;
    assert '-' !in OrderTail && '*' !in OrderTail;
  }

  /** The `t_order` statement is already in normal form. */
  lemma OrderNormal()
    ensures Normalizer.Normalize(OrderDdl) == OrderDdl
  {
    OrderMarkerFree();
    Normalizer.NoMarkerCharacters(OrderDdl);
    OrderSpaced();
    assert OrderDdl[0] == 'C' && OrderDdl[|OrderDdl| - 1] == ';';
    Normalizer.NormalizedUnchanged(OrderDdl);
  }

  lemma OrderTableName()
    ensures TableName.ExtractTableName(OrderDdl) == Some("t_order")
  {
    Naming.OrderIdentifier("t_order");
    TableName.NamedAfterHeader("t_order", OrderBody + (")" + OrderTail));
  }

  lemma OrderBodyFound()
    ensures Splitter.ExtractBody(OrderDdl) == Some(OrderBody)
  {
    assert '(' !in OrderHead && ')' !in OrderTail;
    Splitter.BodyBeforeTail(OrderHead, OrderBody, OrderTail);
  }

  /** After the comma that ends the key column, `(` comes before any `)`. */
  lemma AmountOpensFirst()
    ensures !Splitter.ClosesFirst(" " + AmountColumn)
  {
    var w := " " + ("amount" + (" " + "DECIMAL"));
    var v := "10" + (AmountMiddle + CommentClause("金额"));
    assert "DECIMAL(10" == "DECIMAL" + ("(" + "10");
    assert " " + AmountColumn == w + ("(" + v);
    Splitter.OpensFirst(w, v);
  }

  /** The comma of `DECIMAL(10,2)` is followed by `2)`, so it does not cut. */
  lemma AmountOnePiece()
    ensures Splitter.SplitDefinitions(" " + AmountColumn) == [" " + AmountColumn]
  {
    var c := CommentClause("金额");
    var u := " " + ("amount" + (" " + "DECIMAL(10"));
    var t := "2" + (")" + (" " + c));
    assert AmountMiddle == "," + ("2" + (") "));
    assert " " + AmountColumn == u + ("," + t);
    assert ',' !in c;
    Splitter.ClosesAfter("2", " " + c);
    Splitter.KeptCommaOnePiece(u, t);
  }

  /** The body of the `t_order` statement splits into its two columns. */
  lemma OrderPieces()
    ensures Splitter.SplitDefinitions(OrderBody) == [IdColumn, " " + AmountColumn]
  {
    assert ',' !in CommentClause("主键") && ',' !in IdMiddle;
    AmountOpensFirst();
    Splitter.SplitAtFirstComma(IdColumn, " " + AmountColumn);
    AmountOnePiece();
  }

  const IdField: FieldDefinition := FieldDefinition("id", "id", "Integer", "主键", true)
  const AmountField: FieldDefinition := FieldDefinition("amount", "amount", "java.math.BigDecimal", "金额", false)

  /** A piece that trims to a column definition is that column's field. */
  lemma FieldOfParsed(d: string, f: FieldDefinition)
    requires !IsTableLevel(Trim(d)) && ParseFieldDefinition(Trim(d)) == Some(f)
    ensures FieldOf(d) == Some(f)
  {
  }

  /** Two pieces that are both fields give those fields in order. */
  lemma CollectTwo<T>(a: string, b: string, pick: string -> Option<T>, v: T, w: T)
    requires pick(a) == Some(v) && pick(b) == Some(w)
    ensures Collect([a, b], pick) == [v, w]
  {
    assert [a, b][..1] == [a];
    CollectOne(a, pick);
  }

  lemma FieldsOfTwo(a: string, b: string, f: FieldDefinition, g: FieldDefinition)
    requires FieldOf(a) == Some(f) && FieldOf(b) == Some(g)
    ensures FieldsOf([a, b]) == [f, g]
  {
    CollectTwo(a, b, FieldOf, f, g);
  }

  lemma IdColumnField()
    ensures FieldOf(IdColumn) == Some(IdField)
  {
    ColumnEnds("id", "BIGINT", IdMiddle, "主键");
    TrimUntouched(IdColumn);
    IdColumnParsed();
    FieldOfParsed(IdColumn, IdField);
  }

  lemma AmountColumnField()
    ensures FieldOf(" " + AmountColumn) == Some(AmountField)
  {
    ColumnEnds("amount", "DECIMAL(10", AmountMiddle, "金额");
    TrimLeadingSpace(AmountColumn);
    AmountColumnParsed();
    FieldOfParsed(" " + AmountColumn, AmountField);
  }

  lemma OrderFields()
    ensures FieldsOf([IdColumn, " " + AmountColumn]) == [IdField, AmountField]
  {
    IdColumnField();
    AmountColumnField();
    FieldsOfTwo(IdColumn, " " + AmountColumn, IdField, AmountField);
  }

  /** The `t_order` statement end to end: table `t_order`, class `Order`,
      the Integer key column `id` and the BigDecimal column `amount`, each
      with its comment, and `id` as primary key; the table comment after the
      body is ignored. */
  lemma OrderParsed()
    ensures ParseDdl(Some(OrderDdl)) == Success(ParseResult("t_order", [IdField, AmountField], Some(IdField)))
    ensures ParseDdl(Some(OrderDdl)).value.ClassName() == "Order"
  {
    assert !IsWhitespace(OrderDdl[0]);
    OrderNormal();
    OrderTableName();
    OrderBodyFound();
    OrderPieces();
    OrderFields();
    Naming.OrderExample();
  }

  /** `parse`: the checks in the source's order, then the primary key. */
  method Parse(ddlSql: Option<string>) returns (r: Result<ParseResult, ParseError>)
    ensures r == ParseDdl(ddlSql)
  {
    if ddlSql.None? || Trim(ddlSql.value) == [] {
      return Failure(EmptyInput);
    }
    var normalizedSql := Normalizer.NormalizeSql(ddlSql.value);
    var tableName := TableName.ExtractTableName(normalizedSql);
    if tableName.None? {
      return Failure(MissingTableName);
    }
    var fields := ExtractFields(normalizedSql);
    if fields.Failure? {
      return Failure(fields.error);
    }
    if fields.value == [] {
      return Failure(NoColumns);
    }
    var primaryKey := IdentifyPrimaryKey(fields.value);
    return Success(ParseResult(tableName.value, fields.value, primaryKey));
  }
}
