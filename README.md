# DDL parser of panda-common-plugin, modelled in Dafny

The plugin's `DDLSqlParser` turns one MySQL-style `CREATE TABLE` statement into:
- a table name;
- an ordered list of field definitions (Java field name, column name, Java type, comment, primary-key flag);
- a primary-key choice.

It is a pipeline of string transforms:
1. `normalizeSql` strips comments, collapses whitespace and trims.
2. `extractTableName` reads the table name.
3. `extractFields` takes the body between the first `(` and the last `)`. It splits the body on commas outside flat parenthesis groups. It skips table-level clauses and parses each remaining fragment with `parseFieldDefinition`. That function uses `sqlTypeToJavaType`, `extractComment` and `underscoreToCamelCase`.
4. `identifyPrimaryKey` picks the key.
5. `ParseResult.className` converts the table name with `tableNameToClassName`.

`parse` throws a `ParseException` in four cases. The model returns a `Result` whose failure names the case instead.

Every regular expression the parser uses is written out as a scanner with the exact `java.util.regex` semantics of that pattern:
- the leftmost match of `find()`;
- greedy and lazy quantifiers;
- the lookahead of the comma split;
- `\s`, `\w` and `.` as Java defines them;
- the effect of `DOTALL` and `CASE_INSENSITIVE`.

Two patterns depend on backtracking. In the body pattern `\((.*)\)` the greedy `.*` gives characters back until a `)` follows, so the body ends at the last `)`. The lazy `.*?\*/` of the block-comment pattern grows until `*/` follows, so it ends at the first `*/`. The other patterns never backtrack into a shorter run: `--[^\n]*`, `\s+`, TABLE_PATTERN, the split's lookahead `[^()]*\)`, the name and type patterns of `parseFieldDefinition` and COMMENT_PATTERN. In each of them every run is followed by a character its own class excludes, so each scanner reads the longest run of each part.

Modules, in pipeline order:
- `Wrappers`: `Option` and `Result`.
- `Text`:
  - the character classes: regex `\s`, Kotlin `isWhitespace`, `\w`;
  - ASCII case mapping;
  - Kotlin `trim()`;
  - `Contains`;
  - `Run` (a greedy character-class run);
  - `Find` (leftmost-match search) with its characterization `FindLeftmost`.
- `Normalizer`: `normalizeSql`.
- `TableName`: `extractTableName` and TABLE_PATTERN.
- `Splitter`: the body pattern `\((.*)\)` and the split `,(?![^()]*\))`.
- `Naming`: `underscoreToCamelCase` and `tableNameToClassName`. Both loops are methods proved equal to one specification, `Recase`.
- `FieldParser`:
  - `parseFieldDefinition`, `sqlTypeToJavaType` and `extractComment`;
  - the table-level keyword test.
- `DdlParser`: `extractFields` and `identifyPrimaryKey` (both loops, as methods), and `parse`.

Where the documented intent and the code differ, the model follows the code:
- **The body starts at the first `(` of the whole statement.** It does not start at the `(` after the table name, so text in parentheses before `CREATE TABLE` shifts it.
- **Normalizing is not idempotent.** `-/**/-` becomes `--` once the block comment is removed. Normalizing again deletes that as a line comment. The model proves idempotence for text without `--` and `/*`, and proves the counterexample.
- **A block comment that spans a line break is kept.** The block-comment pattern has no DOTALL.
- **A block comment can split a keyword.** Comments are deleted, not replaced by a space, so `CRE/**/ATE TABLE t (a INT)` parses to table `t` with the single Integer field `a`.
- **`bigint` maps to `Integer`.** The `int` test comes first, so the `bigint` branch of the Long rule can never fire.
- **The type token of `DECIMAL(10,2)` is `DECIMAL(10`.** The split keeps the inner comma, but the type pattern stops at it.
- **The comma split does not count nesting.** In `f(a, g(b))` the comma after `a` is a split point.
- **A column whose name starts with a table-level keyword is dropped.** For example `key_name BIGINT`.

Both the regex `\s` and Kotlin's `isWhitespace` are modelled. `trim()` and the blank-input test use `isWhitespace`; the patterns use `\s`.

## Model

| member | source | states |
|---|---|---|
| Normalizer.StripLineComments | src/main/kotlin/com/github/iappapp/panda/idea/parser/DDLSqlParser.kt:40 | no `--` is left; every line feed is kept; text without `--` is unchanged; LineCommentDropped states that only the comment goes |
| Normalizer.CommentClose | src/main/kotlin/com/github/iappapp/panda/idea/parser/DDLSqlParser.kt:41 | the lazy `.*?\*/` ends at the first `*/`, crossing no line terminator |
| Normalizer.StripBlockComments | src/main/kotlin/com/github/iappapp/panda/idea/parser/DDLSqlParser.kt:41 | every line feed is kept; text without `/*` is unchanged; BlockCommentDropped states that only the comment goes |
| Normalizer.CollapseSpaces | src/main/kotlin/com/github/iappapp/panda/idea/parser/DDLSqlParser.kt:42 | the result is single-spaced, has the same non-space characters in order, is empty exactly when the input is, and starts with the input's first character (a space if that is whitespace); CollapseAround states that each run becomes exactly one space |
| Normalizer.Normalize | src/main/kotlin/com/github/iappapp/panda/idea/parser/DDLSqlParser.kt:38-44 | the result starts and ends with a character that is not Kotlin whitespace, and every regex `\s` character in it is a single space between characters outside `\s`; NormalizedUnchanged, TrailingCommentDropped and EmptyCommentJoins tie it to the input |
| Normalizer.EmptyCommentJoins | src/main/kotlin/com/github/iappapp/panda/idea/parser/DDLSqlParser.kt:38-44 | deleting an empty block comment joins the text around it: normalized text with `/**/` inserted anywhere normalizes back to the text without it |
| Normalizer.CommentInsideKeyword | src/main/kotlin/com/github/iappapp/panda/idea/parser/DDLSqlParser.kt:38-44 | `CRE/**/ATE TABLE t (a INT)` normalizes to `CREATE TABLE t (a INT)` |
| Normalizer.NormalizeSql | src/main/kotlin/com/github/iappapp/panda/idea/parser/DDLSqlParser.kt:38-44 | the stage-by-stage method computes Normalize, so its result has the properties proved for Normalize |
| Normalizer.CollapseKeepsPairAbsent | src/main/kotlin/com/github/iappapp/panda/idea/parser/DDLSqlParser.kt:42 | collapsing whitespace creates no two-character token that contains no whitespace |
| Normalizer.NormalizeIdempotent | src/main/kotlin/com/github/iappapp/panda/idea/parser/DDLSqlParser.kt:38-44 | on text without `--` and `/*`, normalizing twice equals normalizing once |
| Normalizer.CommentJoinsDashes | src/main/kotlin/com/github/iappapp/panda/idea/parser/DDLSqlParser.kt:40-43 | `-/**/-` normalizes to `--` |
| Normalizer.NormalizeNotIdempotent | src/main/kotlin/com/github/iappapp/panda/idea/parser/DDLSqlParser.kt:38-44 | without that precondition idempotence fails: the second pass deletes `--` |
| Normalizer.MultiLineCommentKept | src/main/kotlin/com/github/iappapp/panda/idea/parser/DDLSqlParser.kt:41 | a block comment that spans a line feed is not removed |
| Normalizer.StripLineKeepsPrefix | src/main/kotlin/com/github/iappapp/panda/idea/parser/DDLSqlParser.kt:40 | text without `--` that does not end in `-` is copied unchanged in front of whatever the pass makes of the rest |
| Normalizer.LineCommentDropped | src/main/kotlin/com/github/iappapp/panda/idea/parser/DDLSqlParser.kt:40 | exactly the comment goes: `a--c\nb` becomes `a`, the line feed and the stripped `b`, for `c` without a line feed |
| Normalizer.LineCommentAtEnd | src/main/kotlin/com/github/iappapp/panda/idea/parser/DDLSqlParser.kt:40 | a line comment that runs to the end of the text leaves exactly the text before it |
| Normalizer.StripBlockKeepsPrefix | src/main/kotlin/com/github/iappapp/panda/idea/parser/DDLSqlParser.kt:41 | text that opens no block comment is copied unchanged in front of whatever the pass makes of the rest |
| Normalizer.BlockCommentDropped | src/main/kotlin/com/github/iappapp/panda/idea/parser/DDLSqlParser.kt:41 | exactly the comment goes: the text before a block comment that closes on its own line (no line terminator or `*/` inside) is kept, and the text after is stripped in turn |
| Normalizer.CollapseAppend | src/main/kotlin/com/github/iappapp/panda/idea/parser/DDLSqlParser.kt:42 | collapsing splits at a boundary that does not follow whitespace: the result is the two collapsed pieces joined |
| Normalizer.CollapseAround | src/main/kotlin/com/github/iappapp/panda/idea/parser/DDLSqlParser.kt:42 | a maximal whitespace run becomes exactly one space, with the text on either side collapsed on its own |
| Normalizer.NormalizedUnchanged | src/main/kotlin/com/github/iappapp/panda/idea/parser/DDLSqlParser.kt:38-44 | text with no comment markers, single spaces only and no whitespace at either end is returned unchanged |
| Normalizer.TrailingCommentDropped | src/main/kotlin/com/github/iappapp/panda/idea/parser/DDLSqlParser.kt:38-44 | such text followed by ` --` and a one-line comment normalizes back to itself |
| TableName.MatchNameAt | src/main/kotlin/com/github/iappapp/panda/idea/parser/DDLSqlParser.kt:215 | a match of `` `?([\w_]+)`?\s*\( `` yields a non-empty word-character identifier, and the text holds `(` |
| TableName.MatchTableAt | src/main/kotlin/com/github/iappapp/panda/idea/parser/DDLSqlParser.kt:214-215 | a match of TABLE_PATTERN starts with `CREATE` in any case and yields an identifier |
| TableName.ExtractTableName | src/main/kotlin/com/github/iappapp/panda/idea/parser/DDLSqlParser.kt:46-49 | a found name is an identifier; it is group 1 of the leftmost position where TABLE_PATTERN matches; None exactly when it matches at no position |
| TableName.FoundTableNeedsCreate | src/main/kotlin/com/github/iappapp/panda/idea/parser/DDLSqlParser.kt:46-49 | a table name is found only if the text contains `CREATE` (any case) and `(` |
| TableName.NameAfterQuote | src/main/kotlin/com/github/iappapp/panda/idea/parser/DDLSqlParser.kt:215 | an identifier, bare or in backticks, then any run of `\s` characters (possibly empty) and `(`, reads back as that identifier |
| TableName.ExtractRendered | src/main/kotlin/com/github/iappapp/panda/idea/parser/DDLSqlParser.kt:46-49 | round trip: `create table name` followed by any run of `\s` characters (possibly empty) and `(`, with the keywords in any case and the name bare or in backticks, gives back the name |
| TableName.TableT | src/main/kotlin/com/github/iappapp/panda/idea/parser/DDLSqlParser.kt:46-49 | a statement starting `CREATE TABLE t (` names the table `t` |
| TableName.NamedAfterHeader | src/main/kotlin/com/github/iappapp/panda/idea/parser/DDLSqlParser.kt:46-49 | round trip: a statement starting `CREATE TABLE name (`, for an identifier `name`, names the table `name` whatever follows |
| Splitter.BodyAfterHeader | src/main/kotlin/com/github/iappapp/panda/idea/parser/DDLSqlParser.kt:54-61 | a header without `(` followed by `(body)` yields exactly that body |
| Splitter.BodyBeforeTail | src/main/kotlin/com/github/iappapp/panda/idea/parser/DDLSqlParser.kt:54-61 | a header without `(`, then `(body)`, then a tail without `)` (such as a table option) yields exactly that body |
| Splitter.FirstIndex | src/main/kotlin/com/github/iappapp/panda/idea/parser/DDLSqlParser.kt:54-60 | the index found holds the character and no earlier index does; None means the character is absent |
| Splitter.LastIndex | src/main/kotlin/com/github/iappapp/panda/idea/parser/DDLSqlParser.kt:54-60 | the index found holds the character and no later index does; None means the character is absent |
| Splitter.ExtractBody | src/main/kotlin/com/github/iappapp/panda/idea/parser/DDLSqlParser.kt:54-61 | `\((.*)\)` with DOTALL: the text between the first `(` and the last `)`, or None; BodyBetweenFirstAndLast states both directions |
| Splitter.BodyBetweenFirstAndLast | src/main/kotlin/com/github/iappapp/panda/idea/parser/DDLSqlParser.kt:54-60 | a body exists exactly when some `(` precedes some `)`; it is the text strictly between the first `(` and the last `)` |
| Splitter.ClosesFirstMeaning | src/main/kotlin/com/github/iappapp/panda/idea/parser/DDLSqlParser.kt:62 | the lookahead test holds exactly when `[^()]*\)` matches at the start |
| Splitter.FirstSplit | src/main/kotlin/com/github/iappapp/panda/idea/parser/DDLSqlParser.kt:62 | the result is a split comma and no split comma comes before it |
| Splitter.SplitDefinitions | src/main/kotlin/com/github/iappapp/panda/idea/parser/DDLSqlParser.kt:62 | there is one more piece than there are split commas, and joining the pieces with commas gives the body back |
| Splitter.SplitCutsAtSplitCommas | src/main/kotlin/com/github/iappapp/panda/idea/parser/DDLSqlParser.kt:62 | every cut between pieces sits on a comma the split pattern matches |
| Splitter.SplitPieceInText | src/main/kotlin/com/github/iappapp/panda/idea/parser/DDLSqlParser.kt:62 | each piece is the slice of the body at its offset |
| Splitter.CommaInsideGroupKept | src/main/kotlin/com/github/iappapp/panda/idea/parser/DDLSqlParser.kt:62 | a comma followed by text without parentheses and then `)` (as in `DECIMAL(10,2)`) is never a split point |
| Splitter.CommaBeforeOpenSplits | src/main/kotlin/com/github/iappapp/panda/idea/parser/DDLSqlParser.kt:62 | a comma after which every `)` is preceded by a `(` is a split point, even inside a group |
| Splitter.SplitAtFirstComma | src/main/kotlin/com/github/iappapp/panda/idea/parser/DDLSqlParser.kt:62 | a comma-free first piece followed by a comma whose lookahead fails is cut off, and the rest is split on its own |
| Splitter.KeptCommaOnePiece | src/main/kotlin/com/github/iappapp/panda/idea/parser/DDLSqlParser.kt:62 | a text whose only comma is followed by `)` before any `(` stays one piece |
| Naming.DropUnderscores | src/main/kotlin/com/github/iappapp/panda/idea/parser/DDLSqlParser.kt:148-151 | the text with its underscores removed contains none |
| Naming.RecaseKeepsCharacters | src/main/kotlin/com/github/iappapp/panda/idea/parser/DDLSqlParser.kt:144-163 | the output has no `_`; its length is the input's minus its underscores; position by position it is the input without underscores, possibly upper-cased |
| Naming.CamelCaseWithoutUnderscore | src/main/kotlin/com/github/iappapp/panda/idea/parser/DDLSqlParser.kt:144-163 | a column name without underscores is its own field name |
| Naming.WalkAppend | src/main/kotlin/com/github/iappapp/panda/idea/parser/DDLSqlParser.kt:148-159 | one more character through the front-to-back walk with the flag: an underscore adds nothing; any other character is appended, upper-cased exactly when it follows an underscore (or, at the start, when the walk starts with the flag set) |
| Naming.RecaseIsWalk | src/main/kotlin/com/github/iappapp/panda/idea/parser/DDLSqlParser.kt:148-160 | the specification equals the front-to-back walk with the flag |
| Naming.UnderscoreToCamelCase | src/main/kotlin/com/github/iappapp/panda/idea/parser/DDLSqlParser.kt:144-163 | the loop computes CamelCase of the name |
| Naming.TableNameToClassName | src/main/kotlin/com/github/iappapp/panda/idea/parser/DDLSqlParser.kt:184-207 | the loop computes ClassNameOf the table name |
| Naming.CreatedAtExample | src/main/kotlin/com/github/iappapp/panda/idea/parser/DDLSqlParser.kt:144-163 | `created_at` becomes `createdAt` |
| Naming.IdExample | src/main/kotlin/com/github/iappapp/panda/idea/parser/DDLSqlParser.kt:144-163 | `id` stays `id` |
| Naming.FlagClearedExample | src/main/kotlin/com/github/iappapp/panda/idea/parser/DDLSqlParser.kt:152-158 | a digit after an underscore clears the flag: `a_1b` becomes `a1b` |
| Naming.UserAccountExample | src/main/kotlin/com/github/iappapp/panda/idea/parser/DDLSqlParser.kt:184-207 | `t_user_account` becomes `UserAccount` |
| Naming.DoublePrefixExample | src/main/kotlin/com/github/iappapp/panda/idea/parser/DDLSqlParser.kt:186-188 | only one `t_` is stripped: `t_t_x` becomes `TX` |
| Naming.OrderExample | src/main/kotlin/com/github/iappapp/panda/idea/parser/DDLSqlParser.kt:184-207 | `t_order` becomes `Order` |
| FieldParser.IsTableLevel | src/main/kotlin/com/github/iappapp/panda/idea/parser/DDLSqlParser.kt:67-76 | the fragment, upper-cased, starts with one of the six table-level keywords; KeyNamedColumnSkipped and TableLevelSkipped state its effect |
| FieldParser.KeyNamedColumnSkipped | src/main/kotlin/com/github/iappapp/panda/idea/parser/DDLSqlParser.kt:67-76 | a fragment starting `key_name` counts as table-level |
| FieldParser.MatchColumn | src/main/kotlin/com/github/iappapp/panda/idea/parser/DDLSqlParser.kt:92-99 | a match yields an identifier and ends after a whitespace run, before a non-space |
| FieldParser.TypeToken | src/main/kotlin/com/github/iappapp/panda/idea/parser/DDLSqlParser.kt:101-107 | the token is the longest non-empty prefix of `[\w()]` characters; there is none exactly when the remainder is empty or starts outside the class |
| FieldParser.SqlTypeToJavaType | src/main/kotlin/com/github/iappapp/panda/idea/parser/DDLSqlParser.kt:123-137 | the type table: the first rule whose keyword occurs in the lower-cased type decides; JavaTypeListed, IntWins, LongOnlyThroughLong and OtherTypesAreStrings state what it yields |
| FieldParser.JavaTypeListed | src/main/kotlin/com/github/iappapp/panda/idea/parser/DDLSqlParser.kt:123-137 | the mapping is total and always yields one of the eight listed Java types |
| FieldParser.IntWins | src/main/kotlin/com/github/iappapp/panda/idea/parser/DDLSqlParser.kt:127 | any type containing `int` (any case) maps to Integer |
| FieldParser.LongOnlyThroughLong | src/main/kotlin/com/github/iappapp/panda/idea/parser/DDLSqlParser.kt:127-128 | Long results exactly when the type lacks `int` and contains `long` |
| FieldParser.BigintIsInteger | src/main/kotlin/com/github/iappapp/panda/idea/parser/DDLSqlParser.kt:127-128 | `BIGINT` maps to Integer |
| FieldParser.DatetimeIsDate | src/main/kotlin/com/github/iappapp/panda/idea/parser/DDLSqlParser.kt:131 | `datetime` maps to java.util.Date |
| FieldParser.DecimalTokenIsBigDecimal | src/main/kotlin/com/github/iappapp/panda/idea/parser/DDLSqlParser.kt:101-130 | the token read from `DECIMAL(10,2)` is `DECIMAL(10`, and it maps to java.math.BigDecimal |
| FieldParser.OtherTypesAreStrings | src/main/kotlin/com/github/iappapp/panda/idea/parser/DDLSqlParser.kt:135 | a type maps to String exactly when its lower-cased form names none of the fourteen keywords of lines 127-134 |
| FieldParser.TextIsString | src/main/kotlin/com/github/iappapp/panda/idea/parser/DDLSqlParser.kt:135 | `TEXT` maps to String |
| FieldParser.MatchCommentAt | src/main/kotlin/com/github/iappapp/panda/idea/parser/DDLSqlParser.kt:223-224 | a match starts with `COMMENT` in any case, and its text has no quote |
| FieldParser.ExtractComment | src/main/kotlin/com/github/iappapp/panda/idea/parser/DDLSqlParser.kt:139-142 | the comment has no quote; when COMMENT_PATTERN matches somewhere, the result is the group of its leftmost match; with no match it is empty |
| FieldParser.NoKeywordNoComment | src/main/kotlin/com/github/iappapp/panda/idea/parser/DDLSqlParser.kt:139-142 | without the keyword COMMENT the comment is empty |
| FieldParser.CommentRendered | src/main/kotlin/com/github/iappapp/panda/idea/parser/DDLSqlParser.kt:223-224 | `COMMENT 'text'` (keyword in any case, text without quotes) matches with group `text` |
| FieldParser.CommentAfterPrefix | src/main/kotlin/com/github/iappapp/panda/idea/parser/DDLSqlParser.kt:139-142 | round trip: after a keyword-free prefix ending in a space, the clause's text is the comment read back |
| FieldParser.ParseFieldDefinition | src/main/kotlin/com/github/iappapp/panda/idea/parser/DDLSqlParser.kt:87-121 | a produced field has a word-character column name, the camel-case field name of it, a listed Java type, the fragment's comment, and a primary-key flag set exactly when the upper-cased fragment contains `PRIMARY KEY` |
| FieldParser.FieldNeedsNameAndType | src/main/kotlin/com/github/iappapp/panda/idea/parser/DDLSqlParser.kt:87-107 | a field is produced exactly when the name pattern matches and a type token follows it, so no name match means no field |
| FieldParser.NoWhitespaceNoField | src/main/kotlin/com/github/iappapp/panda/idea/parser/DDLSqlParser.kt:92-96 | a fragment without whitespace yields no field |
| FieldParser.NoLeadingIdentifierNoField | src/main/kotlin/com/github/iappapp/panda/idea/parser/DDLSqlParser.kt:92-96 | a fragment that starts with neither a backtick nor a word character yields no field |
| FieldParser.MissingTypeNoField | src/main/kotlin/com/github/iappapp/panda/idea/parser/DDLSqlParser.kt:101-105 | a name not followed by a type token yields no field |
| FieldParser.IntColumnParsed | src/main/kotlin/com/github/iappapp/panda/idea/parser/DDLSqlParser.kt:67-121 | the fragment `a INT` is not table-level and parses to the field `a` of Java type Integer, without comment or key flag |
| FieldParser.ColumnRendered | src/main/kotlin/com/github/iappapp/panda/idea/parser/DDLSqlParser.kt:87-121 | round trip: `name TYPE…`, with the name bare or in backticks, parses to that column with the token's Java type |
| FieldParser.CommentedColumnParsed | src/main/kotlin/com/github/iappapp/panda/idea/parser/DDLSqlParser.kt:87-121 | round trip: `name TYPE…` followed by `COMMENT 'text'`, with nothing between holding COMMENT, parses to that column, the type's Java type and the comment `text`, flagged exactly when it holds `PRIMARY KEY` |
| FieldParser.IdColumnParsed | src/main/kotlin/com/github/iappapp/panda/idea/parser/DDLSqlParser.kt:67-121 | `id BIGINT PRIMARY KEY AUTO_INCREMENT COMMENT '主键'` is not table-level and parses to the Integer field `id` with comment `主键`, flagged as primary key |
| FieldParser.AmountColumnParsed | src/main/kotlin/com/github/iappapp/panda/idea/parser/DDLSqlParser.kt:67-121 | `amount DECIMAL(10,2) COMMENT '金额'` is not table-level and parses to the java.math.BigDecimal field `amount` with comment `金额`, not flagged |
| DdlParser.FieldOf | src/main/kotlin/com/github/iappapp/panda/idea/parser/DDLSqlParser.kt:65-81 | one fragment: trimmed, skipped when table-level, otherwise parsed; TableLevelSkipped and FieldsWellFormed state what it yields |
| DdlParser.CollectMembers | src/main/kotlin/com/github/iappapp/panda/idea/parser/DDLSqlParser.kt:64-82 | no more values than pieces; each value comes from some piece, and each piece that yields a value contributes it |
| DdlParser.FieldsInOrder | src/main/kotlin/com/github/iappapp/panda/idea/parser/DDLSqlParser.kt:64-82 | fields keep the order of their fragments |
| DdlParser.FieldsWellFormed | src/main/kotlin/com/github/iappapp/panda/idea/parser/DDLSqlParser.kt:78-81 | every retained field has an identifier column, its camel-case name and a listed Java type |
| DdlParser.TableLevelSkipped | src/main/kotlin/com/github/iappapp/panda/idea/parser/DDLSqlParser.kt:67-76 | a fragment whose trimmed, upper-cased form starts with a table-level keyword contributes no field |
| DdlParser.ExtractFields | src/main/kotlin/com/github/iappapp/panda/idea/parser/DDLSqlParser.kt:51-85 | without a body the result is the invalid-syntax failure; otherwise it is the fields of the split body, in order |
| DdlParser.FirstPrimary | src/main/kotlin/com/github/iappapp/panda/idea/parser/DDLSqlParser.kt:166-170 | the result is a flagged field with no flagged field before it; None exactly when no field is flagged |
| DdlParser.PrimaryKeyChosen | src/main/kotlin/com/github/iappapp/panda/idea/parser/DDLSqlParser.kt:165-173 | a key exists exactly when there are fields; it is one of them; it is flagged when any field is; otherwise it is the first field |
| DdlParser.IdentifyPrimaryKey | src/main/kotlin/com/github/iappapp/panda/idea/parser/DDLSqlParser.kt:165-173 | the early-return loop computes PrimaryKeyOf |
| DdlParser.ParsedResultWellFormed | src/main/kotlin/com/github/iappapp/panda/idea/parser/DDLSqlParser.kt:16-36 | a successful parse has an identifier table name, at least one field, well-formed fields, and a primary key that is one of them |
| DdlParser.BlankRejected | src/main/kotlin/com/github/iappapp/panda/idea/parser/DDLSqlParser.kt:17-19 | whitespace-only input fails as empty input |
| DdlParser.WithoutCreateNoTable | src/main/kotlin/com/github/iappapp/panda/idea/parser/DDLSqlParser.kt:23-26 | non-blank input whose normalized text lacks `CREATE` fails for the missing table name |
| DdlParser.UnclosedBodyRejected | src/main/kotlin/com/github/iappapp/panda/idea/parser/DDLSqlParser.kt:57-59 | a statement with a table name but no `)` fails for invalid syntax |
| DdlParser.CommentSplitsKeyword | src/main/kotlin/com/github/iappapp/panda/idea/parser/DDLSqlParser.kt:16-36 | `CRE/**/ATE TABLE t (a INT)` parses successfully to table `t` with one Integer field `a`, which is also the primary key |
| DdlParser.PrimaryKeyOnlyNoColumns | src/main/kotlin/com/github/iappapp/panda/idea/parser/DDLSqlParser.kt:29-31 | a body holding only `PRIMARY KEY (id)` has no column, so the parse fails for having no fields |
| DdlParser.OrderParsed | src/main/kotlin/com/github/iappapp/panda/idea/parser/DDLSqlParser.kt:16-36 | `CREATE TABLE t_order (id BIGINT PRIMARY KEY AUTO_INCREMENT COMMENT '主键', amount DECIMAL(10,2) COMMENT '金额') COMMENT='订单表';` parses to table `t_order` with fields `id` (Integer, `主键`, key) and `amount` (java.math.BigDecimal, `金额`), primary key `id`, and class name `Order` |
| DdlParser.Parse | src/main/kotlin/com/github/iappapp/panda/idea/parser/DDLSqlParser.kt:16-36 | the method follows the source's checks in order and yields ParseDdl: the four failures, else the table name, the fields and their primary key |

## Left out

- Case mapping is ASCII only: `uppercase()`, `lowercase()`, `uppercaseChar()` and `isLetter()` are modelled on `A`-`Z` and `a`-`z`. Kotlin's Unicode mapping can change length (`ß` becomes `SS`) or turn a non-ASCII letter into an ASCII one (dotless `ı` becomes `I`). Names matched by `\w` are ASCII anyway. The two tests that upper-case a whole fragment, comment included, are affected: IsTableLevel (lines 67-76) and the PRIMARY KEY flag of ParseFieldDefinition (line 111). For example, `prımary key` with a dotless `ı` sets the source's flag but not the model's.
- `COLUMN_PATTERN` (lines 217-221) is declared but never used, so it is not modelled.
- The general Java regex engine is not modelled. Only the nine patterns the parser uses are written out as scanners: the three of `normalizeSql`, TABLE_PATTERN, the body pattern, the comma split, the name and type patterns of `parseFieldDefinition`, and COMMENT_PATTERN.
- The split's "no cut inside a piece" property is not stated on its own. It follows from SplitDefinitions (one piece more than split commas) together with SplitCutsAtSplitCommas (every cut is a split comma).
- `ParseException` is a `ParseError` value. `Message` keeps the source's message texts. The exception's `cause` and the throw itself are not modelled.
- `FieldDefinition` comes from a library that is not part of this model. It is a plain datatype with the five properties the builder sets.
- `ParseResult.className` is the function `ParseResult.ClassName`. Its loop is modelled by Naming.TableNameToClassName.
- A `null` input is modelled as `None`.
- Whitespace outside regex `\s`: `normalizeSql` collapses only `\s` runs, so Kotlin whitespace outside `\s` (such as U+00A0, the no-break space) survives inside the normalized text. Normalize states nothing about it beyond the trimmed ends, because the source does not either.
