/** Java names from SQL names: `underscoreToCamelCase` (DDLSqlParser.kt lines
    144-163) for field names and `ParseResult.tableNameToClassName` (lines
    184-207) for the class name.

    Both walk the characters with a `toUpperCase` flag: an underscore sets it
    and is dropped, any other character is appended (upper-cased when the flag
    is set) and clears it. They differ in the flag's initial value and in the
    field-name walk checking `isLetter` before upper-casing, which for ASCII
    case mapping changes nothing. */
module Naming {
  import opened Text

  /** The flag as it stands when character `i` is reached: the initial value
      for the first character, otherwise whether the previous one was an
      underscore. */
  function FlagAt(s: string, i: nat, capFirst: bool): bool
    requires i <= |s|
  {
    if i == 0 then capFirst else s[i - 1] == '_'
  }

  /** `s` without its underscores. */
  function DropUnderscores(s: string): (r: string)
    ensures '_' !in r
    decreases |s|
  {
    if s == [] then []
    else DropUnderscores(s[..|s| - 1]) + (if s[|s| - 1] == '_' then [] else [s[|s| - 1]])
  }

  /** The text either walk produces: underscores dropped, and every other
      character upper-cased when the flag is set as it is reached. */
  function Recase(s: string, capFirst: bool): (r: string)
    decreases |s|
  {
    if s == [] then []
    else
      var i := |s| - 1;
      var c := s[i];
      Recase(s[..i], capFirst) + (if c == '_' then [] else [if FlagAt(s, i, capFirst) then Upper(c) else c])
  }

  /** Field name from column name. */
  function CamelCase(column: string): string {
    Recase(column, false)
  }

  /** The table name without one leading `t_`. */
  function StripTablePrefix(table: string): string {
    if |table| >= 2 && table[..2] == "t_" then table[2..] else table
  }

  /** Class name from table name. */
  function ClassNameOf(table: string): string {
    Recase(StripTablePrefix(table), true)
  }

  lemma UpperKeepsNonUnderscore(c: char)
    requires c != '_'
    ensures Upper(c) != '_' && Lower(Upper(c)) == Lower(c)
  {
  }

  /** The result has no underscore, loses exactly the underscores of the
      input, and keeps every other character in order, changed at most by
      upper-casing. */
  lemma {:induction false} RecaseKeepsCharacters(s: string, capFirst: bool)
    ensures '_' !in Recase(s, capFirst)
    ensures |Recase(s, capFirst)| == |s| - Count(s, '_')
    ensures |Recase(s, capFirst)| == |DropUnderscores(s)|
    ensures forall k :: 0 <= k < |Recase(s, capFirst)| ==>
              Recase(s, capFirst)[k] in {DropUnderscores(s)[k], Upper(DropUnderscores(s)[k])}
    decreases |s|
  {
    if s != [] {
      var i := |s| - 1;
      var c := s[i];
      RecaseKeepsCharacters(s[..i], capFirst);
      assert s == s[..i] + [c];
      CountAppend(s[..i], [c], '_');
      if c != '_' {
        UpperKeepsNonUnderscore(c);
      }
    }
  }

  /** Without underscores a field name is the column name unchanged. */
  lemma {:induction false} CamelCaseWithoutUnderscore(s: string)
    requires '_' !in s
    ensures CamelCase(s) == s
    decreases |s|
  {
    if s != [] {
      var i := |s| - 1;
      CamelCaseWithoutUnderscore(s[..i]);
      assert s == s[..i] + [s[i]];
    }
  }

  /** `underscoreToCamelCase`: the loop with its `toUpperCase` flag. */
  method UnderscoreToCamelCase(name: string) returns (result: string)
    ensures result == CamelCase(name)
  {
    result := [];
    var toUpperCase := false;
    for i := 0 to |name|
      invariant result == Recase(name[..i], false)
      invariant toUpperCase == FlagAt(name, i, false)
    {
      var c := name[i];
      assert name[..i + 1][..i] == name[..i];
      if c == '_' {
        toUpperCase := true;
      } else {
        if toUpperCase && IsLetter(c) {
          result := result + [Upper(c)];
          toUpperCase := false;
        } else {
          result := result + [c];
          toUpperCase := false;
        }
      }
    }
    assert name[..|name|] == name;
  }

  /** `tableNameToClassName`: one leading `t_` dropped, then the loop with the
      flag initially set. */
  method TableNameToClassName(tableNameInput: string) returns (result: string)
    ensures result == ClassNameOf(tableNameInput)
  {
    var tableName := tableNameInput;
    if |tableName| >= 2 && tableName[..2] == "t_" {
      tableName := tableName[2..];
    }
    result := [];
    var toUpperCase := true;
    for i := 0 to |tableName|
      invariant result == Recase(tableName[..i], true)
      invariant toUpperCase == FlagAt(tableName, i, true)
    {
      var c := tableName[i];
      assert tableName[..i + 1][..i] == tableName[..i];
      if c == '_' {
        toUpperCase := true;
      } else {
        if toUpperCase {
          result := result + [Upper(c)];
          toUpperCase := false;
        } else {
          result := result + [c];
        }
      }
    }
    assert tableName[..|tableName|] == tableName;
  }

  /** The walk read front to back, as the loops do it: `flag` is the flag
      when the first character is reached. */
  function Walk(s: string, flag: bool): (r: string)
    decreases |s|
  {
    if s == [] then []
    else if s[0] == '_' then Walk(s[1..], true)
    else [if flag then Upper(s[0]) else s[0]] + Walk(s[1..], false)
  }

  /** Appending to the walk: an underscore adds nothing, and any other
      character is upper-cased exactly when the flag stands for it, that is,
      right after an underscore or first when the walk starts with the flag
      set. */
  lemma {:induction false} WalkAppend(s: string, flag: bool, c: char)
    ensures Walk(s + [c], flag)
              == Walk(s, flag) + (if c == '_' then [] else [if FlagAt(s + [c], |s|, flag) then Upper(c) else c])
    decreases |s|
  {
    if s != [] {
      assert (s + [c])[1..] == s[1..] + [c];
      WalkAppend(s[1..], s[0] == '_', c);
    }
  }

  /** The back-to-front definition and the front-to-back walk agree. */
  lemma {:induction false} RecaseIsWalk(s: string, capFirst: bool)
    ensures Recase(s, capFirst) == Walk(s, capFirst)
    decreases |s|
  {
    if s != [] {
      var i := |s| - 1;
      RecaseIsWalk(s[..i], capFirst);
      WalkAppend(s[..i], capFirst, s[i]);
      assert s[..i] + [s[i]] == s;
    }
  }

  lemma {:induction false} WalkConcat(a: string, b: string, flag: bool)
    ensures Walk(a + b, flag) == Walk(a, flag) + Walk(b, if a == [] then flag else a[|a| - 1] == '_')
    decreases |a|
  {
    if a == [] {
      assert a + b == b;
    } else {
      assert (a + b)[1..] == a[1..] + b;
      WalkConcat(a[1..], b, a[0] == '_');
    }
  }

  /** A run without underscores reached with the flag clear is copied. */
  lemma {:induction false} WalkPlain(s: string)
    requires '_' !in s
    ensures Walk(s, false) == s
    decreases |s|
  {
    if s != [] {
      WalkPlain(s[1..]);
      assert s == [s[0]] + s[1..];
    }
  }

  /** A word reached with the flag set gets an upper-case first letter. */
  lemma WalkWord(c: char, s: string, flag: bool)
    requires c != '_' && '_' !in s
    ensures Walk([c] + s, flag) == [if flag then Upper(c) else c] + s
  {
    assert ([c] + s)[1..] == s;
    WalkPlain(s);
  }

  /** Two words joined by an underscore, read with the flag set as `flag`
      at the start: the second word gets an upper-case first letter. */
  lemma TwoWords(c1: char, w1: string, c2: char, w2: string, flag: bool)
    requires c1 != '_' && c2 != '_' && '_' !in w1 && '_' !in w2
    ensures Recase([c1] + w1 + ['_'] + ([c2] + w2), flag)
              == [if flag then Upper(c1) else c1] + w1 + [Upper(c2)] + w2
  {
    var a, b := [c1] + w1 + ['_'], [c2] + w2;
    RecaseIsWalk(a + b, flag);
    WalkConcat(a, b, flag);
    WalkConcat([c1] + w1, ['_'], flag);
    WalkWord(c1, w1, flag);
    WalkWord(c2, w2, true);
  }

  lemma CreatedAtPieces()
    ensures "created_at" == ['c'] + "reated" + ['_'] + (['a'] + "t")
    ensures "createdAt" == ['c'] + "reated" + [Upper('a')] + "t"
  {
  }

  lemma CreatedAtExample()
    ensures CamelCase("created_at") == "createdAt"
  {
    CreatedAtPieces();
    TwoWords('c', "reated", 'a', "t", false);
  }

  lemma IdExample()
    ensures CamelCase("id") == "id"
  {
    RecaseIsWalk("id", false);
  }

  /** A non-letter after an underscore clears the flag, so the letter after
      it stays lower case. */
  lemma FlagClearedExample()
    ensures CamelCase("a_1b") == "a1b"
  {
    RecaseIsWalk("a_1b", false);
  }

  lemma UserAccountStripped(s: string)
    requires s == "t_user_account"
    ensures StripTablePrefix(s) == "user_account"
  {
    assert s[..2] == "t_";
  }

  lemma UserAccountPieces(s: string)
    requires s == "user_account"
    ensures s == ['u'] + "ser" + ['_'] + (['a'] + "ccount")
    ensures "UserAccount" == [Upper('u')] + "ser" + [Upper('a')] + "ccount"
  {
  }

  lemma UserAccountExample()
    ensures ClassNameOf("t_user_account") == "UserAccount"
  {
    UserAccountStripped("t_user_account");
    UserAccountPieces("user_account");
    TwoWords('u', "ser", 'a', "ccount", true);
  }

  /** Only one leading `t_` is stripped. */
  lemma DoublePrefixExample()
    ensures ClassNameOf("t_t_x") == "TX"
  {
    assert StripTablePrefix("t_t_x") == "t_x";
    RecaseIsWalk("t_x", true);
  }

  lemma OrderStripped(s: string)
    requires s == "t_order"
    ensures StripTablePrefix(s) == ['o'] + "rder"
  {
    assert s[..2] == "t_";
  }

  lemma OrderIdentifier(s: string)
    requires s == "t_order"
    ensures IsIdentifier(s)
  {
  }

  /** The class of `t_order` is `Order`. */
  lemma OrderExample()
    ensures ClassNameOf("t_order") == "Order"
  {
    OrderStripped("t_order");
    RecaseIsWalk(['o'] + "rder", true);
    WalkWord('o', "rder", true);
    assert "Order" == [Upper('o')] + "rder";
  }
}
