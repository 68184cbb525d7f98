/** Worked cases of `validate_sql`'s checks. */
module SqlValidateExamples {
  import opened Text
  import opened Schema
  import opened SqlScan
  import opened SqlValidate

  /** Two plain statements are reported as more than one. */
  lemma TwoStatementsRejected(a: string, b: string, c: Catalog)
    requires Plain(a) && Plain(b) && !IsBlank(b)
    ensures !ValidateSql(a + ";" + b, c).ok
    ensures TooManyStatements in ValidateSql(a + ";" + b, c).issues
  {
    var sql := a + ";" + b;
    assert !IsBlank(sql) by {
      assert sql[|a|] == ';';
    }
    TwoStatements(a, b);
    var stmts := Statements(sql);
    assert |stmts| == 2;
    FindingsReport(stmts, c);
    assert ValidateSql(sql, c).issues == Findings(stmts, c);
  }

  /** A plain statement that does not start with SELECT is refused. */
  lemma NonSelectRejected(s: string, c: Catalog)
    requires Plain(s) && !IsBlank(s)
    requires !WordAt(Strip(s), 0, "SELECT")
    ensures NotASelect in ValidateSql(s, c).issues
    ensures TooManyStatements !in ValidateSql(s, c).issues
  {
    SingleStatement(s);
    FindingsReport(Statements(s), c);
  }

  /** An item is covered by a GROUP BY entry that contains it. */
  lemma GroupedByContainingEntry()
    ensures GroupByErrors(["a"], ["a;"]) == []
  {
    assert OccursAt("a;", 0, "a");
    ContainsIff("a;", "a");
    assert "a;" in ["a;"];
    assert Covered("a", ["a;"]);
  }

  /** Without a GROUP BY list, the non-aggregated items are listed together. */
  lemma MissingGroupByListsItems()
    ensures GroupByErrors(["a", "b"], []) == [GroupByMissing(["a", "b"])]
  {
  }

  /** With two tables whose names differ only in case, the one written last
      decides which columns are known. */
  lemma LastTableOfNameWins()
    ensures var c := [Table("Sales", [Bare("a")]), Table("sales", [Bare("b")])];
      ColumnsOf(c, "sales") == {"b"} && UnknownPair(c, ("SALES", "a"))
  {
    var c := [Table("Sales", [Bare("a")]), Table("sales", [Bare("b")])];
    assert Lower("sales") == "sales";
    assert Lower("b") == "b";
    assert Lower(c[1].columns[0].name) == "b";
    assert LoweredColumns(c[1]) == {Lower(c[1].columns[0].name)};
    assert Lower("SALES") == "sales";
    assert Lower("a") == "a";
    assert c[1] in c;
  }

  /** A comma inside a call's parentheses does not split the list. */
  lemma CommaInsideCallKept()
    ensures TopLevelPieces("f(a,b),c", 0, 0) == ["f(a,b)", "c"]
  {
    var s := "f(a,b),c";
    assert ClosesAhead(s, 4);
    assert !ClosesAhead(s, 7);
    assert TopLevelPieces(s, 0, 0) == TopLevelPieces(s, 0, 3);
    assert TopLevelPieces(s, 0, 3) == TopLevelPieces(s, 0, 6);
    assert TopLevelPieces(s, 0, 6) == [s[0..6]] + TopLevelPieces(s, 7, 7);
    assert TopLevelPieces(s, 7, 7) == TopLevelPieces(s, 7, 8) == [s[7..]];
    assert s[0..6] == "f(a,b)" && s[7..] == "c";
  }

  /** `COUNT(*)` is an aggregate call. */
  lemma CountCallIsAggregate()
    ensures HasAggregate("COUNT(*)")
  {
    var t := "COUNT(*)";
    var p := CallOf("COUNT", false);
    assert t[5..][0] == '(';
    assert SpaceRun(t[5..]) == 0;
    CharsWordAt(t, 0, "COUNT");
    assert PatternAt(p, t, 0);
    assert Matches(p, t);
    assert AggregateNames[2] == "COUNT";
    assert AggregateNames[2..][0] == "COUNT";
    assert AggregateNames[1..][1..] == AggregateNames[2..];
  }

  /** A text shorter than every name calls none of them. */
  lemma {:induction false} ShorterThanNames(t: string, names: seq<string>)
    requires forall k :: 0 <= k < |names| ==> |t| < |names[k]|
    ensures !CallsAnyOf(t, names)
  {
    if names != [] {
      var p := CallOf(names[0], false);
      assert forall i :: !PatternAt(p, t, i);
      ShorterThanNames(t, names[1..]);
    }
  }

  /** An item shorter than every aggregate name calls no aggregate. */
  lemma ShortItemNotAggregate(n: string)
    requires |n| < 3
    ensures !HasAggregate(n)
  {
    ShorterThanNames(n, AggregateNames);
  }

  /** `SELECT a, COUNT(*) ... GROUP BY a`: the count needs no grouping and
      `a` is grouped. */
  lemma CountBesideGroupedItem()
    ensures NonAggregated(["a", "COUNT(*)"]) == ["a"]
    ensures GroupByErrors(["a"], ["a"]) == []
  {
    CountCallIsAggregate();
    ShortItemNotAggregate("a");
    assert ["a", "COUNT(*)"][1..] == ["COUNT(*)"];
    assert "a" in ["a"];
  }

  /** In `SELECT a, b, COUNT(*)` only the count is aggregated. */
  lemma TwoPlainItemsAndCount()
    ensures NonAggregated(["a", "b", "COUNT(*)"]) == ["a", "b"]
  {
    CountCallIsAggregate();
    ShortItemNotAggregate("a");
    ShortItemNotAggregate("b");
    assert ["a", "b", "COUNT(*)"][1..] == ["b", "COUNT(*)"];
    assert ["b", "COUNT(*)"][1..] == ["COUNT(*)"];
  }

  /** With `GROUP BY a`, the plain item `b` is reported. */
  lemma UngroupedItemReported()
    ensures GroupByErrors(["a", "b"], ["a"]) == [NotInGroupBy("b", ["a"])]
  {
    assert "a" in ["a"];
    assert !Covered("b", ["a"]) by {
      OtherLetterNotContained('a', 'b');
      OtherLetterNotContained('b', 'a');
    }
  }

  lemma OtherLetterNotContained(x: char, y: char)
    requires x != y
    ensures !Contains([x], [y])
  {
    assert [x][..1] == [x] != [y] && [x][1..] == [];
    assert IndexOf([], [y]).None?;
  }

  /** A no-break space is written as `\xa0` between single quotes, as
      `repr` writes a character it does not print; the GROUP BY messages list
      items this way. */
  lemma NoBreakSpaceEscaped()
    ensures ReprQuote("c\U{a0}d") == '\''
    ensures ReprBody("c\U{a0}d", '\'') == "c\\xa0d"
  {
    assert ReprChar('\U{a0}', '\'') == "\\xa0" by {
      assert HexDigits(0xa0, 2) == "a0";
    }
    ReprBodyOfThree('c', '\U{a0}', 'd', '\'');
  }

  lemma ReprBodyOfThree(a: char, b: char, d: char, q: char)
    ensures ReprBody([a, b, d], q) == ReprChar(a, q) + ReprChar(b, q) + ReprChar(d, q)
  {
    var s := [a, b, d];
    assert s[1..] == [b, d] && s[1..][1..] == [d] && s[1..][1..][1..] == [];
    assert ReprBody([d], q) == ReprChar(d, q);
    assert ReprBody([b, d], q) == ReprChar(b, q) + ReprChar(d, q);
  }
}
