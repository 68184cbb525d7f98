/** `validate_sql`: the checks a generated query must pass before it is run.
    Every failed check adds one message, in a fixed order; the query is
    valid exactly when no message was added. */
module SqlValidate {
  import opened Common
  import opened Text
  import opened Schema
  import opened SqlScan

  /** What a failed check reports. `Message` gives the text the caller
      sees; the checks and their properties are stated on the issues. */
  datatype Issue =
    | SqlEmpty
    | TooManyStatements
    | NotASelect
    | UnsupportedPattern(source: string)
    | TooManyLimits
    | UnknownColumn(col: string, table: string)
    | GroupByMissing(items: seq<string>)
    | NotInGroupBy(item: string, groupItems: seq<string>)

  function Message(i: Issue): string {
    match i
    case SqlEmpty => "SQL is empty"
    case TooManyStatements => "Multiple SQL statements detected; only a single SELECT is allowed."
    case NotASelect => "Only SELECT statements are allowed."
    case UnsupportedPattern(source) => "Unsupported or DB-specific function/pattern detected: " + source
    case TooManyLimits => "Multiple LIMIT clauses detected."
    case UnknownColumn(col, table) => "Unknown column '" + col + "' on table '" + table + "'"
    case GroupByMissing(items) => "Non-aggregated select columns " + PyListRepr(items) + " but GROUP BY missing."
    case NotInGroupBy(item, groupItems) =>
      "Non-aggregated select '" + item + "' not present in GROUP BY " + PyListRepr(groupItems) + "."
  }

  /** A deny-list entry: the pattern's source text, which the message
      quotes, and what it matches. */
  datatype DenyRule = DenyRule(source: string, pattern: Pattern)

  const DenyList: seq<DenyRule> := [
    DenyRule("\\bWITH\\s+TIES\\b", WordPair("WITH", "TIES")),
    DenyRule("\\bDAYOFWEEK\\s*\\(", CallOf("DAYOFWEEK", false)),
    DenyRule("\\bWEEKDAY\\s*\\(", CallOf("WEEKDAY", false)),
    DenyRule("\\bTIMESTAMPDIFF\\s*\\(", CallOf("TIMESTAMPDIFF", false)),
    DenyRule("\\bMATCH\\s*\\(", CallOf("MATCH", false)),
    DenyRule("\\bSELECT\\s+TOP\\b", WordPair("SELECT", "TOP")),
    DenyRule("\\bGETDATE\\s*\\(\\)", CallOf("GETDATE", true))
  ]

  // ---------------------------------------------------------------------------
  // The catalog, lower-cased
  // ---------------------------------------------------------------------------

  /** `valid_tables`: the lower-cased table names. */
  function KnownTables(c: Catalog): (names: set<string>)
    ensures forall n :: n in names <==> exists t :: t in c && Lower(t.name) == n
  {
    set t | t in c :: Lower(t.name)
  }

  /** The lower-cased names of a table's columns, whatever their form. */
  function LoweredColumns(t: Table): set<string> {
    set k | 0 <= k < |t.columns| :: Lower(t.columns[k].name)
  }

  /** Table `i` is the last whose lower-cased name is `tl`. */
  predicate LastOfLoweredName(c: Catalog, i: int, tl: string) {
    0 <= i < |c| && Lower(c[i].name) == tl && forall j :: i < j < |c| ==> Lower(c[j].name) != tl
  }

  /** `valid_columns[tl]`: the dictionary is filled in catalog order, so a
      repeated lower-cased name keeps the columns of the table written last. */
  function ColumnsOf(c: Catalog, tl: string): (cols: set<string>)
    ensures forall i :: LastOfLoweredName(c, i, tl) ==> cols == LoweredColumns(c[i])
    ensures tl !in KnownTables(c) ==> cols == {}
    decreases |c|
  {
    if c == [] then {}
    else if Lower(c[|c| - 1].name) == tl then LoweredColumns(c[|c| - 1])
    else
      var front := c[..|c| - 1];
      assert forall i :: LastOfLoweredName(c, i, tl) ==> LastOfLoweredName(front, i, tl);
      ColumnsOf(front, tl)
  }

  /** A known table name has a last table of that name. */
  lemma LastOfKnownName(c: Catalog, tl: string)
    requires tl in KnownTables(c)
    ensures exists i :: LastOfLoweredName(c, i, tl)
    decreases |c|
  {
    if Lower(c[|c| - 1].name) != tl {
      var front := c[..|c| - 1];
      var t :| t in c && Lower(t.name) == tl;
      assert t in front;
      LastOfKnownName(front, tl);
      var i :| LastOfLoweredName(front, i, tl);
      assert LastOfLoweredName(c, i, tl);
    } else {
      assert LastOfLoweredName(c, |c| - 1, tl);
    }
  }

  // ---------------------------------------------------------------------------
  // The checks on one statement
  // ---------------------------------------------------------------------------

  /** The deny rules that match the lower-cased statement, in list order. */
  function DenyErrors(t: string, rules: seq<DenyRule>): (errs: seq<Issue>)
    ensures |errs| <= |rules|
    ensures forall m :: m in errs <==>
      exists k :: 0 <= k < |rules| && Matches(rules[k].pattern, t) && m == UnsupportedPattern(rules[k].source)
    ensures forall m :: m in errs ==> m.UnsupportedPattern?
  {
    if rules == [] then []
    else
      var here := if Matches(rules[0].pattern, t) then [UnsupportedPattern(rules[0].source)] else [];
      var rest := DenyErrors(t, rules[1..]);
      assert forall k :: 1 <= k < |rules| ==> rules[k] == rules[1..][k - 1];
      here + rest
  }

  /** No deny-list issue exactly when no rule matches. */
  lemma DenyErrorsEmpty(t: string, rules: seq<DenyRule>)
    ensures DenyErrors(t, rules) == [] <==> forall k :: 0 <= k < |rules| ==> !Matches(rules[k].pattern, t)
  {
    var errs := DenyErrors(t, rules);
    if errs != [] {
      assert errs[0] in errs;
    }
  }

  /** A pair is reported when its table is known by its lower-cased name and
      the column, lower-cased, is not among that table's columns. A prefix
      that is not a table name (an alias) is let through. */
  predicate UnknownPair(c: Catalog, pair: (string, string)) {
    Lower(pair.0) in KnownTables(c) && Lower(pair.1) !in ColumnsOf(c, Lower(pair.0))
  }

  /** The catalog-level meaning of a reported pair: the last table with the
      pair's table name lacks the column. */
  lemma UnknownPairIff(c: Catalog, pair: (string, string))
    ensures UnknownPair(c, pair) <==>
      exists i :: LastOfLoweredName(c, i, Lower(pair.0)) && Lower(pair.1) !in LoweredColumns(c[i])
  {
    if Lower(pair.0) in KnownTables(c) {
      LastOfKnownName(c, Lower(pair.0));
    }
  }

  function PairErrors(c: Catalog, pairs: seq<(string, string)>): (errs: seq<Issue>)
    ensures |errs| <= |pairs|
    ensures forall m :: m in errs <==>
      exists k :: 0 <= k < |pairs| && UnknownPair(c, pairs[k]) && m == UnknownColumn(pairs[k].1, pairs[k].0)
    ensures errs == [] <==> forall k :: 0 <= k < |pairs| ==> !UnknownPair(c, pairs[k])
    ensures forall m :: m in errs ==> m.UnknownColumn?
  {
    if pairs == [] then []
    else
      var here := if UnknownPair(c, pairs[0]) then [UnknownColumn(pairs[0].1, pairs[0].0)] else [];
      var rest := PairErrors(c, pairs[1..]);
      assert forall k :: 1 <= k < |pairs| ==> pairs[k] == pairs[1..][k - 1];
      here + rest
  }

  // ---------------------------------------------------------------------------
  // The GROUP BY check
  // ---------------------------------------------------------------------------

  /** The stripped items of the SELECT list, split at top-level commas, when
      `select\s+(.*?)\s+from\s` matches. */
  function SelectItems(stmt: string): (r: Option<seq<string>>)
    ensures r.None? <==> forall i :: SelectListAt(stmt, i).None?
    ensures r.Some? ==> r.value != []
  {
    match FirstSelectList(stmt, 0)
    case None => None
    case Some((g, k)) =>
      var ps := TopLevelPieces(stmt[g..k], 0, 0);
      Some(seq(|ps|, i requires 0 <= i < |ps| => Strip(ps[i])))
  }

  /** The stripped items of the GROUP BY list, split at every comma; none
      when `group\s+by\s+` does not match. */
  function GroupItems(stmt: string): (r: seq<string>)
    ensures r == [] <==> forall i :: GroupByAt(stmt, i).None?
  {
    match FirstGroupBy(stmt, 0)
    case None => []
    case Some((g, k)) =>
      var ps := Split(stmt[g..k], ',');
      seq(|ps|, i requires 0 <= i < |ps| => Strip(ps[i]))
  }

  /** Each item with its `AS` alias removed and stripped again. */
  function Unaliased(items: seq<string>): (r: seq<string>)
    ensures |r| == |items|
    ensures forall k :: 0 <= k < |items| ==> r[k] == WithoutAlias(items[k])
  {
    seq(|items|, k requires 0 <= k < |items| => WithoutAlias(items[k]))
  }

  /** The items that call no aggregate, in order. */
  function NonAggregated(items: seq<string>): (r: seq<string>)
    ensures |r| <= |items|
    ensures forall n :: n in r <==> n in items && !HasAggregate(n)
  {
    if items == [] then []
    else
      var rest := NonAggregated(items[1..]);
      assert items == [items[0]] + items[1..];
      (if HasAggregate(items[0]) then [] else [items[0]]) + rest
  }

  /** An item is covered by the GROUP BY list when it equals an entry, or
      either one contains the other. */
  predicate Covered(n: string, groupItems: seq<string>) {
    exists g :: g in groupItems && (n == g || Contains(g, n) || Contains(n, g))
  }

  /** There is a GROUP BY list and it covers every item. */
  predicate AllCovered(nonAgg: seq<string>, groupItems: seq<string>) {
    nonAgg == [] || (groupItems != [] && forall k :: 0 <= k < |nonAgg| ==> Covered(nonAgg[k], groupItems))
  }

  function NotGroupedErrors(nonAgg: seq<string>, groupItems: seq<string>): (errs: seq<Issue>)
    ensures forall m :: m in errs <==>
      exists k :: 0 <= k < |nonAgg| && !Covered(nonAgg[k], groupItems) && m == NotInGroupBy(nonAgg[k], groupItems)
    ensures errs == [] <==> forall k :: 0 <= k < |nonAgg| ==> Covered(nonAgg[k], groupItems)
  {
    if nonAgg == [] then []
    else
      var here := if Covered(nonAgg[0], groupItems) then [] else [NotInGroupBy(nonAgg[0], groupItems)];
      var rest := NotGroupedErrors(nonAgg[1..], groupItems);
      assert forall k :: 1 <= k < |nonAgg| ==> nonAgg[k] == nonAgg[1..][k - 1];
      here + rest
  }

  /** The messages of the GROUP BY check for the non-aggregated items: none
      when every item aggregates, one when there is no GROUP BY at all, and
      one per uncovered item otherwise. */
  function GroupByErrors(nonAgg: seq<string>, groupItems: seq<string>): (errs: seq<Issue>)
    ensures nonAgg == [] ==> errs == []
    ensures nonAgg != [] && groupItems == [] ==> errs == [GroupByMissing(nonAgg)]
    ensures groupItems != [] ==> forall m :: m in errs <==>
      exists k :: 0 <= k < |nonAgg| && !Covered(nonAgg[k], groupItems) && m == NotInGroupBy(nonAgg[k], groupItems)
    ensures errs == [] <==> AllCovered(nonAgg, groupItems)
    ensures forall m :: m in errs ==> m.GroupByMissing? || m.NotInGroupBy?
  {
    if nonAgg == [] then []
    else if groupItems == [] then
      [GroupByMissing(nonAgg)]
    else NotGroupedErrors(nonAgg, groupItems)
  }

  /** Every non-aggregated item of the SELECT list is covered by the GROUP BY
      list. */
  predicate GroupingConsistent(stmt: string) {
    SelectItems(stmt).Some? ==> AllCovered(NonAggregated(Unaliased(SelectItems(stmt).value)), GroupItems(stmt))
  }

  /** The GROUP BY check of a statement; nothing is checked when the SELECT
      list pattern does not match. */
  function GroupErrors(stmt: string): (errs: seq<Issue>)
    ensures errs == [] <==> GroupingConsistent(stmt)
    ensures forall m :: m in errs ==> m.GroupByMissing? || m.NotInGroupBy?
  {
    match SelectItems(stmt)
    case None => []
    case Some(items) => GroupByErrors(NonAggregated(Unaliased(items)), GroupItems(stmt))
  }

  // ---------------------------------------------------------------------------
  // validate_sql
  // ---------------------------------------------------------------------------

  datatype SqlVerdict = SqlVerdict(ok: bool, issues: seq<Issue>)

  /** The issues of the six checks in the order they run; `deny`, `pairs`
      and `group` hold issues of their own kinds only. */
  function Assemble(multi: bool, select: bool, deny: seq<Issue>, limits: bool, pairs: seq<Issue>, group: seq<Issue>): (r: seq<Issue>)
    requires forall m :: m in deny ==> m.UnsupportedPattern?
    requires forall m :: m in pairs ==> m.UnknownColumn?
    requires forall m :: m in group ==> m.GroupByMissing? || m.NotInGroupBy?
    ensures forall m :: m in r <==>
      (multi && m == TooManyStatements) || (!select && m == NotASelect) || m in deny ||
      (limits && m == TooManyLimits) || m in pairs || m in group
    ensures r == [] <==> !multi && select && deny == [] && !limits && pairs == [] && group == []
  {
    FrontIssues(multi, select) + deny + BackIssues(limits, pairs, group)
  }

  /** Each kind of issue in the assembled list comes from its own check. */
  lemma AssembleKinds(multi: bool, select: bool, deny: seq<Issue>, limits: bool, pairs: seq<Issue>, group: seq<Issue>)
    requires forall m :: m in deny ==> m.UnsupportedPattern?
    requires forall m :: m in pairs ==> m.UnknownColumn?
    requires forall m :: m in group ==> m.GroupByMissing? || m.NotInGroupBy?
    ensures var r := Assemble(multi, select, deny, limits, pairs, group);
      && (TooManyStatements in r <==> multi)
      && (NotASelect in r <==> !select)
      && (TooManyLimits in r <==> limits)
      && (forall m: Issue :: m.UnsupportedPattern? ==> (m in r <==> m in deny))
      && (forall m: Issue :: m.UnknownColumn? ==> (m in r <==> m in pairs))
      && (forall m: Issue :: m.GroupByMissing? || m.NotInGroupBy? ==> (m in r <==> m in group))
  {
  }

  /** The issues of the statement-count and `SELECT` checks. */
  function FrontIssues(multi: bool, select: bool): (r: seq<Issue>)
    ensures forall m :: m in r <==> (multi && m == TooManyStatements) || (!select && m == NotASelect)
    ensures r == [] <==> !multi && select
  {
    (if multi then [TooManyStatements] else []) + (if select then [] else [NotASelect])
  }

  /** The issues of the `LIMIT`, column and grouping checks. */
  function BackIssues(limits: bool, pairs: seq<Issue>, group: seq<Issue>): (r: seq<Issue>)
    ensures forall m :: m in r <==> (limits && m == TooManyLimits) || m in pairs || m in group
    ensures r == [] <==> !limits && pairs == [] && group == []
  {
    (if limits then [TooManyLimits] else []) + pairs + group
  }

  /** The issues of the first of the statements. */
  function Findings(stmts: seq<string>, c: Catalog): seq<Issue>
    requires stmts != []
  {
    var stmt := stmts[0];
    var lowered := Lower(stmt);
    Assemble(|stmts| > 1, WordAt(stmt, 0, "SELECT"), DenyErrors(lowered, DenyList), MultipleLimits(lowered),
             PairErrors(c, PairsFrom(stmt, 0)), GroupErrors(stmt))
  }

  /** Each kind of issue of the first statement comes from its own check. */
  lemma FindingsKinds(stmts: seq<string>, c: Catalog)
    requires stmts != []
    ensures var stmt := stmts[0];
      var lowered := Lower(stmt);
      var r := Findings(stmts, c);
      && (TooManyStatements in r <==> |stmts| > 1)
      && (NotASelect in r <==> !WordAt(stmt, 0, "SELECT"))
      && (TooManyLimits in r <==> MultipleLimits(lowered))
      && (forall m: Issue :: m.UnsupportedPattern? ==> (m in r <==> m in DenyErrors(lowered, DenyList)))
      && (forall m: Issue :: m.UnknownColumn? ==> (m in r <==> m in PairErrors(c, PairsFrom(stmt, 0))))
      && (forall m: Issue :: m.GroupByMissing? || m.NotInGroupBy? ==> (m in r <==> m in GroupErrors(stmt)))
  {
    var stmt := stmts[0];
    var lowered := Lower(stmt);
    AssembleKinds(|stmts| > 1, WordAt(stmt, 0, "SELECT"), DenyErrors(lowered, DenyList), MultipleLimits(lowered),
                  PairErrors(c, PairsFrom(stmt, 0)), GroupErrors(stmt));
  }

  /** Every check passes on the first statement, and it is the only one. */
  predicate Passes(stmts: seq<string>, c: Catalog)
    requires stmts != []
  {
    var stmt := stmts[0];
    && |stmts| == 1
    && WordAt(stmt, 0, "SELECT")
    && (forall k :: 0 <= k < |DenyList| ==> !Matches(DenyList[k].pattern, Lower(stmt)))
    && !MultipleLimits(Lower(stmt))
    && (var pairs := PairsFrom(stmt, 0); forall k :: 0 <= k < |pairs| ==> !UnknownPair(c, pairs[k]))
    && GroupingConsistent(stmt)
  }

  /** A statement passes exactly when no check reports anything. */
  lemma FindingsEmptyIffPasses(stmts: seq<string>, c: Catalog)
    requires stmts != []
    ensures Findings(stmts, c) == [] <==> Passes(stmts, c)
  {
    DenyErrorsEmpty(Lower(stmts[0]), DenyList);
  }

  /** `validate_sql(sql, catalog)`: blank SQL is refused outright; otherwise
      the checks run on the first statement and the query is valid exactly
      when none of them reports. */
  function ValidateSql(sql: string, c: Catalog): (v: SqlVerdict)
    ensures IsBlank(sql) ==> v == SqlVerdict(false, [SqlEmpty])
    ensures v.ok <==> v.issues == []
    ensures !IsBlank(sql) ==> Statements(sql) != [] && (v.ok <==> Passes(Statements(sql), c))
    ensures !IsBlank(sql) ==> Statements(sql) != [] && v.issues == Findings(Statements(sql), c)
  {
    if IsBlank(sql) then SqlVerdict(false, [SqlEmpty])
    else
      var stmts := Statements(sql);
      StatementsOfNonBlank(sql);
      var errs := Findings(stmts, c);
      FindingsEmptyIffPasses(stmts, c);
      SqlVerdict(errs == [], errs)
  }

  /** The statement-count, SELECT and LIMIT issues appear exactly when
      their checks fail on the first statement. */
  lemma FindingsReport(stmts: seq<string>, c: Catalog)
    requires stmts != []
    ensures var issues := Findings(stmts, c);
      var stmt := stmts[0];
      && (TooManyStatements in issues <==> |stmts| > 1)
      && (NotASelect in issues <==> !WordAt(stmt, 0, "SELECT"))
      && (TooManyLimits in issues <==> MultipleLimits(Lower(stmt)))
  {
    FindingsKinds(stmts, c);
  }

  /** A deny-list issue appears exactly when a rule with that source
      matches the lower-cased first statement. */
  lemma FindingsReportDenied(stmts: seq<string>, c: Catalog, source: string)
    requires stmts != []
    ensures UnsupportedPattern(source) in Findings(stmts, c) <==>
      exists k :: 0 <= k < |DenyList| && DenyList[k].source == source && Matches(DenyList[k].pattern, Lower(stmts[0]))
  {
    FindingsKinds(stmts, c);
    DenyErrorsReport(Lower(stmts[0]), DenyList, source);
  }

  /** A deny-list issue names the source of a rule that matches. */
  lemma DenyErrorsReport(t: string, rules: seq<DenyRule>, source: string)
    ensures UnsupportedPattern(source) in DenyErrors(t, rules) <==>
      exists k :: 0 <= k < |rules| && rules[k].source == source && Matches(rules[k].pattern, t)
  {
  }

  /** `table.column` is one of the pairs, and is reported. */
  predicate HasUnknownPair(c: Catalog, pairs: seq<(string, string)>, table: string, col: string) {
    exists k :: 0 <= k < |pairs| && pairs[k] == (table, col) && UnknownPair(c, pairs[k])
  }

  lemma PairErrorsReport(c: Catalog, pairs: seq<(string, string)>, col: string, table: string)
    ensures UnknownColumn(col, table) in PairErrors(c, pairs) <==> HasUnknownPair(c, pairs, table, col)
  {
    if UnknownColumn(col, table) in PairErrors(c, pairs) {
      var k :| 0 <= k < |pairs| && UnknownPair(c, pairs[k]) && UnknownColumn(col, table) == UnknownColumn(pairs[k].1, pairs[k].0);
      assert pairs[k] == (table, col);
    }
    if exists k :: 0 <= k < |pairs| && pairs[k] == (table, col) && UnknownPair(c, pairs[k]) {
      var k :| 0 <= k < |pairs| && pairs[k] == (table, col) && UnknownPair(c, pairs[k]);
      assert UnknownColumn(col, table) == UnknownColumn(pairs[k].1, pairs[k].0);
    }
  }

  /** An unknown-column issue appears exactly for the `table.column` pairs
      of the first statement whose table is known and whose column is not. */
  lemma FindingsReportColumns(stmts: seq<string>, c: Catalog, col: string, table: string)
    requires stmts != []
    ensures UnknownColumn(col, table) in Findings(stmts, c) <==> HasUnknownPair(c, PairsFrom(stmts[0], 0), table, col)
  {
    var pairs := PairsFrom(stmts[0], 0);
    FindingsKinds(stmts, c);
    PairErrorsReport(c, pairs, col, table);
  }
}
