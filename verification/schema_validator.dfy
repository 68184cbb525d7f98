/** `schema_validation_agent`: checks every table the plan names and every
    `qualifier.column` reference in its expressions against the catalog. The
    errors are returned as `list(set(errors))`, a list in no particular order,
    so the model returns the set of messages. */
module SchemaValidator {
  import opened Common
  import opened Text
  import opened Schema
  import opened LogicalPlan
  import opened PlanNormalizer

  /** The answer: whether the plan passed, and the distinct error messages. */
  datatype Verdict = Verdict(ok: bool, errors: set<string>)

  const NotAPlanMessage: string := "Plan is empty or not dict."

  // ---------------------------------------------------------------------------
  // The columns a table may use
  // ---------------------------------------------------------------------------

  /** The table called `name` that a dictionary keyed by name keeps: the last. */
  function LastTableNamed(c: Catalog, name: string): (r: Option<Table>)
    ensures r.Some? ==> r.value in c && r.value.name == name
    ensures r.None? <==> name !in TableNames(c)
    ensures r.Some? ==> exists i :: 0 <= i < |c| && c[i] == r.value && IsLastOfName(c, i)
  {
    if c == [] then None
    else if c[|c| - 1].name == name then Some(c[|c| - 1])
    else
      var r := LastTableNamed(c[..|c| - 1], name);
      assert c == c[..|c| - 1] + [c[|c| - 1]];
      if r.Some? then
        ghost var i :| 0 <= i < |c| - 1 && c[..|c| - 1][i] == r.value && IsLastOfName(c[..|c| - 1], i);
        assert c[i] == r.value;
        r
      else r
  }

  /** `valid_columns_per_table.get(name, set())`: only the columns written as
      `{name: description}` count; bare-string columns are not valid here. */
  function ValidColumns(c: Catalog, name: string): (cols: set<string>)
    ensures name !in TableNames(c) ==> cols == {}
    ensures forall col :: col in cols ==> exists t :: t in c && t.name == name && col in DescribedColumnNames(t.columns)
  {
    match LastTableNamed(c, name)
    case None => {}
    case Some(t) => DescribedColumnNames(t.columns)
  }

  // ---------------------------------------------------------------------------
  // References: re.findall(r'([a-zA-Z0-9_\.]+)\.([a-zA-Z0-9_]+)', expr)
  // ---------------------------------------------------------------------------

  predicate IsDottedChar(ch: char) { IsWordChar(ch) || ch == '.' }

  /** The length of the run of `[A-Za-z0-9_.]` that starts `s`. */
  function DottedRun(s: string): (n: nat)
    ensures n <= |s|
    ensures forall k :: 0 <= k < n ==> IsDottedChar(s[k])
    ensures n == |s| || !IsDottedChar(s[n])
  {
    if s == [] || !IsDottedChar(s[0]) then 0 else 1 + DottedRun(s[1..])
  }

  /** A dot at `j` that can end the greedy qualifier: something before it and
      a word character after it. */
  predicate SplitDot(r: string, j: int) {
    1 <= j && j + 1 < |r| && r[j] == '.' && IsWordChar(r[j + 1])
  }

  /** The last such dot at or before `hi`, if any: the greedy first group
      backtracks from the end of the run to it. */
  function LastSplitDot(r: string, hi: int): (j: Option<nat>)
    requires hi < |r|
    ensures j.Some? ==> j.value <= hi && SplitDot(r, j.value)
    ensures j.Some? ==> forall k :: j.value < k <= hi ==> !SplitDot(r, k)
    ensures j.None? ==> forall k :: k <= hi ==> !SplitDot(r, k)
    decreases hi + 1
  {
    if hi < 1 then None
    else if SplitDot(r, hi) then Some(hi)
    else LastSplitDot(r, hi - 1)
  }

  /** The match that starts at the front of `s`, if any, as the position `j`
      of the dot that ends the qualifier and the end `m` of the column: the
      qualifier is the longest prefix of the `[\w.]` run that is followed by
      a dot and a word character, and the column is the word run after it. */
  function MatchAtFront(s: string): (jm: Option<(nat, nat)>)
    ensures jm.Some? ==> SplitDot(s, jm.value.0) && jm.value.0 < DottedRun(s)
    ensures jm.Some? ==> jm.value.1 == jm.value.0 + 1 + WordRun(s[jm.value.0 + 1..])
    ensures jm.Some? ==> jm.value.0 + 1 < jm.value.1 <= |s|
  {
    match LastSplitDot(s, DottedRun(s) - 1)
    case None => None
    case Some(j) =>
      var m := j + 1 + WordRun(s[j + 1..]);
      FoundRefFacts(s, j, m);
      Some((j, m))
  }

  /** The qualifier is as long as it can be: no later dot in the run can end
      it, and there is no match exactly when no dot in the run can. */
  lemma MatchAtFrontGreedy(s: string)
    ensures MatchAtFront(s).Some? ==>
      forall k :: MatchAtFront(s).value.0 < k < DottedRun(s) ==> !SplitDot(s, k)
    ensures MatchAtFront(s).None? <==> forall k :: k < DottedRun(s) ==> !SplitDot(s, k)
  {
  }

  /** Every match, left to right; where no match starts, the search moves on
      by one character. */
  function FindRefs(s: string): (refs: seq<(string, string)>)
    decreases |s|
  {
    if s == [] then []
    else
      match MatchAtFront(s)
      case Some((j, m)) =>
        FoundRefFacts(s, j, m);
        [(s[..j], s[j + 1..m])] + FindRefs(s[m..])
      case None => FindRefs(s[1..])
  }

  /** `ref` written as `table.column` occurs in `s`. */
  predicate Spelled(s: string, ref: (string, string)) {
    Contains(s, ref.0 + "." + ref.1)
  }

  /** Every reference found is spelled out in the text it was found in. */
  lemma {:induction false} FoundRefOccurs(s: string, k: nat)
    requires k < |FindRefs(s)|
    ensures Spelled(s, FindRefs(s)[k])
    decreases |s|
  {
    var n, k2, here := RefStep(s, k);
    if !here {
      FoundRefOccurs(s[n..], k2);
    }
  }

  /** One step of the search for the `k`th reference: either it is the match
      at the front, or it is the `k2`th reference found from `n` on. */
  lemma RefStep(s: string, k: nat) returns (n: nat, k2: nat, here: bool)
    requires k < |FindRefs(s)|
    ensures 0 < n <= |s|
    ensures here ==> Spelled(s, FindRefs(s)[k])
    ensures !here ==> k2 < |FindRefs(s[n..])|
    ensures !here && Spelled(s[n..], FindRefs(s[n..])[k2]) ==> Spelled(s, FindRefs(s)[k])
  {
    assert s != [];
    match MatchAtFront(s)
    case Some((j, m)) =>
      n := m;
      if k == 0 {
        here, k2 := true, 0;
        RefAtFront(s, j, m);
      } else {
        here, k2 := false, k - 1;
        RefAfterFront(s, j, m, k);
      }
    case None =>
      n, k2, here := 1, k, false;
      RefAfterSkip(s, k);
  }

  /** The match at the front is the first reference, and it is spelled out. */
  lemma RefAtFront(s: string, j: nat, m: nat)
    requires s != [] && MatchAtFront(s) == Some((j, m))
    ensures 0 < m <= |s|
    ensures FindRefs(s) != [] && Spelled(s, FindRefs(s)[0])
  {
    FindRefsAtMatch(s, j, m);
    FoundRefText(s, j, m);
    assert FindRefs(s)[0] == (s[..j], s[j + 1..m]);
  }

  /** The references after the first are those found after its match, and
      what is spelled out after the match is spelled out in the whole text. */
  lemma RefAfterFront(s: string, j: nat, m: nat, k: nat)
    requires s != [] && MatchAtFront(s) == Some((j, m)) && 0 < k < |FindRefs(s)|
    ensures 0 < m <= |s|
    ensures k - 1 < |FindRefs(s[m..])|
    ensures Spelled(s[m..], FindRefs(s[m..])[k - 1]) ==> Spelled(s, FindRefs(s)[k])
  {
    FindRefsTail(s, j, m);
    var ref := FindRefs(s)[k];
    assert FindRefs(s)[1..][k - 1] == ref;
    if Spelled(s[m..], ref) {
      ContainsOfSuffix(s, m, ref.0 + "." + ref.1);
    }
  }

  /** Where no match starts, the references are those found one character on. */
  lemma RefAfterSkip(s: string, k: nat)
    requires s != [] && MatchAtFront(s).None? && k < |FindRefs(s)|
    ensures k < |FindRefs(s[1..])|
    ensures Spelled(s[1..], FindRefs(s[1..])[k]) ==> Spelled(s, FindRefs(s)[k])
  {
    FindRefsNoMatch(s);
    var ref := FindRefs(s)[k];
    if Spelled(s[1..], ref) {
      ContainsOfSuffix(s, 1, ref.0 + "." + ref.1);
    }
  }

  /** Every reference found has a non-empty dotted qualifier and a non-empty
      word column. */
  lemma {:induction false} FoundRefsShaped(s: string)
    ensures forall k :: 0 <= k < |FindRefs(s)| ==> RefShape(FindRefs(s)[k])
    decreases |s|
  {
    if s != [] {
      match MatchAtFront(s)
      case Some((j, m)) =>
        FindRefsAtMatch(s, j, m);
        FoundRefFacts(s, j, m);
        FoundRefsShaped(s[m..]);
      case None =>
        FindRefsNoMatch(s);
        FoundRefsShaped(s[1..]);
    }
  }

  lemma FindRefsNoMatch(s: string)
    requires s != [] && MatchAtFront(s).None?
    ensures FindRefs(s) == FindRefs(s[1..])
  {
  }

  lemma ContainsOfSuffix(s: string, m: nat, p: string)
    requires m <= |s| && Contains(s[m..], p)
    ensures Contains(s, p)
  {
    assert s[m..|s|] == s[m..];
    ContainsOfSlice(s, m, |s|, p);
  }

  /** A match: a non-empty `[\w.]` qualifier and a non-empty word column. */
  predicate RefShape(ref: (string, string)) {
    && ref.0 != [] && (forall k :: 0 <= k < |ref.0| ==> IsDottedChar(ref.0[k]))
    && ref.1 != [] && AllWordChars(ref.1)
  }

  lemma FoundRefFacts(s: string, j: nat, m: nat)
    requires SplitDot(s, j) && j < DottedRun(s)
    requires m == j + 1 + WordRun(s[j + 1..])
    ensures j + 1 < m <= |s|
    ensures RefShape((s[..j], s[j + 1..m]))
  {
    ColumnPart(s, j, m);
    DottedPrefix(s, j);
  }

  lemma ColumnPart(s: string, j: nat, m: nat)
    requires SplitDot(s, j)
    requires m == j + 1 + WordRun(s[j + 1..])
    ensures j + 1 < m <= |s|
    ensures AllWordChars(s[j + 1..m])
  {
    var t := s[j + 1..];
    assert t[0] == s[j + 1];
    WordRunPrefix(t);
    assert s[j + 1..m] == t[..WordRun(t)];
  }

  lemma DottedPrefix(s: string, j: nat)
    requires j <= DottedRun(s)
    ensures forall k :: 0 <= k < j ==> IsDottedChar(s[..j][k])
  {
    forall k | 0 <= k < j ensures IsDottedChar(s[..j][k]) {
      assert s[..j][k] == s[k];
    }
  }

  /** The text of the match at the front of `s` is a prefix of `s`. */
  lemma FoundRefText(s: string, j: nat, m: nat)
    requires j < m <= |s| && s[j] == '.'
    ensures Contains(s, s[..j] + "." + s[j + 1..m])
  {
    SplitThree(s, j, m);
    PrefixOfConcat(s[..j] + "." + s[j + 1..m], s[m..], s);
    ContainsSlice(s, 0, m);
  }

  lemma PrefixOfConcat(a: string, b: string, s: string)
    requires a + b == s
    ensures s[..|a|] == a
  {
    assert s[..|a|] == (a + b)[..|a|];
  }

  /** An expression that is one `qualifier.column` yields that one reference;
      the qualifier may itself hold dots (a schema-qualified table). */
  lemma SingleReference(q: string, col: string)
    requires q != [] && forall k :: 0 <= k < |q| ==> IsDottedChar(q[k])
    requires col != [] && AllWordChars(col)
    ensures FindRefs(q + "." + col) == [(q, col)]
  {
    var s := q + "." + col;
    SingleReferenceMatch(q, col);
    FindRefsAtMatch(s, |q|, |s|);
    assert s[..|q|] == q;
    assert s[|q| + 1..|s|] == col;
    assert s[|s|..] == [];
  }

  /** The match at the front of `q.col` ends the qualifier at the last dot. */
  lemma SingleReferenceMatch(q: string, col: string)
    requires q != [] && forall k :: 0 <= k < |q| ==> IsDottedChar(q[k])
    requires col != [] && AllWordChars(col)
    ensures MatchAtFront(q + "." + col) == Some((|q|, |q| + 1 + |col|))
  {
    var s := q + "." + col;
    var n := |q|;
    DottedJoinShape(q, col);
    MatchAtFrontAt(s, n);
    WholeWordRun(col);
  }

  /** The match at the front splits at the last split dot of the run. */
  lemma MatchAtFrontAt(s: string, j: nat)
    requires j < DottedRun(s) && SplitDot(s, j)
    requires forall k :: j < k <= DottedRun(s) - 1 ==> !SplitDot(s, k)
    ensures MatchAtFront(s).Some? && MatchAtFront(s).value.0 == j
  {
    LastSplitDotIs(s, DottedRun(s) - 1, j);
  }

  /** The text `q.col` is one dotted run whose only split dot is the one
      written between the two. */
  lemma DottedJoinShape(q: string, col: string)
    requires q != [] && forall k :: 0 <= k < |q| ==> IsDottedChar(q[k])
    requires col != [] && AllWordChars(col)
    ensures var s := q + "." + col;
      && DottedRun(s) == |s| && SplitDot(s, |q|) && s[|q| + 1..] == col
      && forall k :: |q| < k <= |s| - 1 ==> !SplitDot(s, k)
  {
    var s := q + "." + col;
    var n := |q|;
    forall k | 0 <= k < |s| ensures IsDottedChar(s[k]) && (k > n ==> s[k] != '.') {
      if k < n {
        assert s[k] == q[k];
      } else if k > n {
        assert s[k] == col[k - n - 1];
      }
    }
    assert DottedRun(s) == |s|;
    assert s[n + 1] == col[0];
    assert s[n + 1..] == col;
  }

  /** The step of the search at a match. */
  lemma FindRefsAtMatch(s: string, j: nat, m: nat)
    requires s != [] && MatchAtFront(s) == Some((j, m))
    ensures FindRefs(s) == [(s[..j], s[j + 1..m])] + FindRefs(s[m..])
  {
  }

  /** After the match, the search goes on from its end. */
  lemma FindRefsTail(s: string, j: nat, m: nat)
    requires s != [] && MatchAtFront(s) == Some((j, m))
    ensures FindRefs(s)[1..] == FindRefs(s[m..])
  {
    FindRefsAtMatch(s, j, m);
    ConsTail((s[..j], s[j + 1..m]), FindRefs(s[m..]));
  }

  lemma {:induction false} LastSplitDotIs(r: string, hi: int, j: nat)
    requires j <= hi < |r| && SplitDot(r, j)
    requires forall k :: j < k <= hi ==> !SplitDot(r, k)
    ensures LastSplitDot(r, hi) == Some(j)
    decreases hi
  {
    if hi > j {
      LastSplitDotIs(r, hi - 1, j);
    }
  }

  /** A text without a dot holds no reference. */
  lemma {:induction false} NoDotNoRefs(s: string)
    requires '.' !in s
    ensures FindRefs(s) == []
    decreases |s|
  {
    if s != [] {
      assert forall k :: k < DottedRun(s) ==> !SplitDot(s, k);
      assert '.' !in s[1..];
      NoDotNoRefs(s[1..]);
    }
  }

  // ---------------------------------------------------------------------------
  // Messages
  // ---------------------------------------------------------------------------

  function HallucinatedTable(t: string): string {
    "Hallucinated table '" + t + "' in FROM."
  }

  function HallucinatedAlias(a: string, t: string): string {
    "Hallucinated alias '" + a + "' \U{2192} '" + t + "'"
  }

  function InvalidAliasColumn(col: string, t: string, a: string): string {
    "Invalid column '" + col + "' in '" + t + "' (alias '" + a + "')"
  }

  function InvalidTableColumn(col: string, t: string): string {
    "Invalid column '" + col + "' in table '" + t + "'"
  }

  function UndefinedQualifier(a: string, col: string): string {
    "Undefined alias/table '" + a + "' for column '" + col + "'"
  }

  // ---------------------------------------------------------------------------
  // Tables and aliases
  // ---------------------------------------------------------------------------

  /** The aliases `from_tables` binds, processed in order: a known table
      (after stripping) is bound under its last dotted component. */
  function BindFrom(ts: seq<string>, valid: set<string>, acc: map<string, string>): (m: map<string, string>)
    ensures acc.Keys <= m.Keys
    ensures forall a :: a in m ==> (a in acc && m[a] == acc[a]) || (m[a] in valid && LastComponent(m[a]) == a)
    ensures forall t :: t in ts && Strip(t) in valid ==> LastComponent(Strip(t)) in m
  {
    if ts == [] then acc
    else
      var t := Strip(ts[0]);
      var acc' := if t in valid then acc[LastComponent(t) := t] else acc;
      var m := BindFrom(ts[1..], valid, acc');
      BindStep(t, valid, acc, acc', m);
      assert forall x :: x in ts ==> x == ts[0] || x in ts[1..];
      m
  }

  /** One step of `BindFrom`: what holds of the bindings after `t` carries
      back to the bindings before it. */
  lemma BindStep(t: string, valid: set<string>, acc: map<string, string>, acc': map<string, string>, m: map<string, string>)
    requires acc' == if t in valid then acc[LastComponent(t) := t] else acc
    requires acc'.Keys <= m.Keys
    requires forall a :: a in m ==> (a in acc' && m[a] == acc'[a]) || (m[a] in valid && LastComponent(m[a]) == a)
    ensures acc.Keys <= m.Keys
    ensures forall a :: a in m ==> (a in acc && m[a] == acc[a]) || (m[a] in valid && LastComponent(m[a]) == a)
    ensures t in valid ==> LastComponent(t) in m
  {
  }

  /** `alias_to_table`: the `from_tables` bindings, then every alias whose
      stripped table is known (the aliases are bound last and win). */
  function AliasToTable(p: Plan, valid: set<string>): (m: map<string, string>)
    ensures forall a :: a in m ==> m[a] in valid
    ensures forall a :: a in AliasMap(p) && Strip(AliasMap(p)[a]) in valid ==> a in m && m[a] == Strip(AliasMap(p)[a])
  {
    var fromTables := BindFrom(Items(p.fromTables), valid, map[]);
    var al := AliasMap(p);
    fromTables + map a | a in al && Strip(al[a]) in valid :: Strip(al[a])
  }

  /** Every `from_tables` entry names a known table. */
  predicate TablesKnown(p: Plan, valid: set<string>) {
    forall t :: t in Items(p.fromTables) ==> Strip(t) in valid
  }

  /** Every alias is bound to a known table. */
  predicate AliasesKnown(p: Plan, valid: set<string>) {
    forall a :: a in AliasMap(p) ==> Strip(AliasMap(p)[a]) in valid
  }

  /** One message per `from_tables` entry that names no known table. */
  function FromErrors(p: Plan, valid: set<string>): (errs: set<string>)
    ensures forall t :: t in Items(p.fromTables) && Strip(t) !in valid ==> HallucinatedTable(Strip(t)) in errs
    ensures forall m :: m in errs ==> exists t :: t in Items(p.fromTables) && Strip(t) !in valid && m == HallucinatedTable(Strip(t))
    ensures errs == {} <==> TablesKnown(p, valid)
  {
    set t | t in Items(p.fromTables) && Strip(t) !in valid :: HallucinatedTable(Strip(t))
  }

  /** One message per alias bound to no known table. */
  function AliasErrors(p: Plan, valid: set<string>): (errs: set<string>)
    ensures forall a :: a in AliasMap(p) && Strip(AliasMap(p)[a]) !in valid ==> HallucinatedAlias(a, Strip(AliasMap(p)[a])) in errs
    ensures forall m :: m in errs ==>
              exists a :: a in AliasMap(p) && Strip(AliasMap(p)[a]) !in valid && m == HallucinatedAlias(a, Strip(AliasMap(p)[a]))
    ensures errs == {} <==> AliasesKnown(p, valid)
  {
    var al := AliasMap(p);
    set a | a in al && Strip(al[a]) !in valid :: HallucinatedAlias(a, Strip(al[a]))
  }

  // ---------------------------------------------------------------------------
  // Expressions
  // ---------------------------------------------------------------------------

  /** The complaint about one reference, if any. */
  function RefError(a: string, col: string, bound: map<string, string>, c: Catalog): (r: Option<string>)
    ensures a in bound ==> (r.None? <==> col in ValidColumns(c, bound[a]))
    ensures a in bound && r.Some? ==> r.value == InvalidAliasColumn(col, bound[a], a)
    ensures a !in bound && a in TableNames(c) ==> (r.None? <==> col in ValidColumns(c, a))
    ensures a !in bound && a in TableNames(c) && r.Some? ==> r.value == InvalidTableColumn(col, a)
    ensures a !in bound && a !in TableNames(c) ==> r == Some(UndefinedQualifier(a, col))
  {
    if a in bound then
      if col !in ValidColumns(c, bound[a]) then Some(InvalidAliasColumn(col, bound[a], a)) else None
    else if a in TableNames(c) then
      if col !in ValidColumns(c, a) then Some(InvalidTableColumn(col, a)) else None
    else Some(UndefinedQualifier(a, col))
  }

  /** The `order_by` column that is checked, if any: an object's column, a
      string, or the first entry of a list, when non-empty. */
  function OrderColumn(o: Option<OrderBy>): Option<string> {
    match o
    case None => None
    case Some(OrderDict(col, _)) => if col != "" then Some(col) else None
    case Some(OrderText(t)) => if t != "" then Some(t) else None
    case Some(OrderList(xs)) => if xs != [] && xs[0] != "" then Some(xs[0]) else None
  }

  /** Every expression the validator reads: the `select_columns` entries,
      `joins`, `where_conditions`, `group_by` and the `order_by` column.
      `dimensions`, `filters` and `metric` are not read. */
  function CheckedExpressions(p: Plan): seq<string> {
    var sel := seq(|Items(p.selectColumns)|, k requires 0 <= k < |Items(p.selectColumns)| => SelectSource(Items(p.selectColumns)[k]));
    var ord := match OrderColumn(p.orderBy) case Some(col) => [col] case None => [];
    sel + Items(p.joins) + Items(p.whereConditions) + Items(p.groupBy) + ord
  }

  /** Every reference in a checked expression is sound. */
  predicate RefsValid(p: Plan, bound: map<string, string>, c: Catalog) {
    forall e, ref :: e in CheckedExpressions(p) && ref in FindRefs(e) ==> RefError(ref.0, ref.1, bound, c).None?
  }

  /** `m` is the message of some faulty reference in a checked expression. */
  predicate FaultMessage(p: Plan, bound: map<string, string>, c: Catalog, m: string) {
    exists e, ref :: e in CheckedExpressions(p) && ref in FindRefs(e) && RefError(ref.0, ref.1, bound, c) == Some(m)
  }

  /** The messages of the faulty references in the checked expressions. */
  function FaultMessages(p: Plan, bound: map<string, string>, c: Catalog): set<string> {
    set e, ref | e in CheckedExpressions(p) && ref in FindRefs(e) && RefError(ref.0, ref.1, bound, c).Some?
      :: RefError(ref.0, ref.1, bound, c).value
  }

  /** One message per faulty reference in a checked expression. */
  function ExprErrors(p: Plan, bound: map<string, string>, c: Catalog): (errs: set<string>)
    ensures forall e, ref :: e in CheckedExpressions(p) && ref in FindRefs(e) && RefError(ref.0, ref.1, bound, c).Some?
              ==> RefError(ref.0, ref.1, bound, c).value in errs
    ensures forall m :: m in errs ==> FaultMessage(p, bound, c, m)
    ensures errs == {} <==> RefsValid(p, bound, c)
  {
    FaultyRefReported(p, bound, c);
    MessagesFromFaultyRefs(p, bound, c);
    FaultMessages(p, bound, c)
  }

  /** Every faulty reference leaves its message behind. */
  lemma FaultyRefReported(p: Plan, bound: map<string, string>, c: Catalog)
    ensures forall e, ref :: e in CheckedExpressions(p) && ref in FindRefs(e) && RefError(ref.0, ref.1, bound, c).Some?
              ==> RefError(ref.0, ref.1, bound, c).value in FaultMessages(p, bound, c)
    ensures !RefsValid(p, bound, c) ==> FaultMessages(p, bound, c) != {}
  {
    if !RefsValid(p, bound, c) {
      var e, ref :| e in CheckedExpressions(p) && ref in FindRefs(e) && RefError(ref.0, ref.1, bound, c).Some?;
      assert RefError(ref.0, ref.1, bound, c).value in FaultMessages(p, bound, c);
    }
  }

  /** Every message comes from a faulty reference. */
  lemma MessagesFromFaultyRefs(p: Plan, bound: map<string, string>, c: Catalog)
    ensures forall m :: m in FaultMessages(p, bound, c) ==> FaultMessage(p, bound, c, m)
  {
    forall m | m in FaultMessages(p, bound, c)
      ensures FaultMessage(p, bound, c, m)
    {
      var e, ref :| e in CheckedExpressions(p) && ref in FindRefs(e) && RefError(ref.0, ref.1, bound, c).Some?
                    && RefError(ref.0, ref.1, bound, c).value == m;
    }
  }

  // ---------------------------------------------------------------------------
  // The agent
  // ---------------------------------------------------------------------------

  /** `schema_validation_agent`. Anything but a non-empty object is rejected
      with one message. Otherwise the errors are: each unknown `from_tables`
      entry, each alias to an unknown table, and each reference in a checked
      expression whose qualifier is a bound alias or a table name lacking the
      column, or neither. The plan passes exactly when there is no error. */
  function ValidatePlan(pv: PlanValue, c: Catalog): (v: Verdict)
    ensures v.ok <==> v.errors == {}
    ensures NotAPlan(pv) ==> v == Verdict(false, {NotAPlanMessage})
    ensures !NotAPlan(pv) ==>
              (v.ok <==>
                && TablesKnown(pv.plan, TableNames(c))
                && AliasesKnown(pv.plan, TableNames(c))
                && RefsValid(pv.plan, AliasToTable(pv.plan, TableNames(c)), c))
    ensures !NotAPlan(pv) ==>
              forall t :: t in Items(pv.plan.fromTables) && Strip(t) !in TableNames(c) ==> HallucinatedTable(Strip(t)) in v.errors
    ensures !NotAPlan(pv) ==>
              forall a :: a in AliasMap(pv.plan) && Strip(AliasMap(pv.plan)[a]) !in TableNames(c)
                ==> HallucinatedAlias(a, Strip(AliasMap(pv.plan)[a])) in v.errors
    ensures !NotAPlan(pv) ==>
              var bound := AliasToTable(pv.plan, TableNames(c));
              forall e, ref :: e in CheckedExpressions(pv.plan) && ref in FindRefs(e) && RefError(ref.0, ref.1, bound, c).Some?
                ==> RefError(ref.0, ref.1, bound, c).value in v.errors
    ensures !NotAPlan(pv) ==>
              v.errors == FromErrors(pv.plan, TableNames(c)) + AliasErrors(pv.plan, TableNames(c))
                          + ExprErrors(pv.plan, AliasToTable(pv.plan, TableNames(c)), c)
  {
    if NotAPlan(pv) then Verdict(false, {NotAPlanMessage})
    else
      var p := pv.plan;
      var valid := TableNames(c);
      var fromErrors, aliasErrors := FromErrors(p, valid), AliasErrors(p, valid);
      var exprErrors := ExprErrors(p, AliasToTable(p, valid), c);
      UnionEmpty(fromErrors, aliasErrors, exprErrors);
      var errors := fromErrors + aliasErrors + exprErrors;
      Verdict(errors == {}, errors)
  }

  lemma UnionEmpty<T>(a: set<T>, b: set<T>, c: set<T>)
    ensures a + b + c == {} <==> a == {} && b == {} && c == {}
  {
    if a + b + c == {} {
      assert forall x :: x in a ==> x in a + b + c;
      assert forall x :: x in b ==> x in a + b + c;
    }
  }

  // ---------------------------------------------------------------------------
  // Properties
  // ---------------------------------------------------------------------------

  /** A reference whose qualifier is neither a bound alias nor a table name
      is reported as undefined, and the plan fails. */
  lemma {:induction false} UndefinedQualifierRejected(p: Plan, c: Catalog, k: nat, q: string, col: string)
    requires Keyed(p) && k < |Items(p.selectColumns)| && SelectSource(Items(p.selectColumns)[k]) == q + "." + col
    requires q != [] && forall i :: 0 <= i < |q| ==> IsDottedChar(q[i])
    requires col != [] && AllWordChars(col)
    requires q !in AliasToTable(p, TableNames(c)) && q !in TableNames(c)
    ensures UndefinedQualifier(q, col) in ValidatePlan(Object(p), c).errors
    ensures !ValidatePlan(Object(p), c).ok
  {
    assert "select_columns" in p.keys;
    var e := q + "." + col;
    assert CheckedExpressions(p)[k] == e;
    SingleReference(q, col);
    assert (q, col) in FindRefs(e);
  }

  /** `dimensions`, `filters`, `metric`, `metric_hint` and `generated_joins`
      are never read: changing them does not change the verdict on a plan
      that stays non-empty. */
  lemma UncheckedFieldsIgnored(p: Plan, q: Plan, c: Catalog)
    requires p.keys != {} && q.keys != {}
    requires p.selectColumns == q.selectColumns && p.joins == q.joins && p.whereConditions == q.whereConditions
    requires p.groupBy == q.groupBy && p.orderBy == q.orderBy && p.fromTables == q.fromTables && p.aliases == q.aliases
    ensures ValidatePlan(Object(p), c) == ValidatePlan(Object(q), c)
  {
    var valid := TableNames(c);
    assert CheckedExpressions(p) == CheckedExpressions(q);
    assert AliasToTable(p, valid) == AliasToTable(q, valid);
    assert FromErrors(p, valid) == FromErrors(q, valid);
    assert AliasErrors(p, valid) == AliasErrors(q, valid);
    assert ExprErrors(p, AliasToTable(p, valid), c) == ExprErrors(q, AliasToTable(q, valid), c);
  }
}

/** Worked cases of the plan validator. */
module SchemaValidatorExamples {
  import opened Common
  import opened Text
  import opened Schema
  import opened LogicalPlan
  import opened SchemaValidator

  /** The qualifier is greedy: in `dw.dim_date.date_id` it is the schema-qualified
      table `dw.dim_date`, not `dw`. */
  lemma SchemaQualifiedReference()
    ensures FindRefs("dw.dim_date.date_id") == [("dw.dim_date", "date_id")]
  {
    DottedQualifier();
    WordColumn();
    QualifiedJoin();
    SingleReference("dw.dim_date", "date_id");
  }

  lemma DottedQualifier()
    ensures forall k :: 0 <= k < |"dw.dim_date"| ==> IsDottedChar("dw.dim_date"[k])
  {
  }

  lemma WordColumn()
    ensures AllWordChars("date_id")
  {
  }

  lemma QualifiedJoin()
    ensures "dw.dim_date" + "." + "date_id" == "dw.dim_date.date_id"
  {
  }
}
