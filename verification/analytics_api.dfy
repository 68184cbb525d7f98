/** The text helpers of the HTTP layer: pulling one SQL query out of a
    model's reply (`extract_sql`), rendering a query result for a prompt
    (`_format_result_for_prompt`), spotting raw SQL or data in a summary
    (`_contains_raw_sql_or_data`) and the answer given without a model
    (`create_fallback_response`). */
module AnalyticsApi {
  import opened Common
  import opened Text
  import opened SqlPostProcess
  import opened SqlScan
  import opened SqlExtraction

  // ---------------------------------------------------------------------------
  // Cleaning a reply
  // ---------------------------------------------------------------------------

  /** A character of a fence's language tag: the class `[:\w-]`. */
  predicate IsTagChar(c: char) { IsWordChar(c) || c == ':' || c == '-' }

  /** The length of the run of tag characters that starts `s`. */
  function TagRun(s: string): (n: nat)
    ensures n <= |s|
    ensures forall k :: 0 <= k < n ==> IsTagChar(s[k])
    ensures n == |s| || !IsTagChar(s[n])
  {
    if s == [] || !IsTagChar(s[0]) then 0 else 1 + TagRun(s[1..])
  }

  /** The reply opens with a fence tagged `sql` (in any letter case). */
  predicate OpensSqlFence(t: string) {
    OccursAt(t, 0, Fence) && WordAt(t, 3, "SQL")
  }

  /** `re.sub(r"^```(?:sql[:\w-]*)\s*", "", t, flags=re.IGNORECASE)`: the
      tag must be there; whatever tag characters follow it, and the white
      space after those, are cut together with the fence. */
  function DropSqlFence(t: string): (r: string)
    ensures |r| <= |t| && r == t[|t| - |r|..]
    ensures r == t <==> !OpensSqlFence(t)
    ensures OpensSqlFence(t) ==> forall k :: 6 <= k < |t| - |r| ==> IsTagChar(t[k]) || IsSpace(t[k])
    ensures OpensSqlFence(t) ==> r == [] || !IsSpace(r[0])
  {
    if OpensSqlFence(t) then
      var g := 6 + TagRun(t[6..]);
      var e := g + SpaceRun(t[g..]);
      SpaceRunIsSpace(t[g..]);
      assert forall k :: g <= k < e ==> t[k] == t[g..][k - g];
      assert forall k :: 6 <= k < g ==> t[k] == t[6..][k - 6];
      t[e..]
    else t
  }

  /** The characters `strip("` \n\r\t")` removes before the search. */
  const ReplyStripChars: string := "` \n\r\t"

  /** The reply as `extract_sql` searches it: stripped, without the opening
      `sql` fence, without a closing fence, stripped again and then stripped
      of backticks and the common white space. */
  function CleanReply(text: string): string {
    StripWith(Strip(DropClosingFence(DropSqlFence(Strip(text)))), Some(ReplyStripChars))
  }

  // ---------------------------------------------------------------------------
  // The two searches
  // ---------------------------------------------------------------------------

  /** Where `(SELECT\b[\s\S]*?;)` (any letter case) can match: `SELECT`
      ending at a word boundary, and a `;` somewhere after it. There is no
      boundary in front. */
  predicate StatementMatchAt(t: string, i: nat) {
    StatementAt(t, i, |Select|) && BoundaryAfter(t, i + |Select|)
  }

  /** The leftmost statement match at or after `from`. */
  function FirstStatementMatch(t: string, from: nat): (r: Option<nat>)
    ensures r.Some? ==> from <= r.value && StatementMatchAt(t, r.value)
    ensures r.Some? ==> forall i :: from <= i < r.value ==> !StatementMatchAt(t, i)
    ensures r.None? ==> forall i :: from <= i ==> !StatementMatchAt(t, i)
    decreases |t| - from
  {
    if from + |Select| > |t| then None
    else if StatementMatchAt(t, from) then Some(from)
    else FirstStatementMatch(t, from + 1)
  }

  /** Where `\bSELECT\b` (any letter case) matches. */
  predicate WholeSelectAt(t: string, i: nat) {
    BoundaryBefore(t, i) && WordAt(t, i, Select) && BoundaryAfter(t, i + |Select|)
  }

  /** The leftmost whole-word `SELECT` at or after `from`. */
  function FirstWholeSelect(t: string, from: nat): (r: Option<nat>)
    ensures r.Some? ==> from <= r.value && WholeSelectAt(t, r.value)
    ensures r.Some? ==> forall i :: from <= i < r.value ==> !WholeSelectAt(t, i)
    ensures r.None? ==> forall i :: from <= i ==> !WholeSelectAt(t, i)
    decreases |t| - from
  {
    if from + |Select| > |t| then None
    else if WholeSelectAt(t, from) then Some(from)
    else FirstWholeSelect(t, from + 1)
  }

  /** No statement match anywhere in `t`. */
  ghost predicate NoStatementMatch(t: string) {
    forall i: nat :: !StatementMatchAt(t, i)
  }

  /** No whole-word `SELECT` anywhere in `t`. */
  ghost predicate NoWholeSelect(t: string) {
    forall i: nat :: !WholeSelectAt(t, i)
  }

  /** A query closed by its only `;`: it opens with the whole word `SELECT`
      and its one `;` is its last character. */
  predicate ClosedStatement(s: string) {
    && |Select| < |s| && WholeSelectAt(s, 0)
    && s[|s| - 1] == ';' && forall k :: 0 <= k < |s| - 1 ==> s[k] != ';'
  }

  /** A text that opens with `SELECT` has no `;` in its first word. */
  lemma SemicolonOnlyAfterWord(s: string)
    requires WordAt(s, 0, Select)
    requires forall k :: |Select| <= k < |s| - 1 ==> s[k] != ';'
    ensures forall k :: 0 <= k < |s| - 1 ==> s[k] != ';'
  {
    WordAtChars(s, 0, Select);
    SelectHasNoSemicolon();
    forall k | 0 <= k < |s| - 1 ensures s[k] != ';' {
      if k < |Select| {
        assert UpperChar(s[0 + k]) == Select[k];
      }
    }
  }

  /** A word boundary inside a slice is one in the whole text. */
  lemma BoundaryAfterInSlice(t: string, i: nat, j: nat, n: nat)
    requires i + n < j <= |t| && BoundaryAfter(t, i + n)
    ensures BoundaryAfter(t[i..j], n)
  {
    assert t[i..j][n] == t[i + n];
  }

  /** The span of a statement match is a closed statement, and it is its
      own strip. */
  lemma StatementMatchSpan(t: string, i: nat, q: nat)
    requires StatementMatchAt(t, i) && FindFrom(t, ";", i + |Select|) == Some(q)
    ensures i + |Select| <= q < |t|
    ensures ClosedStatement(t[i..q + 1]) && Strip(t[i..q + 1]) == t[i..q + 1]
  {
    StatementText(t, |Select|, i, q);
    var s := t[i..q + 1];
    StatementTextTrimmed(s);
    SemicolonOnlyAfterWord(s);
    BoundaryAfterInSlice(t, i, q + 1, |Select|);
  }

  /** Stripping text that starts with a whole-word `SELECT` keeps the word
      at its front. */
  lemma StripKeepsWholeSelect(s: string)
    requires WholeSelectAt(s, 0)
    ensures Strip(s) <= s && WholeSelectAt(Strip(s), 0)
  {
    WordAtChars(s, 0, Select);
    assert Select[5] == 'T';
    assert UpperChar(s[0 + 0]) == 'S' && UpperChar(s[0 + 5]) == 'T';
    StripKeepsNonSpaceFront(s);
    var r := Strip(s);
    assert TrimStart(s, None) == s;
    assert r == TrimEnd(s, None);
    assert |Select| <= |r|;
    assert s[..|Select|] == r[..|Select|];
    WordPrefix(s, 0, r);
    assert |r| == |Select| || r[|Select|] == s[|Select|];
  }

  /** The search on the cleaned reply: the first `SELECT ... ;` statement,
      else the text from the first whole-word `SELECT` to the end, else
      nothing. */
  function ExtractFrom(t: string): (r: string)
    ensures r == [] <==> NoStatementMatch(t) && NoWholeSelect(t)
    ensures r != [] ==> WholeSelectAt(r, 0)
    ensures !NoStatementMatch(t) ==> ClosedStatement(r)
    ensures NoStatementMatch(t) ==> ';' !in r
  {
    match FirstStatementMatch(t, 0)
    case Some(i) => StatementExtract(t, i)
    case None =>
      match FirstWholeSelect(t, 0)
      case Some(i) =>
        TailCase(t, i);
        Strip(t[i..])
      case None =>
        assert NoStatementMatch(t) && NoWholeSelect(t);
        []
  }

  /** The statement matched at `i`: the span from `SELECT` to the first `;`
      after it. The source strips the match; the span is already trimmed,
      so stripping it changes nothing. */
  function StatementExtract(t: string, i: nat): (r: string)
    requires StatementMatchAt(t, i)
    ensures !NoStatementMatch(t) && ClosedStatement(r)
  {
    var q := FindFrom(t, ";", i + |Select|).value;
    StatementMatchSpan(t, i, q);
    MatchIsSome(t, i);
    t[i..q + 1]
  }

  lemma MatchIsSome(t: string, i: nat)
    requires StatementMatchAt(t, i)
    ensures !NoStatementMatch(t)
  {
  }

  /** What `ExtractFrom` needs to know when no statement matches and the
      first whole-word `SELECT` is at `i`. */
  lemma TailCase(t: string, i: nat)
    requires FirstStatementMatch(t, 0).None? && WholeSelectAt(t, i)
    ensures NoStatementMatch(t) && !NoWholeSelect(t)
    ensures var r := Strip(t[i..]); r != [] && WholeSelectAt(r, 0) && ';' !in r
  {
    StripKeepsWholeSelect(t[i..]);
    TailHasNoSemicolon(t, i);
  }

  /** Where the search for `;` fails, no character from there on is one. */
  lemma NoSemicolonFrom(t: string, from: nat)
    requires FindFrom(t, ";", from).None?
    ensures forall p :: from <= p < |t| ==> t[p] != ';'
  {
    forall p | from <= p < |t| ensures t[p] != ';' {
      assert !OccursAt(t, p, ";");
      assert t[p..p + 1] == [t[p]];
    }
  }

  /** Without a statement match, the text from a whole-word `SELECT` on
      holds no `;`: one after the word would have closed a statement. */
  lemma TailHasNoSemicolon(t: string, i: nat)
    requires WholeSelectAt(t, i) && !StatementMatchAt(t, i)
    ensures ';' !in Strip(t[i..])
  {
    SelectTailHasNoSemicolon(t, i);
    StripKeepsAbsent(t[i..], ';');
  }

  lemma SelectTailHasNoSemicolon(t: string, i: nat)
    requires WholeSelectAt(t, i) && !StatementMatchAt(t, i)
    ensures ';' !in t[i..]
  {
    NoSemicolonFrom(t, i + |Select|);
    WordAtChars(t, i, Select);
    SelectHasNoSemicolon();
    forall k | 0 <= k < |t| - i ensures t[i..][k] != ';' {
      if k < |Select| {
        assert UpperChar(t[i + k]) == Select[k];
      } else {
        assert t[i..][k] == t[i + k];
      }
    }
  }

  /** `extract_sql`: a missing or empty reply gives ""; otherwise the search
      runs on the cleaned reply. Whatever it returns starts with the whole
      word `SELECT`. */
  function ExtractSql(text: Option<string>): (r: string)
    ensures text.None? || text == Some("") ==> r == ""
    ensures text.Some? && text.value != "" ==> r == ExtractFrom(CleanReply(text.value))
    ensures r != [] ==> text.Some? && WholeSelectAt(r, 0)
  {
    match text
    case None => ""
    case Some(s) => if s == "" then "" else ExtractFrom(CleanReply(s))
  }

  /** A closed statement passes through the cleaning unchanged. */
  lemma CleanReplyKeepsClosedStatement(s: string)
    requires ClosedStatement(s)
    ensures CleanReply(s) == s
  {
    WordAtChars(s, 0, Select);
    assert UpperChar(s[0 + 0]) == 'S';
    CleanReplyKeepsWordToSemicolon(s);
  }

  /** Text from a word character to a final `;` passes through the cleaning
      unchanged. */
  lemma CleanReplyKeepsWordToSemicolon(s: string)
    requires s != [] && IsWordChar(s[0]) && s[|s| - 1] == ';'
    ensures CleanReply(s) == s
  {
    NotCleaned(s[0]);
    NotCleaned(s[|s| - 1]);
    StripFixesTrimmed(s);
    NoFenceKept(s);
    StripWithFixesTrimmed(s, Some(ReplyStripChars));
    assert Strip(DropClosingFence(DropSqlFence(Strip(s)))) == s;
  }

  /** Word characters and `;` survive both strips of the cleaning. */
  lemma NotCleaned(c: char)
    requires IsWordChar(c) || c == ';'
    ensures !IsSpace(c) && !Strippable(c, Some(ReplyStripChars))
  {
  }

  /** Neither fence step changes text that starts with a word character and
      ends with `;`. */
  lemma NoFenceKept(s: string)
    requires s != [] && IsWordChar(s[0]) && s[|s| - 1] == ';'
    ensures DropClosingFence(DropSqlFence(s)) == s
  {
    assert !OccursAt(s, 0, Fence) by {
      assert s[0] != Fence[0];
    }
    assert !EndsWith(s, Fence) && !EndsWith(s, Fence + "\n") by {
      assert Fence[2] != ';' && (Fence + "\n")[3] != ';';
    }
  }

  /** The search for `;` after the word finds the last character of a
      closed statement. */
  lemma ClosedStatementEnd(s: string)
    requires ClosedStatement(s)
    ensures FindFrom(s, ";", |Select|) == Some(|s| - 1)
  {
    assert OccursAt(s, |s| - 1, ";") by {
      assert s[|s| - 1..|s|] == [s[|s| - 1]];
    }
    forall k | |Select| <= k < |s| - 1 ensures !OccursAt(s, k, ";") {
      assert s[k..k + 1] == [s[k]];
    }
  }

  /** A closed statement is extracted as itself. */
  lemma ClosedStatementExtractsItself(s: string)
    requires ClosedStatement(s)
    ensures ExtractSql(Some(s)) == s
  {
    ClosedStatementFound(s);
    CleanReplyKeepsClosedStatement(s);
    assert ExtractSql(Some(s)) == ExtractFrom(CleanReply(s));
  }

  /** The search finds a closed statement whole. */
  lemma ClosedStatementFound(s: string)
    requires ClosedStatement(s)
    ensures ExtractFrom(s) == s
  {
    ClosedStatementEnd(s);
    assert StatementMatchAt(s, 0);
    assert FirstStatementMatch(s, 0) == Some(0);
    assert ExtractFrom(s) == StatementExtract(s, 0) == s[0..|s| - 1 + 1];
    assert s[0..|s|] == s;
  }

  /** Extracting again from an extracted statement changes nothing. */
  lemma ExtractStatementIdempotent(text: string)
    requires !NoStatementMatch(CleanReply(text))
    ensures ExtractSql(Some(ExtractSql(Some(text)))) == ExtractSql(Some(text))
  {
    var r := ExtractSql(Some(text));
    assert text != "" && ClosedStatement(r);
    ClosedStatementExtractsItself(r);
  }

  /** A reply holding `SELECT` only inside a longer word. */
  const InsideWordReply: string := "XSELECT 1;"

  /** The statement search has no boundary in front of `SELECT`, so a
      statement is found inside a longer word even though no whole-word
      `SELECT` is there. */
  lemma StatementInsideWord()
    ensures NoWholeSelect(CleanReply(InsideWordReply))
    ensures ExtractSql(Some(InsideWordReply)) == "SELECT 1;"
  {
    InsideWordReplyClean();
    InsideWordReplyHasNoWholeSelect();
    InsideWordReplyStatement();
    assert ExtractSql(Some(InsideWordReply)) == ExtractFrom(InsideWordReply);
  }

  lemma InsideWordReplyClean()
    ensures CleanReply(InsideWordReply) == InsideWordReply
  {
    var t := InsideWordReply;
    assert t[0] == 'X' && t[|t| - 1] == ';';
    CleanReplyKeepsWordToSemicolon(t);
  }

  lemma InsideWordReplyHasNoWholeSelect()
    ensures NoWholeSelect(InsideWordReply)
  {
    var t := InsideWordReply;
    forall i: nat ensures !WholeSelectAt(t, i) {
      if WordAt(t, i, Select) {
        WordAtChars(t, i, Select);
        assert UpperChar(t[i + 0]) == 'S';
        assert i == 1;
      }
    }
  }

  lemma InsideWordReplyStatement()
    ensures ExtractFrom(InsideWordReply) == "SELECT 1;"
  {
    var t := InsideWordReply;
    InsideWordReplyMatch();
    ExtractAtSecond(t, 9);
    InsideWordReplySpan();
  }

  lemma InsideWordReplySpan()
    ensures InsideWordReply[1..10] == "SELECT 1;"
  {
  }

  /** The extraction when the first statement match is at index 1 and its
      `;` at `q`. */
  lemma ExtractAtSecond(t: string, q: nat)
    requires !StatementMatchAt(t, 0) && StatementMatchAt(t, 1)
    requires FindFrom(t, ";", 1 + |Select|) == Some(q)
    ensures q < |t| && ExtractFrom(t) == t[1..q + 1]
  {
    var m := FirstStatementMatch(t, 0);
    assert m == Some(1);
    FirstMatchExtracted(t, 1, q);
  }

  /** The extraction when the first statement match is at `i` and its `;`
      at `q`. */
  lemma FirstMatchExtracted(t: string, i: nat, q: nat)
    requires FirstStatementMatch(t, 0) == Some(i) && FindFrom(t, ";", i + |Select|) == Some(q)
    ensures q < |t| && ExtractFrom(t) == t[i..q + 1]
  {
    assert ExtractFrom(t) == StatementExtract(t, i);
  }

  lemma InsideWordReplyMatch()
    ensures !StatementMatchAt(InsideWordReply, 0) && StatementMatchAt(InsideWordReply, 1)
    ensures FindFrom(InsideWordReply, ";", 7) == Some(9)
  {
    InsideWordReplySemicolon();
    InsideWordReplySelect();
  }

  lemma InsideWordReplySemicolon()
    ensures FindFrom(InsideWordReply, ";", 7) == Some(9)
  {
    var t := InsideWordReply;
    assert t[7..8] == " " && t[8..9] == "1" && t[9..10] == ";";
    assert !OccursAt(t, 7, ";") && !OccursAt(t, 8, ";") && OccursAt(t, 9, ";");
  }

  lemma InsideWordReplySelect()
    ensures !WordAt(InsideWordReply, 0, Select) && WordAt(InsideWordReply, 1, Select)
    ensures BoundaryAfter(InsideWordReply, 1 + |Select|)
  {
    var t := InsideWordReply;
    CharsWordAt(t, 1, Select);
    assert t[7] == ' ';
    assert t[0..][0] == 'X' && Select[0] == 'S';
  }

  // ---------------------------------------------------------------------------
  // Rendering a result for a prompt
  // ---------------------------------------------------------------------------

  /** How many characters of a value are kept before `...` is added. */
  const CellLimit: nat := 100

  /** The `max_rows` used when the caller gives none. */
  const DefaultMaxRows: int := 6

  /** One value of a result row: `''` for NULL; otherwise `str(v)`, cut to
      its first 100 characters plus `...` when longer, with line breaks
      turned into spaces. */
  function CellText(v: Option<string>): (r: string)
    ensures v.None? ==> r == ""
    ensures '\n' !in r
    ensures v.Some? ==> |r| == if |v.value| > CellLimit then CellLimit + 3 else |v.value|
    ensures v.Some? ==> forall k :: 0 <= k < |v.value| && k < CellLimit ==>
              r[k] == (if v.value[k] == '\n' then ' ' else v.value[k])
    ensures v.Some? && |v.value| > CellLimit ==> r[CellLimit..] == "..."
  {
    match v
    case None => ""
    case Some(s) =>
      var cut := if |s| > CellLimit then s[..CellLimit] + "..." else s;
      var r := ReplaceChar(cut, '\n', ' ');
      assert |s| > CellLimit ==> r[CellLimit..] == cut[CellLimit..];
      r
  }

  /** A sample row: its values rendered and joined with `, `. */
  function RowLine(row: seq<Option<string>>): (line: string)
    ensures '\n' !in line
  {
    var cells := seq(|row|, i requires 0 <= i < |row| => CellText(row[i]));
    JoinAvoids(", ", cells, '\n');
    Join(", ", cells)
  }

  /** `len(rows[:m])` for `n` rows: a slice end that is cut to the length,
      and counts from the end when negative. */
  function SliceLength(n: nat, m: int): (k: nat)
    ensures k <= n && (0 <= m ==> k <= m)
    ensures 0 <= m < n ==> k == m
    ensures m < 0 ==> k == (if n + m > 0 then n + m else 0)
  {
    if 0 <= m then (if m < n then m else n)
    else if n + m > 0 then n + m else 0
  }

  function ColumnsLine(cols: seq<string>): string {
    "columns: " + Join(", ", cols)
  }

  const RowsCountHead: string := "rows_count: "

  function RowsCountLine(n: nat): string {
    RowsCountHead + NatToString(n)
  }

  function MoreRowsLine(k: int): string {
    "... and " + IntToString(k) + " more rows"
  }

  /** The lines `_format_result_for_prompt` joins: the column names, the
      row count, and for a non-empty result a header, the sample rows
      (`rows[:max_rows]`) and a line counting the rows left out. */
  function PromptLines(cols: seq<string>, rows: seq<seq<Option<string>>>, maxRows: int): (ls: seq<string>)
    ensures |ls| >= 2 && ls[0] == ColumnsLine(cols) && ls[1] == RowsCountLine(|rows|)
    ensures rows == [] ==> |ls| == 2
    ensures rows != [] ==>
              && |ls| == 3 + SliceLength(|rows|, maxRows) + (if |rows| > maxRows then 1 else 0)
              && ls[2] == "sample_rows:"
              && (forall i :: 0 <= i < SliceLength(|rows|, maxRows) ==> ls[3 + i] == RowLine(rows[i]))
              && (|rows| > maxRows ==> ls[|ls| - 1] == MoreRowsLine(|rows| - maxRows))
  {
    var n := |rows|;
    var head := [ColumnsLine(cols), RowsCountLine(n)];
    if n == 0 then head
    else
      var k := SliceLength(n, maxRows);
      var sample := seq(k, i requires 0 <= i < k => RowLine(rows[i]));
      head + ["sample_rows:"] + sample + (if n > maxRows then [MoreRowsLine(n - maxRows)] else [])
  }

  /** `_format_result_for_prompt`: the lines joined with line breaks. */
  function FormatResultForPrompt(cols: seq<string>, rows: seq<seq<Option<string>>>, maxRows: int): string {
    Join("\n", PromptLines(cols, rows, maxRows))
  }

  /** No line holds a line break when no column name does. */
  lemma PromptLinesAreLines(cols: seq<string>, rows: seq<seq<Option<string>>>, maxRows: int)
    requires forall k :: 0 <= k < |cols| ==> '\n' !in cols[k]
    ensures var ls := PromptLines(cols, rows, maxRows); forall k :: 0 <= k < |ls| ==> '\n' !in ls[k]
  {
    var ls := PromptLines(cols, rows, maxRows);
    JoinAvoids(", ", cols, '\n');
    assert '\n' !in ls[0];
    assert '\n' !in ls[1];
    forall k | 2 <= k < |ls| ensures '\n' !in ls[k] {
      if k == |ls| - 1 && |rows| > maxRows && rows != [] {
        assert ls[k] == MoreRowsLine(|rows| - maxRows);
      }
    }
  }

  /** The output splits back into its lines when no column name holds a
      line break: the column line, the count (whose digits read back as the
      number of rows), the sample rows in order, and a closing line exactly
      when rows were left out. */
  lemma FormatReadsBack(cols: seq<string>, rows: seq<seq<Option<string>>>, maxRows: int)
    requires forall k :: 0 <= k < |cols| ==> '\n' !in cols[k]
    ensures var ls := Split(FormatResultForPrompt(cols, rows, maxRows), '\n');
      && ls == PromptLines(cols, rows, maxRows)
      && |RowsCountHead| <= |ls[1]|
      && (forall k :: |RowsCountHead| <= k < |ls[1]| ==> IsDigit(ls[1][k]))
      && DigitsValue(ls[1][|RowsCountHead|..]) == |rows|
  {
    var ls := PromptLines(cols, rows, maxRows);
    PromptLinesAreLines(cols, rows, maxRows);
    SplitJoin(ls, '\n');
    assert "\n" == ['\n'];
    assert ls[1][|RowsCountHead|..] == NatToString(|rows|);
    NatToStringRoundTrip(|rows|);
  }

  // ---------------------------------------------------------------------------
  // Raw SQL or data in a summary
  // ---------------------------------------------------------------------------

  /** The fragments whose presence in a summary (lower-cased) marks it as
      leaking SQL or raw result data. */
  const Suspects: seq<string> :=
    ["select ", " from ", " where ", " join ", " columns", "'columns'", "rows_count", "rows:", "dw."]

  /** Some string of `subs` occurs in `s`. */
  function AnyIn(s: string, subs: seq<string>): (b: bool)
    ensures b <==> exists k :: 0 <= k < |subs| && Contains(s, subs[k])
  {
    if subs == [] then false
    else
      assert forall k :: 1 <= k < |subs| ==> subs[k] == subs[1..][k - 1];
      Contains(s, subs[0]) || AnyIn(s, subs[1..])
  }

  /** `x` is not blank, and `low` holds it stripped and lower-cased. */
  predicate Echoes(low: string, x: string) {
    Strip(x) != "" && Contains(low, Lower(Strip(x)))
  }

  /** `_contains_raw_sql_or_data`: an empty summary never leaks; otherwise
      it leaks when, lower-cased, it holds a suspect fragment, the query or
      the result's text. */
  function ContainsRawSqlOrData(text: string, sql: string, resultRepr: string): (b: bool)
    ensures text == "" ==> !b
    ensures b <==> (text != "" &&
                    ((exists k :: 0 <= k < |Suspects| && Contains(Lower(text), Suspects[k]))
                     || Echoes(Lower(text), sql) || Echoes(Lower(text), resultRepr)))
  {
    if text == "" then false
    else
      var low := Lower(text);
      AnyIn(low, Suspects) || Echoes(low, sql) || Echoes(low, resultRepr)
  }

  lemma LowerAppend(a: string, b: string)
    ensures Lower(a + b) == Lower(a) + Lower(b)
  {
    assert forall i :: 0 <= i < |a + b| ==> Lower(a + b)[i] == (Lower(a) + Lower(b))[i];
  }

  /** An occurrence in `a` is an occurrence in any text around it. */
  lemma ContainsInside(a: string, x: string, y: string, p: string)
    requires Contains(a, p)
    ensures Contains(x + a + y, p)
  {
    var s := x + a + y;
    assert s[|x|..|x| + |a|] == a;
    ContainsOfSlice(s, |x|, |x| + |a|, p);
  }

  /** Adding text around a leaking summary keeps it leaking. */
  lemma LeakSurvivesExtension(text: string, x: string, y: string, sql: string, resultRepr: string)
    requires ContainsRawSqlOrData(text, sql, resultRepr)
    ensures ContainsRawSqlOrData(x + text + y, sql, resultRepr)
  {
    var low := Lower(text);
    LowerAppend(x, text);
    LowerAppend(x + text, y);
    var big := Lower(x) + low + Lower(y);
    assert Lower(x + text + y) == big;
    if AnyIn(low, Suspects) {
      var k :| 0 <= k < |Suspects| && Contains(low, Suspects[k]);
      ContainsInside(low, Lower(x), Lower(y), Suspects[k]);
    } else if Echoes(low, sql) {
      ContainsInside(low, Lower(x), Lower(y), Lower(Strip(sql)));
    } else {
      ContainsInside(low, Lower(x), Lower(y), Lower(Strip(resultRepr)));
    }
  }

  /** A summary that repeats the query, in any letter case, leaks. */
  lemma QueryEchoLeaks(x: string, y: string, sql: string, resultRepr: string)
    requires Strip(sql) != ""
    ensures ContainsRawSqlOrData(x + Strip(sql) + y, sql, resultRepr)
    ensures ContainsRawSqlOrData(x + Upper(Strip(sql)) + y, sql, resultRepr)
  {
    var q := Strip(sql);
    EchoLeaks(x, q, y, sql, resultRepr);
    LowerOfUpper(q);
    EchoLeaks(x, Upper(q), y, sql, resultRepr);
  }

  /** A summary holding text that lower-cases to the stripped query leaks. */
  lemma EchoLeaks(x: string, e: string, y: string, sql: string, resultRepr: string)
    requires Strip(sql) != "" && Lower(e) == Lower(Strip(sql))
    ensures ContainsRawSqlOrData(x + e + y, sql, resultRepr)
  {
    var q := Lower(e);
    ContainsSelf(q);
    LowerAppend(x, e);
    LowerAppend(x + e, y);
    ContainsInside(q, Lower(x), Lower(y), q);
    assert Lower(x + e + y) == Lower(x) + q + Lower(y);
    EchoIsLeak(x + e + y, sql, resultRepr);
  }

  /** A text is in itself. */
  lemma ContainsSelf(q: string)
    ensures Contains(q, q)
  {
    ContainsSlice(q, 0, |q|);
    assert q[0..|q|] == q;
  }

  /** A summary that echoes the query leaks. */
  lemma EchoIsLeak(text: string, sql: string, resultRepr: string)
    requires Echoes(Lower(text), sql)
    ensures ContainsRawSqlOrData(text, sql, resultRepr)
  {
  }

  /** The check ignores letter case in the summary. */
  lemma LeakIgnoresCase(text: string, sql: string, resultRepr: string)
    ensures ContainsRawSqlOrData(Upper(text), sql, resultRepr) == ContainsRawSqlOrData(text, sql, resultRepr)
  {
    LowerOfUpper(text);
  }

  // ---------------------------------------------------------------------------
  // The answer given without a model
  // ---------------------------------------------------------------------------

  /** A value of a result row, as far as the fallback answer looks at it:
      an integer, a boolean (an integer to Python), or anything else with
      the text `str` gives it. */
  datatype Value = IntValue(n: int) | BoolValue(b: bool) | OtherValue(text: string)

  /** A result row: a list or tuple, a mapping (its values in key order),
      or a single value. */
  datatype Row = Tuple(items: seq<Value>) | Record(values: seq<Value>) | Single(value: Value)

  const MatchesQuestion: string := " phù hợp với câu hỏi của bạn."

  const NoDataMessage: string := "Không tìm thấy dữ liệu" + MatchesQuestion

  /** The words "the result" that open both answers about a first value. */
  const ResultWords: string := "Kết quả"

  const UnreadableMessage: string := ResultWords + " có" + " nhưng không thể diễn giải chi tiết."

  function CountMessage(n: int): string {
    "Có " + IntToString(n) + " kết quả" + MatchesQuestion
  }

  function MainValueMessage(s: string): string {
    ResultWords + " chính: " + s + "."
  }

  /** The value the answer reports: the first item of a list or tuple, the
      first value of a mapping, or the row itself; none when a list, tuple
      or mapping is empty (Python raises there). */
  function MainValue(row: Row): (v: Option<Value>)
    ensures v.None? <==> (row.Tuple? && row.items == []) || (row.Record? && row.values == [])
  {
    match row
    case Tuple(items) => if items == [] then None else Some(items[0])
    case Record(values) => if values == [] then None else Some(values[0])
    case Single(v) => Some(v)
  }

  /** `create_fallback_response`: no rows, a count, the first value as
      text, or the message for a first row it cannot read. */
  function FallbackResponse(rows: seq<Row>): (r: string)
  {
    if rows == [] then NoDataMessage
    else match MainValue(rows[0])
      case None => UnreadableMessage
      case Some(IntValue(n)) => CountMessage(n)
      case Some(BoolValue(b)) => CountMessage(if b then 1 else 0)
      case Some(OtherValue(s)) => MainValueMessage(s)
  }

  /** The characters that tell the fixed messages apart. */
  lemma NoDataMark()
    ensures NoDataMessage[0] == 'K' && NoDataMessage[1] == 'h'
  {
    var head := "Không tìm thấy dữ liệu";
    assert head == "Kh" + "ông tìm thấy dữ liệu";
    assert NoDataMessage[..|head|] == head;
  }

  lemma UnreadableMark()
    ensures |UnreadableMessage| > 9 && UnreadableMessage[1] != 'h' && UnreadableMessage[9] != 'h'
  {
    assert (ResultWords + " có")[9] == 'ó';
  }

  lemma CountMark(n: int)
    ensures CountMessage(n)[0] == 'C'
  {
  }

  lemma MainValueMark(v: string)
    ensures MainValueMessage(v)[0] == 'K' && MainValueMessage(v)[1] != 'h' && MainValueMessage(v)[9] == 'h'
  {
  }

  /** The answer tells the cases apart: the no-data message exactly when
      there are no rows, and the unreadable message exactly when the first
      row is an empty list, tuple or mapping. */
  lemma FallbackBranches(rows: seq<Row>)
    ensures FallbackResponse(rows) == NoDataMessage <==> rows == []
    ensures FallbackResponse(rows) == UnreadableMessage <==> rows != [] && MainValue(rows[0]).None?
  {
    NoDataMark();
    UnreadableMark();
    if rows != [] {
      match MainValue(rows[0])
      case None =>
      case Some(IntValue(n)) =>
        CountMark(n);
      case Some(BoolValue(b)) =>
        CountMark(if b then 1 else 0);
      case Some(OtherValue(v)) =>
        MainValueMark(v);
    }
  }

  /** The count in the answer reads back as the first value. */
  lemma FallbackCountReadsBack(rows: seq<Row>, n: nat)
    requires rows != [] && MainValue(rows[0]) == Some(IntValue(n))
    ensures var r := FallbackResponse(rows); var e := 3 + |NatToString(n)|;
      e <= |r| && (forall k :: 3 <= k < e ==> IsDigit(r[k])) && DigitsValue(r[3..e]) == n
  {
    var r := FallbackResponse(rows);
    assert r == "Có " + NatToString(n) + " kết quả" + MatchesQuestion;
    assert r[3..3 + |NatToString(n)|] == NatToString(n);
    NatToStringRoundTrip(n);
  }
}
