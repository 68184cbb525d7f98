/** Pulling the SQL statement out of a model's free-text reply: the planner's
    chain (a fenced block, then `SELECT ... ;`, then `SELECT` to the end, then
    a sentinel) and the corrector's tail. Each regular-expression search is a
    leftmost scan over start positions; the position-by-position match test
    is written out for the one pattern it stands for. */
module SqlExtraction {
  import opened Common
  import opened Text
  import opened SqlPostProcess

  const Select: string := "SELECT"

  /** The opening tag of a fenced SQL block, upper-cased. */
  const SqlFence: string := "```SQL"

  // ---------------------------------------------------------------------------
  // `SELECT ... ;`
  // ---------------------------------------------------------------------------

  /** `SELECT` (any letter case) at `p` and a `;` at or after `p + gap`: where
      `SELECT[\s\S]+?;` (gap 7) or `SELECT[\s\S]*?;` (gap 6) can match. */
  predicate StatementAt(t: string, p: nat, gap: nat) {
    WordAt(t, p, Select) && FindFrom(t, ";", p + gap).Some?
  }

  /** The leftmost match of the statement pattern at or after `from`: where it
      starts and where its lazy body stops, at the first `;` allowed. */
  function FirstStatement(t: string, gap: nat, from: nat): (r: Option<(nat, nat)>)
    ensures r.Some? ==> from <= r.value.0 && StatementAt(t, r.value.0, gap)
    ensures r.Some? ==> FindFrom(t, ";", r.value.0 + gap) == Some(r.value.1)
    ensures r.Some? ==> forall p :: from <= p < r.value.0 ==> !StatementAt(t, p, gap)
    ensures r.None? ==> forall p :: from <= p ==> !StatementAt(t, p, gap)
  {
    match FirstStatementStart(t, gap, from)
    case None => None
    case Some(p) => Some((p, FindFrom(t, ";", p + gap).value))
  }

  /** Where the leftmost match at or after `from` starts. */
  function FirstStatementStart(t: string, gap: nat, from: nat): (r: Option<nat>)
    ensures r.Some? ==> from <= r.value && StatementAt(t, r.value, gap)
    ensures r.Some? ==> forall p :: from <= p < r.value ==> !StatementAt(t, p, gap)
    ensures r.None? ==> forall p :: from <= p ==> !StatementAt(t, p, gap)
    decreases |t| - from
  {
    if from + |Select| > |t| then
      NoStatementPastEnd(t, gap, from);
      None
    else if StatementAt(t, from, gap) then Some(from)
    else FirstStatementStart(t, gap, from + 1)
  }

  /** No statement starts too close to the end to hold `SELECT`. */
  lemma NoStatementPastEnd(t: string, gap: nat, from: nat)
    requires from + |Select| > |t|
    ensures forall p :: from <= p ==> !StatementAt(t, p, gap)
  {
    forall p | from <= p ensures !StatementAt(t, p, gap) {
      WordAtFits(t, p, Select);
    }
  }

  /** The text of a statement match: from `SELECT` up to and including the
      first `;` at or after `p + gap`. */
  lemma StatementText(t: string, gap: nat, p: nat, q: nat)
    requires gap >= |Select| && StatementAt(t, p, gap) && FindFrom(t, ";", p + gap) == Some(q)
    ensures var s := t[p..q + 1];
      && WordAt(s, 0, Select) && s[|s| - 1] == ';'
      && (forall k :: gap <= k < |s| - 1 ==> s[k] != ';')
  {
    var s := t[p..q + 1];
    assert OccursAt(t, q, ";");
    assert t[q..q + 1] == ";";
    assert s[|s| - 1] == t[q];
    forall k | gap <= k < |s| - 1 ensures s[k] != ';' {
      assert p + gap <= p + k < q && s[k] == t[p + k];
      assert !OccursAt(t, p + k, ";");
      assert t[p + k..p + k + 1] == [t[p + k]];
    }
    WordAtChars(t, p, Select);
    assert s[..|Select|] == t[p..p + |Select|];
    WordPrefix(t, p, s);
  }

  /** A statement span is its own strip. */
  lemma StatementTextTrimmed(s: string)
    requires WordAt(s, 0, Select) && s[|s| - 1] == ';'
    ensures Strip(s) == s
  {
    WordAtChars(s, 0, Select);
    assert UpperChar(s[0]) == 'S';
    StripFixesTrimmed(s);
  }

  /** A case-insensitive word match reads the same from a slice that starts
      where the word does. */
  lemma WordPrefix(t: string, p: nat, s: string)
    requires WordAt(t, p, Select) && p + |Select| <= |t| && |Select| <= |s| && s[..|Select|] == t[p..p + |Select|]
    ensures WordAt(s, 0, Select)
  {
    WordAtChars(t, p, Select);
    CharsWordAt(s, 0, Select);
  }

  // ---------------------------------------------------------------------------
  // `SELECT` anywhere
  // ---------------------------------------------------------------------------

  /** `t.upper().find("SELECT")` from `from` on: the first `SELECT` in any
      letter case. */
  function FirstSelect(t: string, from: nat): (r: Option<nat>)
    ensures r.Some? ==> from <= r.value && WordAt(t, r.value, Select)
    ensures r.Some? ==> forall p :: from <= p < r.value ==> !WordAt(t, p, Select)
    ensures r.None? ==> forall p :: from <= p ==> !WordAt(t, p, Select)
    decreases |t| - from
  {
    if from + |Select| > |t| then None
    else if WordAt(t, from, Select) then Some(from)
    else FirstSelect(t, from + 1)
  }

  // ---------------------------------------------------------------------------
  // Fenced blocks
  // ---------------------------------------------------------------------------

  /** What `` ```sql\s*([\s\S]+?)``` `` can match at `p`: the tag, `g - (p + 6)`
      of the white space after it, a non-empty group from `g` to `e`, and a
      fence at `e`. */
  predicate FenceMatch(t: string, p: nat, g: nat, e: nat) {
    && WordAt(t, p, SqlFence)
    && p + |SqlFence| <= g <= p + |SqlFence| + SpaceRun(t[p + |SqlFence|..])
    && g < e && OccursAt(t, e, Fence)
  }

  /** The group the regular expression takes at `p`: the greedy `\s*` gives
      way one character only when the fence follows the white space at once. */
  function FencedAt(t: string, p: nat): (r: Option<(nat, nat)>)
    ensures r.Some? ==> FenceMatch(t, p, r.value.0, r.value.1)
  {
    if !WordAt(t, p, SqlFence) then None
    else
      var a := p + |SqlFence|;
      var w := SpaceRun(t[a..]);
      match FindFrom(t, Fence, a + w + 1)
      case Some(e) => Some((a + w, e))
      case None => if w >= 1 && OccursAt(t, a + w, Fence) then Some((a + w - 1, a + w)) else None
  }

  /** `FencedAt` makes the regular expression's choice among all the ways the
      pattern can match at `p`: the most white space before the group, then
      the shortest group; and it finds no group only when there is none. */
  lemma FencedAtIsPreferredMatch(t: string, p: nat, g: nat, e: nat)
    requires FenceMatch(t, p, g, e)
    ensures FencedAt(t, p).Some?
    ensures var (g0, e0) := FencedAt(t, p).value; g < g0 || (g == g0 && e0 <= e)
  {
    var a := p + |SqlFence|;
    var w := SpaceRun(t[a..]);
    SpaceRunIsSpace(t[a..]);
    assert t[e] == '`' by {
      assert t[e..e + 3] == Fence;
    }
    assert forall k :: a <= k < a + w ==> t[k] != '`' by {
      forall k | a <= k < a + w ensures t[k] != '`' {
        assert t[k] == t[a..][k - a];
      }
    }
    if FindFrom(t, Fence, a + w + 1).None? {
      assert e == a + w;
    }
  }

  /** The leftmost position at or after `from` with a fenced block. */
  function FirstFenced(t: string, from: nat): (r: Option<nat>)
    ensures r.Some? ==> from <= r.value && FencedAt(t, r.value).Some?
    ensures r.Some? ==> forall p :: from <= p < r.value ==> FencedAt(t, p).None?
    ensures r.None? ==> forall p :: from <= p ==> FencedAt(t, p).None?
    decreases |t| - from
  {
    if from + |SqlFence| > |t| then None
    else if FencedAt(t, from).Some? then Some(from)
    else FirstFenced(t, from + 1)
  }

  // ---------------------------------------------------------------------------
  // The planner's reply
  // ---------------------------------------------------------------------------

  /** The text `query_planner_agent` returns when it finds no SQL, before
      post-processing. */
  const PlannerFailed: string := "-- PLAN_VALIDATION_ERROR: planner_failed"

  /** What post-processing makes of non-empty SQL: it ends in `;` and holds
      no `;;`. */
  predicate SemicolonClosed(s: string) {
    s != [] && s[|s| - 1] == ';' && NoDoubleSemicolon(s)
  }

  /** The planner reply after its clean-up: stripped, a leading ```` ```sql ````
      tag cut (only with the tag), a closing fence cut, then backticks, line
      breaks and spaces stripped. */
  function CleanPlannerReply(out: string): string {
    var t := Strip(out);
    var t := if WordAt(t, 0, SqlFence) then t[|SqlFence|..] else t;
    StripWith(DropClosingFence(t), Some(FenceStripChars))
  }

  /** Which step of the chain supplies the SQL, with the text it supplies. */
  datatype PlannerSource =
    | FencedBlock(group: string)
    | StatementSpan(span: string)
    | SelectToEnd(tail: string)
    | NoSql

  /** The chain on the cleaned reply `t`. */
  function PlannerSourceOf(t: string): (src: PlannerSource)
    ensures src.FencedBlock? <==> FirstFenced(t, 0).Some?
    ensures src.NoSql? <==> FirstFenced(t, 0).None? && forall p :: !WordAt(t, p, Select)
    ensures src.StatementSpan? ==> WordAt(src.span, 0, Select) && src.span[|src.span| - 1] == ';'
    ensures src.SelectToEnd? ==> WordAt(src.tail, 0, Select) && forall p :: !StatementAt(t, p, 7)
  {
    match FirstFenced(t, 0)
    case Some(p) =>
      var (g, e) := FencedAt(t, p).value;
      FencedBlock(t[g..e])
    case None =>
      match FirstStatement(t, 7, 0)
      case Some((p, q)) =>
        StatementText(t, 7, p, q);
        StatementSpan(t[p..q + 1])
      case None =>
        match FirstSelect(t, 0)
        case Some(p) =>
          assert t[p..][..|Select|] == t[p..p + |Select|];
          WordPrefix(t, p, t[p..]);
          SelectToEnd(t[p..])
        case None =>
          NoSql
  }

  /** The sentinel comes out of the clean-up with a `;` added. */
  lemma PlannerFailedClosed()
    ensures PostProcessSql(PlannerFailed) == PlannerFailed + ";"
  {
    SentinelHasNoB();
    SentinelHasNoDollar();
    SentinelHasNoSemicolon();
    PostProcessClosesPlainText(PlannerFailed);
  }

  lemma SentinelHasNoB()
    ensures 'B' !in PlannerFailed && 'b' !in PlannerFailed
  {
    SentinelHasNoUpperB();
    SentinelHasNoLowerB();
  }

  lemma SentinelHasNoUpperB()
    ensures 'B' !in PlannerFailed
  {
  }

  lemma SentinelHasNoLowerB()
    ensures 'b' !in PlannerFailed
  {
  }

  lemma SentinelHasNoDollar()
    ensures '$' !in PlannerFailed
  {
  }

  lemma SentinelHasNoSemicolon()
    ensures ';' !in PlannerFailed
  {
  }

  /** The SQL `query_planner_agent` returns for a reply `out` of the planner:
      the text the chain finds, stripped and post-processed; the post-processed
      sentinel when it finds none. Text found by the `SELECT` searches keeps
      its leading `S`. */
  function PlannerSql(out: string): (sql: string)
    ensures PlannerSourceOf(CleanPlannerReply(out)).NoSql? ==> sql == PlannerFailed + ";"
    ensures sql == "" || SemicolonClosed(sql)
  {
    var t := CleanPlannerReply(out);
    ChainSql(t)
  }

  /** The SQL of the chain on a cleaned reply. */
  function ChainSql(t: string): (sql: string)
    ensures PlannerSourceOf(t).NoSql? ==> sql == PlannerFailed + ";"
    ensures sql == "" || SemicolonClosed(sql)
  {
    SourceSql(PlannerSourceOf(t))
  }

  /** SQL found by the `SELECT` searches keeps its leading `S`. */
  lemma PlannerSqlKeepsSelectFront(out: string)
    requires !PlannerSourceOf(CleanPlannerReply(out)).FencedBlock? && !PlannerSourceOf(CleanPlannerReply(out)).NoSql?
    ensures PlannerSql(out) != [] && UpperChar(PlannerSql(out)[0]) == 'S'
  {
    var src := PlannerSourceOf(CleanPlannerReply(out));
    var s := if src.StatementSpan? then src.span else src.tail;
    assert PlannerSql(out) == SelectSql(s);
  }

  /** The SQL the planner returns for the text the chain supplies. */
  function SourceSql(src: PlannerSource): (sql: string)
    requires src.StatementSpan? ==> WordAt(src.span, 0, Select)
    requires src.SelectToEnd? ==> WordAt(src.tail, 0, Select)
    ensures src.NoSql? ==> sql == PlannerFailed + ";"
    ensures sql == "" || SemicolonClosed(sql)
  {
    match src
    case FencedBlock(g) => FencedSql(g)
    case NoSql =>
      // the post-processed sentinel (PlannerFailedClosed)
      ClosedSentinelShape();
      PlannerFailed + ";"
    case StatementSpan(s) => SelectSql(s)
    case SelectToEnd(s) => SelectSql(s)
  }

  /** The SQL for a fenced block's contents: stripped and post-processed. */
  function FencedSql(g: string): (sql: string)
    ensures sql == "" <==> Strip(g) == ""
    ensures sql == "" || SemicolonClosed(sql)
  {
    PostProcessSql(Strip(g))
  }

  /** The closed sentinel ends in one `;` and has no doubled one. */
  lemma ClosedSentinelShape()
    ensures SemicolonClosed(PlannerFailed + ";")
  {
    PlannerFailedClosed();
  }

  /** The SQL for text the `SELECT` searches found: stripped and
      post-processed, keeping its leading `S`. */
  function SelectSql(s: string): (sql: string)
    requires WordAt(s, 0, Select)
    ensures sql != [] && UpperChar(sql[0]) == 'S'
    ensures SemicolonClosed(sql)
  {
    SelectTextKeepsFront(s);
    PostProcessSql(Strip(s))
  }

  /** Text starting with `SELECT` keeps its `S` through stripping and the
      clean-up. */
  lemma SelectTextKeepsFront(s: string)
    requires WordAt(s, 0, Select)
    ensures PostProcessSql(Strip(s)) != [] && UpperChar(PostProcessSql(Strip(s))[0]) == 'S'
  {
    WordAtChars(s, 0, Select);
    assert UpperChar(s[0 + 0]) == 'S';
    StripKeepsNonSpaceFront(s);
    var u := Strip(s);
    assert u[0] == s[0];
    PostProcessKeepsFront(u);
  }

  /** With no fenced block in the cleaned reply, the planner gives up (returns
      the closed sentinel) exactly when the reply holds no `SELECT`. A fenced
      block is taken whatever it holds. */
  lemma PlannerFailsIffNoSelect(out: string)
    requires FirstFenced(CleanPlannerReply(out), 0).None?
    ensures PlannerSql(out) == PlannerFailed + ";" <==> forall p :: !WordAt(CleanPlannerReply(out), p, Select)
  {
    var src := PlannerSourceOf(CleanPlannerReply(out));
    if !src.NoSql? {
      SelectNotSentinel(PlannerSql(out));
    }
  }

  /** Text that starts with an `s` is not the closed sentinel. */
  lemma SelectNotSentinel(sql: string)
    requires sql != [] && UpperChar(sql[0]) == 'S'
    ensures sql != PlannerFailed + ";"
  {
    assert (PlannerFailed + ";")[0] == '-';
  }

  // ---------------------------------------------------------------------------
  // The corrector's reply
  // ---------------------------------------------------------------------------

  /** A model reply: a JSON object (its string fields) or text. */
  datatype Reply = ObjectReply(fields: map<string, string>) | TextReply(text: string)

  /** The object the corrector returns when the reply holds no SQL. */
  const CannotFix: map<string, string> :=
    map["error" := "cannot_fix", "reason" := "LLM did not produce valid SQL"]

  /** The corrector reply after its clean-up: stripped, an opening fence (with
      an optional `sql` tag) cut, then backticks, newlines and spaces stripped. */
  function CleanCorrectorReply(resp: string): string {
    StripWith(DropOpeningFence(Strip(resp)), Some("`\n "))
  }

  /** `s` holds exactly one `;`, as its last character. */
  predicate OnlySemicolonAtEnd(s: string) {
    s != [] && s[|s| - 1] == ';' && CountChar(s, ';') == 1
  }

  /** The choice `corrector_agent` makes on the cleaned text `t`: the first
      `SELECT ... ;` span, which holds one `;` (at its end), else the whole text when it starts with `SELECT`,
      else the `cannot_fix` object. */
  function CorrectorChoice(t: string): (r: Reply)
    ensures r.TextReply? ==> WordAt(r.text, 0, Select)
    ensures r == ObjectReply(CannotFix) <==> (forall p :: !StatementAt(t, p, 6)) && !WordAt(t, 0, Select)
    ensures FirstStatement(t, 6, 0).Some? ==>
      r.TextReply? && OnlySemicolonAtEnd(r.text)
  {
    match FirstStatement(t, 6, 0)
    case Some((p, q)) =>
      StatementText(t, 6, p, q);
      StatementTextTrimmed(t[p..q + 1]);
      StatementSpanHasOneSemicolon(t, p, q);
      TextReply(Strip(t[p..q + 1]))
    case None =>
      if WordAt(t, 0, Select) then TextReply(t) else ObjectReply(CannotFix)
  }

  /** The tail of `corrector_agent`: an object reply comes back as it is; text
      is cleaned and searched for SQL. */
  function CorrectorResult(resp: Reply): (r: Reply)
    ensures resp.ObjectReply? ==> r == resp
    ensures resp.TextReply? && r.TextReply? ==> WordAt(r.text, 0, Select)
    ensures resp.TextReply? ==>
      var t := CleanCorrectorReply(resp.text);
      (r == ObjectReply(CannotFix) <==> (forall p :: !StatementAt(t, p, 6)) && !WordAt(t, 0, Select))
  {
    match resp
    case ObjectReply(_) => resp
    case TextReply(s) => CorrectorChoice(CleanCorrectorReply(s))
  }

  lemma SelectHasNoSemicolon()
    ensures forall k :: 0 <= k < |Select| ==> Select[k] != ';' && Select[k] != UpperChar(';')
  {
  }

  /** A span of the pattern with the empty lazy body allowed holds exactly
      one `;`, at its end. (With the body of at least one character a `;`
      right after `SELECT` is part of the body, as in `SELECT;;`.) */
  lemma StatementSpanHasOneSemicolon(t: string, p: nat, q: nat)
    requires StatementAt(t, p, |Select|) && FindFrom(t, ";", p + |Select|) == Some(q)
    ensures OnlySemicolonAtEnd(t[p..q + 1])
  {
    StatementText(t, |Select|, p, q);
    var s := t[p..q + 1];
    WordAtChars(s, 0, Select);
    SelectHasNoSemicolon();
    forall k | 0 <= k < |s| - 1 ensures s[k] != ';' {
      if k < |Select| {
        assert UpperChar(s[0 + k]) == Select[k];
      }
    }
    CountCharSkip(s, |s| - 1, ';');
    assert s[|s| - 1..] == ";";
  }
}
