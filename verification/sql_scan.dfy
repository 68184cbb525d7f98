/** The scanners `validate_sql` runs over a statement: the statement splitter,
    the deny-list patterns, `\blimit\b`, `table.column` pairs, the SELECT list
    with its top-level commas and `AS` aliases, and the GROUP BY list. Each
    regular expression is written out for the one pattern it stands for,
    including where its backtracking can lead. */
module SqlScan {
  import opened Common
  import opened Text
  import opened SqlPostProcess

  // ---------------------------------------------------------------------------
  // Statements
  // ---------------------------------------------------------------------------

  /** The quote open after reading `c` when `q` was open before. */
  function NextQuote(q: Option<char>, c: char): Option<char> {
    match q
    case Some(open) => if c == open then None else q
    case None => if c == '\'' || c == '"' then Some(c) else None
  }

  /** The strings of `ps` one after another. */
  function Concat(ps: seq<string>): string {
    if ps == [] then "" else ps[0] + Concat(ps[1..])
  }

  /** The pieces of `s` cut after every `;` outside quotes, `q` being the
      quote open where `s` starts. Every piece but the last ends with the
      `;` that closed it, and together the pieces are `s`. */
  function Pieces(s: string, q: Option<char>): (ps: seq<string>)
    ensures ps != []
    ensures Concat(ps) == s
    ensures forall k :: 0 <= k < |ps| - 1 ==> ps[k] != [] && ps[k][|ps[k]| - 1] == ';'
    decreases |s|
  {
    if s == [] then [""]
    else if q.None? && s[0] == ';' then
      var rest := Pieces(s[1..], None);
      assert ([";"] + rest)[1..] == rest;
      assert s == [s[0]] + s[1..];
      [";"] + rest
    else
      var rest := Pieces(s[1..], NextQuote(q, s[0]));
      var ps := [[s[0]] + rest[0]] + rest[1..];
      assert ps[1..] == rest[1..];
      assert Concat(rest) == rest[0] + Concat(rest[1..]);
      assert s == [s[0]] + s[1..];
      ps
  }

  /** The pieces stripped, blank ones dropped. */
  function NonBlankStripped(ps: seq<string>): (r: seq<string>)
    ensures |r| <= |ps|
    ensures forall k :: 0 <= k < |r| ==> r[k] != ""
  {
    if ps == [] then []
    else
      var rest := NonBlankStripped(ps[1..]);
      var t := Strip(ps[0]);
      if t == "" then rest else [t] + rest
  }

  /** `split_statements`: `sqlparse.split` taken as cutting after each `;`
      outside quotes, then every piece stripped and blank ones dropped. */
  function Statements(sql: string): seq<string> {
    NonBlankStripped(Pieces(sql, None))
  }

  /** No `;` and no quote: a single piece. */
  predicate Plain(s: string) {
    ';' !in s && '\'' !in s && '"' !in s
  }

  lemma {:induction false} PiecesOfPlain(s: string)
    requires Plain(s)
    ensures Pieces(s, None) == [s]
  {
    if s != [] {
      assert Plain(s[1..]) by {
        assert forall c :: c in s[1..] ==> c in s;
      }
      PiecesOfPlain(s[1..]);
      assert s[0] in s;
      assert NextQuote(None, s[0]) == None;
      assert [s[0]] + s[1..] == s;
    }
  }

  /** One step of `Pieces` over a character that does not cut. */
  lemma PiecesStep(s: string, q: Option<char>)
    requires s != [] && (q.Some? || s[0] != ';')
    ensures var rest := Pieces(s[1..], NextQuote(q, s[0]));
      Pieces(s, q) == [[s[0]] + rest[0]] + rest[1..]
  {
  }

  /** A plain text followed by `;` is cut right after the `;`. */
  lemma {:induction false} PiecesAfterPlain(a: string, b: string)
    requires Plain(a)
    ensures Pieces(a + ";" + b, None) == [a + ";"] + Pieces(b, None)
  {
    var t := a + ";" + b;
    if a == [] {
      assert t[0] == ';' && t[1..] == b;
      assert a + ";" == ";";
    } else {
      PlainTail(a);
      PiecesAfterPlain(a[1..], b);
      var rest := Pieces(a[1..] + ";" + b, None);
      assert rest[0] == a[1..] + ";" && rest[1..] == Pieces(b, None);
      FirstOfConcat(a, b);
      PiecesStep(t, None);
      ConsAppend(a, ";");
    }
  }

  /** The rest of a plain text is plain, and its first character neither
      cuts nor opens a quote. */
  lemma PlainTail(a: string)
    requires Plain(a) && a != []
    ensures Plain(a[1..]) && a[0] != ';' && NextQuote(None, a[0]) == None
  {
    assert forall c :: c in a[1..] ==> c in a;
    assert a[0] in a;
  }

  /** The first character and the rest of `a + ";" + b`. */
  lemma FirstOfConcat(a: string, b: string)
    requires a != []
    ensures (a + ";" + b)[0] == a[0] && (a + ";" + b)[1..] == a[1..] + ";" + b
  {
  }

  lemma BlankConcat(a: string, b: string)
    requires IsBlank(a) && IsBlank(b)
    ensures IsBlank(a + b)
  {
    forall k | 0 <= k < |a + b| ensures IsSpace((a + b)[k]) {
      if k < |a| {
        assert (a + b)[k] == a[k];
      } else {
        assert (a + b)[k] == b[k - |a|];
      }
    }
  }

  /** Text that is not blank has at least one non-blank piece. */
  lemma {:induction false} NonBlankHasStatement(ps: seq<string>)
    requires !IsBlank(Concat(ps))
    ensures NonBlankStripped(ps) != []
  {
    assert ps != [];
    StripEmptyIffBlank(ps[0]);
    if Strip(ps[0]) == "" {
      if IsBlank(Concat(ps[1..])) {
        BlankConcat(ps[0], Concat(ps[1..]));
      }
      NonBlankHasStatement(ps[1..]);
    }
  }

  /** Non-blank SQL splits into at least one statement. */
  lemma StatementsOfNonBlank(sql: string)
    requires !IsBlank(sql)
    ensures Statements(sql) != []
  {
    NonBlankHasStatement(Pieces(sql, None));
  }

  /** Text with no `;` and no quote is one statement, stripped. */
  lemma SingleStatement(s: string)
    requires Plain(s) && !IsBlank(s)
    ensures Statements(s) == [Strip(s)]
  {
    PiecesOfPlain(s);
    StripEmptyIffBlank(s);
    assert [s][1..] == [];
  }

  /** Two plain statements separated by `;` are split apart; the first
      keeps its `;`. */
  lemma TwoStatements(a: string, b: string)
    requires Plain(a) && Plain(b) && !IsBlank(b)
    ensures Statements(a + ";" + b) == [Strip(a + ";"), Strip(b)]
  {
    PiecesAfterPlain(a, b);
    PiecesOfPlain(b);
    assert [a + ";"] + [b] == [a + ";", b];
    assert (a + ";")[|a|] == ';';
    StripEmptyIffBlank(a + ";");
    StripEmptyIffBlank(b);
    KeepsBothNonBlank(a + ";", b);
  }

  lemma KeepsBothNonBlank(x: string, y: string)
    requires Strip(x) != "" && Strip(y) != ""
    ensures NonBlankStripped([x, y]) == [Strip(x), Strip(y)]
  {
    assert [x, y][1..] == [y] && [y][1..] == [];
  }

  // ---------------------------------------------------------------------------
  // Word boundaries and the deny-list patterns
  // ---------------------------------------------------------------------------

  /** `\b` before a word character at `i`. */
  predicate BoundaryBefore(t: string, i: int) {
    0 <= i <= |t| && (i == 0 || !IsWordChar(t[i - 1]))
  }

  /** `\b` after a word character that ends at `j`. */
  predicate BoundaryAfter(t: string, j: int) {
    0 <= j <= |t| && (j == |t| || !IsWordChar(t[j]))
  }

  /** The two shapes of pattern on the deny list: `\bFIRST\s+SECOND\b`, and
      a call `\bNAME\s*\(` (with `\)` right after when `emptyArgs`). */
  datatype Pattern = WordPair(first: string, second: string) | CallOf(name: string, emptyArgs: bool)

  function Head(p: Pattern): string {
    match p
    case WordPair(first, _) => first
    case CallOf(name, _) => name
  }

  /** The pattern matches at `i`, in any letter case. Both runs of white
      space are greedy and give nothing back: what follows them is not white
      space. */
  predicate PatternAt(p: Pattern, t: string, i: int) {
    && BoundaryBefore(t, i) && i + |Head(p)| <= |t| && WordAt(t, i, Head(p))
    && var a := i + |Head(p)|;
       var w := SpaceRun(t[a..]);
       match p
       case WordPair(_, second) =>
         w >= 1 && WordAt(t, a + w, second) && BoundaryAfter(t, a + w + |second|)
       case CallOf(_, emptyArgs) =>
         a + w < |t| && t[a + w] == '(' && (!emptyArgs || (a + w + 1 < |t| && t[a + w + 1] == ')'))
  }

  /** The leftmost match at or after `from` (`re.search`). */
  function FirstPatternAt(p: Pattern, t: string, from: nat): (r: Option<nat>)
    ensures r.Some? ==> from <= r.value && PatternAt(p, t, r.value)
    ensures r.Some? ==> forall i :: from <= i < r.value ==> !PatternAt(p, t, i)
    ensures r.None? ==> forall i :: from <= i ==> !PatternAt(p, t, i)
    decreases |t| - from
  {
    if from > |t| then None
    else if PatternAt(p, t, from) then Some(from)
    else FirstPatternAt(p, t, from + 1)
  }

  predicate Matches(p: Pattern, t: string) {
    FirstPatternAt(p, t, 0).Some?
  }

  /** `\b(sum|avg|count|min|max)\s*\(`: an aggregate call. */
  const AggregateNames: seq<string> := ["SUM", "AVG", "COUNT", "MIN", "MAX"]

  /** Some name of `names` is called in `t`. */
  predicate CallsAnyOf(t: string, names: seq<string>) {
    names != [] && (Matches(CallOf(names[0], false), t) || CallsAnyOf(t, names[1..]))
  }

  predicate HasAggregate(t: string) {
    CallsAnyOf(t, AggregateNames)
  }

  // ---------------------------------------------------------------------------
  // LIMIT
  // ---------------------------------------------------------------------------

  /** `\blimit\b` at `i` (case-sensitive, on the lower-cased statement). */
  predicate LimitAt(t: string, i: int) {
    OccursAt(t, i, "limit") && BoundaryBefore(t, i) && BoundaryAfter(t, i + 5)
  }

  function FirstLimit(t: string, from: nat): (r: Option<nat>)
    ensures r.Some? ==> from <= r.value && LimitAt(t, r.value)
    ensures r.Some? ==> forall i :: from <= i < r.value ==> !LimitAt(t, i)
    ensures r.None? ==> forall i :: from <= i ==> !LimitAt(t, i)
    decreases |t| - from
  {
    if from + 5 > |t| then None
    else if LimitAt(t, from) then Some(from)
    else FirstLimit(t, from + 1)
  }

  /** `re.findall(r"\blimit\b", t)` finds more than one match. */
  predicate MultipleLimits(t: string) {
    var f := FirstLimit(t, 0);
    f.Some? && FirstLimit(t, f.value + 1).Some?
  }

  /** More than one match means two distinct positions. */
  lemma MultipleLimitsIff(t: string)
    ensures MultipleLimits(t) <==> exists i, j :: 0 <= i < j && LimitAt(t, i) && LimitAt(t, j)
  {
    if exists i, j :: 0 <= i < j && LimitAt(t, i) && LimitAt(t, j) {
      var i, j :| 0 <= i < j && LimitAt(t, i) && LimitAt(t, j);
      var f := FirstLimit(t, 0).value;
      assert f <= i;
      assert f + 1 <= j;
    }
  }

  /** Matches of `\blimit\b` cannot overlap, so counting positions counts
      what `re.findall` returns. */
  lemma LimitMatchesDoNotOverlap(t: string, i: int, k: int)
    requires LimitAt(t, i) && i < k < i + 5
    ensures !LimitAt(t, k)
  {
    assert t[k - 1] == t[i..i + 5][k - 1 - i];
  }

  // ---------------------------------------------------------------------------
  // table.column pairs
  // ---------------------------------------------------------------------------

  /** `([a-zA-Z_][\w]*)\.([a-zA-Z_][\w]*)` at `i`: where the dot is and where
      the match ends. The runs of word characters are greedy and cannot give
      back: a dot is not a word character. */
  function PairAt(t: string, i: nat): (r: Option<(nat, nat)>)
    ensures r.Some? ==> i < r.value.0 < r.value.1 <= |t| && t[r.value.0] == '.'
  {
    if i < |t| && IsIdentStart(t[i]) then
      var d := i + WordRun(t[i..]);
      if d + 1 < |t| && t[d] == '.' && IsIdentStart(t[d + 1]) then Some((d, d + 1 + WordRun(t[d + 1..])))
      else None
    else None
  }

  /** An identifier of the pattern: a letter or `_`, then word characters. */
  predicate IsIdentifier(s: string) {
    s != [] && IsIdentStart(s[0]) && AllWordChars(s)
  }

  /** The two identifiers of a match. */
  lemma PairAtParts(t: string, i: nat)
    requires PairAt(t, i).Some?
    ensures var (d, e) := PairAt(t, i).value;
      IsIdentifier(t[i..d]) && IsIdentifier(t[d + 1..e]) && t[i..e] == t[i..d] + "." + t[d + 1..e]
  {
    var (d, e) := PairAt(t, i).value;
    WordRunPrefix(t[i..]);
    assert t[i..][..d - i] == t[i..d];
    WordRunPrefix(t[d + 1..]);
    assert t[d + 1..][..e - d - 1] == t[d + 1..e];
    assert t[i..e] == t[i..d] + [t[d]] + t[d + 1..e];
  }

  /** `re.findall` of the pair pattern from `from`: each pair is two
      identifiers, and `table.column` stands in the text. */
  function PairsFrom(t: string, from: nat): (ps: seq<(string, string)>)
    ensures forall k :: 0 <= k < |ps| ==>
      IsIdentifier(ps[k].0) && IsIdentifier(ps[k].1) && Contains(t, ps[k].0 + "." + ps[k].1)
    decreases |t| - from
  {
    if from >= |t| then []
    else match PairAt(t, from)
      case Some((d, e)) =>
        PairAtParts(t, from);
        ContainsSlice(t, from, e);
        [(t[from..d], t[d + 1..e])] + PairsFrom(t, e)
      case None => PairsFrom(t, from + 1)
  }

  // ---------------------------------------------------------------------------
  // The SELECT list: `select\s+(.*?)\s+from\s`
  // ---------------------------------------------------------------------------

  /** `\s+from\s` at `k`: the greedy white space must run up to `FROM`. */
  predicate FromAt(t: string, k: int) {
    0 <= k < |t| && IsSpace(t[k]) && FromWordAt(t, k + SpaceRun(t[k..]))
  }

  /** `from\s` at `e`. */
  predicate FromWordAt(t: string, e: int) {
    0 <= e && e + 4 < |t| && WordAt(t, e, "FROM") && IsSpace(t[e + 4])
  }

  function FirstFromAt(t: string, from: nat): (r: Option<nat>)
    ensures r.Some? ==> from <= r.value && FromAt(t, r.value)
    ensures r.Some? ==> forall k :: from <= k < r.value ==> !FromAt(t, k)
    ensures r.None? ==> forall k :: from <= k ==> !FromAt(t, k)
    decreases |t| - from
  {
    if from >= |t| then None
    else if FromAt(t, from) then Some(from)
    else FirstFromAt(t, from + 1)
  }

  /** A way the pattern can match at `i`: the list runs from `g` to `k`,
      after at least one of the white-space characters that follow `SELECT`. */
  predicate SelectListMatch(t: string, i: nat, g: nat, k: nat) {
    && i + 6 <= |t| && WordAt(t, i, "SELECT")
    && i + 7 <= g <= i + 6 + SpaceRun(t[i + 6..])
    && g <= k && FromAt(t, k)
  }

  /** The match the regular expression takes at `i`: the greedy `\s+` first
      keeps all its white space, and gives back one character only when the
      list is empty and `FROM` follows the white space at once. */
  function SelectListAt(t: string, i: nat): (r: Option<(nat, nat)>)
    ensures r.Some? ==> SelectListMatch(t, i, r.value.0, r.value.1)
  {
    if !(i + 6 <= |t| && WordAt(t, i, "SELECT")) then None
    else ListAfterRun(t, i + 6, SpaceRun(t[i + 6..]))
  }

  /** The list after `w` white-space characters at `a`. */
  function ListAfterRun(t: string, a: nat, w: nat): (r: Option<(nat, nat)>)
    ensures r.Some? ==> a + 1 <= r.value.0 <= a + w && r.value.0 <= r.value.1 && FromAt(t, r.value.1)
  {
    if w == 0 then None
    else match FirstFromAt(t, a + w)
      case Some(k) => Some((a + w, k))
      case None => if w >= 2 && FromAt(t, a + w - 1) then Some((a + w - 1, a + w - 1)) else None
  }

  /** White space counted from inside a run ends where the run ends. */
  lemma {:induction false} SpaceRunSuffix(s: string, j: nat)
    requires j <= SpaceRun(s)
    ensures SpaceRun(s[j..]) == SpaceRun(s) - j
    decreases j
  {
    if j > 0 {
      assert s[1..][j - 1..] == s[j..];
      SpaceRunSuffix(s[1..], j - 1);
    }
  }

  /** A `\s+from\s` that starts inside a run of white space needs `FROM`
      right after the run, so one also starts at the run's last character. */
  lemma FromInsideRun(t: string, a: nat, w: nat, k: nat)
    requires a <= |t| && w == SpaceRun(t[a..])
    requires a <= k < a + w
    requires FromAt(t, k)
    ensures FromAt(t, a + w - 1)
  {
    RunEndFromInside(t, a, w, k);
  }

  /** From any position inside a run of white space, the run ends at the
      same place. */
  lemma RunEndFromInside(t: string, a: nat, w: nat, k: nat)
    requires a <= |t| && w == SpaceRun(t[a..])
    requires a <= k < a + w
    ensures k + SpaceRun(t[k..]) == a + w
    ensures a + w - 1 < |t| && IsSpace(t[a + w - 1]) && a + w - 1 + SpaceRun(t[a + w - 1..]) == a + w
  {
    SpaceRunFrom(t, a, k - a);
    SpaceRunFrom(t, a, w - 1);
    SpaceRunIsSpace(t[a..]);
    assert t[a + w - 1] == t[a..][w - 1];
  }

  /** `SpaceRunSuffix` on a text's suffix. */
  lemma SpaceRunFrom(t: string, a: nat, j: nat)
    requires a <= |t| && j <= SpaceRun(t[a..])
    ensures SpaceRun(t[a + j..]) == SpaceRun(t[a..]) - j
  {
    SpaceRunSuffix(t[a..], j);
    assert t[a..][j..] == t[a + j..];
  }

  /** `SelectListAt` makes the regular expression's choice among all the
      ways the pattern can match at `i`: the most white space before the
      list, then the shortest list. */
  lemma SelectListAtIsPreferredMatch(t: string, i: nat, g: nat, k: nat)
    requires SelectListMatch(t, i, g, k)
    ensures SelectListAt(t, i).Some?
    ensures var (g0, k0) := SelectListAt(t, i).value; g < g0 || (g == g0 && k0 <= k)
  {
    var a := i + 6;
    var w := SpaceRun(t[a..]);
    if k < a + w {
      FromInsideRun(t, a, w, k);
    }
    PreferredChoice(t, a, w, g, k);
    assert SelectListAt(t, i) == ListAfterRun(t, a, w);
  }

  /** The choice `ListAfterRun` makes, given where `\s+from\s` is known to
      match. */
  lemma PreferredChoice(t: string, a: nat, w: nat, g: nat, k: nat)
    requires a + 1 <= g <= a + w && g <= k
    requires k < a + w ==> FromAt(t, a + w - 1)
    requires a + w <= k ==> FromAt(t, k)
    ensures ListAfterRun(t, a, w).Some?
    ensures var (g0, k0) := ListAfterRun(t, a, w).value; g < g0 || (g == g0 && k0 <= k)
  {
    var first := FirstFromAt(t, a + w);
    if first.Some? {
      assert ListAfterRun(t, a, w) == Some((a + w, first.value));
    } else {
      assert ListAfterRun(t, a, w) == Some((a + w - 1, a + w - 1));
    }
  }

  /** `re.search`: the leftmost position with a match. */
  function FirstSelectList(t: string, from: nat): (r: Option<(nat, nat)>)
    ensures r.Some? ==> exists i :: from <= i && SelectListAt(t, i) == r
    ensures r.Some? ==> r.value.0 <= r.value.1 < |t|
    ensures r.None? ==> forall i :: from <= i ==> SelectListAt(t, i).None?
    decreases |t| - from
  {
    if from + 6 > |t| then None
    else if SelectListAt(t, from).Some? then SelectListAt(t, from)
    else FirstSelectList(t, from + 1)
  }

  // ---------------------------------------------------------------------------
  // Top-level commas: `,(?![^(]*\))`
  // ---------------------------------------------------------------------------

  /** The first parenthesis at or after `j`. */
  function FirstParen(s: string, j: nat): (r: Option<nat>)
    ensures r.Some? ==> j <= r.value < |s| && (s[r.value] == '(' || s[r.value] == ')')
    ensures r.Some? ==> forall m :: j <= m < r.value ==> s[m] != '(' && s[m] != ')'
    ensures r.None? ==> forall m :: j <= m < |s| ==> s[m] != '(' && s[m] != ')'
    decreases |s| - j
  {
    if j >= |s| then None
    else if s[j] == '(' || s[j] == ')' then Some(j)
    else FirstParen(s, j + 1)
  }

  /** The lookahead `[^(]*\)` succeeds at `j`. */
  predicate ClosesAhead(s: string, j: nat) {
    var p := FirstParen(s, j);
    p.Some? && s[p.value] == ')'
  }

  /** The lookahead succeeds exactly when a `)` follows with no `(` before it. */
  lemma ClosesAheadIff(s: string, j: nat)
    ensures ClosesAhead(s, j) <==> exists p :: j <= p < |s| && s[p] == ')' && forall m :: j <= m < p ==> s[m] != '('
  {
    if exists p :: j <= p < |s| && s[p] == ')' && forall m :: j <= m < p ==> s[m] != '(' {
      var p :| j <= p < |s| && s[p] == ')' && forall m :: j <= m < p ==> s[m] != '(';
      assert FirstParen(s, j).Some?;
    }
  }

  /** `re.split(r',(?![^(]*\))', s)` from `start`, the comma search at `i`. */
  function TopLevelPieces(s: string, start: nat, i: nat): (ps: seq<string>)
    requires start <= i <= |s|
    ensures ps != []
    decreases |s| - i
  {
    if i == |s| then [s[start..]]
    else if s[i] == ',' && !ClosesAhead(s, i + 1) then [s[start..i]] + TopLevelPieces(s, i + 1, i + 1)
    else TopLevelPieces(s, start, i + 1)
  }

  /** Joining the pieces with commas gives the text back. */
  lemma {:induction false} JoinTopLevelPieces(s: string, start: nat, i: nat)
    requires start <= i <= |s|
    ensures Join(",", TopLevelPieces(s, start, i)) == s[start..]
    decreases |s| - i
  {
    if i < |s| {
      if s[i] == ',' && !ClosesAhead(s, i + 1) {
        JoinTopLevelPieces(s, i + 1, i + 1);
        var rest := TopLevelPieces(s, i + 1, i + 1);
        assert TopLevelPieces(s, start, i) == [s[start..i]] + rest;
        assert ([s[start..i]] + rest)[1..] == rest;
        assert s[start..] == s[start..i] + "," + s[i + 1..];
      } else {
        JoinTopLevelPieces(s, start, i + 1);
      }
    }
  }

  // ---------------------------------------------------------------------------
  // Aliases: `\s+as\s+[\w"]+$`
  // ---------------------------------------------------------------------------

  /** Where `$` can close the alias: at the end, or before a final newline
      (which the class `[\w"]` cannot take). */
  function TailEnd(s: string): nat {
    if s != [] && s[|s| - 1] == '\n' then |s| - 1 else |s|
  }

  /** The alias pattern matches from `i` to `TailEnd(s)`. */
  predicate AliasTailAt(s: string, i: int) {
    && 0 <= i < |s| && IsSpace(s[i])
    && var e := i + SpaceRun(s[i..]);
       && e + 2 <= |s| && WordAt(s, e, "AS")
       && var n := e + 2 + SpaceRun(s[e + 2..]);
          n > e + 2 && n < TailEnd(s) && forall k :: n <= k < TailEnd(s) ==> IsWordChar(s[k]) || s[k] == '"'
  }

  function FirstAliasTail(s: string, from: nat): (r: Option<nat>)
    ensures r.Some? ==> from <= r.value && AliasTailAt(s, r.value)
    ensures r.None? ==> forall i :: from <= i ==> !AliasTailAt(s, i)
    decreases |s| - from
  {
    if from >= |s| then None
    else if AliasTailAt(s, from) then Some(from)
    else FirstAliasTail(s, from + 1)
  }

  /** `re.sub(r"\s+as\s+[\w\"]+$", "", it, flags=re.IGNORECASE).strip()`.
      The match runs to the end, so there is at most one. */
  function WithoutAlias(s: string): (r: string)
    ensures FirstAliasTail(s, 0).None? ==> r == Strip(s)
    ensures FirstAliasTail(s, 0).Some? ==> r == Strip(s[..FirstAliasTail(s, 0).value] + s[TailEnd(s)..])
  {
    match FirstAliasTail(s, 0)
    case Some(i) => Strip(s[..i] + s[TailEnd(s)..])
    case None => Strip(s)
  }

  // ---------------------------------------------------------------------------
  // GROUP BY: `group\s+by\s+(.*?)(?:order\s+by|limit|$)`
  // ---------------------------------------------------------------------------

  /** Where the lazy group may stop: `order\s+by`, `limit`, the end, or just
      before a final newline. No word boundary is asked for. */
  predicate StopAt(t: string, k: int) {
    0 <= k <= |t| && (OrderByHead(t[k..]).Some? || WordAt(t, k, "LIMIT") || k == |t| || (k == |t| - 1 && t[k] == '\n'))
  }

  /** The first place at or after `g` where the group stops; the end of the
      text always qualifies. */
  function StopFrom(t: string, g: nat): (k: nat)
    requires g <= |t|
    ensures g <= k <= |t| && StopAt(t, k)
    ensures forall j :: g <= j < k ==> !StopAt(t, j)
    decreases |t| - g
  {
    if StopAt(t, g) then g else StopFrom(t, g + 1)
  }

  /** The group of the GROUP BY pattern at `i`. The white space after `BY`
      is greedy and never gives back, since the lazy group always finds a
      place to stop. */
  function GroupByAt(t: string, i: nat): (r: Option<(nat, nat)>)
    ensures r.Some? ==> WordAt(t, i, "GROUP") && r.value.0 <= r.value.1 <= |t| && StopAt(t, r.value.1)
    ensures r.Some? ==> forall j :: r.value.0 <= j < r.value.1 ==> !StopAt(t, j)
  {
    if !(i + 5 <= |t| && WordAt(t, i, "GROUP")) then None
    else
      var w1 := SpaceRun(t[i + 5..]);
      var b := i + 7 + w1;
      if w1 == 0 || b > |t| || !WordAt(t, i + 5 + w1, "BY") then None
      else
        var w2 := SpaceRun(t[b..]);
        if w2 == 0 then None else Some((b + w2, StopFrom(t, b + w2)))
  }

  function FirstGroupBy(t: string, from: nat): (r: Option<(nat, nat)>)
    ensures r.Some? ==> exists i :: from <= i && GroupByAt(t, i) == r
    ensures r.Some? ==> r.value.0 <= r.value.1 <= |t|
    ensures r.None? ==> forall i :: from <= i ==> GroupByAt(t, i).None?
    decreases |t| - from
  {
    if from + 5 > |t| then None
    else if GroupByAt(t, from).Some? then GroupByAt(t, from)
    else FirstGroupBy(t, from + 1)
  }
}
