/** `postprocess_sql`: the clean-up applied to the SQL text the planner
    returns. It strips the text, drops code fences, drops `ORDER BY` heads with
    nothing to order by, drops the `$` of `$alias.column` placeholders, and
    leaves exactly one `;` at the end. */
module SqlPostProcess {
  import opened Common
  import opened Text

  const Fence: string := "```"

  /** The characters `strip("`\n\r ")` removes after the closing fence. */
  const FenceStripChars: string := "`\n\r "

  // ---------------------------------------------------------------------------
  // Code fences
  // ---------------------------------------------------------------------------

  /** `re.sub(r"^```(?:sql)?", "", t, flags=re.IGNORECASE)`: an opening fence,
      with an optional `sql` tag in any letter case, is cut from the front. */
  function DropOpeningFence(t: string): (r: string)
    ensures |r| <= |t| && r == t[|t| - |r|..]
    ensures r == t <==> !OccursAt(t, 0, Fence)
    ensures OccursAt(t, 0, Fence) ==> |t| - |r| == (if WordAt(t, 3, "SQL") then 6 else 3)
  {
    if OccursAt(t, 0, Fence) then
      if WordAt(t, 3, "SQL") then t[6..] else t[3..]
    else t
  }

  /** `re.sub(r"```$", "", t)`: `$` matches at the very end and just before a
      final newline, so a closing fence in either place is cut. */
  function DropClosingFence(t: string): (r: string)
    ensures |r| <= |t|
    ensures r <= t || (EndsWith(t, "\n") && r != [] && r == t[..|r| - 1] + "\n")
    ensures |r| < |t| <==> EndsWith(t, Fence) || EndsWith(t, Fence + "\n")
    ensures |r| < |t| ==> |t| - |r| == 3
  {
    if EndsWith(t, Fence) then t[..|t| - 3]
    else if EndsWith(t, Fence + "\n") then t[..|t| - 4] + "\n"
    else t
  }

  // ---------------------------------------------------------------------------
  // ORDER BY heads with nothing after them
  // ---------------------------------------------------------------------------

  /** Where the clause head `ORDER\s+BY\s*` that starts `s` (in any letter
      case) ends, with the trailing white space taken greedily. */
  function OrderByHead(s: string): (j: Option<nat>)
    ensures j.Some? ==> 8 <= j.value <= |s| && WordAt(s, 0, "ORDER")
    ensures j.Some? ==> j.value == |s| || !IsSpace(s[j.value])
    ensures !WordAt(s, 0, "ORDER") ==> j.None?
  {
    if !WordAt(s, 0, "ORDER") then None
    else
      var w := SpaceRun(s[5..]);
      if w == 0 || !WordAt(s, 5 + w, "BY") then None
      else Some(7 + w + SpaceRun(s[7 + w..]))
  }

  /** The clause head holds letters and white space only: no `;`. */
  lemma OrderByHeadHasNoSemicolon(s: string)
    requires OrderByHead(s).Some?
    ensures forall k :: 0 <= k < OrderByHead(s).value ==> s[k] != ';'
  {
    var w := SpaceRun(s[5..]);
    var j := OrderByHead(s).value;
    assert j == 7 + w + SpaceRun(s[7 + w..]);
    UpperWordHasNoSemicolon(s, 0, "ORDER");
    UpperWordHasNoSemicolon(s, 5 + w, "BY");
    SpacesHaveNoSemicolon(s, 5);
    SpacesHaveNoSemicolon(s, 7 + w);
  }

  /** A keyword written in capitals holds no `;`. */
  lemma UpperWordHasNoSemicolon(s: string, j: nat, w: string)
    requires w == "ORDER" || w == "BY"
    requires WordAt(s, j, w)
    ensures forall k :: j <= k < j + |w| ==> s[k] != ';'
  {
    WordHasNoSemicolon(s, j, w);
  }

  /** A run of white space holds no `;`. */
  lemma SpacesHaveNoSemicolon(s: string, a: nat)
    requires a <= |s|
    ensures forall k :: a <= k < a + SpaceRun(s[a..]) ==> s[k] != ';'
  {
    SpaceRunIsSpace(s[a..]);
    forall k | a <= k < a + SpaceRun(s[a..]) ensures s[k] != ';' {
      assert s[k] == s[a..][k - a];
    }
  }

  /** `ORDER\s+BY\s*;` matches at the front of `s`. */
  predicate EmptyOrderByAtFront(s: string) {
    var j := OrderByHead(s);
    j.Some? && j.value < |s| && s[j.value] == ';'
  }

  /** No match of `ORDER\s+BY\s*;` anywhere in `s`. */
  predicate NoEmptyOrderBy(s: string) {
    forall i :: 0 <= i < |s| ==> !EmptyOrderByAtFront(s[i..])
  }

  /** `re.sub(r'ORDER\s+BY\s*;', ';', t, flags=re.IGNORECASE)`, left to right. */
  function DropEmptyOrderBy(s: string): (r: string)
    ensures |r| <= |s|
    decreases |s|
  {
    if s == [] then []
    else if EmptyOrderByAtFront(s) then ";" + DropEmptyOrderBy(s[OrderByHead(s).value + 1..])
    else [s[0]] + DropEmptyOrderBy(s[1..])
  }

  /** `ORDER\s+BY\s*(LIMIT|$)` matches at the front of `s`. */
  predicate DanglingOrderByAtFront(s: string) {
    var j := OrderByHead(s);
    j.Some? && (j.value == |s| || WordAt(s, j.value, "LIMIT"))
  }

  /** No match of `ORDER\s+BY\s*(LIMIT|$)` anywhere in `s`. */
  predicate NoDanglingOrderBy(s: string) {
    forall i :: 0 <= i < |s| ==> !DanglingOrderByAtFront(s[i..])
  }

  /** `re.sub(r'ORDER\s+BY\s*(LIMIT|$)', r'\1', t, flags=re.IGNORECASE)`: the
      head goes and a following `LIMIT`, in its own letter case, stays. The
      greedy white space leaves no other place for `$` to match. */
  function DropDanglingOrderBy(s: string): (r: string)
    ensures |r| <= |s|
    decreases |s|
  {
    if s == [] then []
    else if DanglingOrderByAtFront(s) then
      var j := OrderByHead(s).value;
      if j == |s| then [] else s[j..j + 5] + DropDanglingOrderBy(s[j + 5..])
    else [s[0]] + DropDanglingOrderBy(s[1..])
  }

  /** Text with no empty `ORDER BY` passes through unchanged. */
  lemma {:induction false} DropEmptyOrderByKeeps(s: string)
    requires NoEmptyOrderBy(s)
    ensures DropEmptyOrderBy(s) == s
    decreases |s|
  {
    if s != [] {
      assert s[0..] == s;
      assert NoEmptyOrderBy(s[1..]) by {
        forall i | 0 <= i < |s[1..]| ensures !EmptyOrderByAtFront(s[1..][i..]) {
          assert s[1..][i..] == s[i + 1..];
        }
      }
      DropEmptyOrderByKeeps(s[1..]);
    }
  }

  /** Only clause heads go: every semicolon stays. */
  lemma {:induction false} DropEmptyOrderByKeepsSemicolons(s: string)
    ensures CountChar(DropEmptyOrderBy(s), ';') == CountChar(s, ';')
    decreases |s|
  {
    if s != [] {
      if EmptyOrderByAtFront(s) {
        var j := OrderByHead(s).value;
        DropEmptyOrderByKeepsSemicolons(s[j + 1..]);
        OrderByHeadHasNoSemicolon(s);
        CountCharSkip(s, j, ';');
        assert s[j..][1..] == s[j + 1..];
      } else {
        DropEmptyOrderByKeepsSemicolons(s[1..]);
      }
    }
  }

  /** Text with no dangling `ORDER BY` passes through unchanged. */
  lemma {:induction false} DropDanglingOrderByKeeps(s: string)
    requires NoDanglingOrderBy(s)
    ensures DropDanglingOrderBy(s) == s
    decreases |s|
  {
    if s != [] {
      assert s[0..] == s;
      assert NoDanglingOrderBy(s[1..]) by {
        forall i | 0 <= i < |s[1..]| ensures !DanglingOrderByAtFront(s[1..][i..]) {
          assert s[1..][i..] == s[i + 1..];
        }
      }
      DropDanglingOrderByKeeps(s[1..]);
    }
  }

  /** A word holds no semicolon. */
  lemma WordHasNoSemicolon(s: string, j: nat, w: string)
    requires WordAt(s, j, w) && forall k :: 0 <= k < |w| ==> IsUpperAscii(w[k])
    ensures forall k :: j <= k < j + |w| ==> s[k] != ';'
  {
    WordAtChars(s, j, w);
    forall k | j <= k < j + |w| ensures s[k] != ';' {
      assert UpperChar(s[j + (k - j)]) == w[k - j];
    }
  }

  /** The step of `DropDanglingOrderBy` that keeps a `LIMIT`. */
  lemma DanglingBeforeLimit(s: string)
    requires s != [] && DanglingOrderByAtFront(s) && OrderByHead(s).value < |s|
    ensures var j := OrderByHead(s).value;
      j + 5 <= |s| && DropDanglingOrderBy(s) == s[j..j + 5] + DropDanglingOrderBy(s[j + 5..])
  {
  }

  /** Keeping the `LIMIT` that follows a dropped head keeps the count. */
  lemma LimitKeepsSemicolons(s: string, j: nat, rest: string)
    requires WordAt(s, j, "LIMIT") && CountChar(rest, ';') == CountChar(s[j + 5..], ';')
    ensures CountChar(s[j..j + 5] + rest, ';') == CountChar(s[j..], ';')
  {
    WordHasNoSemicolon(s, j, "LIMIT");
    CountCharSkip(s[j..], 5, ';');
    assert s[j..][5..] == s[j + 5..];
    CountCharAppend(s[j..j + 5], rest, ';');
    CountCharSkip(s[j..j + 5], 5, ';');
  }

  /** Only clause heads go: every semicolon stays. */
  lemma {:induction false} DropDanglingOrderByKeepsSemicolons(s: string)
    ensures CountChar(DropDanglingOrderBy(s), ';') == CountChar(s, ';')
    decreases |s|
  {
    if s != [] {
      if DanglingOrderByAtFront(s) {
        var j := OrderByHead(s).value;
        if j < |s| {
          DanglingBeforeLimit(s);
          DropDanglingOrderByKeepsSemicolons(s[j + 5..]);
          DanglingLimitKeepsSemicolons(s, j, DropDanglingOrderBy(s[j + 5..]));
        } else {
          DanglingEndKeepsSemicolons(s);
        }
      } else {
        DropDanglingOrderByKeepsSemicolons(s[1..]);
        DanglingPlainKeepsSemicolons(s);
      }
    }
  }

  /** Dropping a dangling head that ends the text keeps the count. */
  lemma DanglingEndKeepsSemicolons(s: string)
    requires s != [] && DanglingOrderByAtFront(s) && OrderByHead(s).value == |s|
    ensures CountChar(DropDanglingOrderBy(s), ';') == CountChar(s, ';')
  {
    var j := OrderByHead(s).value;
    assert DropDanglingOrderBy(s) == [];
    OrderByHeadHasNoSemicolon(s);
    CountCharSkip(s, j, ';');
    assert s[j..] == [];
  }

  /** Dropping a dangling head before a `LIMIT` keeps the count, given that
      the rest after the `LIMIT` keeps it. */
  lemma DanglingLimitKeepsSemicolons(s: string, j: nat, rest: string)
    requires s != [] && DanglingOrderByAtFront(s) && OrderByHead(s) == Some(j) && j < |s|
    requires j + 5 <= |s| && DropDanglingOrderBy(s) == s[j..j + 5] + rest
    requires CountChar(rest, ';') == CountChar(s[j + 5..], ';')
    ensures CountChar(DropDanglingOrderBy(s), ';') == CountChar(s, ';')
  {
    OrderByHeadHasNoSemicolon(s);
    CountCharSkip(s, j, ';');
    LimitKeepsSemicolons(s, j, rest);
  }

  /** Keeping a character that starts no dangling head keeps the count,
      given that the rest keeps it. */
  lemma DanglingPlainKeepsSemicolons(s: string)
    requires s != [] && !DanglingOrderByAtFront(s)
    requires CountChar(DropDanglingOrderBy(s[1..]), ';') == CountChar(s[1..], ';')
    ensures CountChar(DropDanglingOrderBy(s), ';') == CountChar(s, ';')
  {
    DanglingPlainStep(s);
    CountCharCons(s[0], DropDanglingOrderBy(s[1..]), ';');
  }

  lemma DanglingPlainStep(s: string)
    requires s != [] && !DanglingOrderByAtFront(s)
    ensures DropDanglingOrderBy(s) == [s[0]] + DropDanglingOrderBy(s[1..])
  {
  }

  // ---------------------------------------------------------------------------
  // Placeholders
  // ---------------------------------------------------------------------------

  /** `[a-zA-Z0-9_]+\.[a-zA-Z0-9_]+` matches at the front of `t`. */
  predicate RefAtFront(t: string) {
    var n := WordRun(t);
    0 < n && n + 1 < |t| && t[n] == '.' && IsWordChar(t[n + 1])
  }

  /** A `$` that starts a placeholder `$alias.column`. */
  predicate PlaceholderAtFront(s: string) {
    s != [] && s[0] == '$' && RefAtFront(s[1..])
  }

  predicate NoPlaceholder(s: string) {
    forall i :: 0 <= i < |s| ==> !PlaceholderAtFront(s[i..])
  }

  /** `re.sub(r'\$([a-zA-Z0-9_]+\.[a-zA-Z0-9_]+)', r'\1', t)`: the `$` of each
      placeholder goes, the reference stays. */
  function DropPlaceholderSigns(s: string): (r: string)
    ensures |r| <= |s|
    decreases |s|
  {
    if s == [] then []
    else if PlaceholderAtFront(s) then DropPlaceholderSigns(s[1..])
    else [s[0]] + DropPlaceholderSigns(s[1..])
  }

  /** Text with no placeholder passes through unchanged. */
  lemma {:induction false} DropPlaceholderSignsKeeps(s: string)
    requires NoPlaceholder(s)
    ensures DropPlaceholderSigns(s) == s
    decreases |s|
  {
    if s != [] {
      assert s[0..] == s;
      assert NoPlaceholder(s[1..]) by {
        forall i | 0 <= i < |s[1..]| ensures !PlaceholderAtFront(s[1..][i..]) {
          assert s[1..][i..] == s[i + 1..];
        }
      }
      DropPlaceholderSignsKeeps(s[1..]);
    }
  }

  /** Only `$` signs go: apart from them the text is unchanged. */
  lemma {:induction false} DropPlaceholderSignsOnlyDollars(s: string)
    ensures Without(DropPlaceholderSigns(s), '$') == Without(s, '$')
    decreases |s|
  {
    if s != [] {
      DropPlaceholderSignsOnlyDollars(s[1..]);
      if !PlaceholderAtFront(s) {
        var r := [s[0]] + DropPlaceholderSigns(s[1..]);
        assert r[1..] == DropPlaceholderSigns(s[1..]);
      }
    }
  }

  // ---------------------------------------------------------------------------
  // Semicolons
  // ---------------------------------------------------------------------------

  predicate NoDoubleSemicolon(s: string) {
    forall k :: 0 <= k < |s| - 1 ==> !(s[k] == ';' && s[k + 1] == ';')
  }

  /** `re.sub(r';{2,}', ';', t)`: every run of semicolons becomes one. */
  function CollapseSemicolons(s: string): (r: string)
    ensures NoDoubleSemicolon(r)
    ensures s != [] ==> r != [] && r[0] == s[0] && r[|r| - 1] == s[|s| - 1]
    decreases |s|
  {
    if s == [] then []
    else if |s| >= 2 && s[0] == ';' && s[1] == ';' then CollapseSemicolons(s[1..])
    else
      var rest := CollapseSemicolons(s[1..]);
      [s[0]] + rest
  }

  /** Text with no doubled semicolon passes through unchanged, so collapsing
      twice is collapsing once. */
  lemma {:induction false} CollapseSemicolonsKeeps(s: string)
    requires NoDoubleSemicolon(s)
    ensures CollapseSemicolons(s) == s
    decreases |s|
  {
    if s != [] {
      assert NoDoubleSemicolon(s[1..]) by {
        forall k | 0 <= k < |s[1..]| - 1 ensures !(s[1..][k] == ';' && s[1..][k + 1] == ';') {
          assert s[1..][k] == s[k + 1] && s[1..][k + 1] == s[k + 2];
        }
      }
      CollapseSemicolonsKeeps(s[1..]);
      assert s == [s[0]] + s[1..];
    }
  }

  lemma CollapseSemicolonsIdempotent(s: string)
    ensures CollapseSemicolons(CollapseSemicolons(s)) == CollapseSemicolons(s)
  {
    CollapseSemicolonsKeeps(CollapseSemicolons(s));
  }

  /** Only semicolons go: apart from them the text is unchanged. */
  lemma {:induction false} CollapseSemicolonsOnlySemicolons(s: string)
    ensures Without(CollapseSemicolons(s), ';') == Without(s, ';')
    decreases |s|
  {
    if s != [] {
      CollapseSemicolonsOnlySemicolons(s[1..]);
      if !(|s| >= 2 && s[0] == ';' && s[1] == ';') {
        var r := [s[0]] + CollapseSemicolons(s[1..]);
        assert r[1..] == CollapseSemicolons(s[1..]);
      }
    }
  }

  // ---------------------------------------------------------------------------
  // postprocess_sql
  // ---------------------------------------------------------------------------

  /** `if not txt.endswith(';'): txt = txt + ';'`. */
  function EnsureSemicolon(t: string): (r: string)
    ensures r != [] && r[|r| - 1] == ';'
    ensures r == t || r == t + ";"
  {
    if EndsWith(t, ";") then t else t + ";"
  }

  /** `postprocess_sql`. The empty text comes back unchanged; any other text
      comes back ending in `;` with no two semicolons in a row. */
  function PostProcessSql(sql: string): (r: string)
    ensures sql == "" ==> r == ""
    ensures sql != "" ==> r != [] && r[|r| - 1] == ';' && NoDoubleSemicolon(r)
  {
    if sql == "" then sql
    else
      var unfenced := StripWith(DropClosingFence(DropOpeningFence(Strip(sql))), Some(FenceStripChars));
      var cleaned := DropPlaceholderSigns(DropDanglingOrderBy(DropEmptyOrderBy(unfenced)));
      CollapseSemicolons(EnsureSemicolon(cleaned))
  }

  /** The fence and strip steps leave text alone that starts and ends with
      neither white space nor a backtick. */
  lemma UnfenceKeepsTrimmed(s: string)
    requires s != [] && !IsSpace(s[0]) && s[0] != '`' && !IsSpace(s[|s| - 1]) && s[|s| - 1] != '`'
    ensures StripWith(DropClosingFence(DropOpeningFence(Strip(s))), Some(FenceStripChars)) == s
  {
    StripFixesTrimmed(s);
    OpeningFenceKeeps(s);
    ClosingFenceKeeps(s);
    NotFenceStrippable(s[0]);
    NotFenceStrippable(s[|s| - 1]);
    StripWithFixesTrimmed(s, Some(FenceStripChars));
  }

  /** Text that does not start with a backtick has no opening fence. */
  lemma OpeningFenceKeeps(s: string)
    requires s != [] && s[0] != '`'
    ensures DropOpeningFence(s) == s
  {
    OccursAtFront(s, 0, Fence);
  }

  /** Text that ends with neither a backtick nor a line break has no closing
      fence. */
  lemma ClosingFenceKeeps(s: string)
    requires s != [] && s[|s| - 1] != '`' && s[|s| - 1] != '\n'
    ensures DropClosingFence(s) == s
  {
    SuffixLastChar(s, Fence);
    SuffixLastChar(s, Fence + "\n");
  }

  /** The characters stripped after the closing fence are a backtick and
      white space. */
  lemma NotFenceStrippable(c: char)
    requires !IsSpace(c) && c != '`'
    ensures !Strippable(c, Some(FenceStripChars)) && c != '\n'
  {
  }

  /** The fence and strip steps keep the first character of text that starts
      with neither white space nor a backtick. */
  lemma UnfenceKeepsFront(s: string)
    requires s != [] && !IsSpace(s[0]) && s[0] != '`'
    ensures var u := StripWith(DropClosingFence(DropOpeningFence(Strip(s))), Some(FenceStripChars));
      u != [] && u[0] == s[0]
  {
    var a := Strip(s);
    StripKeepsNonSpaceFront(s);
    assert a[0] == s[0];
    assert !OccursAt(a, 0, Fence) by {
      assert a[0] != Fence[0];
    }
    var b := DropOpeningFence(a);
    assert b == a;
    var c := DropClosingFence(b);
    assert c != [] && c[0] == s[0];
    NotFenceStrippable(s[0]);
    StripWithKeepsFront(c, Some(FenceStripChars));
  }

  /** Every later step keeps the first character of text that does not start
      an `ORDER` head or a placeholder. */
  lemma CleanupKeepsFront(u: string)
    requires u != [] && u[0] != '$' && UpperChar(u[0]) != 'O'
    ensures var r := CollapseSemicolons(EnsureSemicolon(DropPlaceholderSigns(DropDanglingOrderBy(DropEmptyOrderBy(u)))));
      r != [] && r[0] == u[0]
  {
    assert !WordAt(u, 0, "ORDER") by {
      assert UpperChar(u[0]) != "ORDER"[0];
    }
    var e := DropEmptyOrderBy(u);
    assert e == [u[0]] + DropEmptyOrderBy(u[1..]);
    assert !WordAt(e, 0, "ORDER") by {
      assert UpperChar(e[0]) != "ORDER"[0];
    }
    var d := DropDanglingOrderBy(e);
    assert d == [e[0]] + DropDanglingOrderBy(e[1..]);
    var p := DropPlaceholderSigns(d);
    assert p == [d[0]] + DropPlaceholderSigns(d[1..]);
    var f := EnsureSemicolon(p);
    assert f[0] == u[0];
  }

  /** `postprocess_sql` keeps the first character of text that starts with
      neither white space, a backtick, `$` nor the `o` of an `ORDER` head. */
  lemma PostProcessKeepsFront(s: string)
    requires s != [] && !IsSpace(s[0]) && s[0] != '`' && s[0] != '$' && UpperChar(s[0]) != 'O'
    ensures PostProcessSql(s) != [] && PostProcessSql(s)[0] == s[0]
  {
    var u := StripWith(DropClosingFence(DropOpeningFence(Strip(s))), Some(FenceStripChars));
    UnfenceKeepsFront(s);
    CleanupKeepsFront(u);
  }

  /** An `ORDER BY` head holds a `b`. */
  lemma OrderByHeadNeedsB(t: string)
    ensures OrderByHead(t).Some? ==> 'B' in t || 'b' in t
  {
    if OrderByHead(t).Some? {
      var w := SpaceRun(t[5..]);
      WordAtChars(t, 5 + w, "BY");
      assert t[5 + w] in t;
    }
  }

  /** Without a `b` there is no `ORDER BY` head to remove. */
  lemma NoLetterBNoOrderBy(s: string)
    requires 'B' !in s && 'b' !in s
    ensures NoEmptyOrderBy(s) && NoDanglingOrderBy(s)
  {
    forall i | 0 <= i < |s| ensures OrderByHead(s[i..]).None? {
      OrderByHeadNeedsB(s[i..]);
      assert forall c :: c in s[i..] ==> c in s;
    }
  }

  /** Without `$` there is no placeholder. */
  lemma NoDollarNoPlaceholder(s: string)
    requires '$' !in s
    ensures NoPlaceholder(s)
  {
    forall i | 0 <= i < |s| ensures !PlaceholderAtFront(s[i..]) {
      assert s[i..][0] == s[i];
    }
  }

  /** One `;` closing text that holds none makes no doubled `;`. */
  lemma OneSemicolonAtEnd(q: string)
    requires ';' !in q
    ensures NoDoubleSemicolon(q + ";")
  {
    forall k | 0 <= k < |q| ensures (q + ";")[k] != ';' {
      assert (q + ";")[k] == q[k];
    }
  }

  /** Text with nothing for the clean-up to remove (trimmed, no `b`, no `$`,
      no `;`) comes back with one `;` added. */
  lemma PostProcessClosesPlainText(q: string)
    requires q != [] && !IsSpace(q[0]) && q[0] != '`' && !IsSpace(q[|q| - 1]) && q[|q| - 1] != '`'
    requires 'B' !in q && 'b' !in q && '$' !in q && ';' !in q
    ensures PostProcessSql(q) == q + ";"
  {
    UnfenceKeepsTrimmed(q);
    NoLetterBNoOrderBy(q);
    NoDollarNoPlaceholder(q);
    DropEmptyOrderByKeeps(q);
    DropDanglingOrderByKeeps(q);
    DropPlaceholderSignsKeeps(q);
    assert q[|q| - 1] in q;
    var t := EnsureSemicolon(q);
    assert t == q + ";";
    OneSemicolonAtEnd(q);
    CollapseSemicolonsKeeps(t);
  }

  /** SQL that is already clean comes back unchanged: nothing to strip at
      either end, no opening backtick, no empty or dangling `ORDER BY`, no
      placeholder, a final `;` and no doubled one. */
  lemma PostProcessKeepsCleanSql(s: string)
    requires s != [] && s[|s| - 1] == ';' && !IsSpace(s[0]) && s[0] != '`'
    requires NoEmptyOrderBy(s) && NoDanglingOrderBy(s) && NoPlaceholder(s) && NoDoubleSemicolon(s)
    ensures PostProcessSql(s) == s
  {
    UnfenceKeepsTrimmed(s);
    DropEmptyOrderByKeeps(s);
    DropDanglingOrderByKeeps(s);
    DropPlaceholderSignsKeeps(s);
    EndsWithLast(s, ';');
    assert EnsureSemicolon(s) == s;
    CollapseSemicolonsKeeps(s);
  }
}

/** Worked cases of `postprocess_sql`. */
module SqlPostProcessExamples {
  import opened Common
  import opened Text
  import opened SqlPostProcess

  /** Without the letter `o` there is no `ORDER BY` head to remove. */
  lemma NoLetterONoOrderBy(s: string)
    requires 'O' !in s && 'o' !in s
    ensures NoEmptyOrderBy(s) && NoDanglingOrderBy(s)
  {
    forall i | 0 <= i < |s| ensures !WordAt(s[i..], 0, "ORDER") {
      assert s[i] in s && s[i..][0] == s[i];
      assert UpperChar(s[i]) != "ORDER"[0];
    }
  }

  /** A text that does not start with `o` does not start with `ORDER`. */
  lemma NotOrderAtFront(s: string)
    requires s != [] && s[0] != 'O' && s[0] != 'o'
    ensures !WordAt(s, 0, "ORDER")
  {
    assert UpperChar(s[0]) != "ORDER"[0];
  }

  /** A step of `DropEmptyOrderBy` that keeps the first character. */
  lemma DropEmptyOrderByKeepsFront(s: string)
    requires s != [] && !WordAt(s, 0, "ORDER")
    ensures DropEmptyOrderBy(s) == [s[0]] + DropEmptyOrderBy(s[1..])
  {
  }

  lemma {:induction false} DropEmptyOrderByPlainPrefix(a: string, b: string)
    requires 'O' !in a && 'o' !in a
    ensures DropEmptyOrderBy(a + b) == a + DropEmptyOrderBy(b)
  {
    if a != [] {
      var s := a + b;
      assert a[0] in a && s[0] == a[0];
      NotOrderAtFront(s);
      DropEmptyOrderByKeepsFront(s);
      assert s[1..] == a[1..] + b;
      DropEmptyOrderByPlainPrefix(a[1..], b);
      var rest := DropEmptyOrderBy(b);
      assert DropEmptyOrderBy(s) == [a[0]] + (a[1..] + rest);
      ConsAppend(a, rest);
    } else {
      assert a + b == b;
    }
  }

  lemma {:induction false} CollapsePlainPrefix(a: string, b: string)
    requires ';' !in a
    ensures CollapseSemicolons(a + b) == a + CollapseSemicolons(b)
  {
    if a != [] {
      assert a[0] in a && (a + b)[0] == a[0];
      assert (a + b)[1..] == a[1..] + b;
      CollapsePlainPrefix(a[1..], b);
      ConsAppend(a, CollapseSemicolons(b));
    } else {
      assert a + b == b;
    }
  }

  /** Trimmed SQL ending in `;` with no `o` and no `$` is only collapsed. */
  lemma PostProcessOfPlainSql(s: string)
    requires s != [] && s[|s| - 1] == ';' && !IsSpace(s[0]) && s[0] != '`'
    requires 'O' !in s && 'o' !in s && '$' !in s
    ensures PostProcessSql(s) == CollapseSemicolons(s)
  {
    UnfenceKeepsTrimmed(s);
    NoLetterONoOrderBy(s);
    NoDollarNoPlaceholder(s);
    DropEmptyOrderByKeeps(s);
    DropDanglingOrderByKeeps(s);
    DropPlaceholderSignsKeeps(s);
    EndsWithLast(s, ';');
    assert EnsureSemicolon(s) == s;
  }

  /** `n` semicolons. */
  function Semicolons(n: nat): (r: string)
    ensures |r| == n && forall k :: 0 <= k < n ==> r[k] == ';'
  {
    seq(n, _ => ';')
  }

  lemma {:induction false} CollapseSemicolonRun(n: nat)
    requires n >= 1
    ensures CollapseSemicolons(Semicolons(n)) == ";"
  {
    if n > 1 {
      CollapseSemicolonRun(n - 1);
      assert Semicolons(n)[1..] == Semicolons(n - 1);
    }
  }

  /** A run of semicolons at the end collapses to one: `SELECT 1;;;`
      becomes `SELECT 1;`. */
  lemma TrailingSemicolonsCollapse(q: string, n: nat)
    requires q != [] && !IsSpace(q[0]) && q[0] != '`' && n >= 1
    requires 'O' !in q && 'o' !in q && '$' !in q && ';' !in q
    ensures PostProcessSql(q + Semicolons(n)) == q + ";"
  {
    var s := q + Semicolons(n);
    assert s[0] == q[0] && s[|s| - 1] == ';';
    PostProcessOfPlainSql(s);
    CollapsePlainPrefix(q, Semicolons(n));
    CollapseSemicolonRun(n);
  }

  /** The clause `ORDER BY ;` alone becomes `;`. */
  lemma EmptyOrderByClause()
    ensures DropEmptyOrderBy("ORDER BY ;") == ";"
  {
    ClauseHead();
    assert "ORDER BY ;"[9] == ';';
    DropWholeEmptyClause("ORDER BY ;");
  }

  lemma ClauseHead()
    ensures OrderByHead("ORDER BY ;") == Some(9)
  {
    assert SpaceRun("ORDER BY ;"[5..]) == 1;
    assert SpaceRun("ORDER BY ;"[8..]) == 1;
  }

  /** A text that is one empty `ORDER BY` clause becomes its `;`. */
  lemma DropWholeEmptyClause(s: string)
    requires OrderByHead(s).Some? && OrderByHead(s).value == |s| - 1 && s[|s| - 1] == ';'
    ensures DropEmptyOrderBy(s) == ";"
  {
    assert EmptyOrderByAtFront(s);
    assert s[|s|..] == [];
  }

  /** Text with no `o`, no `$` and no `;`, closed by one `;`, goes through
      the steps after the empty-`ORDER BY` one unchanged. */
  lemma PlainSqlTailKept(q: string)
    requires 'O' !in q && 'o' !in q && '$' !in q && ';' !in q
    ensures var t := q + ";";
      CollapseSemicolons(EnsureSemicolon(DropPlaceholderSigns(DropDanglingOrderBy(t)))) == t
  {
    var t := q + ";";
    assert forall k :: 0 <= k < |q| ==> t[k] == q[k];
    assert 'O' !in t && 'o' !in t && '$' !in t;
    NoLetterONoOrderBy(t);
    NoDollarNoPlaceholder(t);
    DropDanglingOrderByKeeps(t);
    DropPlaceholderSignsKeeps(t);
    EndsWithLast(t, ';');
    assert EnsureSemicolon(t) == t;
    OneSemicolonAtEnd(q);
    CollapseSemicolonsKeeps(t);
  }

  /** `ORDER BY` with nothing before the `;` goes and the `;` stays:
      `SELECT 1 ORDER BY ;` becomes `SELECT 1 ;`. */
  lemma EmptyOrderByDropped(q: string)
    requires q != [] && !IsSpace(q[0]) && q[0] != '`'
    requires 'O' !in q && 'o' !in q && '$' !in q && ';' !in q
    ensures PostProcessSql(q + "ORDER BY ;") == q + ";"
  {
    var s := q + "ORDER BY ;";
    var t := q + ";";
    assert s[0] == q[0] && s[|s| - 1] == ';';
    var u := StripWith(DropClosingFence(DropOpeningFence(Strip(s))), Some(FenceStripChars));
    UnfenceKeepsTrimmed(s);
    assert u == s;
    var e := DropEmptyOrderBy(u);
    DropEmptyOrderByPlainPrefix(q, "ORDER BY ;");
    EmptyOrderByClause();
    assert e == t;
    PlainSqlTailKept(q);
    var r := CollapseSemicolons(EnsureSemicolon(DropPlaceholderSigns(DropDanglingOrderBy(e))));
    assert r == t;
  }
}
