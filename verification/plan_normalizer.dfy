/** `normalize_plan`: repairs the table names and the `alias.column`
    references of a logical plan against the catalog before it is validated. */
module PlanNormalizer {
  import opened Common
  import opened Text
  import opened Schema
  import opened SchemaIndex
  import opened LogicalPlan

  // ---------------------------------------------------------------------------
  // Table names
  // ---------------------------------------------------------------------------

  /** `str(t).split('.')[-1]`: the longest suffix without a dot. */
  function LastComponent(s: string): (r: string)
    ensures EndsWith(s, r) && '.' !in r
    ensures r == s || s[|s| - |r| - 1] == '.'
  {
    if s == [] || s[|s| - 1] == '.' then ""
    else
      var p := s[..|s| - 1];
      var r := LastComponent(p);
      LastComponentStep(s, p, r);
      r + [s[|s| - 1]]
  }

  /** Extending the text by a character that is not a dot extends its last
      component by the same character. */
  lemma LastComponentStep(s: string, p: string, r: string)
    requires s != [] && s[|s| - 1] != '.' && p == s[..|s| - 1]
    requires EndsWith(p, r) && '.' !in r
    requires r == p || p[|p| - |r| - 1] == '.'
    ensures EndsWith(s, r + [s[|s| - 1]]) && '.' !in r + [s[|s| - 1]]
    ensures r + [s[|s| - 1]] == s || s[|s| - |r| - 2] == '.'
  {
    var c := s[|s| - 1];
    assert s == p + [c];
    assert s[|s| - (|r| + 1)..] == p[|p| - |r|..] + [c];
    assert r != p ==> s[|s| - |r| - 2] == p[|p| - |r| - 1];
  }

  /** The test both table searches apply to a candidate name `t`: it ends with
      `token`, or its normal form ends with the normal form of `token`. */
  predicate EndsWithName(t: string, token: string) {
    EndsWith(t, token) || EndsWith(NormalizeColName(t), NormalizeColName(token))
  }

  /** The position of the first name in `names` that passes the test, if any. */
  function FirstEndingWith(names: seq<string>, token: string): (r: Option<nat>)
    ensures r.Some? ==> r.value < |names| && EndsWithName(names[r.value], token)
    ensures r.Some? ==> forall j :: 0 <= j < r.value ==> !EndsWithName(names[j], token)
    ensures r.None? ==> forall j :: 0 <= j < |names| ==> !EndsWithName(names[j], token)
  {
    if names == [] then None
    else if EndsWithName(names[0], token) then Some(0)
    else
      var r := FirstEndingWith(names[1..], token);
      assert forall j :: 1 <= j < |names| ==> names[j] == names[1..][j - 1];
      if r.Some? then Some(r.value + 1) else None
  }

  /** Table names in the order in which the schema index first meets them. */
  function CatalogNames(c: Catalog): (names: seq<string>)
    ensures |names| == |c|
    ensures forall k :: 0 <= k < |c| ==> names[k] == c[k].name
  {
    seq(|c|, k requires 0 <= k < |c| => c[k].name)
  }

  /** Python truthiness of an optional string: present and non-empty. */
  predicate Truthy(o: Option<string>) {
    o.Some? && o.value != ""
  }

  /** The table a name stands for: the name itself when `known` holds it;
      otherwise the first catalog table whose name ends with the name's last
      dotted component (directly or after normalisation); otherwise the name
      unchanged. Aliases are checked against the caller's table set and
      `from_tables` entries against the schema index. */
  function CanonicalTable(name: string, known: set<string>, c: Catalog): (r: string)
    ensures name in known ==> r == name
    ensures r == name || (r in TableNames(c) && r != "" && EndsWithName(r, LastComponent(name)))
    ensures name !in known && r != name ==>
              forall k :: 0 <= k < Index(c, r) ==> !EndsWithName(c[k].name, LastComponent(name))
    ensures (name !in known && "" !in TableNames(c) && exists k :: 0 <= k < |c| && EndsWithName(c[k].name, LastComponent(name)))
              ==> r in TableNames(c)
  {
    if name in known then name
    else
      var tok := LastComponent(name);
      var found := FirstEndingWith(CatalogNames(c), tok);
      if found.Some? then
        var n := c[found.value].name;
        assert c[found.value] in c;
        FirstIndexBound(c, found.value);
        if n != "" then n else name
      else
        name
  }

  /** The position of the first table called `n` (|c| when there is none). */
  function Index(c: Catalog, n: string): (i: nat)
    ensures i <= |c|
    ensures i < |c| ==> c[i].name == n
    ensures forall j :: 0 <= j < i ==> c[j].name != n
  {
    if c == [] then 0
    else if c[0].name == n then 0
    else 1 + Index(c[1..], n)
  }

  lemma FirstIndexBound(c: Catalog, i: int)
    requires 0 <= i < |c|
    ensures Index(c, c[i].name) <= i
  {
  }

  /** Canonicalisation is a projection when the known tables are exactly the
      catalog's: a name it produced is left alone by a second pass. */
  lemma CanonicalTableIdempotent(name: string, known: set<string>, c: Catalog)
    requires known == TableNames(c)
    ensures CanonicalTable(CanonicalTable(name, known, c), known, c) == CanonicalTable(name, known, c)
  {
  }

  /** The alias mapping after normalisation: same aliases, canonical tables. */
  function NormalizeAliases(m: map<string, string>, validTables: set<string>, c: Catalog): (r: map<string, string>)
    ensures r.Keys == m.Keys
    ensures forall a :: a in m && m[a] in validTables ==> r[a] == m[a]
    ensures forall a :: a in m ==> r[a] == m[a] || r[a] in TableNames(c)
  {
    map a | a in m :: CanonicalTable(m[a], validTables, c)
  }

  /** `from_tables` after normalisation, entry by entry. */
  function NormalizeFromTables(ts: seq<string>, c: Catalog): (r: seq<string>)
    ensures |r| == |ts|
    ensures forall k :: 0 <= k < |ts| ==> r[k] == CanonicalTable(ts[k], TableNames(c), c)
    ensures forall k :: 0 <= k < |ts| ==> r[k] == ts[k] || r[k] in TableNames(c)
  {
    seq(|ts|, k requires 0 <= k < |ts| => CanonicalTable(ts[k], TableNames(c), c))
  }

  // ---------------------------------------------------------------------------
  // alias.column references
  // ---------------------------------------------------------------------------

  /** A piece of an expression: a character copied as is, or a reference
      `table.column` matched by `([a-zA-Z0-9_]+)\.([a-zA-Z0-9_]+)`. */
  datatype Piece = Lit(c: char) | Ref(qualifier: string, column: string)

  predicate WellFormedRef(p: Piece) {
    p.Ref? ==> p.qualifier != [] && AllWordChars(p.qualifier) && p.column != [] && AllWordChars(p.column)
  }

  function RenderPiece(p: Piece): string {
    match p
    case Lit(c) => [c]
    case Ref(q, col) => q + "." + col
  }

  function Render(ps: seq<Piece>): string {
    if ps == [] then "" else RenderPiece(ps[0]) + Render(ps[1..])
  }

  /** The leftmost-first, non-overlapping matches `re.sub` visits. At each
      position the pattern matches exactly when the maximal word run there is
      followed by a dot and a word character; the column is the maximal word
      run after the dot. Elsewhere one character is copied. */
  function Scan(s: string): (ps: seq<Piece>)
    ensures Render(ps) == s
    ensures forall k :: 0 <= k < |ps| ==> WellFormedRef(ps[k])
    decreases |s|
  {
    if s == [] then []
    else
      var n := WordRun(s);
      if 0 < n && n + 1 < |s| && s[n] == '.' && IsWordChar(s[n + 1]) then
        var m := n + 1 + WordRun(s[n + 1..]);
        var p := Ref(s[..n], s[n + 1..m]);
        RefPieceFacts(s, n, m);
        var rest := Scan(s[m..]);
        RenderCons(p, rest);
        [p] + rest
      else
        var rest := Scan(s[1..]);
        LitStep(s, rest);
        [Lit(s[0])] + rest
  }

  /** A copied character in front of the pieces of the rest renders the
      whole text. */
  lemma LitStep(s: string, rest: seq<Piece>)
    requires s != [] && Render(rest) == s[1..]
    requires forall k :: 0 <= k < |rest| ==> WellFormedRef(rest[k])
    ensures Render([Lit(s[0])] + rest) == s
    ensures forall k :: 0 <= k < |rest| + 1 ==> WellFormedRef(([Lit(s[0])] + rest)[k])
  {
    var ps := [Lit(s[0])] + rest;
    RenderCons(Lit(s[0]), rest);
    HeadTail(s);
    forall k | 0 <= k < |rest| + 1 ensures WellFormedRef(ps[k]) {
      if k > 0 {
        assert ps[k] == rest[k - 1];
      }
    }
  }

  lemma RenderCons(p: Piece, ps: seq<Piece>)
    ensures Render([p] + ps) == RenderPiece(p) + Render(ps)
  {
    assert ([p] + ps)[1..] == ps;
  }

  /** The reference matched at the front of `s` and the text it covers. */
  lemma RefPieceFacts(s: string, n: nat, m: nat)
    requires 0 < n && n + 1 < |s| && s[n] == '.' && IsWordChar(s[n + 1])
    requires n == WordRun(s) && m == n + 1 + WordRun(s[n + 1..])
    ensures n + 1 < m <= |s|
    ensures WellFormedRef(Ref(s[..n], s[n + 1..m]))
    ensures RenderPiece(Ref(s[..n], s[n + 1..m])) + s[m..] == s
  {
    var t := s[n + 1..];
    var w := WordRun(t);
    assert 0 < w by {
      assert t[0] == s[n + 1];
    }
    SliceOfSuffix(s, n + 1, w);
    WordRunPrefix(t);
    WordRunPrefix(s);
    SplitThree(s, n, m);
  }

  lemma SplitThree(s: string, n: nat, m: nat)
    requires n < m <= |s| && s[n] == '.'
    ensures s[..n] + "." + s[n + 1..m] + s[m..] == s
  {
    assert s[n..] == [s[n]] + s[n + 1..];
    assert s[n + 1..] == s[n + 1..m] + s[m..];
    assert s == s[..n] + s[n..];
  }

  /** A text without a dot holds no reference. */
  lemma {:induction false} NoDotNoRef(s: string)
    requires '.' !in s
    ensures forall k :: 0 <= k < |Scan(s)| ==> Scan(s)[k].Lit?
    decreases |s|
  {
    if s != [] {
      var n := WordRun(s);
      assert !(n + 1 < |s| && s[n] == '.');
      assert '.' !in s[1..];
      NoDotNoRef(s[1..]);
    }
  }

  /** A character that ends every match before it: neither a word character
      nor a dot. */
  predicate Separates(c: char) { !IsWordChar(c) && c != '.' }

  /** A match starts at the front of `s`: the maximal word run there is
      followed by a dot and a word character. */
  predicate RefAtFront(s: string) {
    var n := WordRun(s);
    0 < n && n + 1 < |s| && s[n] == '.' && IsWordChar(s[n + 1])
  }

  /** One step of the scan where a match starts: the reference spans the
      word run, the dot and the word run after it. */
  lemma ScanRefStep(s: string, n: nat, m: nat)
    requires RefAtFront(s) && n == WordRun(s) && m == n + 1 + WordRun(s[n + 1..])
    ensures n + 1 < m <= |s|
    ensures Scan(s) == [Ref(s[..n], s[n + 1..m])] + Scan(s[m..])
  {
    RefPieceFacts(s, n, m);
  }

  /** One step of the scan where no match starts. */
  lemma ScanLitStep(s: string)
    requires s != [] && !RefAtFront(s)
    ensures Scan(s) == [Lit(s[0])] + Scan(s[1..])
  {
  }

  /** The first piece of the scan of `s` and the number of characters it
      covers. */
  function FrontPiece(s: string): (Piece, nat)
    requires s != []
  {
    var n := WordRun(s);
    if RefAtFront(s) then
      var m := n + 1 + WordRun(s[n + 1..]);
      (Ref(s[..n], s[n + 1..m]), m)
    else (Lit(s[0]), 1)
  }

  /** The scan is its first piece followed by the scan of what that piece
      leaves. */
  lemma ScanStep(s: string)
    requires s != []
    ensures 0 < FrontPiece(s).1 <= |s|
    ensures Scan(s) == [FrontPiece(s).0] + Scan(s[FrontPiece(s).1..])
  {
    if RefAtFront(s) {
      var n := WordRun(s);
      ScanRefStep(s, n, n + 1 + WordRun(s[n + 1..]));
    } else {
      ScanLitStep(s);
    }
  }

  /** The word run at the front of `x` ends inside `x`, and so it is the
      same in front of `z`. */
  lemma FrontRunInside(x: string, z: string)
    requires x != [] && Separates(x[|x| - 1])
    ensures WordRun(x) < |x| && WordRun(x + z) == WordRun(x)
  {
    assert WordRun(x) < |x|;
    WordRunKept(x, z);
  }

  /** The first piece of a text ending with a separating character does not
      depend on what follows the text, and leaves a text that is empty or
      ends with the same character. */
  lemma FrontPieceAppend(x: string, z: string)
    requires x != [] && Separates(x[|x| - 1])
    ensures FrontPiece(x + z) == FrontPiece(x)
    ensures FrontPiece(x).1 <= |x|
  {
    var s := x + z;
    var n := WordRun(x);
    FrontRunInside(x, z);
    if RefAtFront(x) {
      var t := x[n + 1..];
      AppendSlices(x, z, n + 1, n + 1);
      FrontRunInside(t, z);
      var m := n + 1 + WordRun(t);
      assert RefAtFront(s);
      AppendSlices(x, z, 0, n);
      AppendSlices(x, z, n + 1, m);
    } else {
      assert !RefAtFront(s) by {
        if n + 1 >= |x| {
          assert s[n] == x[|x| - 1];
        }
      }
    }
  }

  /** A text that is empty or ends with a separating character scans the same
      on its own as in front of any other text: no match crosses its end. */
  lemma {:induction false} ScanAppend(x: string, z: string)
    requires x == [] || Separates(x[|x| - 1])
    ensures Scan(x + z) == Scan(x) + Scan(z)
    decreases |x|
  {
    if x == [] {
      assert x + z == z;
    } else {
      var p, len := FrontPiece(x).0, FrontPiece(x).1;
      FrontPieceAppend(x, z);
      ScanStep(x);
      ScanStep(x + z);
      AppendSlices(x, z, len, len);
      ScanAppend(x[len..], z);
      AppendAssoc([p], Scan(x[len..]), Scan(z));
    }
  }

  /** A reference `q.col` followed by a non-word character, or by nothing,
      is matched whole: the scan yields exactly that reference first. */
  lemma ScanRefFront(q: string, col: string, y: string)
    requires q != [] && AllWordChars(q) && col != [] && AllWordChars(col)
    requires y == [] || !IsWordChar(y[0])
    ensures Scan(q + "." + col + y) == [Ref(q, col)] + Scan(y)
  {
    var s := q + "." + col + y;
    var n := |q|;
    var rest := "." + col + y;
    RegroupReference(q, col, y);
    WordRunOfWord(q, rest);
    WordRunOfWord(col, y);
    var m := n + 1 + |col|;
    assert RefAtFront(s);
    ScanRefStep(s, n, m);
  }

  /** The parts of the text `q.col` followed by `y`. */
  lemma RegroupReference(q: string, col: string, y: string)
    requires col != []
    ensures var s := q + "." + col + y;
            && s == q + ("." + col + y)
            && |s| > |q| + 1 && s[|q|] == '.' && s[|q| + 1] == col[0]
            && s[..|q|] == q && s[|q| + 1..] == col + y
            && s[|q| + 1..|q| + 1 + |col|] == col && s[|q| + 1 + |col|..] == y
  {
  }

  /** Rewriting distributes over the concatenation of pieces. */
  lemma {:induction false} RewriteAppend(a: seq<Piece>, b: seq<Piece>, ctx: Context)
    ensures Rewrite(a + b, ctx) == Rewrite(a, ctx) + Rewrite(b, ctx)
  {
    if a == [] {
      assert a + b == b;
    } else {
      assert (a + b)[0] == a[0] && (a + b)[1..] == a[1..] + b;
      RewriteAppend(a[1..], b, ctx);
    }
  }

  /** A reference in front is rewritten by `ResolveRef`. */
  lemma RewriteRefCons(q: string, col: string, b: seq<Piece>, ctx: Context)
    ensures Rewrite([Ref(q, col)] + b, ctx) == ResolveRef(q, col, ctx) + Rewrite(b, ctx)
  {
    assert ([Ref(q, col)] + b)[1..] == b;
  }

  /** Every `q.col` that `re.sub` matches is replaced by its resolution: with
      a separating character (or nothing) in front and a non-word character
      (or nothing) behind, the reference is rewritten by `ResolveRef` and the
      text on either side is rewritten on its own. */
  lemma ScanRewritesReference(x: string, q: string, col: string, y: string, ctx: Context)
    requires x == [] || Separates(x[|x| - 1])
    requires q != [] && AllWordChars(q) && col != [] && AllWordChars(col)
    requires y == [] || !IsWordChar(y[0])
    ensures Rewrite(Scan(x + q + "." + col + y), ctx)
            == Rewrite(Scan(x), ctx) + ResolveRef(q, col, ctx) + Rewrite(Scan(y), ctx)
  {
    var tail := q + "." + col + y;
    assert x + q + "." + col + y == x + tail;
    var front, back := Scan(x), Scan(y);
    ScanAppend(x, tail);
    ScanRefFront(q, col, y);
    var mid := [Ref(q, col)] + back;
    assert Scan(x + tail) == front + mid;
    RewriteAppend(front, mid, ctx);
    RewriteRefCons(q, col, back, ctx);
    AppendAssoc(Rewrite(front, ctx), ResolveRef(q, col, ctx), Rewrite(back, ctx));
  }

  /** What a reference is resolved against: the normalised alias mapping, the
      `from_tables` of the plan as it came in, and the schema index. */
  datatype Context = Context(aliases: map<string, string>, fromTables: seq<string>, idx: Index)

  /** The alias target of a qualifier: what the alias mapping gives it, or
      the qualifier itself when unmapped or mapped to "". */
  function QualifierTarget(q: string, ctx: Context): string {
    if q in ctx.aliases && ctx.aliases[q] != "" then ctx.aliases[q] else q
  }

  /** The table a qualifier denotes: its alias target, if that is an indexed
      table; else the first `from_tables` entry ending with the qualifier;
      else the target. Only in the middle case is `from_tables` read. */
  function QualifierTable(q: string, ctx: Context): (t: string)
    ensures var target := QualifierTarget(q, ctx);
            t == target || (target !in ctx.idx && t in ctx.fromTables && t != "" && EndsWithName(t, q))
    ensures q in ctx.aliases && ctx.aliases[q] != "" && ctx.aliases[q] in ctx.idx ==> t == ctx.aliases[q]
  {
    var target := QualifierTarget(q, ctx);
    if target in ctx.idx then target
    else
      var found := FirstEndingWith(ctx.fromTables, q);
      if found.Some? && ctx.fromTables[found.value] != "" then ctx.fromTables[found.value] else target
  }

  /** `col[:-3] + "_name"` for a column ending in `_id`. */
  function NameSibling(col: string): string
    requires EndsWith(col, "_id")
  {
    col[..|col| - 3] + "_name"
  }

  /** The column a reference ends up naming: for an `_id` column, the table's
      matching `_name` column when the resolver finds one; else the resolver's
      answer for the column itself; else the column unchanged. */
  function ResolveColumn(table: string, col: string, idx: Index): (r: string)
    ensures r == col || (table in idx && r in idx[table] && r != "")
    ensures table !in idx ==> r == col
    ensures EndsWith(col, "_id") && table in idx && NameSibling(col) in idx[table] ==> r == NameSibling(col)
    ensures table in idx && col in idx[table] && col != "" && !(EndsWith(col, "_id") && Truthy(FindBestColumnMatch(table, NameSibling(col), idx)))
            ==> r == col
    ensures r != col ==> (EndsWith(col, "_id") && Truthy(FindBestColumnMatch(table, NameSibling(col), idx)))
                         || Related(col, r)
    ensures EndsWith(col, "_id") && Truthy(FindBestColumnMatch(table, NameSibling(col), idx))
            ==> r == FindBestColumnMatch(table, NameSibling(col), idx).value
    ensures !(EndsWith(col, "_id") && Truthy(FindBestColumnMatch(table, NameSibling(col), idx)))
            && Truthy(FindBestColumnMatch(table, col, idx))
            ==> r == FindBestColumnMatch(table, col, idx).value
    ensures !(EndsWith(col, "_id") && Truthy(FindBestColumnMatch(table, NameSibling(col), idx)))
            && !Truthy(FindBestColumnMatch(table, col, idx))
            ==> r == col
  {
    if EndsWith(col, "_id") && Truthy(FindBestColumnMatch(table, NameSibling(col), idx)) then
      FindBestColumnMatch(table, NameSibling(col), idx).value
    else if Truthy(FindBestColumnMatch(table, col, idx)) then
      FindBestColumnMatch(table, col, idx).value
    else col
  }

  /** The replacement text for one match: the qualifier is kept, the column
      resolved. */
  function ResolveRef(q: string, col: string, ctx: Context): string {
    q + "." + ResolveColumn(QualifierTable(q, ctx), col, ctx.idx)
  }

  function Rewrite(ps: seq<Piece>, ctx: Context): string {
    if ps == [] then ""
    else
      (match ps[0]
       case Lit(c) => [c]
       case Ref(q, col) => ResolveRef(q, col, ctx))
      + Rewrite(ps[1..], ctx)
  }
  /** Whether resolving leaves every reference in `ps` as it was. */
  predicate KeepsRefs(ps: seq<Piece>, ctx: Context) {
    forall k :: 0 <= k < |ps| && ps[k].Ref? ==>
      ResolveColumn(QualifierTable(ps[k].qualifier, ctx), ps[k].column, ctx.idx) == ps[k].column
  }

  /** When no reference changes, rewriting reproduces the text. */
  lemma {:induction false} RewriteKeeps(ps: seq<Piece>, ctx: Context)
    requires KeepsRefs(ps, ctx)
    ensures Rewrite(ps, ctx) == Render(ps)
  {
    if ps != [] {
      RewriteKeeps(ps[1..], ctx);
    }
  }

  /** Rewriting keeps the first character: a reference keeps its qualifier. */
  lemma RewriteHead(ps: seq<Piece>, ctx: Context)
    requires ps != [] && WellFormedRef(ps[0])
    ensures Rewrite(ps, ctx) != [] && Render(ps) != [] && Rewrite(ps, ctx)[0] == Render(ps)[0]
  {
  }

  /** `resolve_expr`: strip, resolve every `alias.column` reference, strip again.
      A blank expression resolves to "" and only a blank one does; a text
      without a dot comes back stripped. */
  function ResolveExpr(e: string, ctx: Context): (r: string)
    ensures r == "" <==> IsBlank(e)
    ensures r == [] || (!IsSpace(r[0]) && !IsSpace(r[|r| - 1]))
    ensures '.' !in e ==> r == Strip(e)
  {
    ResolvedText(e, ctx);
    ResolveTrimmed(Strip(e), ctx)
  }

  /** Resolution of an already stripped expression. */
  function ResolveTrimmed(t: string, ctx: Context): string {
    Strip(Rewrite(Scan(t), ctx))
  }

  lemma ResolvedText(e: string, ctx: Context)
    ensures var r := ResolveTrimmed(Strip(e), ctx);
            && (r == "" <==> IsBlank(e))
            && ('.' !in e ==> r == Strip(e))
  {
    ResolvedEmptyIffBlank(e, ctx);
    if '.' !in e {
      ResolvedWithoutDot(e, ctx);
    }
  }

  lemma ResolvedEmptyIffBlank(e: string, ctx: Context)
    ensures ResolveTrimmed(Strip(e), ctx) == "" <==> IsBlank(e)
  {
    var t := Strip(e);
    StripEmptyIffBlank(e);
    if t != [] {
      var ps := Scan(t);
      RewriteHead(ps, ctx);
      var w := Rewrite(ps, ctx);
      assert w[0] == t[0];
      StripKeepsNonSpaceFront(w);
    }
  }

  lemma ResolvedWithoutDot(e: string, ctx: Context)
    requires '.' !in e
    ensures ResolveTrimmed(Strip(e), ctx) == Strip(e)
  {
    var t := Strip(e);
    assert '.' !in t;
    NoDotNoRef(t);
    RewriteKeeps(Scan(t), ctx);
    StripFixesTrimmed(t);
  }

  /** `resolve_expr` replaces each `alias.column` of the stripped expression
      by its resolution, and rewrites the text around it on its own. */
  lemma ResolveExprRewritesReference(e: string, x: string, q: string, col: string, y: string, ctx: Context)
    requires Strip(e) == x + q + "." + col + y
    requires x == [] || Separates(x[|x| - 1])
    requires q != [] && AllWordChars(q) && col != [] && AllWordChars(col)
    requires y == [] || !IsWordChar(y[0])
    ensures ResolveExpr(e, ctx) == Strip(Rewrite(Scan(x), ctx) + ResolveRef(q, col, ctx) + Rewrite(Scan(y), ctx))
  {
    ScanRewritesReference(x, q, col, y, ctx);
  }

  /** An expression all of whose references already name the columns they
      resolve to comes back only stripped. */
  lemma ResolveExprKeepsResolved(e: string, ctx: Context)
    requires KeepsRefs(Scan(Strip(e)), ctx)
    ensures ResolveExpr(e, ctx) == Strip(e)
  {
    RewriteKeeps(Scan(Strip(e)), ctx);
    StripFixesTrimmed(Strip(e));
  }

  // ---------------------------------------------------------------------------
  // The plan
  // ---------------------------------------------------------------------------

  /** `ys` without its empty strings, in order. */
  function DropEmpty(ys: seq<string>): (r: seq<string>)
    ensures |r| <= |ys|
    ensures forall y :: y in r <==> y in ys && y != ""
  {
    if ys == [] then []
    else
      var rest := DropEmpty(ys[1..]);
      assert forall y :: y in ys <==> y == ys[0] || y in ys[1..];
      if ys[0] != "" then [ys[0]] + rest else rest
  }

  /** `xs` without its absent entries, in order. */
  function DropNone<T(!new)>(xs: seq<Option<T>>): (r: seq<T>)
    ensures |r| <= |xs|
    ensures forall v :: v in r <==> Some(v) in xs
  {
    if xs == [] then []
    else
      var rest := DropNone(xs[1..]);
      assert forall o :: o in xs <==> o == xs[0] || o in xs[1..];
      if xs[0].Some? then [xs[0].value] + rest else rest
  }

  /** Resolve every entry of a list and drop those that come out empty. */
  function ResolveAll(xs: seq<string>, ctx: Context): (r: seq<string>)
    ensures |r| <= |xs|
    ensures forall k :: 0 <= k < |r| ==> r[k] != ""
    ensures forall y :: y in r ==> exists x :: x in xs && y == ResolveExpr(x, ctx)
    ensures forall x :: x in xs && !IsBlank(x) ==> ResolveExpr(x, ctx) in r
  {
    var ys := seq(|xs|, k requires 0 <= k < |xs| => ResolveExpr(xs[k], ctx));
    ResolvedEntriesKept(xs, ctx, ys, DropEmpty(ys));
    DropEmpty(ys)
  }

  /** The non-empty resolved entries, kept in order, are the resolved
      entries of the non-blank texts. */
  lemma ResolvedEntriesKept(xs: seq<string>, ctx: Context, ys: seq<string>, r: seq<string>)
    requires |ys| == |xs| && forall k :: 0 <= k < |xs| ==> ys[k] == ResolveExpr(xs[k], ctx)
    requires r == DropEmpty(ys)
    ensures |r| <= |xs|
    ensures forall k :: 0 <= k < |r| ==> r[k] != ""
    ensures forall y :: y in r ==> exists x :: x in xs && y == ResolveExpr(x, ctx)
    ensures forall x :: x in xs && !IsBlank(x) ==> ResolveExpr(x, ctx) in r
  {
    ResolvedEntries(xs, ctx, ys);
    assert forall k :: 0 <= k < |r| ==> r[k] in r;
  }

  /** The entries of the resolved list are the resolved entries. */
  lemma ResolvedEntries(xs: seq<string>, ctx: Context, ys: seq<string>)
    requires |ys| == |xs| && forall k :: 0 <= k < |xs| ==> ys[k] == ResolveExpr(xs[k], ctx)
    ensures forall y :: y in ys ==> exists x :: x in xs && y == ResolveExpr(x, ctx)
    ensures forall x :: x in xs ==> ResolveExpr(x, ctx) in ys
  {
    forall y | y in ys ensures exists x :: x in xs && y == ResolveExpr(x, ctx) {
      var k :| 0 <= k < |ys| && ys[k] == y;
      assert xs[k] in xs;
    }
    forall x | x in xs ensures ResolveExpr(x, ctx) in ys {
      var k :| 0 <= k < |xs| && xs[k] == x;
      assert ys[k] == ResolveExpr(x, ctx);
    }
  }

  /** One `select_columns` entry after resolution, or None when it is dropped:
      an object keeps its `alias`, a string stays a string. */
  function ResolveSelectItem(item: SelectItem, ctx: Context): (r: Option<SelectItem>)
    ensures r.None? <==> IsBlank(SelectSource(item))
    ensures r.Some? ==> r.value.SelectExpr? == item.SelectExpr? && SelectSource(r.value) == ResolveExpr(SelectSource(item), ctx)
    ensures item.SelectExpr? && r.Some? ==> r.value.aliasName == item.aliasName
  {
    match item
    case SelectExpr(e, l) =>
      var fixed := ResolveExpr(e, ctx);
      if fixed != "" then Some(SelectExpr(fixed, l)) else None
    case SelectText(t) =>
      var fixed := ResolveExpr(t, ctx);
      if fixed != "" then Some(SelectText(fixed)) else None
  }

  /** The text of an entry that resolution reads. */
  function SelectSource(item: SelectItem): string {
    match item
    case SelectExpr(e, _) => e
    case SelectText(t) => t
  }

  /** `select_columns` after resolution: every entry resolved, the empty ones dropped. */
  function ResolveSelect(items: seq<SelectItem>, ctx: Context): (r: seq<SelectItem>)
    ensures |r| <= |items|
    ensures forall v :: v in r ==> SelectSource(v) != "" && exists item :: item in items && ResolveSelectItem(item, ctx) == Some(v)
    ensures forall item :: item in items && !IsBlank(SelectSource(item)) ==> ResolveSelectItem(item, ctx).value in r
  {
    var os := seq(|items|, k requires 0 <= k < |items| => ResolveSelectItem(items[k], ctx));
    var r := DropNone(os);
    assert forall v :: v in r ==> exists item :: item in items && ResolveSelectItem(item, ctx) == Some(v) by {
      forall v | v in r ensures exists item :: item in items && ResolveSelectItem(item, ctx) == Some(v) {
        var k :| 0 <= k < |os| && os[k] == Some(v);
        assert items[k] in items;
      }
    }
    assert forall item :: item in items && !IsBlank(SelectSource(item)) ==> ResolveSelectItem(item, ctx).value in r by {
      forall item | item in items && !IsBlank(SelectSource(item)) ensures ResolveSelectItem(item, ctx).value in r {
        var k :| 0 <= k < |items| && items[k] == item;
        assert os[k] == ResolveSelectItem(item, ctx);
      }
    }
    r
  }

  /** `order_by` after resolution: a falsy value and a list are left alone; an
      object gets its column resolved, or becomes `{}` when that comes out
      empty; a string becomes an ascending object on the resolved column. */
  function ResolveOrderBy(o: Option<OrderBy>, ctx: Context): (r: Option<OrderBy>)
    ensures o.None? || !OrderByTruthy(o.value) || o.value.OrderList? ==> r == o
    ensures o.Some? && o.value.OrderText? && o.value.text != "" ==> r == Some(OrderDict(ResolveExpr(o.value.text, ctx), Some("ASC")))
    ensures o.Some? && o.value.OrderDict? && OrderByTruthy(o.value) ==>
              r.Some? && r.value.OrderDict?
              && (IsBlank(o.value.column) ==> r.value == OrderDict("", None))
              && (!IsBlank(o.value.column) ==> r.value == OrderDict(ResolveExpr(o.value.column, ctx), o.value.direction))
  {
    if o.None? || !OrderByTruthy(o.value) then o
    else
      match o.value
      case OrderDict(col, d) =>
        var fixed := ResolveExpr(col, ctx);
        if fixed != "" then Some(OrderDict(fixed, d)) else Some(OrderDict("", None))
      case OrderText(t) => Some(OrderDict(ResolveExpr(t, ctx), Some("ASC")))
      case OrderList(_) => o
  }

  /** The resolution context of a plan: its aliases after normalisation, its
      `from_tables` as they came in, and the catalog's index. */
  function PlanContext(p: Plan, validTables: set<string>, c: Catalog): Context {
    Context(NormalizeAliases(AliasMap(p), validTables, c), Items(p.fromTables), BuildSchemaIndex(c))
  }

  /** The keys `normalize_plan` writes into every plan it normalises. */
  const NormalizedKeys: set<string> := {"aliases", "select_columns", "group_by", "where_conditions", "from_tables"}

  /** `normalize_plan`. Anything but a non-empty object comes back unchanged.
      Otherwise the aliases and `from_tables` are canonicalised, the
      expressions of `select_columns`, `group_by`, `where_conditions` and
      `order_by` resolved (dropping those that come out empty), the five
      written keys added, and every other key left as it was. Where
      `NormalizeRaises` holds, Python raises instead and this value is not
      used. */
  function NormalizePlan(pv: PlanValue, validTables: set<string>, c: Catalog): (r: PlanValue)
    ensures NotAPlan(pv) ==> r == pv
    ensures !NotAPlan(pv) ==> r.Object? && r.plan.keys == pv.plan.keys + NormalizedKeys
    ensures !NotAPlan(pv) ==>
              var p, q, ctx := pv.plan, r.plan, PlanContext(pv.plan, validTables, c);
              && q.error == p.error && q.metric == p.metric && q.metricHint == p.metricHint
              && q.dimensions == p.dimensions && q.filters == p.filters && q.joins == p.joins
              && q.generatedJoins == p.generatedJoins && q.extra == p.extra
              && q.aliases == Some(ctx.aliases) && ctx.aliases.Keys == AliasMap(p).Keys
              && q.fromTables == Some(NormalizeFromTables(Items(p.fromTables), c))
              && q.selectColumns == Some(ResolveSelect(Items(p.selectColumns), ctx))
              && q.groupBy == Some(ResolveAll(Items(p.groupBy), ctx))
              && q.whereConditions == Some(ResolveAll(Items(p.whereConditions), ctx))
              && q.orderBy == ResolveOrderBy(p.orderBy, ctx)
  {
    if NotAPlan(pv) then pv
    else
      var p := pv.plan;
      var ctx := PlanContext(p, validTables, c);
      Object(p.(
        keys := p.keys + NormalizedKeys,
        aliases := Some(ctx.aliases),
        selectColumns := Some(ResolveSelect(Items(p.selectColumns), ctx)),
        groupBy := Some(ResolveAll(Items(p.groupBy), ctx)),
        whereConditions := Some(ResolveAll(Items(p.whereConditions), ctx)),
        orderBy := ResolveOrderBy(p.orderBy, ctx),
        fromTables := Some(NormalizeFromTables(Items(p.fromTables), c))))
  }

  /** A normalised plan still has a key for every field with a value. */
  lemma NormalizePlanKeyed(pv: PlanValue, validTables: set<string>, c: Catalog)
    requires pv.Object? && Keyed(pv.plan)
    ensures NormalizePlan(pv, validTables, c).Object?
    ensures Keyed(NormalizePlan(pv, validTables, c).plan)
  {
    if !NotAPlan(pv) {
      var ctx := PlanContext(pv.plan, validTables, c);
      ResolveOrderByKeepsPresence(pv.plan.orderBy, ctx);
    }
  }

  lemma ResolveOrderByKeepsPresence(o: Option<OrderBy>, ctx: Context)
    ensures ResolveOrderBy(o, ctx).Some? <==> o.Some?
  {
  }

  // ---------------------------------------------------------------------------
  // Where normalisation raises
  // ---------------------------------------------------------------------------

  function OrderSource(o: Option<OrderBy>): set<string> {
    if o.None? || !OrderByTruthy(o.value) then {}
    else
      match o.value
      case OrderDict(col, _) => {col}
      case OrderText(t) => {t}
      case OrderList(_) => {}
  }

  /** Resolving `e` reads `from_tables`: some reference in it has a qualifier
      whose alias target is not an indexed table. */
  predicate ReadsFromTables(e: string, ctx: Context) {
    var ps := Scan(Strip(e));
    exists k :: 0 <= k < |ps| && ps[k].Ref? && QualifierTarget(ps[k].qualifier, ctx) !in ctx.idx
  }

  /** `normalize_plan` raises a `TypeError`: `from_tables` is `null`, so
      `plan.get("from_tables", [])` gives `None`, and some resolved text has a
      reference that makes the resolver iterate over it. */
  predicate NormalizeRaises(pv: PlanValue, validTables: set<string>, c: Catalog) {
    && !NotAPlan(pv)
    && "from_tables" in pv.plan.keys && pv.plan.fromTables.None?
    && SomeTextReadsFromTables(pv.plan, PlanContext(pv.plan, validTables, c))
  }

  /** One of the texts `resolve_expr` is given reads `from_tables`: a
      `select_columns` entry, a `group_by` or `where_conditions` entry, or
      the `order_by` column or text when `order_by` is truthy. */
  predicate SomeTextReadsFromTables(p: Plan, ctx: Context) {
    || (exists item :: item in Items(p.selectColumns) && ReadsFromTables(SelectSource(item), ctx))
    || (exists e :: e in Items(p.groupBy) && ReadsFromTables(e, ctx))
    || (exists e :: e in Items(p.whereConditions) && ReadsFromTables(e, ctx))
    || (exists e :: e in OrderSource(p.orderBy) && ReadsFromTables(e, ctx))
  }

  /** A text none of whose references reads `from_tables` resolves the same
      whatever `from_tables` holds: the raise is confined to the texts
      `ReadsFromTables` picks out. */
  lemma ResolveWithoutFromTables(e: string, ctx: Context, ts: seq<string>)
    requires !ReadsFromTables(e, ctx)
    ensures ResolveExpr(e, ctx) == ResolveExpr(e, ctx.(fromTables := ts))
  {
    RewriteWithoutFromTables(Scan(Strip(e)), ctx, ts);
  }

  lemma {:induction false} RewriteWithoutFromTables(ps: seq<Piece>, ctx: Context, ts: seq<string>)
    requires forall k :: 0 <= k < |ps| && ps[k].Ref? ==> QualifierTarget(ps[k].qualifier, ctx) in ctx.idx
    ensures Rewrite(ps, ctx) == Rewrite(ps, ctx.(fromTables := ts))
  {
    if ps != [] {
      assert forall k :: 0 <= k < |ps[1..]| ==> ps[1..][k] == ps[k + 1];
      RewriteWithoutFromTables(ps[1..], ctx, ts);
    }
  }

  /** With the catalog's own table names as the valid tables, a second
      pass over the aliases changes nothing. */
  lemma NormalizeAliasesIdempotent(m: map<string, string>, c: Catalog)
    ensures var once := NormalizeAliases(m, TableNames(c), c);
            NormalizeAliases(once, TableNames(c), c) == once
  {
    var once := NormalizeAliases(m, TableNames(c), c);
    forall a | a in once
      ensures CanonicalTable(once[a], TableNames(c), c) == once[a]
    {
      CanonicalTableIdempotent(m[a], TableNames(c), c);
    }
  }

  /** A second pass over `from_tables` changes nothing. */
  lemma NormalizeFromTablesIdempotent(ts: seq<string>, c: Catalog)
    ensures var once := NormalizeFromTables(ts, c);
            NormalizeFromTables(once, c) == once
  {
    var once := NormalizeFromTables(ts, c);
    forall k | 0 <= k < |ts|
      ensures CanonicalTable(once[k], TableNames(c), c) == once[k]
    {
      CanonicalTableIdempotent(ts[k], TableNames(c), c);
    }
  }

  /** With the catalog's own table names as the valid tables (as the pipeline
      passes them), normalising a plan a second time leaves its aliases and
      `from_tables` as the first pass left them. */
  lemma NormalizeTablesIdempotent(pv: PlanValue, c: Catalog)
    ensures var once := NormalizePlan(pv, TableNames(c), c);
            var twice := NormalizePlan(once, TableNames(c), c);
            once.Object? ==> twice.Object? && twice.plan.aliases == once.plan.aliases
                             && twice.plan.fromTables == once.plan.fromTables
  {
    var once := NormalizePlan(pv, TableNames(c), c);
    if !NotAPlan(pv) {
      NormalizeAliasesIdempotent(AliasMap(pv.plan), c);
      NormalizeFromTablesIdempotent(Items(pv.plan.fromTables), c);
    }
  }
}

/** Worked cases of plan normalisation. */
module PlanNormalizerExamples {
  import opened Common
  import opened Text
  import opened Schema
  import opened SchemaIndex
  import opened LogicalPlan
  import opened PlanNormalizer

  /** `{"from_tables": null, "group_by": ["x.a"]}` against an empty catalog:
      `x` names no table, so the resolver iterates over `null` and raises. */
  lemma NullFromTablesRaises()
    ensures var p := Plan({"from_tables", "group_by"}, None, None, None, None, None, None, None, None,
                          Some(["x.a"]), None, None, None, None, []);
            NormalizeRaises(Object(p), {}, [])
  {
    var p := Plan({"from_tables", "group_by"}, None, None, None, None, None, None, None, None,
                  Some(["x.a"]), None, None, None, None, []);
    assert "x" + "." + "a" == "x.a";
    GroupByRefRaises(p, "x", "a", {}, []);
  }

  /** A `group_by` entry `q.col` whose qualifier leads to no catalog table
      makes a plan with a `null` `from_tables` raise. */
  lemma GroupByRefRaises(p: Plan, q: string, col: string, validTables: set<string>, c: Catalog)
    requires "from_tables" in p.keys && p.fromTables.None?
    requires q + "." + col in Items(p.groupBy)
    requires q != [] && AllWordChars(q) && col != [] && AllWordChars(col)
    requires q !in AliasMap(p) && q !in TableNames(c)
    ensures NormalizeRaises(Object(p), validTables, c)
  {
    var ctx := PlanContext(p, validTables, c);
    assert QualifierTarget(q, ctx) == q;
    OneRefReadsFromTables(q, col, ctx);
    assert SomeTextReadsFromTables(p, ctx);
  }

  /** A lone reference `q.col` reads `from_tables` whenever `q` does not
      lead to a catalog table. */
  lemma OneRefReadsFromTables(q: string, col: string, ctx: Context)
    requires q != [] && AllWordChars(q) && col != [] && AllWordChars(col)
    requires QualifierTarget(q, ctx) !in ctx.idx
    ensures ReadsFromTables(q + "." + col, ctx)
  {
    var e := q + "." + col;
    assert e[0] == q[0] && e[|e| - 1] == col[|col| - 1];
    assert IsWordChar(q[0]) && IsWordChar(col[|col| - 1]);
    StripFixesWordEnds(e);
    ScanOneRef(q, col);
    assert Scan(Strip(e))[0].Ref?;
  }

  /** A table `t` with columns `a_id` and `a_name`, aliased as `x`. */
  function Ctx(): Context {
    Context(map["x" := "t"], [], map["t" := ["a_id", "a_name"]])
  }

  lemma ScanOneRef(q: string, col: string)
    requires q != [] && AllWordChars(q) && col != [] && AllWordChars(col)
    ensures Scan(q + "." + col) == [Ref(q, col)]
  {
    var s := q + "." + col;
    OneRefShape(q, col);
    ScanAtRef(s);
    assert s[|s|..] == [];
  }

  /** `q.col` is a word run, a dot and a word run to the end. */
  lemma OneRefShape(q: string, col: string)
    requires q != [] && AllWordChars(q) && col != [] && AllWordChars(col)
    ensures var s := q + "." + col;
      && WordRun(s) == |q| && |q| + 1 < |s| && s[|q|] == '.' && IsWordChar(s[|q| + 1])
      && |q| + 1 + WordRun(s[|q| + 1..]) == |s| && s[..|q|] == q && s[|q| + 1..|s|] == col
  {
    var s := q + "." + col;
    assert s == q + ("." + col);
    WordRunStops(q, "." + col);
    WholeWordRun(col);
    assert s[|q| + 1..] == col;
  }

  /** The step of the scan where a reference starts. */
  lemma ScanAtRef(s: string)
    requires var n := WordRun(s); 0 < n && n + 1 < |s| && s[n] == '.' && IsWordChar(s[n + 1])
    ensures var n := WordRun(s); var m := n + 1 + WordRun(s[n + 1..]);
      m <= |s| && Scan(s) == [Ref(s[..n], s[n + 1..m])] + Scan(s[m..])
  {
    assert s != [];
  }

  lemma QualifierX()
    ensures QualifierTable("x", Ctx()) == "t"
  {
  }

  lemma RewriteOneRef(q: string, col: string, ctx: Context)
    ensures Rewrite([Ref(q, col)], ctx) == ResolveRef(q, col, ctx)
  {
    assert [Ref(q, col)][1..] == [];
  }

  lemma FindAid()
    ensures FindBestColumnMatch("t", "aid", Ctx().idx) == Some("a_id")
  {
    var cols := Ctx().idx["t"];
    assert "aid" !in cols by {
      assert "aid" != "a_id" by { assert "aid"[1] != "a_id"[1]; }
      assert "aid" != "a_name" by { assert |"aid"| != |"a_name"|; }
    }
    assert NormalizeColName("aid") == "aid";
    assert NormalizeColName("a_id") == "aid";
    assert FirstMatch(cols, NormalizedEqual, "aid") == Some("a_id");
  }

  lemma ColumnAid()
    ensures ResolveColumn("t", "aid", Ctx().idx) == "a_id"
  {
    assert !EndsWith("aid", "_id") by { assert "aid"[0] != "_id"[0]; }
    FindAid();
  }

  lemma ColumnAId()
    ensures ResolveColumn("t", "a_id", Ctx().idx) == "a_name"
  {
    assert EndsWith("a_id", "_id") by { assert "a_id"[1..] == "_id"; }
    assert NameSibling("a_id") == "a_name" by { assert "a_id"[..1] == "a"; }
    assert FindBestColumnMatch("t", "a_name", Ctx().idx) == Some("a_name");
  }

  /** A stripped expression that is one reference resolves to the reference
      with its resolved column. */
  lemma ResolveSingleRef(q: string, col: string, ctx: Context, resolved: string)
    requires q != [] && AllWordChars(q) && col != [] && AllWordChars(col)
    requires ResolveColumn(QualifierTable(q, ctx), col, ctx.idx) == resolved
    requires resolved != [] && AllWordChars(resolved)
    ensures ResolveTrimmed(q + "." + col, ctx) == q + "." + resolved
  {
    var e := q + "." + col;
    var r := q + "." + resolved;
    ScanOneRef(q, col);
    RewriteOneRef(q, col, ctx);
    assert r[0] == q[0] && r[|r| - 1] == resolved[|resolved| - 1];
    assert IsWordChar(q[0]) && IsWordChar(resolved[|resolved| - 1]);
    StripFixesWordEnds(r);
    calc {
      ResolveTrimmed(e, ctx);
      Strip(Rewrite(Scan(e), ctx));
      Strip(Rewrite([Ref(q, col)], ctx));
      Strip(ResolveRef(q, col, ctx));
      Strip(r);
      r;
    }
  }

  /** Resolving is not idempotent: the column `aid` resolves to `a_id`
      (same normal form), and a second pass moves `a_id` on to its `_name`
      sibling `a_name`. By ResolveSingleRef the expression `x.aid` behaves
      the same way. */
  lemma ResolveColumnNotIdempotent()
    ensures var once := ResolveColumn("t", "aid", Ctx().idx);
            once == "a_id" && ResolveColumn("t", once, Ctx().idx) == "a_name"
  {
    ColumnAid();
    ColumnAId();
  }
}
