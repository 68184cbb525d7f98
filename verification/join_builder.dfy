/** Join inference: which of the five fixed aliases a plan mentions, and the
    INNER JOIN lines that follow from it. The source serialises the plan with
    `json.dumps` and searches the text for `\b(fa|da|au|dt|dd)\b`; the model
    renders each string of the plan the way `json.dumps` does and looks for
    the tokens as whole words in that rendering. */
module JoinBuilder {
  import opened Common
  import opened Text
  import opened LogicalPlan

  /** The fact alias and the dimension aliases the scan looks for. */
  const FactAlias: string := "fa"

  const AliasTokens: set<string> := {"fa", "da", "au", "dt", "dd"}

  /** The fixed order in which joins are emitted. */
  const DimensionOrder: seq<string> := ["dd", "da", "au", "dt"]

  /** The warehouse table behind each dimension alias. */
  function DimensionTable(alias: string): string
    requires alias in DimensionOrder
  {
    match alias
    case "da" => "dim_articles"
    case "au" => "dim_authors"
    case "dt" => "dim_topics"
    case _ => "dim_date"
  }

  /** The key the fact table shares with each dimension. */
  function DimensionKey(alias: string): string
    requires alias in DimensionOrder
  {
    match alias
    case "da" => "article_id"
    case "au" => "author_id"
    case "dt" => "topic_id"
    case _ => "date_id"
  }

  /** The fixed foreign-key join for each dimension alias, e.g.
      `INNER JOIN dw.dim_articles da ON fa.article_id = da.article_id`. */
  function JoinLine(alias: string): string
    requires alias in DimensionOrder
  {
    "INNER JOIN dw." + DimensionTable(alias) + " " + alias
      + " ON fa." + DimensionKey(alias) + " = " + alias + "." + DimensionKey(alias)
  }

  // ---------------------------------------------------------------------------
  // The JSON text of a string
  // ---------------------------------------------------------------------------

  /** Four lower-case hex digits of a 16-bit code. */
  function Hex4(n: nat): string
    requires n < 0x1_0000
  {
    [HexDigit(n / 0x1000), HexDigit(n / 0x100 % 16), HexDigit(n / 16 % 16), HexDigit(n % 16)]
  }

  /** How `json.dumps` (with its default `ensure_ascii`) writes one character
      inside a string: printable ASCII as itself except `"` and `\`, the short
      escapes, and `\uXXXX` (a surrogate pair above U+FFFF) for the rest. */
  function JsonChar(c: char): string {
    if c == '"' then "\\\""
    else if c == '\\' then "\\\\"
    else if c == '\n' then "\\n"
    else if c == '\r' then "\\r"
    else if c == '\t' then "\\t"
    else if c == '\U{8}' then "\\b"
    else if c == '\U{c}' then "\\f"
    else if ' ' <= c <= '~' then [c]
    else if c as int < 0x1_0000 then "\\u" + Hex4(c as int)
    else
      var v := c as int - 0x1_0000;
      "\\u" + Hex4(0xD800 + v / 0x400) + "\\u" + Hex4(0xDC00 + v % 0x400)
  }

  /** The body of the JSON string literal for `s` (without the quotes). */
  function JsonText(s: string): string {
    if s == [] then "" else JsonChar(s[0]) + JsonText(s[1..])
  }

  /** Printable ASCII other than `"` and `\` is written unchanged. */
  predicate IsPlainJson(s: string) {
    forall k :: 0 <= k < |s| ==> ' ' <= s[k] <= '~' && s[k] != '"' && s[k] != '\\'
  }

  lemma {:induction false} PlainJsonUnchanged(s: string)
    requires IsPlainJson(s)
    ensures JsonText(s) == s
  {
    if s != [] {
      PlainJsonUnchanged(s[1..]);
      assert s == [s[0]] + s[1..];
    }
  }

  // ---------------------------------------------------------------------------
  // Whole-word token search
  // ---------------------------------------------------------------------------

  /** `tok` occurs in the JSON literal whose body is `t` at position `i` with a
      word boundary on both sides; the surrounding quotes are non-word
      characters, so the ends of `t` are boundaries. */
  predicate TokenAt(t: string, i: int, tok: string) {
    && OccursAt(t, i, tok)
    && (i == 0 || !IsWordChar(t[i - 1]))
    && (i + |tok| == |t| || !IsWordChar(t[i + |tok|]))
  }

  /** `\b tok \b` finds a match in the JSON text of `s`. */
  predicate Mentions(s: string, tok: string) {
    var t := JsonText(s);
    exists i | 0 <= i <= |t| :: TokenAt(t, i, tok)
  }

  /** Every string value and mapping key of the plan, the unread parts
      included. The fixed keys of the JSON text (`"aliases"`, `"order_by"`,
      `"column"`, ...) contain none of the alias tokens as whole words, and
      numbers, booleans and `null` contain no letters that could form one. */
  function PlanStrings(p: Plan): set<string> {
    var opt := (o: Option<string>) => if o.Some? then {o.value} else {};
    var items := (o: Option<seq<string>>) => set x | x in Items(o);
    var sel := set item, x | item in Items(p.selectColumns) && x in SelectStrings(item) :: x;
    var ord := if p.orderBy.Some? then OrderStrings(p.orderBy.value) else {};
    var al := AliasMap(p);
    opt(p.error) + opt(p.metric) + opt(p.metricHint) + items(p.dimensions) + items(p.filters)
      + sel + items(p.joins) + items(p.whereConditions) + items(p.groupBy) + ord
      + items(p.fromTables) + al.Keys + al.Values + opt(p.generatedJoins)
      + (set x | x in p.extra)
  }

  function SelectStrings(item: SelectItem): set<string> {
    match item
    case SelectExpr(e, l) => if l.Some? then {e, l.value} else {e}
    case SelectText(t) => {t}
  }

  function OrderStrings(o: OrderBy): set<string> {
    match o
    case OrderDict(c, d) => if d.Some? then {c, d.value} else {c}
    case OrderText(t) => {t}
    case OrderList(xs) => set x | x in xs
  }

  /** The aliases the regular expression finds in the serialised plan. */
  function UsedAliases(p: Plan): (used: set<string>)
    ensures used <= AliasTokens
    ensures forall tok :: tok in used <==> tok in AliasTokens && exists s :: s in PlanStrings(p) && Mentions(s, tok)
  {
    set tok, s | tok in AliasTokens && s in PlanStrings(p) && Mentions(s, tok) :: tok
  }

  // ---------------------------------------------------------------------------
  // Join lines
  // ---------------------------------------------------------------------------

  /** `a` is `b` with some entries left out, the rest in their order. */
  predicate IsSubsequence<T(==)>(a: seq<T>, b: seq<T>)
    decreases |b|
  {
    if a == [] then true
    else if b == [] then false
    else if a[0] == b[0] then IsSubsequence(a[1..], b[1..])
    else IsSubsequence(a, b[1..])
  }

  /** The aliases of `order` that are used. */
  function UsedInOrder(order: seq<string>, used: set<string>): (ds: seq<string>)
    ensures |ds| <= |order|
    ensures forall a :: a in ds <==> a in order && a in used
  {
    if order == [] then []
    else
      var rest := UsedInOrder(order[1..], used);
      assert order == [order[0]] + order[1..];
      if order[0] in used then [order[0]] + rest else rest
  }

  /** The used aliases come in the order of `order`, each once when `order`
      lists each once. */
  lemma {:induction false} UsedInOrderKeepsOrder(order: seq<string>, used: set<string>)
    ensures IsSubsequence(UsedInOrder(order, used), order)
    ensures NoDuplicates(order) ==> NoDuplicates(UsedInOrder(order, used))
    decreases |order|
  {
    if order != [] {
      UsedInOrderKeepsOrder(order[1..], used);
      UsedInOrderStep(order, used, UsedInOrder(order[1..], used));
    }
  }

  /** One entry of `order` kept or left out in front of the rest. */
  lemma UsedInOrderStep(order: seq<string>, used: set<string>, rest: seq<string>)
    requires order != []
    requires forall a :: a in rest <==> a in order[1..] && a in used
    requires IsSubsequence(rest, order[1..])
    requires NoDuplicates(order[1..]) ==> NoDuplicates(rest)
    ensures var ds := if order[0] in used then [order[0]] + rest else rest;
            IsSubsequence(ds, order) && (NoDuplicates(order) ==> NoDuplicates(ds))
  {
    if NoDuplicates(order) {
      forall i, j | 0 <= i < j < |order[1..]| ensures order[1..][i] != order[1..][j] {
        assert order[1..][i] == order[i + 1] && order[1..][j] == order[j + 1];
      }
    }
    if order[0] in used {
      var ds := [order[0]] + rest;
      assert ds[1..] == rest;
      if NoDuplicates(order) {
        forall i, j | 0 <= i < j < |ds| ensures ds[i] != ds[j] {
          if i == 0 {
            assert ds[j] == rest[j - 1];
            assert rest[j - 1] in rest;
          } else {
            assert ds[i] == rest[i - 1] && ds[j] == rest[j - 1];
          }
        }
      }
    } else if rest != [] {
      assert rest[0] in rest;
    }
  }

  /** The dimensions of the join lines come each once, in the order dd, da,
      au, dt. */
  lemma UsedDimensionsInFixedOrder(used: set<string>)
    ensures var ds := UsedInOrder(DimensionOrder, used);
            IsSubsequence(ds, DimensionOrder) && NoDuplicates(ds)
  {
    UsedInOrderKeepsOrder(DimensionOrder, used);
    assert NoDuplicates(DimensionOrder);
  }

  /** Besides the fact alias, every token the scan finds is a dimension
      alias, so two used aliases including the fact alias give a dimension. */
  lemma SomeDimensionUsed(used: set<string>)
    requires used <= AliasTokens && FactAlias in used && |used| > 1
    ensures UsedInOrder(DimensionOrder, used) != []
  {
    var others := used - {FactAlias};
    assert |others| == |used| - 1;
    var a :| a in others;
    assert a in DimensionOrder;
  }

  /** The join lines for a set of used aliases: none unless the fact alias and
      at least one other alias are used; otherwise one per used dimension, in
      the order dd, da, au, dt. */
  function JoinLines(used: set<string>): (lines: seq<string>)
    requires used <= AliasTokens
    ensures lines == [] <==> FactAlias !in used || |used| <= 1
    ensures lines != [] ==>
      var ds := UsedInOrder(DimensionOrder, used);
      |lines| == |ds| && forall k :: 0 <= k < |ds| ==> ds[k] in DimensionOrder && lines[k] == JoinLine(ds[k])
    ensures forall l :: l in lines ==> exists a :: a in DimensionOrder && a in used && l == JoinLine(a)
    ensures FactAlias in used && |used| > 1 ==> forall a :: a in DimensionOrder && a in used ==> JoinLine(a) in lines
  {
    if FactAlias !in used || |used| <= 1 then []
    else
      var ds := UsedInOrder(DimensionOrder, used);
      SomeDimensionUsed(used);
      var lines := seq(|ds|, k requires 0 <= k < |ds| => JoinLine(ds[k]));
      LinesOfDimensions(ds, lines);
      lines
  }

  /** The join lines of a list of dimensions are those of its members. */
  lemma LinesOfDimensions(ds: seq<string>, lines: seq<string>)
    requires forall b :: b in ds ==> b in DimensionOrder
    requires |lines| == |ds| && forall k :: 0 <= k < |ds| ==> lines[k] == JoinLine(ds[k])
    ensures forall l :: l in lines ==> exists b :: b in ds && l == JoinLine(b)
    ensures forall b :: b in ds ==> JoinLine(b) in lines
  {
    forall l | l in lines ensures exists b :: b in ds && l == JoinLine(b) {
      var k :| 0 <= k < |lines| && lines[k] == l;
      assert ds[k] in ds;
    }
    forall b | b in ds ensures JoinLine(b) in lines {
      var k :| 0 <= k < |ds| && ds[k] == b;
      assert lines[k] == JoinLine(b);
    }
  }

  /** A join line is a single non-empty line. */
  lemma JoinLineIsOneLine(a: string)
    requires a in DimensionOrder
    ensures JoinLine(a) != [] && '\n' !in JoinLine(a)
  {
    DimensionPartsOneLine(a);
    FixedPartsOneLine();
  }

  /** The alias, table and key of a dimension hold no line break. */
  lemma DimensionPartsOneLine(a: string)
    requires a in DimensionOrder
    ensures '\n' !in DimensionTable(a) && '\n' !in DimensionKey(a) && '\n' !in a
  {
    assert a == DimensionOrder[0] || a == DimensionOrder[1] || a == DimensionOrder[2] || a == DimensionOrder[3];
  }

  /** The fixed text of a join line holds no line break. */
  lemma FixedPartsOneLine()
    ensures '\n' !in "INNER JOIN dw." && '\n' !in " " && '\n' !in " ON fa." && '\n' !in " = " && '\n' !in "."
  {
  }

  lemma {:induction false} JoinOfNonEmptyHead(sep: string, parts: seq<string>)
    requires parts != [] && parts[0] != []
    ensures Join(sep, parts) != []
  {
  }

  /** `intelligent_join_builder`: the join lines separated by newlines. The
      text is empty exactly when the fact alias or every dimension alias is
      missing, and otherwise splits back into the join lines. */
  function IntelligentJoinBuilder(p: Plan): (r: string)
    ensures r == "" <==> FactAlias !in UsedAliases(p) || |UsedAliases(p)| <= 1
    ensures r != "" ==> Split(r, '\n') == JoinLines(UsedAliases(p))
  {
    var lines := JoinLines(UsedAliases(p));
    var r := Join("\n", lines);
    if lines != [] then
      forall k | 0 <= k < |lines| ensures '\n' !in lines[k] && lines[k] != [] {
        assert lines[k] in lines;
        var a :| a in DimensionOrder && lines[k] == JoinLine(a);
        JoinLineIsOneLine(a);
      }
      JoinOfNonEmptyHead("\n", lines);
      SplitJoin(lines, '\n');
      r
    else
      r
  }
}

/** Worked cases of the join inference. */
module JoinBuilderExamples {
  import opened Text
  import opened JoinBuilder

  /** With every alias in use, the four dimensions are joined as dd, da, au, dt. */
  lemma AllDimensionsInFixedOrder()
    ensures UsedInOrder(DimensionOrder, AliasTokens) == ["dd", "da", "au", "dt"]
  {
    var o, u := DimensionOrder, AliasTokens;
    assert o[3..][1..] == [] && o[2..][1..] == o[3..] && o[1..][1..] == o[2..];
    assert UsedInOrder(o[3..], u) == ["dt"];
    assert UsedInOrder(o[2..], u) == ["au", "dt"];
    assert UsedInOrder(o[1..], u) == ["da", "au", "dt"];
  }

  /** Only the dimensions in use are joined, still in the fixed order. */
  lemma SomeDimensionsInFixedOrder()
    ensures UsedInOrder(DimensionOrder, {"fa", "dt", "dd"}) == ["dd", "dt"]
  {
    var o, u := DimensionOrder, {"fa", "dt", "dd"};
    assert o[3..][1..] == [] && o[2..][1..] == o[3..] && o[1..][1..] == o[2..];
    assert UsedInOrder(o[3..], u) == ["dt"];
    assert UsedInOrder(o[2..], u) == ["dt"];
    assert UsedInOrder(o[1..], u) == ["dt"];
  }

  /** A qualified column `fa.views` mentions the fact alias. */
  lemma QualifiedColumnMentionsAlias()
    ensures Mentions("fa.views", "fa")
  {
    PlainJsonUnchanged("fa.views");
    assert TokenAt("fa.views", 0, "fa");
  }

  /** The alias must stand as a whole word: `fact` does not mention `fa`. */
  lemma WordContainingAliasIsNoMention()
    ensures !Mentions("fact", "fa")
  {
    PlainJsonUnchanged("fact");
    forall i | 0 <= i <= 4 ensures !TokenAt("fact", i, "fa") {
      if i == 0 {
        assert IsWordChar("fact"[2]);
      } else if i == 1 {
        assert "fact"[1] != 'f';
      } else if i == 2 {
        assert "fact"[2] != 'f';
      } else {
        assert i + 2 > 4;
      }
    }
  }

  /** The scan reads the escaped text: a form feed written as `\f` followed
      by `a` spells the token `fa` between two word boundaries. */
  lemma FormFeedEscapeSpellsFactAlias()
    ensures Mentions("\U{c}a", "fa")
  {
    assert JsonText("\U{c}a") == "\\fa";
    assert TokenAt("\\fa", 1, "fa");
  }
}
