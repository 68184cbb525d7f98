/** The schema index (table name to its columns) and the fuzzy column
    resolver that repairs near-miss column names against it. */
module SchemaIndex {
  import opened Common
  import opened Text
  import opened Schema

  /** table name -> column names, in catalog order. */
  type Index = map<string, seq<string>>

  /** `build_schema_index`: every table name maps to the columns of the table
      of that name written last in the catalog; described and bare columns
      both count. */
  function BuildSchemaIndex(c: Catalog): (idx: Index)
    ensures idx.Keys == TableNames(c)
    ensures forall i :: 0 <= i < |c| && IsLastOfName(c, i) ==> idx[c[i].name] == ColumnNames(c[i].columns)
  {
    if c == [] then map[]
    else
      var prefix := c[..|c| - 1];
      var last := c[|c| - 1];
      TableNamesSnoc(c);
      var rest := BuildSchemaIndex(prefix);
      IndexSnoc(c, rest);
      rest[last.name := ColumnNames(last.columns)]
  }

  /** Adding the last table to the index of the others keeps the entries of
      the earlier tables no later one shares a name with. */
  lemma IndexSnoc(c: Catalog, rest: Index)
    requires c != []
    requires var prefix := c[..|c| - 1];
      forall i :: 0 <= i < |prefix| && IsLastOfName(prefix, i) ==>
        prefix[i].name in rest && rest[prefix[i].name] == ColumnNames(prefix[i].columns)
    ensures var last := c[|c| - 1];
      var idx := rest[last.name := ColumnNames(last.columns)];
      forall i :: 0 <= i < |c| && IsLastOfName(c, i) ==> c[i].name in idx && idx[c[i].name] == ColumnNames(c[i].columns)
  {
    var prefix := c[..|c| - 1];
    var last := c[|c| - 1];
    var idx := rest[last.name := ColumnNames(last.columns)];
    forall i | 0 <= i < |c| && IsLastOfName(c, i)
      ensures c[i].name in idx && idx[c[i].name] == ColumnNames(c[i].columns)
    {
      if i < |c| - 1 {
        assert c[i] == prefix[i];
        assert c[i].name != last.name;
        assert IsLastOfName(prefix, i);
      }
    }
  }

  lemma TableNamesSnoc(c: Catalog)
    requires c != []
    ensures TableNames(c) == TableNames(c[..|c| - 1]) + {c[|c| - 1].name}
  {
    assert c == c[..|c| - 1] + [c[|c| - 1]];
  }

  // ---------------------------------------------------------------------------
  // Name normalisation
  // ---------------------------------------------------------------------------

  /** The characters a normalised name is made of: `[a-z0-9]`. */
  predicate IsNormChar(c: char) { IsLowerAscii(c) || IsDigit(c) }

  /** What one character contributes to a normalised name: its lower-case form
      when that is in `[a-z0-9]`, else nothing. Besides `A`-`Z`, two characters
      lower-case into ASCII: the Kelvin sign becomes `k`, and capital I with dot
      becomes `i` followed by a combining dot, of which only the `i` survives. */
  function NormPiece(c: char): (r: string)
    ensures |r| <= 1 && forall k :: 0 <= k < |r| ==> IsNormChar(r[k])
  {
    if c == '\U{212a}' then "k"
    else if c == '\U{130}' then "i"
    else if IsNormChar(LowerChar(c)) then [LowerChar(c)]
    else ""
  }

  /** `normalize_col_name`: lower-case, then keep only `[a-z0-9]`. */
  function NormalizeColName(s: string): (r: string)
    ensures forall k :: 0 <= k < |r| ==> IsNormChar(r[k])
    ensures |r| <= |s|
    ensures s == "" ==> r == ""
  {
    if s == [] then "" else NormPiece(s[0]) + NormalizeColName(s[1..])
  }

  /** Normalisation works character by character, so it distributes over concatenation. */
  lemma {:induction false} NormalizeAppend(a: string, b: string)
    ensures NormalizeColName(a + b) == NormalizeColName(a) + NormalizeColName(b)
  {
    if a == [] {
      assert a + b == b;
      assert NormalizeColName(a) == "";
    } else {
      var c, x, y := NormPiece(a[0]), NormalizeColName(a[1..]), NormalizeColName(b);
      NormalizeAppend(a[1..], b);
      assert (a + b)[0] == a[0];
      assert (a + b)[1..] == a[1..] + b;
      NormalizeFirst(a + b);
      NormalizeFirst(a);
      AppendAssoc(c, x, y);
    }
  }

  /** One step of the normalisation. */
  lemma NormalizeFirst(s: string)
    requires s != []
    ensures NormalizeColName(s) == NormPiece(s[0]) + NormalizeColName(s[1..])
  {
  }

  /** A string already made of `[a-z0-9]` is its own normal form. */
  lemma {:induction false} NormalizeFixesNormal(s: string)
    requires forall k :: 0 <= k < |s| ==> IsNormChar(s[k])
    ensures NormalizeColName(s) == s
  {
    if s != [] {
      NormalizeFixesNormal(s[1..]);
      assert s == [s[0]] + s[1..];
    }
  }

  /** Normalising twice is normalising once. */
  lemma NormalizeIdempotent(s: string)
    ensures NormalizeColName(NormalizeColName(s)) == NormalizeColName(s)
  {
    NormalizeFixesNormal(NormalizeColName(s));
  }

  // ---------------------------------------------------------------------------
  // Fuzzy column resolution
  // ---------------------------------------------------------------------------

  /** The three heuristic tiers tried after an exact name match fails. */
  datatype Tier = NormalizedEqual | Containment | NormalizedPrefix

  /** Whether column `c` satisfies `tier` for a request whose normal form is `reqNorm`. */
  predicate TierMatches(tier: Tier, reqNorm: string, c: string) {
    var cn := NormalizeColName(c);
    match tier
    case NormalizedEqual => cn == reqNorm
    case Containment => Contains(cn, reqNorm) || Contains(reqNorm, cn)
    case NormalizedPrefix => cn != "" && (reqNorm <= cn || cn <= reqNorm)
  }

  /** The first column, in catalog order, that satisfies `tier`. */
  function FirstMatch(cols: seq<string>, tier: Tier, reqNorm: string): (r: Option<string>)
    ensures r.Some? ==> exists i :: 0 <= i < |cols| && cols[i] == r.value
                                 && TierMatches(tier, reqNorm, cols[i])
                                 && forall j :: 0 <= j < i ==> !TierMatches(tier, reqNorm, cols[j])
    ensures r.None? <==> forall c :: c in cols ==> !TierMatches(tier, reqNorm, c)
  {
    if cols == [] then None
    else if TierMatches(tier, reqNorm, cols[0]) then Some(cols[0])
    else
      var r := FirstMatch(cols[1..], tier, reqNorm);
      assert forall c :: c in cols ==> c == cols[0] || c in cols[1..];
      if r.Some? then
        ghost var i :| 0 <= i < |cols[1..]| && cols[1..][i] == r.value
                       && TierMatches(tier, reqNorm, cols[1..][i])
                       && forall j :: 0 <= j < i ==> !TierMatches(tier, reqNorm, cols[1..][j]);
        assert cols[i + 1] == r.value;
        r
      else r
  }

  /** A column is "related" to a request when one of the fuzzy tiers accepts it. */
  predicate Related(requested: string, c: string) {
    var reqNorm := NormalizeColName(requested);
    TierMatches(NormalizedEqual, reqNorm, c) || TierMatches(Containment, reqNorm, c)
  }

  /** `find_best_column_match`: None for an unknown table; the request itself
      when it is a column; else the first column whose normal form equals the
      request's; else the first whose normal form contains, or is contained in,
      the request's; else the first whose normal form is a prefix of the
      request's, or has it as a prefix; else None. */
  function FindBestColumnMatch(table: string, requested: string, idx: Index): (r: Option<string>)
    ensures table !in idx ==> r == None
    ensures table in idx && requested in idx[table] ==> r == Some(requested)
    ensures r.Some? ==> table in idx && r.value in idx[table]
    ensures r.Some? && r.value != requested ==> Related(requested, r.value)
    ensures table in idx && r.None? ==> requested !in idx[table] && forall c :: c in idx[table] ==> !Related(requested, c)
    ensures table in idx && requested !in idx[table] && (exists c :: c in idx[table] && TierMatches(NormalizedEqual, NormalizeColName(requested), c))
            ==> r.Some? && NormalizeColName(r.value) == NormalizeColName(requested)
  {
    if table !in idx then None
    else
      var cols := idx[table];
      if requested in cols then Some(requested)
      else
        var reqNorm := NormalizeColName(requested);
        var byEqual := FirstMatch(cols, NormalizedEqual, reqNorm);
        if byEqual.Some? then byEqual
        else
          var byContainment := FirstMatch(cols, Containment, reqNorm);
          if byContainment.Some? then byContainment
          else
            PrefixTierSubsumed(cols, reqNorm);
            FirstMatch(cols, NormalizedPrefix, reqNorm)
  }

  /** A non-empty normal form that is a prefix of the other is contained in it,
      so whatever the prefix tier accepts the containment tier accepted first. */
  lemma PrefixImpliesContainment(reqNorm: string, c: string)
    requires TierMatches(NormalizedPrefix, reqNorm, c)
    ensures TierMatches(Containment, reqNorm, c)
  {
    var cn := NormalizeColName(c);
    if reqNorm <= cn {
      assert OccursAt(cn, 0, reqNorm);
      ContainsIff(cn, reqNorm);
    } else {
      assert OccursAt(reqNorm, 0, cn);
      ContainsIff(reqNorm, cn);
    }
  }

  /** The prefix tier never decides: when the containment tier finds nothing,
      neither does the prefix tier. */
  lemma PrefixTierSubsumed(cols: seq<string>, reqNorm: string)
    requires FirstMatch(cols, Containment, reqNorm).None?
    ensures FirstMatch(cols, NormalizedPrefix, reqNorm).None?
  {
    forall c | c in cols
      ensures !TierMatches(NormalizedPrefix, reqNorm, c)
    {
      if TierMatches(NormalizedPrefix, reqNorm, c) {
        PrefixImpliesContainment(reqNorm, c);
      }
    }
  }

  /** The resolver is a fixed point on its own answers: resolving a column it
      returned returns that column again. */
  lemma ResolveTwice(table: string, requested: string, idx: Index)
    requires FindBestColumnMatch(table, requested, idx).Some?
    ensures var c := FindBestColumnMatch(table, requested, idx).value;
            FindBestColumnMatch(table, c, idx) == Some(c)
  {
  }
}
module SchemaIndexExamples {
  import opened Common
  import opened Text
  import opened SchemaIndex

  /** The resolver does not repair `reading_time` into `read_time`: the
      normal forms `readingtime` and `readtime` neither contain nor prefix one
      another, and `topicid` is unrelated too. */
  lemma ReadingTimeIsNotResolved()
    ensures FindBestColumnMatch("fact", "reading_time", map["fact" := ["read_time", "topic_id"]]) == None
  {
    var cols := ["read_time", "topic_id"];
    assert "reading_time" !in cols by {
      assert "reading_time"[4] != cols[0][4] && "reading_time"[0] != cols[1][0];
    }
    NoTierAccepts(cols);
    PrefixTierSubsumed(cols, "readingtime");
  }

  lemma NoTierAccepts(cols: seq<string>)
    requires cols == ["read_time", "topic_id"]
    ensures NormalizeColName("reading_time") == "readingtime"
    ensures FirstMatch(cols, NormalizedEqual, "readingtime").None?
    ensures FirstMatch(cols, Containment, "readingtime").None?
  {
    NormReadingTime();
    NeitherTier(cols[0], "readtime");
    NeitherTier(cols[1], "topicid");
    NoneWhenNoneMatch(cols, NormalizedEqual, "readingtime");
    NoneWhenNoneMatch(cols, Containment, "readingtime");
  }

  lemma NoneWhenNoneMatch(cols: seq<string>, tier: Tier, reqNorm: string)
    requires |cols| == 2
    requires !TierMatches(tier, reqNorm, cols[0]) && !TierMatches(tier, reqNorm, cols[1])
    ensures FirstMatch(cols, tier, reqNorm).None?
  {
    assert forall c :: c in cols ==> c == cols[0] || c == cols[1];
  }

  lemma NormReadingTime()
    ensures NormalizeColName("reading_time") == "readingtime"
  {
    NormReading();
    NormUnderscoreTime();
    ReadingTimeSplit();
    NormalizeAppend("reading", "_time");
    ReadingTimeJoin();
  }

  lemma ReadingTimeJoin() ensures "reading" + "time" == "readingtime" {}

  lemma NeitherTier(c: string, cn: string)
    requires (c, cn) in {("read_time", "readtime"), ("topic_id", "topicid")}
    ensures !TierMatches(NormalizedEqual, "readingtime", c)
    ensures !TierMatches(Containment, "readingtime", c)
  {
    if c == "read_time" {
      NormReadTime();
    } else {
      NormTopicId();
    }
    NotContained("readingtime", cn);
    NotContained(cn, "readingtime");
  }

  lemma NormReading() ensures NormalizeColName("reading") == "reading" {}

  lemma NormUnderscoreTime() ensures NormalizeColName("_time") == "time" {}

  lemma ReadingTimeSplit() ensures "reading" + "_time" == "reading_time" {}

  lemma NormReadTime()
    ensures NormalizeColName("read_time") == "readtime"
  {
    NormRead();
    NormUnderscoreTime();
    ReadTimeSplit();
    NormalizeAppend("read", "_time");
    ReadTimeJoin();
  }

  lemma NormRead() ensures NormalizeColName("read") == "read" {}

  lemma ReadTimeSplit() ensures "read" + "_time" == "read_time" {}

  lemma ReadTimeJoin() ensures "read" + "time" == "readtime" {}

  lemma NormTopicId()
    ensures NormalizeColName("topic_id") == "topicid"
  {
    NormTopic();
    NormUnderscoreId();
    TopicIdSplit();
    NormalizeAppend("topic", "_id");
    TopicIdJoin();
  }

  lemma NormTopic() ensures NormalizeColName("topic") == "topic" {}

  lemma NormUnderscoreId() ensures NormalizeColName("_id") == "id" {}

  lemma TopicIdSplit() ensures "topic" + "_id" == "topic_id" {}

  lemma TopicIdJoin() ensures "topic" + "id" == "topicid" {}

  /** `p` does not occur in `s`, for the concrete pairs used above. */
  lemma NotContained(s: string, p: string)
    requires (s, p) in {("readingtime", "readtime"), ("readingtime", "topicid"),
                        ("topicid", "readingtime"), ("readtime", "readingtime")}
    ensures !Contains(s, p)
  {
    ContainsIff(s, p);
    forall j: int
      ensures !OccursAt(s, j, p)
    {
      if 0 <= j && j + |p| <= |s| {
        if p == "readtime" && j == 0 {
          assert s[j..j + |p|][4] != p[4];
        } else {
          assert s[j..j + |p|][0] != p[0];
        }
      }
    }
  }
}
