# NL→SQL analytics core, modelled in Dafny

The analytics service turns a question into SQL in steps. A deconstructor
model returns a logical plan, which is a JSON object with keys such as
`select_columns`, `group_by`, `aliases` and `from_tables`. The plan is then
normalised against the schema catalog, checked by a plan validator, and
passed with generated JOIN lines to a planner model. The planner's reply is
cleaned into one SQL statement. A separate SQL safety validator checks SQL
text before it reaches the warehouse. The HTTP layer pulls SQL out of model
replies, renders results for prompts, spots raw SQL or data leaking into a
summary, and gives a fixed answer when no model is available.

This project models that deterministic layer.
- The language models, the database, HTTP and logging are left out.
- Each model reply is a parameter: the deconstructor's plan is a `PlanValue`, and the planner's and corrector's replies are strings or a `Reply`.
- The catalog is an ordered sequence of tables (`Schema.Catalog`).
- Wherever Python iterates a set or a dict built from the catalog, the model takes catalog order.

Modules follow the source files.
- `analytics/nl2sql_generator.py`:
  - `SchemaIndex`: the schema index and the fuzzy column resolver.
  - `JoinBuilder`: the join builder.
  - `PlanNormalizer`: `normalize_plan`.
  - `SchemaValidator`: `schema_validation_agent`.
  - `SqlPostProcess`: `postprocess_sql`.
  - `SqlExtraction`: the planner and corrector reply extraction.
  - `Pipeline`: the early exits of `multi_agent_pipeline`.
- `analytics/sql_validate.py`:
  - `SqlScan`: small scanners, one per regular expression used.
  - `SqlValidate`: `validate_sql`.
- `analytics/analytics_api.py`: `AnalyticsApi` holds `extract_sql`, the prompt rendering, the leak detector and the fallback answer.
- Shared modules:
  - `Common`: `Option` and list helpers.
  - `Text`: Python's `strip`, `lower`, `upper`, `find`, `split` and `join` on `seq<char>`.
  - `LogicalPlan`: the plan record.

The model follows the code where it departs from its own comments or the
behaviour the authors describe:
- The prefix tier of `find_best_column_match` can never return a column that the containment tier did not already return. The comment's own example, `reading_time` against `read_time`, is not resolved at all (`SchemaIndex.PrefixTierSubsumed`, `SchemaIndexExamples.ReadingTimeIsNotResolved`).
- Column resolution is not idempotent. `aid` resolves to `a_id`, and `a_id` resolves to `a_name` (`PlanNormalizerExamples.ResolveColumnNotIdempotent`). Only the alias and table parts of normalisation are idempotent.
- The planner falls back to its sentinel when the cleaned reply has no ```` ```sql ```` block AND no `SELECT`. A fenced block inside the reply can yield SQL without any `SELECT` (`SqlExtraction.PlannerFailsIffNoSelect`).
- `extract_sql`'s first search has no word boundary before `SELECT`, so `XSELECT 1;` yields `SELECT 1;` even though the text holds no whole-word `SELECT` (`AnalyticsApi.StatementInsideWord`).
- The plan validator never reads `dimensions` or `filters` (`SchemaValidator.UncheckedFieldsIgnored`).
- `SELECT 1 ORDER BY ;` post-processes to `SELECT 1 ;`: the space before the dropped clause stays (`SqlPostProcessExamples.EmptyOrderByDropped`).

## Model

| member | source | states |
|---|---|---|
| SchemaIndex.BuildSchemaIndex | analytics/nl2sql_generator.py:46-58 | the index has exactly the catalog's table names as keys; each name maps to the columns of the last table entry with that name, in order |
| SchemaIndex.NormalizeColName | analytics/nl2sql_generator.py:60-64 | the result holds only `[a-z0-9]`, is never longer than the input, and `""` maps to `""` |
| SchemaIndex.NormalizeIdempotent | analytics/nl2sql_generator.py:60-64 | normalising a normalised name changes nothing |
| SchemaIndex.FirstMatch | analytics/nl2sql_generator.py:79-91 | a tier's result is the first column that meets that tier's test; no result iff no column meets it |
| SchemaIndex.FindBestColumnMatch | analytics/nl2sql_generator.py:66-92 | no match for a table missing from the index; the requested name itself when it is a column; any match is a column of that table; a different match is related by normalised equality or containment, and a normalised-equal column wins when one exists; no match iff no column is related |
| SchemaIndex.PrefixTierSubsumed | analytics/nl2sql_generator.py:83-91 | when the containment tier finds nothing, the prefix tier finds nothing either |
| SchemaIndex.ResolveTwice | analytics/nl2sql_generator.py:71-75 | resolving the name a lookup returned gives that name back |
| SchemaIndexExamples.ReadingTimeIsNotResolved | analytics/nl2sql_generator.py:87-92 | `reading_time` against the columns `read_time` and `topic_id` resolves to nothing |
| JoinBuilder.UsedAliases | analytics/nl2sql_generator.py:22-24 | an alias token is used iff it occurs as a whole word in the JSON text of some string of the plan (keys, values, extra keys) |
| JoinBuilder.UsedInOrder | analytics/nl2sql_generator.py:39-41 | the emitted aliases are exactly those of the fixed order that are used |
| JoinBuilder.UsedInOrderKeepsOrder | analytics/nl2sql_generator.py:39-41 | the emitted aliases are a subsequence of the fixed order, without duplicates |
| JoinBuilder.UsedDimensionsInFixedOrder | analytics/nl2sql_generator.py:39-41 | for the order `dd, da, au, dt`, the used dimensions come out in that order, each once |
| JoinBuilder.JoinLines | analytics/nl2sql_generator.py:26-43 | no lines iff `fa` is unused or at most one alias is used; otherwise one line per used dimension, in the fixed order, each the `join_map` line of that dimension, and every used dimension's line is present |
| JoinBuilder.IntelligentJoinBuilder | analytics/nl2sql_generator.py:18-43 | the result is `""` iff `fa` is unused or at most one alias is used; otherwise splitting it at newlines gives back exactly the join lines |
| JoinBuilderExamples.SomeDimensionsInFixedOrder | analytics/nl2sql_generator.py:39-41 | with `fa`, `dt` and `dd` used, the joins are `dd` then `dt` |
| JoinBuilderExamples.WordContainingAliasIsNoMention | analytics/nl2sql_generator.py:24 | `fact` does not mention `fa`, because the word boundary is missing |
| JoinBuilderExamples.FormFeedEscapeSpellsFactAlias | analytics/nl2sql_generator.py:22-24 | a string holding a form feed followed by `a` mentions `fa`, because `json.dumps` escapes it as `\f` |
| PlanNormalizer.LastComponent | analytics/nl2sql_generator.py:341 | the result is the dot-free suffix after the last `.`, or the whole text when it has no dot |
| PlanNormalizer.FirstEndingWith | analytics/nl2sql_generator.py:343-346 | the first catalog name that ends with the token, either as written or after normalisation; none iff no name does |
| PlanNormalizer.CanonicalTable | analytics/nl2sql_generator.py:337-351 | a known name is kept; otherwise the first catalog table ending with the last component, if any; otherwise the name unchanged |
| PlanNormalizer.CanonicalTableIdempotent | analytics/nl2sql_generator.py:337-351 | with the catalog's names as the known set, canonicalising twice equals canonicalising once |
| PlanNormalizer.NormalizeAliases | analytics/nl2sql_generator.py:333-352 | the alias key set is unchanged; aliases whose target is a valid table keep it; every other target becomes a catalog table or stays verbatim |
| PlanNormalizer.NormalizeAliasesIdempotent | analytics/nl2sql_generator.py:333-352 | with the catalog's names as valid tables, normalising the aliases again changes nothing |
| PlanNormalizer.NormalizeFromTables | analytics/nl2sql_generator.py:437-450 | each entry, in place and order, is canonicalised; each stays or becomes a catalog table |
| PlanNormalizer.NormalizeFromTablesIdempotent | analytics/nl2sql_generator.py:437-450 | normalising `from_tables` twice equals normalising once |
| PlanNormalizer.Scan | analytics/nl2sql_generator.py:389 | an expression splits into characters and `qualifier.column` references whose concatenation is the expression; every reference has non-empty word-character parts |
| PlanNormalizer.ScanAppend | analytics/nl2sql_generator.py:389 | no `re.sub` match crosses a character that is neither a word character nor `.`: the text before it scans as it would alone, and the rest scans on its own |
| PlanNormalizer.ScanRefFront | analytics/nl2sql_generator.py:389 | a maximal `q.col` (word runs on both sides of the dot, no word character after) is matched as exactly that reference |
| PlanNormalizer.ScanRewritesReference | analytics/nl2sql_generator.py:355-389 | every such `q.col` standing between a separating character (or the start) and a non-word character (or the end) is replaced by its resolution, and the text on either side is rewritten independently |
| PlanNormalizer.QualifierTable | analytics/nl2sql_generator.py:362-372 | a qualifier resolves to its alias target, or to the qualifier itself; failing an index entry, to the first `from_tables` entry ending with it; an alias whose target is in the index always gives that target |
| PlanNormalizer.ResolveColumn | analytics/nl2sql_generator.py:374-386 | a successful `_name` lookup for an `_id` column wins; otherwise a successful lookup of the column itself is used; only when both fail is the column kept; a column of the table is kept unless its `_name` lookup succeeds; any change is a column of the table related to the requested name |
| PlanNormalizer.ResolveExpr | analytics/nl2sql_generator.py:355-392 | the result is empty iff the expression is blank, has no surrounding white space, and is just the stripped text when there is no `.` |
| PlanNormalizer.ResolveExprRewritesReference | analytics/nl2sql_generator.py:355-392 | in the stripped expression each bounded `alias.column` becomes `alias.` plus its resolved column, the text around it rewritten on its own, and the whole stripped again |
| PlanNormalizer.ResolveExprKeepsResolved | analytics/nl2sql_generator.py:374-392 | when every reference resolves to itself, the expression is only stripped |
| PlanNormalizer.ResolveWithoutFromTables | analytics/nl2sql_generator.py:364-372 | `from_tables` matters only when some qualifier names no schema table |
| PlanNormalizer.ResolveAll | analytics/nl2sql_generator.py:408-422 | the kept entries are the non-empty resolutions of the entries; every non-blank entry's resolution is kept |
| PlanNormalizer.ResolveSelectItem | analytics/nl2sql_generator.py:396-405 | a blank item is dropped; otherwise its kind and alias are kept and its expression is resolved |
| PlanNormalizer.ResolveSelect | analytics/nl2sql_generator.py:394-406 | every kept item is the resolution of some input item, with a non-empty expression; every non-blank item's resolution is kept |
| PlanNormalizer.ResolveOrderBy | analytics/nl2sql_generator.py:425-435 | a missing, empty or list `order_by` is kept; a string becomes an ascending column; a dict with a non-blank column keeps its direction and gets the column resolved; one with a blank column becomes the empty dict |
| PlanNormalizer.NormalizePlan | analytics/nl2sql_generator.py:319-452 | anything but a non-empty object is returned unchanged; otherwise the keys gain the rewritten ones, unscanned fields are untouched, aliases and `from_tables` are canonicalised, and `select_columns`, `group_by`, `where_conditions` and `order_by` are resolved against the normalised aliases |
| PlanNormalizer.NormalizePlanKeyed | analytics/nl2sql_generator.py:352-450 | every field the normaliser writes has its key in the result's key set |
| PlanNormalizer.NormalizeTablesIdempotent | analytics/nl2sql_generator.py:333-352 | when the valid tables are the catalog's names, as in the pipeline, re-normalising leaves `aliases` unchanged |
| PlanNormalizerExamples.GroupByRefRaises | analytics/nl2sql_generator.py:362-370 | a `from_tables: null` plan raises once some group-by reference's qualifier is neither an alias nor a table |
| PlanNormalizerExamples.ResolveColumnNotIdempotent | analytics/nl2sql_generator.py:374-384 | `aid` resolves to `a_id`, which resolves again to `a_name` |
| SchemaValidator.LastTableNamed | analytics/nl2sql_generator.py:246-249 | a table name picks the last catalog entry with that name; no entry iff the name is not in the catalog |
| SchemaValidator.ValidColumns | analytics/nl2sql_generator.py:246-249 | only described (mapping) columns of the named table count, and an unknown table has none |
| SchemaValidator.MatchAtFrontGreedy | analytics/nl2sql_generator.py:271 | the regex takes the last usable dot of the leading dotted run as the split; no match at the front iff the run has no usable dot |
| SchemaValidator.FoundRefOccurs | analytics/nl2sql_generator.py:271 | every reported `qualifier.column` occurs in the expression |
| SchemaValidator.SingleReference | analytics/nl2sql_generator.py:271 | a dotted qualifier followed by `.column` yields exactly that one pair |
| SchemaValidator.AliasToTable | analytics/nl2sql_generator.py:251-266 | every bound alias names a valid table; every alias whose stripped target is valid is bound to it |
| SchemaValidator.FromErrors | analytics/nl2sql_generator.py:253-259 | each `from_tables` entry outside the catalog is reported as hallucinated, and every message names such an entry; no errors iff all are known |
| SchemaValidator.AliasErrors | analytics/nl2sql_generator.py:261-266 | each alias whose target is outside the catalog is reported, and every message names such an alias; no errors iff all targets are known |
| SchemaValidator.RefError | analytics/nl2sql_generator.py:272-281 | a bound alias is checked against its table, a table name against itself, and anything else is an undefined qualifier, each with its message |
| SchemaValidator.ExprErrors | analytics/nl2sql_generator.py:268-304 | every faulty reference in the scanned fields is reported, and every message is the complaint about one of them; no errors iff every reference there is valid |
| SchemaValidator.ValidatePlan | analytics/nl2sql_generator.py:239-306 | not-a-plan gives exactly the one fixed error; otherwise valid iff no tables, aliases or references are faulty, and the errors are exactly the table, alias and reference messages, so every fault is reported and nothing else is |
| SchemaValidator.UndefinedQualifierRejected | analytics/nl2sql_generator.py:280-283 | a select column `q.col` whose `q` is neither alias nor table makes the plan invalid, naming `q` and `col` |
| SchemaValidator.UncheckedFieldsIgnored | analytics/nl2sql_generator.py:283-304 | two non-empty plans that agree on the scanned fields get the same verdict |
| SchemaValidatorExamples.SchemaQualifiedReference | analytics/nl2sql_generator.py:271 | `dw.dim_date.date_id` is the pair `dw.dim_date`, `date_id` |
| SqlScan.Pieces | analytics/sql_validate.py:19-21 | the pieces concatenate back to the text, and every piece but the last is non-empty and ends with a `;` |
| SqlScan.StatementsOfNonBlank | analytics/sql_validate.py:19-32 | non-blank SQL has at least one statement, so taking the first never fails |
| SqlScan.TwoStatements | analytics/sql_validate.py:19-21 | two quote-free texts joined by `;` split into the two stripped statements |
| SqlScan.FirstPatternAt | analytics/sql_validate.py:6-14 | the first position where a deny-list pattern matches, or none when it matches nowhere |
| SqlScan.MultipleLimitsIff | analytics/sql_validate.py:54-55 | the "more than one" test holds iff two whole-word `limit` tokens occur at different positions |
| SqlScan.LimitMatchesDoNotOverlap | analytics/sql_validate.py:54 | two `limit` matches never overlap, so counting them is counting positions |
| SqlScan.PairAtParts | analytics/sql_validate.py:16-17 | a match is identifier, dot, identifier |
| SqlScan.PairsFrom | analytics/sql_validate.py:16-17 | every extracted pair is two identifiers spelled `x.y` in the text |
| SqlScan.SelectListAtIsPreferredMatch | analytics/sql_validate.py:68 | the scanner returns the match that the backtracking regex prefers over every other match at that position |
| SqlScan.FirstSelectList | analytics/sql_validate.py:68 | the first position with a select-list match; none when nothing matches |
| SqlScan.ClosesAheadIff | analytics/sql_validate.py:71 | the look-ahead `[^(]*\)` holds iff a `)` follows with no `(` before it |
| SqlScan.JoinTopLevelPieces | analytics/sql_validate.py:71 | the split pieces joined with `,` give back the select list |
| SqlScan.WithoutAlias | analytics/sql_validate.py:80 | an item without a trailing ` AS name` is just stripped; otherwise the alias tail is cut before stripping |
| SqlScan.GroupByAt | analytics/sql_validate.py:72 | the group list runs from after `GROUP BY` to the first `ORDER BY`, `LIMIT` or end |
| SqlValidate.KnownTables | analytics/sql_validate.py:37 | the lowered names of the catalog's tables |
| SqlValidate.ColumnsOf | analytics/sql_validate.py:38-47 | a lowered table name has the lowered columns of the last table with that lowered name; unknown names have none |
| SqlValidate.DenyErrors | analytics/sql_validate.py:49-52 | one error per matching deny-list pattern, naming its source text, and no others |
| SqlValidate.DenyErrorsEmpty | analytics/sql_validate.py:49-52 | no deny-list error iff no pattern matches |
| SqlValidate.UnknownPairIff | analytics/sql_validate.py:58-63 | a pair is unknown iff its table is a catalog table whose last entry lacks the column |
| SqlValidate.PairErrors | analytics/sql_validate.py:57-66 | one error per pair naming a known table and an unknown column; alias prefixes never err |
| SqlValidate.SelectItems | analytics/sql_validate.py:68-71 | no items iff the select-list regex matches nowhere; otherwise at least one item |
| SqlValidate.GroupItems | analytics/sql_validate.py:72-75 | no group items iff there is no `GROUP BY` match |
| SqlValidate.NonAggregated | analytics/sql_validate.py:77-82 | exactly the items without an aggregate call |
| SqlValidate.GroupByErrors | analytics/sql_validate.py:83-90 | no complaints without non-aggregated items; one "GROUP BY missing" without group items; otherwise one error per item equal to, containing or contained in no group item |
| Text.PyRepr | analytics/sql_validate.py:85-90 | the `repr` of each item the GROUP BY messages list: quoted with the quote `repr` picks, every character printable (control, separator, format, private-use and noncharacter code points escaped as `\xhh`, `\uhhhh` or `\Uhhhhhhhh`), and undoing the escapes between the quotes gives back the item |
| SqlValidate.GroupErrors | analytics/sql_validate.py:68-90 | no grouping errors iff the statement is grouping-consistent |
| SqlValidate.FindingsEmptyIffPasses | analytics/sql_validate.py:28-93 | the issue list is empty iff the statement passes every rule, stated independently |
| SqlValidate.ValidateSql | analytics/sql_validate.py:23-93 | blank SQL gives exactly "SQL is empty"; otherwise valid iff no issue, and valid iff the first statement passes every rule |
| SqlValidate.FindingsKinds | analytics/sql_validate.py:28-93 | each kind of issue comes exactly from its own rule: the statement-count, SELECT and LIMIT issues iff those rules fail, and the deny-list, unknown-column and grouping issues exactly those their checks report |
| SqlValidate.FindingsReportDenied | analytics/sql_validate.py:49-52 | a deny-list error names pattern source `s` iff a pattern with source `s` matches the lowered statement |
| SqlValidate.FindingsReportColumns | analytics/sql_validate.py:57-63 | an unknown-column error is reported iff the statement spells an unknown pair |
| SqlValidateExamples.TwoStatementsRejected | analytics/sql_validate.py:28-30 | two quote-free statements are rejected with the multiple-statements error |
| SqlValidateExamples.NonSelectRejected | analytics/sql_validate.py:32-35 | a single statement not starting with `SELECT` gets "Only SELECT statements are allowed." |
| SqlValidateExamples.LastTableOfNameWins | analytics/sql_validate.py:37-47 | of `Sales` and `sales`, the later table's columns count |
| SqlValidateExamples.CommaInsideCallKept | analytics/sql_validate.py:71 | `f(a,b),c` splits into `f(a,b)` and `c` |
| SqlValidateExamples.CountBesideGroupedItem | analytics/sql_validate.py:77-90 | `a, COUNT(*)` grouped by `a` raises nothing |
| SqlValidateExamples.UngroupedItemReported | analytics/sql_validate.py:87-90 | `a, b` grouped by `a` reports `b` |
| SqlValidateExamples.MissingGroupByListsItems | analytics/sql_validate.py:83-85 | non-aggregated items without `GROUP BY` give one error listing them |
| SqlValidateExamples.NoBreakSpaceEscaped | analytics/sql_validate.py:90 | a GROUP BY item `c`, no-break space, `d` is listed as `'c\xa0d'` |
| SqlPostProcess.DropOpeningFence | analytics/nl2sql_generator.py:462 | only a leading fence is cut, together with a `sql` tag in any case |
| SqlPostProcess.DropClosingFence | analytics/nl2sql_generator.py:463 | exactly three characters are cut iff the text ends with a fence, optionally followed by one newline |
| SqlPostProcess.DropEmptyOrderByKeeps | analytics/nl2sql_generator.py:466 | text without an empty `ORDER BY ;` is unchanged |
| SqlPostProcess.DropEmptyOrderByKeepsSemicolons | analytics/nl2sql_generator.py:466 | dropping empty `ORDER BY` clauses keeps every `;` |
| SqlPostProcess.DropDanglingOrderByKeeps | analytics/nl2sql_generator.py:467 | text without a dangling `ORDER BY` is unchanged |
| SqlPostProcess.DropDanglingOrderByKeepsSemicolons | analytics/nl2sql_generator.py:467 | dropping dangling `ORDER BY` keeps every `;` |
| SqlPostProcess.DropPlaceholderSignsKeeps | analytics/nl2sql_generator.py:470 | text without a `$x.y` placeholder is unchanged |
| SqlPostProcess.DropPlaceholderSignsOnlyDollars | analytics/nl2sql_generator.py:470 | apart from `$` signs, the text is unchanged |
| SqlPostProcess.EnsureSemicolon | analytics/nl2sql_generator.py:473-474 | the result ends with `;` and is the text or the text plus `;` |
| SqlPostProcess.CollapseSemicolons | analytics/nl2sql_generator.py:477 | no `;;` remains, and the first and last characters are kept |
| SqlPostProcess.CollapseSemicolonsIdempotent | analytics/nl2sql_generator.py:477 | collapsing twice equals collapsing once |
| SqlPostProcess.CollapseSemicolonsOnlySemicolons | analytics/nl2sql_generator.py:477 | apart from `;`, the text is unchanged |
| SqlPostProcess.PostProcessSql | analytics/nl2sql_generator.py:454-479 | empty input is returned unchanged; anything else ends with `;` and has no run of two `;` |
| SqlPostProcess.PostProcessKeepsCleanSql | analytics/nl2sql_generator.py:454-479 | SQL already in the cleaned form is a fixed point |
| SqlPostProcess.PostProcessKeepsFront | analytics/nl2sql_generator.py:459-477 | a text whose first character is not white space, a backtick, `$`, `O` or `o` keeps that first character |
| SqlPostProcessExamples.TrailingSemicolonsCollapse | analytics/nl2sql_generator.py:473-477 | a statement followed by any run of `;` comes out with exactly one |
| SqlPostProcessExamples.EmptyOrderByDropped | analytics/nl2sql_generator.py:466 | an empty `ORDER BY ;` at the end is replaced by `;` |
| SqlExtraction.FirstStatement | analytics/nl2sql_generator.py:512 | the leftmost `SELECT` with a later `;`, and the first such `;`; none iff there is no such `SELECT` |
| SqlExtraction.FirstSelect | analytics/nl2sql_generator.py:517 | the leftmost case-insensitive `SELECT`; none iff none occurs |
| SqlExtraction.FencedAtIsPreferredMatch | analytics/nl2sql_generator.py:506 | the fenced-block scanner returns the match the lazy regex prefers over every other match at that position |
| SqlExtraction.FirstFenced | analytics/nl2sql_generator.py:506 | the leftmost position with a fenced-block match; none when nothing matches |
| SqlExtraction.PlannerSourceOf | analytics/nl2sql_generator.py:505-522 | the fenced block is used iff one matches; the sentinel iff neither a block nor a `SELECT` exists; a statement span starts with `SELECT` and ends at its `;`; select-to-end is used only when no statement matches |
| SqlExtraction.PlannerSql | analytics/nl2sql_generator.py:500-522 | with no SQL source the result is the closed sentinel; every result is empty or ends with `;`, with no `;;` |
| SqlExtraction.PlannerFailsIffNoSelect | analytics/nl2sql_generator.py:505-522 | without a fenced block, the result is the sentinel iff the cleaned reply holds no `SELECT` |
| SqlExtraction.PlannerSqlKeepsSelectFront | analytics/nl2sql_generator.py:511-520 | SQL taken from a `SELECT` starts with `S` or `s` |
| SqlExtraction.SelectNotSentinel | analytics/nl2sql_generator.py:522 | SQL starting with `S` is never the sentinel |
| SqlExtraction.PlannerFailedClosed | analytics/nl2sql_generator.py:522 | the post-processed sentinel is the sentinel followed by `;` |
| SqlExtraction.CorrectorChoice | analytics/nl2sql_generator.py:594-598 | a text answer starts with `SELECT`; the `cannot_fix` object comes back iff there is no `SELECT…;` and the text does not start with `SELECT`; a found statement ends at its only `;` |
| SqlExtraction.CorrectorResult | analytics/nl2sql_generator.py:588-598 | an object reply is returned as is; a text reply gives a statement starting with `SELECT` or the `cannot_fix` object, the latter iff the cleaned text holds no statement and does not start with `SELECT` |
| SqlExtraction.StatementSpanHasOneSemicolon | analytics/nl2sql_generator.py:512 | a lazily matched statement holds exactly one `;`, at its end |
| AnalyticsApi.DropSqlFence | analytics/analytics_api.py:65 | the text changes iff it opens with a fence tagged `sql`; the cut covers the tag characters and the white space after them |
| AnalyticsApi.FirstStatementMatch | analytics/analytics_api.py:69 | the leftmost `SELECT` followed by a word boundary and a later `;`; none iff no such position |
| AnalyticsApi.FirstWholeSelect | analytics/analytics_api.py:72 | the leftmost whole-word `SELECT`; none iff none occurs |
| AnalyticsApi.ExtractFrom | analytics/analytics_api.py:69-75 | empty iff neither search matches; a non-empty result opens with a whole-word `SELECT`; a statement match gives one `SELECT…;` statement; otherwise the result holds no `;` |
| AnalyticsApi.ExtractSql | analytics/analytics_api.py:61-75 | `""` for missing or empty text; otherwise extraction from the cleaned text; a non-empty result starts with a whole-word `SELECT` |
| AnalyticsApi.StatementMatchSpan | analytics/analytics_api.py:69-71 | a match ends at the first `;` after its `SELECT`, and the span is already stripped |
| AnalyticsApi.ClosedStatementExtractsItself | analytics/analytics_api.py:61-71 | a single closed `SELECT…;` statement extracts to itself |
| AnalyticsApi.ExtractStatementIdempotent | analytics/analytics_api.py:61-75 | re-extracting an extracted statement gives it back |
| AnalyticsApi.StatementInsideWord | analytics/analytics_api.py:69-75 | `XSELECT 1;` holds no whole-word `SELECT` yet extracts to `SELECT 1;` |
| AnalyticsApi.CellText | analytics/analytics_api.py:86-94 | `None` renders as `''`; a value keeps its first 100 characters with newlines turned into spaces, and gains `...` when longer; no newline remains |
| AnalyticsApi.RowLine | analytics/analytics_api.py:87-95 | a rendered row is one line |
| AnalyticsApi.SliceLength | analytics/analytics_api.py:85 | the length of `rows[:max_rows]`, including Python's reading of a negative bound |
| AnalyticsApi.PromptLines | analytics/analytics_api.py:82-97 | the lines are `columns: …` and `rows_count: n`, then for non-empty rows `sample_rows:`, at most `max_rows` rendered rows, and `... and k more rows` iff `n > max_rows`, with `k = n - max_rows` |
| AnalyticsApi.FormatReadsBack | analytics/analytics_api.py:77-98 | splitting the text at newlines gives back the lines, and the digits after `rows_count: ` read back as the row count |
| AnalyticsApi.AnyIn | analytics/analytics_api.py:114 | true iff some listed substring occurs |
| AnalyticsApi.ContainsRawSqlOrData | analytics/analytics_api.py:109-120 | false for empty text; otherwise true iff the lowered text holds a suspect substring, the stripped lowered SQL, or the stripped lowered result text |
| AnalyticsApi.LeakSurvivesExtension | analytics/analytics_api.py:109-120 | a leaking text still leaks with anything added before or after it |
| AnalyticsApi.QueryEchoLeaks | analytics/analytics_api.py:116-117 | a text quoting the stripped SQL, as written or upper-cased, leaks |
| AnalyticsApi.LeakIgnoresCase | analytics/analytics_api.py:112-120 | upper-casing the text does not change the verdict |
| AnalyticsApi.MainValue | analytics/analytics_api.py:126-132 | there is no value iff the first row is an empty list, tuple or mapping |
| AnalyticsApi.FallbackBranches | analytics/analytics_api.py:122-137 | the no-data message iff there are no rows; the unreadable message iff the first row has no value |
| AnalyticsApi.FallbackCountReadsBack | analytics/analytics_api.py:133-134 | for a non-negative integer first value, the digits after `Có ` read back as that value |
| Pipeline.RejectionText | analytics/nl2sql_generator.py:542 | the message opens with the fixed schema-validation prefix, which is all of it when no error is listed |
| Pipeline.RunPipeline | analytics/nl2sql_generator.py:528-549 | a value that cannot hold `error` raises; an `error` key, even `null`, stops the run with its value, and only an object with an `error` key stops it there; schema rejection iff no earlier exit and the prepared plan fails the validator, with some error; the run raises iff the error check, normalisation or the planner raises; a run is planned iff no earlier exit happens, the prepared plan is an object and, with a schema, it passes the validator; a planned run returns the planner's SQL and the prepared plan with its generated joins added |
| Pipeline.Reported | analytics/nl2sql_generator.py:531-549 | the returned triple: the fixed message and `[error]` for a deconstructor error; for a rejection, the message over the listed errors, each error of the set once, and the plan; for a planned run, the SQL, no errors and the plan |
| Pipeline.PlannedPlanPassedValidation | analytics/nl2sql_generator.py:531-545 | with a schema, a planned run had no `error` key, a non-empty object, and a prepared plan whose tables, aliases and references all pass |
| Pipeline.ErrorCheckUnaffectedByNormalizing | analytics/nl2sql_generator.py:531-536 | normalising neither adds nor removes the `error` key |
| Pipeline.PlannedJoinsAreJoinLines | analytics/nl2sql_generator.py:491-492 | the generated joins of a planned plan are empty or split back into the join lines for the aliases it mentions |
| PipelineExamples.NullErrorStopsRun | analytics/nl2sql_generator.py:531-532 | `{"error": null}` ends the run at the deconstructor and reports `[None]` |
| PipelineExamples.LimitOnlyPlanIsPlanned | analytics/nl2sql_generator.py:242-243 | `{"limit": 10}` is a non-empty plan: it passes the validator and reaches the planner |

## Left out

- FirstSelect (SqlExtraction.FirstSelect): `str.upper` is ASCII-only here. Python upper-cases non-ASCII letters too, and `ß` becomes `SS`, which shifts positions. For `Straße: SELECT a FROM t`, Python's `find` returns 9 and yields `ELECT a FROM t;`, while the model yields `SELECT a FROM t;`.
- WordAt (Text.WordAt): the case-insensitive comparison of `re.IGNORECASE` and `upper()` folds only ASCII letters. Python also folds some non-ASCII letters onto ASCII ones, such as the long s `ſ` and the Kelvin sign.
- Lower (Text.Lower): `str.lower` is ASCII-only here, as is `Text.Upper`. This affects `SqlValidate`'s table and column names and the leak detector. `SchemaIndex.NormalizeColName` is not affected: it folds the Kelvin sign and the dotted capital I as Python does, and its `[a-z0-9]` filter drops every other non-ASCII letter whatever its case.
- PyRepr (Text.PyRepr): the characters `str.isprintable` rejects are modelled as fixed classes, with the format characters as of Unicode 15. Code points that are unassigned in Python's Unicode database are also escaped by Python, but the model prints them as they are, because that set depends on the Python version.
- PairAt (SqlScan.PairAt): `\w` and `\b` mean ASCII word characters here, while Python's are Unicode. Python finds the pair `café`, `x` in `café.x`; the model finds none. The same reading of `\b` applies to the deny list and the `limit` count.
- ExtractSql (AnalyticsApi.ExtractSql): the `\b` boundaries and `IGNORECASE` of its two searches, and the `[:\w-]` tag class of the fence, use the ASCII reading above.
- ContainsRawSqlOrData (AnalyticsApi.ContainsRawSqlOrData): `text.lower()` and the lowering of the SQL and result text are ASCII-only.
- SqlScan.Pieces: `sqlparse.split` is a foreign library. The model splits at every `;` outside single or double quotes and keeps the `;` with its statement. Blank pieces are dropped after stripping. Comments, dollar quoting and `BEGIN … END` blocks are not modelled.
- FallbackBranches (AnalyticsApi.FallbackBranches): the float branch of `create_fallback_response`, `int(float)`, is not modelled. A float first value falls into `OtherValue` and gets the main-value message. Any other value's `str` text is an input to `OtherValue`.
- QualifierTable (PlanNormalizer.QualifierTable): reads `from_tables: null` as an empty list. The `TypeError` that Python raises there is modelled separately by `PlanNormalizer.NormalizeRaises`, which `Pipeline.RunPipeline` turns into `Raised`. Non-string `from_tables` entries (`t.endswith` raises) are not modelled.
- RunPipeline (Pipeline.RunPipeline): when no schema is given and the deconstructor's reply is a string, the planner's `json.loads` is treated as raising. A string that parses to a JSON object would in fact go on to plan. The branch at lines 546-547 never fires, because `postprocess_sql` returns a string for any string; the model leaves it out. A falsy schema (`None` or `{}`) is `None`; any other schema is its list of tables, with a missing `tables` key read as empty.
- Reported (Pipeline.Reported): the order of `list(set(errors))` is Python's set iteration order. The model takes it as the parameter `listing`.
- LogicalPlan.Plan: a list-valued key whose value is some other JSON type is not modelled; Python would iterate a string character by character, for instance. Non-string values inside select items, `order_by` columns and alias targets are not modelled either (`str(...)` of them).
- SchemaIndex.BuildSchemaIndex: catalog columns that are neither mappings nor strings are not modelled; `build_schema_index` skips them and `validate_sql` uses their `str`. Python set iteration order is catalog order.
- AnalyticsApi.PromptLines: column names are strings; `', '.join(cols)` raises on other values, which the model does not represent. Cell values enter as the text `str` gives them.
- `query_ollama`, prompt texts, HTTP, retries and `json.loads` of replies are not modelled; the replies are inputs. `run_sql`, psycopg2, FastAPI `/ask`, YAML schema loading, `summarize_with_llm`, `_extract_text_from_ollama` and `preprocess_question` are left out as I/O or outside the deterministic core.
- `corrector_agent` in both files fails at runtime, because `query_ollama` gets `model` twice. Only its reply-extraction tail is modelled (`SqlExtraction.CorrectorResult`).
