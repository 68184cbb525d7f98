/** The schema catalog: an ordered list of tables, each an ordered list of
    columns. It is loaded once and only ever read. */
module Schema {
  import opened Text

  /** A column descriptor. The catalog normally writes `{name: description}`
      (a one-key mapping); a bare string is also tolerated by some readers. */
  datatype Column = Described(name: string, description: string) | Bare(name: string)

  datatype Table = Table(name: string, columns: seq<Column>)

  type Catalog = seq<Table>

  /** The names of all tables in the catalog. */
  function TableNames(c: Catalog): (names: set<string>)
    ensures forall t :: t in c ==> t.name in names
    ensures forall n :: n in names ==> exists t :: t in c && t.name == n
  {
    set t | t in c :: t.name
  }

  /** All column names of a table in catalog order, whatever their form. */
  function ColumnNames(cols: seq<Column>): (names: seq<string>)
    ensures |names| == |cols|
    ensures forall k :: 0 <= k < |cols| ==> names[k] == cols[k].name
  {
    seq(|cols|, k requires 0 <= k < |cols| => cols[k].name)
  }

  /** The names of the described (`{name: description}`) columns only. */
  function DescribedColumnNames(cols: seq<Column>): (names: set<string>)
    ensures forall n :: n in names <==> exists k :: 0 <= k < |cols| && cols[k].Described? && cols[k].name == n
  {
    set k | 0 <= k < |cols| && cols[k].Described? :: cols[k].name
  }

  /** Table `i` is the last one of its name: a dictionary built from the
      catalog keeps, for a repeated name, the table written last. */
  predicate IsLastOfName(c: Catalog, i: int)
    requires 0 <= i < |c|
  {
    forall j :: i < j < |c| ==> c[j].name != c[i].name
  }
}
