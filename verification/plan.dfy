/** The logical plan as the deconstructor step returns it: an untrusted JSON
    value, usually an object whose every key may be missing. A missing key
    and a `null` value are both `None` in the field, and `plan.get(k) or []`
    reads either as empty; the set of keys tells them apart where the code
    does (`"error" in decon`, `not plan`). */
module LogicalPlan {
  import opened Common

  /** One entry of `select_columns`: an object `{"expr": ..., "alias": ...}`
      (a missing `expr` reads as "") or a plain string. */
  datatype SelectItem = SelectExpr(expr: string, aliasName: Option<string>) | SelectText(text: string)

  /** `order_by`: an object with a column (a missing `column` key and an empty
      one behave alike everywhere, so both are ""), a plain string, or a list. */
  datatype OrderBy =
    | OrderDict(column: string, direction: Option<string>)
    | OrderText(text: string)
    | OrderList(items: seq<string>)

  /** The plan keys the pipeline reads, with two more parts: `keys`, every
      key the object has whatever its value (a key whose value is `null` is
      in `keys` while its field is `None`), and `extra`, the keys and string
      values of the parts no step reads field by field (`limit`, `having`,
      ...), which only the join builder's text scan looks at. `filters`
      holds the string leaves of the filter entries, which likewise only
      that scan looks at. */
  datatype Plan = Plan(
    keys: set<string>,
    error: Option<string>,
    metric: Option<string>,
    metricHint: Option<string>,
    dimensions: Option<seq<string>>,
    filters: Option<seq<string>>,
    selectColumns: Option<seq<SelectItem>>,
    joins: Option<seq<string>>,
    whereConditions: Option<seq<string>>,
    groupBy: Option<seq<string>>,
    orderBy: Option<OrderBy>,
    fromTables: Option<seq<string>>,
    aliases: Option<map<string, string>>,
    generatedJoins: Option<string>,
    extra: seq<string>)

  /** A field with a value has its key in `keys`: what every plan decoded
      from JSON satisfies. */
  predicate Keyed(p: Plan) {
    && (p.error.Some? ==> "error" in p.keys)
    && (p.metric.Some? ==> "metric" in p.keys)
    && (p.metricHint.Some? ==> "metric_hint" in p.keys)
    && (p.dimensions.Some? ==> "dimensions" in p.keys)
    && (p.filters.Some? ==> "filters" in p.keys)
    && (p.selectColumns.Some? ==> "select_columns" in p.keys)
    && (p.joins.Some? ==> "joins" in p.keys)
    && (p.whereConditions.Some? ==> "where_conditions" in p.keys)
    && (p.groupBy.Some? ==> "group_by" in p.keys)
    && (p.orderBy.Some? ==> "order_by" in p.keys)
    && (p.fromTables.Some? ==> "from_tables" in p.keys)
    && (p.aliases.Some? ==> "aliases" in p.keys)
    && (p.generatedJoins.Some? ==> "generated_joins" in p.keys)
  }

  /** A deconstructor reply: a JSON object; a JSON string or array, on which
      Python's `in` tests for a substring or an element, recorded as whether
      `"error"` is one; or a number, a boolean or `null`, on which `in`
      raises. */
  datatype PlanValue = Object(plan: Plan) | StringOrArray(holdsError: bool) | Scalar

  /** `not plan or not isinstance(plan, dict)`: anything but an object with
      at least one key. */
  predicate NotAPlan(pv: PlanValue) {
    !pv.Object? || pv.plan.keys == {}
  }

  /** `plan.get(k) or []`. */
  function Items<T>(o: Option<seq<T>>): seq<T> {
    o.GetOr([])
  }

  /** `plan.get("aliases") or {}`. */
  function AliasMap(p: Plan): map<string, string> {
    p.aliases.GetOr(map[])
  }

  /** Python truthiness of the `order_by` value. */
  predicate OrderByTruthy(o: OrderBy) {
    match o
    case OrderDict(c, d) => c != "" || d.Some?
    case OrderText(t) => t != ""
    case OrderList(xs) => xs != []
  }
}
