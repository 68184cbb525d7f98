/** `multi_agent_pipeline`: the deconstructor's plan goes through the early
    exits (a deconstructor error, a schema rejection) before the planner
    writes SQL. The two model calls are inputs: the deconstructor's plan and
    the planner's reply text. */
module Pipeline {
  import opened Common
  import opened Text
  import opened LogicalPlan
  import opened Schema
  import opened PlanNormalizer
  import opened SchemaValidator
  import opened JoinBuilder
  import SqlExtraction

  const DeconstructorFailedText: string := "-- PLAN_VALIDATION_ERROR: deconstructor_failed"

  const RejectionPrefix: string := "-- PLAN_VALIDATION_ERROR: Schema validation failed -> "

  /** How a run ends. A rejection carries the validator's errors; their order
      in the returned list and in the message is the iteration order of a
      Python set, which the model leaves open. A deconstructor error carries
      the value of the `error` key, `None` for `null`. */
  datatype Outcome =
    | DeconstructorFailed(error: Option<string>)
    | SchemaRejected(errors: set<string>, plan: PlanValue)
    | Planned(sql: string, planned: Plan)
    | Raised

  /** The message of a rejection, for the errors listed in `listing`. */
  function RejectionText(listing: seq<string>): (m: string)
    ensures |RejectionPrefix| <= |m| && m[..|RejectionPrefix|] == RejectionPrefix
    ensures listing == [] ==> m == RejectionPrefix
  {
    RejectionPrefix + Join("; ", listing)
  }

  /** The plan the validator and the planner see: normalised against the
      catalog's table names when a schema is given. */
  function Prepared(decon: PlanValue, schema: Option<Catalog>): PlanValue {
    match schema
    case Some(c) => NormalizePlan(decon, TableNames(c), c)
    case None => decon
  }

  /** `"error" in decon` raises (on a number, a boolean or `null`), or holds
      on a string or a list, where `decon["error"]` then raises. */
  predicate ErrorCheckRaises(decon: PlanValue) {
    decon.Scalar? || (decon.StringOrArray? && decon.holdsError)
  }

  /** The deconstructor's object has an `error` key, whatever its value. */
  predicate HasError(decon: PlanValue) {
    decon.Object? && "error" in decon.plan.keys
  }

  /** Normalisation against the schema raises. */
  predicate PreparationRaises(decon: PlanValue, schema: Option<Catalog>) {
    schema.Some? && NormalizeRaises(decon, TableNames(schema.value), schema.value)
  }

  /** The run: the `error` check first (which raises on a value that is
      not an object and holds a member `"error"` or cannot hold one); then,
      with a schema, normalisation, which may raise, and the validator, whose
      rejection stops the run; then the planner, which adds the generated
      joins to the plan it is given (a plan that is not an object cannot take
      them, and the planner raises). */
  function RunPipeline(decon: PlanValue, schema: Option<Catalog>, reply: string): (o: Outcome)
    ensures ErrorCheckRaises(decon) ==> o == Raised
    ensures HasError(decon) ==> o == DeconstructorFailed(decon.plan.error)
    ensures o.DeconstructorFailed? <==> !ErrorCheckRaises(decon) && HasError(decon)
    ensures o.SchemaRejected? <==>
              && !ErrorCheckRaises(decon) && !HasError(decon) && !PreparationRaises(decon, schema)
              && schema.Some? && !ValidatePlan(Prepared(decon, schema), schema.value).ok
    ensures o.SchemaRejected? ==> o.errors != {}
    ensures o.Raised? <==>
              || ErrorCheckRaises(decon)
              || (!HasError(decon) && PreparationRaises(decon, schema))
              || (schema.None? && decon.StringOrArray?)
    ensures o.Planned? <==>
              && !ErrorCheckRaises(decon) && !HasError(decon) && !PreparationRaises(decon, schema)
              && Prepared(decon, schema).Object?
              && (schema.Some? ==> ValidatePlan(Prepared(decon, schema), schema.value).ok)
    ensures o.Planned? ==>
              && o.sql == SqlExtraction.PlannerSql(reply)
              && Prepared(decon, schema).Object?
              && (var p := Prepared(decon, schema).plan;
                  o.planned == p.(keys := p.keys + {"generated_joins"}, generatedJoins := Some(IntelligentJoinBuilder(p))))
  {
    if ErrorCheckRaises(decon) then Raised
    else if HasError(decon) then DeconstructorFailed(decon.plan.error)
    else if PreparationRaises(decon, schema) then Raised
    else
      var pv := Prepared(decon, schema);
      if schema.Some? && !ValidatePlan(pv, schema.value).ok then
        SchemaRejected(ValidatePlan(pv, schema.value).errors, pv)
      else if !pv.Object? then
        assert schema.None?;
        Raised
      else
        var p := pv.plan;
        Planned(SqlExtraction.PlannerSql(reply), p.(keys := p.keys + {"generated_joins"}, generatedJoins := Some(IntelligentJoinBuilder(p))))
  }

  /** The Python triple `(sql, errors, plan)` of an outcome that returns;
      `listing` is the order in which a rejection's errors come out of the
      set, each once. In the error list, `None` is Python's `None`. */
  function Reported(o: Outcome, listing: seq<string>): (r: (string, seq<Option<string>>, Option<PlanValue>))
    requires !o.Raised?
    requires o.SchemaRejected? ==> NoDuplicates(listing) && forall e :: e in listing <==> e in o.errors
    ensures o.DeconstructorFailed? ==> r == (DeconstructorFailedText, [o.error], None)
    ensures o.SchemaRejected? ==>
              && r.0 == RejectionText(listing) && r.2 == Some(o.plan)
              && |r.1| == |o.errors| && forall e :: Some(e) in r.1 <==> e in o.errors
    ensures o.SchemaRejected? ==> |r.1| == |listing| && forall k :: 0 <= k < |listing| ==> r.1[k] == Some(listing[k])
    ensures o.Planned? ==> r == (o.sql, [], Some(Object(o.planned)))
  {
    match o
    case DeconstructorFailed(e) => (DeconstructorFailedText, [e], None)
    case SchemaRejected(errs, pv) =>
      ListingSize(listing, errs);
      var items := seq(|listing|, k requires 0 <= k < |listing| => Some(listing[k]));
      assert forall e :: Some(e) in items <==> e in listing by {
        forall e ensures Some(e) in items <==> e in listing {
          if e in listing {
            var k :| 0 <= k < |listing| && listing[k] == e;
            assert items[k] == Some(e);
          }
        }
      }
      (RejectionText(listing), items, Some(pv))
    case Planned(sql, p) => (sql, [], Some(Object(p)))
  }

  /** A plan reaches the planner with a schema only after passing the
      validator, and only when the deconstructor reported no error. */
  lemma PlannedPlanPassedValidation(decon: PlanValue, c: Catalog, reply: string)
    requires RunPipeline(decon, Some(c), reply).Planned?
    ensures !HasError(decon)
    ensures decon.Object? && decon.plan.keys != {}
    ensures ValidatePlan(Prepared(decon, Some(c)), c).ok
    ensures var p := Prepared(decon, Some(c)).plan;
      TablesKnown(p, TableNames(c)) && AliasesKnown(p, TableNames(c)) && RefsValid(p, AliasToTable(p, TableNames(c)), c)
  {
    var pv := Prepared(decon, Some(c));
    assert !ErrorCheckRaises(decon) && !HasError(decon);
    assert ValidatePlan(pv, c).ok;
    assert !NotAPlan(pv);
  }

  /** Normalisation keeps the `error` key, so checking it before or after
      normalising is the same check. */
  lemma ErrorCheckUnaffectedByNormalizing(decon: PlanValue, c: Catalog)
    ensures HasError(NormalizePlan(decon, TableNames(c), c)) <==> HasError(decon)
  {
    if !NotAPlan(decon) {
      assert "error" !in NormalizedKeys;
    }
  }

  /** The joins added to a planned plan split back into the join lines for
      the aliases the plan mentions. */
  lemma PlannedJoinsAreJoinLines(decon: PlanValue, schema: Option<Catalog>, reply: string)
    requires RunPipeline(decon, schema, reply).Planned?
    ensures var o := RunPipeline(decon, schema, reply);
      var p := Prepared(decon, schema).plan;
      var g := o.planned.generatedJoins.value;
      g == "" || Split(g, '\n') == JoinLines(UsedAliases(p))
  {
  }
}

/** Worked cases of the pipeline's early exits. */
module PipelineExamples {
  import opened Common
  import opened Schema
  import opened LogicalPlan
  import opened SchemaValidator
  import opened Pipeline

  /** An object whose only key is `limit`. */
  function LimitOnly(): Plan {
    Plan({"limit"}, None, None, None, None, None, None, None, None, None, None, None, None, None, ["limit"])
  }

  /** `{"error": null}` still stops the run at the deconstructor, and the
      error list holds Python's `None`. */
  lemma NullErrorStopsRun(schema: Option<Catalog>, reply: string, listing: seq<string>)
    ensures var decon := Object(LimitOnly().(keys := {"error"}, extra := []));
            var o := RunPipeline(decon, schema, reply);
            o == DeconstructorFailed(None) && Reported(o, listing).1 == [None]
  {
  }

  /** `{"limit": 10}` is a non-empty object: it passes the validator with
      no errors and reaches the planner. */
  lemma LimitOnlyPlanIsPlanned(c: Catalog, reply: string)
    ensures RunPipeline(Object(LimitOnly()), Some(c), reply).Planned?
  {
    var pv := Prepared(Object(LimitOnly()), Some(c));
    assert pv.plan.keys != {};
    assert ValidatePlan(pv, c).ok;
  }
}
