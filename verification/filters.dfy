/**
 The predefined filters for advisor results. Kotlin exposes them as closures;
 here they are a closed set of named configurations, interpreted into a
 predicate by `Accepts`.
 */
module ResultFilters {
  import opened AdvisorModel

  /** `RESULTS_WITH_VULNERABILITIES`, `RESULTS_WITH_DEFECTS` and
      `resultsWithIssues(minSeverity, capability)`; `None` stands for a null capability. */
  datatype ResultFilter =
    | ResultsWithVulnerabilities
    | ResultsWithDefects
    | ResultsWithIssues(minSeverity: Severity, capability: Option<AdvisorCapability>)

  /** `resultsWithIssues()` called with its default arguments. */
  const DefaultIssueFilter: ResultFilter := ResultsWithIssues(Hint, None)

  /** `issues.any { it.severity >= minSeverity }`. */
  function AnyIssueAtLeast(issues: seq<Issue>, minSeverity: Severity): (b: bool)
    ensures b <==> exists i | 0 <= i < |issues| :: issues[i].severity.AtLeast(minSeverity)
    decreases |issues|
  {
    if |issues| == 0 then false
    else
      var front := issues[..|issues| - 1];
      assert forall i | 0 <= i < |front| :: front[i] == issues[i];
      AnyIssueAtLeast(front, minSeverity) || issues[|issues| - 1].severity.AtLeast(minSeverity)
  }

  /** Whether `filter` lets `result` through. */
  predicate Accepts(filter: ResultFilter, result: AdvisorResult) {
    match filter
    case ResultsWithVulnerabilities => |result.vulnerabilities| > 0
    case ResultsWithDefects => |result.defects| > 0
    case ResultsWithIssues(minSeverity, capability) =>
      && (capability.None? || capability.value in result.advisor.capabilities)
      && AnyIssueAtLeast(result.summary.issues, minSeverity)
  }

  /** The filter as a function value, the shape `filterResults` takes. */
  function AsPredicate(filter: ResultFilter): AdvisorResult -> bool {
    (result: AdvisorResult) => Accepts(filter, result)
  }

  /** What each predefined filter, handed to `filterResults` as a function
      value, lets through. */
  lemma PredefinedFilters(result: AdvisorResult, minSeverity: Severity, capability: Option<AdvisorCapability>)
    ensures AsPredicate(ResultsWithVulnerabilities)(result) <==> |result.vulnerabilities| > 0
    ensures AsPredicate(ResultsWithDefects)(result) <==> |result.defects| > 0
    ensures AsPredicate(ResultsWithIssues(minSeverity, capability))(result) <==>
      && (capability.None? || capability.value in result.advisor.capabilities)
      && exists i | 0 <= i < |result.summary.issues| :: result.summary.issues[i].severity.AtLeast(minSeverity)
  {
  }

  /** HINT is the least severity, so every issue is at least HINT. */
  lemma HintIsLeast(s: Severity)
    ensures s.AtLeast(Hint)
    ensures Hint.AtLeast(s) ==> s == Hint
  {
  }

  /** With its default arguments, `resultsWithIssues` accepts exactly the
      results that have at least one issue. */
  lemma DefaultIssueFilterMeansAnyIssue(result: AdvisorResult)
    ensures Accepts(DefaultIssueFilter, result) <==> |result.summary.issues| > 0
  {
    var issues := result.summary.issues;
    if |issues| > 0 {
      HintIsLeast(issues[0].severity);
    }
  }

  /** Raising the minimum severity can only reject more results. */
  lemma {:induction false} StricterSeverityAcceptsFewer(weaker: Severity, stricter: Severity, capability: Option<AdvisorCapability>, result: AdvisorResult)
    requires stricter.AtLeast(weaker)
    requires Accepts(ResultsWithIssues(stricter, capability), result)
    ensures Accepts(ResultsWithIssues(weaker, capability), result)
  {
    var issues := result.summary.issues;
    var i :| 0 <= i < |issues| && issues[i].severity.AtLeast(stricter);
    assert issues[i].severity.AtLeast(weaker);
  }

  /** Requiring a capability can only reject more results than requiring none. */
  lemma CapabilityRestrictsAcceptance(minSeverity: Severity, capability: AdvisorCapability, result: AdvisorResult)
    ensures Accepts(ResultsWithIssues(minSeverity, Some(capability)), result)
        <==> capability in result.advisor.capabilities && Accepts(ResultsWithIssues(minSeverity, None), result)
  {
  }
}
