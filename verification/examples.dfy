/**
 Worked examples of the aggregation on small concrete runs.
 */
module AdvisorRunExamples {
  import opened AdvisorModel
  import opened Seqs
  import opened VulnerabilityMerge
  import opened ResultFilters
  import opened AdvisorRuns

  const P: Identifier := Identifier("Maven", "org.example", "p", "1.0")
  const Q: Identifier := Identifier("Maven", "org.example", "q", "1.0")
  const RefA: VulnerabilityReference := VulnerabilityReference("https://example.org/a", None, None)
  const RefB: VulnerabilityReference := VulnerabilityReference("https://example.org/b", None, None)
  const Advisor: AdvisorDetails := AdvisorDetails("advisor", {Vulnerabilities, Defects})

  /** A result that reports only the given vulnerabilities and defects. */
  function Reporting(vulnerabilities: seq<Vulnerability>, defects: seq<Defect>): AdvisorResult {
    AdvisorResult(Advisor, AdvisorSummary([]), defects, vulnerabilities)
  }

  const Cve: string := "CVE-2021-1"
  const WithSummary: Vulnerability := Vulnerability(Cve, Some("S1"), None, [RefA])
  const WithoutSummary: Vulnerability := Vulnerability(Cve, None, None, [RefA, RefB])
  const TwoAdvisors: AdvisorRun :=
    AdvisorRun(map[P := [Reporting([WithSummary], []), Reporting([WithoutSummary], [])]])

  /** The two reports of CVE-2021-1 merge into one entry with the summary of
      the first and the references of both. */
  lemma MergeOfTwoReports()
    ensures MergeReferences([WithSummary, WithoutSummary]) == Vulnerability(Cve, Some("S1"), None, [RefA, RefB])
  {
    var group := [WithSummary, WithoutSummary];
    assert group[..1] == [WithSummary] && group[..1][..0] == [];
    assert FlatMap(group, ReferencesOf) == [RefA, RefA, RefB];
    var refs := [RefA, RefA, RefB];
    assert refs[..2] == [RefA, RefA] && refs[..2][..1] == [RefA] && refs[..2][..1][..0] == [];
    assert Dedup(refs) == [RefA, RefB];
    assert IndexOfFirst(group, HasText) == 0;
  }

  /** Flattening the two results lists both reports in advisor order. */
  lemma FlattenTwoAdvisors()
    ensures FlatMap(TwoAdvisors.results[P], VulnerabilitiesOf) == [WithSummary, WithoutSummary]
  {
    var results := TwoAdvisors.results[P];
    assert results[..1] == [results[0]] && results[..1][..0] == [];
  }

  /** Both reports share one ID, so `groupBy` files them under a single key. */
  lemma GroupTwoReports()
    ensures GroupById([WithSummary, WithoutSummary]) == [Group(Cve, [WithSummary, WithoutSummary])]
  {
    var vs := [WithSummary, WithoutSummary];
    assert vs[..1] == [WithSummary] && vs[..1][..0] == [];
    var first := [Group(Cve, [WithSummary])];
    assert AddToGroups([], WithSummary) == first;
    assert GroupById([WithSummary]) == first;
    assert Keys(first) == [Cve] && WithoutSummary.id in Keys(first);
    assert [WithSummary] + [WithoutSummary] == [WithSummary, WithoutSummary];
    assert AddToGroups(first, WithoutSummary) == [Group(Cve, [WithSummary, WithoutSummary])];
  }

  /** Merging the two reports yields a single entry. */
  lemma MergeTwoReportsIntoOne()
    ensures MergeVulnerabilities([WithSummary, WithoutSummary]) == [Vulnerability(Cve, Some("S1"), None, [RefA, RefB])]
  {
    var vs := [WithSummary, WithoutSummary];
    GroupTwoReports();
    GroupsAreHomogeneous(vs);
    var merged := MergeGroups([Group(Cve, vs)]);
    assert MergeVulnerabilities(vs) == merged;
    assert |merged| == 1 && merged[0] == MergeReferences(vs);
    MergeOfTwoReports();
  }

  /** Two advisors report CVE-2021-1 for the same package, one with a summary
      and reference A, the other without a summary and with references A and
      B: the package gets one vulnerability with the summary and both references. */
  lemma TwoAdvisorsReportOneVulnerability()
    ensures GetVulnerabilitiesFor(TwoAdvisors, P) == [Vulnerability(Cve, Some("S1"), None, [RefA, RefB])]
  {
    assert ResultsFor(TwoAdvisors, P) == TwoAdvisors.results[P];
    FlattenTwoAdvisors();
    MergeTwoReportsIntoOne();
  }

  /** Filtering with `RESULTS_WITH_DEFECTS` keeps the package whose result has
      a defect and drops the package whose result has none. */
  lemma DefectFilterKeepsOnlyPackagesWithDefects()
    ensures FilterResults(
      AdvisorRun(map[P := [Reporting([], [Defect("D-1", "https://example.org/d1", None)])], Q := [Reporting([], [])]]),
      AsPredicate(ResultsWithDefects)).Keys == {P}
  {
    var run := AdvisorRun(map[P := [Reporting([], [Defect("D-1", "https://example.org/d1", None)])], Q := [Reporting([], [])]]);
    var m := FilterResults(run, AsPredicate(ResultsWithDefects));
    assert run.results[P][0] in run.results[P];
    assert P in m;
    assert Q !in m;
  }
}
