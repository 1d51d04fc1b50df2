/**
 The views an advisor run derives from its results map: issues, merged
 vulnerabilities and concatenated defects per package, and the filtering of
 results by a predicate.
 */
module AdvisorRuns {
  import opened AdvisorModel
  import opened Seqs
  import opened VulnerabilityMerge
  import opened ResultFilters

  /** The selector `{ it.vulnerabilities }`. */
  function VulnerabilitiesOf(result: AdvisorResult): seq<Vulnerability> {
    result.vulnerabilities
  }

  /** The selector `{ it.defects }`. */
  function DefectsOf(result: AdvisorResult): seq<Defect> {
    result.defects
  }

  /** `results[pkgId].orEmpty()`. */
  function ResultsFor(run: AdvisorRun, pkgId: Identifier): seq<AdvisorResult> {
    if pkgId in run.results then run.results[pkgId] else []
  }

  /** `getFindings`: the findings `selector` picks from every result for the
      package, concatenated in order; nothing for an unknown package. */
  function GetFindings<T(==,!new)>(run: AdvisorRun, pkgId: Identifier, selector: AdvisorResult -> seq<T>): (r: seq<T>)
    ensures pkgId !in run.results ==> r == []
    ensures |r| == TotalLength(ResultsFor(run, pkgId), selector)
    ensures forall x :: x in r <==> exists res | res in ResultsFor(run, pkgId) :: x in selector(res)
  {
    var results := ResultsFor(run, pkgId);
    var r := FlatMap(results, selector);
    assert forall x :: x in r ==> exists res | res in results :: x in selector(res) by {
      forall x | x in r ensures exists res | res in results :: x in selector(res) {
        var i :| 0 <= i < |results| && x in selector(results[i]);
        assert results[i] in results;
      }
    }
    r
  }

  /** `getDefects(pkgId)`: every advisor's defects for the package, concatenated
      without merging, so duplicates survive and the length is the sum of the
      individual lengths. */
  function GetDefects(run: AdvisorRun, pkgId: Identifier): (r: seq<Defect>)
    ensures pkgId !in run.results ==> r == []
    ensures |r| == TotalLength(ResultsFor(run, pkgId), DefectsOf)
    ensures forall d :: d in r <==> exists res | res in ResultsFor(run, pkgId) :: d in res.defects
  {
    GetFindings(run, pkgId, DefectsOf)
  }

  /** The defects of each result appear verbatim and in place in `getDefects`. */
  lemma GetDefectsConcatenates(run: AdvisorRun, pkgId: Identifier, before: seq<AdvisorResult>, result: AdvisorResult, after: seq<AdvisorResult>)
    requires pkgId in run.results && run.results[pkgId] == before + [result] + after
    ensures GetDefects(run, pkgId) == FlatMap(before, DefectsOf) + result.defects + FlatMap(after, DefectsOf)
  {
    FlatMapAppend(before + [result], after, DefectsOf);
    FlatMapAppend(before, [result], DefectsOf);
    assert [result][..0] == [];
    assert FlatMap([result], DefectsOf) == result.defects;
  }

  /** `getVulnerabilities(pkgId)`: the package's vulnerabilities from all
      advisors, one per ID; nothing for an unknown package. */
  function GetVulnerabilitiesFor(run: AdvisorRun, pkgId: Identifier): (r: seq<Vulnerability>)
    ensures pkgId !in run.results ==> r == []
    ensures Distinct(Ids(r))
    ensures forall id :: id in Ids(r) <==> exists res, v | res in ResultsFor(run, pkgId) && v in res.vulnerabilities :: v.id == id
    ensures forall j | 0 <= j < |r| ::
      var same := Filter(FlatMap(ResultsFor(run, pkgId), VulnerabilitiesOf), HasId(r[j].id));
      |same| > 0 && r[j] == MergeReferences(same)
  {
    var all := GetFindings(run, pkgId, VulnerabilitiesOf);
    ReportedIds(ResultsFor(run, pkgId), all);
    MergeVulnerabilitiesByGroup(all);
    MergeVulnerabilities(all)
  }

  /** An ID occurs among the flattened vulnerabilities exactly when some
      result reports a vulnerability with that ID. */
  lemma ReportedIds(results: seq<AdvisorResult>, all: seq<Vulnerability>)
    requires forall v :: v in all <==> exists res | res in results :: v in VulnerabilitiesOf(res)
    ensures forall id :: id in Ids(all) <==> exists res, v | res in results && v in res.vulnerabilities :: v.id == id
  {
    forall id | id in Ids(all)
      ensures exists res, v | res in results && v in res.vulnerabilities :: v.id == id
    {
      var i :| 0 <= i < |all| && Ids(all)[i] == id;
      assert all[i] in all;
    }
    forall id, res, v | res in results && v in res.vulnerabilities && v.id == id
      ensures id in Ids(all)
    {
      assert v in VulnerabilitiesOf(res);
      assert v in all;
      var i :| 0 <= i < |all| && all[i] == v;
      assert Ids(all)[i] == id;
    }
  }

  /** `getVulnerabilities()`: the merged vulnerabilities of every package with results. */
  function GetVulnerabilities(run: AdvisorRun): (m: map<Identifier, seq<Vulnerability>>)
    ensures m.Keys == run.results.Keys
    ensures forall pkgId | pkgId in m :: m[pkgId] == GetVulnerabilitiesFor(run, pkgId)
  {
    map pkgId | pkgId in run.results :: MergeVulnerabilities(FlatMap(run.results[pkgId], VulnerabilitiesOf))
  }

  /** The inner loop of `getIssues` for one package: every result with issues
      adds them to the package's set, which `getOrPut` creates on first use;
      `None` means the set was never created. */
  function CollectIssues(results: seq<AdvisorResult>): (acc: Option<set<Issue>>)
    ensures acc.Some? <==> exists i | 0 <= i < |results| :: |results[i].summary.issues| > 0
    ensures acc.Some? ==> acc.value != {}
    ensures acc.Some? ==> forall x :: x in acc.value <==> exists i | 0 <= i < |results| :: x in results[i].summary.issues
    decreases |results|
  {
    if |results| == 0 then None
    else
      var front := results[..|results| - 1];
      var issues := results[|results| - 1].summary.issues;
      var acc := CollectIssues(front);
      assert forall i | 0 <= i < |front| :: front[i] == results[i];
      if |issues| == 0 then acc
      else
        var added := set x | x in issues;
        assert issues[0] in added;
        Some((if acc.Some? then acc.value else {}) + added)
  }

  /** `getIssues()`: for every package with at least one issue, the union of
      the issues of all its results. */
  function GetIssues(run: AdvisorRun): (m: map<Identifier, set<Issue>>)
    ensures forall pkgId :: pkgId in m <==>
      pkgId in run.results && exists res | res in run.results[pkgId] :: |res.summary.issues| > 0
    ensures forall pkgId | pkgId in m :: m[pkgId] != {}
    ensures forall pkgId, x | pkgId in m :: x in m[pkgId] <==>
      exists res | res in run.results[pkgId] :: x in res.summary.issues
  {
    forall pkgId | pkgId in run.results {
      CollectIssuesByMembership(run.results[pkgId]);
    }
    map pkgId | pkgId in run.results && CollectIssues(run.results[pkgId]).Some? ::
      CollectIssues(run.results[pkgId]).value
  }

  /** The contract of `CollectIssues` in terms of membership rather than positions. */
  lemma CollectIssuesByMembership(results: seq<AdvisorResult>)
    ensures CollectIssues(results).Some? <==> exists res | res in results :: |res.summary.issues| > 0
    ensures CollectIssues(results).Some? ==>
      forall x :: x in CollectIssues(results).value <==> exists res | res in results :: x in res.summary.issues
  {
    var acc := CollectIssues(results);
    forall res | res in results && |res.summary.issues| > 0 ensures acc.Some? {
      var i :| 0 <= i < |results| && results[i] == res;
    }
    if acc.Some? {
      var i :| 0 <= i < |results| && |results[i].summary.issues| > 0;
      assert results[i] in results;
      forall x | x in acc.value ensures exists res | res in results :: x in res.summary.issues {
        var i :| 0 <= i < |results| && x in results[i].summary.issues;
        assert results[i] in results;
      }
      forall x, res | res in results && x in res.summary.issues ensures x in acc.value {
        var i :| 0 <= i < |results| && results[i] == res;
      }
    }
  }

  /** `filterResults(filter)`: for every package, the results that pass the
      filter, in their original order; packages left without results are dropped. */
  function FilterResults(run: AdvisorRun, filter: AdvisorResult -> bool): (m: map<Identifier, seq<AdvisorResult>>)
    ensures forall pkgId :: pkgId in m <==> pkgId in run.results && exists res | res in run.results[pkgId] :: filter(res)
    ensures forall pkgId | pkgId in m ::
      && |m[pkgId]| > 0
      && IsSubsequence(m[pkgId], run.results[pkgId])
      && (forall res | res in m[pkgId] :: filter(res))
      && m[pkgId] == Filter(run.results[pkgId], filter)
  {
    forall pkgId | pkgId in run.results
      ensures |Filter(run.results[pkgId], filter)| > 0 <==> exists res | res in run.results[pkgId] :: filter(res)
      ensures IsSubsequence(Filter(run.results[pkgId], filter), run.results[pkgId])
    {
      FilterEmpty(run.results[pkgId], filter);
      FilterIsSubsequence(run.results[pkgId], filter);
    }
    map pkgId | pkgId in run.results && |Filter(run.results[pkgId], filter)| > 0 :: Filter(run.results[pkgId], filter)
  }

  /** Filtering the output of `filterResults` again with the same filter changes nothing. */
  lemma FilterResultsIdempotent(run: AdvisorRun, filter: AdvisorResult -> bool)
    ensures FilterResults(AdvisorRun(FilterResults(run, filter)), filter) == FilterResults(run, filter)
  {
    var once := FilterResults(run, filter);
    var twice := FilterResults(AdvisorRun(once), filter);
    forall pkgId | pkgId in once
      ensures pkgId in twice && twice[pkgId] == once[pkgId]
    {
      RefilterPackage(run, filter, pkgId);
    }
    forall pkgId | pkgId in twice ensures pkgId in once {
      assert pkgId in AdvisorRun(once).results;
    }
    MapsAgree(twice, once);
  }

  /** Two maps with the same keys and the same value at every key are equal. */
  lemma MapsAgree<K, V>(a: map<K, V>, b: map<K, V>)
    requires forall k | k in a :: k in b && a[k] == b[k]
    requires forall k | k in b :: k in a
    ensures a == b
  {
  }

  /** A package that survived filtering survives a second filtering unchanged. */
  lemma RefilterPackage(run: AdvisorRun, filter: AdvisorResult -> bool, pkgId: Identifier)
    requires pkgId in FilterResults(run, filter)
    ensures pkgId in FilterResults(AdvisorRun(FilterResults(run, filter)), filter)
    ensures FilterResults(AdvisorRun(FilterResults(run, filter)), filter)[pkgId] == FilterResults(run, filter)[pkgId]
  {
    var kept := FilterResults(run, filter)[pkgId];
    FilterIdempotent(run.results[pkgId], filter);
    assert kept[0] in kept && filter(kept[0]);
  }

  /** A filtered package keeps every passing result as often as it occurred. */
  lemma FilterResultsKeepsPassing(run: AdvisorRun, filter: AdvisorResult -> bool, pkgId: Identifier, res: AdvisorResult)
    requires pkgId in run.results && filter(res)
    ensures multiset(run.results[pkgId])[res] > 0 ==> pkgId in FilterResults(run, filter)
    ensures pkgId in FilterResults(run, filter) ==>
      multiset(FilterResults(run, filter)[pkgId])[res] == multiset(run.results[pkgId])[res]
  {
    FilterCount(run.results[pkgId], filter, res);
  }

  /** The empty run has no issues, vulnerabilities, defects or filtered results. */
  lemma EmptyRunHasNoFindings(pkgId: Identifier, filter: AdvisorResult -> bool)
    ensures GetIssues(EmptyRun) == map[]
    ensures GetVulnerabilities(EmptyRun) == map[]
    ensures GetVulnerabilitiesFor(EmptyRun, pkgId) == []
    ensures GetDefects(EmptyRun, pkgId) == []
    ensures FilterResults(EmptyRun, filter) == map[]
  {
  }
}
