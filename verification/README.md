# Advisor run aggregation (OSS Review Toolkit), modelled in Dafny

This project models the result aggregation of an ORT advisor run
(`model/src/main/kotlin/AdvisorRun.kt`). An `AdvisorRun` maps every package
`Identifier` to the `AdvisorResult`s the advisors produced for it. On top of
that map the run offers pure views:

- issues per package (`getIssues`): the union of the issue lists, with packages
  that have no issues left out;
- vulnerabilities per package (`getVulnerabilities()` and
  `getVulnerabilities(pkgId)`): all advisors' vulnerabilities are flattened,
  grouped by vulnerability ID, and each group is merged into one entry whose
  references are the de-duplicated union of the group's references and whose
  other fields come from the first member with a summary or a description;
- defects per package (`getDefects`): a plain concatenation, nothing merged;
- `filterResults`: keep only the results that pass a predicate and drop
  packages left with nothing;
- the predefined filters `RESULTS_WITH_VULNERABILITIES`, `RESULTS_WITH_DEFECTS`
  and `resultsWithIssues(minSeverity, capability)`.

Files:

- `seqs.dfy` (module `Seqs`): order-preserving sequence operations that stand
  for the Kotlin collection functions used: `flatMap`, `filter`, `indexOfFirst`
  / `find`, and the insertion-ordered `LinkedHashSet` behind `mutableSetOf()`
  (`Dedup`). Every recursive definition except the searches `IndexOfFirst` and
  `IndexOf` peels the last element, so it is a left fold that visits elements
  front to back, as Kotlin does; the two searches recurse on the tail, which
  also examines elements front to back.
- `model.dfy` (module `AdvisorModel`): the records. Nullable values are `Option`.
- `merge.dfy` (module `VulnerabilityMerge`): `groupBy { it.id }` (as an ordered
  list of groups, the model of Kotlin's `LinkedHashMap`), `mergeReferences` and
  `mergeVulnerabilities`.
- `filters.dfy` (module `ResultFilters`): the predefined filters as a closed
  datatype interpreted into a predicate.
- `advisor_run.dfy` (module `AdvisorRuns`): the views on a run.
- `examples.dfy` (module `AdvisorRunExamples`): two concrete runs, worked through.

`results` is a Dafny `map`. Every view returns either a map or a list computed
from one package's list, so Kotlin's map iteration order never shows in a result.
`filterResults` takes a total, pure `AdvisorResult -> bool`, so it covers the
predefined filters (through `AsPredicate`) and every caller lambda that
terminates, does not throw and depends only on its argument.

Kotlin's `groupBy` and `mutableSetOf()` preserve insertion order, so merged
vulnerabilities and their references keep first-seen order; the model keeps
that order and proves it (`MergeVulnerabilitiesByGroup`,
`DedupKeepsFirstSeenOrder`).

## Model

| member | source | states |
|---|---|---|
| Seqs.FlatMap | model/src/main/kotlin/AdvisorRun.kt:153-154 | `flatMap` result length is the sum of the selected lists' lengths; an element is in the result exactly when some input element's selected list contains it |
| Seqs.FlatMapAppend | model/src/main/kotlin/AdvisorRun.kt:153-154 | flattening a concatenation is the concatenation of the flattenings, so every part appears verbatim and in place |
| Seqs.Filter | model/src/main/kotlin/AdvisorRun.kt:146 | `filter` keeps exactly the elements that are in the input and pass the predicate, and never lengthens the list |
| Seqs.FilterIsSubsequence | model/src/main/kotlin/AdvisorRun.kt:146 | `filter` keeps the original relative order: its result is a subsequence of the input |
| Seqs.FilterCount | model/src/main/kotlin/AdvisorRun.kt:146 | `filter` keeps every occurrence of a passing element and no occurrence of a failing one |
| Seqs.FilterIdempotent | model/src/main/kotlin/AdvisorRun.kt:146 | filtering twice with the same predicate equals filtering once |
| Seqs.FilterEmpty | model/src/main/kotlin/AdvisorRun.kt:146 | the filtered list is empty exactly when no element passes, which is when `takeIf { it.isNotEmpty() }` drops the package |
| Seqs.IndexOfFirst | model/src/main/kotlin/AdvisorRun.kt:173 | `find` picks the first element with the property; every earlier element lacks it; when none has it, none is picked |
| Seqs.Dedup | model/src/main/kotlin/AdvisorRun.kt:172-174 | collecting into `mutableSetOf()` and back to a list yields no duplicates, exactly the input's elements, and at most as many |
| Seqs.DedupIsSubsequence | model/src/main/kotlin/AdvisorRun.kt:172-174 | the de-duplicated list keeps the input's relative order |
| Seqs.DedupKeepsFirstSeenOrder | model/src/main/kotlin/AdvisorRun.kt:172-174 | the de-duplicated elements are ordered by their first occurrence in the input |
| Seqs.DedupOfDistinct | model/src/main/kotlin/AdvisorRun.kt:172-174 | de-duplicating a duplicate-free list returns it unchanged |
| Seqs.DedupAbsorb | model/src/main/kotlin/AdvisorRun.kt:172-174 | appending elements already seen leaves the de-duplicated list unchanged |
| VulnerabilityMerge.AddToGroups | model/src/main/kotlin/AdvisorRun.kt:162 | one step of `groupBy`: a new ID opens a group at the end, a known ID keeps its place and gets the entry appended, other groups are untouched |
| VulnerabilityMerge.GroupById | model/src/main/kotlin/AdvisorRun.kt:162 | the group keys are the distinct IDs in first-seen order, and each group holds exactly the entries with its ID, in their original order |
| VulnerabilityMerge.GroupsAreHomogeneous | model/src/main/kotlin/AdvisorRun.kt:162-163 | every group handed to `mergeReferences` is non-empty and all of its members carry the group's ID |
| VulnerabilityMerge.MergeReferences | model/src/main/kotlin/AdvisorRun.kt:171-175 | the merged references have no duplicates, are exactly the union of the members' references, and number at most the sum of the members' counts; all other fields come from the first member with a summary or description, or from the first member if none has either |
| VulnerabilityMerge.MergeKeepsId | model/src/main/kotlin/AdvisorRun.kt:171-175 | merging a group of entries with one ID keeps that ID |
| VulnerabilityMerge.MergeSingleton | model/src/main/kotlin/AdvisorRun.kt:171-175 | a one-element group whose references have no duplicates merges into that very vulnerability |
| VulnerabilityMerge.MergeDuplicateIsIdempotent | model/src/main/kotlin/AdvisorRun.kt:171-175 | merging a vulnerability with a copy of itself gives the same result as merging it alone |
| VulnerabilityMerge.MergeGroups | model/src/main/kotlin/AdvisorRun.kt:163 | mapping `mergeReferences` over the groups yields one vulnerability per group key, in key order |
| VulnerabilityMerge.MergeVulnerabilities | model/src/main/kotlin/AdvisorRun.kt:161-164 | the output IDs are pairwise distinct, the set of output IDs equals the set of input IDs, and the output is never longer than the input |
| VulnerabilityMerge.MergeVulnerabilitiesByGroup | model/src/main/kotlin/AdvisorRun.kt:157-164 | the output lists the distinct input IDs in first-seen order, and the entry for an ID is the merge of all input entries with that ID in their original order |
| ResultFilters.PredefinedFilters | model/src/main/kotlin/AdvisorRun.kt:78-100 | `RESULTS_WITH_VULNERABILITIES` accepts exactly the results with a vulnerability, `RESULTS_WITH_DEFECTS` exactly those with a defect, and `resultsWithIssues(minSeverity, capability)` exactly those whose advisor has the capability (when one is given) and that have an issue of at least the minimum severity |
| ResultFilters.AnyIssueAtLeast | model/src/main/kotlin/AdvisorRun.kt:97-99 | `issues.any { it.severity >= minSeverity }` holds exactly when some issue has at least the minimum severity |
| ResultFilters.HintIsLeast | model/src/main/kotlin/AdvisorRun.kt:93 | HINT, the default minimum severity, is below or equal to every severity, and only HINT is at most HINT |
| ResultFilters.DefaultIssueFilterMeansAnyIssue | model/src/main/kotlin/AdvisorRun.kt:92-100 | with its defaults (HINT, no capability) `resultsWithIssues` accepts exactly the results with a non-empty issue list |
| ResultFilters.StricterSeverityAcceptsFewer | model/src/main/kotlin/AdvisorRun.kt:97-99 | a result accepted at a higher minimum severity is also accepted at a lower one |
| ResultFilters.CapabilityRestrictsAcceptance | model/src/main/kotlin/AdvisorRun.kt:97 | requiring a capability accepts a result exactly when the advisor declares that capability and the unrestricted filter accepts it |
| AdvisorRuns.GetFindings | model/src/main/kotlin/AdvisorRun.kt:153-154 | an unknown package has no findings; otherwise the findings have the summed length of the selected lists and contain exactly what some result's selected list contains |
| AdvisorRuns.GetDefects | model/src/main/kotlin/AdvisorRun.kt:131-136 | an unknown package has no defects; otherwise the length is the sum of each result's defect count (nothing de-duplicated) and a defect appears exactly when some result reports it |
| AdvisorRuns.GetDefectsConcatenates | model/src/main/kotlin/AdvisorRun.kt:131-136 | each result's defect list appears verbatim, and in result order, inside `getDefects` |
| AdvisorRuns.GetVulnerabilitiesFor | model/src/main/kotlin/AdvisorRun.kt:124-129 | an unknown package has no vulnerabilities; otherwise the IDs are pairwise distinct, an ID appears exactly when some result for the package reports a vulnerability with it, and each entry is the merge of all advisors' entries with its ID, taken in result order |
| AdvisorRuns.ReportedIds | model/src/main/kotlin/AdvisorRun.kt:129 | an ID occurs among the flattened vulnerabilities exactly when some result reports a vulnerability with that ID |
| AdvisorRuns.GetVulnerabilities | model/src/main/kotlin/AdvisorRun.kt:115-122 | the map has exactly the keys of `results`, and its value for each key equals `getVulnerabilities(key)` |
| AdvisorRuns.CollectIssues | model/src/main/kotlin/AdvisorRun.kt:107-111 | the package's set is created exactly when some result has an issue; once created it is non-empty and holds exactly the issues of all results |
| AdvisorRuns.CollectIssuesByMembership | model/src/main/kotlin/AdvisorRun.kt:107-111 | the same facts stated over result membership instead of positions |
| AdvisorRuns.GetIssues | model/src/main/kotlin/AdvisorRun.kt:103-113 | a package is a key exactly when one of its results has a non-empty issue list; no value is empty; each value is the union of that package's results' issues |
| AdvisorRuns.FilterResults | model/src/main/kotlin/AdvisorRun.kt:138-147 | a package is kept exactly when one of its results passes; every kept list is non-empty, a subsequence of the original, made only of passing results, and equal to the original filtered |
| AdvisorRuns.FilterResultsIdempotent | model/src/main/kotlin/AdvisorRun.kt:144-147 | applying `filterResults` with the same filter to its own output changes nothing |
| AdvisorRuns.RefilterPackage | model/src/main/kotlin/AdvisorRun.kt:144-147 | a package that survived filtering survives a second filtering with the same list |
| AdvisorRuns.FilterResultsKeepsPassing | model/src/main/kotlin/AdvisorRun.kt:146 | a passing result keeps its package in the output and keeps all of its occurrences |
| AdvisorRuns.EmptyRunHasNoFindings | model/src/main/kotlin/AdvisorRun.kt:67-73 | the run with no results has no issues, no vulnerabilities, no defects and no filtered results |
| AdvisorRunExamples.MergeOfTwoReports | model/src/main/kotlin/AdvisorRun.kt:171-175 | a report with summary S1 and reference A merged with one without a summary and with references A and B gives summary S1 and references [A, B] |
| AdvisorRunExamples.TwoAdvisorsReportOneVulnerability | model/src/main/kotlin/AdvisorRun.kt:128-129 | two advisors reporting CVE-2021-1 for one package yield one vulnerability with summary S1 and references [A, B] |
| AdvisorRunExamples.DefectFilterKeepsOnlyPackagesWithDefects | model/src/main/kotlin/AdvisorRun.kt:83 | `filterResults(RESULTS_WITH_DEFECTS)` on a package with a defect and a package without keeps only the first |

## Left out

- `startTime`, `endTime`, `environment` and `config` of the run, and the
  `Instant`, `Environment` and `AdvisorConfiguration` values of `EMPTY`: no
  operation reads them. `EMPTY` is the run with an empty results map.
- The Jackson annotations (`@JsonIgnore`, `@JsonPropertyOrder`): serialisation
  metadata with no effect on the computed values.
- The internals of `Identifier`, `Issue`, `Defect`, `VulnerabilityReference`,
  `AdvisorDetails` and `AdvisorSummary`: these classes are not part of this
  model. Each is a record compared by structural equality. Only the fields the
  aggregation reads carry meaning: `severity`, `capabilities`, `issues`, and a
  vulnerability's `id`, `summary`, `description` and `references`. The other
  field lists (`Identifier`'s four coordinates, `Issue`'s source and message,
  `Defect`'s id, url and title, `VulnerabilityReference`'s url, scoring system
  and severity, `AdvisorDetails`' name) are placeholders. The proved facts hold
  for any equality on these values, but the field lists do not claim to match
  the real classes, so which Kotlin values count as equal (for example, two
  issues in the `getIssues` set) is not pinned down.
- Filters that throw, do not terminate or read mutable state: a Dafny function
  value is total and pure, so `FilterResults` and `FilterResultsIdempotent`
  assume a filter that always returns and gives the same answer for the same
  result. A Kotlin `AdvisorResultFilter` that throws propagates the exception
  out of `filterResults`, and one that depends on mutable state need not be
  idempotent.
- The order of `Severity` and the members of `AdvisorCapability`: the enum
  sources are not part of this model. The severity order is taken as HINT <
  WARNING < ERROR, which makes HINT the least element, the default of
  `resultsWithIssues`.
- The order of keys in the returned maps: Kotlin returns insertion-ordered
  maps, while Dafny maps are unordered. No view's content depends on that order.
- `mergeReferences` on an empty collection, where Kotlin's `first()` throws:
  `MergeReferences` requires a non-empty group, as its documentation demands,
  and `GroupsAreHomogeneous` proves every group built by `groupBy` is non-empty.
