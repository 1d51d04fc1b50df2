/**
 The data model read by an advisor run. Only the fields the aggregation code
 reads carry meaning here; the rest of each record is reduced to a few plain
 fields that give it identity and structural equality. Timestamps, the
 execution environment and the advisor configuration are not modelled.
 */
module AdvisorModel {

  /** A nullable Kotlin value. */
  datatype Option<+T> = None | Some(value: T)

  /** The severity of an issue, ordered HINT < WARNING < ERROR as the enum
      constants' ordinals order them. */
  datatype Severity = Hint | Warning | Error {

    function Rank(): nat {
      match this
      case Hint => 0
      case Warning => 1
      case Error => 2
    }

    /** Kotlin's `this >= min` on the enum. */
    predicate AtLeast(min: Severity) {
      Rank() >= min.Rank()
    }
  }

  /** The coordinates of a package: the key of the results map. */
  datatype Identifier = Identifier(kind: string, namespace: string, name: string, version: string)

  /** A problem an advisor encountered; only the severity is read. */
  datatype Issue = Issue(source: string, message: string, severity: Severity)

  /** The kinds of finding an advisor can deliver. */
  datatype AdvisorCapability = Defects | Vulnerabilities

  /** The advisor that produced a result; only its capabilities are read. */
  datatype AdvisorDetails = AdvisorDetails(name: string, capabilities: set<AdvisorCapability>)

  /** The summary of one advisor invocation; only its issues are read. */
  datatype AdvisorSummary = AdvisorSummary(issues: seq<Issue>)

  /** A defect reported by an issue tracker; compared only for equality. */
  datatype Defect = Defect(id: string, url: string, title: Option<string>)

  /** A link to further information about a vulnerability; compared only for equality. */
  datatype VulnerabilityReference = VulnerabilityReference(url: string, scoringSystem: Option<string>, severity: Option<string>)

  /** A vulnerability as reported by one advisor. */
  datatype Vulnerability = Vulnerability(
    id: string,
    summary: Option<string>,
    description: Option<string>,
    references: seq<VulnerabilityReference>)

  /** What one advisor found for one package. */
  datatype AdvisorResult = AdvisorResult(
    advisor: AdvisorDetails,
    summary: AdvisorSummary,
    defects: seq<Defect>,
    vulnerabilities: seq<Vulnerability>)

  /** The summary of a single advisor run: the results of every advisor for every package. */
  datatype AdvisorRun = AdvisorRun(results: map<Identifier, seq<AdvisorResult>>)

  /** The run with no results. */
  const EmptyRun: AdvisorRun := AdvisorRun(map[])
}
