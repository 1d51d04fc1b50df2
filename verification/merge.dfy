/**
 Merging the vulnerabilities that several advisors reported for one package:
 entries with the same ID are grouped (Kotlin's insertion-ordered `groupBy`)
 and every group is collapsed into one vulnerability whose references are the
 de-duplicated union of the group's references.
 */
module VulnerabilityMerge {
  import opened AdvisorModel
  import opened Seqs

  /** The IDs of `vs`, position by position. */
  function Ids(vs: seq<Vulnerability>): (ids: seq<string>)
    ensures |ids| == |vs|
    ensures forall i | 0 <= i < |vs| :: ids[i] == vs[i].id
  {
    seq(|vs|, i requires 0 <= i < |vs| => vs[i].id)
  }

  /** The references of one vulnerability, as a selector for `FlatMap`. */
  function ReferencesOf(v: Vulnerability): seq<VulnerabilityReference> {
    v.references
  }

  /** The selector `{ it.id == id }`. */
  function HasId(id: string): Vulnerability -> bool {
    (v: Vulnerability) => v.id == id
  }

  /** The selector `{ it.summary != null || it.description != null }`. */
  predicate HasText(v: Vulnerability) {
    v.summary.Some? || v.description.Some?
  }

  /** One entry of the map built by `groupBy`: a key and the values filed under it. */
  datatype Group = Group(id: string, members: seq<Vulnerability>)

  /** The keys of the groups, in insertion order. */
  function Keys(groups: seq<Group>): (keys: seq<string>)
    ensures |keys| == |groups|
    ensures forall j | 0 <= j < |groups| :: keys[j] == groups[j].id
  {
    seq(|groups|, j requires 0 <= j < |groups| => groups[j].id)
  }

  /** One step of `groupBy`: `getOrPut(v.id) { ArrayList() }.add(v)`. A new key
      goes to the end; an existing key keeps its place and gets `v` appended. */
  function AddToGroups(groups: seq<Group>, v: Vulnerability): (r: seq<Group>)
    ensures Keys(r) == if v.id in Keys(groups) then Keys(groups) else Keys(groups) + [v.id]
    ensures forall j | 0 <= j < |groups| ::
      r[j].members == if groups[j].id == v.id then groups[j].members + [v] else groups[j].members
    ensures v.id !in Keys(groups) ==> r[|groups|].members == [v]
  {
    var updated := seq(|groups|, j requires 0 <= j < |groups| =>
      if groups[j].id == v.id then groups[j].(members := groups[j].members + [v]) else groups[j]);
    if v.id in Keys(groups) then updated else updated + [Group(v.id, [v])]
  }

  /** Kotlin's `groupBy { it.id }`: the keys are the distinct IDs in first-seen
      order, and the group of a key holds exactly the entries with that ID, in
      their original order. */
  function GroupById(vs: seq<Vulnerability>): (groups: seq<Group>)
    ensures Keys(groups) == Dedup(Ids(vs))
    ensures forall j | 0 <= j < |groups| :: groups[j].members == Filter(vs, HasId(groups[j].id))
    decreases |vs|
  {
    if |vs| == 0 then []
    else
      var vs0 := vs[..|vs| - 1];
      var v := vs[|vs| - 1];
      assert vs0 + [v] == vs;
      AddToGroupsStep(GroupById(vs0), vs0, v);
      AddToGroups(GroupById(vs0), v)
  }

  /** `AddToGroups` extends a grouping of `vs0` to a grouping of `vs0 + [v]`. */
  lemma AddToGroupsStep(front: seq<Group>, vs0: seq<Vulnerability>, v: Vulnerability)
    requires Keys(front) == Dedup(Ids(vs0))
    requires forall j | 0 <= j < |front| :: front[j].members == Filter(vs0, HasId(front[j].id))
    ensures Keys(AddToGroups(front, v)) == Dedup(Ids(vs0 + [v]))
    ensures forall j | 0 <= j < |AddToGroups(front, v)| ::
      AddToGroups(front, v)[j].members == Filter(vs0 + [v], HasId(AddToGroups(front, v)[j].id))
  {
    assert Ids(vs0 + [v]) == Ids(vs0) + [v.id];
    DedupSnoc(Ids(vs0), v.id);
    var groups := AddToGroups(front, v);
    forall j | 0 <= j < |groups|
      ensures groups[j].members == Filter(vs0 + [v], HasId(groups[j].id))
    {
      AddToGroupsMember(front, vs0, v, j);
    }
  }

  /** One group of `AddToGroups(front, v)` holds the entries of `vs0 + [v]` with its ID. */
  lemma AddToGroupsMember(front: seq<Group>, vs0: seq<Vulnerability>, v: Vulnerability, j: nat)
    requires Keys(front) == Dedup(Ids(vs0))
    requires forall j | 0 <= j < |front| :: front[j].members == Filter(vs0, HasId(front[j].id))
    requires j < |AddToGroups(front, v)|
    ensures AddToGroups(front, v)[j].members == Filter(vs0 + [v], HasId(AddToGroups(front, v)[j].id))
  {
    var groups := AddToGroups(front, v);
    var id := groups[j].id;
    assert Keys(groups)[j] == id;
    FilterSnoc(vs0, v, HasId(id));
    assert HasId(id)(v) == (v.id == id);
    if j < |front| {
      assert Keys(front)[j] == id;
    } else {
      assert id == v.id && v.id !in Ids(vs0);
      FilterAbsentId(vs0, v.id);
    }
  }

  /** No entry is filed under an ID that does not occur. */
  lemma FilterAbsentId(vs: seq<Vulnerability>, id: string)
    ensures id !in Ids(vs) ==> Filter(vs, HasId(id)) == []
  {
    if id !in Ids(vs) {
      FilterEmpty(vs, HasId(id));
      forall x | x in vs ensures !HasId(id)(x) {
        var i :| 0 <= i < |vs| && vs[i] == x;
        assert Ids(vs)[i] == x.id;
      }
    }
  }

  /** A group is non-empty and all of its members carry the group's ID. */
  predicate Homogeneous(g: Group) {
    |g.members| > 0 && forall m | m in g.members :: m.id == g.id
  }

  /** The entries filed under an ID that occurs form a homogeneous group. */
  lemma FilterByIdIsHomogeneous(vs: seq<Vulnerability>, id: string)
    requires id in Ids(vs)
    ensures Homogeneous(Group(id, Filter(vs, HasId(id))))
  {
    var members := Filter(vs, HasId(id));
    var i :| 0 <= i < |vs| && Ids(vs)[i] == id;
    assert vs[i] in vs && HasId(id)(vs[i]);
    assert vs[i] in members;
    forall m | m in members ensures m.id == id {
      assert HasId(id)(m);
    }
  }

  /** Every group built by `GroupById` is homogeneous. */
  lemma GroupsAreHomogeneous(vs: seq<Vulnerability>)
    ensures forall j | 0 <= j < |GroupById(vs)| :: Homogeneous(GroupById(vs)[j])
  {
    var groups := GroupById(vs);
    forall j | 0 <= j < |groups|
      ensures Homogeneous(groups[j])
    {
      var id := groups[j].id;
      assert Keys(groups)[j] == id;
      assert id in Dedup(Ids(vs));
      FilterByIdIsHomogeneous(vs, id);
      assert groups[j] == Group(id, Filter(vs, HasId(id)));
    }
  }

  /** The vulnerability `r` takes every field except its references from
      `group[k]`, the first member with a summary or a description, or the
      first member when no member has either. */
  predicate TakesFieldsFrom(r: Vulnerability, group: seq<Vulnerability>, k: nat)
    requires k < |group|
  {
    && r == group[k].(references := r.references)
    && (forall j | 0 <= j < k :: !HasText(group[j]))
    && (HasText(group[k]) || (k == 0 && forall j | 0 <= j < |group| :: !HasText(group[j])))
  }

  /** `mergeReferences`: collapse a non-empty group into one vulnerability. */
  function MergeReferences(group: seq<Vulnerability>): (r: Vulnerability)
    requires |group| > 0
    ensures Distinct(r.references)
    ensures forall ref :: ref in r.references <==> exists i | 0 <= i < |group| :: ref in group[i].references
    ensures |r.references| <= TotalLength(group, ReferencesOf)
    ensures exists k | 0 <= k < |group| :: TakesFieldsFrom(r, group, k)
  {
    var references := Dedup(FlatMap(group, ReferencesOf));
    var found := IndexOfFirst(group, HasText);
    var k := if found < |group| then found else 0;
    var r := group[k].(references := references);
    assert TakesFieldsFrom(r, group, k);
    r
  }

  /** A group of one vulnerability whose references hold no duplicates merges
      into that very vulnerability. */
  lemma MergeSingleton(v: Vulnerability)
    requires Distinct(v.references)
    ensures MergeReferences([v]) == v
  {
    assert [v][..0] == [];
    assert FlatMap([v], ReferencesOf) == v.references;
    DedupOfDistinct(v.references);
  }

  /** Merging a homogeneous group keeps the group's ID. */
  lemma MergeKeepsId(g: Group)
    requires Homogeneous(g)
    ensures MergeReferences(g.members).id == g.id
  {
    var r := MergeReferences(g.members);
    var k :| 0 <= k < |g.members| && TakesFieldsFrom(r, g.members, k);
    assert g.members[k] in g.members;
  }

  /** Merging every group of a grouping yields one vulnerability per key. */
  function MergeGroups(groups: seq<Group>): (r: seq<Vulnerability>)
    requires forall j | 0 <= j < |groups| :: Homogeneous(groups[j])
    ensures Ids(r) == Keys(groups)
  {
    var r := seq(|groups|, j requires 0 <= j < |groups| =>
      assert Homogeneous(groups[j]); MergeReferences(groups[j].members));
    assert forall j | 0 <= j < |groups| :: r[j].id == groups[j].id by {
      forall j | 0 <= j < |groups| ensures r[j].id == groups[j].id {
        MergeKeepsId(groups[j]);
      }
    }
    r
  }

  /** Merging a vulnerability with a copy of itself is the same as merging it alone. */
  lemma MergeDuplicateIsIdempotent(v: Vulnerability)
    ensures MergeReferences([v, v]) == MergeReferences([v])
  {
    assert [v][..0] == [] && [v, v][..1] == [v];
    assert FlatMap([v], ReferencesOf) == v.references;
    assert FlatMap([v, v], ReferencesOf) == v.references + v.references;
    DedupAbsorb(v.references, v.references);
  }

  /** `mergeVulnerabilities`: one merged vulnerability per distinct input ID. */
  function MergeVulnerabilities(vs: seq<Vulnerability>): (r: seq<Vulnerability>)
    ensures Distinct(Ids(r))
    ensures forall id :: id in Ids(r) <==> id in Ids(vs)
    ensures |r| <= |vs|
  {
    GroupsAreHomogeneous(vs);
    MergeGroups(GroupById(vs))
  }

  /** The merged list has one entry per distinct input ID, in first-seen order,
      and the entry for an ID is the merge of all input entries with that ID,
      taken in their original order. */
  lemma MergeVulnerabilitiesByGroup(vs: seq<Vulnerability>)
    ensures Ids(MergeVulnerabilities(vs)) == Dedup(Ids(vs))
    ensures forall j | 0 <= j < |MergeVulnerabilities(vs)| ::
      var id := MergeVulnerabilities(vs)[j].id;
      |Filter(vs, HasId(id))| > 0 && MergeVulnerabilities(vs)[j] == MergeReferences(Filter(vs, HasId(id)))
  {
    var groups := GroupById(vs);
    var r := MergeVulnerabilities(vs);
    GroupsAreHomogeneous(vs);
    forall j | 0 <= j < |r|
      ensures |Filter(vs, HasId(r[j].id))| > 0 && r[j] == MergeReferences(Filter(vs, HasId(r[j].id)))
    {
      assert Ids(r)[j] == Keys(groups)[j];
    }
  }
}
