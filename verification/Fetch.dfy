// What one package contributes to a load (fetchPackage in internal/ingest/ingest.go, versionAt in
// internal/ingest/epochs.go and the add methods of internal/ingest/rows.go).
module Fetch {
  import opened Wrappers
  import opened Sorting
  import opened Intervals
  import opened GraphWrites
  import opened Durability
  import opened Spells
  import I = Ingest

  // Instants are nanoseconds; what is stored is whole seconds.
  const SECOND := 1_000_000_000

  function Timestamp(at: int): int {
    at / SECOND
  }

  // Where the registry knows no publish time there is None.
  datatype Release = Release(version: string, publishedAt: Option<int>, deprecated: bool)

  datatype VersionDoc = VersionDoc(
    name: string, version: string, maintainers: seq<string>, publishedBy: string, hasProvenance: bool, hasInstallScript: bool)

  datatype Dependency = Dependency(fromName: string, fromVersion: string, toName: string, requirement: string, direct: bool)

  datatype Answer<+T> = Got(value: T) | NotFound | Failed

  // The registry, as one fetch sees it.
  datatype Registry = Registry(
    timeline: Answer<seq<Release>>, doc: string -> Answer<VersionDoc>, dependencies: string -> Answer<seq<Dependency>>)

  // It answers about the version it is asked about.
  ghost predicate Faithful(reg: Registry, name: string) {
    && (forall v :: reg.doc(v).Got? ==> reg.doc(v).value.name == name && reg.doc(v).value.version == v)
    && (forall v, d :: reg.dependencies(v).Got? && d in reg.dependencies(v).value && d.direct ==>
          d.fromName == name && d.fromVersion == v)
  }

  // A '-' that no '+' comes before.
  predicate IsPrerelease(version: string) {
    exists i :: 0 <= i < |version| && version[i] == '-' && '+' !in version[..i]
  }

  predicate Eligible(r: Release, t: int) {
    r.publishedAt.Some? && r.publishedAt.value <= t && !IsPrerelease(r.version)
  }

  // The latest eligible release, the first of them where several tie.
  ghost predicate CurrentAt(releases: seq<Release>, t: int, i: int) {
    && 0 <= i < |releases|
    && Eligible(releases[i], t)
    && (forall j :: 0 <= j < |releases| && Eligible(releases[j], t) ==>
          releases[j].publishedAt.value <= releases[i].publishedAt.value)
    && (forall j :: 0 <= j < i && Eligible(releases[j], t) ==>
          releases[j].publishedAt.value < releases[i].publishedAt.value)
  }

  method VersionAt(releases: seq<Release>, t: int) returns (best: Option<Release>, ghost at: int)
    ensures best.Some? ==> CurrentAt(releases, t, at) && releases[at] == best.value
    ensures best.None? ==> forall j :: 0 <= j < |releases| ==> !Eligible(releases[j], t)
  {
    best, at := None, 0;
    for k := 0 to |releases|
      invariant best.Some? ==> CurrentAt(releases[..k], t, at) && releases[at] == best.value
      invariant best.None? ==> forall j :: 0 <= j < k ==> !Eligible(releases[j], t)
    {
      var r := releases[k];
      if r.publishedAt.None? || r.publishedAt.value > t || IsPrerelease(r.version) {
        continue;
      }
      if best.None? || r.publishedAt.value > best.value.publishedAt.value {
        best, at := Some(r), k;
      }
    }
    assert releases[..|releases|] == releases;
  }

  // Releases current at two sampling instants are the same one or were published on either side of
  // the earlier instant.
  lemma CurrentReleasesStraddle(releases: seq<Release>, t: int, i: int, u: int, j: int)
    requires CurrentAt(releases, t, i) && CurrentAt(releases, u, j) && t <= u && i != j
    ensures releases[i].publishedAt.value <= t < releases[j].publishedAt.value
  {
  }

  ghost predicate CurrentAtSome(releases: seq<Release>, epochs: seq<int>, s: Release) {
    exists e, i :: e in epochs && CurrentAt(releases, e, i) && releases[i] == s
  }

  ghost predicate SampledOnce(releases: seq<Release>, epochs: seq<int>, sampled: seq<Release>) {
    && (forall s :: s in sampled ==> CurrentAtSome(releases, epochs, s))
    && (forall a, b :: 0 <= a < b < |sampled| ==> sampled[a].version != sampled[b].version)
  }

  lemma SampledOneMore(releases: seq<Release>, epochs: seq<int>, sampled: seq<Release>, k: nat, at: int)
    requires SampledOnce(releases, epochs, sampled) && k < |epochs| && CurrentAt(releases, epochs[k], at)
    requires forall s :: s in sampled ==> s.version != releases[at].version
    ensures SampledOnce(releases, epochs, sampled + [releases[at]])
    ensures forall s :: s in sampled + [releases[at]] <==> s in sampled || s == releases[at]
  {
  }

  method Sample(releases: seq<Release>, epochs: seq<int>) returns (sampled: seq<Release>)
    ensures SampledOnce(releases, epochs, sampled)
    ensures forall e, i :: e in epochs && CurrentAt(releases, e, i) ==>
      exists s :: s in sampled && s.version == releases[i].version
  {
    sampled := [];
    var seen: set<string> := {};
    for k := 0 to |epochs|
      invariant forall v :: v in seen <==> exists s :: s in sampled && s.version == v
      invariant SampledOnce(releases, epochs, sampled)
      invariant forall e, i :: e in epochs[..k] && CurrentAt(releases, e, i) ==> releases[i].version in seen
    {
      var rel, at := VersionAt(releases, epochs[k]);
      if rel.None? || rel.value.version in seen {
        continue;
      }
      seen := seen + {rel.value.version};
      SampledOneMore(releases, epochs, sampled, k, at);
      sampled := sampled + [rel.value];
    }
    assert epochs[..|epochs|] == epochs;
  }

  // ---- rows

  function Stored(r: Release): int {
    match r.publishedAt
    case None => 0
    case Some(at) => Timestamp(at)
  }

  function ReleaseRows(name: string, r: Release): I.Rows {
    if r.publishedAt.None? then I.NO_ROWS
    else I.NO_ROWS.(versions := [VersionRow(name, r.version, Stored(r), r.deprecated)],
                    hasVersion := [HasVersionRow(name, r.version, Stored(r))])
  }

  function TimelineRows(name: string, rank: int, releases: seq<Release>): I.Rows {
    if releases == [] then I.NO_ROWS.(packages := [PackageRow(name, rank)])
    else TimelineRows(name, rank, releases[..|releases| - 1]).Append(ReleaseRows(name, releases[|releases| - 1]))
  }

  function DocRows(d: VersionDoc, at: int): I.Rows {
    I.NO_ROWS.(annotations := [AnnotationRow(d.name, d.version, d.publishedBy, d.hasProvenance, d.hasInstallScript)],
               sampled := [SampledRow(d.name, d.version, at)])
  }

  function DependencyRow(d: Dependency): I.Rows {
    I.NO_ROWS.(dependsOn := [DependsOnRow(d.fromName, d.fromVersion, d.toName, d.requirement, d.direct)],
               references := [ReferenceRow(d.toName)])
  }

  // Only the version's own declarations; the rest of its closure arrives with their own packages.
  function DependencyRows(declared: seq<Dependency>): I.Rows {
    if declared == [] then I.NO_ROWS
    else
      var rest := DependencyRows(declared[..|declared| - 1]);
      var d := declared[|declared| - 1];
      if d.direct then
        rest.Append(DependencyRow(d))
      else rest
  }

  function LinkOf(d: Dependency): Row {
    DependsOnRow(d.fromName, d.fromVersion, d.toName, d.requirement, d.direct)
  }

  lemma {:induction false} InDependencyRows(declared: seq<Dependency>, row: Row)
    ensures row in DependencyRows(declared).dependsOn <==> exists d :: d in declared && d.direct && row == LinkOf(d)
  {
    if declared != [] {
      var n := |declared| - 1;
      InDependencyRows(declared[..n], row);
      assert forall d :: d in declared <==> d in declared[..n] || d == declared[n];
    }
  }

  // Two direct declarations of one version that name one target and ask different things of it.
  ghost predicate AskDifferently(d: Dependency, e: Dependency) {
    d.fromName == e.fromName && d.fromVersion == e.fromVersion && d.toName == e.toName && d.requirement != e.requirement
  }

  ghost predicate Quarrel(declared: seq<Dependency>) {
    exists d, e :: d in declared && e in declared && d.direct && e.direct && AskDifferently(d, e)
  }

  ghost predicate LinksOf(declared: seq<Dependency>, links: seq<Row>) {
    forall row :: row in links <==> exists d :: d in declared && d.direct && row == LinkOf(d)
  }

  lemma LinksQuarrel(d: Dependency, e: Dependency)
    requires d.direct && e.direct
    ensures AskDifferently(d, e) <==> LinkOf(d) != LinkOf(e) && I.SubjectOf(LinkOf(d)) == I.SubjectOf(LinkOf(e))
  {
  }

  lemma QuarrelIsTold(declared: seq<Dependency>, links: seq<Row>)
    requires LinksOf(declared, links)
    ensures Quarrel(declared) <==> !I.ToldApart(I.SubjectOf, links)
  {
    if Quarrel(declared) {
      var d, e :| d in declared && e in declared && d.direct && e.direct && AskDifferently(d, e);
      LinksQuarrel(d, e);
      assert LinkOf(d) in links && LinkOf(e) in links;
    }
    if !I.ToldApart(I.SubjectOf, links) {
      var a, b :| a in links && b in links && I.SubjectOf(a) == I.SubjectOf(b) && a != b;
      var d :| d in declared && d.direct && a == LinkOf(d);
      var e :| e in declared && e.direct && b == LinkOf(e);
      LinksQuarrel(d, e);
    }
  }

  // A declared range is lost between the registry and the graph exactly when two quarrel: the edge is
  // keyed by its ends, and the first row is the one kept.
  lemma DeclarationsSurviveIff(declared: seq<Dependency>)
    ensures var links := DependencyRows(declared).dependsOn;
      (forall d :: d in declared && d.direct ==> LinkOf(d) in I.FirstOfEach(links)) <==> !Quarrel(declared)
  {
    var links := DependencyRows(declared).dependsOn;
    forall row ensures row in links <==> exists d :: d in declared && d.direct && row == LinkOf(d) {
      InDependencyRows(declared, row);
    }
    QuarrelIsTold(declared, links);
    I.AllKeptIffToldApart(I.SubjectOf, links);
    Reworded(declared, links, I.FirstOfEach(links));
  }

  lemma Reworded(declared: seq<Dependency>, links: seq<Row>, kept: seq<Row>)
    requires LinksOf(declared, links)
    ensures (forall row :: row in links ==> row in kept) <==> (forall d :: d in declared && d.direct ==> LinkOf(d) in kept)
  {
    forall d | d in declared && d.direct ensures LinkOf(d) in links {
    }
  }

  // One element holds one range, so of two that quarrel the graph has at most one.
  lemma OneRangeIsWritten(g: Graph, d: Dependency, e: Dependency)
    requires AskDifferently(d, e) && Written(g, LinkOf(d))
    ensures !Written(g, LinkOf(e))
  {
    assert LinkOf(d).Assigned()[RangeText] != LinkOf(e).Assigned()[RangeText];
  }

  // As when one version depends on one package under two names.
  lemma SecondRangeIsLost(name: string, version: string, target: string, first: string, second: string)
    requires first != second
    ensures var declared := [Dependency(name, version, target, first, true), Dependency(name, version, target, second, true)];
      var links := DependencyRows(declared).dependsOn;
      && LinkOf(declared[0]) in I.FirstOfEach(links)
      && LinkOf(declared[1]) in links && LinkOf(declared[1]) !in I.FirstOfEach(links)
  {
    var one, two := Dependency(name, version, target, first, true), Dependency(name, version, target, second, true);
    TwoLinks(one, two);
    OnlyTheFirst(LinkOf(one), LinkOf(two));
  }

  lemma TwoLinks(one: Dependency, two: Dependency)
    requires one.direct && two.direct
    ensures DependencyRows([one, two]).dependsOn == [LinkOf(one), LinkOf(two)]
  {
    var declared := [one, two];
    assert declared[..1] == [one] && [one][..0] == [];
    assert DependencyRows([]).dependsOn == [];
    assert DependencyRows([one]).dependsOn == [] + [LinkOf(one)];
  }

  lemma OnlyTheFirst(one: Row, two: Row)
    requires one.Subject() == two.Subject()
    ensures I.FirstOfEach([one, two]) == [one]
  {
    var links := [one, two];
    I.FirstByOneMore(I.SubjectOf, links, 0);
    I.FirstByOneMore(I.SubjectOf, links, 1);
    assert links[..0] == [] && links[..1] == [one] && links[..2] == links;
    assert I.SeenBy(I.SubjectOf, links[..1], I.SubjectOf(two)) by {
      assert I.SubjectOf(links[..1][0]) == I.SubjectOf(two);
    }
  }

  function SampleRows(reg: Registry, deps: bool, r: Release): I.Rows {
    match reg.doc(r.version)
    case Got(d) =>
      DocRows(d, Stored(r)).Append(
        if deps && reg.dependencies(r.version).Got? then DependencyRows(reg.dependencies(r.version).value) else I.NO_ROWS)
    case _ => I.NO_ROWS
  }

  function SampledRows(reg: Registry, deps: bool, sampled: seq<Release>): I.Rows {
    if sampled == [] then I.NO_ROWS
    else SampledRows(reg, deps, sampled[..|sampled| - 1]).Append(SampleRows(reg, deps, sampled[|sampled| - 1]))
  }

  // What the sampled versions declare, as far as it was read.
  function Declared(reg: Registry, deps: bool, sampled: seq<Release>): seq<Dependency> {
    if sampled == [] then []
    else Declared(reg, deps, sampled[..|sampled| - 1]) + DeclaredBy(reg, deps, sampled[|sampled| - 1])
  }

  function DeclaredBy(reg: Registry, deps: bool, r: Release): seq<Dependency> {
    if deps && reg.doc(r.version).Got? && reg.dependencies(r.version).Got? then reg.dependencies(r.version).value else []
  }

  lemma {:induction false} InSampledLinks(reg: Registry, deps: bool, sampled: seq<Release>, row: Row)
    ensures row in SampledRows(reg, deps, sampled).dependsOn <==>
      exists d :: d in Declared(reg, deps, sampled) && d.direct && row == LinkOf(d)
  {
    if sampled != [] {
      var n := |sampled| - 1;
      InSampledLinks(reg, deps, sampled[..n], row);
      InDependencyRows(DeclaredBy(reg, deps, sampled[n]), row);
      LinksOfOne(reg, deps, sampled[n]);
    }
  }

  lemma LinksOfOne(reg: Registry, deps: bool, r: Release)
    ensures SampleRows(reg, deps, r).dependsOn == DependencyRows(DeclaredBy(reg, deps, r)).dependsOn
  {
  }

  lemma {:induction false} TimelineDeclaresNothing(name: string, rank: int, releases: seq<Release>)
    ensures TimelineRows(name, rank, releases).dependsOn == []
  {
    if releases != [] {
      TimelineDeclaresNothing(name, rank, releases[..|releases| - 1]);
    }
  }

  lemma PackageLinks(reg: Registry, deps: bool, sampled: seq<Release>, name: string, rank: int, releases: seq<Release>,
      accounts: I.Rows)
    requires accounts.dependsOn == []
    ensures LinksOf(Declared(reg, deps, sampled),
              TimelineRows(name, rank, releases).Append(SampledRows(reg, deps, sampled)).Append(accounts).dependsOn)
  {
    var links := TimelineRows(name, rank, releases).Append(SampledRows(reg, deps, sampled)).Append(accounts).dependsOn;
    TimelineDeclaresNothing(name, rank, releases);
    assert links == SampledRows(reg, deps, sampled).dependsOn;
    forall row ensures row in links <==> exists d :: d in Declared(reg, deps, sampled) && d.direct && row == LinkOf(d) {
      InSampledLinks(reg, deps, sampled, row);
    }
  }

  // End to end: once the package is recorded, every direct dependency its sampled versions declare is in
  // the graph with its own range, if and only if no two of one version quarrel.
  lemma DeclarationsReachGraphIff(reg: Registry, deps: bool, sampled: seq<Release>, name: string, rank: int, releases: seq<Release>,
      accounts: I.Rows, fetched: I.Fetched, g: Graph, base: Graph, lines: seq<string>)
    requires name in fetched && name in lines && accounts.dependsOn == []
    requires fetched[name] == TimelineRows(name, rank, releases).Append(SampledRows(reg, deps, sampled)).Append(accounts)
    requires Durable(g, base, lines, I.ScriptsOf(fetched))
    ensures (forall d :: d in Declared(reg, deps, sampled) && d.direct ==> Written(g, LinkOf(d)))
       <==> !Quarrel(Declared(reg, deps, sampled))
  {
    var declared, links := Declared(reg, deps, sampled), fetched[name].dependsOn;
    PackageLinks(reg, deps, sampled, name, rank, releases, accounts);
    if Quarrel(declared) {
      var d, e :| d in declared && e in declared && d.direct && e.direct && AskDifferently(d, e);
      if Written(g, LinkOf(d)) {
        OneRangeIsWritten(g, d, e);
      }
    } else {
      QuarrelIsTold(declared, links);
      I.AllKeptIffToldApart(I.SubjectOf, links);
      I.RecordedLinksLand(g, base, lines, fetched, name);
      forall d | d in declared && d.direct ensures Written(g, LinkOf(d)) {
        assert LinkOf(d) in links;
      }
    }
  }

  function Observations(reg: Registry, sampled: seq<Release>): seq<Observation> {
    if sampled == [] then []
    else
      var r := sampled[|sampled| - 1];
      Observations(reg, sampled[..|sampled| - 1]) +
      match reg.doc(r.version) {
        case Got(d) => [Observation(Stored(r), d.maintainers)]
        case _ => []
      }
  }

  predicate Unreadable(reg: Registry, deps: bool, r: Release) {
    reg.doc(r.version).Failed? || (deps && reg.doc(r.version).Got? && reg.dependencies(r.version).Failed?)
  }

  // The accounts seen, and a link for each of their spells.
  ghost predicate AccountRows(name: string, sorted: seq<Observation>, rows: I.Rows) {
    && rows == I.NO_ROWS.(maintainers := rows.maintainers, maintains := rows.maintains)
    && (forall i :: 0 <= i < |rows.maintainers| ==> rows.maintainers[i].MaintainerRow?)
    && (forall h :: MaintainerRow(h) in rows.maintainers <==> Listed(sorted, h))
    && (forall i :: 0 <= i < |rows.maintains| ==> rows.maintains[i].MaintainsRow? && rows.maintains[i].name == name)
    && (forall h, s: Spell :: MaintainsRow(h, name, s.from, s.to, s.observed) in rows.maintains <==> s in HistoryOf(sorted, h).All())
  }

  ghost predicate Listed(obs: seq<Observation>, handle: string) {
    exists i :: 0 <= i < |obs| && handle in obs[i].maintainers
  }

  lemma {:induction false} SpellsNeedListings(obs: seq<Observation>, handle: string)
    requires HistoryOf(obs, handle).All() != []
    ensures Listed(obs, handle)
  {
    var n := |obs| - 1;
    if handle !in obs[n].maintainers {
      SpellsNeedListings(obs[..n], handle);
      var i :| 0 <= i < n && handle in obs[..n][i].maintainers;
      assert handle in obs[i].maintainers;
    }
  }

  // ---- every link's endpoints come with it

  ghost predicate WellPlaced(name: string, rows: I.Rows) {
    && I.Typed(rows)
    && forall k, i :: 0 <= k < I.LISTS && 0 <= i < |rows.Lists()[k]| ==> I.About(name, rows.Lists()[k][i])
  }

  ghost predicate LinksMet(rows: I.Rows, nodes: I.Rows) {
    forall k, i, j :: I.FIRST_LINK_LIST <= k < I.LISTS && 0 <= i < |rows.Lists()[k]| && 0 <= j < |rows.Lists()[k][i].Ends()| ==>
      I.NodeIn(nodes, rows.Lists()[k][i].Ends()[j])
  }

  lemma NodesAppend(a: I.Rows, b: I.Rows, end: (Element, Label))
    ensures I.NodeIn(a, end) || I.NodeIn(b, end) ==> I.NodeIn(a.Append(b), end)
  {
    I.AppendLists(a, b);
    if I.NodeIn(a, end) {
      var k, i :| 0 <= k < I.FIRST_LINK_LIST && 0 <= i < |a.Lists()[k]|
        && a.Lists()[k][i].Subject() == end.0 && a.Lists()[k][i].Tag() == end.1;
      assert a.Append(b).Lists()[k][i] == a.Lists()[k][i];
    } else if I.NodeIn(b, end) {
      var k, i :| 0 <= k < I.FIRST_LINK_LIST && 0 <= i < |b.Lists()[k]|
        && b.Lists()[k][i].Subject() == end.0 && b.Lists()[k][i].Tag() == end.1;
      assert a.Append(b).Lists()[k][|a.Lists()[k]| + i] == b.Lists()[k][i];
    }
  }

  lemma AppendContribution(name: string, a: I.Rows, b: I.Rows)
    requires I.Contribution(name, a) && WellPlaced(name, b) && LinksMet(b, a.Append(b))
    ensures I.Contribution(name, a.Append(b))
  {
    var both := a.Append(b);
    I.AppendLists(a, b);
    forall k, i, j | I.FIRST_LINK_LIST <= k < I.LISTS && 0 <= i < |both.Lists()[k]| && 0 <= j < |both.Lists()[k][i].Ends()|
      ensures I.NodeIn(both, both.Lists()[k][i].Ends()[j])
    {
      if i < |a.Lists()[k]| {
        NodesAppend(a, b, a.Lists()[k][i].Ends()[j]);
      }
    }
  }

  ghost predicate Places(name: string, rows: I.Rows) {
    I.Contribution(name, rows) && I.NodeIn(rows, (PackageNode(name), Package))
  }

  lemma NodeOf(rows: I.Rows, k: nat, i: nat)
    requires k < I.FIRST_LINK_LIST && i < |rows.Lists()[k]|
    ensures I.NodeIn(rows, (rows.Lists()[k][i].Subject(), rows.Lists()[k][i].Tag()))
  {
  }

  // One more group of rows, whose links end at nodes the package has by then, keeps it a contribution.
  lemma Placed(name: string, a: I.Rows, b: I.Rows)
    requires Places(name, a) && WellPlaced(name, b) && LinksMet(b, a.Append(b))
    ensures Places(name, a.Append(b))
  {
    AppendContribution(name, a, b);
    NodesAppend(a, b, (PackageNode(name), Package));
  }

  lemma ReleasePlaced(name: string, a: I.Rows, r: Release)
    requires Places(name, a)
    ensures Places(name, a.Append(ReleaseRows(name, r)))
  {
    var b := ReleaseRows(name, r);
    NodesAppend(a, b, (PackageNode(name), Package));
    if r.publishedAt.Some? {
      NodeOf(b, 2, 0);
      NodesAppend(a, b, (VersionNode(name, r.version), Version));
    }
    ReleaseRowsMet(name, r, a.Append(b));
    Placed(name, a, b);
  }

  lemma ReleaseRowsMet(name: string, r: Release, nodes: I.Rows)
    requires I.NodeIn(nodes, (PackageNode(name), Package))
    requires r.publishedAt.Some? ==> I.NodeIn(nodes, (VersionNode(name, r.version), Version))
    ensures WellPlaced(name, ReleaseRows(name, r)) && LinksMet(ReleaseRows(name, r), nodes)
  {
  }

  lemma {:induction false} TimelinePlaced(name: string, rank: int, releases: seq<Release>)
    ensures Places(name, TimelineRows(name, rank, releases))
  {
    if releases == [] {
      NodeOf(TimelineRows(name, rank, releases), 0, 0);
    } else {
      var n := |releases| - 1;
      TimelinePlaced(name, rank, releases[..n]);
      ReleasePlaced(name, TimelineRows(name, rank, releases[..n]), releases[n]);
    }
  }

  lemma DocPlaced(name: string, a: I.Rows, d: VersionDoc, at: int)
    requires Places(name, a) && d.name == name
    ensures Places(name, a.Append(DocRows(d, at)))
    ensures I.NodeIn(a.Append(DocRows(d, at)), (VersionNode(name, d.version), Version))
  {
    var b := DocRows(d, at);
    NodesAppend(a, b, (PackageNode(name), Package));
    NodeOf(b, 4, 0);
    NodesAppend(a, b, (VersionNode(name, d.version), Version));
    DocRowsMet(name, d, at, a.Append(b));
    Placed(name, a, b);
  }

  lemma DocRowsMet(name: string, d: VersionDoc, at: int, nodes: I.Rows)
    requires d.name == name
    requires I.NodeIn(nodes, (PackageNode(name), Package)) && I.NodeIn(nodes, (VersionNode(name, d.version), Version))
    ensures WellPlaced(name, DocRows(d, at)) && LinksMet(DocRows(d, at), nodes)
  {
  }

  lemma DependencyPlaced(name: string, version: string, a: I.Rows, d: Dependency)
    requires Places(name, a) && I.NodeIn(a, (VersionNode(name, version), Version))
    requires d.fromName == name && d.fromVersion == version
    ensures Places(name, a.Append(DependencyRow(d)))
    ensures I.NodeIn(a.Append(DependencyRow(d)), (VersionNode(name, version), Version))
  {
    var b := DependencyRow(d);
    NodesAppend(a, b, (VersionNode(name, version), Version));
    NodeOf(b, 1, 0);
    NodesAppend(a, b, (PackageNode(d.toName), Package));
    DependencyRowMet(name, d, a.Append(b));
    Placed(name, a, b);
  }

  lemma DependencyRowMet(name: string, d: Dependency, nodes: I.Rows)
    requires d.fromName == name
    requires I.NodeIn(nodes, (VersionNode(name, d.fromVersion), Version)) && I.NodeIn(nodes, (PackageNode(d.toName), Package))
    ensures WellPlaced(name, DependencyRow(d)) && LinksMet(DependencyRow(d), nodes)
  {
  }

  lemma AppendAssociates(a: I.Rows, b: I.Rows, c: I.Rows)
    ensures a.Append(b.Append(c)) == a.Append(b).Append(c)
    ensures a.Append(I.NO_ROWS) == a
  {
  }

  lemma {:induction false} DependenciesPlaced(name: string, version: string, a: I.Rows, declared: seq<Dependency>)
    requires Places(name, a) && I.NodeIn(a, (VersionNode(name, version), Version))
    requires forall d :: d in declared && d.direct ==> d.fromName == name && d.fromVersion == version
    ensures Places(name, a.Append(DependencyRows(declared)))
    ensures I.NodeIn(a.Append(DependencyRows(declared)), (VersionNode(name, version), Version))
  {
    if declared == [] {
      AppendAssociates(a, a, a);
    } else {
      var n := |declared| - 1;
      var rest, d := DependencyRows(declared[..n]), declared[n];
      DependenciesPlaced(name, version, a, declared[..n]);
      if d.direct {
        DependencyPlaced(name, version, a.Append(rest), d);
        AppendAssociates(a, rest, DependencyRow(d));
      }
    }
  }

  lemma SamplePlaced(name: string, a: I.Rows, reg: Registry, deps: bool, r: Release)
    requires Places(name, a) && Faithful(reg, name)
    ensures Places(name, a.Append(SampleRows(reg, deps, r)))
  {
    AppendAssociates(a, a, a);
    match reg.doc(r.version)
    case Got(d) =>
      DocPlaced(name, a, d, Stored(r));
      var docs := a.Append(DocRows(d, Stored(r)));
      AppendAssociates(docs, docs, docs);
      if deps && reg.dependencies(r.version).Got? {
        var declared := reg.dependencies(r.version).value;
        DependenciesPlaced(name, d.version, docs, declared);
        AppendAssociates(a, DocRows(d, Stored(r)), DependencyRows(declared));
      } else {
        AppendAssociates(a, DocRows(d, Stored(r)), I.NO_ROWS);
      }
    case _ =>
  }

  lemma {:induction false} SampledPlaced(name: string, a: I.Rows, reg: Registry, deps: bool, sampled: seq<Release>)
    requires Places(name, a) && Faithful(reg, name)
    ensures Places(name, a.Append(SampledRows(reg, deps, sampled)))
  {
    if sampled == [] {
      AppendAssociates(a, a, a);
    } else {
      var n := |sampled| - 1;
      var rest := SampledRows(reg, deps, sampled[..n]);
      SampledPlaced(name, a, reg, deps, sampled[..n]);
      SamplePlaced(name, a.Append(rest), reg, deps, sampled[n]);
      AppendAssociates(a, rest, SampleRows(reg, deps, sampled[n]));
    }
  }

  lemma AccountsPlaced(name: string, a: I.Rows, sorted: seq<Observation>, b: I.Rows)
    requires Places(name, a) && AccountRows(name, sorted, b)
    ensures Places(name, a.Append(b))
  {
    forall i, j | 0 <= i < |b.maintains| && 0 <= j < |b.maintains[i].Ends()|
      ensures I.NodeIn(a.Append(b), b.maintains[i].Ends()[j])
    {
      SpellNeedsAccount(name, sorted, b, i);
      NodesAppend(a, b, (MaintainerNode(b.maintains[i].handle), Maintainer));
      NodesAppend(a, b, (PackageNode(name), Package));
    }
    AccountsTyped(name, sorted, b);
    AccountsMet(name, sorted, b, a.Append(b));
    Placed(name, a, b);
  }

  lemma AccountsMet(name: string, sorted: seq<Observation>, b: I.Rows, nodes: I.Rows)
    requires AccountRows(name, sorted, b)
    requires forall i, j :: 0 <= i < |b.maintains| && 0 <= j < |b.maintains[i].Ends()| ==> I.NodeIn(nodes, b.maintains[i].Ends()[j])
    ensures LinksMet(b, nodes)
  {
    assert b.hasVersion == b.sampled == b.dependsOn == [];
  }

  lemma AccountsTyped(name: string, sorted: seq<Observation>, b: I.Rows)
    requires AccountRows(name, sorted, b)
    ensures WellPlaced(name, b)
  {
    assert b.packages == b.references == b.versions == b.annotations == b.hasVersion == b.sampled == b.dependsOn == [];
  }

  lemma SpellNeedsAccount(name: string, sorted: seq<Observation>, b: I.Rows, i: nat)
    requires AccountRows(name, sorted, b) && i < |b.maintains|
    ensures I.NodeIn(b, (MaintainerNode(b.maintains[i].handle), Maintainer))
  {
    var row := b.maintains[i];
    var s := Spell(row.validFrom, row.validTo, row.observed);
    assert row == MaintainsRow(row.handle, name, s.from, s.to, s.observed);
    assert s in HistoryOf(sorted, row.handle).All();
    SpellsNeedListings(sorted, row.handle);
    var m :| 0 <= m < |b.maintainers| && b.maintainers[m] == MaintainerRow(row.handle);
    NodeOf(b, 3, m);
  }

  // ---- the fetch

  ghost predicate Arranged(sorted: seq<Observation>, obs: seq<Observation>) {
    multiset(sorted) == multiset(obs) && forall i, j :: 0 <= i < j < |sorted| ==> sorted[i].at <= sorted[j].at
  }

  method Accounts(name: string, handles: set<string>, obs: seq<Observation>) returns (rows: I.Rows, ghost sorted: seq<Observation>)
    requires forall h :: h in handles <==> Listed(obs, h)
    ensures Arranged(sorted, obs)
    ensures AccountRows(name, sorted, rows)
  {
    var accounts := AddMaintainers(handles);
    var spelling;
    spelling, sorted := DeriveSpells(obs);
    var links := AddMaintains(name, spelling);
    rows := I.NO_ROWS.(maintainers := accounts, maintains := links);
    forall h
      ensures Listed(sorted, h) <==> Listed(obs, h)
    {
      if Listed(sorted, h) {
        ListedAnyOrder(sorted, obs, h);
      } else if Listed(obs, h) {
        ListedAnyOrder(obs, sorted, h);
      }
    }
  }

  lemma ListedAnyOrder(a: seq<Observation>, b: seq<Observation>, h: string)
    requires multiset(a) == multiset(b) && Listed(a, h)
    ensures Listed(b, h)
  {
    var i :| 0 <= i < |a| && h in a[i].maintainers;
    assert a[i] in multiset(b);
  }

  method AddMaintainers(handles: set<string>) returns (rows: seq<Row>)
    ensures forall i :: 0 <= i < |rows| ==> rows[i].MaintainerRow?
    ensures forall h :: MaintainerRow(h) in rows <==> h in handles
  {
    rows := [];
    var left := handles;
    while left != {}
      invariant left <= handles
      invariant forall i :: 0 <= i < |rows| ==> rows[i].MaintainerRow?
      invariant forall h :: MaintainerRow(h) in rows <==> h in handles && h !in left
    {
      var h :| h in left;
      left := left - {h};
      rows := rows + [MaintainerRow(h)];
    }
  }

  ghost predicate HasSpell(spelling: Spelling, h: string, s: Spell) {
    h in spelling && s in spelling[h]
  }

  method AddMaintains(name: string, spelling: Spelling) returns (rows: seq<Row>)
    ensures forall i :: 0 <= i < |rows| ==> rows[i].MaintainsRow? && rows[i].name == name
    ensures forall h, s: Spell :: MaintainsRow(h, name, s.from, s.to, s.observed) in rows <==> HasSpell(spelling, h, s)
  {
    rows := [];
    var left := spelling.Keys;
    while left != {}
      invariant left <= spelling.Keys
      invariant forall i :: 0 <= i < |rows| ==> rows[i].MaintainsRow? && rows[i].name == name
      invariant forall h, s: Spell :: MaintainsRow(h, name, s.from, s.to, s.observed) in rows <==> HasSpell(spelling, h, s) && h !in left
    {
      var h :| h in left;
      left := left - {h};
      ghost var before := rows;
      for k := 0 to |spelling[h]|
        invariant forall i :: 0 <= i < |rows| ==> rows[i].MaintainsRow? && rows[i].name == name
        invariant forall g, s: Spell :: MaintainsRow(g, name, s.from, s.to, s.observed) in rows <==>
          MaintainsRow(g, name, s.from, s.to, s.observed) in before || (g == h && s in spelling[h][..k])
      {
        var s := spelling[h][k];
        rows := rows + [MaintainsRow(h, name, s.from, s.to, s.observed)];
      }
      assert spelling[h][..|spelling[h]|] == spelling[h];
    }
  }

  // Everything a package contributes, or nothing when the registry fails to answer. Every link it
  // delivers comes with both its endpoints.
  method FetchPackage(name: string, rank: int, epochs: seq<int>, deps: bool, reg: Registry)
      returns (out: Option<I.Rows>, ghost sampled: seq<Release>, ghost accounts: I.Rows, ghost sorted: seq<Observation>)
    requires Faithful(reg, name)
    ensures out.Some? <==> reg.timeline.Got? && forall i :: 0 <= i < |sampled| ==> !Unreadable(reg, deps, sampled[i])
    ensures reg.timeline.Got? ==> SampledOnce(reg.timeline.value, epochs, sampled)
    ensures out.Some? ==> I.Contribution(name, out.value)
    ensures out.Some? ==>
      out.value == TimelineRows(name, rank, reg.timeline.value).Append(SampledRows(reg, deps, sampled)).Append(accounts)
    ensures out.Some? ==> AccountRows(name, sorted, accounts) && Arranged(sorted, Observations(reg, sampled))
  {
    sampled, accounts, sorted := [], I.NO_ROWS, [];
    if !reg.timeline.Got? {
      return None, [], I.NO_ROWS, [];
    }
    var releases := reg.timeline.value;
    var timeline := FetchTimeline(name, rank, releases);
    TimelinePlaced(name, rank, releases);
    var samples := Sample(releases, epochs);
    sampled := samples;
    var ok, rows, obs, handles := FetchSamples(reg, deps, samples, timeline);
    if !ok {
      return None, samples, I.NO_ROWS, [];
    }
    SampledPlaced(name, timeline, reg, deps, samples);
    var held;
    held, sorted := Accounts(name, handles, obs);
    accounts := held;
    AccountsPlaced(name, rows, sorted, held);
    out := Some(rows.Append(held));
  }

  method FetchTimeline(name: string, rank: int, releases: seq<Release>) returns (rows: I.Rows)
    ensures rows == TimelineRows(name, rank, releases)
  {
    rows := I.NO_ROWS.(packages := [PackageRow(name, rank)]);
    for k := 0 to |releases|
      invariant rows == TimelineRows(name, rank, releases[..k])
    {
      assert releases[..k + 1][..k] == releases[..k];
      rows := rows.Append(ReleaseRows(name, releases[k]));
    }
    assert releases[..|releases|] == releases;
  }

  // The document of each sampled release and, if asked for, what it declares. One that cannot be read
  // is the end of it.
  method FetchSamples(reg: Registry, deps: bool, samples: seq<Release>, timeline: I.Rows)
      returns (ok: bool, rows: I.Rows, obs: seq<Observation>, handles: set<string>)
    ensures ok <==> forall i :: 0 <= i < |samples| ==> !Unreadable(reg, deps, samples[i])
    ensures ok ==> rows == timeline.Append(SampledRows(reg, deps, samples)) && obs == Observations(reg, samples)
    ensures ok ==> forall h :: h in handles <==> Listed(obs, h)
  {
    ok, rows, obs, handles := true, timeline, [], {};
    AppendAssociates(timeline, timeline, timeline);
    for k := 0 to |samples|
      invariant ok && rows == timeline.Append(SampledRows(reg, deps, samples[..k]))
      invariant obs == Observations(reg, samples[..k])
      invariant forall h :: h in handles <==> Listed(obs, h)
      invariant forall i :: 0 <= i < k ==> !Unreadable(reg, deps, samples[i])
    {
      var rel := samples[k];
      SampleSnoc(reg, deps, samples, k);
      if Unreadable(reg, deps, rel) {
        ok := false;
        return;
      }
      AppendAssociates(timeline, SampledRows(reg, deps, samples[..k]), SampleRows(reg, deps, rel));
      rows := rows.Append(SampleRows(reg, deps, rel));
      if reg.doc(rel.version).Got? {
        var doc := reg.doc(rel.version).value;
        obs := obs + [Observation(Stored(rel), doc.maintainers)];
        handles := handles + set h | h in doc.maintainers;
        ListedSnoc(obs);
      }
    }
    assert samples[..|samples|] == samples;
  }

  lemma SampleSnoc(reg: Registry, deps: bool, sampled: seq<Release>, k: nat)
    requires k < |sampled|
    ensures SampledRows(reg, deps, sampled[..k + 1]) == SampledRows(reg, deps, sampled[..k]).Append(SampleRows(reg, deps, sampled[k]))
    ensures Observations(reg, sampled[..k + 1]) == Observations(reg, sampled[..k])
      + if reg.doc(sampled[k].version).Got? then [Observation(Stored(sampled[k]), reg.doc(sampled[k].version).value.maintainers)] else []
  {
    assert sampled[..k + 1][..k] == sampled[..k];
  }

  lemma ListedSnoc(obs: seq<Observation>)
    requires obs != []
    ensures forall h :: Listed(obs, h) <==> Listed(obs[..|obs| - 1], h) || h in obs[|obs| - 1].maintainers
  {
    var n := |obs| - 1;
    forall h | Listed(obs[..n], h)
      ensures Listed(obs, h)
    {
      var i :| 0 <= i < n && h in obs[..n][i].maintainers;
      assert h in obs[i].maintainers;
    }
    forall h | Listed(obs, h) && h !in obs[n].maintainers
      ensures Listed(obs[..n], h)
    {
      var i :| 0 <= i < |obs| && h in obs[i].maintainers;
      assert h in obs[..n][i].maintainers;
    }
  }

  // ---- sampled instants are distinct

  // One sample was published on an epoch, to the nanosecond, and another within the second after it.
  ghost predicate TieAt(samples: seq<Release>, epochs: seq<int>, a: int, b: int, e: int) {
    && 0 <= a < |samples| && 0 <= b < |samples| && e in epochs
    && samples[a].publishedAt == Some(e)
    && samples[b].publishedAt.Some? && e < samples[b].publishedAt.value < e + SECOND
  }

  ghost predicate StoredApart(samples: seq<Release>) {
    forall a, b :: 0 <= a < b < |samples| ==> Stored(samples[a]) != Stored(samples[b])
  }

  lemma WithinOneSecond(x: int, e: int, y: int)
    requires x <= e < y && e % SECOND == 0
    ensures Timestamp(x) == Timestamp(y) <==> x == e && y < e + SECOND
  {
    assert x / SECOND <= e / SECOND <= y / SECOND;
  }

  // Two samples stored with one time can only have come about that way.
  lemma EqualTimesTie(releases: seq<Release>, epochs: seq<int>, samples: seq<Release>, a: nat, b: nat) returns (c: nat, d: nat, e: int)
    requires SampledOnce(releases, epochs, samples) && forall e :: e in epochs ==> e % SECOND == 0
    requires a < b < |samples| && Stored(samples[a]) == Stored(samples[b])
    ensures TieAt(samples, epochs, c, d, e)
  {
    assert samples[a] in samples && samples[b] in samples;
    var t, i :| t in epochs && CurrentAt(releases, t, i) && releases[i] == samples[a];
    var u, j :| u in epochs && CurrentAt(releases, u, j) && releases[j] == samples[b];
    if t <= u {
      CurrentReleasesStraddle(releases, t, i, u, j);
      WithinOneSecond(releases[i].publishedAt.value, t, releases[j].publishedAt.value);
      c, d, e := a, b, t;
    } else {
      CurrentReleasesStraddle(releases, u, j, t, i);
      WithinOneSecond(releases[j].publishedAt.value, u, releases[i].publishedAt.value);
      c, d, e := b, a, u;
    }
  }

  lemma SampledTimesDifferIff(releases: seq<Release>, epochs: seq<int>, samples: seq<Release>)
    requires SampledOnce(releases, epochs, samples) && forall e :: e in epochs ==> e % SECOND == 0
    ensures StoredApart(samples) <==> !exists a, b, e :: TieAt(samples, epochs, a, b, e)
  {
    if !StoredApart(samples) {
      var a, b :| 0 <= a < b < |samples| && Stored(samples[a]) == Stored(samples[b]);
      var c, d, e := EqualTimesTie(releases, epochs, samples, a, b);
    }
    if a, b, e :| TieAt(samples, epochs, a, b, e) {
      WithinOneSecond(e, e, samples[b].publishedAt.value);
      assert Stored(samples[a]) == Stored(samples[b]) && a != b;
      assert !StoredApart(samples) by {
        if a > b {
          assert Stored(samples[b]) == Stored(samples[a]);
        }
      }
    }
  }

  // The samples whose documents were there to read.
  function ReadOf(reg: Registry, sampled: seq<Release>): seq<Release> {
    if sampled == [] then []
    else
      var r := sampled[|sampled| - 1];
      ReadOf(reg, sampled[..|sampled| - 1]) + if reg.doc(r.version).Got? then [r] else []
  }

  lemma {:induction false} ObservedAreRead(reg: Registry, sampled: seq<Release>)
    ensures |Observations(reg, sampled)| == |ReadOf(reg, sampled)|
    ensures forall k :: 0 <= k < |ReadOf(reg, sampled)| ==> Observations(reg, sampled)[k].at == Stored(ReadOf(reg, sampled)[k])
    ensures forall r :: r in ReadOf(reg, sampled) ==> r in sampled
  {
    if sampled != [] {
      ObservedAreRead(reg, sampled[..|sampled| - 1]);
    }
  }

  lemma {:induction false} ReadOnce(releases: seq<Release>, epochs: seq<int>, reg: Registry, sampled: seq<Release>)
    requires SampledOnce(releases, epochs, sampled)
    ensures SampledOnce(releases, epochs, ReadOf(reg, sampled))
  {
    if sampled != [] {
      var n := |sampled| - 1;
      ReadOnce(releases, epochs, reg, sampled[..n]);
      ObservedAreRead(reg, sampled[..n]);
      var read := ReadOf(reg, sampled[..n]);
      forall k | 0 <= k < |read| ensures read[k].version != sampled[n].version {
        assert read[k] in sampled[..n];
        var i :| 0 <= i < n && sampled[i] == read[k];
      }
    }
  }

  ghost predicate DistinctTimes(obs: seq<Observation>) {
    forall i, j :: 0 <= i < j < |obs| ==> obs[i].at != obs[j].at
  }

  lemma ApartIsStrict(sorted: seq<Observation>)
    requires forall i, j :: 0 <= i < j < |sorted| ==> sorted[i].at <= sorted[j].at
    ensures DistinctTimes(sorted) <==> forall i, j :: 0 <= i < j < |sorted| ==> sorted[i].at < sorted[j].at
  {
  }

  lemma SameTimesApart(obs: seq<Observation>, read: seq<Release>)
    requires |obs| == |read| && forall k :: 0 <= k < |read| ==> obs[k].at == Stored(read[k])
    ensures DistinctTimes(obs) <==> StoredApart(read)
  {
  }

  lemma SameTimesCarry(a: seq<Observation>, b: seq<Observation>)
    requires multiset(a) == multiset(b) && DistinctTimes(a)
    ensures DistinctTimes(b)
  {
    forall i, j | 0 <= i < j < |b|
      ensures b[i].at != b[j].at
    {
      assert b[i] in multiset(a) && b[j] in multiset(a);
      var x :| 0 <= x < |a| && a[x] == b[i];
      var y :| 0 <= y < |a| && a[y] == b[j];
      if x == y {
        TwiceInMultiset(b, i, j);
        OnceInMultiset(a, x);
        assert false;
      }
    }
  }

  lemma SampledBeforeEpochs(releases: seq<Release>, epochs: seq<int>, s: Release, sampled: seq<Release>)
    requires SampledOnce(releases, epochs, sampled) && s in sampled
    requires forall e :: e in epochs ==> e < OPEN_INTERVAL * SECOND
    ensures Stored(s) < OPEN_INTERVAL
  {
    var e, i :| e in epochs && CurrentAt(releases, e, i) && releases[i] == s;
  }

  lemma ObservedBeforeTheEnd(reg: Registry, releases: seq<Release>, epochs: seq<int>, sampled: seq<Release>, o: Observation)
    requires SampledOnce(releases, epochs, sampled) && o in Observations(reg, sampled)
    requires forall e :: e in epochs ==> e < OPEN_INTERVAL * SECOND
    ensures o.at < OPEN_INTERVAL
  {
    ObservedAreRead(reg, sampled);
    var k :| 0 <= k < |Observations(reg, sampled)| && Observations(reg, sampled)[k] == o;
    assert ReadOf(reg, sampled)[k] in ReadOf(reg, sampled);
    SampledBeforeEpochs(releases, epochs, ReadOf(reg, sampled)[k], sampled);
  }

  // So what the spells are derived from meets their need for distinct instants, except exactly there.
  lemma SampledHistoryIsChronological(reg: Registry, releases: seq<Release>, epochs: seq<int>, sampled: seq<Release>,
      sorted: seq<Observation>)
    requires SampledOnce(releases, epochs, sampled)
    requires forall e :: e in epochs ==> e % SECOND == 0 && e < OPEN_INTERVAL * SECOND
    requires Arranged(sorted, Observations(reg, sampled))
    ensures Chronological(sorted) <==> !exists a, b, e :: TieAt(ReadOf(reg, sampled), epochs, a, b, e)
  {
    var obs, read := Observations(reg, sampled), ReadOf(reg, sampled);
    ReadOnce(releases, epochs, reg, sampled);
    SampledTimesDifferIff(releases, epochs, read);
    ObservedAreRead(reg, sampled);
    SameTimesApart(obs, read);
    if DistinctTimes(obs) {
      SameTimesCarry(obs, sorted);
      ApartIsStrict(sorted);
    }
    if Chronological(sorted) {
      ApartIsStrict(sorted);
      SameTimesCarry(sorted, obs);
    }
    forall k | 0 <= k < |sorted| ensures sorted[k].at < OPEN_INTERVAL {
      assert sorted[k] in multiset(obs);
      ObservedBeforeTheEnd(reg, releases, epochs, sampled, sorted[k]);
    }
  }

  // It can happen, whatever the next epoch is.
  lemma BoundaryPublishTies(epoch: int, later: int)
    requires epoch % SECOND == 0 && later >= epoch + SECOND
    ensures var releases := [Release("1.0.0", Some(epoch), false), Release("1.0.1", Some(epoch + 1), false)];
      SampledOnce(releases, [epoch, later], releases) && TieAt(releases, [epoch, later], 0, 1, epoch)
  {
    var releases := [Release("1.0.0", Some(epoch), false), Release("1.0.1", Some(epoch + 1), false)];
    assert CurrentAt(releases, [epoch, later][0], 0);
    assert CurrentAt(releases, [epoch, later][1], 1);
  }
}
