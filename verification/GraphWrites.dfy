// The graph store as the loaders write it: MERGE statements over rows, sent in chunks with retries
// (the statements of internal/ingest/rows.go and internal/resolve/resolve.go, and WriteBatch and
// runChunk in internal/graph/client.go). The hashed ids are taken to be injective, so an element is
// named by what its URN says.
module GraphWrites {
  import opened Wrappers

  datatype Label =
    | Package | Version | Maintainer
    | HasVersion | Sampled | DependsOn | Maintains | ResolvesTo

  datatype Element =
    | PackageNode(name: string)
    | VersionNode(name: string, version: string)
    | MaintainerNode(handle: string)
    | Relation(kind: Label, src: Element, dst: Element, discriminator: Option<int>)

  datatype Property =
    | Urn | Ecosystem | Name | Rank | VersionText | PublishedAt | Deprecated
    | PublishedBy | HasProvenance | HasInstallScript | Handle
    | RangeText | Direct | ValidFrom | ValidTo | Observed

  datatype Value = UrnOf(element: Element) | Text(text: string) | Number(number: int) | Flag(flag: bool)

  datatype Entity = Entity(labels: set<Label>, props: map<Property, Value>)

  type Graph = map<Element, Entity>

  const ECOSYSTEM := Text("npm")

  // One row of one UNWIND statement. The constructor is the statement.
  datatype Row =
    | PackageRow(name: string, rank: int)
    | ReferenceRow(name: string)
    | VersionRow(name: string, version: string, publishedAt: int, deprecated: bool)
    | AnnotationRow(name: string, version: string, publishedBy: string, hasProvenance: bool, hasInstallScript: bool)
    | MaintainerRow(handle: string)
    | HasVersionRow(name: string, version: string, publishedAt: int)
    | SampledRow(name: string, version: string, publishedAt: int)
    | DependsOnRow(fromName: string, fromVersion: string, toName: string, range: string, direct: bool)
    | MaintainsRow(handle: string, name: string, validFrom: int, validTo: int, observed: nat)
    | ResolvesToRow(fromName: string, fromVersion: string, name: string, version: string,
                    validFrom: int, validTo: int, range: string)
  {
    predicate IsLink() {
      HasVersionRow? || SampledRow? || DependsOnRow? || MaintainsRow? || ResolvesToRow?
    }

    function Tag(): Label {
      match this
      case PackageRow(_, _) => Package
      case ReferenceRow(_) => Package
      case VersionRow(_, _, _, _) => Version
      case AnnotationRow(_, _, _, _, _) => Version
      case MaintainerRow(_) => Maintainer
      case HasVersionRow(_, _, _) => HasVersion
      case SampledRow(_, _, _) => Sampled
      case DependsOnRow(_, _, _, _, _) => DependsOn
      case MaintainsRow(_, _, _, _, _) => Maintains
      case ResolvesToRow(_, _, _, _, _, _, _) => ResolvesTo
    }

    // The element the row's MERGE names.
    function Subject(): Element {
      match this
      case PackageRow(n, _) => PackageNode(n)
      case ReferenceRow(n) => PackageNode(n)
      case VersionRow(n, v, _, _) => VersionNode(n, v)
      case AnnotationRow(n, v, _, _, _) => VersionNode(n, v)
      case MaintainerRow(h) => MaintainerNode(h)
      case HasVersionRow(n, v, _) => Relation(HasVersion, PackageNode(n), VersionNode(n, v), None)
      case SampledRow(n, v, _) => Relation(Sampled, PackageNode(n), VersionNode(n, v), None)
      case DependsOnRow(n, v, to, _, _) => Relation(DependsOn, VersionNode(n, v), PackageNode(to), None)
      case MaintainsRow(h, n, from, _, _) => Relation(Maintains, MaintainerNode(h), PackageNode(n), Some(from))
      case ResolvesToRow(n, v, tn, tv, _, _, _) => Relation(ResolvesTo, VersionNode(n, v), VersionNode(tn, tv), None)
    }

    // The nodes, with their labels, that a link's MATCH has to find.
    function Ends(): seq<(Element, Label)> {
      match this
      case HasVersionRow(n, v, _) => [(PackageNode(n), Package), (VersionNode(n, v), Version)]
      case SampledRow(n, v, _) => [(PackageNode(n), Package), (VersionNode(n, v), Version)]
      case DependsOnRow(n, v, to, _, _) => [(VersionNode(n, v), Version), (PackageNode(to), Package)]
      case MaintainsRow(h, n, _, _, _) => [(MaintainerNode(h), Maintainer), (PackageNode(n), Package)]
      case ResolvesToRow(n, v, tn, tv, _, _, _) => [(VersionNode(n, v), Version), (VersionNode(tn, tv), Version)]
      case _ => []
    }

    // What the row's SET assigns.
    function Assigned(): map<Property, Value> {
      match this
      case PackageRow(n, r) =>
        map[Urn := UrnOf(Subject()), Ecosystem := ECOSYSTEM, Name := Text(n), Rank := Number(r)]
      case ReferenceRow(n) =>
        map[Urn := UrnOf(Subject()), Ecosystem := ECOSYSTEM, Name := Text(n)]
      case VersionRow(n, v, at, dep) =>
        map[Urn := UrnOf(Subject()), Name := Text(n), VersionText := Text(v), PublishedAt := Number(at), Deprecated := Flag(dep)]
      case AnnotationRow(_, _, publisher, prov, script) =>
        map[PublishedBy := Text(publisher), HasProvenance := Flag(prov), HasInstallScript := Flag(script)]
      case MaintainerRow(h) => map[Urn := UrnOf(Subject()), Handle := Text(h)]
      case HasVersionRow(_, _, at) => map[PublishedAt := Number(at)]
      case SampledRow(_, _, at) => map[PublishedAt := Number(at)]
      case DependsOnRow(_, _, _, range, direct) => map[RangeText := Text(range), Direct := Flag(direct)]
      case MaintainsRow(_, _, from, to, seen) => map[ValidFrom := Number(from), ValidTo := Number(to), Observed := Number(seen)]
      case ResolvesToRow(_, _, _, _, from, to, range) => map[ValidFrom := Number(from), ValidTo := Number(to), RangeText := Text(range)]
    }
  }

  predicate Has(g: Graph, end: (Element, Label)) {
    end.0 in g && end.1 in g[end.0].labels
  }

  // A vertex statement matches nothing first, so its rows are always found.
  predicate Found(g: Graph, row: Row) {
    forall k :: 0 <= k < |row.Ends()| ==> Has(g, row.Ends()[k])
  }

  function At(g: Graph, e: Element): Entity {
    if e in g then g[e] else Entity({}, map[])
  }

  // A link row with an endpoint missing is passed over silently.
  function Apply(g: Graph, row: Row): Graph {
    if !Found(g, row) then g
    else
      var was := At(g, row.Subject());
      g[row.Subject() := Entity(was.labels + {row.Tag()}, was.props + row.Assigned())]
  }

  function Fold<S, R>(step: (S, R) -> S, s: S, rows: seq<R>): S {
    if rows == [] then s else step(Fold(step, s, rows[..|rows| - 1]), rows[|rows| - 1])
  }

  lemma {:induction false} FoldConcat<S, R>(step: (S, R) -> S, s: S, a: seq<R>, b: seq<R>)
    ensures Fold(step, s, a + b) == Fold(step, Fold(step, s, a), b)
  {
    if b == [] {
      assert a + b == a;
    } else {
      var n := |b| - 1;
      FoldConcat(step, s, a, b[..n]);
      assert (a + b)[..|a| + n] == a + b[..n];
    }
  }

  function ApplyAll(g: Graph, rows: seq<Row>): Graph {
    Fold(Apply, g, rows)
  }

  predicate Within(small: map<Property, Value>, large: map<Property, Value>) {
    forall p :: p in small ==> p in large && large[p] == small[p]
  }

  ghost predicate Written(g: Graph, row: Row) {
    Has(g, (row.Subject(), row.Tag())) && Within(row.Assigned(), g[row.Subject()].props)
  }

  // Two rows for one element never assign one property two values.
  predicate Compatible(a: Row, b: Row) {
    a.Subject() == b.Subject() ==>
      forall p :: p in a.Assigned() && p in b.Assigned() ==> a.Assigned()[p] == b.Assigned()[p]
  }

  ghost predicate Agree(rows: set<Row>) {
    forall a, b :: a in rows && b in rows ==> Compatible(a, b)
  }

  // What one UNWIND statement may carry: rows of one sort that do not conflict.
  ghost predicate Statement(rows: seq<Row>) {
    && (forall i, j :: 0 <= i < |rows| && 0 <= j < |rows| ==> Compatible(rows[i], rows[j]))
    && ((forall i :: 0 <= i < |rows| ==> rows[i].IsLink()) || (forall i :: 0 <= i < |rows| ==> !rows[i].IsLink()))
  }

  lemma SubjectKinds(row: Row)
    ensures row.IsLink() <==> row.Subject().Relation?
    ensures forall k :: 0 <= k < |row.Ends()| ==> !row.Ends()[k].0.Relation?
    ensures !row.IsLink() ==> row.Ends() == []
  {
  }

  lemma Unchanged(g: Graph, row: Row)
    requires Written(g, row)
    ensures Apply(g, row) == g
  {
    var was := At(g, row.Subject());
    assert was.labels + {row.Tag()} == was.labels;
    assert was.props + row.Assigned() == was.props;
  }

  // A row's effect is there afterwards exactly when its endpoints were, or it was there already.
  lemma LandsIffFound(g: Graph, row: Row)
    ensures Written(Apply(g, row), row) <==> Found(g, row) || Written(g, row)
  {
  }

  lemma Survives(g: Graph, row: Row, other: Row)
    requires Compatible(row, other) && Written(g, other)
    ensures Written(Apply(g, row), other)
  {
  }

  // Sending a node statement after the links that need it loses them, with no error.
  lemma {:induction false} LinksSentFirstAreLost(g: Graph, link: Row, nodes: seq<Row>)
    requires link.IsLink() && !Found(g, link) && link.Subject() !in g
    requires forall i :: 0 <= i < |nodes| ==> !nodes[i].IsLink()
    ensures link.Subject() !in ApplyAll(g, [link] + nodes)
  {
    if nodes == [] {
      assert ApplyAll(g, []) == g;
      assert ([link] + nodes)[..0] == [];
    } else {
      var n := |nodes| - 1;
      LinksSentFirstAreLost(g, link, nodes[..n]);
      assert ([link] + nodes)[..n + 1] == [link] + nodes[..n];
      SubjectKinds(link);
      SubjectKinds(nodes[n]);
    }
  }

  ghost predicate SameNodes(g: Graph, h: Graph) {
    forall e: Element :: !e.Relation? ==> At(g, e) == At(h, e) && (e in g <==> e in h)
  }

  lemma {:induction false} LinksLeaveNodes(g: Graph, rows: seq<Row>)
    requires forall i :: 0 <= i < |rows| ==> rows[i].IsLink()
    ensures SameNodes(g, ApplyAll(g, rows))
  {
    if rows != [] {
      LinksLeaveNodes(g, rows[..|rows| - 1]);
      SubjectKinds(rows[|rows| - 1]);
    }
  }

  lemma {:induction false} Settled(g: Graph, rows: seq<Row>, i: nat)
    requires Statement(rows) && i < |rows|
    ensures Apply(ApplyAll(g, rows), rows[i]) == ApplyAll(g, rows)
  {
    var n := |rows| - 1;
    var before := rows[..n];
    var h := ApplyAll(g, before);
    if rows[i].IsLink() {
      LinksLeaveNodes(g, before);
      LinksLeaveNodes(g, rows);
      SubjectKinds(rows[i]);
      assert Found(h, rows[i]) <==> Found(g, rows[i]);
      assert Found(ApplyAll(g, rows), rows[i]) <==> Found(g, rows[i]);
    } else {
      SubjectKinds(rows[i]);
    }
    if Found(g, rows[i]) {
      if i == n {
        LandsIffFound(h, rows[n]);
      } else {
        SettledMeansWritten(g, before, i);
        Survives(h, rows[n], rows[i]);
      }
      Unchanged(ApplyAll(g, rows), rows[i]);
    }
  }

  lemma {:induction false} SettledMeansWritten(g: Graph, rows: seq<Row>, i: nat)
    requires Statement(rows) && i < |rows| && Found(g, rows[i])
    ensures Written(ApplyAll(g, rows), rows[i])
  {
    var n := |rows| - 1;
    var before := rows[..n];
    var h := ApplyAll(g, before);
    if i == n {
      if rows[i].IsLink() {
        LinksLeaveNodes(g, before);
      }
      SubjectKinds(rows[i]);
      assert Found(h, rows[i]);
      LandsIffFound(h, rows[n]);
    } else {
      SettledMeansWritten(g, before, i);
      Survives(h, rows[n], rows[i]);
    }
  }

  // Sending a statement again after any part of it got through is the same as sending the longer
  // part once.
  lemma {:induction false} RetryIsHarmless(g: Graph, rows: seq<Row>, first: nat, again: nat)
    requires Statement(rows) && first <= |rows| && again <= |rows|
    ensures ApplyAll(ApplyAll(g, rows[..first]), rows[..again]) == ApplyAll(g, rows[..if first < again then again else first])
  {
    if again > 0 {
      var n := again - 1;
      RetryIsHarmless(g, rows, first, n);
      assert rows[..again][..n] == rows[..n];
      if n < first {
        ChunkIsStatement(rows, 0, first);
        Settled(g, rows[..first], n);
      }
    }
  }

  lemma SliceJoin<T>(s: seq<T>, start: nat, end: nat, sent: nat)
    requires start <= end <= |s| && sent <= end - start
    ensures s[..start] + s[start..end][..sent] == s[..start + sent]
  {
  }

  lemma Chunked<S, R>(step: (S, R) -> S, s: S, rows: seq<R>, start: nat, end: nat, sent: nat)
    requires start <= end <= |rows| && sent <= end - start
    ensures Fold(step, Fold(step, s, rows[..start]), rows[start..end][..sent]) == Fold(step, s, rows[..start + sent])
  {
    SliceJoin(rows, start, end, sent);
    FoldConcat(step, s, rows[..start], rows[start..end][..sent]);
  }

  lemma ChunkIsStatement(rows: seq<Row>, start: nat, end: nat)
    requires Statement(rows) && start <= end <= |rows|
    ensures Statement(rows[start..end])
  {
    var chunk := rows[start..end];
    assert forall i :: 0 <= i < |chunk| ==> chunk[i] == rows[start + i];
  }

  const DEFAULT_BATCH := 256
  const MAX_BATCH := 1024
  const ATTEMPTS := 3

  // The database refuses a node statement that gives one node two values for a property, whole.
  predicate Refused(rows: seq<Row>) {
    exists i, j :: 0 <= i < |rows| && 0 <= j < |rows| && !rows[i].IsLink() && !rows[j].IsLink() && !Compatible(rows[i], rows[j])
  }

  // A connection. While it is not healthy a statement may fail, having been applied in part.
  class Client {
    var graph: Graph
    var healthy: bool

    constructor (graph: Graph)
      ensures this.graph == graph && healthy
    {
      this.graph, this.healthy := graph, true;
    }

    // One attempt. It may stop after any row, and may fail to be acknowledged after the last.
    method Send(chunk: seq<Row>) returns (ok: bool, ghost cut: nat)
      modifies this`graph
      ensures cut <= |chunk| && (ok ==> cut == |chunk|)
      ensures graph == ApplyAll(old(graph), chunk[..cut])
      ensures Refused(chunk) ==> !ok && cut == 0
      ensures healthy && !Refused(chunk) ==> ok
    {
      cut := 0;
      if Refused(chunk) {
        return false, 0;
      }
      for i := 0 to |chunk|
        invariant cut == i && graph == ApplyAll(old(graph), chunk[..i])
      {
        var stopped := *;
        if stopped && !healthy {
          return false, cut;
        }
        assert chunk[..i + 1][..i] == chunk[..i];
        graph := Apply(graph, chunk[i]);
        cut := i + 1;
      }
      var acknowledged := *;
      ok := healthy || acknowledged;
    }

    // Up to three attempts. `sent` is what they got through one after another; where no two rows
    // conflict that comes to the first `cut` rows of the chunk.
    method RunChunk(chunk: seq<Row>) returns (ok: bool, ghost sent: seq<Row>, ghost cut: nat)
      modifies this`graph
      ensures Progress(Apply, Statement(chunk), old(graph), graph, chunk, cut, sent) && (ok ==> cut == |chunk|)
      ensures Refused(chunk) ==> !ok && graph == old(graph)
      ensures healthy && !Refused(chunk) ==> ok
    {
      ok, sent, cut := false, [], 0;
      NoProgress(Apply, Statement(chunk), graph, chunk);
      for attempt := 0 to ATTEMPTS
        invariant Progress(Apply, Statement(chunk), old(graph), graph, chunk, cut, sent)
        invariant Refused(chunk) ==> graph == old(graph)
        invariant healthy && !Refused(chunk) ==> attempt == 0
      {
        ghost var before, again := graph, 0;
        ok, again := Send(chunk);
        ghost var earlier, most := sent, cut;
        sent, cut := sent + chunk[..again], if cut < again then again else cut;
        AttemptDone(old(graph), before, graph, chunk, earlier, most, again, sent, cut);
        if ok {
          return;
        }
        var retryable := *;
        if !retryable {
          return;
        }
      }
      ok := false;
    }

    // `sent` is what got through, chunk after chunk; where no two rows conflict, the first `cut` rows.
    method WriteBatch(rows: seq<Row>, batch: int) returns (ok: bool, written: nat, ghost sent: seq<Row>, ghost cut: nat)
      modifies this`graph
      ensures Progress(Apply, Statement(rows), old(graph), graph, rows, cut, sent)
      ensures written <= cut && (ok ==> written == |rows|)
      ensures batch > MAX_BATCH ==> !ok && written == 0 && graph == old(graph)
      ensures healthy && batch <= MAX_BATCH && Statement(rows) ==> ok
    {
      var size := if batch <= 0 then DEFAULT_BATCH else batch;
      cut, written, sent := 0, 0, [];
      NoProgress(Apply, Statement(rows), graph, rows);
      if size > MAX_BATCH {
        return false, 0, [], 0;
      }
      var start := 0;
      while start < |rows|
        invariant 0 <= start
        invariant written == cut == if start < |rows| then start else |rows|
        invariant Progress(Apply, Statement(rows), old(graph), graph, rows, cut, sent)
      {
        var end := if start + size < |rows| then start + size else |rows|;
        ghost var before := graph;
        ghost var more, part;
        ok, more, part := RunChunk(rows[start..end]);
        if Statement(rows) {
          ChunkIsStatement(rows, start, end);
        }
        ghost var earlier := sent;
        sent, cut := sent + more, start + part;
        ChunkDone(Apply, Statement(rows), Statement(rows[start..end]), old(graph), before, graph, rows, start, end, earlier, more, part,
          sent, cut);
        if !ok {
          return;
        }
        written := written + (end - start);
        start := start + size;
      }
      ok := true;
    }
  }

  // Where a write stands: what went through, that it is all from the rows and covers the first `cut` of
  // them, and that it comes to those where that is `safe` to say.
  ghost predicate Progress<S(!new), R(!new)>(step: (S, R) -> S, safe: bool, start: S, now: S, rows: seq<R>, cut: nat, sent: seq<R>) {
    && now == Fold(step, start, sent) && (forall r :: r in sent ==> r in rows)
    && cut <= |rows| && (forall r :: r in rows[..cut] ==> r in sent)
    && (safe ==> now == Fold(step, start, rows[..cut]))
  }

  lemma NoProgress<S(!new), R(!new)>(step: (S, R) -> S, safe: bool, start: S, rows: seq<R>)
    ensures Progress(step, safe, start, start, rows, 0, [])
  {
    assert rows[..0] == [];
  }

  lemma AttemptDone(start: Graph, before: Graph, after: Graph, chunk: seq<Row>, earlier: seq<Row>, most: nat, again: nat,
      sent: seq<Row>, cut: nat)
    requires Progress(Apply, Statement(chunk), start, before, chunk, most, earlier)
    requires again <= |chunk| && after == ApplyAll(before, chunk[..again])
    requires sent == earlier + chunk[..again] && cut == if most < again then again else most
    ensures Progress(Apply, Statement(chunk), start, after, chunk, cut, sent)
  {
    if Statement(chunk) {
      RetryIsHarmless(start, chunk, most, again);
    }
    SentAgain(Apply, Statement(chunk), start, before, after, chunk, earlier, most, again, sent, cut);
  }

  lemma SentAgain<S(!new), R(!new)>(step: (S, R) -> S, safe: bool, start: S, before: S, after: S, chunk: seq<R>, earlier: seq<R>,
      most: nat, again: nat, sent: seq<R>, cut: nat)
    requires Progress(step, safe, start, before, chunk, most, earlier)
    requires again <= |chunk| && after == Fold(step, before, chunk[..again])
    requires sent == earlier + chunk[..again] && cut == if most < again then again else most
    requires safe ==> Fold(step, Fold(step, start, chunk[..most]), chunk[..again]) == Fold(step, start, chunk[..cut])
    ensures Progress(step, safe, start, after, chunk, cut, sent)
  {
    FoldConcat(step, start, earlier, chunk[..again]);
  }

  lemma ChunkDone<S(!new), R(!new)>(step: (S, R) -> S, safe: bool, chunkSafe: bool, g0: S, before: S, after: S, rows: seq<R>,
      start: nat, end: nat, earlier: seq<R>, more: seq<R>, part: nat, sent: seq<R>, cut: nat)
    requires sent == earlier + more && cut == start + part
    requires start <= end <= |rows| && Progress(step, safe, g0, before, rows, start, earlier) && (safe ==> chunkSafe)
    requires Progress(step, chunkSafe, before, after, rows[start..end], part, more)
    ensures Progress(step, safe, g0, after, rows, cut, sent)
  {
    FoldConcat(step, g0, earlier, more);
    if safe {
      Chunked(step, g0, rows, start, end, part);
    }
    SliceJoin(rows, start, end, part);
  }
}
