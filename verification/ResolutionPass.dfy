// From what resolving packages gives to what the resolution pass writes (resolveTarget and writeLoop in
// internal/resolve/resolve.go).
module ResolutionPass {
  import opened GraphWrites
  import opened Durability
  import opened ResolutionWindows
  import opened Exposure
  import R = Resolver

  datatype Node = Node(name: string, version: string)

  // A dependent's package and version, and the range its declaration gave.
  type Names = string -> Node
  type Texts = Resolution -> string

  function RowOf(names: Names, texts: Texts, pkg: string, row: Resolution): Row {
    ResolvesToRow(names(row.dependent).name, names(row.dependent).version, pkg, row.version, row.from, row.to, texts(row))
  }

  function RowsOfTarget(names: Names, texts: Texts, pkg: string, rows: seq<Resolution>): (out: seq<Row>)
    ensures |out| == |rows| && forall i :: 0 <= i < |rows| ==> out[i] == RowOf(names, texts, pkg, rows[i])
  {
    seq(|rows|, i requires 0 <= i < |rows| => RowOf(names, texts, pkg, rows[i]))
  }

  ghost function ScriptsOf(names: Names, texts: Texts, rows: map<string, seq<Resolution>>): Scripts {
    map pkg | pkg in rows :: RowsOfTarget(names, texts, pkg, rows[pkg])
  }

  // Both were read from the graph: the package's dated releases and the versions that declare it.
  ghost predicate InGraph(base: Graph, names: Names, pkg: string, releases: seq<Release>, declared: seq<Declaration>) {
    && (forall rel :: rel in releases && rel.publishedAt > 0 ==> Has(base, (VersionNode(pkg, rel.version), Version)))
    && (forall d :: d in declared ==> Has(base, (VersionNode(names(d.dependent).name, names(d.dependent).version), Version)))
  }

  // No two dependents have one name.
  ghost predicate NamesApart(names: Names, rows: map<string, seq<Resolution>>) {
    forall p, q, a, b :: p in rows && q in rows && a in rows[p] && b in rows[q] && names(a.dependent) == names(b.dependent) ==>
      a.dependent == b.dependent
  }

  lemma GroundedIsFound(base: Graph, names: Names, texts: Texts, pkg: string, releases: seq<Release>, declared: seq<Declaration>,
      row: Resolution)
    requires InGraph(base, names, pkg, releases, declared) && Grounded(releases, declared, row)
    ensures Found(base, RowOf(names, texts, pkg, row))
  {
    var d :| d in declared && d.dependent == row.dependent && d.publishedAt <= row.from;
    var rel :| rel in releases && rel.version == row.version && 0 < rel.publishedAt <= row.from;
  }

  lemma SameEdgeSameRow(names: Names, texts: Texts, rows: map<string, seq<Resolution>>, p: string, a: Resolution, q: string,
      b: Resolution)
    requires p in rows && q in rows && a in rows[p] && b in rows[q] && NamesApart(names, rows) && DistinctEdges(rows[p])
    requires RowOf(names, texts, p, a).Subject() == RowOf(names, texts, q, b).Subject()
    ensures p == q && a == b
  {
    assert names(a.dependent) == names(b.dependent);
    assert a.dependent == b.dependent;
    var i :| 0 <= i < |rows[p]| && rows[p][i] == a;
    var j :| 0 <= j < |rows[p]| && rows[p][j] == b;
  }

  // The rows made from resolved packages are what the pass needs them to be: every window's versions are
  // in the graph, and no two rows are of one edge.
  lemma ResolvedAreResolvable(base: Graph, names: Names, texts: Texts, releases: map<string, seq<Release>>,
      declared: map<string, seq<Declaration>>, rows: map<string, seq<Resolution>>)
    requires forall p :: p in rows ==> p in releases && p in declared
    requires forall p :: p in rows ==> InGraph(base, names, p, releases[p], declared[p])
    requires forall p :: p in rows ==> AllGrounded(releases[p], declared[p], rows[p]) && DistinctEdges(rows[p])
    requires NamesApart(names, rows)
    ensures R.Resolvable(base, ScriptsOf(names, texts, rows))
  {
    var targets := ScriptsOf(names, texts, rows);
    forall x | x in AllRows(targets) ensures x.ResolvesToRow? && Found(base, x) {
      var p, a := Origin(names, texts, rows, x);
      GroundedIsFound(base, names, texts, p, releases[p], declared[p], a);
    }
    forall x, y | x in AllRows(targets) && y in AllRows(targets) ensures Compatible(x, y) {
      var p, a := Origin(names, texts, rows, x);
      var q, b := Origin(names, texts, rows, y);
      if x.Subject() == y.Subject() {
        SameEdgeSameRow(names, texts, rows, p, a, q, b);
      }
    }
  }

  lemma Origin(names: Names, texts: Texts, rows: map<string, seq<Resolution>>, x: Row) returns (p: string, a: Resolution)
    requires x in AllRows(ScriptsOf(names, texts, rows))
    ensures p in rows && a in rows[p] && x == RowOf(names, texts, p, a)
  {
    p :| p in rows && x in RowsOfTarget(names, texts, p, rows[p]);
    var i :| 0 <= i < |rows[p]| && RowsOfTarget(names, texts, p, rows[p])[i] == x;
    a := rows[p][i];
  }
}
