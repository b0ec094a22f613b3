// Edges materialised from resolution windows (resolveTarget in internal/resolve/resolve.go) and the
// question they were built for (internal/incident/resolved_while_live.go).
module Exposure {
  import opened Wrappers
  import opened Sorting
  import opened Intervals
  import opened Semver
  import opened VersionText
  import opened SemverRange
  import opened Timeline
  import opened ResolutionWindows

  // A declared dependency on the target package. A range that does not parse is None.
  datatype Declaration = Declaration(dependent: string, range: Option<Range>, publishedAt: int)

  // A RESOLVES_TO edge: the dependent, the release of the target it resolved to, and for how long.
  datatype Resolution = Resolution(dependent: string, version: string, from: int, to: int) {
    predicate Contains(t: int) {
      from <= t < to
    }
  }

  predicate SamePrecedence(a: string, b: string) {
    Parse(a).Some? && Parse(b).Some? && Precedence(a, b) == 0
  }

  // No two releases of equal precedence, which is what a registry guarantees of one package.
  ghost predicate DistinctReleases(releases: seq<Release>) {
    forall a, b :: a in releases && b in releases && SamePrecedence(a.version, b.version) ==> a.version == b.version
  }

  // Windows and point resolution agree up to precedence, hence exactly when precedence tells
  // releases apart.
  lemma WindowsAgreeWithPointResolution(releases: seq<Release>, r: Range, ws: seq<Window>, t: int)
    requires AnswersAt(releases, r, ws, t)
    ensures WindowAt(ws, t) == None <==> PointResolve(releases, r, t) == None
    ensures WindowAt(ws, t).Some? ==> SamePrecedence(WindowAt(ws, t).value, PointResolve(releases, r, t).value)
    ensures DistinctReleases(releases) ==> WindowAt(ws, t) == PointResolve(releases, r, t)
  {
    PointResolveIsMaximal(releases, r, t);
    match (WindowAt(ws, t), PointResolve(releases, r, t)) {
      case (Some(a), Some(b)) =>
        var x :| x in releases && Admitted(x, r) && x.publishedAt <= t && x.version == a;
        var y :| y in releases && Admitted(y, r) && y.publishedAt <= t && y.version == b;
        CompareAntisymmetric(Parse(a).value, Parse(b).value);
      case _ =>
    }
  }

  lemma {:induction false} LaterWindowsStartLater(ws: seq<Window>, i: nat, j: nat)
    requires i < j < |ws| && Contiguous(ws) && forall w :: w in ws ==> w.from < w.to
    ensures ws[i].to <= ws[j].from
  {
    if i + 1 < j {
      LaterWindowsStartLater(ws, i, j - 1);
      assert ws[j - 1] in ws;
    }
  }

  // At most one window covers an instant, and it is the one found.
  lemma WindowAtIsTheOneCovering(ws: seq<Window>, t: int, version: string)
    requires Contiguous(ws) && forall w :: w in ws ==> w.from < w.to
    ensures WindowAt(ws, t) == Some(version) <==> exists w :: w in ws && w.Contains(t) && w.version == version
  {
    if w :| w in ws && w.Contains(t) && w.version == version {
      var i :| 0 <= i < |ws| && ws[i] == w;
      forall k | 0 <= k < i ensures !ws[k].Contains(t) {
        LaterWindowsStartLater(ws, k, i);
      }
      WindowAtFirst(ws, t, i);
    }
    if WindowAt(ws, t).Some? {
      FoundInside(ws, t);
    }
  }

  lemma {:induction false} FoundInside(ws: seq<Window>, t: int)
    requires WindowAt(ws, t).Some?
    ensures exists w :: w in ws && w.Contains(t) && w.version == WindowAt(ws, t).value
  {
    if ws[0].Contains(t) {
      assert ws[0] in ws;
    } else {
      FoundInside(ws[1..], t);
      var w :| w in ws[1..] && w.Contains(t) && w.version == WindowAt(ws, t).value;
      assert w in ws;
    }
  }

  // Whether the dependent's declaration is in force at t, and what an install then would pick.
  ghost predicate Declares(d: Declaration, dependent: string, t: int) {
    d.dependent == dependent && d.range.Some? && (d.publishedAt > 0 ==> d.publishedAt <= t)
  }

  // What an edge at instant t may be asked to mean: of a declaration, a dependent, a release and t.
  type Meaning = (Declaration, string, string, int) -> bool

  // The dependent was out, and an install then would have picked this release.
  ghost function Picking(releases: seq<Release>): Meaning {
    (d: Declaration, n: string, v: string, t: int) => Declares(d, n, t) && PointResolve(releases, d.range.value, t) == Some(v)
  }

  // The same up to precedence.
  ghost function PickingAlike(releases: seq<Release>): Meaning {
    (d: Declaration, n: string, v: string, t: int) => Declares(d, n, t) && PointResolve(releases, d.range.value, t).Some?
      && SamePrecedence(v, PointResolve(releases, d.range.value, t).value)
  }

  ghost predicate OfSome(meaning: Meaning, ds: seq<Declaration>, n: string, v: string, t: int) {
    exists d :: d in ds && meaning(d, n, v, t)
  }

  ghost predicate Picks(releases: seq<Release>, ds: seq<Declaration>, n: string, v: string, t: int) {
    OfSome(Picking(releases), ds, n, v, t)
  }

  ghost predicate PicksAlike(releases: seq<Release>, ds: seq<Declaration>, n: string, v: string, t: int) {
    OfSome(PickingAlike(releases), ds, n, v, t)
  }

  ghost predicate EdgeAt(rows: seq<Resolution>, dependent: string, version: string, t: int) {
    exists row :: row in rows && row.dependent == dependent && row.version == version && row.Contains(t)
  }

  ghost predicate EdgeLike(same: (string, string) -> bool, rows: seq<Resolution>, n: string, v: string, t: int) {
    exists row :: row in rows && row.dependent == n && same(row.version, v) && row.Contains(t)
  }

  const ALIKE: (string, string) -> bool := (a, b) => SamePrecedence(a, b)

  // How edges are read: what they must mean, what they may mean, which releases count as the same, and
  // whether releases can be told apart.
  datatype Sense = Sense(picks: Meaning, alike: Meaning, same: (string, string) -> bool, told: bool)

  ghost function SenseOf(releases: seq<Release>): Sense {
    Sense(Picking(releases), PickingAlike(releases), ALIKE, DistinctReleases(releases))
  }

  // Every edge means `alike`, everything picked has an edge to its like, and where releases can be told
  // apart the edges are just what is picked.
  ghost predicate Conveys(sense: Sense, ds: seq<Declaration>, rows: seq<Resolution>) {
    && (forall n, v, t :: t < OPEN_INTERVAL && EdgeAt(rows, n, v, t) ==> OfSome(sense.alike, ds, n, v, t))
    && (forall n, v, t :: t < OPEN_INTERVAL && OfSome(sense.picks, ds, n, v, t) ==> EdgeLike(sense.same, rows, n, v, t))
    && (sense.told ==> forall n, v, t :: t < OPEN_INTERVAL ==> (EdgeAt(rows, n, v, t) <==> OfSome(sense.picks, ds, n, v, t)))
  }

  // The edges mean what they must: always up to precedence, in both directions, and to the very
  // release when precedence tells releases apart.
  ghost predicate Means(releases: seq<Release>, ds: seq<Declaration>, rows: seq<Resolution>) {
    Conveys(SenseOf(releases), ds, rows)
  }

  // Neither end of an edge is missing at any instant of it, nor does it outlast the open end.
  ghost predicate Grounded(releases: seq<Release>, ds: seq<Declaration>, row: Resolution) {
    && 0 < row.from < row.to
    && (exists d :: d in ds && d.dependent == row.dependent && d.publishedAt <= row.from)
    && (exists rel :: rel in releases && rel.version == row.version && 0 < rel.publishedAt <= row.from)
    && ((forall rel :: rel in releases ==> rel.publishedAt < OPEN_INTERVAL) ==> row.to <= OPEN_INTERVAL)
  }

  ghost predicate AllGrounded(releases: seq<Release>, ds: seq<Declaration>, rows: seq<Resolution>) {
    forall row :: row in rows ==> Grounded(releases, ds, row)
  }

  ghost predicate OncePerDependent(ds: seq<Declaration>) {
    forall i, j :: 0 <= i < j < |ds| ==> ds[i].dependent != ds[j].dependent
  }

  // An edge is stored under its two ends alone, so one more row for the same pair would overwrite it.
  ghost predicate DistinctEdges(rows: seq<Resolution>) {
    forall i, j :: 0 <= i < j < |rows| ==> rows[i].dependent != rows[j].dependent || rows[i].version != rows[j].version
  }

  lemma StepsUpNamesOnce(ws: seq<Window>, rows: seq<Resolution>)
    requires StepsUp(ws) && |rows| == |ws| && forall i :: 0 <= i < |ws| ==> rows[i].version == ws[i].version
    ensures DistinctEdges(rows)
  {
    forall i, j | 0 <= i < j < |rows|
      ensures rows[i].version != rows[j].version
    {
      var a, b := ws[i].version, ws[j].version;
      assert Precedence(a, b) < 0;
      CompareAntisymmetric(Parse(a).value, Parse(b).value);
    }
  }

  // Precedence orders the releases of each second that any of the ranges admits.
  ghost predicate AllSort(releases: seq<Release>, ds: seq<Declaration>) {
    forall d :: d in ds && d.range.Some? ==> SecondsSort(releases, d.range.value)
  }

  // What one declaration's edges are: each under its own id, and, where the sort is one, exact in the
  // sense above and grounded.
  ghost predicate Resolved(sense: Sense, releases: seq<Release>, d: Declaration, rows: seq<Resolution>) {
    && DistinctEdges(rows) && (forall row :: row in rows ==> row.dependent == d.dependent)
    && (AllSort(releases, [d]) ==> Conveys(sense, [d], rows) && AllGrounded(releases, [d], rows))
  }

  // One declaration's edges.
  method ResolveOne(releases: seq<Release>, d: Declaration) returns (rows: seq<Resolution>)
    ensures Resolved(SenseOf(releases), releases, d, rows)
  {
    rows := [];
    if d.range == None {
      return;
    }
    var ws := Windows(releases, d.range.value, d.publishedAt);
    rows := RowPerWindow(d, ws);
    WindowsResolve(releases, d, ws, rows);
  }

  method RowPerWindow(d: Declaration, ws: seq<Window>) returns (rows: seq<Resolution>)
    ensures RowsOf(d, ws, rows)
  {
    rows := [];
    for k := 0 to |ws|
      invariant |rows| == k && forall i :: 0 <= i < k ==> rows[i] == Resolution(d.dependent, ws[i].version, ws[i].from, ws[i].to)
    {
      rows := rows + [Resolution(d.dependent, ws[k].version, ws[k].from, ws[k].to)];
    }
  }

  lemma WindowsResolve(releases: seq<Release>, d: Declaration, ws: seq<Window>, rows: seq<Resolution>)
    requires d.range.Some? && RowsOf(d, ws, rows) && StepsUp(ws)
    requires SecondsSort(releases, d.range.value) ==> AreWindows(releases, d.range.value, d.publishedAt, ws)
    ensures Resolved(SenseOf(releases), releases, d, rows)
  {
    StepsUpNamesOnce(ws, rows);
    assert d in [d];
    if AllSort(releases, [d]) {
      WindowsMean(releases, d, ws, rows);
      WindowsAreGrounded(releases, d, ws, rows);
    }
  }

  lemma WindowsAreGrounded(releases: seq<Release>, d: Declaration, ws: seq<Window>, rows: seq<Resolution>)
    requires d.range.Some? && RowsOf(d, ws, rows) && AreWindows(releases, d.range.value, d.publishedAt, ws)
    ensures AllGrounded(releases, [d], rows)
  {
    forall i | 0 <= i < |rows| ensures Grounded(releases, [d], rows[i]) {
      WindowIsGrounded(releases, d, ws, i);
    }
  }

  lemma WindowIsGrounded(releases: seq<Release>, d: Declaration, ws: seq<Window>, i: nat)
    requires i < |ws| && d.range.Some? && Contiguous(ws)
    requires forall w :: w in ws ==> Named(releases, d.range.value, d.publishedAt, w)
    requires (forall rel :: rel in releases ==> rel.publishedAt < OPEN_INTERVAL) ==> ws[|ws| - 1].to == OPEN_INTERVAL
    ensures Grounded(releases, [d], Resolution(d.dependent, ws[i].version, ws[i].from, ws[i].to))
  {
    NoneEndsLater(ws, i);
    NamedIsGrounded(releases, d, ws[i], ws[|ws| - 1].to);
  }

  lemma NoneEndsLater(ws: seq<Window>, i: nat)
    requires i < |ws| && Contiguous(ws) && forall w :: w in ws ==> w.from < w.to
    ensures ws[i].to <= ws[|ws| - 1].to
  {
    var last := |ws| - 1;
    if i < last {
      LaterWindowsStartLater(ws, i, last);
      assert ws[last] in ws;
    }
  }

  lemma NamedIsGrounded(releases: seq<Release>, d: Declaration, w: Window, end: int)
    requires d.range.Some? && Named(releases, d.range.value, d.publishedAt, w) && w.to <= end
    requires (forall rel :: rel in releases ==> rel.publishedAt < OPEN_INTERVAL) ==> end == OPEN_INTERVAL
    ensures Grounded(releases, [d], Resolution(d.dependent, w.version, w.from, w.to))
  {
    var rel :| rel in releases && Admitted(rel, d.range.value) && rel.version == w.version && rel.publishedAt <= w.from;
    assert d in [d];
  }

  ghost predicate RowsOf(d: Declaration, ws: seq<Window>, rows: seq<Resolution>) {
    |rows| == |ws| && forall i :: 0 <= i < |ws| ==> rows[i] == Resolution(d.dependent, ws[i].version, ws[i].from, ws[i].to)
  }

  lemma EdgeIsWindow(d: Declaration, ws: seq<Window>, rows: seq<Resolution>, n: string, v: string, t: int)
    requires RowsOf(d, ws, rows) && Contiguous(ws) && forall w :: w in ws ==> w.from < w.to
    ensures EdgeAt(rows, n, v, t) <==> n == d.dependent && WindowAt(ws, t) == Some(v)
  {
    WindowAtIsTheOneCovering(ws, t, v);
    if EdgeAt(rows, n, v, t) {
      var i :| 0 <= i < |rows| && rows[i].dependent == n && rows[i].version == v && rows[i].Contains(t);
      assert ws[i] in ws && ws[i].Contains(t);
    }
    if n == d.dependent && WindowAt(ws, t) == Some(v) {
      var i :| 0 <= i < |ws| && ws[i].Contains(t) && ws[i].version == v;
      assert rows[i] in rows;
    }
  }

  lemma WindowsMean(releases: seq<Release>, d: Declaration, ws: seq<Window>, rows: seq<Resolution>)
    requires d.range.Some? && RowsOf(d, ws, rows) && Contiguous(ws)
    requires forall w :: w in ws ==> Named(releases, d.range.value, d.publishedAt, w)
    requires forall t :: t < OPEN_INTERVAL && (d.publishedAt > 0 ==> d.publishedAt <= t) ==> AnswersAt(releases, d.range.value, ws, t)
    ensures Means(releases, [d], rows)
  {
    forall n, v, t | t < OPEN_INTERVAL
      ensures EdgeAt(rows, n, v, t) ==> PicksAlike(releases, [d], n, v, t)
      ensures Picks(releases, [d], n, v, t) ==> EdgeLike(ALIKE, rows, n, v, t)
      ensures DistinctReleases(releases) ==> (EdgeAt(rows, n, v, t) <==> Picks(releases, [d], n, v, t))
    {
      EdgeMeans(releases, d, ws, rows, n, v, t);
    }
  }

  lemma EdgeMeans(releases: seq<Release>, d: Declaration, ws: seq<Window>, rows: seq<Resolution>, n: string, v: string, t: int)
    requires d.range.Some? && RowsOf(d, ws, rows) && Contiguous(ws) && t < OPEN_INTERVAL
    requires forall w :: w in ws ==> Named(releases, d.range.value, d.publishedAt, w)
    requires (d.publishedAt > 0 ==> d.publishedAt <= t) ==> AnswersAt(releases, d.range.value, ws, t)
    ensures EdgeAt(rows, n, v, t) ==> PicksAlike(releases, [d], n, v, t)
    ensures Picks(releases, [d], n, v, t) ==> EdgeLike(ALIKE, rows, n, v, t)
    ensures DistinctReleases(releases) ==> (EdgeAt(rows, n, v, t) <==> Picks(releases, [d], n, v, t))
  {
    EdgeIsWindow(d, ws, rows, n, v, t);
    WindowsStartAfter(releases, d, ws, t);
    if Declares(d, n, t) {
      WindowsAgreeWithPointResolution(releases, d.range.value, ws, t);
      assert d in [d];
      if WindowAt(ws, t).Some? {
        var w := WindowAt(ws, t).value;
        EdgeIsWindow(d, ws, rows, n, w, t);
        assert EdgeAt(rows, n, w, t);
      }
    }
  }

  lemma WindowsStartAfter(releases: seq<Release>, d: Declaration, ws: seq<Window>, t: int)
    requires d.range.Some? && forall w :: w in ws ==> Named(releases, d.range.value, d.publishedAt, w)
    ensures WindowAt(ws, t).Some? ==> (d.publishedAt > 0 ==> d.publishedAt <= t)
  {
    if WindowAt(ws, t).Some? {
      FoundInside(ws, t);
    }
  }

  lemma EdgeAppend(same: (string, string) -> bool, a: seq<Resolution>, b: seq<Resolution>, n: string, v: string, t: int)
    ensures EdgeAt(a + b, n, v, t) <==> EdgeAt(a, n, v, t) || EdgeAt(b, n, v, t)
    ensures EdgeLike(same, a, n, v, t) || EdgeLike(same, b, n, v, t) ==> EdgeLike(same, a + b, n, v, t)
  {
    assert forall row :: row in a + b <==> row in a || row in b;
  }

  lemma OfSomeAppend(meaning: Meaning, a: seq<Declaration>, b: seq<Declaration>, n: string, v: string, t: int)
    ensures OfSome(meaning, a + b, n, v, t) <==> OfSome(meaning, a, n, v, t) || OfSome(meaning, b, n, v, t)
  {
    assert forall d :: d in a + b <==> d in a || d in b;
  }

  lemma ConveysAppend(sense: Sense, a: seq<Declaration>, b: seq<Declaration>, rowsA: seq<Resolution>, rowsB: seq<Resolution>)
    requires Conveys(sense, a, rowsA) && Conveys(sense, b, rowsB)
    ensures Conveys(sense, a + b, rowsA + rowsB)
  {
    forall n, v, t | t < OPEN_INTERVAL
      ensures EdgeAt(rowsA + rowsB, n, v, t) ==> OfSome(sense.alike, a + b, n, v, t)
      ensures OfSome(sense.picks, a + b, n, v, t) ==> EdgeLike(sense.same, rowsA + rowsB, n, v, t)
      ensures sense.told ==> (EdgeAt(rowsA + rowsB, n, v, t) <==> OfSome(sense.picks, a + b, n, v, t))
    {
      EdgeAppend(sense.same, rowsA, rowsB, n, v, t);
      OfSomeAppend(sense.picks, a, b, n, v, t);
      OfSomeAppend(sense.alike, a, b, n, v, t);
    }
  }

  lemma GroundedAppend(releases: seq<Release>, a: seq<Declaration>, b: seq<Declaration>, rowsA: seq<Resolution>, rowsB: seq<Resolution>)
    requires AllGrounded(releases, a, rowsA) && AllGrounded(releases, b, rowsB)
    ensures AllGrounded(releases, a + b, rowsA + rowsB)
  {
    assert forall d :: d in a + b <==> d in a || d in b;
    forall row | row in rowsA + rowsB ensures Grounded(releases, a + b, row) {
      assert Grounded(releases, a, row) || Grounded(releases, b, row);
    }
  }

  ghost predicate FromSome(ds: seq<Declaration>, rows: seq<Resolution>) {
    forall row :: row in rows ==> exists i :: 0 <= i < |ds| && ds[i].dependent == row.dependent
  }

  // What a target's edges are.
  ghost predicate Delivers(sense: Sense, releases: seq<Release>, ds: seq<Declaration>, rows: seq<Resolution>) {
    && FromSome(ds, rows)
    && (OncePerDependent(ds) ==> DistinctEdges(rows))
    && (AllSort(releases, ds) ==> Conveys(sense, ds, rows) && AllGrounded(releases, ds, rows))
  }

  lemma OneMoreDelivered(sense: Sense, releases: seq<Release>, ds: seq<Declaration>, d: Declaration, rows: seq<Resolution>,
      more: seq<Resolution>)
    requires Delivers(sense, releases, ds, rows) && Resolved(sense, releases, d, more)
    ensures Delivers(sense, releases, ds + [d], rows + more)
  {
    FromSomeMore(ds, d, rows, more);
    if AllSort(releases, ds + [d]) {
      BothSort(releases, ds, d);
      ConveysAppend(sense, ds, [d], rows, more);
      GroundedAppend(releases, ds, [d], rows, more);
    }
    if OncePerDependent(ds + [d]) {
      FrontOnce(ds, d);
      OneDeclarationMore(ds, d, rows, more);
    }
  }

  lemma BothSort(releases: seq<Release>, ds: seq<Declaration>, d: Declaration)
    requires AllSort(releases, ds + [d])
    ensures AllSort(releases, ds) && AllSort(releases, [d])
  {
    assert forall x :: x in ds || x in [d] ==> x in ds + [d];
  }

  lemma FrontOnce(ds: seq<Declaration>, d: Declaration)
    requires OncePerDependent(ds + [d])
    ensures OncePerDependent(ds)
  {
    assert forall i :: 0 <= i < |ds| ==> (ds + [d])[i] == ds[i];
  }

  lemma FromSomeMore(ds: seq<Declaration>, d: Declaration, rows: seq<Resolution>, more: seq<Resolution>)
    requires FromSome(ds, rows) && forall row :: row in more ==> row.dependent == d.dependent
    ensures FromSome(ds + [d], rows + more)
  {
    forall row | row in rows + more ensures exists i :: 0 <= i < |ds + [d]| && (ds + [d])[i].dependent == row.dependent {
      if row in rows {
        var i :| 0 <= i < |ds| && ds[i].dependent == row.dependent;
        assert (ds + [d])[i] == ds[i];
      } else {
        assert (ds + [d])[|ds|] == d;
      }
    }
  }

  // Every declaration pointing at the package, turned into edges.
  method ResolveTarget(releases: seq<Release>, declarations: seq<Declaration>) returns (rows: seq<Resolution>)
    ensures OncePerDependent(declarations) ==> DistinctEdges(rows)
    ensures AllSort(releases, declarations) ==> Means(releases, declarations, rows) && AllGrounded(releases, declarations, rows)
  {
    rows := [];
    ghost var done: seq<Declaration> := [];
    for k := 0 to |declarations|
      invariant done == declarations[..k] && Delivers(SenseOf(releases), releases, done, rows)
    {
      PrefixGrows(declarations, k);
      var more := ResolveOne(releases, declarations[k]);
      OneMoreDelivered(SenseOf(releases), releases, done, declarations[k], rows, more);
      rows, done := rows + more, done + [declarations[k]];
    }
    assert done == declarations;
  }

  lemma OneDeclarationMore(ds: seq<Declaration>, d: Declaration, rows: seq<Resolution>, more: seq<Resolution>)
    requires DistinctEdges(rows) && DistinctEdges(more)
    requires OncePerDependent(ds + [d]) && FromSome(ds, rows)
    requires forall row :: row in more ==> row.dependent == d.dependent
    ensures DistinctEdges(rows + more)
  {
    forall row | row in rows ensures row.dependent != d.dependent {
      var i :| 0 <= i < |ds| && ds[i].dependent == row.dependent;
      assert (ds + [d])[i] == ds[i] && (ds + [d])[|ds|] == d;
    }
    var all := rows + more;
    forall i, j | 0 <= i < j < |all| ensures all[i].dependent != all[j].dependent || all[i].version != all[j].version {
      if i < |rows| <= j {
        assert all[i] in rows && all[j] in more;
      }
    }
  }

  datatype LockedAt = LockedAt(project: string, at: int)

  datatype Report = Report(project: string, lockedAt: int, dependent: string, from: int, to: int)

  // The locks of one dependent taken inside an edge's span, in order.
  function ReportsOf(w: Resolution, locks: seq<LockedAt>): seq<Report> {
    if locks == [] then []
    else
      var l := locks[|locks| - 1];
      ReportsOf(w, locks[..|locks| - 1]) + if w.Contains(l.at) then [Report(l.project, l.at, w.dependent, w.from, w.to)] else []
  }

  function LocksOf(locks: map<string, seq<LockedAt>>, dependent: string): seq<LockedAt> {
    if dependent in locks then locks[dependent] else []
  }

  function AllReports(into: seq<Resolution>, locks: map<string, seq<LockedAt>>): seq<Report> {
    if into == [] then []
    else
      var w := into[|into| - 1];
      AllReports(into[..|into| - 1], locks) + ReportsOf(w, LocksOf(locks, w.dependent))
  }

  lemma {:induction false} InReports(w: Resolution, locks: seq<LockedAt>, x: Report)
    ensures x in ReportsOf(w, locks) <==>
      exists l :: l in locks && w.Contains(l.at) && x == Report(l.project, l.at, w.dependent, w.from, w.to)
  {
    if locks != [] {
      var n := |locks| - 1;
      InReports(w, locks[..n], x);
      assert forall l :: l in locks <==> l in locks[..n] || l == locks[n];
    }
  }

  lemma {:induction false} InAllReports(into: seq<Resolution>, locks: map<string, seq<LockedAt>>, x: Report)
    ensures x in AllReports(into, locks) <==> exists w :: w in into && x in ReportsOf(w, LocksOf(locks, w.dependent))
  {
    if into != [] {
      var n := |into| - 1;
      var w := into[n];
      InAllReports(into[..n], locks, x);
      assert into == into[..n] + [w];
      if x in ReportsOf(w, LocksOf(locks, w.dependent)) {
        assert w in into;
      }
    }
  }

  // Every lock of a dependent whose instant lies within one of its edges to the compromised version,
  // once for each such lock and edge, in the order of the edges and then of the locks. `into` is the
  // edges ending at that version, `locks` the recorded pins of each dependent.
  method ResolvedWhileLive(into: seq<Resolution>, locks: map<string, seq<LockedAt>>) returns (out: seq<Report>)
    ensures out == AllReports(into, locks)
  {
    out := [];
    for k := 0 to |into|
      invariant out == AllReports(into[..k], locks)
    {
      assert into[..k + 1][..k] == into[..k];
      out := LiveLocks(into[k], LocksOf(locks, into[k].dependent), out);
    }
    assert into[..|into|] == into;
  }

  method LiveLocks(w: Resolution, locks: seq<LockedAt>, out0: seq<Report>) returns (out: seq<Report>)
    ensures out == out0 + ReportsOf(w, locks)
  {
    out := out0;
    for k := 0 to |locks|
      invariant out == out0 + ReportsOf(w, locks[..k])
    {
      var l := locks[k];
      assert locks[..k + 1][..k] == locks[..k];
      if l.at < w.from || l.at >= w.to {
        continue;
      }
      out := out + [Report(l.project, l.at, w.dependent, w.from, w.to)];
    }
    assert locks[..|locks|] == locks;
  }

  // Put together: a project is reported through a dependent exactly when it locked that dependent at
  // an instant when the dependent was out and an install would have picked the compromised version.
  lemma ReportedIffPicked(releases: seq<Release>, declarations: seq<Declaration>, rows: seq<Resolution>, version: string,
      into: seq<Resolution>, locks: map<string, seq<LockedAt>>, dependent: string, project: string, t: int)
    requires DistinctReleases(releases) && Means(releases, declarations, rows)
    requires forall row :: row in into <==> row in rows && row.version == version
    requires t < OPEN_INTERVAL
    ensures (exists x :: x in AllReports(into, locks) && x.project == project && x.lockedAt == t && x.dependent == dependent)
       <==> LockedAt(project, t) in LocksOf(locks, dependent) && Picks(releases, declarations, dependent, version, t)
  {
    ReportedIffEdge(rows, version, into, locks, dependent, project, t);
  }

  // With releases of equal precedence about, a report still means an install would have picked one of
  // the compromised version's precedence.
  lemma ReportedMeansAlike(releases: seq<Release>, declarations: seq<Declaration>, rows: seq<Resolution>, version: string,
      into: seq<Resolution>, locks: map<string, seq<LockedAt>>, x: Report)
    requires Means(releases, declarations, rows)
    requires forall row :: row in into <==> row in rows && row.version == version
    requires x in AllReports(into, locks) && x.lockedAt < OPEN_INTERVAL
    ensures PicksAlike(releases, declarations, x.dependent, version, x.lockedAt)
  {
    ReportedIffEdge(rows, version, into, locks, x.dependent, x.project, x.lockedAt);
  }

  lemma ReportedIffEdge(rows: seq<Resolution>, version: string, into: seq<Resolution>, locks: map<string, seq<LockedAt>>,
      dependent: string, project: string, t: int)
    requires forall row :: row in into <==> row in rows && row.version == version
    ensures (exists x :: x in AllReports(into, locks) && x.project == project && x.lockedAt == t && x.dependent == dependent)
       <==> LockedAt(project, t) in LocksOf(locks, dependent) && EdgeAt(rows, dependent, version, t)
  {
    if LockedAt(project, t) in LocksOf(locks, dependent) && EdgeAt(rows, dependent, version, t) {
      var w :| w in rows && w.dependent == dependent && w.version == version && w.Contains(t);
      var x := Report(project, t, w.dependent, w.from, w.to);
      InReports(w, LocksOf(locks, w.dependent), x);
      InAllReports(into, locks, x);
      assert w in into;
    }
    if x :| x in AllReports(into, locks) && x.project == project && x.lockedAt == t && x.dependent == dependent {
      InAllReports(into, locks, x);
      var w :| w in into && x in ReportsOf(w, LocksOf(locks, w.dependent));
      InReports(w, LocksOf(locks, w.dependent), x);
      var l :| l in LocksOf(locks, w.dependent) && w.Contains(l.at) && x == Report(l.project, l.at, w.dependent, w.from, w.to);
      assert w in rows && l == LockedAt(project, t);
    }
  }
}
