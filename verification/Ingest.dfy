// The resumable package ingest (Run, writeLoop and write in internal/ingest/ingest.go; rows and
// dedupe in internal/ingest/rows.go).
module Ingest {
  import opened GraphWrites
  import opened Durability
  import C = Checkpoint

  const LISTS := 9
  const FIRST_LINK_LIST := 5
  const FLUSH_AT := 2048

  // One list of rows for each statement.
  datatype Rows = Rows(
    packages: seq<Row>, references: seq<Row>, versions: seq<Row>, annotations: seq<Row>, maintainers: seq<Row>,
    hasVersion: seq<Row>, sampled: seq<Row>, dependsOn: seq<Row>, maintains: seq<Row>)
  {
    function Append(other: Rows): Rows {
      Rows(packages + other.packages, references + other.references, versions + other.versions,
           annotations + other.annotations, maintainers + other.maintainers, hasVersion + other.hasVersion,
           sampled + other.sampled, dependsOn + other.dependsOn, maintains + other.maintains)
    }

    // The count that decides a flush leaves the annotations out.
    function NodeCount(): nat {
      |packages| + |references| + |versions| + |maintainers|
    }

    function EdgeCount(): nat {
      |hasVersion| + |sampled| + |dependsOn| + |maintains|
    }

    // In the order they are written: every node statement before every edge statement.
    function Lists(): (lists: seq<seq<Row>>)
      ensures |lists| == LISTS
    {
      [packages, references, versions, maintainers, annotations, hasVersion, sampled, dependsOn, maintains]
    }
  }

  const NO_ROWS := Rows([], [], [], [], [], [], [], [], [])

  predicate OfList(k: nat, row: Row) {
    match k
    case 0 => row.PackageRow?
    case 1 => row.ReferenceRow?
    case 2 => row.VersionRow?
    case 3 => row.MaintainerRow?
    case 4 => row.AnnotationRow?
    case 5 => row.HasVersionRow?
    case 6 => row.SampledRow?
    case 7 => row.DependsOnRow?
    case 8 => row.MaintainsRow?
    case _ => false
  }

  ghost predicate Typed(rows: Rows) {
    forall k, i :: 0 <= k < LISTS && 0 <= i < |rows.Lists()[k]| ==> OfList(k, rows.Lists()[k][i])
  }

  // Rows about the named package itself; references and maintainers are shared between packages.
  predicate About(name: string, row: Row) {
    match row
    case PackageRow(n, _) => n == name
    case VersionRow(n, _, _, _) => n == name
    case AnnotationRow(n, _, _, _, _) => n == name
    case HasVersionRow(n, _, _) => n == name
    case SampledRow(n, _, _) => n == name
    case DependsOnRow(n, _, _, _, _) => n == name
    case MaintainsRow(_, n, _, _, _) => n == name
    case _ => true
  }

  ghost predicate NodeIn(rows: Rows, end: (Element, Label)) {
    exists k, i :: 0 <= k < FIRST_LINK_LIST && 0 <= i < |rows.Lists()[k]|
      && rows.Lists()[k][i].Subject() == end.0 && rows.Lists()[k][i].Tag() == end.1
  }

  // Every endpoint of the package's links is among its own nodes.
  ghost predicate Closed(rows: Rows) {
    forall k, i, j :: FIRST_LINK_LIST <= k < LISTS && 0 <= i < |rows.Lists()[k]| && 0 <= j < |rows.Lists()[k][i].Ends()| ==>
      NodeIn(rows, rows.Lists()[k][i].Ends()[j])
  }

  // What a fetch of the named package delivers.
  ghost predicate Contribution(name: string, rows: Rows) {
    && Typed(rows)
    && Closed(rows)
    && forall k, i :: 0 <= k < LISTS && 0 <= i < |rows.Lists()[k]| ==> About(name, rows.Lists()[k][i])
  }

  type Fetched = map<string, Rows>

  ghost predicate Contributions(fetched: Fetched) {
    forall name :: name in fetched ==> Contribution(name, fetched[name])
  }

  // ---- dedupe

  predicate SeenBy<R, E(==)>(key: R -> E, rows: seq<R>, e: E) {
    exists i :: 0 <= i < |rows| && key(rows[i]) == e
  }

  function FirstBy<R, E(==)>(key: R -> E, rows: seq<R>): seq<R> {
    if rows == [] then []
    else
      var n := |rows| - 1;
      FirstBy(key, rows[..n]) + (if SeenBy(key, rows[..n], key(rows[n])) then [] else [rows[n]])
  }

  lemma SeenAppend<R, E>(key: R -> E, a: seq<R>, b: seq<R>, e: E)
    ensures SeenBy(key, a + b, e) <==> SeenBy(key, a, e) || SeenBy(key, b, e)
  {
    if i :| 0 <= i < |a| && key(a[i]) == e {
      assert key((a + b)[i]) == e;
    } else if i :| 0 <= i < |b| && key(b[i]) == e {
      assert key((a + b)[|a| + i]) == e;
    }
  }

  // The first row of each key is kept, no key twice and none lost.
  lemma {:induction false} FirstByKeepsOne<R, E(!new)>(key: R -> E, rows: seq<R>)
    ensures forall i, j :: 0 <= i < j < |FirstBy(key, rows)| ==> key(FirstBy(key, rows)[i]) != key(FirstBy(key, rows)[j])
    ensures forall r :: r in FirstBy(key, rows) ==> r in rows
    ensures forall e :: SeenBy(key, FirstBy(key, rows), e) <==> SeenBy(key, rows, e)
  {
    if rows != [] {
      var n := |rows| - 1;
      var rest := FirstBy(key, rows[..n]);
      FirstByKeepsOne(key, rows[..n]);
      forall e
        ensures SeenBy(key, FirstBy(key, rows), e) <==> SeenBy(key, rows, e)
      {
        SeenAppend(key, rest, FirstBy(key, rows)[|rest|..], e);
        SeenAppend(key, rows[..n], [rows[n]], e);
        assert FirstBy(key, rows) == rest + FirstBy(key, rows)[|rest|..];
        assert rows == rows[..n] + [rows[n]];
      }
    }
  }

  lemma InFirstBy<R, E>(key: R -> E, rows: seq<R>, last: R, row: R)
    ensures row in FirstBy(key, rows + [last]) <==> row in FirstBy(key, rows) || (row == last && !SeenBy(key, rows, key(last)))
  {
    assert (rows + [last])[..|rows|] == rows;
  }

  lemma {:induction false} FirstByAppend<R, E>(key: R -> E, a: seq<R>, b: seq<R>, row: R)
    ensures row in FirstBy(key, a + b) <==>
              row in FirstBy(key, a) || (row in FirstBy(key, b) && !SeenBy(key, a, key(row)))
  {
    if b == [] {
      assert a + b == a;
    } else {
      var n := |b| - 1;
      FirstByAppend(key, a, b[..n], row);
      assert b == b[..n] + [b[n]] && a + b == (a + b[..n]) + [b[n]];
      InFirstBy(key, a + b[..n], b[n], row);
      InFirstBy(key, b[..n], b[n], row);
      SeenAppend(key, a, b[..n], key(b[n]));
    }
  }

  ghost predicate ToldApart<R(!new), E(!new)>(key: R -> E, rows: seq<R>) {
    forall a, b :: a in rows && b in rows && key(a) == key(b) ==> a == b
  }

  // Nothing is dropped exactly when rows of one key are one row.
  lemma AllKeptIffToldApart<R(!new), E(!new)>(key: R -> E, rows: seq<R>)
    ensures (forall r :: r in rows ==> r in FirstBy(key, rows)) <==> ToldApart(key, rows)
  {
    FirstByKeepsOne(key, rows);
    var kept := FirstBy(key, rows);
    if forall r :: r in rows ==> r in kept {
      forall a, b | a in rows && b in rows && key(a) == key(b) ensures a == b {
        var i :| 0 <= i < |kept| && kept[i] == a;
        var j :| 0 <= j < |kept| && kept[j] == b;
      }
    } else {
      var r :| r in rows && r !in kept;
      assert SeenBy(key, rows, key(r));
      var i :| 0 <= i < |kept| && key(kept[i]) == key(r);
      assert kept[i] in rows;
    }
  }

  function SubjectOf(row: Row): Element {
    row.Subject()
  }

  predicate Seen(rows: seq<Row>, e: Element) {
    SeenBy(SubjectOf, rows, e)
  }

  function FirstOfEach(rows: seq<Row>): seq<Row> {
    FirstBy(SubjectOf, rows)
  }

  ghost predicate DistinctSubjects(rows: seq<Row>) {
    forall i, j :: 0 <= i < j < |rows| ==> rows[i].Subject() != rows[j].Subject()
  }

  lemma FirstOfEachKeepsOne(rows: seq<Row>)
    ensures DistinctSubjects(FirstOfEach(rows))
    ensures forall r :: r in FirstOfEach(rows) ==> r in rows
    ensures forall e :: Seen(FirstOfEach(rows), e) <==> Seen(rows, e)
  {
    FirstByKeepsOne(SubjectOf, rows);
    var kept := FirstOfEach(rows);
    forall i, j | 0 <= i < j < |kept|
      ensures kept[i].Subject() != kept[j].Subject()
    {
      assert SubjectOf(kept[i]) != SubjectOf(kept[j]);
    }
  }

  lemma FirstByOneMore<R, E(!new)>(key: R -> E, rows: seq<R>, i: nat)
    requires i < |rows|
    ensures FirstBy(key, rows[..i + 1]) == FirstBy(key, rows[..i]) + (if SeenBy(key, rows[..i], key(rows[i])) then [] else [rows[i]])
    ensures forall e :: SeenBy(key, rows[..i + 1], e) <==> SeenBy(key, rows[..i], e) || e == key(rows[i])
  {
    assert rows[..i + 1][..i] == rows[..i];
    assert rows[..i + 1] == rows[..i] + [rows[i]];
    forall e
      ensures SeenBy(key, rows[..i + 1], e) <==> SeenBy(key, rows[..i], e) || e == key(rows[i])
    {
      SeenAppend(key, rows[..i], [rows[i]], e);
      assert key([rows[i]][0]) == key(rows[i]);
    }
  }

  lemma FewAreKept<R, E>(key: R -> E, rows: seq<R>)
    requires |rows| < 2
    ensures FirstBy(key, rows) == rows
  {
    if |rows| == 1 {
      assert rows[..0] == [];
      assert FirstBy(key, rows) == FirstBy(key, []) + [rows[0]];
    }
  }

  method Dedupe(rows: seq<Row>) returns (out: seq<Row>)
    ensures out == FirstOfEach(rows)
  {
    if |rows| < 2 {
      FewAreKept(SubjectOf, rows);
      return rows;
    }
    var seen: set<Element> := {};
    out := [];
    for i := 0 to |rows|
      invariant forall e :: e in seen <==> Seen(rows[..i], e)
      invariant out == FirstOfEach(rows[..i])
    {
      FirstByOneMore(SubjectOf, rows, i);
      if rows[i].Subject() in seen {
        continue;
      }
      seen := seen + {rows[i].Subject()};
      out := out + [rows[i]];
    }
    assert rows[..|rows|] == rows;
  }

  // ---- what a batch sends

  ghost function Steps(rows: Rows): (steps: seq<seq<Row>>)
    ensures |steps| == LISTS
    ensures forall k :: 0 <= k < LISTS ==> steps[k] == FirstOfEach(rows.Lists()[k])
  {
    seq(LISTS, k requires 0 <= k < LISTS => FirstOfEach(rows.Lists()[k]))
  }

  ghost function Concat<T>(steps: seq<seq<T>>): seq<T> {
    if steps == [] then [] else Concat(steps[..|steps| - 1]) + steps[|steps| - 1]
  }

  ghost function Script(rows: Rows): seq<Row> {
    Concat(Steps(rows))
  }

  ghost function ScriptsOf(fetched: Fetched): Scripts {
    map name | name in fetched :: Script(fetched[name])
  }

  lemma {:induction false} InConcat<T>(steps: seq<seq<T>>, row: T)
    ensures row in Concat(steps) <==> exists k :: 0 <= k < |steps| && row in steps[k]
  {
    if steps != [] {
      var n := |steps| - 1;
      InConcat(steps[..n], row);
      if row in Concat(steps) && row !in steps[n] {
        var k :| 0 <= k < n && row in steps[..n][k];
        assert row in steps[k];
      }
      if k :| 0 <= k < |steps| && row in steps[k] && row !in steps[n] {
        assert row in steps[..n][k];
      }
    }
  }

  lemma {:induction false} ConcatPrefix<T>(steps: seq<seq<T>>, s: nat, cut: nat)
    requires s < |steps| && cut <= |steps[s]|
    ensures |Concat(steps[..s])| + cut <= |Concat(steps)|
    ensures Concat(steps)[..|Concat(steps[..s])| + cut] == Concat(steps[..s]) + steps[s][..cut]
  {
    var n := |steps| - 1;
    if s < n {
      ConcatPrefix(steps[..n], s, cut);
      assert steps[..n][..s] == steps[..s];
    }
  }

  // Once a list of links has begun, no later list holds a node.
  ghost predicate NodesFirst(steps: seq<seq<Row>>) {
    forall j, k, x, y :: 0 <= j <= k < |steps| && 0 <= x < |steps[j]| && 0 <= y < |steps[k]| && steps[j][x].IsLink() ==>
      steps[k][y].IsLink()
  }

  lemma {:induction false} NodesPrecede(steps: seq<seq<Row>>, i: nat, node: Row)
    requires NodesFirst(steps) && i < |Concat(steps)| && Concat(steps)[i].IsLink()
    requires node in Concat(steps) && !node.IsLink()
    ensures exists j :: 0 <= j < i && Concat(steps)[j] == node
  {
    var n := |steps| - 1;
    var front := Concat(steps[..n]);
    assert NodesFirst(steps[..n]);
    if i < |front| {
      if node in steps[n] {
        InConcat(steps[..n], front[i]);
        assert false;
      }
      NodesPrecede(steps[..n], i, node);
      var j :| 0 <= j < i && front[j] == node;
      assert Concat(steps)[j] == node;
    } else {
      var x := i - |front|;
      assert steps[n][x].IsLink();
      assert node !in steps[n];
      var j :| 0 <= j < |front| && front[j] == node;
      assert Concat(steps)[j] == node;
    }
  }

  // ---- batches of several packages

  ghost predicate Fetchable(names: seq<string>, fetched: Fetched) {
    forall i :: 0 <= i < |names| ==> names[i] in fetched
  }

  ghost function Gathered(names: seq<string>, fetched: Fetched): Rows
    requires Fetchable(names, fetched)
  {
    if names == [] then NO_ROWS
    else Gathered(names[..|names| - 1], fetched).Append(fetched[names[|names| - 1]])
  }

  ghost predicate Contributes(names: seq<string>, fetched: Fetched, k: nat, row: Row)
    requires k < LISTS
  {
    exists i :: 0 <= i < |names| && names[i] in fetched && row in FirstOfEach(fetched[names[i]].Lists()[k])
  }

  lemma {:induction false} GatheredIsTyped(names: seq<string>, fetched: Fetched)
    requires Contributions(fetched) && Fetchable(names, fetched)
    ensures Typed(Gathered(names, fetched))
  {
    if names != [] {
      var n := |names| - 1;
      GatheredIsTyped(names[..n], fetched);
      AppendLists(Gathered(names[..n], fetched), fetched[names[n]]);
    }
  }

  lemma AppendLists(a: Rows, b: Rows)
    ensures forall k :: 0 <= k < LISTS ==> a.Append(b).Lists()[k] == a.Lists()[k] + b.Lists()[k]
  {
  }

  lemma DifferentStatementsAgree(k: nat, l: nat, x: Row, y: Row)
    requires OfList(k, x) && OfList(l, y) && k != l
    ensures Compatible(x, y)
  {
  }

  // A row of one statement shared by two packages says the same from both.
  lemma SharedRowsAreEqual(k: nat, x: Row, a: string, y: Row, b: string)
    requires OfList(k, x) && OfList(k, y) && x.Subject() == y.Subject()
    requires About(a, x) && About(b, y)
    ensures a == b || x == y
  {
  }

  lemma ContributedRow(fetched: Fetched, name: string, k: nat, row: Row)
    requires Contributions(fetched) && name in fetched && k < LISTS
    requires row in FirstOfEach(fetched[name].Lists()[k])
    ensures OfList(k, row) && About(name, row)
  {
    FirstOfEachKeepsOne(fetched[name].Lists()[k]);
  }

  lemma ContributionsAgree(fetched: Fetched, a: string, k: nat, x: Row, b: string, l: nat, y: Row)
    requires Contributions(fetched) && a in fetched && b in fetched && k < LISTS && l < LISTS
    requires x in FirstOfEach(fetched[a].Lists()[k]) && y in FirstOfEach(fetched[b].Lists()[l])
    requires x.Subject() == y.Subject()
    ensures k == l ==> x == y
    ensures Compatible(x, y)
  {
    ContributedRow(fetched, a, k, x);
    ContributedRow(fetched, b, l, y);
    if k != l {
      DifferentStatementsAgree(k, l, x, y);
    } else {
      SharedRowsAreEqual(k, x, a, y, b);
      FirstOfEachKeepsOne(fetched[a].Lists()[k]);
    }
  }

  // Keeping the first of each across a batch keeps exactly the rows the packages would each keep on
  // their own: where the packages fall into batches, and in what order, changes nothing.
  lemma {:induction false} BatchRows(names: seq<string>, fetched: Fetched, k: nat, row: Row)
    requires Contributions(fetched) && k < LISTS
    requires Fetchable(names, fetched)
    ensures row in FirstOfEach(Gathered(names, fetched).Lists()[k]) <==> Contributes(names, fetched, k, row)
  {
    if names != [] {
      var n := |names| - 1;
      var front := names[..n];
      var earlier := Gathered(front, fetched);
      var last := fetched[names[n]];
      AppendLists(earlier, last);
      FirstByAppend(SubjectOf, earlier.Lists()[k], last.Lists()[k], row);
      BatchRows(front, fetched, k, row);
      ContributesSnoc(names, fetched, k, row);
      if row in FirstOfEach(last.Lists()[k]) && Seen(earlier.Lists()[k], row.Subject()) {
        FirstOfEachKeepsOne(earlier.Lists()[k]);
        assert Seen(FirstOfEach(earlier.Lists()[k]), row.Subject());
        var i :| 0 <= i < |FirstOfEach(earlier.Lists()[k])| && FirstOfEach(earlier.Lists()[k])[i].Subject() == row.Subject();
        var x := FirstOfEach(earlier.Lists()[k])[i];
        BatchRows(front, fetched, k, x);
        var j :| 0 <= j < |front| && front[j] in fetched && x in FirstOfEach(fetched[front[j]].Lists()[k]);
        ContributionsAgree(fetched, front[j], k, x, names[n], k, row);
      }
    } else {
      assert NO_ROWS.Lists()[k] == [];
    }
  }

  lemma ContributesSnoc(names: seq<string>, fetched: Fetched, k: nat, row: Row)
    requires k < LISTS && names != [] && names[|names| - 1] in fetched
    ensures Contributes(names, fetched, k, row) <==>
              Contributes(names[..|names| - 1], fetched, k, row) || row in FirstOfEach(fetched[names[|names| - 1]].Lists()[k])
  {
    var n := |names| - 1;
    if i :| 0 <= i < |names| && names[i] in fetched && row in FirstOfEach(fetched[names[i]].Lists()[k]) && i < n {
      assert names[..n][i] == names[i];
    }
    if i :| 0 <= i < n && names[..n][i] in fetched && row in FirstOfEach(fetched[names[..n][i]].Lists()[k]) {
      assert names[i] == names[..n][i];
    }
  }

  lemma InScript(rows: Rows, row: Row)
    ensures row in Script(rows) <==> exists k :: 0 <= k < LISTS && row in FirstOfEach(rows.Lists()[k])
  {
    InConcat(Steps(rows), row);
    if k :| 0 <= k < LISTS && row in FirstOfEach(rows.Lists()[k]) {
      assert row in Steps(rows)[k];
    }
    if k :| 0 <= k < LISTS && row in Steps(rows)[k] {
      assert row in FirstOfEach(rows.Lists()[k]);
    }
  }

  lemma ScriptsAgree(fetched: Fetched)
    requires Contributions(fetched)
    ensures Agree(AllRows(ScriptsOf(fetched)))
  {
    var rows := AllRows(ScriptsOf(fetched));
    forall x, y | x in rows && y in rows && x.Subject() == y.Subject()
      ensures Compatible(x, y)
    {
      var a :| a in fetched && x in Script(fetched[a]);
      var b :| b in fetched && y in Script(fetched[b]);
      InScript(fetched[a], x);
      InScript(fetched[b], y);
      var k :| 0 <= k < LISTS && x in FirstOfEach(fetched[a].Lists()[k]);
      var l :| 0 <= l < LISTS && y in FirstOfEach(fetched[b].Lists()[l]);
      ContributionsAgree(fetched, a, k, x, b, l, y);
    }
  }

  lemma BatchIsWithin(names: seq<string>, fetched: Fetched, row: Row)
    requires Contributions(fetched) && Fetchable(names, fetched)
    requires row in Script(Gathered(names, fetched))
    ensures exists i :: 0 <= i < |names| && row in Script(fetched[names[i]])
  {
    InScript(Gathered(names, fetched), row);
    var k :| 0 <= k < LISTS && row in FirstOfEach(Gathered(names, fetched).Lists()[k]);
    BatchRows(names, fetched, k, row);
    var i :| 0 <= i < |names| && names[i] in fetched && row in FirstOfEach(fetched[names[i]].Lists()[k]);
    InScript(fetched[names[i]], row);
  }

  lemma BatchCovers(names: seq<string>, fetched: Fetched, i: nat, row: Row)
    requires Contributions(fetched) && Fetchable(names, fetched)
    requires i < |names| && row in Script(fetched[names[i]])
    ensures row in Script(Gathered(names, fetched))
  {
    InScript(fetched[names[i]], row);
    var k :| 0 <= k < LISTS && row in FirstOfEach(fetched[names[i]].Lists()[k]);
    BatchRows(names, fetched, k, row);
    InScript(Gathered(names, fetched), row);
  }

  lemma BatchIsTheirs(names: seq<string>, fetched: Fetched)
    requires Contributions(fetched) && Fetchable(names, fetched)
    ensures forall row :: row in Script(Gathered(names, fetched)) ==> row in AllRows(ScriptsOf(fetched))
    ensures forall i :: 0 <= i < |names| ==> Covers(Script(Gathered(names, fetched)), ScriptsOf(fetched)[names[i]])
  {
    forall row | row in Script(Gathered(names, fetched))
      ensures row in AllRows(ScriptsOf(fetched))
    {
      BatchIsWithin(names, fetched, row);
      var i :| 0 <= i < |names| && row in Script(fetched[names[i]]);
      assert row in ScriptsOf(fetched)[names[i]];
    }
    forall i | 0 <= i < |names|
      ensures Covers(Script(Gathered(names, fetched)), ScriptsOf(fetched)[names[i]])
    {
      forall row | row in Script(fetched[names[i]])
        ensures row in Script(Gathered(names, fetched))
      {
        BatchCovers(names, fetched, i, row);
      }
    }
  }

  lemma StepIsTyped(rows: Rows, k: nat)
    requires Typed(rows) && k < LISTS
    ensures forall i :: 0 <= i < |Steps(rows)[k]| ==> Steps(rows)[k][i].IsLink() == (k >= FIRST_LINK_LIST)
    ensures Statement(Steps(rows)[k])
  {
    var step := FirstOfEach(rows.Lists()[k]);
    FirstOfEachKeepsOne(rows.Lists()[k]);
    forall i | 0 <= i < |step|
      ensures step[i].IsLink() == (k >= FIRST_LINK_LIST)
    {
      assert step[i] in rows.Lists()[k];
      OneTagPerList(k, step[i], step[i]);
    }
  }

  lemma StepsAreOrdered(rows: Rows)
    requires Typed(rows)
    ensures NodesFirst(Steps(rows))
    ensures AllStatements(Steps(rows))
  {
    forall k | 0 <= k < LISTS
      ensures Statement(Steps(rows)[k])
      ensures forall i :: 0 <= i < |Steps(rows)[k]| ==> Steps(rows)[k][i].IsLink() == (k >= FIRST_LINK_LIST)
    {
      StepIsTyped(rows, k);
    }
  }

  ghost predicate AllStatements(steps: seq<seq<Row>>) {
    forall k :: 0 <= k < |steps| ==> Statement(steps[k])
  }

  // A package's own node for an endpoint is one of the rows its script sends.
  lemma NodeIsSent(rows: Rows, end: (Element, Label)) returns (node: Row)
    requires Typed(rows) && NodeIn(rows, end)
    ensures node in Script(rows) && node.Subject() == end.0 && node.Tag() == end.1 && !node.IsLink()
  {
    var k, i :| 0 <= k < FIRST_LINK_LIST && 0 <= i < |rows.Lists()[k]|
      && rows.Lists()[k][i].Subject() == end.0 && rows.Lists()[k][i].Tag() == end.1;
    node := FirstSeen(rows.Lists()[k], end.0);
    OneTagPerList(k, node, rows.Lists()[k][i]);
    InScript(rows, node);
  }

  lemma FirstSeen(rows: seq<Row>, e: Element) returns (row: Row)
    requires Seen(rows, e)
    ensures row in FirstOfEach(rows) && row in rows && row.Subject() == e
  {
    FirstOfEachKeepsOne(rows);
    var kept := FirstOfEach(rows);
    assert Seen(kept, e);
    var i :| 0 <= i < |kept| && kept[i].Subject() == e;
    row := kept[i];
  }

  lemma OneTagPerList(k: nat, x: Row, y: Row)
    requires OfList(k, x) && OfList(k, y)
    ensures x.Tag() == y.Tag()
    ensures x.IsLink() <==> k >= FIRST_LINK_LIST
  {
  }

  lemma EndIsSentFirst(g: Graph, names: seq<string>, fetched: Fetched, i: nat, e: nat)
    requires Contributions(fetched) && Fetchable(names, fetched)
    requires NodesFirst(Steps(Gathered(names, fetched)))
    requires i < |Script(Gathered(names, fetched))| && e < |Script(Gathered(names, fetched))[i].Ends()|
    ensures EndReady(g, Script(Gathered(names, fetched))[..i], Script(Gathered(names, fetched))[i].Ends()[e])
  {
    var sent := Script(Gathered(names, fetched));
    SubjectKinds(sent[i]);
    BatchIsWithin(names, fetched, sent[i]);
    var m :| 0 <= m < |names| && sent[i] in Script(fetched[names[m]]);
    EndIsOwn(names[m], fetched[names[m]], sent[i], e);
    var node := NodeIsSent(fetched[names[m]], sent[i].Ends()[e]);
    BatchCovers(names, fetched, m, node);
    NodesPrecede(Steps(Gathered(names, fetched)), i, node);
    var j :| 0 <= j < i && sent[j] == node;
    assert sent[..i][j] == node;
  }

  // A batch never sends an edge before both its endpoints.
  lemma BatchIsSupported(g: Graph, names: seq<string>, fetched: Fetched)
    requires Contributions(fetched) && Fetchable(names, fetched)
    ensures Supported(g, Script(Gathered(names, fetched)))
  {
    var sent := Script(Gathered(names, fetched));
    GatheredIsTyped(names, fetched);
    StepsAreOrdered(Gathered(names, fetched));
    forall i, e | 0 <= i < |sent| && 0 <= e < |sent[i].Ends()|
      ensures EndReady(g, sent[..i], sent[i].Ends()[e])
    {
      EndIsSentFirst(g, names, fetched, i, e);
    }
  }

  lemma BatchIsReady(g: Graph, names: seq<string>, fetched: Fetched)
    requires Contributions(fetched) && Fetchable(names, fetched)
    ensures Typed(Gathered(names, fetched))
    ensures Ready(g, Script(Gathered(names, fetched)), names, ScriptsOf(fetched))
  {
    GatheredIsTyped(names, fetched);
    ScriptsAgree(fetched);
    BatchIsSupported(g, names, fetched);
    BatchIsTheirs(names, fetched);
  }

  lemma EndIsOwn(name: string, rows: Rows, link: Row, e: nat)
    requires Contribution(name, rows) && link in Script(rows) && link.IsLink() && e < |link.Ends()|
    ensures NodeIn(rows, link.Ends()[e])
  {
    InScript(rows, link);
    var k :| 0 <= k < LISTS && link in FirstOfEach(rows.Lists()[k]);
    FirstOfEachKeepsOne(rows.Lists()[k]);
    var i :| 0 <= i < |rows.Lists()[k]| && rows.Lists()[k][i] == link;
    assert OfList(k, link);
  }

  method DedupeAll(rows: Rows) returns (steps: seq<seq<Row>>)
    ensures steps == Steps(rows)
  {
    var lists := rows.Lists();
    steps := [];
    for k := 0 to LISTS
      invariant |steps| == k
      invariant forall j :: 0 <= j < k ==> steps[j] == FirstOfEach(lists[j])
    {
      var kept := Dedupe(lists[k]);
      steps := steps + [kept];
    }
  }

  lemma ConcatSnoc<T>(steps: seq<seq<T>>, s: nat)
    requires s < |steps|
    ensures Concat(steps[..s + 1]) == Concat(steps[..s]) + steps[s]
  {
    assert steps[..s + 1][..s] == steps[..s];
  }

  // After the first `cut` rows of the steps, and after the first `s` steps.
  ghost predicate Sent<S, T>(step: (S, T) -> S, start: S, now: S, steps: seq<seq<T>>, cut: nat) {
    cut <= |Concat(steps)| && now == Fold(step, start, Concat(steps)[..cut])
  }

  ghost predicate SentSteps<S, T>(step: (S, T) -> S, start: S, now: S, steps: seq<seq<T>>, s: nat) {
    s <= |steps| && now == Fold(step, start, Concat(steps[..s]))
  }

  lemma StepSent<S, T>(step: (S, T) -> S, start: S, before: S, after: S, steps: seq<seq<T>>, s: nat, sent: nat, cut: nat)
    requires s < |steps| && sent <= |steps[s]| && cut == |Concat(steps[..s])| + sent
    requires SentSteps(step, start, before, steps, s) && after == Fold(step, before, steps[s][..sent])
    ensures Sent(step, start, after, steps, cut)
    ensures sent == |steps[s]| ==> SentSteps(step, start, after, steps, s + 1)
  {
    ConcatPrefix(steps, s, sent);
    FoldConcat(step, start, Concat(steps[..s]), steps[s][..sent]);
    if sent == |steps[s]| {
      assert steps[s][..sent] == steps[s];
      ConcatSnoc(steps, s);
    }
  }

  lemma NoneSent<S, T>(step: (S, T) -> S, start: S, steps: seq<seq<T>>)
    ensures SentSteps(step, start, start, steps, 0)
  {
    assert steps[..0] == [];
  }

  lemma AllSent<S, T>(step: (S, T) -> S, start: S, now: S, steps: seq<seq<T>>, cut: nat)
    requires SentSteps(step, start, now, steps, |steps|) && cut == |Concat(steps)|
    ensures Sent(step, start, now, steps, cut)
  {
    assert steps[..|steps|] == steps;
    assert Concat(steps)[..|Concat(steps)|] == Concat(steps);
  }

  lemma GatheredSnoc(names: seq<string>, name: string, fetched: Fetched)
    requires name in fetched && Fetchable(names, fetched)
    ensures Fetchable(names + [name], fetched)
    ensures Gathered(names + [name], fetched) == Gathered(names, fetched).Append(fetched[name])
  {
    assert (names + [name])[..|names|] == names;
  }

  // ---- the run

  class Ingester {
    const db: Client
    const file: C.File
    const batch: int

    constructor (db: Client, file: C.File, batch: int)
      ensures this.db == db && this.file == file && this.batch == batch
    {
      this.db, this.file, this.batch := db, file, batch;
    }

    ghost predicate Safe(base: Graph, fetched: Fetched)
      reads db, file
    {
      Durable(db.graph, base, file.lines, ScriptsOf(fetched))
    }

    // Nothing fails for as long as this holds.
    predicate Undisturbed()
      reads db, file
    {
      db.healthy && file.healthy && batch <= MAX_BATCH
    }

    // Issues the statements in order. It may stop after any row.
    method Issue(steps: seq<seq<Row>>) returns (ok: bool, ghost cut: nat)
      requires AllStatements(steps)
      modifies db`graph
      ensures db.healthy && batch <= MAX_BATCH ==> ok
      ensures Sent(Apply, old(db.graph), db.graph, steps, cut)
      ensures ok ==> cut == |Concat(steps)|
    {
      NoneSent(Apply, db.graph, steps);
      for s := 0 to |steps|
        invariant SentSteps(Apply, old(db.graph), db.graph, steps, s)
      {
        ghost var before := db.graph;
        ghost var sent := 0;
        if steps[s] != [] {
          var written;
          ghost var through;
          ok, written, through, sent := db.WriteBatch(steps[s], batch);
          if !ok {
            cut := |Concat(steps[..s])| + sent;
            StepSent(Apply, old(db.graph), before, db.graph, steps, s, sent, cut);
            return;
          }
        }
        StepSent(Apply, old(db.graph), before, db.graph, steps, s, sent, |Concat(steps[..s])| + sent);
      }
      ok, cut := true, |Concat(steps)|;
      AllSent(Apply, old(db.graph), db.graph, steps, cut);
    }

    // Sends one accumulated batch, nodes before edges.
    method Write(pending: Rows) returns (ok: bool, ghost cut: nat)
      requires Typed(pending)
      modifies db`graph
      ensures db.healthy && batch <= MAX_BATCH ==> ok
      ensures cut <= |Script(pending)| && (ok ==> cut == |Script(pending)|)
      ensures db.graph == ApplyAll(old(db.graph), Script(pending)[..cut])
    {
      var steps := DedupeAll(pending);
      StepsAreOrdered(pending);
      ok, cut := Issue(steps);
    }

    // Writes the batch and then records its names. A crash may come anywhere in either.
    method Flush(done: C.Checkpoint, pending: Rows, names: seq<string>, ghost base: Graph, ghost fetched: Fetched)
        returns (ok: bool)
      requires Contributions(fetched) && Safe(base, fetched) && done.file == file
      requires Fetchable(names, fetched)
      requires pending == Gathered(names, fetched)
      modifies db`graph, file`lines, done
      ensures Safe(base, fetched)
      ensures Undisturbed() ==> ok
      ensures exists recorded :: 0 <= recorded <= |names| && file.lines == old(file.lines) + names[..recorded]
      ensures ok ==> file.lines == old(file.lines) + names
    {
      if names == [] {
        assert file.lines == old(file.lines) + names[..0];
        return true;
      }
      ghost var scripts := ScriptsOf(fetched);
      ghost var sent := Script(pending);
      ghost var start := db.graph;
      BatchIsReady(start, names, fetched);
      ghost var cut;
      ok, cut := Write(pending);
      CutShortIsSafe(start, base, file.lines, scripts, sent, names, cut);
      if !ok {
        assert file.lines == old(file.lines) + names[..0];
        return;
      }
      assert sent[..cut] == sent;
      ghost var recorded;
      ok, recorded := done.Record(names);
      FlushedIsSafe(start, base, old(file.lines), scripts, sent, names, recorded);
      if ok {
        assert names[..recorded] == names;
      }
    }

    // One run: skips what is recorded, takes results in whatever order they arrive, flushes when
    // enough has gathered and once at the end. Unless nothing disturbs it, it may be cut short
    // anywhere. A name that cannot be fetched, this time or ever, is left for a later run.
    method Run(names: seq<string>, fetched: Fetched, unavailable: set<string>, ghost base: Graph)
        returns (ok: bool, missing: set<string>)
      requires Contributions(fetched) && Safe(base, fetched)
      modifies db`graph, file`lines
      ensures Safe(base, fetched)
      ensures old(file.lines) <= file.lines
      ensures missing * fetched.Keys <= unavailable
      ensures ok ==> forall i :: 0 <= i < |names| ==> names[i] in file.lines || names[i] in missing
      ensures Undisturbed() ==> ok
    {
      var done := new C.Checkpoint.Open(file);
      var jobs := done.Unrecorded(names);
      missing := {};
      var pending, gathered: seq<string> := NO_ROWS, [];
      while jobs != []
        invariant done.file == file && fresh(done)
        invariant Safe(base, fetched)
        invariant old(file.lines) <= file.lines
        invariant missing * fetched.Keys <= unavailable
        invariant Fetchable(gathered, fetched)
        invariant pending == Gathered(gathered, fetched)
        invariant C.Accounted(names, file.lines, jobs, gathered, missing)
        decreases |jobs|
      {
        var name;
        name, jobs := C.NextToArrive(jobs);
        if name in unavailable || name !in fetched {
          missing := missing + {name};
          continue;
        }
        GatheredSnoc(gathered, name, fetched);
        pending, gathered := pending.Append(fetched[name]), gathered + [name];
        if pending.NodeCount() + pending.EdgeCount() >= FLUSH_AT {
          ok := Flush(done, pending, gathered, base, fetched);
          if !ok {
            return;
          }
          pending, gathered := NO_ROWS, [];
        }
      }
      ok := Flush(done, pending, gathered, base, fetched);
    }

    // Any number of disturbed runs, then one that nothing disturbs: the graph is the one a single
    // batch of everything there is to fetch would have left.
    method RunUntilDone(names: seq<string>, fetched: Fetched, outages: seq<set<string>>, ghost base: Graph)
      requires Contributions(fetched) && Safe(base, fetched) && batch <= MAX_BATCH
      requires forall name :: name in fetched ==> name in names
      modifies db, file
      ensures Safe(base, fetched)
      ensures db.graph == ApplyAll(base, Script(Gathered(C.KnownAmong(names, fetched.Keys), fetched)))
    {
      for i := 0 to |outages|
        invariant Safe(base, fetched)
      {
        db.healthy, file.healthy := *, *;
        var _, _ := Run(names, fetched, outages[i], base);
      }
      db.healthy, file.healthy := true, true;
      var _, missing := Run(names, fetched, {}, base);
      assert missing * fetched.Keys == {};
      C.KnownAreRecorded(names, fetched.Keys, file.lines, missing);
      AllRecorded(db.graph, file.lines, base, C.KnownAmong(names, fetched.Keys), fetched);
    }
  }

  lemma StartsSafe(base: Graph, fetched: Fetched)
    ensures Durable(base, base, [], ScriptsOf(fetched))
  {
    StartsBetween(base, AllRows(ScriptsOf(fetched)));
  }

  // One batch of everything is a finished load.
  lemma OneBatchIsFinished(base: Graph, names: seq<string>, fetched: Fetched)
    requires Contributions(fetched) && Fetchable(names, fetched)
    ensures Durable(ApplyAll(base, Script(Gathered(names, fetched))), base, names, ScriptsOf(fetched))
  {
    StartsSafe(base, fetched);
    BatchIsReady(base, names, fetched);
    FlushedIsSafe(base, base, [], ScriptsOf(fetched), Script(Gathered(names, fetched)), names, |names|);
    assert [] + names[..|names|] == names;
  }

  // Whatever came before, a load that has recorded every name has left that same graph.
  lemma AllRecorded(g: Graph, lines: seq<string>, base: Graph, names: seq<string>, fetched: Fetched)
    requires Contributions(fetched) && Durable(g, base, lines, ScriptsOf(fetched))
    requires forall name :: name in names <==> name in fetched
    requires forall i :: 0 <= i < |names| ==> names[i] in lines
    ensures g == ApplyAll(base, Script(Gathered(names, fetched)))
  {
    OneBatchIsFinished(base, names, fetched);
    FinishedLoadsAgree(g, lines, ApplyAll(base, Script(Gathered(names, fetched))), names, base, ScriptsOf(fetched));
  }

  // In any such load, finished or not, a recorded package's kept links are in the graph.
  lemma RecordedLinksLand(g: Graph, base: Graph, lines: seq<string>, fetched: Fetched, name: string)
    requires Durable(g, base, lines, ScriptsOf(fetched)) && name in fetched && name in lines
    ensures Landed(g, FirstOfEach(fetched[name].dependsOn))
  {
    var i :| 0 <= i < |lines| && lines[i] == name;
    assert Landed(g, ScriptsOf(fetched)[lines[i]]);
    forall row | row in FirstOfEach(fetched[name].dependsOn) ensures Written(g, row) {
      assert fetched[name].Lists()[7] == fetched[name].dependsOn;
      InScript(fetched[name], row);
    }
  }
}
