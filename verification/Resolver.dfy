// The resumable resolution pass (writeLoop in internal/resolve/resolve.go). Its rows are links
// between versions an ingest has already written, and it keeps the same promise about them.
module Resolver {
  import opened GraphWrites
  import opened Durability
  import C = Checkpoint

  const FLUSH_AT := 2048

  // Every window's versions are in the graph, and no two rows disagree about one edge.
  ghost predicate Resolvable(base: Graph, targets: Scripts) {
    && Agree(AllRows(targets))
    && forall row :: row in AllRows(targets) ==> row.ResolvesToRow? && Found(base, row)
  }

  ghost function Gathered(names: seq<string>, targets: Scripts): seq<Row>
    requires forall i :: 0 <= i < |names| ==> names[i] in targets
  {
    if names == [] then [] else Gathered(names[..|names| - 1], targets) + targets[names[|names| - 1]]
  }

  lemma {:induction false} GatheredIsTheirs(names: seq<string>, targets: Scripts)
    requires forall i :: 0 <= i < |names| ==> names[i] in targets
    ensures forall i :: 0 <= i < |Gathered(names, targets)| ==> Gathered(names, targets)[i] in AllRows(targets)
    ensures forall i :: 0 <= i < |names| ==> Covers(Gathered(names, targets), targets[names[i]])
  {
    if names != [] {
      var n := |names| - 1;
      GatheredIsTheirs(names[..n], targets);
      var front, last := Gathered(names[..n], targets), targets[names[n]];
      forall i | 0 <= i < |front| + |last|
        ensures (front + last)[i] in AllRows(targets)
      {
        if i >= |front| {
          assert (front + last)[i] == last[i - |front|];
          assert last[i - |front|] in targets[names[n]];
        } else {
          assert (front + last)[i] == Gathered(names[..n], targets)[i];
        }
      }
      forall i | 0 <= i < |names|
        ensures Covers(Gathered(names, targets), targets[names[i]])
      {
        if i < n {
          assert names[..n][i] == names[i];
          assert Covers(Gathered(names[..n], targets), targets[names[i]]);
        } else {
          assert Gathered(names, targets) == Gathered(names[..n], targets) + targets[names[n]];
        }
      }
    }
  }

  lemma FoundPersists(g: Graph, base: Graph, rows: set<Row>, row: Row)
    requires Between(g, base, rows) && Found(base, row)
    ensures Found(g, row)
  {
    forall k | 0 <= k < |row.Ends()|
      ensures Has(g, row.Ends()[k])
    {
      assert Has(base, row.Ends()[k]);
      assert Keeps(base[row.Ends()[k].0], g[row.Ends()[k].0]);
    }
  }

  lemma BatchIsReady(g: Graph, base: Graph, names: seq<string>, targets: Scripts)
    requires Resolvable(base, targets) && Between(g, base, AllRows(targets))
    requires forall i :: 0 <= i < |names| ==> names[i] in targets
    ensures Statement(Gathered(names, targets))
    ensures Ready(g, Gathered(names, targets), names, targets)
  {
    var sent := Gathered(names, targets);
    GatheredIsTheirs(names, targets);
    forall i, k | 0 <= i < |sent| && 0 <= k < |sent[i].Ends()|
      ensures EndReady(g, sent[..i], sent[i].Ends()[k])
    {
      assert sent[i] in AllRows(targets);
      FoundPersists(g, base, AllRows(targets), sent[i]);
    }
  }

  class Resolver {
    const db: Client
    const file: C.File
    const batch: int

    constructor (db: Client, file: C.File, batch: int)
      ensures this.db == db && this.file == file && this.batch == batch
    {
      this.db, this.file, this.batch := db, file, batch;
    }

    ghost predicate Safe(base: Graph, targets: Scripts)
      reads db, file
    {
      Durable(db.graph, base, file.lines, targets)
    }

    predicate Undisturbed()
      reads db, file
    {
      db.healthy && file.healthy && batch <= MAX_BATCH
    }

    // A target with no rows is recorded all the same.
    method Flush(done: C.Checkpoint, pending: seq<Row>, names: seq<string>, ghost base: Graph, ghost targets: Scripts)
        returns (ok: bool)
      requires Resolvable(base, targets) && Safe(base, targets) && done.file == file
      requires forall i :: 0 <= i < |names| ==> names[i] in targets
      requires pending == Gathered(names, targets)
      modifies db`graph, file`lines, done
      ensures Safe(base, targets)
      ensures Undisturbed() ==> ok
      ensures exists recorded :: 0 <= recorded <= |names| && file.lines == old(file.lines) + names[..recorded]
      ensures ok ==> file.lines == old(file.lines) + names
    {
      if names == [] {
        assert file.lines == old(file.lines) + names[..0];
        return true;
      }
      ghost var start := db.graph;
      BatchIsReady(start, base, names, targets);
      if pending != [] {
        ghost var cut;
        ghost var through;
        var written;
        ok, written, through, cut := db.WriteBatch(pending, batch);
        CutShortIsSafe(start, base, file.lines, targets, pending, names, cut);
        if !ok {
          assert file.lines == old(file.lines) + names[..0];
          return;
        }
        assert pending[..cut] == pending;
      }
      ghost var recorded;
      ok, recorded := done.Record(names);
      FlushedIsSafe(start, base, old(file.lines), targets, pending, names, recorded);
      if ok {
        assert names[..recorded] == names;
      }
    }

    // One run over the targets, in whatever order their rows arrive. Unless nothing disturbs it, it may
    // be cut short anywhere; a target that cannot be read is left for a later run.
    method Run(names: seq<string>, targets: Scripts, unavailable: set<string>, ghost base: Graph)
        returns (ok: bool, missing: set<string>)
      requires Resolvable(base, targets) && Safe(base, targets)
      modifies db`graph, file`lines
      ensures Safe(base, targets)
      ensures old(file.lines) <= file.lines
      ensures missing * targets.Keys <= unavailable
      ensures Undisturbed() ==> ok
      ensures ok ==> forall i :: 0 <= i < |names| ==> names[i] in file.lines || names[i] in missing
    {
      var done := new C.Checkpoint.Open(file);
      var jobs := done.Unrecorded(names);
      missing := {};
      var pending: seq<Row>, gathered: seq<string> := [], [];
      while jobs != []
        invariant done.file == file && fresh(done)
        invariant Safe(base, targets)
        invariant old(file.lines) <= file.lines
        invariant missing * targets.Keys <= unavailable
        invariant forall j :: 0 <= j < |gathered| ==> gathered[j] in targets
        invariant pending == Gathered(gathered, targets)
        invariant C.Accounted(names, file.lines, jobs, gathered, missing)
        decreases |jobs|
      {
        var name;
        name, jobs := C.NextToArrive(jobs);
        if name in unavailable || name !in targets {
          missing := missing + {name};
          continue;
        }
        GatheredSnoc(gathered, name, targets);
        pending, gathered := pending + targets[name], gathered + [name];
        if |pending| >= FLUSH_AT {
          ok := Flush(done, pending, gathered, base, targets);
          if !ok {
            return;
          }
          pending, gathered := [], [];
        }
      }
      ok := Flush(done, pending, gathered, base, targets);
    }

    // Any number of disturbed runs, then one that nothing disturbs: the graph is the one a single batch
    // of every target's windows would have left.
    method RunUntilDone(names: seq<string>, targets: Scripts, outages: seq<set<string>>, ghost base: Graph)
      requires Resolvable(base, targets) && Safe(base, targets) && batch <= MAX_BATCH
      requires forall name :: name in targets ==> name in names
      modifies db, file
      ensures Safe(base, targets)
      ensures db.graph == ApplyAll(base, Gathered(C.KnownAmong(names, targets.Keys), targets))
    {
      for i := 0 to |outages|
        invariant Safe(base, targets)
      {
        db.healthy, file.healthy := *, *;
        var _, _ := Run(names, targets, outages[i], base);
      }
      db.healthy, file.healthy := true, true;
      var _, missing := Run(names, targets, {}, base);
      assert missing * targets.Keys == {};
      C.KnownAreRecorded(names, targets.Keys, file.lines, missing);
      AllRecorded(db.graph, file.lines, base, C.KnownAmong(names, targets.Keys), targets);
    }
  }

  lemma GatheredSnoc(names: seq<string>, name: string, targets: Scripts)
    requires name in targets && forall i :: 0 <= i < |names| ==> names[i] in targets
    ensures Gathered(names + [name], targets) == Gathered(names, targets) + targets[name]
  {
    assert (names + [name])[..|names|] == names;
  }

  // One batch of every target is a finished pass.
  lemma OneBatchIsFinished(base: Graph, names: seq<string>, targets: Scripts)
    requires Resolvable(base, targets) && forall i :: 0 <= i < |names| ==> names[i] in targets
    ensures Durable(ApplyAll(base, Gathered(names, targets)), base, names, targets)
  {
    StartsBetween(base, AllRows(targets));
    BatchIsReady(base, base, names, targets);
    FlushedIsSafe(base, base, [], targets, Gathered(names, targets), names, |names|);
    assert [] + names[..|names|] == names;
  }

  // Whatever came before, a pass that has recorded every target has left that same graph.
  lemma AllRecorded(g: Graph, lines: seq<string>, base: Graph, names: seq<string>, targets: Scripts)
    requires Resolvable(base, targets) && Durable(g, base, lines, targets)
    requires forall name :: name in names <==> name in targets
    requires forall i :: 0 <= i < |names| ==> names[i] in lines
    ensures g == ApplyAll(base, Gathered(names, targets))
  {
    OneBatchIsFinished(base, names, targets);
    FinishedLoadsAgree(g, lines, ApplyAll(base, Gathered(names, targets)), names, base, targets);
  }
}
