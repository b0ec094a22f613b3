// Removal analysis (internal/query/cut.go): what becomes unreachable when one account's packages are
// taken out, found by replaying the cached search with those versions blocked.
module Cut {
  import opened Wrappers
  import opened Sorting
  import opened Text
  import opened Intervals
  import opened Snapshot
  import opened IntervalSearch
  import opened TwoPass
  import opened Packages
  import opened Roster

  datatype Removal = Removal(handle: string, controls: nat, packages: nat, versions: int, beyond: nat, orphaned: seq<string>)

  // Dominance, stated on walks: at every instant, every walk of at most d edges to v meets a version
  // of one of these packages.
  ghost predicate Meets(path: seq<Edge>, a: Urn, pkgs: set<string>) {
    PackageIn(a, pkgs) || exists e :: e in path && PackageIn(e.to, pkgs)
  }

  predicate PackageIn(v: Urn, pkgs: set<string>) {
    PackageOf(v) != "" && PackageOf(v) in pkgs
  }

  ghost predicate Dominates(q: Search, d: nat, pkgs: set<string>, v: Urn) {
    forall t, a, path :: Starts(q, a, t) && |path| <= d && IsWalk(q, path, a, v, t) ==> Meets(path, a, pkgs)
  }

  // The reached versions of the given packages, which is what gets blocked.
  ghost function VersionsOf(reached: Reached, pkgs: set<string>): set<Urn> {
    set v | v in reached && PackageIn(v, pkgs)
  }

  ghost function LostVersions(q: Search, d: nat, reached: Reached, pkgs: set<string>): set<Urn> {
    set v | v in reached && Dominates(q, d, pkgs, v)
  }

  ghost function LostPackages(q: Search, d: nat, reached: Reached, pkgs: set<string>): set<string> {
    PackagesOf(reached.Keys) - PackagesOf(reached.Keys - LostVersions(q, d, reached, pkgs))
  }

  // A reached version is lost to a replay without the blocked versions exactly when it was dominated.
  lemma CutIsDominance(q: Search, d: nat, reached: Reached, pkgs: set<string>, after: Reached)
    requires q.blocked == {} && Tidy(reached) && IsLayer(q, reached, d)
    requires Tidy(after) && IsLayer(q.(blocked := VersionsOf(reached, pkgs)), after, d)
    ensures after.Keys == reached.Keys - LostVersions(q, d, reached, pkgs)
  {
    var q' := q.(blocked := VersionsOf(reached, pkgs));
    forall v ensures v in after <==> v in reached && !Dominates(q, d, pkgs, v) {
      if v in after {
        FirstInstantIsCovered(after[v]);
        var t := after[v][0].from;
        assert Held(after, v, t);
        var a, path := WalkOf(q', v, t, d);
        UnblockedWalk(q, d, reached, pkgs, a, path, v, t);
        Deeper(q, v, t, |path|, d);
        assert ReachedWithin(q, v, t, d) && Held(reached, v, t);
        assert !Meets(path, a, pkgs);
      }
      if !Dominates(q, d, pkgs, v) {
        var t, a, path :| Starts(q, a, t) && |path| <= d && IsWalk(q, path, a, v, t) && !Meets(path, a, pkgs);
        AvoidingWalk(q, q', a, path, v, t, pkgs);
        WalkIsReached(q', a, path, v, t, d);
        assert Held(after, v, t);
      }
    }
  }

  // A walk that keeps clear of the blocked versions is a walk of the whole graph meeting no package
  // of the account: whatever it meets was reached, so would have been blocked.
  lemma {:induction false} UnblockedWalk(q: Search, d: nat, reached: Reached, pkgs: set<string>, a: Urn, path: seq<Edge>,
      v: Urn, t: int)
    requires q.blocked == {} && IsLayer(q, reached, d) && |path| <= d
    requires Starts(q.(blocked := VersionsOf(reached, pkgs)), a, t)
    requires IsWalk(q.(blocked := VersionsOf(reached, pkgs)), path, a, v, t)
    ensures Starts(q, a, t) && IsWalk(q, path, a, v, t) && !Meets(path, a, pkgs)
    ensures ReachedWithin(q, v, t, |path|)
  {
    if path == [] {
      Deeper(q, a, t, 0, d);
      assert Held(reached, a, t);
    } else {
      var last, head := path[|path| - 1], path[..|path| - 1];
      UnblockedWalk(q, d, reached, pkgs, a, head, last.from, t);
      StepReaches(q, last, t, |head|);
      Deeper(q, v, t, |path|, d);
      assert Held(reached, v, t);
      assert !PackageIn(v, pkgs);
      assert path == head + [last];
    }
  }

  lemma {:induction false} AvoidingWalk(q: Search, q': Search, a: Urn, path: seq<Edge>, v: Urn, t: int, pkgs: set<string>)
    requires q.blocked == {} && q' == q.(blocked := q'.blocked) && forall n :: n in q'.blocked ==> PackageIn(n, pkgs)
    requires Starts(q, a, t) && IsWalk(q, path, a, v, t) && !Meets(path, a, pkgs)
    ensures Starts(q', a, t) && IsWalk(q', path, a, v, t)
  {
    if path != [] {
      var last, head := path[|path| - 1], path[..|path| - 1];
      assert last in path;
      AvoidingWalk(q, q', a, head, last.from, t, pkgs);
    }
  }

  // Everything an account holds is lost with it.
  lemma HeldIsLost(q: Search, d: nat, reached: Reached, pkgs: set<string>, v: Urn)
    requires v in reached && PackageIn(v, pkgs)
    ensures v in LostVersions(q, d, reached, pkgs)
  {
    forall t, a, path | Starts(q, a, t) && |path| <= d && IsWalk(q, path, a, v, t) ensures Meets(path, a, pkgs) {
      if path != [] {
        assert path[|path| - 1] in path;
      }
    }
  }

  // The package count splits into what the account holds and what falls beyond it.
  lemma LossSplits(q: Search, d: nat, reached: Reached, pkgs: set<string>)
    ensures PackagesOf(reached.Keys) * pkgs <= LostPackages(q, d, reached, pkgs)
    ensures |LostPackages(q, d, reached, pkgs)|
      == |PackagesOf(reached.Keys) * pkgs| + |LostPackages(q, d, reached, pkgs) - pkgs|
  {
    var lost := LostPackages(q, d, reached, pkgs);
    forall p | p in PackagesOf(reached.Keys) * pkgs ensures p in lost {
      forall v | v in reached && PackageOf(v) == p ensures v in LostVersions(q, d, reached, pkgs) {
        HeldIsLost(q, d, reached, pkgs, v);
      }
    }
    assert lost * pkgs == PackagesOf(reached.Keys) * pkgs;
    assert lost == lost * pkgs + (lost - pkgs);
  }

  // Holding more never costs less.
  lemma HoldingMoreLosesMore(q: Search, d: nat, reached: Reached, pkgs: set<string>, more: set<string>)
    requires pkgs <= more
    ensures LostVersions(q, d, reached, pkgs) <= LostVersions(q, d, reached, more)
    ensures LostPackages(q, d, reached, pkgs) <= LostPackages(q, d, reached, more)
    ensures |LostPackages(q, d, reached, pkgs)| <= |LostPackages(q, d, reached, more)|
  {
    forall v | v in LostVersions(q, d, reached, pkgs) ensures v in LostVersions(q, d, reached, more) {
      forall t, a, path | Starts(q, a, t) && |path| <= d && IsWalk(q, path, a, v, t) ensures Meets(path, a, more) {
        assert Meets(path, a, pkgs);
      }
    }
    var rest := LostPackages(q, d, reached, more) - LostPackages(q, d, reached, pkgs);
    assert LostPackages(q, d, reached, more) == LostPackages(q, d, reached, pkgs) + rest;
  }

  // What taking some packages out does: the versions blocked, the versions lost, the packages lost.
  datatype Loss = Loss(blocked: set<Urn>, versions: set<Urn>, packages: set<string>)

  ghost function LossOf(q: Search, d: nat, reached: Reached, k: Keyholder): Loss {
    Loss(VersionsOf(reached, k.through.Keys), LostVersions(q, d, reached, k.through.Keys),
         LostPackages(q, d, reached, k.through.Keys))
  }

  // What the row for one account must say.
  ghost predicate IsRemovalOf(k: Keyholder, loss: Loss, c: Removal) {
    && c.handle == k.handle && c.controls == |k.through|
    && c.versions == |loss.versions|
    && c.packages == |loss.packages|
    && c.beyond == |loss.packages - k.through.Keys| == |c.orphaned|
    && (forall p :: p in c.orphaned <==> p in loss.packages - k.through.Keys)
    && SortedBy(Before, c.orphaned)
  }

  // The map from package to reached versions, filled in whatever order the reached map is ranged over.
  method VersionsByPackage(reached: Reached) returns (versionsOf: map<string, seq<Urn>>)
    ensures forall p, v :: p in versionsOf && v in versionsOf[p] <==> v in reached && PackageOf(v) != "" && PackageOf(v) == p
  {
    versionsOf := map[];
    var left := reached.Keys;
    while left != {}
      invariant left <= reached.Keys
      invariant forall p, v :: p in versionsOf && v in versionsOf[p] <==>
        (v in reached && v !in left && PackageOf(v) != "" && PackageOf(v) == p)
    {
      var v :| v in left;
      left := left - {v};
      var pkg := PackageOf(v);
      if pkg != "" {
        var known := if pkg in versionsOf then versionsOf[pkg] else [];
        versionsOf := versionsOf[pkg := known + [v]];
      }
    }
  }

  method ReachedPackages(reached: Reached) returns (out: set<string>)
    ensures out == PackagesOf(reached.Keys)
  {
    out := {};
    var left := reached.Keys;
    while left != {}
      invariant left <= reached.Keys && out == PackagesOf(reached.Keys - left)
    {
      var v :| v in left;
      assert reached.Keys - (left - {v}) == (reached.Keys - left) + {v};
      left := left - {v};
      if PackageOf(v) != "" {
        out := out + {PackageOf(v)};
      }
    }
    assert reached.Keys - left == reached.Keys;
  }

  // Every reached version of every package the account holds.
  method Blocked(k: Keyholder, versionsOf: map<string, seq<Urn>>, ghost reached: Reached) returns (blocked: set<Urn>)
    requires forall p, v :: p in versionsOf && v in versionsOf[p] <==> v in reached && PackageOf(v) != "" && PackageOf(v) == p
    ensures blocked == VersionsOf(reached, k.through.Keys)
  {
    blocked := {};
    var left := k.through.Keys;
    while left != {}
      invariant left <= k.through.Keys && forall v :: v in blocked <==> v in reached && PackageIn(v, k.through.Keys - left)
    {
      var pkg :| pkg in left;
      left := left - {pkg};
      if pkg in versionsOf {
        blocked := blocked + (set v | v in versionsOf[pkg]);
      }
    }
  }

  // The package counts for one account, over the packages reached before and after.
  method CountLost(k: Keyholder, before: set<string>, after: set<string>)
      returns (packages: nat, beyond: nat, orphaned: seq<string>)
    ensures packages == |before - after|
    ensures beyond == |before - after - k.through.Keys| == |orphaned|
    ensures forall p :: p in orphaned <==> p in before - after - k.through.Keys
    ensures SortedBy(Before, orphaned)
  {
    packages, beyond, orphaned := 0, 0, [];
    var left := before;
    ghost var lost: set<string>, fallen: set<string> := {}, {};
    while left != {}
      invariant left <= before && packages == |lost| && beyond == |fallen| == |orphaned|
      invariant forall p :: p in lost <==> p in before && p !in left && p !in after
      invariant forall p :: p in fallen <==> p in lost && p !in k.through
      invariant forall p :: p in orphaned <==> p in fallen
    {
      var pkg :| pkg in left;
      left := left - {pkg};
      if pkg in after {
        continue;
      }
      packages, lost := packages + 1, lost + {pkg};
      if pkg !in k.through {
        beyond, fallen := beyond + 1, fallen + {pkg};
        orphaned := orphaned + [pkg];
      }
    }
    assert lost == before - after && fallen == before - after - k.through.Keys;
    BeforeIsWeakOrder(orphaned);
    ghost var from;
    orphaned, from := SortSlice(orphaned, Before);
  }

  predicate WiderCut(a: Removal, b: Removal) {
    if a.packages != b.packages then a.packages > b.packages else Before(a.handle, b.handle)
  }

  lemma WiderCutIsWeakOrder(s: seq<Removal>)
    ensures WeakOrder(WiderCut, s)
  {
    forall a, b ensures WiderCut(a, b) ==> !WiderCut(b, a) {
      BeforeIsAsymmetric(a.handle, b.handle);
    }
    forall a, b, c ensures !WiderCut(b, a) && !WiderCut(c, b) ==> !WiderCut(c, a) {
      BeforeIsTransitive(a.handle, b.handle, c.handle);
    }
  }

  // The rows made from the first n keyholders: one for each that has anything to remove.
  ghost predicate RowsFor(keyholders: seq<Keyholder>, losses: seq<Loss>, n: nat, rows: seq<Removal>, whose: seq<nat>)
    requires n <= |keyholders| == |losses|
  {
    && |whose| == |rows| && Distinct(whose)
    && (forall i :: 0 <= i < |rows| ==> whose[i] < n && IsRemovalOf(keyholders[whose[i]], losses[whose[i]], rows[i]))
    && (forall j: nat :: j < n ==> (j in whose <==> losses[j].blocked != {}))
  }

  // The state a finished search leaves behind.
  ghost predicate Answers(res: Result, table: Table)
    reads res
  {
    && WellKeyed(table) && CachedTo(table, res.sources, res.edges, res.opts.Depth()) && Tidy(res.coexistence)
    && IsLayer(Question(res, table), res.coexistence, res.opts.Depth())
  }

  ghost function Question(res: Result, table: Table): Search
    reads res
  {
    Whole(table, res.sources, res.opts.Window(), {})
  }

  ghost function Losses(q: Search, d: nat, reached: Reached, keyholders: seq<Keyholder>): (losses: seq<Loss>)
    ensures |losses| == |keyholders|
    ensures forall j :: 0 <= j < |losses| ==> losses[j] == LossOf(q, d, reached, keyholders[j])
  {
    seq(|keyholders|, j requires 0 <= j < |keyholders| => LossOf(q, d, reached, keyholders[j]))
  }

  // One row per keyholder with anything to remove, `whose` saying which, widest cut first.
  method Cuts(res: Result, keyholders: seq<Keyholder>, ghost table: Table) returns (out: seq<Removal>, ghost whose: seq<nat>)
    requires Answers(res, table)
    ensures RowsFor(keyholders, Losses(Question(res, table), res.opts.Depth(), res.coexistence, keyholders), |keyholders|, out, whose)
    ensures SortedBy(WiderCut, out)
  {
    ghost var losses := Losses(Question(res, table), res.opts.Depth(), res.coexistence, keyholders);
    var rows;
    rows, whose := Removals(res, keyholders, table, losses);
    WiderCutIsWeakOrder(rows);
    ghost var owners, from := whose, [];
    out, from := SortSlice(rows, WiderCut);
    whose := seq(|out|, i requires 0 <= i < |out| => owners[from[i]]);
    ReorderRows(keyholders, losses, rows, owners, out, from, whose);
  }

  method Removals(res: Result, keyholders: seq<Keyholder>, ghost table: Table, ghost losses: seq<Loss>)
      returns (rows: seq<Removal>, ghost whose: seq<nat>)
    requires Answers(res, table)
    requires losses == Losses(Question(res, table), res.opts.Depth(), res.coexistence, keyholders)
    ensures RowsFor(keyholders, losses, |keyholders|, rows, whose)
  {
    var versionsOf := VersionsByPackage(res.coexistence);
    var before := ReachedPackages(res.coexistence);
    rows, whose := [], [];
    for j := 0 to |keyholders|
      invariant RowsFor(keyholders, losses, j, rows, whose)
    {
      var row := Remove(res, keyholders[j], before, versionsOf, table, losses[j]);
      if row != None {
        ghost var owner: nat := j;
        AddRow(keyholders, losses, owner, rows, whose, row.value);
        rows, whose := rows + [row.value], whose + [owner];
      }
    }
  }

  lemma AddRow(keyholders: seq<Keyholder>, losses: seq<Loss>, n: nat, rows: seq<Removal>, whose: seq<nat>, row: Removal)
    requires n < |keyholders| == |losses| && RowsFor(keyholders, losses, n, rows, whose)
    requires IsRemovalOf(keyholders[n], losses[n], row) && losses[n].blocked != {}
    ensures RowsFor(keyholders, losses, n + 1, rows + [row], whose + [n])
  {
  }

  lemma ReorderRows(keyholders: seq<Keyholder>, losses: seq<Loss>, rows: seq<Removal>, owners: seq<nat>,
      out: seq<Removal>, from: seq<nat>, whose: seq<nat>)
    requires |keyholders| == |losses| && RowsFor(keyholders, losses, |keyholders|, rows, owners)
    requires Rearranged(rows, out, from) && |whose| == |out|
    requires forall i :: 0 <= i < |out| ==> whose[i] == owners[from[i]]
    ensures RowsFor(keyholders, losses, |keyholders|, out, whose)
  {
    forall i, j | 0 <= i < j < |whose| ensures whose[i] != whose[j] {
      assert from[i] != from[j];
    }
    forall j: nat ensures j in whose <==> j in owners {
      if j in owners {
        var k: nat :| k < |owners| && owners[k] == j;
        assert k in from;
        var i :| 0 <= i < |from| && from[i] == k;
        assert whose[i] == j;
      }
    }
  }

  // The body of the loop over keyholders: nothing to block, no row.
  method Remove(res: Result, k: Keyholder, before: set<string>, versionsOf: map<string, seq<Urn>>, ghost table: Table,
      ghost loss: Loss) returns (row: Option<Removal>)
    requires Answers(res, table)
    requires loss == LossOf(Question(res, table), res.opts.Depth(), res.coexistence, k)
    requires before == PackagesOf(res.coexistence.Keys)
    requires forall p, v :: p in versionsOf && v in versionsOf[p] <==>
      (v in res.coexistence && PackageOf(v) != "" && PackageOf(v) == p)
    ensures row == None <==> loss.blocked == {}
    ensures row.Some? ==> IsRemovalOf(k, loss, row.value)
  {
    var blocked := Blocked(k, versionsOf, res.coexistence);
    if blocked == {} {
      return None;
    }
    var after := ReplayWithout(res, k, blocked, table);
    var lost := ReachedPackages(after);
    var packages, beyond, orphaned := CountLost(k, before, lost);
    KeysLost(res.coexistence.Keys, after.Keys, loss.versions);
    return Some(Removal(k.handle, |k.through|, packages, |res.coexistence| - |after|, beyond, orphaned));
  }

  method ReplayWithout(res: Result, k: Keyholder, blocked: set<Urn>, ghost table: Table) returns (after: Reached)
    requires Answers(res, table) && blocked == VersionsOf(res.coexistence, k.through.Keys)
    ensures after.Keys
      == res.coexistence.Keys - LostVersions(Question(res, table), res.opts.Depth(), res.coexistence, k.through.Keys)
  {
    ghost var fronts;
    after, fronts := Replay(res.sources, res.opts.Window(), res.opts.Depth(), res.edges, blocked);
    CachedReplay(table, res.sources, res.opts.Window(), blocked, res.edges, res.opts.Depth(), after);
    CutIsDominance(Question(res, table), res.opts.Depth(), res.coexistence, k.through.Keys, after);
  }

  lemma KeysLost(before: set<Urn>, after: set<Urn>, lost: set<Urn>)
    requires lost <= before && after == before - lost
    ensures |before| - |after| == |lost|
  {
    assert before == after + lost;
  }
}
