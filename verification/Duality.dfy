// The audit goes from a project's locked versions along dependency edges, the account question against
// them from the packages it holds (internal/query/who.go). The two give one answer.
module Duality {
  import opened Sorting
  import opened Text
  import opened Intervals
  import opened Snapshot
  import opened IntervalSearch
  import opened TwoPass
  import opened Packages
  import opened Expander
  import opened Roster
  import W = ResolutionWindows
  import X = Exposure

  ghost function Reversed(edges: set<Edge>): set<Edge> {
    set e | e in edges :: Flip(e)
  }

  function Flip(e: Edge): Edge {
    Edge(e.to, e.from, e.valid)
  }

  function FlipAll(path: seq<Edge>): seq<Edge> {
    if path == [] then [] else [Flip(path[|path| - 1])] + FlipAll(path[..|path| - 1])
  }

  lemma {:induction false} WalkFromFirst(q: Search, e: Edge, path: seq<Edge>, b: Urn, t: int)
    requires Live(q, e, t) && IsWalk(q, path, e.to, b, t)
    ensures IsWalk(q, [e] + path, e.from, b, t)
  {
    var whole := [e] + path;
    if path != [] {
      WalkFromFirst(q, e, path[..|path| - 1], path[|path| - 1].from, t);
      assert whole[..|whole| - 1] == [e] + path[..|path| - 1];
    }
  }

  // A walk read backwards is a walk of the reversed graph, of the same length.
  lemma {:induction false} FlippedWalk(q: Search, r: Search, path: seq<Edge>, a: Urn, b: Urn, t: int)
    requires q.blocked == {} && r.blocked == {} && forall e :: e in q.edges ==> Flip(e) in r.edges
    requires IsWalk(q, path, a, b, t)
    ensures IsWalk(r, FlipAll(path), b, a, t) && |FlipAll(path)| == |path|
  {
    if path != [] {
      var last, head := path[|path| - 1], path[..|path| - 1];
      FlippedWalk(q, r, head, a, last.from, t);
      WalkFromFirst(r, Flip(last), FlipAll(head), a, t);
    }
  }

  ghost predicate Exists(published: map<Urn, int>, n: Urn, t: int) {
    n in published && Existed(published[n]).Contains(t)
  }

  // No edge is valid before either of its endpoints was published, or past the open end.
  ghost predicate Timely(edges: set<Edge>, published: map<Urn, int>) {
    forall e, t :: e in edges && e.valid.Contains(t) ==> Exists(published, e.from, t) && Exists(published, e.to, t)
  }

  // Each package lists its own versions, every version is listed, and nothing else is.
  ghost predicate Lists(versions: map<string, seq<VersionAttrs>>, published: map<Urn, int>) {
    && "" !in versions
    && (forall p, v :: p in versions && v in versions[p] ==>
          v.urn in published && published[v.urn] == v.publishedAt && PackageOf(v.urn) == p)
    && (forall n :: n in published ==>
          PackageOf(n) in versions && VersionAttrs(n, published[n]) in versions[PackageOf(n)])
  }

  lemma WalkEndsExist(q: Search, published: map<Urn, int>, path: seq<Edge>, a: Urn, b: Urn, t: int)
    requires Timely(q.edges, published) && IsWalk(q, path, a, b, t)
    requires path == [] ==> Exists(published, a, t)
    ensures Exists(published, b, t)
  {
  }

  // A version reached from s is one the inward search starts from, if the account holds its package.
  lemma SeededIffHeld(versions: map<string, seq<VersionAttrs>>, published: map<Urn, int>, tenures: seq<Tenure>, handle: string,
      spans: Spans, within: Interval, v: Urn, t: int)
    requires Lists(versions, published) && Exists(published, v, t) && within.Contains(t)
    requires forall p, u :: Covered(SpansAt(spans, p), u) <==> Maintains(tenures, handle, p, u)
    ensures Seeded(versions, spans, within, v, t) <==> Maintains(tenures, handle, PackageOf(v), t)
  {
    var p := PackageOf(v);
    if Maintains(tenures, handle, p, t) {
      assert VersionAttrs(v, published[v]) in versions[p];
      assert SeedAt(VersionAttrs(v, published[v]), SpansAt(spans, p), within, v, t);
    }
  }

  // At instant t some package reached within d edges is one the account held.
  ghost predicate KeyReached(q: Search, tenures: seq<Tenure>, handle: string, d: nat, t: int) {
    exists v :: ReachedWithin(q, v, t, d) && PackageOf(v) != "" && Maintains(tenures, handle, PackageOf(v), t)
  }

  // Outward from the pins to a package of the account, or inward from those packages to a pin: one
  // question.
  lemma WalksAreDual(edges: set<Edge>, published: map<Urn, int>, versions: map<string, seq<VersionAttrs>>,
      tenures: seq<Tenure>, handle: string, spans: Spans, pins: set<Urn>, within: Interval, d: nat,
      locked: seq<Entry>, seeds: seq<Entry>, t: int)
    requires Timely(edges, published) && Lists(versions, published)
    requires forall n, u :: Holds(locked, n, u) <==> n in pins && Exists(published, n, u)
    requires forall p, u :: Covered(SpansAt(spans, p), u) <==> Maintains(tenures, handle, p, u)
    requires forall n, u :: Holds(seeds, n, u) && within.Contains(u) <==> Seeded(versions, spans, within, n, u)
    ensures KeyReached(Search(edges, locked, within, {}), tenures, handle, d, t)
       <==> exists s :: s in pins && ReachedWithin(Search(Reversed(edges), seeds, within, {}), s, t, d)
  {
    var q, r := Search(edges, locked, within, {}), Search(Reversed(edges), seeds, within, {});
    if KeyReached(q, tenures, handle, d, t) {
      var v :| ReachedWithin(q, v, t, d) && PackageOf(v) != "" && Maintains(tenures, handle, PackageOf(v), t);
      var a, path := WalkOf(q, v, t, d);
      WalkEndsExist(q, published, path, a, v, t);
      SeededIffHeld(versions, published, tenures, handle, spans, within, v, t);
      FlippedWalk(q, r, path, a, v, t);
      WalkIsReached(r, v, FlipAll(path), a, t, d);
    }
    if s :| s in pins && ReachedWithin(r, s, t, d) {
      var v, back := WalkOf(r, s, t, d);
      var p := SeedOf(versions, published, spans, within, v, t);
      assert Timely(r.edges, published);
      WalkEndsExist(r, published, back, v, s, t);
      FlippedWalk(r, q, back, v, s, t);
      WalkIsReached(q, s, FlipAll(back), v, t, d);
    }
  }

  // The account is a keyholder of the audit of some pins at instant t exactly when one of them is among
  // the dependents of the account's packages at t, under the same window and the same depth bound.
  lemma AuditAndWhoAreDual(edges: set<Edge>, published: map<Urn, int>, versions: map<string, seq<VersionAttrs>>,
      tenures: seq<Tenure>, handle: string, spans: Spans, pins: set<Urn>, within: Interval, d: nat,
      locked: seq<Entry>, audit: Reached, seeds: seq<Entry>, who: Reached, t: int)
    requires Timely(edges, published) && Lists(versions, published)
    requires forall n, u :: Holds(locked, n, u) <==> n in pins && Exists(published, n, u)
    requires IsLayer(Search(edges, locked, within, {}), audit, d)
    requires forall p, u :: Covered(SpansAt(spans, p), u) <==> Maintains(tenures, handle, p, u)
    requires forall n, u :: Holds(seeds, n, u) <==> Seeded(versions, spans, within, n, u)
    requires IsLayer(Search(Reversed(edges), seeds, within, {}), who, d)
    ensures (exists p :: HoldsKey(audit, tenures, handle, p, t)) <==> exists s :: s in pins && Held(who, s, t)
  {
    WalksAreDual(edges, published, versions, tenures, handle, spans, pins, within, d, locked, seeds, t);
    KeyReachedIsHeld(Search(edges, locked, within, {}), audit, tenures, handle, d, t);
  }

  lemma KeyReachedIsHeld(q: Search, audit: Reached, tenures: seq<Tenure>, handle: string, d: nat, t: int)
    requires IsLayer(q, audit, d)
    ensures (exists p :: HoldsKey(audit, tenures, handle, p, t)) <==> KeyReached(q, tenures, handle, d, t)
  {
    if p :| HoldsKey(audit, tenures, handle, p, t) {
      var v :| v in audit.Keys && Held(audit, v, t) && PackageOf(v) == p;
    }
    if KeyReached(q, tenures, handle, d, t) {
      var v :| ReachedWithin(q, v, t, d) && PackageOf(v) != "" && Maintains(tenures, handle, PackageOf(v), t);
      assert Held(audit, v, t) && HoldsKey(audit, tenures, handle, PackageOf(v), t);
    }
  }

  lemma SeedOf(versions: map<string, seq<VersionAttrs>>, published: map<Urn, int>, spans: Spans, within: Interval,
      v: Urn, t: int) returns (p: string)
    requires Lists(versions, published) && Seeded(versions, spans, within, v, t)
    ensures p == PackageOf(v) != "" && Covered(SpansAt(spans, p), t) && Exists(published, v, t)
  {
    p :| p in versions && SeedsOf(versions[p], SpansAt(spans, p), within, v, t);
    var x :| x in versions[p] && SeedAt(x, SpansAt(spans, p), within, v, t);
  }

  // The packages among those met that are not the account's own.
  method Dependents(met: set<Urn>, own: set<string>) returns (out: set<string>)
    ensures out == PackagesOf(met) - own
  {
    out := {};
    var left := met;
    while left != {}
      invariant left <= met && out == PackagesOf(met - left) - own
    {
      var v :| v in left;
      assert met - (left - {v}) == (met - left) + {v};
      left := left - {v};
      if PackageOf(v) != "" && PackageOf(v) !in own {
        out := out + {PackageOf(v)};
      }
    }
    assert met - left == met;
  }

  // The names of a set in order, each once.
  ghost predicate Listing(names: set<string>, out: seq<string>) {
    SortedBy(Before, out) && Distinct(out) && forall x :: x in out <==> x in names
  }

  method InOrder(names: set<string>) returns (out: seq<string>)
    ensures Listing(names, out)
  {
    var rows: seq<string> := [];
    var left := names;
    while left != {}
      invariant left <= names && Distinct(rows) && forall x :: x in rows <==> x in names && x !in left
    {
      var x :| x in left;
      left := left - {x};
      rows := rows + [x];
    }
    BeforeIsWeakOrder(rows);
    ghost var from;
    out, from := SortSlice(rows, Before);
    forall i, j | 0 <= i < j < |out| ensures out[i] != out[j] {
      assert from[i] != from[j];
    }
  }

  // A package the account can publish to, when it could, and how many versions of it there are.
  datatype Holding = Holding(pkg: string, spans: IntervalSet, versions: nat)

  datatype Who = Who(holds: seq<Holding>, reached: Reached, dependents: seq<string>, unionDependents: nat)

  ghost predicate IsHolding(spans: Spans, versions: map<string, seq<VersionAttrs>>, h: Holding) {
    h.pkg in spans && h.spans == spans[h.pkg] && h.versions == if h.pkg in versions then |versions[h.pkg]| else 0
  }

  ghost predicate AreHoldings(spans: Spans, versions: map<string, seq<VersionAttrs>>, holds: seq<Holding>) {
    && |holds| == |spans|
    && (forall i :: 0 <= i < |holds| ==> IsHolding(spans, versions, holds[i]))
    && (forall i, j :: 0 <= i < j < |holds| ==> Before(holds[i].pkg, holds[j].pkg))
  }

  // One row per package held, by name.
  method HoldingRows(spans: Spans, versions: map<string, seq<VersionAttrs>>) returns (holds: seq<Holding>)
    ensures AreHoldings(spans, versions, holds)
  {
    var pkgs := InOrder(spans.Keys);
    ListingIsStrict(spans.Keys, pkgs);
    holds := [];
    for k := 0 to |pkgs|
      invariant |holds| == k && forall i :: 0 <= i < k ==> holds[i].pkg == pkgs[i] && IsHolding(spans, versions, holds[i])
    {
      var p := pkgs[k];
      holds := holds + [Holding(p, spans[p], if p in versions then |versions[p]| else 0)];
    }
  }

  lemma NoSourcesNothingReached(q: Search, n: Urn, t: int, d: nat)
    requires q.sources == []
    ensures !ReachedWithin(q, n, t, d)
  {
    if ReachedWithin(q, n, t, d) {
      var a, path := WalkOf(q, n, t, d);
      assert false;
    }
  }

  lemma NoSourcesNothingRead(whole: Table, limit: nat, d: nat, within: Interval)
    requires WellKeyed(whole)
    ensures ReadTo(whole, limit, [], whole, d) && IsUnionLayer(whole, [], {}, d)
    ensures IsLayer(Whole(whole, [], within, {}), map[], d)
  {
    var blind, q := Blind(EdgesOf(whole), []), Whole(whole, [], within, {});
    assert blind.sources == [];
    forall n ensures !UnionWithin(EdgesOf(whole), [], n, d) {
      NoSourcesNothingReached(blind, n, 0, d);
    }
    forall n ensures !Expanded(whole, [], n, d) {
      if d > 0 {
        NoSourcesNothingReached(blind, n, 0, d - 1);
      }
    }
    forall n ensures NodeRead(whole, limit, whole, Expanded(whole, [], n, d), n) {
      assert !Expanded(whole, [], n, d);
    }
    forall n, t ensures !ReachedWithin(q, n, t, d) {
      NoSourcesNothingReached(q, n, t, d);
    }
  }

  // What the search inward says of the account: its own packages, everything met there, and the rest
  // of the packages met, with and without regard to the instant.
  ghost predicate IsWho(who: Who, spans: Spans, seeds: seq<Entry>, seen: Table, options: Options, union: set<Urn>) {
    && Tidy(who.reached) && IsLayer(Whole(seen, seeds, options.Window(), {}), who.reached, options.Depth())
    && IsUnionLayer(seen, seeds, union, options.Depth())
    && Listing(PackagesOf(who.reached.Keys) - spans.Keys, who.dependents)
    && who.unionDependents == |PackagesOf(union) - spans.Keys|
  }

  // The dependents an account can affect: a reach from its own packages over a table of reversed
  // edges, `inbound`, which `seen` is as read.
  method WhoIs(handle: string, legal: string -> bool, tenures: seq<Tenure>, versions: map<string, seq<VersionAttrs>>,
      inbound: GraphExpander, options: Options)
      returns (ok: bool, who: Who, ghost spans: Spans, ghost seeds: seq<Entry>, ghost seen: Table, ghost union: set<Urn>)
    requires WellKeyed(inbound.table)
    modifies inbound`roundTrips
    ensures ok ==> legal(handle)
    ensures inbound.healthy && legal(handle) ==> ok
    ensures ok ==> forall p, t :: Covered(SpansAt(spans, p), t) <==> Maintains(tenures, handle, p, t)
    ensures ok ==> forall n, t :: Holds(seeds, n, t) <==> Seeded(versions, spans, options.within, n, t)
    ensures ok ==> ReadTo(inbound.Readable(), inbound.limit, seeds, seen, options.Depth())
    ensures ok ==> IsWho(who, spans, seeds, seen, options, union)
    ensures ok ==> AreHoldings(spans, versions, who.holds)
  {
    if !legal(handle) {
      return false, Who([], map[], [], 0), map[], [], map[], {};
    }
    var held := Holdings(tenures, handle);
    spans, seen, union := held, inbound.Readable(), {};
    var holds := HoldingRows(held, versions);
    var sources := VersionSources(versions, held, options.within);
    seeds := sources;
    if sources == [] {
      NoSourcesNothingRead(inbound.Readable(), inbound.limit, options.Depth(), options.Window());
      assert PackagesOf({}) - spans.Keys == {};
      return true, Who(holds, map[], [], 0), spans, seeds, seen, union;
    }
    var res, fronts;
    ok, res, fronts, seen := Reach(inbound, sources, options);
    union := res.union;
    var dependents := Dependents(res.coexistence.Keys, held.Keys);
    var listed := InOrder(dependents);
    var phantom := Dependents(res.union, held.Keys);
    who := Who(holds, res.coexistence, listed, |phantom|);
  }

  lemma ListingIsStrict(names: set<string>, out: seq<string>)
    requires Listing(names, out)
    ensures |out| == |names| && forall i, j :: 0 <= i < j < |out| ==> Before(out[i], out[j])
  {
    forall i, j | 0 <= i < j < |out| ensures Before(out[i], out[j]) {
      BeforeIsAsymmetric(out[i], out[j]);
    }
    ListedOnce(names, out);
  }

  lemma {:induction false} ListedOnce(names: set<string>, out: seq<string>)
    requires Distinct(out) && forall x :: x in out <==> x in names
    ensures |out| == |names|
  {
    if out == [] {
      assert names == {};
    } else {
      var n := |out| - 1;
      assert out == out[..n] + [out[n]];
      ListedOnce(names - {out[n]}, out[..n]);
    }
  }

  // With a dependency graph whose readable edges, turned round, are `inbound`'s and no node of it read
  // short, the search put to the expander is the one the duality is about.
  lemma ReadWholeIsReversed(edges: set<Edge>, whole: Table, limit: nat, seeds: seq<Entry>, seen: Table, d: nat)
    requires WellKeyed(whole) && EdgesOf(whole) == Reversed(edges) && ReadTo(whole, limit, seeds, seen, d)
    requires AllFit(whole, limit, seeds, seen, d)
    ensures forall within :: Whole(seen, seeds, within, {}) == Search(Reversed(edges), seeds, within, {})
  {
    SawAllIffFits(whole, limit, seeds, seen, d);
  }

  // A zero window means "ever" to the search, but the seeds were already cut to it: a question asked
  // with one finds no seed and so no dependent, where an audit asked with one spans all time.
  lemma ZeroWindowFindsNothing(versions: map<string, seq<VersionAttrs>>, spans: Spans, seeds: seq<Entry>, edges: set<Edge>,
      options: Options, reached: Reached)
    requires options.within == Interval(0, 0) && Tidy(reached)
    requires forall n, t :: Holds(seeds, n, t) <==> Seeded(versions, spans, options.within, n, t)
    requires IsLayer(Search(Reversed(edges), seeds, options.Window(), {}), reached, options.Depth())
    ensures reached == map[]
  {
    forall n ensures n !in reached {
      if n in reached {
        FirstInstantIsCovered(reached[n]);
        var t := reached[n][0].from;
        assert Held(reached, n, t);
        var a, path := WalkOf(Search(Reversed(edges), seeds, options.Window(), {}), n, t, options.Depth());
      }
    }
  }

  // What the account could be asked about at all: some version of a package it held, while it held it.
  ghost predicate NeverSeeded(versions: map<string, seq<VersionAttrs>>, spans: Spans, within: Interval) {
    forall n, t :: !Seeded(versions, spans, within, n, t)
  }

  // The one case in which cutting the seeds before the zero window is widened matters.
  lemma SeedsCutAlikeIff(versions: map<string, seq<VersionAttrs>>, spans: Spans, options: Options)
    ensures (forall n, t :: Seeded(versions, spans, options.within, n, t) <==> Seeded(versions, spans, options.Window(), n, t))
       <==> (options.within != Interval(0, 0) || NeverSeeded(versions, spans, ALWAYS))
  {
    if options.within == Interval(0, 0) {
      assert NeverSeeded(versions, spans, options.within);
      if n, t :| Seeded(versions, spans, ALWAYS, n, t) {
        assert !Seeded(versions, spans, options.within, n, t);
        assert Seeded(versions, spans, options.Window(), n, t);
      }
    }
  }

  lemma OnePin(locked: seq<Entry>, published: map<Urn, int>, s: Urn)
    requires forall n, u :: Holds(locked, n, u) <==> n == s && Exists(published, n, u)
    ensures forall n, u :: Holds(locked, n, u) <==> n in {s} && Exists(published, n, u)
  {
  }

  // One set of options put to both sides, for every version and instant: they agree unless a zero
  // window is given and the account held anything at all.
  lemma OneQuestionAskedTwice(edges: set<Edge>, published: map<Urn, int>, versions: map<string, seq<VersionAttrs>>,
      tenures: seq<Tenure>, handle: string, spans: Spans, options: Options,
      locked: map<Urn, seq<Entry>>, seeds: seq<Entry>, who: Reached)
    requires Timely(edges, published) && Lists(versions, published)
    requires forall s :: s in published ==> s in locked
    requires forall s, n, u :: s in locked ==> (Holds(locked[s], n, u) <==> n == s && Exists(published, n, u))
    requires forall p, u :: Covered(SpansAt(spans, p), u) <==> Maintains(tenures, handle, p, u)
    requires forall n, u :: Holds(seeds, n, u) <==> Seeded(versions, spans, options.within, n, u)
    requires IsLayer(Search(Reversed(edges), seeds, options.Window(), {}), who, options.Depth())
    ensures (forall s, t :: s in locked ==>
               (KeyReached(Search(edges, locked[s], options.Window(), {}), tenures, handle, options.Depth(), t) <==> Held(who, s, t)))
       <==> (options.within != Interval(0, 0) || NeverSeeded(versions, spans, ALWAYS))
  {
    var r := Search(Reversed(edges), seeds, options.Window(), {});
    if options.within != Interval(0, 0) || NeverSeeded(versions, spans, ALWAYS) {
      SeedsCutAlikeIff(versions, spans, options);
      forall s, t | s in locked
        ensures KeyReached(Search(edges, locked[s], options.Window(), {}), tenures, handle, options.Depth(), t) <==> Held(who, s, t)
      {
        var pins := {s};
        OnePin(locked[s], published, s);
        WalksAreDual(edges, published, versions, tenures, handle, spans, pins, options.Window(), options.Depth(), locked[s], seeds, t);
      }
    } else {
      var n, t :| Seeded(versions, spans, ALWAYS, n, t);
      var p := SeedOf(versions, published, spans, ALWAYS, n, t);
      var q := Search(edges, locked[n], ALWAYS, {});
      assert Starts(q, n, t) && ReachedWithin(q, n, t, 0);
      Deeper(q, n, t, 0, options.Depth());
      assert KeyReached(q, tenures, handle, options.Depth(), t);
      if Held(who, n, t) {
        var a, path := WalkOf(r, n, t, options.Depth());
        assert false;
      }
    }
  }

  // ---- what the resolution pass writes is timely

  // The graph's record of a package's releases and of who declares it.
  ghost predicate Recorded(published: map<Urn, int>, pkg: string, releases: seq<W.Release>, declared: seq<X.Declaration>) {
    && (forall rel :: rel in releases && rel.publishedAt > 0 ==>
          VersionUrn(pkg, rel.version) in published && published[VersionUrn(pkg, rel.version)] == rel.publishedAt)
    && (forall d :: d in declared ==> d.dependent in published && published[d.dependent] == d.publishedAt)
  }

  function EdgeOf(pkg: string, row: X.Resolution): Edge {
    Edge(row.dependent, VersionUrn(pkg, row.version), Interval(row.from, row.to))
  }

  ghost function EdgesInto(rows: map<string, seq<X.Resolution>>): set<Edge> {
    set p, row | p in rows && row in rows[p] :: EdgeOf(p, row)
  }

  lemma GroundedIsTimely(published: map<Urn, int>, pkg: string, releases: seq<W.Release>, declared: seq<X.Declaration>,
      row: X.Resolution, t: int)
    requires Recorded(published, pkg, releases, declared) && X.Grounded(releases, declared, row)
    requires forall rel :: rel in releases ==> rel.publishedAt < OPEN_INTERVAL
    requires EdgeOf(pkg, row).valid.Contains(t)
    ensures Exists(published, row.dependent, t) && Exists(published, VersionUrn(pkg, row.version), t)
  {
    var d :| d in declared && d.dependent == row.dependent && d.publishedAt <= row.from;
    var rel :| rel in releases && rel.version == row.version && 0 < rel.publishedAt <= row.from;
  }

  // The edges of any number of resolved packages meet what the duality needs of them.
  lemma ResolvedEdgesAreTimely(published: map<Urn, int>, releases: map<string, seq<W.Release>>,
      declared: map<string, seq<X.Declaration>>, rows: map<string, seq<X.Resolution>>)
    requires forall p :: p in rows ==> p in releases && p in declared
    requires forall p :: p in rows ==> Recorded(published, p, releases[p], declared[p])
    requires forall p :: p in rows ==> X.AllGrounded(releases[p], declared[p], rows[p])
    requires forall p, rel :: p in rows && rel in releases[p] ==> rel.publishedAt < OPEN_INTERVAL
    ensures Timely(EdgesInto(rows), published)
  {
    forall e, t | e in EdgesInto(rows) && e.valid.Contains(t)
      ensures Exists(published, e.from, t) && Exists(published, e.to, t)
    {
      var p, row :| p in rows && row in rows[p] && e == EdgeOf(p, row);
      GroundedIsTimely(published, p, releases[p], declared[p], row, t);
    }
  }
}
