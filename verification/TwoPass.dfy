// The two-pass search (internal/query/reach.go): an interval-blind pass that reads and caches edges,
// then a replay of the cache with interval semantics.
module TwoPass {
  import opened Wrappers
  import opened Sorting
  import opened Intervals
  import opened Snapshot
  import opened IntervalSearch
  import opened Expander

  const DEFAULT_MAX_DEPTH: nat := 12

  datatype Options = Options(within: Interval, maxDepth: int) {
    function Depth(): nat {
      if maxDepth <= 0 then DEFAULT_MAX_DEPTH else maxDepth
    }

    function Window(): Interval {
      if within == Interval(0, 0) then ALWAYS else within
    }
  }

  // The union graph is the graph in which every span is Always, looked at at any one instant.
  ghost function Blind(edges: set<Edge>, sources: seq<Entry>): Search {
    Search(set e | e in edges :: Edge(e.from, e.to, ALWAYS),
           seq(|sources|, k requires 0 <= k < |sources| => Entry(sources[k].urn, ALWAYS)), ALWAYS, {})
  }

  ghost predicate UnionWithin(edges: set<Edge>, sources: seq<Entry>, n: Urn, d: nat) {
    ReachedWithin(Blind(edges, sources), n, 0, d)
  }

  ghost predicate FirstInUnion(edges: set<Edge>, sources: seq<Entry>, n: Urn, d: nat) {
    FirstReached(Blind(edges, sources), n, 0, d)
  }

  class Result {
    var coexistence: Reached
    var union: set<Urn>
    var depth: nat
    var truncated: bool
    var edges: Table
    var sources: seq<Entry>
    var opts: Options

    constructor (sources: seq<Entry>, opts: Options)
      ensures this.sources == sources && this.opts == opts
      ensures coexistence == map[] && union == {} && edges == map[] && depth == 0 && !truncated
    {
      coexistence, union, depth, truncated, edges := map[], {}, 0, false, map[];
      this.sources, this.opts := sources, opts;
    }
  }

  // The cache after `d` levels: nodes met at a smaller union distance were expanded, each exactly
  // once, and no other node was.
  ghost predicate CachedTo(table: Table, sources: seq<Entry>, cache: Table, d: nat) {
    && WellKeyed(cache)
    && (forall n :: d > 0 && UnionWithin(EdgesOf(table), sources, n, d - 1) ==>
          multiset(OutOf(cache, n)) == multiset(OutOf(table, n)))
    && (forall n :: !(d > 0 && UnionWithin(EdgesOf(table), sources, n, d - 1)) ==> OutOf(cache, n) == [])
  }

  ghost predicate IsUnionLayer(table: Table, sources: seq<Entry>, union: set<Urn>, d: nat) {
    forall n :: n in union <==> UnionWithin(EdgesOf(table), sources, n, d)
  }

  ghost predicate Distinct<T>(s: seq<T>) {
    forall j, k :: 0 <= j < k < |s| ==> s[j] != s[k]
  }

  ghost predicate IsUnionFront(table: Table, sources: seq<Entry>, frontier: seq<Urn>, d: nat) {
    && Distinct(frontier)
    && forall n :: n in frontier <==> FirstInUnion(EdgesOf(table), sources, n, d)
  }

  ghost predicate Expanded(table: Table, sources: seq<Entry>, n: Urn, d: nat) {
    d > 0 && UnionWithin(EdgesOf(table), sources, n, d - 1)
  }

  // What a read returned of one node: some of its edges, all of them exactly when they fit one call. A
  // node that was not asked for is as it is.
  ghost predicate NodeRead(whole: Table, limit: nat, seen: Table, expanded: bool, n: Urn) {
    if expanded then
      && multiset(OutOf(seen, n)) <= multiset(OutOf(whole, n))
      && (multiset(OutOf(seen, n)) == multiset(OutOf(whole, n)) <==> |OutOf(whole, n)| <= limit)
    else
      OutOf(seen, n) == OutOf(whole, n)
  }

  // The graph as a pass of `d` levels saw it.
  ghost predicate ReadTo(whole: Table, limit: nat, sources: seq<Entry>, seen: Table, d: nat) {
    WellKeyed(seen) && forall n :: NodeRead(whole, limit, seen, Expanded(seen, sources, n, d), n)
  }

  ghost predicate Passed(whole: Table, limit: nat, sources: seq<Entry>, seen: Table, union: set<Urn>, frontier: seq<Urn>,
      cache: Table, d: nat)
  {
    && ReadTo(whole, limit, sources, seen, d) && IsUnionLayer(seen, sources, union, d)
    && IsUnionFront(seen, sources, frontier, d) && CachedTo(seen, sources, cache, d)
  }

  // Breadth first with no regard to when an edge holds, keeping each edge for the second pass. The
  // answer is about `seen`, which is the graph itself unless a node was read short.
  method UnionPass(exp: GraphExpander, sources: seq<Entry>, maxDepth: nat, res: Result) returns (ok: bool, ghost seen: Table)
    requires WellKeyed(exp.table) && res.union == {} && res.edges == map[] && !res.truncated && res.depth == 0
    modifies res`union, res`edges, res`depth, res`truncated, exp`roundTrips
    ensures exp.healthy ==> ok
    ensures ok ==> ReadTo(exp.Readable(), exp.limit, sources, seen, maxDepth)
    ensures ok ==> IsUnionLayer(seen, sources, res.union, maxDepth)
    ensures ok ==> CachedTo(seen, sources, res.edges, maxDepth)
    ensures ok ==> (res.truncated <==> exists n :: FirstInUnion(EdgesOf(seen), sources, n, maxDepth))
    ensures ok ==> res.depth <= maxDepth
    ensures ok && res.depth < maxDepth ==> forall n :: !FirstInUnion(EdgesOf(seen), sources, n, res.depth)
  {
    var frontier;
    ghost var whole := exp.Readable();
    seen := whole;
    res.union, frontier := Roots(sources, seen);
    for depth := 0 to maxDepth
      invariant Passed(whole, exp.limit, sources, seen, res.union, frontier, res.edges, depth)
      invariant res.depth == depth && !res.truncated
    {
      if |frontier| == 0 {
        NothingLeft(whole, exp.limit, seen, sources, frontier, res.edges, res.union, depth, maxDepth);
        return true, seen;
      }
      res.depth := depth + 1;
      var edges := exp.Out(frontier);
      if edges == None {
        return false, seen;
      }
      var union, cache, next := Absorb(edges.value, res.union, res.edges);
      LevelPassed(whole, exp.limit, sources, seen, res.union, frontier, res.edges, edges.value, union, cache, next, depth);
      seen := Reread(seen, frontier, edges.value);
      res.union, res.edges, frontier := union, cache, next;
    }
    res.truncated := |frontier| > 0;
    assert res.truncated <==> exists n :: n in frontier by {
      if res.truncated {
        assert frontier[0] in frontier;
      }
    }
    return true, seen;
  }

  // The nodes of the frontier as this read of them had it.
  ghost function Reread(seen: Table, frontier: seq<Urn>, edges: seq<Edge>): Table {
    map n | n in seen.Keys + (set x | x in frontier) :: if n in frontier then LeavingIn(edges, n) else OutOf(seen, n)
  }

  lemma {:induction false} LeavingFrom(edges: seq<Edge>, n: Urn)
    ensures forall e :: e in LeavingIn(edges, n) ==> e.from == n
  {
    if edges != [] {
      LeavingFrom(edges[..|edges| - 1], n);
    }
  }

  lemma RereadOut(seen: Table, frontier: seq<Urn>, edges: seq<Edge>)
    requires WellKeyed(seen)
    ensures WellKeyed(Reread(seen, frontier, edges))
    ensures forall n :: OutOf(Reread(seen, frontier, edges), n) == if n in frontier then LeavingIn(edges, n) else OutOf(seen, n)
  {
    forall n ensures forall e :: e in LeavingIn(edges, n) ==> e.from == n {
      LeavingFrom(edges, n);
    }
  }

  // Layers depend on the edges of nodes met before them and on no others.
  lemma {:induction false} SameNearby(a: Table, b: Table, sources: seq<Entry>, d: nat, k: nat)
    requires WellKeyed(a) && WellKeyed(b) && k <= d
    requires forall n :: Expanded(a, sources, n, d) ==> OutOf(a, n) == OutOf(b, n)
    ensures forall n :: UnionWithin(EdgesOf(a), sources, n, k) <==> UnionWithin(EdgesOf(b), sources, n, k)
    decreases k
  {
    if k > 0 {
      SameNearby(a, b, sources, d, k - 1);
      forall n | UnionWithin(EdgesOf(a), sources, n, k) ensures UnionWithin(EdgesOf(b), sources, n, k) {
        NearbyStep(a, b, a, sources, d, k - 1, n);
      }
      forall n | UnionWithin(EdgesOf(b), sources, n, k) ensures UnionWithin(EdgesOf(a), sources, n, k) {
        NearbyStep(b, a, a, sources, d, k - 1, n);
      }
    }
  }

  lemma NearbyStep(from: Table, to: Table, a: Table, sources: seq<Entry>, d: nat, k: nat, n: Urn)
    requires WellKeyed(from) && k < d && UnionWithin(EdgesOf(from), sources, n, k + 1)
    requires forall m :: Expanded(a, sources, m, d) ==> OutOf(from, m) == OutOf(to, m)
    requires forall m :: UnionWithin(EdgesOf(from), sources, m, k) ==> UnionWithin(EdgesOf(a), sources, m, k)
    requires forall m :: UnionWithin(EdgesOf(from), sources, m, k) ==> UnionWithin(EdgesOf(to), sources, m, k)
    ensures UnionWithin(EdgesOf(to), sources, n, k + 1)
  {
    if UnionWithin(EdgesOf(from), sources, n, k) {
      Deeper(Blind(EdgesOf(to), sources), n, 0, k, k + 1);
    } else {
      var e := BlindStepBack(from, sources, n, k);
      assert UnionWithin(EdgesOf(from), sources, e.from, k);
      Deeper(Blind(EdgesOf(a), sources), e.from, 0, k, d - 1);
      assert Expanded(a, sources, e.from, d);
      BlindStep(to, sources, e, k);
    }
  }

  // Rereading nodes no layer so far depended on changes nothing that was found.
  lemma StillPassed(sources: seq<Entry>, seen: Table, seen': Table, union: set<Urn>, frontier: seq<Urn>, cache: Table, d: nat)
    requires WellKeyed(seen) && WellKeyed(seen') && IsUnionLayer(seen, sources, union, d)
    requires IsUnionFront(seen, sources, frontier, d) && CachedTo(seen, sources, cache, d)
    requires forall n :: Expanded(seen, sources, n, d) ==> OutOf(seen, n) == OutOf(seen', n)
    ensures IsUnionLayer(seen', sources, union, d) && IsUnionFront(seen', sources, frontier, d) && CachedTo(seen', sources, cache, d)
    ensures forall n :: Expanded(seen', sources, n, d) <==> Expanded(seen, sources, n, d)
    ensures forall n :: Expanded(seen', sources, n, d + 1) <==> Expanded(seen, sources, n, d) || n in frontier
  {
    SameNearby(seen, seen', sources, d, d);
    var before := d - 1;
    if d > 0 {
      SameNearby(seen, seen', sources, d, before);
    }
    forall n ensures FirstInUnion(EdgesOf(seen'), sources, n, d) <==> FirstInUnion(EdgesOf(seen), sources, n, d) {
      if d > 0 {
        assert UnionWithin(EdgesOf(seen'), sources, n, before) <==> UnionWithin(EdgesOf(seen), sources, n, before);
      }
      assert UnionWithin(EdgesOf(seen'), sources, n, d) <==> UnionWithin(EdgesOf(seen), sources, n, d);
    }
    forall n | Expanded(seen', sources, n, d) ensures Expanded(seen', sources, n, d + 1) {
      Deeper(Blind(EdgesOf(seen'), sources), n, 0, d - 1, d);
    }
  }

  lemma LevelPassed(whole: Table, limit: nat, sources: seq<Entry>, seen: Table, union: set<Urn>, frontier: seq<Urn>, cache: Table,
      edges: seq<Edge>, union': set<Urn>, cache': Table, next: seq<Urn>, d: nat)
    requires WellKeyed(whole) && Passed(whole, limit, sources, seen, union, frontier, cache, d)
    requires Serves(whole, limit, frontier, edges) && Filed(edges, cache, cache') && Met(edges, union, union', next)
    ensures Passed(whole, limit, sources, Reread(seen, frontier, edges), union', next, cache', d + 1)
  {
    var seen' := Reread(seen, frontier, edges);
    RereadOut(seen, frontier, edges);
    NotYetExpanded(seen, sources, frontier, d);
    StillPassed(sources, seen, seen', union, frontier, cache, d);
    RereadServes(whole, seen', frontier, edges);
    LevelCached(seen', sources, frontier, edges, cache, cache', d);
    LevelReached(seen', sources, frontier, edges, union, union', next, d);
    var deeper := d + 1;
    forall n ensures NodeRead(whole, limit, seen', Expanded(seen', sources, n, deeper), n) {
      assert NodeRead(whole, limit, seen, Expanded(seen, sources, n, d), n);
      if n in frontier {
        RereadNode(whole, limit, frontier, edges, seen', n);
      }
    }
  }

  lemma NotYetExpanded(seen: Table, sources: seq<Entry>, frontier: seq<Urn>, d: nat)
    requires IsUnionFront(seen, sources, frontier, d)
    ensures forall n :: Expanded(seen, sources, n, d) ==> n !in frontier
  {
    forall n | Expanded(seen, sources, n, d) ensures n !in frontier {
      assert !FirstInUnion(EdgesOf(seen), sources, n, d);
    }
  }

  lemma RereadServes(whole: Table, seen: Table, frontier: seq<Urn>, edges: seq<Edge>)
    requires WellKeyed(whole) && WellKeyed(seen) && Distinct(frontier)
    requires multiset(edges) <= multiset(AllOut(whole, frontier))
    requires forall n :: n in frontier ==> OutOf(seen, n) == LeavingIn(edges, n)
    ensures multiset(edges) == multiset(AllOut(seen, frontier))
  {
    forall e: Edge ensures multiset(edges)[e] == multiset(AllOut(seen, frontier))[e] {
      AllOutCounts(whole, frontier, e);
      AllOutCounts(seen, frontier, e);
      LeavingInCounts(edges, e.from, e);
    }
  }

  lemma RereadNode(whole: Table, limit: nat, frontier: seq<Urn>, edges: seq<Edge>, seen: Table, n: Urn)
    requires WellKeyed(whole) && Distinct(frontier) && n in frontier && Serves(whole, limit, frontier, edges)
    requires OutOf(seen, n) == LeavingIn(edges, n)
    ensures NodeRead(whole, limit, seen, true, n)
  {
    var some, all := multiset(OutOf(seen, n)), multiset(OutOf(whole, n));
    forall e: Edge
      ensures some[e] <= all[e]
      ensures |OutOf(whole, n)| <= limit ==> some[e] == all[e]
      ensures e.from == n ==> some[e] == multiset(edges)[e] && all[e] == multiset(AllOut(whole, frontier))[e]
    {
      AllOutCounts(whole, frontier, e);
      LeavingInCounts(edges, n, e);
      if e.from != n {
        assert e !in OutOf(whole, n);
        assert e !in all;
      }
    }
    if |OutOf(whole, n)| > limit {
      assert Short(whole, frontier, edges, n);
      var e :| e in OutOf(whole, n) && multiset(edges)[e] < multiset(AllOut(whole, frontier))[e];
      assert some[e] < all[e];
    }
  }

  ghost predicate AllFit(whole: Table, limit: nat, sources: seq<Entry>, seen: Table, d: nat) {
    forall n :: Expanded(seen, sources, n, d) ==> |OutOf(whole, n)| <= limit
  }

  // The pass saw the whole graph exactly when every node it expanded fits one call.
  lemma SawAllIffFits(whole: Table, limit: nat, sources: seq<Entry>, seen: Table, d: nat)
    requires WellKeyed(whole) && ReadTo(whole, limit, sources, seen, d)
    ensures AllFit(whole, limit, sources, seen, d) <==> forall n :: multiset(OutOf(seen, n)) == multiset(OutOf(whole, n))
    ensures EdgesOf(seen) <= EdgesOf(whole)
    ensures AllFit(whole, limit, sources, seen, d) ==> EdgesOf(seen) == EdgesOf(whole)
  {
    forall n
      ensures multiset(OutOf(seen, n)) <= multiset(OutOf(whole, n))
      ensures multiset(OutOf(seen, n)) == multiset(OutOf(whole, n)) <==> (Expanded(seen, sources, n, d) ==> |OutOf(whole, n)| <= limit)
    {
      assert NodeRead(whole, limit, seen, Expanded(seen, sources, n, d), n);
    }
    FewerEdgesEach(seen, whole);
    if AllFit(whole, limit, sources, seen, d) {
      FewerEdgesEach(whole, seen);
    }
  }

  lemma FewerEdgesEach(a: Table, b: Table)
    requires WellKeyed(a) && forall n :: multiset(OutOf(a, n)) <= multiset(OutOf(b, n))
    ensures EdgesOf(a) <= EdgesOf(b)
  {
    forall e | e in EdgesOf(a) ensures e in EdgesOf(b) {
      assert e in OutOf(a, e.from);
      assert e in multiset(OutOf(a, e.from));
      assert e in multiset(OutOf(b, e.from));
      assert e in OutOf(b, e.from) && e in b[e.from];
    }
  }

  // Short reads only lose: whatever is reported, the whole graph reaches too.
  lemma NothingInvented(whole: Table, limit: nat, sources: seq<Entry>, seen: Table, within: Interval, maxDepth: nat, reached: Reached,
      n: Urn, t: int)
    requires WellKeyed(whole) && ReadTo(whole, limit, sources, seen, maxDepth)
    requires IsLayer(Whole(seen, sources, within, {}), reached, maxDepth) && Held(reached, n, t)
    ensures ReachedWithin(Whole(whole, sources, within, {}), n, t, maxDepth)
  {
    SawAllIffFits(whole, limit, sources, seen, maxDepth);
    FewerEdges(Whole(seen, sources, within, {}), Whole(whole, sources, within, {}), n, t, maxDepth);
  }

  method Roots(sources: seq<Entry>, ghost table: Table) returns (union: set<Urn>, frontier: seq<Urn>)
    ensures IsUnionLayer(table, sources, union, 0) && IsUnionFront(table, sources, frontier, 0)
    ensures CachedTo(table, sources, map[], 0)
  {
    union, frontier := {}, [];
    for k := 0 to |sources|
      invariant Distinct(frontier) && forall n :: n in frontier <==> n in union
      invariant forall n :: n in union <==> exists i :: 0 <= i < k && sources[i].urn == n
    {
      if sources[k].urn !in union {
        union := union + {sources[k].urn};
        frontier := frontier + [sources[k].urn];
      }
    }
    ghost var q := Blind(EdgesOf(table), sources);
    forall n ensures n in union <==> UnionWithin(EdgesOf(table), sources, n, 0) {
      if n in union {
        var i :| 0 <= i < |sources| && sources[i].urn == n;
        assert q.sources[i].urn == n && q.sources[i].valid.Contains(0);
      }
    }
  }

  ghost predicate Targets(edges: seq<Edge>, n: Urn) {
    exists e :: e in edges && e.to == n
  }

  ghost function LeavingIn(edges: seq<Edge>, n: Urn): seq<Edge> {
    if edges == [] then []
    else
      var last := edges[|edges| - 1];
      LeavingIn(edges[..|edges| - 1], n) + (if last.from == n then [last] else [])
  }

  ghost predicate Filed(edges: seq<Edge>, cache0: Table, cache: Table) {
    WellKeyed(cache) && forall n :: OutOf(cache, n) == OutOf(cache0, n) + LeavingIn(edges, n)
  }

  ghost predicate Met(edges: seq<Edge>, union0: set<Urn>, union: set<Urn>, next: seq<Urn>) {
    && (forall n :: n in union <==> n in union0 || Targets(edges, n))
    && Distinct(next) && (forall n :: n in next <==> n in union && n !in union0)
  }

  // Files each edge under its source and queues each target not met before.
  method Absorb(edges: seq<Edge>, union0: set<Urn>, cache0: Table)
      returns (union: set<Urn>, cache: Table, next: seq<Urn>)
    requires WellKeyed(cache0)
    ensures Filed(edges, cache0, cache) && Met(edges, union0, union, next)
  {
    union, cache, next := union0, cache0, [];
    for k := 0 to |edges|
      invariant Filed(edges[..k], cache0, cache) && Met(edges[..k], union0, union, next)
    {
      var e := edges[k];
      PrefixGrows(edges, k);
      FileOne(edges[..k], e, cache0, cache);
      MeetOne(edges[..k], e, union0, union, next);
      cache := cache[e.from := OutOf(cache, e.from) + [e]];
      if e.to !in union {
        union := union + {e.to};
        next := next + [e.to];
      }
    }
    assert edges[..|edges|] == edges;
  }

  lemma FileOne(edges: seq<Edge>, e: Edge, cache0: Table, cache: Table)
    requires Filed(edges, cache0, cache)
    ensures Filed(edges + [e], cache0, cache[e.from := OutOf(cache, e.from) + [e]])
  {
    var cache' := cache[e.from := OutOf(cache, e.from) + [e]];
    assert WellKeyed(cache');
    forall n ensures OutOf(cache', n) == OutOf(cache0, n) + LeavingIn(edges + [e], n) {
      assert OutOf(cache, n) == OutOf(cache0, n) + LeavingIn(edges, n);
      LeavingInAppend(edges, e, n, OutOf(cache0, n));
      assert OutOf(cache', n) == if n == e.from then OutOf(cache, n) + [e] else OutOf(cache, n);
    }
  }

  lemma LeavingInAppend(edges: seq<Edge>, e: Edge, n: Urn, before: seq<Edge>)
    ensures before + LeavingIn(edges + [e], n) ==
      if n == e.from then before + LeavingIn(edges, n) + [e] else before + LeavingIn(edges, n)
  {
    assert (edges + [e])[..|edges|] == edges;
  }

  lemma MeetOne(edges: seq<Edge>, e: Edge, union0: set<Urn>, union: set<Urn>, next: seq<Urn>)
    requires Met(edges, union0, union, next)
    ensures if e.to in union then Met(edges + [e], union0, union, next)
            else Met(edges + [e], union0, union + {e.to}, next + [e.to])
  {
    forall n ensures Targets(edges + [e], n) <==> Targets(edges, n) || n == e.to {
      if Targets(edges, n) {
        var x :| x in edges && x.to == n;
        assert x in edges + [e];
      }
      if n == e.to {
        assert e in edges + [e];
      }
    }
  }

  lemma {:induction false} LeavingInCounts(edges: seq<Edge>, n: Urn, e: Edge)
    ensures multiset(LeavingIn(edges, n))[e] == if e.from == n then multiset(edges)[e] else 0
  {
    if edges != [] {
      LeavingInCounts(edges[..|edges| - 1], n, e);
      assert edges == edges[..|edges| - 1] + [edges[|edges| - 1]];
    }
  }

  lemma {:induction false} AllOutCounts(table: Table, urns: seq<Urn>, e: Edge)
    requires WellKeyed(table) && Distinct(urns)
    ensures multiset(AllOut(table, urns))[e] == if e.from in urns then multiset(OutOf(table, e.from))[e] else 0
  {
    if urns != [] {
      AllOutCounts(table, urns[1..], e);
      assert e.from in urns <==> e.from == urns[0] || e.from in urns[1..];
      assert urns[0] !in urns[1..];
      assert e in OutOf(table, urns[0]) ==> e.from == urns[0];
      assert e in multiset(OutOf(table, urns[0])) <==> e in OutOf(table, urns[0]);
    }
  }

  // A node of the frontier contributes its own edges, each once; no other node contributes any.
  lemma EachExpandedOnce(table: Table, frontier: seq<Urn>, edges: seq<Edge>, n: Urn)
    requires WellKeyed(table) && Distinct(frontier) && multiset(edges) == multiset(AllOut(table, frontier))
    ensures multiset(LeavingIn(edges, n)) == if n in frontier then multiset(OutOf(table, n)) else multiset{}
  {
    forall e
      ensures multiset(LeavingIn(edges, n))[e] == if n in frontier then multiset(OutOf(table, n))[e] else 0
    {
      LeavingInCounts(edges, n, e);
      AllOutCounts(table, frontier, e);
      if e.from != n {
        assert e !in OutOf(table, n);
        assert e !in multiset(OutOf(table, n));
      }
    }
  }

  lemma LevelCached(table: Table, sources: seq<Entry>, frontier: seq<Urn>, edges: seq<Edge>,
      cache: Table, cache': Table, d: nat)
    requires WellKeyed(table) && IsUnionFront(table, sources, frontier, d) && CachedTo(table, sources, cache, d)
    requires multiset(edges) == multiset(AllOut(table, frontier)) && Filed(edges, cache, cache')
    ensures CachedTo(table, sources, cache', d + 1)
  {
    forall n
      ensures UnionWithin(EdgesOf(table), sources, n, d) ==> multiset(OutOf(cache', n)) == multiset(OutOf(table, n))
      ensures !UnionWithin(EdgesOf(table), sources, n, d) ==> OutOf(cache', n) == []
    {
      assert n in frontier <==> FirstInUnion(EdgesOf(table), sources, n, d);
      NodeCached(table, frontier, edges, OutOf(cache, n), OutOf(cache', n), n);
    }
  }

  lemma NodeCached(table: Table, frontier: seq<Urn>, edges: seq<Edge>, known: seq<Edge>, known': seq<Edge>, n: Urn)
    requires WellKeyed(table) && Distinct(frontier) && multiset(edges) == multiset(AllOut(table, frontier))
    requires known' == known + LeavingIn(edges, n)
    ensures n in frontier && known == [] ==> multiset(known') == multiset(OutOf(table, n))
    ensures n !in frontier ==> known' == known
  {
    EachExpandedOnce(table, frontier, edges, n);
    if n !in frontier {
      assert |multiset(LeavingIn(edges, n))| == |LeavingIn(edges, n)|;
    }
  }

  lemma LevelReached(table: Table, sources: seq<Entry>, frontier: seq<Urn>, edges: seq<Edge>,
      union: set<Urn>, union': set<Urn>, next: seq<Urn>, d: nat)
    requires WellKeyed(table) && IsUnionFront(table, sources, frontier, d) && IsUnionLayer(table, sources, union, d)
    requires multiset(edges) == multiset(AllOut(table, frontier)) && Met(edges, union, union', next)
    ensures IsUnionLayer(table, sources, union', d + 1) && IsUnionFront(table, sources, next, d + 1)
  {
    var es := EdgesOf(table);
    forall n ensures n in union' <==> UnionWithin(es, sources, n, d + 1) {
      if Targets(edges, n) {
        var e :| e in edges && e.to == n;
        assert e in multiset(edges);
        AllOutCounts(table, frontier, e);
        assert e in multiset(OutOf(table, e.from));
        BlindStep(table, sources, e, d);
      }
      if UnionWithin(es, sources, n, d + 1) && !UnionWithin(es, sources, n, d) {
        var e := BlindStepBack(table, sources, n, d);
        AllOutCounts(table, frontier, e);
        assert e in multiset(OutOf(table, e.from));
        assert e in multiset(edges);
      }
    }
  }

  lemma BlindStep(table: Table, sources: seq<Entry>, e: Edge, d: nat)
    requires e in OutOf(table, e.from) && UnionWithin(EdgesOf(table), sources, e.from, d)
    ensures UnionWithin(EdgesOf(table), sources, e.to, d + 1)
  {
    var q := Blind(EdgesOf(table), sources);
    var b := Edge(e.from, e.to, ALWAYS);
    assert e in EdgesOf(table) && b in q.edges;
    assert Live(q, b, 0);
    StepReaches(q, b, 0, d);
  }

  lemma BlindStepBack(table: Table, sources: seq<Entry>, n: Urn, d: nat) returns (e: Edge)
    requires WellKeyed(table)
    requires UnionWithin(EdgesOf(table), sources, n, d + 1) && !UnionWithin(EdgesOf(table), sources, n, d)
    ensures e in OutOf(table, e.from) && e.to == n && FirstInUnion(EdgesOf(table), sources, e.from, d)
  {
    var q := Blind(EdgesOf(table), sources);
    assert Extends(q, n, 0, d);
    var b :| Live(q, b, 0) && b.to == n && ReachedWithin(q, b.from, 0, d);
    StepFromWavefront(q, d, b, 0);
    e :| e in EdgesOf(table) && b == Edge(e.from, e.to, ALWAYS);
  }

  lemma NothingLeft(whole: Table, limit: nat, table: Table, sources: seq<Entry>, frontier: seq<Urn>, cache: Table, union: set<Urn>,
      d: nat, d': nat)
    requires d < d' && frontier == [] && Passed(whole, limit, sources, table, union, frontier, cache, d)
    ensures Passed(whole, limit, sources, table, union, frontier, cache, d')
    ensures forall n :: !FirstInUnion(EdgesOf(table), sources, n, d) && !FirstInUnion(EdgesOf(table), sources, n, d')
  {
    var q := Blind(EdgesOf(table), sources);
    forall n ensures !FirstReached(q, n, 0, d) {
      assert n !in frontier;
    }
    Saturated(q, 0, d, d');
    Saturated(q, 0, d, d' - 1);
    var last := d' - 1;
    forall n | UnionWithin(EdgesOf(table), sources, n, last)
      ensures d > 0 && UnionWithin(EdgesOf(table), sources, n, d - 1)
    {
      assert !FirstReached(q, n, 0, d);
    }
    if d > 0 {
      var before := d - 1;
      forall n | UnionWithin(EdgesOf(table), sources, n, before) ensures UnionWithin(EdgesOf(table), sources, n, last) {
        Deeper(q, n, 0, before, last);
      }
    }
    forall n ensures NodeRead(whole, limit, table, Expanded(table, sources, n, d'), n) {
      assert NodeRead(whole, limit, table, Expanded(table, sources, n, d), n);
    }
  }

  ghost function Whole(table: Table, sources: seq<Entry>, within: Interval, blocked: set<Urn>): Search {
    Search(EdgesOf(table), sources, within, blocked)
  }

  method Reach(exp: GraphExpander, sources: seq<Entry>, options: Options)
      returns (ok: bool, res: Result, fronts: seq<seq<Entry>>, ghost seen: Table)
    requires WellKeyed(exp.table)
    modifies exp`roundTrips
    ensures fresh(res)
    ensures exp.healthy ==> ok
    ensures ok ==> res.sources == sources && res.opts == Options(options.Window(), options.Depth())
    ensures ok ==> ReadTo(exp.Readable(), exp.limit, sources, seen, options.Depth())
    ensures ok ==> Tidy(res.coexistence)
    ensures ok ==> IsLayer(Whole(seen, sources, options.Window(), {}), res.coexistence, options.Depth())
    ensures ok ==> IsUnionLayer(seen, sources, res.union, options.Depth())
    ensures ok ==> CachedTo(seen, sources, res.edges, options.Depth())
    ensures ok ==> res.coexistence.Keys <= res.union
    ensures ok ==> (res.truncated <==> exists n :: FirstInUnion(EdgesOf(seen), sources, n, options.Depth()))
    ensures ok ==> Logged(Whole(seen, sources, options.Window(), {}), fronts)
    ensures ok && |fronts| <= options.Depth() ==> Complete(Whole(seen, sources, options.Window(), {}), options.Depth())
  {
    var maxDepth, within := options.Depth(), options.Window();
    res := new Result(sources, Options(within, maxDepth));
    ok, seen := UnionPass(exp, sources, maxDepth, res);
    fronts := [];
    if ok {
      res.coexistence, fronts := Replay(sources, within, maxDepth, res.edges, {});
      CachedReplay(seen, sources, within, {}, res.edges, maxDepth, res.coexistence);
      ghost var q := Whole(seen, sources, within, {});
      forall d | 0 <= d < |fronts| ensures IsWavefront(q, fronts[d], d) {
        CachedWavefront(seen, sources, within, {}, res.edges, maxDepth, fronts[d], d);
      }
      KeysWithinUnion(seen, sources, within, maxDepth, res.coexistence, res.union);
      if |fronts| <= maxDepth {
        EmptiedIsComplete(seen, sources, within, res.edges, maxDepth, |fronts|);
      }
    }
  }

  // A search whose frontier emptied by the bound has reached, at every instant, all there is to reach.
  lemma EmptiedIsComplete(table: Table, sources: seq<Entry>, within: Interval, cache: Table, maxDepth: nat, d: nat)
    requires WellKeyed(table) && CachedTo(table, sources, cache, maxDepth) && d <= maxDepth
    requires NothingAt(Whole(cache, sources, within, {}), d)
    ensures Complete(Whole(table, sources, within, {}), maxDepth)
  {
    var q, c := Whole(table, sources, within, {}), Whole(cache, sources, within, {});
    forall n, t ensures !FirstReached(q, n, t, d) {
      CacheSuffices(table, sources, within, {}, cache, maxDepth, n, t, d);
      if d > 0 {
        CacheSuffices(table, sources, within, {}, cache, maxDepth, n, t, d - 1);
      }
      assert !FirstReached(c, n, t, d);
    }
    forall n, t, deep: nat | ReachedWithin(q, n, t, deep) ensures ReachedWithin(q, n, t, maxDepth) {
      Deeper(q, n, t, deep, deep + maxDepth);
      Saturated(q, t, d, deep + maxDepth);
      Deeper(q, n, t, d, maxDepth);
    }
  }

  // What any search reaches at any instant, the interval-blind one reaches within as many edges.
  lemma {:induction false} BlindReachesMore(table: Table, q: Search, n: Urn, t: int, d: nat)
    requires q.edges <= EdgesOf(table) && WellKeyed(table) && ReachedWithin(q, n, t, d)
    ensures UnionWithin(EdgesOf(table), q.sources, n, d)
    decreases d
  {
    if d == 0 {
      var k :| 0 <= k < |q.sources| && q.sources[k].urn == n && q.sources[k].valid.Contains(t);
      var b := Blind(EdgesOf(table), q.sources);
      assert b.sources[k].urn == n && b.sources[k].valid.Contains(0);
    } else if ReachedWithin(q, n, t, d - 1) {
      BlindReachesMore(table, q, n, t, d - 1);
    } else {
      assert Extends(q, n, t, d - 1);
      var e :| Live(q, e, t) && e.to == n && ReachedWithin(q, e.from, t, d - 1);
      BlindReachesMore(table, q, e.from, t, d - 1);
      BlindStep(table, q.sources, e, d - 1);
    }
  }

  lemma CachedSubset(table: Table, sources: seq<Entry>, cache: Table, maxDepth: nat)
    requires WellKeyed(table) && CachedTo(table, sources, cache, maxDepth)
    ensures EdgesOf(cache) <= EdgesOf(table)
    ensures forall e | maxDepth > 0 && e in EdgesOf(table) && UnionWithin(EdgesOf(table), sources, e.from, maxDepth - 1) ::
      e in EdgesOf(cache)
  {
    forall e | e in EdgesOf(cache) ensures e in EdgesOf(table) {
      assert e in OutOf(cache, e.from);
      assert maxDepth > 0 && UnionWithin(EdgesOf(table), sources, e.from, maxDepth - 1);
      assert e in multiset(OutOf(cache, e.from));
      assert e in multiset(OutOf(table, e.from));
      assert e in OutOf(table, e.from) && e in table[e.from];
    }
    forall e | maxDepth > 0 && e in EdgesOf(table) && UnionWithin(EdgesOf(table), sources, e.from, maxDepth - 1)
      ensures e in EdgesOf(cache)
    {
      assert e in multiset(OutOf(table, e.from));
      assert e in multiset(OutOf(cache, e.from));
      assert e in OutOf(cache, e.from);
    }
  }

  // The cache holds every edge that a depth-bounded walk can use at any instant, with any nodes
  // blocked, so asking it is asking the whole graph.
  lemma {:induction false} CacheSuffices(table: Table, sources: seq<Entry>, within: Interval, blocked: set<Urn>, cache: Table,
      maxDepth: nat, n: Urn, t: int, d: nat)
    requires WellKeyed(table) && CachedTo(table, sources, cache, maxDepth) && d <= maxDepth
    ensures ReachedWithin(Whole(table, sources, within, blocked), n, t, d)
       <==> ReachedWithin(Whole(cache, sources, within, blocked), n, t, d)
    decreases d
  {
    CachedSubset(table, sources, cache, maxDepth);
    var q, c := Whole(table, sources, within, blocked), Whole(cache, sources, within, blocked);
    if ReachedWithin(q, n, t, d) {
      InCache(table, q, c, maxDepth, n, t, d);
    }
    if ReachedWithin(c, n, t, d) {
      FewerEdges(c, q, n, t, d);
    }
  }

  lemma {:induction false} InCache(table: Table, q: Search, c: Search, maxDepth: nat, n: Urn, t: int, d: nat)
    requires WellKeyed(table) && q.edges == EdgesOf(table) && c == q.(edges := c.edges)
    requires forall e | maxDepth > 0 && e in q.edges && UnionWithin(q.edges, q.sources, e.from, maxDepth - 1) :: e in c.edges
    requires ReachedWithin(q, n, t, d) && d <= maxDepth
    ensures ReachedWithin(c, n, t, d)
    decreases d
  {
    if d == 0 {
    } else if ReachedWithin(q, n, t, d - 1) {
      InCache(table, q, c, maxDepth, n, t, d - 1);
    } else {
      assert Extends(q, n, t, d - 1);
      var e :| Live(q, e, t) && e.to == n && ReachedWithin(q, e.from, t, d - 1);
      InCache(table, q, c, maxDepth, e.from, t, d - 1);
      Deeper(q, e.from, t, d - 1, maxDepth - 1);
      BlindReachesMore(table, q, e.from, t, maxDepth - 1);
      StepReaches(c, e, t, d - 1);
    }
  }

  lemma {:induction false} FewerEdges(c: Search, q: Search, n: Urn, t: int, d: nat)
    requires c.edges <= q.edges && c == q.(edges := c.edges) && ReachedWithin(c, n, t, d)
    ensures ReachedWithin(q, n, t, d)
    decreases d
  {
    if d == 0 {
    } else if ReachedWithin(c, n, t, d - 1) {
      FewerEdges(c, q, n, t, d - 1);
    } else {
      assert Extends(c, n, t, d - 1);
      var e :| Live(c, e, t) && e.to == n && ReachedWithin(c, e.from, t, d - 1);
      FewerEdges(c, q, e.from, t, d - 1);
      StepReaches(q, e, t, d - 1);
    }
  }

  lemma CachedReplay(table: Table, sources: seq<Entry>, within: Interval, blocked: set<Urn>, cache: Table, maxDepth: nat,
      reached: Reached)
    requires WellKeyed(table) && CachedTo(table, sources, cache, maxDepth)
    requires IsLayer(Whole(cache, sources, within, blocked), reached, maxDepth)
    ensures IsLayer(Whole(table, sources, within, blocked), reached, maxDepth)
  {
    forall n, t
      ensures Held(reached, n, t) <==> ReachedWithin(Whole(table, sources, within, blocked), n, t, maxDepth)
    {
      CacheSuffices(table, sources, within, blocked, cache, maxDepth, n, t, maxDepth);
    }
  }

  lemma CachedWavefront(table: Table, sources: seq<Entry>, within: Interval, blocked: set<Urn>, cache: Table, maxDepth: nat,
      front: seq<Entry>, d: nat)
    requires WellKeyed(table) && CachedTo(table, sources, cache, maxDepth) && d <= maxDepth
    requires IsWavefront(Whole(cache, sources, within, blocked), front, d)
    ensures IsWavefront(Whole(table, sources, within, blocked), front, d)
  {
    var q, c := Whole(table, sources, within, blocked), Whole(cache, sources, within, blocked);
    forall n, t
      ensures ReachedWithin(q, n, t, d) <==> ReachedWithin(c, n, t, d)
      ensures FirstReached(q, n, t, d) <==> FirstReached(c, n, t, d)
    {
      CacheSuffices(table, sources, within, blocked, cache, maxDepth, n, t, d);
      if d > 0 {
        CacheSuffices(table, sources, within, blocked, cache, maxDepth, n, t, d - 1);
      }
    }
    forall k | 0 <= k < |front| ensures BringsNew(q, front[k], d) {
      assert BringsNew(c, front[k], d);
    }
  }

  lemma KeysWithinUnion(table: Table, sources: seq<Entry>, within: Interval, maxDepth: nat, reached: Reached, union: set<Urn>)
    requires WellKeyed(table) && Tidy(reached) && IsUnionLayer(table, sources, union, maxDepth)
    requires IsLayer(Whole(table, sources, within, {}), reached, maxDepth)
    ensures reached.Keys <= union
  {
    forall n | n in reached ensures n in union {
      FirstInstantIsCovered(reached[n]);
      assert Held(reached, n, reached[n][0].from);
      BlindReachesMore(table, Whole(table, sources, within, {}), n, reached[n][0].from, maxDepth);
    }
  }

  // Two tidy answers to one question are one map, so the two-pass search returns what a single
  // interval search over the whole graph would.
  lemma SameLayerSameAnswer(q: Search, a: Reached, b: Reached, d: nat)
    requires Tidy(a) && Tidy(b) && IsLayer(q, a, d) && IsLayer(q, b, d)
    ensures a == b
  {
    forall n ensures n in a <==> n in b {
      if n in a {
        FirstInstantIsCovered(a[n]);
        assert Held(a, n, a[n][0].from) && Held(b, n, a[n][0].from);
      }
      if n in b {
        FirstInstantIsCovered(b[n]);
        assert Held(b, n, b[n][0].from) && Held(a, n, b[n][0].from);
      }
    }
    forall n | n in a ensures a[n] == b[n] {
      forall t ensures Covered(a[n], t) <==> Covered(b[n], t) {
        assert Held(a, n, t) <==> Held(b, n, t);
      }
      CanonicalIsUnique(a[n], b[n]);
    }
  }

  // A search that is not truncated has found every node any number of edges can reach.
  lemma NotTruncatedIsClosure(edges: set<Edge>, sources: seq<Entry>, maxDepth: nat, d: nat)
    requires forall n :: !FirstInUnion(edges, sources, n, maxDepth)
    ensures forall n :: UnionWithin(edges, sources, n, d) ==> UnionWithin(edges, sources, n, maxDepth)
  {
    var q := Blind(edges, sources);
    forall n ensures !FirstReached(q, n, 0, maxDepth) {
      assert !FirstInUnion(edges, sources, n, maxDepth);
    }
    if d >= maxDepth {
      Saturated(q, 0, maxDepth, d);
    } else {
      forall n | UnionWithin(edges, sources, n, d) ensures UnionWithin(edges, sources, n, maxDepth) {
        Deeper(q, n, 0, d, maxDepth);
      }
    }
  }

  ghost predicate Complete(q: Search, maxDepth: nat) {
    forall n, t, d: nat :: ReachedWithin(q, n, t, d) ==> ReachedWithin(q, n, t, maxDepth)
  }

  // The coexistence answer is complete exactly when one more level would add nothing. The truncation
  // flag does not say so: see TruncationSaysNothingOfCoexistence.
  lemma CompleteIffNothingOneDeeper(q: Search, maxDepth: nat)
    ensures Complete(q, maxDepth) <==> NothingAt(q, maxDepth + 1)
  {
    if NothingAt(q, maxDepth + 1) {
      forall n, t, d: nat | ReachedWithin(q, n, t, d) ensures ReachedWithin(q, n, t, maxDepth) {
        if d <= maxDepth {
          Deeper(q, n, t, d, maxDepth);
        } else {
          Saturated(q, t, maxDepth + 1, d);
          assert !FirstReached(q, n, t, maxDepth + 1);
        }
      }
    }
    if Complete(q, maxDepth) {
      var next := maxDepth + 1;
      forall n, t ensures !FirstReached(q, n, t, next) {
        assert ReachedWithin(q, n, t, next) ==> ReachedWithin(q, n, t, maxDepth);
      }
    }
  }

  // PhantomReach counts what the union graph claims and no coexistence path ever reached.
  method PhantomReach(union: set<Urn>, coexistence: Reached) returns (phantom: nat)
    requires coexistence.Keys <= union && forall n :: n in coexistence ==> coexistence[n] != []
    ensures phantom == |union| - |coexistence|
    ensures phantom == 0 <==> union == coexistence.Keys
  {
    phantom := 0;
    var left := union;
    ghost var phantoms: set<Urn> := {};
    while left != {}
      invariant left <= union && phantom == |phantoms|
      invariant forall n :: n in phantoms <==> n in union && n !in left && n !in coexistence
    {
      var urn :| urn in left;
      var found := |SetAt(coexistence, urn)| > 0;
      assert found <==> urn in coexistence;
      if !found {
        phantoms := phantoms + {urn};
        phantom := phantom + 1;
      }
      left := left - {urn};
    }
    assert phantoms == union - coexistence.Keys;
    DifferenceSize(union, coexistence.Keys);
  }

  lemma DifferenceSize<T>(a: set<T>, b: set<T>)
    requires b <= a
    ensures |a - b| == |a| - |b|
    ensures |a - b| == 0 <==> a == b
  {
    assert a == (a - b) + b;
  }

  // A snapshot of the answer: who is reached at the instant t, nobody twice, in the map's own order.
  method ReachedAt(coexistence: Reached, t: int) returns (out: seq<Urn>)
    requires Tidy(coexistence)
    ensures Distinct(out) && forall n :: n in out <==> Held(coexistence, n, t)
  {
    out := [];
    var left := coexistence.Keys;
    while left != {}
      invariant left <= coexistence.Keys
      invariant Distinct(out) && forall n :: n in out <==> n !in left && Held(coexistence, n, t)
    {
      var urn :| urn in left;
      left := left - {urn};
      var covers := CoversInstant(coexistence[urn], t);
      if covers {
        out := out + [urn];
      }
    }
  }

  method CoversInstant(spans: IntervalSet, t: int) returns (found: bool)
    ensures found <==> Covered(spans, t)
  {
    for k := 0 to |spans|
      invariant forall i :: 0 <= i < k ==> !spans[i].Contains(t)
    {
      if spans[k].Contains(t) {
        return true;
      }
    }
    return false;
  }

  // A graph in which every node is one union hop from `a`, two of those hops being open only later.
  const LATER := Interval(10, 20)

  function Detour(a: Urn, b: Urn, c: Urn, d: Urn): (table: Table)
    requires a != b && a != d && b != d
  {
    map[a := [Edge(a, b, ALWAYS), Edge(a, d, LATER), Edge(a, c, LATER)], b := [Edge(b, d, ALWAYS)], d := [Edge(d, c, ALWAYS)]]
  }

  lemma DetourEdges(a: Urn, b: Urn, c: Urn, d: Urn)
    requires a != b && a != d && b != d
    ensures WellKeyed(Detour(a, b, c, d))
    ensures forall e :: e in EdgesOf(Detour(a, b, c, d)) <==>
      e in [Edge(a, b, ALWAYS), Edge(a, d, LATER), Edge(a, c, LATER), Edge(b, d, ALWAYS), Edge(d, c, ALWAYS)]
  {
    var table := Detour(a, b, c, d);
    assert table[a] == [Edge(a, b, ALWAYS), Edge(a, d, LATER), Edge(a, c, LATER)];
    assert table[b] == [Edge(b, d, ALWAYS)] && table[d] == [Edge(d, c, ALWAYS)];
    assert table.Keys == {a, b, d};
    forall e | e in [Edge(a, b, ALWAYS), Edge(a, d, LATER), Edge(a, c, LATER), Edge(b, d, ALWAYS), Edge(d, c, ALWAYS)]
      ensures e in EdgesOf(table)
    {
      assert e in table[e.from];
    }
  }

  lemma DetourIsNotTruncated(a: Urn, b: Urn, c: Urn, d: Urn, n: Urn)
    requires a != b && a != d && b != d
    ensures !FirstInUnion(EdgesOf(Detour(a, b, c, d)), [Entry(a, ALWAYS)], n, 2)
  {
    var table, sources := Detour(a, b, c, d), [Entry(a, ALWAYS)];
    var es := EdgesOf(table);
    DetourEdges(a, b, c, d);
    var q := Blind(es, sources);
    assert q.sources[0].urn == a && Starts(q, a, 0);
    BlindStep(table, sources, table[a][0], 0);
    BlindStep(table, sources, table[a][1], 0);
    BlindStep(table, sources, table[a][2], 0);
    assert UnionWithin(es, sources, b, 1) && UnionWithin(es, sources, c, 1) && UnionWithin(es, sources, d, 1);
  }

  lemma DetourAtZero(a: Urn, b: Urn, c: Urn, d: Urn, e: Edge)
    requires a != b && a != c && a != d && b != c && b != d && c != d
    ensures Live(Whole(Detour(a, b, c, d), [Entry(a, ALWAYS)], ALWAYS, {}), e, 0) <==>
      e == Edge(a, b, ALWAYS) || e == Edge(b, d, ALWAYS) || e == Edge(d, c, ALWAYS)
  {
    DetourEdges(a, b, c, d);
    assert !LATER.Contains(0) && ALWAYS.Contains(0);
  }

  // Union distance bounds nothing at a particular instant: a search of this graph to depth 2 is not
  // truncated, yet at instant 0 a walk of three edges leads to a node that no walk of two does.
  lemma TruncationSaysNothingOfCoexistence(a: Urn, b: Urn, c: Urn, d: Urn)
    requires a != b && a != c && a != d && b != c && b != d && c != d
    ensures forall n :: !FirstInUnion(EdgesOf(Detour(a, b, c, d)), [Entry(a, ALWAYS)], n, 2)
    ensures FirstReached(Whole(Detour(a, b, c, d), [Entry(a, ALWAYS)], ALWAYS, {}), c, 0, 3)
  {
    forall n ensures !FirstInUnion(EdgesOf(Detour(a, b, c, d)), [Entry(a, ALWAYS)], n, 2) {
      DetourIsNotTruncated(a, b, c, d, n);
    }
    var q := Whole(Detour(a, b, c, d), [Entry(a, ALWAYS)], ALWAYS, {});
    forall e
      ensures Live(q, e, 0) <==> e == Edge(a, b, ALWAYS) || e == Edge(b, d, ALWAYS) || e == Edge(d, c, ALWAYS)
    {
      DetourAtZero(a, b, c, d, e);
    }
    DetourWalk(q, a, b, c, d);
  }

  lemma DetourWalk(q: Search, a: Urn, b: Urn, c: Urn, d: Urn)
    requires a != b && a != c && a != d && b != c && b != d && c != d
    requires q.sources == [Entry(a, ALWAYS)] && q.within == ALWAYS && q.blocked == {}
    requires forall e :: Live(q, e, 0) <==> e == Edge(a, b, ALWAYS) || e == Edge(b, d, ALWAYS) || e == Edge(d, c, ALWAYS)
    ensures FirstReached(q, c, 0, 3)
  {
    assert q.sources[0].urn == a && Starts(q, a, 0);
    StepReaches(q, Edge(a, b, ALWAYS), 0, 0);
    StepReaches(q, Edge(b, d, ALWAYS), 0, 1);
    StepReaches(q, Edge(d, c, ALWAYS), 0, 2);
    assert !ReachedWithin(q, c, 0, 0) && !ReachedWithin(q, d, 0, 0);
    assert !Extends(q, d, 0, 0) && !Extends(q, c, 0, 0);
    assert !ReachedWithin(q, c, 0, 1) && !ReachedWithin(q, d, 0, 1);
    assert !Extends(q, c, 0, 1);
  }
}
