// Breadth-first search over cached edges, with spans intersected on the way (replay in
// internal/query/reach.go).
module IntervalSearch {
  import opened Intervals
  import opened Snapshot

  type Reached = map<Urn, IntervalSet>

  ghost predicate Held(reached: Reached, n: Urn, t: int) {
    n in reached && Covered(reached[n], t)
  }

  // Every set is canonical and says something: a key means the node is reached at some instant.
  ghost predicate Tidy(reached: Reached) {
    forall n :: n in reached ==> Canonical(reached[n]) && reached[n] != []
  }

  // Exactly the node-instants reachable within d edges.
  ghost predicate IsLayer(q: Search, reached: Reached, d: nat) {
    forall n, t :: Held(reached, n, t) <==> ReachedWithin(q, n, t, d)
  }

  ghost predicate BringsNew(q: Search, entry: Entry, d: nat) {
    exists t :: entry.valid.Contains(t) && FirstReached(q, entry.urn, t, d)
  }

  // A wavefront misses nothing that is new at its depth, contains nothing unreachable by then, and
  // no entry of it is there without something new.
  ghost predicate IsWavefront(q: Search, front: seq<Entry>, d: nat) {
    && (forall n, t :: Holds(front, n, t) ==> ReachedWithin(q, n, t, d))
    && (forall n, t :: FirstReached(q, n, t, d) ==> Holds(front, n, t))
    && (forall k :: 0 <= k < |front| ==> BringsNew(q, front[k], d))
  }

  ghost predicate Logged(q: Search, fronts: seq<seq<Entry>>) {
    forall d :: 0 <= d < |fronts| ==> fronts[d] != [] && IsWavefront(q, fronts[d], d)
  }

  function SetAt(reached: Reached, n: Urn): IntervalSet {
    if n in reached then reached[n] else []
  }

  method Replay(sources: seq<Entry>, within: Interval, maxDepth: nat, cache: Table, blocked: set<Urn>)
      returns (reached: Reached, fronts: seq<seq<Entry>>)
    requires WellKeyed(cache)
    ensures Tidy(reached)
    ensures IsLayer(Search(EdgesOf(cache), sources, within, blocked), reached, maxDepth)
    // The wavefronts handed to OnFrontier, one per depth from 0, stopping at the first empty one.
    ensures |fronts| <= maxDepth + 1
    ensures Logged(Search(EdgesOf(cache), sources, within, blocked), fronts)
    ensures |fronts| <= maxDepth ==> NothingAt(Search(EdgesOf(cache), sources, within, blocked), |fronts|)
  {
    ghost var q := Search(EdgesOf(cache), sources, within, blocked);
    var frontier;
    reached, frontier := Seed(sources, within, blocked, q.edges);
    fronts := if frontier != [] then [frontier] else [];
    WalkedOn(q, reached, frontier, [], 0);
    reached, frontier, fronts := Levels(q, cache, blocked, maxDepth, reached, frontier, fronts);
    if frontier == [] {
      EmptyWavefront(q, frontier, |fronts|, maxDepth, reached);
    }
  }

  // The loop over depths, from the seeded frontier until it empties or the bound is met.
  method Levels(ghost q: Search, cache: Table, blocked: set<Urn>, maxDepth: nat, reached0: Reached, frontier0: seq<Entry>,
      fronts0: seq<seq<Entry>>) returns (reached: Reached, frontier: seq<Entry>, fronts: seq<seq<Entry>>)
    requires WellKeyed(cache) && q.edges == EdgesOf(cache) && q.blocked == blocked
    requires Walked(q, reached0, frontier0, fronts0, 0)
    ensures frontier == [] ==> |fronts| <= maxDepth && Walked(q, reached, frontier, fronts, |fronts|)
    ensures frontier != [] ==> Walked(q, reached, frontier, fronts, maxDepth)
  {
    reached, frontier, fronts := reached0, frontier0, fronts0;
    var depth := 1;
    while depth <= maxDepth && |frontier| > 0
      invariant 1 <= depth <= maxDepth + 1
      invariant Walked(q, reached, frontier, fronts, depth - 1)
    {
      reached, frontier := Advance(frontier, cache, blocked, reached, q, depth - 1);
      WalkedOn(q, reached, frontier, fronts, depth);
      if frontier != [] {
        fronts := fronts + [frontier];
      }
      depth := depth + 1;
    }
  }

  ghost predicate NothingAt(q: Search, d: nat) {
    forall n, t :: !FirstReached(q, n, t, d)
  }

  // After depth d, every wavefront so far has been reported, unless the last was empty.
  ghost predicate Walked(q: Search, reached: Reached, frontier: seq<Entry>, fronts: seq<seq<Entry>>, d: nat) {
    && Tidy(reached) && IsLayer(q, reached, d) && IsWavefront(q, frontier, d)
    && Logged(q, fronts) && |fronts| == if frontier == [] then d else d + 1
  }

  lemma WalkedOn(q: Search, reached: Reached, frontier: seq<Entry>, fronts: seq<seq<Entry>>, d: nat)
    requires Tidy(reached) && IsLayer(q, reached, d) && IsWavefront(q, frontier, d)
    requires Logged(q, fronts) && |fronts| == d
    ensures Walked(q, reached, frontier, if frontier != [] then fronts + [frontier] else fronts, d)
  {
    if frontier != [] {
      LogOne(q, fronts, frontier);
    }
  }

  lemma LogOne(q: Search, fronts: seq<seq<Entry>>, front: seq<Entry>)
    requires Logged(q, fronts) && front != [] && IsWavefront(q, front, |fronts|)
    ensures Logged(q, fronts + [front])
  {
    EachOf(fronts, front, (f: seq<Entry>, d: nat) => f != [] && IsWavefront(q, f, d));
  }

  lemma EachOf<T>(s: seq<T>, x: T, p: (T, nat) -> bool)
    requires p(x, |s|) && forall d :: 0 <= d < |s| ==> p(s[d], d)
    ensures forall d :: 0 <= d < |s| + 1 ==> p((s + [x])[d], d)
  {
  }

  lemma EmptyWavefront(q: Search, front: seq<Entry>, d: nat, d': nat, reached: Reached)
    requires d <= d' && front == [] && IsWavefront(q, front, d) && IsLayer(q, reached, d)
    ensures IsLayer(q, reached, d') && NothingAt(q, d)
  {
    forall n, t ensures ReachedWithin(q, n, t, d') <==> ReachedWithin(q, n, t, d) {
      Saturated(q, t, d, d');
    }
  }

  // One arrival: `j` is merged into what is known of `n`, and queued if it brought anything new.
  method Arrive(reached: Reached, next: seq<Entry>, n: Urn, j: Interval) returns (reached': Reached, next': seq<Entry>)
    requires Tidy(reached)
    ensures Tidy(reached')
    ensures forall m, t :: Held(reached', m, t) <==> Held(reached, m, t) || (m == n && j.Contains(t))
    ensures next' == next || next' == next + [Entry(n, j)]
    ensures next' == next ==> forall t :: j.Contains(t) ==> Held(reached, n, t)
    ensures next' != next ==> exists t :: j.Contains(t) && !Held(reached, n, t)
  {
    var spans, added := Insert(SetAt(reached, n), j);
    if !added {
      return reached, next;
    }
    reached' := reached[n := spans];
    next' := next + [Entry(n, j)];
    assert |next'| != |next|;
    forall m, t ensures Held(reached', m, t) <==> Held(reached, m, t) || (m == n && j.Contains(t)) {
      if m == n {
        assert Covered(spans, t) <==> Covered(SetAt(reached, n), t) || j.Contains(t);
      }
    }
  }

  // Part of the source list entered: `frontier` covers exactly what is held.
  ghost predicate Seeding(q: Search, k: nat, reached: Reached, frontier: seq<Entry>)
    requires k <= |q.sources|
  {
    && Tidy(reached)
    && (forall n, t :: Held(reached, n, t) <==> Starts(q.(sources := q.sources[..k]), n, t))
    && (forall n, t :: Held(reached, n, t) <==> Holds(frontier, n, t))
    && (forall i :: 0 <= i < |frontier| ==> !frontier[i].valid.Empty())
  }

  lemma HoldsAppend(f: seq<Entry>, x: Entry, n: Urn, t: int)
    ensures Holds(f + [x], n, t) <==> Holds(f, n, t) || (n == x.urn && x.valid.Contains(t))
  {
    if Holds(f, n, t) {
      var k :| 0 <= k < |f| && f[k].urn == n && f[k].valid.Contains(t);
      assert (f + [x])[k] == f[k];
    }
    if n == x.urn && x.valid.Contains(t) {
      assert (f + [x])[|f|] == x;
    }
  }

  method Seed(sources: seq<Entry>, within: Interval, blocked: set<Urn>, ghost edges: set<Edge>)
      returns (reached: Reached, frontier: seq<Entry>)
    ensures var q := Search(edges, sources, within, blocked);
      Tidy(reached) && IsLayer(q, reached, 0) && IsWavefront(q, frontier, 0)
  {
    reached, frontier := map[], [];
    ghost var q := Search(edges, sources, within, blocked);
    for k := 0 to |sources|
      invariant Seeding(q, k, reached, frontier)
    {
      var s := sources[k];
      assert sources[..k + 1] == sources[..k] + [s];
      forall n, t
        ensures Holds(sources[..k + 1], n, t) <==> Holds(sources[..k], n, t) || (n == s.urn && s.valid.Contains(t))
      {
        HoldsAppend(sources[..k], s, n, t);
      }
      if s.urn in blocked {
        continue;
      }
      var start := s.valid.Intersect(within);
      if start.Empty() {
        assert forall t :: !start.Contains(t);
        continue;
      }
      ghost var frontier0 := frontier;
      reached, frontier := Arrive(reached, frontier, s.urn, start);
      forall n, t ensures Holds(frontier, n, t) <==> Held(reached, n, t) {
        HoldsAppend(frontier0, Entry(s.urn, start), n, t);
      }
    }
    assert sources[..|sources|] == sources;
    assert q.(sources := sources) == q;
    forall i | 0 <= i < |frontier|
      ensures BringsNew(q, frontier[i], 0)
    {
      var t := frontier[i].valid.from;
      assert frontier[i].valid.Contains(t) && Holds(frontier, frontier[i].urn, t);
      assert FirstReached(q, frontier[i].urn, t, 0);
    }
  }

  // Part of a wavefront expanded. Whatever is new is queued, whatever is held is due by the next
  // depth, and the entries `done` and the edges before `y` of the current one have been followed.
  ghost predicate Expanding(q: Search, d: nat, reached: Reached, next: seq<Entry>) {
    && Tidy(reached)
    && (forall n, t :: ReachedWithin(q, n, t, d) ==> Held(reached, n, t))
    && (forall n, t :: Held(reached, n, t) ==> ReachedWithin(q, n, t, d + 1))
    && (forall n, t :: Holds(next, n, t) ==> Held(reached, n, t))
    && (forall n, t :: Held(reached, n, t) && !ReachedWithin(q, n, t, d) ==> Holds(next, n, t))
    && (forall k :: 0 <= k < |next| ==> BringsNew(q, next[k], d + 1))
  }

  ghost predicate Followed(q: Search, entry: Entry, out: seq<Edge>, reached: Reached) {
    forall e, t :: e in out && entry.valid.Contains(t) && Live(q, e, t) ==> Held(reached, e.to, t)
  }

  method Advance(frontier: seq<Entry>, cache: Table, blocked: set<Urn>, reached0: Reached, ghost q: Search, ghost d: nat)
      returns (reached: Reached, next: seq<Entry>)
    requires WellKeyed(cache) && q.edges == EdgesOf(cache) && q.blocked == blocked
    requires Tidy(reached0) && IsLayer(q, reached0, d) && IsWavefront(q, frontier, d)
    ensures Tidy(reached) && IsLayer(q, reached, d + 1) && IsWavefront(q, next, d + 1)
  {
    reached, next := reached0, [];
    for x := 0 to |frontier|
      invariant Expanding(q, d, reached, next)
      invariant FollowedUpTo(q, frontier, x, cache, reached)
    {
      ghost var before := reached;
      EntryIsReached(q, frontier, d, x);
      reached, next := Follow(frontier[x], OutOf(cache, frontier[x].urn), blocked, reached, next, q, d);
      FollowedOneMore(q, frontier, x, cache, before, reached);
    }
    AllFollowed(q, d, frontier, cache, reached);
    ExpandedIsWavefront(q, d, reached, next);
  }

  ghost predicate FollowedUpTo(q: Search, frontier: seq<Entry>, x: nat, cache: Table, reached: Reached)
    requires x <= |frontier|
  {
    forall i :: 0 <= i < x ==> Followed(q, frontier[i], OutOf(cache, frontier[i].urn), reached)
  }

  lemma EntryIsReached(q: Search, frontier: seq<Entry>, d: nat, x: nat)
    requires x < |frontier| && IsWavefront(q, frontier, d)
    ensures forall t :: frontier[x].valid.Contains(t) ==> ReachedWithin(q, frontier[x].urn, t, d)
  {
    assert forall t :: frontier[x].valid.Contains(t) ==> Holds(frontier, frontier[x].urn, t);
  }

  lemma FollowedOneMore(q: Search, frontier: seq<Entry>, x: nat, cache: Table, before: Reached, after: Reached)
    requires x < |frontier| && FollowedUpTo(q, frontier, x, cache, before)
    requires Followed(q, frontier[x], OutOf(cache, frontier[x].urn), after)
    requires forall m, t :: Held(before, m, t) ==> Held(after, m, t)
    ensures FollowedUpTo(q, frontier, x + 1, cache, after)
  {
    forall i | 0 <= i < x ensures Followed(q, frontier[i], OutOf(cache, frontier[i].urn), after) {
      FollowedStays(q, frontier[i], OutOf(cache, frontier[i].urn), before, after);
    }
  }

  lemma ExpandedIsWavefront(q: Search, d: nat, reached: Reached, next: seq<Entry>)
    requires Expanding(q, d, reached, next) && IsLayer(q, reached, d + 1)
    ensures IsWavefront(q, next, d + 1)
  {
  }

  lemma FollowedStays(q: Search, entry: Entry, out: seq<Edge>, before: Reached, after: Reached)
    requires Followed(q, entry, out, before) && forall m, t :: Held(before, m, t) ==> Held(after, m, t)
    ensures Followed(q, entry, out, after)
  {
  }

  // The inner loop: one entry's edges.
  method Follow(entry: Entry, out: seq<Edge>, blocked: set<Urn>, reached0: Reached, next0: seq<Entry>, ghost q: Search,
      ghost d: nat) returns (reached: Reached, next: seq<Entry>)
    requires q.blocked == blocked && Expanding(q, d, reached0, next0)
    requires forall e :: e in out ==> e in q.edges && e.from == entry.urn
    requires forall t :: entry.valid.Contains(t) ==> ReachedWithin(q, entry.urn, t, d)
    ensures Expanding(q, d, reached, next) && Followed(q, entry, out, reached)
    ensures forall m, t :: Held(reached0, m, t) ==> Held(reached, m, t)
  {
    reached, next := reached0, next0;
    for y := 0 to |out|
      invariant Expanding(q, d, reached, next)
      invariant Followed(q, entry, out[..y], reached)
      invariant forall m, t :: Held(reached0, m, t) ==> Held(reached, m, t)
    {
      var e := out[y];
      assert out[..y + 1] == out[..y] + [e];
      if e.to in blocked {
        continue;
      }
      var j := entry.valid.Intersect(e.valid);
      if j.Empty() {
        assert forall t :: !j.Contains(t);
        continue;
      }
      ghost var before, next' := reached, next;
      reached, next := Arrive(reached, next, e.to, j);
      ArrivalKeepsExpanding(q, d, entry, e, j, before, next', reached, next);
      FollowedStays(q, entry, out[..y], before, reached);
    }
    assert out[..|out|] == out;
  }

  lemma ArrivalKeepsExpanding(q: Search, d: nat, entry: Entry, e: Edge, j: Interval,
      reached: Reached, next: seq<Entry>, reached': Reached, next': seq<Entry>)
    requires Expanding(q, d, reached, next) && Tidy(reached')
    requires forall t :: entry.valid.Contains(t) ==> ReachedWithin(q, entry.urn, t, d)
    requires e in q.edges && e.from == entry.urn && e.to !in q.blocked && j == entry.valid.Intersect(e.valid)
    requires forall m, t :: Held(reached', m, t) <==> Held(reached, m, t) || (m == e.to && j.Contains(t))
    requires next' == next || next' == next + [Entry(e.to, j)]
    requires next' == next ==> forall t :: j.Contains(t) ==> Held(reached, e.to, t)
    requires next' != next ==> exists t :: j.Contains(t) && !Held(reached, e.to, t)
    ensures Expanding(q, d, reached', next')
  {
    forall n, t | Held(reached', n, t) ensures ReachedWithin(q, n, t, d + 1) {
      if !Held(reached, n, t) {
        assert Live(q, e, t) && Extends(q, n, t, d);
      }
    }
    if next' != next {
      forall n, t ensures Holds(next', n, t) <==> Holds(next, n, t) || (n == e.to && j.Contains(t)) {
        HoldsAppend(next, Entry(e.to, j), n, t);
      }
      forall k | 0 <= k < |next'|
        ensures BringsNew(q, next'[k], d + 1)
      {
        if k < |next| {
          assert next'[k] == next[k];
        } else {
          var t :| j.Contains(t) && !Held(reached, e.to, t);
          assert Held(reached', e.to, t) && FirstReached(q, e.to, t, d + 1);
        }
      }
    }
  }

  lemma AllFollowed(q: Search, d: nat, frontier: seq<Entry>, cache: Table, reached: Reached)
    requires WellKeyed(cache) && q.edges == EdgesOf(cache) && IsWavefront(q, frontier, d)
    requires forall n, t :: ReachedWithin(q, n, t, d) ==> Held(reached, n, t)
    requires forall n, t :: Held(reached, n, t) ==> ReachedWithin(q, n, t, d + 1)
    requires FollowedUpTo(q, frontier, |frontier|, cache, reached)
    ensures IsLayer(q, reached, d + 1)
  {
    forall n, t ensures Held(reached, n, t) <==> ReachedWithin(q, n, t, d + 1) {
      if ReachedWithin(q, n, t, d + 1) && !ReachedWithin(q, n, t, d) {
        assert Extends(q, n, t, d);
        var e :| Live(q, e, t) && e.to == n && ReachedWithin(q, e.from, t, d);
        StepFromWavefront(q, d, e, t);
        assert Holds(frontier, e.from, t);
        var i :| 0 <= i < |frontier| && frontier[i].urn == e.from && frontier[i].valid.Contains(t);
        assert e in OutOf(cache, e.from);
      }
    }
  }

  // What is new at the next depth is one edge away from what was new at this one.
  lemma StepFromWavefront(q: Search, d: nat, e: Edge, t: int)
    requires Live(q, e, t) && ReachedWithin(q, e.from, t, d)
    ensures FirstReached(q, e.from, t, d) || ReachedWithin(q, e.to, t, d)
  {
    if d > 0 && ReachedWithin(q, e.from, t, d - 1) {
      StepReaches(q, e, t, d - 1);
    }
  }

  // Two ways from a to b, one through m and then one through n, overlapping in time.
  ghost function TwoWays(a: Urn, m: Urn, n: Urn, b: Urn): Search {
    Search({Edge(a, m, Interval(1, 5)), Edge(m, b, Interval(1, 5)), Edge(a, n, Interval(4, 10)), Edge(n, b, Interval(4, 10))},
           [Entry(a, ALWAYS)], ALWAYS, {})
  }

  // A node's spans may be wider than any one path to it: [1,5) and [4,10) merge into [1,10), which
  // covers [3,7), though no walk lasts from 3 to 6.
  lemma SpansAreNotPathWidths(a: Urn, m: Urn, n: Urn, b: Urn)
    requires a != b && m != b && n != b
    ensures forall t :: 3 <= t < 7 ==> ReachedWithin(TwoWays(a, m, n, b), b, t, 2)
    ensures forall path :: !(IsWalk(TwoWays(a, m, n, b), path, a, b, 3) && IsWalk(TwoWays(a, m, n, b), path, a, b, 6))
  {
    var q := TwoWays(a, m, n, b);
    forall t | 3 <= t < 7 ensures ReachedWithin(q, b, t, 2) {
      assert q.sources[0].urn == a && q.sources[0].valid.Contains(t) && Starts(q, a, t);
      var via, span := if t < 5 then m else n, if t < 5 then Interval(1, 5) else Interval(4, 10);
      StepReaches(q, Edge(a, via, span), t, 0);
      StepReaches(q, Edge(via, b, span), t, 1);
    }
    forall path: seq<Edge> ensures !(IsWalk(q, path, a, b, 3) && IsWalk(q, path, a, b, 6)) {
      if IsWalk(q, path, a, b, 3) {
        assert Live(q, path[|path| - 1], 3) && path[|path| - 1].to == b;
      }
    }
  }

  // The central statement, in terms of walks: an instant is in a node's set exactly when some source
  // existing then reaches the node by an unblocked walk, short enough, of edges all valid then.
  lemma HeldIffWalk(q: Search, reached: Reached, d: nat)
    requires IsLayer(q, reached, d)
    ensures forall n, t :: Held(reached, n, t) <==> ReachableBy(q, n, t, d)
  {
    forall n, t ensures Held(reached, n, t) <==> ReachableBy(q, n, t, d) {
      LayersAreWalks(q, n, t, d);
    }
  }
}
