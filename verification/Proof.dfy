// Proof paths: the shortest returned path whose edges share an instant (coexistenceChain and
// ProofPath in internal/query/proof.go).
module Proof {
  import opened Wrappers
  import opened Intervals
  import opened Snapshot
  import opened IntervalSearch
  import opened Expander
  import opened Roster
  import D = Duality

  datatype Chain = Chain(hops: seq<Edge>, valid: Interval)

  ghost predicate AllHold(path: seq<Edge>, t: int) {
    forall i :: 0 <= i < |path| ==> path[i].valid.Contains(t)
  }

  ghost predicate Coexists(path: seq<Edge>) {
    path != [] && exists t :: ALWAYS.Contains(t) && AllHold(path, t)
  }

  // The chain's span is exactly the instants at which every edge holds; a path with none is refused.
  method CoexistenceChain(path: seq<Edge>) returns (chain: Option<Chain>)
    ensures chain.Some? <==> Coexists(path)
    ensures chain.Some? ==> chain.value.hops == path && !chain.value.valid.Empty()
    ensures chain.Some? ==> forall t :: chain.value.valid.Contains(t) <==> ALWAYS.Contains(t) && AllHold(path, t)
  {
    if path == [] {
      return None;
    }
    var valid := ALWAYS;
    assert valid.Contains(valid.from);
    for i := 0 to |path|
      invariant valid.Contains(valid.from)
      invariant forall t :: valid.Contains(t) <==> ALWAYS.Contains(t) && AllHold(path[..i], t)
    {
      forall t ensures AllHold(path[..i + 1], t) <==> AllHold(path[..i], t) && path[i].valid.Contains(t) {
        HoldOneMore(path, i, t);
      }
      valid := valid.Intersect(path[i].valid);
      if valid.Empty() {
        forall t ensures !(ALWAYS.Contains(t) && AllHold(path, t)) {
          if AllHold(path, t) {
            assert AllHold(path[..i + 1], t);
            assert !valid.Contains(t);
          }
        }
        return None;
      }
    }
    assert path[..|path|] == path;
    chain := Some(Chain(path, valid));
  }

  lemma HoldOneMore(path: seq<Edge>, i: nat, t: int)
    requires i < |path|
    ensures AllHold(path[..i + 1], t) <==> AllHold(path[..i], t) && path[i].valid.Contains(t)
  {
    if AllHold(path[..i + 1], t) {
      assert path[..i + 1][i] == path[i];
      forall k | 0 <= k < i ensures path[..i][k].valid.Contains(t) {
        assert path[..i + 1][k] == path[k];
      }
    }
  }

  // What the path procedure answers for some sources: some of their paths to the target.
  type Paths = seq<Urn> -> seq<seq<Edge>>

  function FirstChunk(sources: seq<Urn>): seq<Urn> {
    if SOURCE_CHUNK < |sources| then sources[..SOURCE_CHUNK] else sources
  }

  // All its answers, asked a chunk of sources at a time.
  function Answers(sources: seq<Urn>, paths: Paths): seq<seq<Edge>> {
    if sources == [] then []
    else paths(FirstChunk(sources)) + Answers(sources[|FirstChunk(sources)|..], paths)
  }

  ghost predicate ShortestAt(paths: seq<seq<Edge>>, k: int, hops: seq<Edge>) {
    && 0 <= k < |paths| && paths[k] == hops && Coexists(hops)
    && forall j :: 0 <= j < |paths| && Coexists(paths[j]) ==> |hops| < |paths[j]| || (|hops| == |paths[j]| && k <= j)
  }

  ghost predicate IsChain(chain: Chain) {
    forall t :: chain.valid.Contains(t) <==> ALWAYS.Contains(t) && AllHold(chain.hops, t)
  }

  // The first of the shortest coexisting paths, if there is any.
  ghost predicate FirstShortest(paths: seq<seq<Edge>>, best: Option<Chain>) {
    && (best.None? <==> forall k :: 0 <= k < |paths| ==> !Coexists(paths[k]))
    && (best.Some? ==> IsChain(best.value) && exists k :: ShortestAt(paths, k, best.value.hops))
  }

  // The shortest coexisting path among those offered, the first of them on a tie. A target no query
  // may name is an error.
  method ProofPath(sources: seq<Urn>, target: Urn, accepts: Urn -> bool, paths: Paths) returns (ok: bool, best: Option<Chain>)
    ensures ok <==> accepts(target)
    ensures ok ==> FirstShortest(Answers(Named(accepts, sources), paths), best)
  {
    best := None;
    if !accepts(target) {
      return false, None;
    }
    var left := Named(accepts, sources);
    ghost var valid, seen: seq<seq<Edge>> := left, [];
    while left != []
      invariant Answers(valid, paths) == seen + Answers(left, paths)
      invariant FirstShortest(seen, best)
      decreases |left|
    {
      var answer := paths(FirstChunk(left));
      best := ShortestOf(answer, best, seen);
      Regrouped(seen, answer, Answers(left[|FirstChunk(left)|..], paths));
      seen, left := seen + answer, left[|FirstChunk(left)|..];
    }
    assert seen + Answers([], paths) == seen;
    return true, best;
  }

  lemma Regrouped<T>(a: seq<T>, b: seq<T>, c: seq<T>)
    ensures a + (b + c) == a + b + c
  {
  }

  method ShortestOf(answer: seq<seq<Edge>>, best0: Option<Chain>, ghost seen: seq<seq<Edge>>) returns (best: Option<Chain>)
    requires FirstShortest(seen, best0)
    ensures FirstShortest(seen + answer, best)
  {
    best := best0;
    ghost var all := seen;
    for k := 0 to |answer|
      invariant all == seen + answer[..k] && FirstShortest(all, best)
    {
      var chain := CoexistenceChain(answer[k]);
      OneMorePath(all, answer[k], best, chain);
      all := all + [answer[k]];
      if chain.None? {
        continue;
      }
      if best.None? || |chain.value.hops| < |best.value.hops| {
        best := chain;
      }
    }
    assert answer[..|answer|] == answer;
  }

  lemma OneMorePath(paths: seq<seq<Edge>>, path: seq<Edge>, best: Option<Chain>, chain: Option<Chain>)
    requires FirstShortest(paths, best)
    requires chain.Some? <==> Coexists(path)
    requires chain.Some? ==> chain.value.hops == path && IsChain(chain.value)
    ensures FirstShortest(paths + [path],
              if chain.Some? && (best.None? || |path| < |best.value.hops|) then chain else best)
  {
    var more, n := paths + [path], |paths|;
    if best.Some? {
      var k :| ShortestAt(paths, k, best.value.hops);
      assert more[k] == paths[k];
      if chain.Some? && |path| < |best.value.hops| {
        assert ShortestAt(more, n, path);
      } else {
        assert ShortestAt(more, k, best.value.hops);
      }
    } else {
      forall k | 0 <= k < n ensures !Coexists(more[k]) {
        assert more[k] == paths[k];
      }
      if chain.Some? {
        assert ShortestAt(more, n, path);
      } else {
        assert !Coexists(more[n]);
      }
    }
  }

  ghost predicate Connected(q: Search, path: seq<Edge>, a: Urn, b: Urn) {
    if path == [] then a == b
    else
      var last := path[|path| - 1];
      last in q.edges && last.to !in q.blocked && last.to == b && Connected(q, path[..|path| - 1], a, last.from)
  }

  lemma {:induction false} ChainIsWalk(q: Search, path: seq<Edge>, a: Urn, b: Urn, t: int)
    ensures IsWalk(q, path, a, b, t) <==> Connected(q, path, a, b) && AllHold(path, t)
  {
    if path != [] {
      var n := |path| - 1;
      ChainIsWalk(q, path[..n], a, path[n].from, t);
      HoldOneMore(path, n, t);
      assert path[..n + 1] == path;
    }
  }

  // A chain is evidence: at every instant of its span at which its first node is a source, the target
  // is reached within the chain's length.
  lemma ChainProvesReach(q: Search, chain: Chain, a: Urn, target: Urn, t: int)
    requires Connected(q, chain.hops, a, target) && IsChain(chain)
    requires ALWAYS.Contains(t) && Starts(q, a, t)
    ensures chain.valid.Contains(t) <==> IsWalk(q, chain.hops, a, target, t)
    ensures chain.valid.Contains(t) ==> ReachedWithin(q, target, t, |chain.hops|)
  {
    ChainIsWalk(q, chain.hops, a, target, t);
    if chain.valid.Contains(t) {
      WalkIsReached(q, a, chain.hops, target, t, |chain.hops|);
    }
  }

  // So a search as deep as the chain is long holds the target then.
  lemma ChainIsHeld(q: Search, reached: Reached, maxDepth: nat, chain: Chain, a: Urn, target: Urn, t: int)
    requires IsLayer(q, reached, maxDepth) && |chain.hops| <= maxDepth
    requires Connected(q, chain.hops, a, target) && IsChain(chain)
    requires chain.valid.Contains(t) && Starts(q, a, t)
    ensures Held(reached, target, t)
  {
    ChainProvesReach(q, chain, a, target, t);
    Deeper(q, target, t, |chain.hops|, maxDepth);
  }

  lemma {:induction false} FirstHopLeaves(q: Search, path: seq<Edge>, a: Urn, b: Urn)
    requires Connected(q, path, a, b) && path != []
    ensures path[0].from == a && path[0] in q.edges
  {
    if |path| > 1 {
      FirstHopLeaves(q, path[..|path| - 1], a, path[|path| - 1].from);
    }
  }

  // What an audit's search is asked over: edges no older than their ends, and a source throughout its
  // existence.
  ghost predicate Asked(q: Search, published: map<Urn, int>, a: Urn) {
    q.blocked == {} && D.Timely(q.edges, published) && forall u :: D.Exists(published, a, u) ==> Holds(q.sources, a, u)
  }

  // There an instant of a chain's span is one at which the search holds the target exactly when the
  // window asked about has it: the chain was found without regard to the window.
  lemma ChainHeldIffInWindow(q: Search, published: map<Urn, int>, reached: Reached, maxDepth: nat, chain: Chain, a: Urn,
      target: Urn, t: int)
    requires Asked(q, published, a) && IsLayer(q, reached, maxDepth)
    requires Connected(q, chain.hops, a, target) && IsChain(chain) && 0 < |chain.hops| <= maxDepth
    requires chain.valid.Contains(t)
    ensures Held(reached, target, t) <==> q.within.Contains(t)
  {
    FirstHopLeaves(q, chain.hops, a, target);
    assert chain.hops[0].valid.Contains(t);
    assert D.Exists(published, a, t);
    if q.within.Contains(t) {
      ChainIsHeld(q, reached, maxDepth, chain, a, target, t);
    }
    if !q.within.Contains(t) {
      OutsideNothingIsReached(q, target, t, maxDepth);
    }
  }

  predicate Inside(i: Interval, window: Interval) {
    window.from <= i.from && i.to <= window.to
  }

  // So a chain's span may stand for instants the search found if and only if it lies inside the window.
  lemma SpanIsHeldIffInside(q: Search, published: map<Urn, int>, reached: Reached, maxDepth: nat, chain: Chain, a: Urn, target: Urn)
    requires Asked(q, published, a) && IsLayer(q, reached, maxDepth)
    requires Connected(q, chain.hops, a, target) && IsChain(chain) && 0 < |chain.hops| <= maxDepth && !chain.valid.Empty()
    ensures (forall t :: chain.valid.Contains(t) ==> Held(reached, target, t)) <==> Inside(chain.valid, q.within)
  {
    forall t | chain.valid.Contains(t) ensures Held(reached, target, t) <==> q.within.Contains(t) {
      ChainHeldIffInWindow(q, published, reached, maxDepth, chain, a, target, t);
    }
    assert chain.valid.Contains(chain.valid.from) && chain.valid.Contains(chain.valid.to - 1);
  }

  // Two ways from a to b, the longer open only later.
  const SOON := Interval(10, 20)
  const LATE := Interval(100, 200)

  function Short(a: Urn, b: Urn): seq<Edge> {
    [Edge(a, b, SOON)]
  }

  function Long(a: Urn, b: Urn, c: Urn): seq<Edge> {
    [Edge(a, c, LATE), Edge(c, b, LATE)]
  }

  ghost function AskedLate(a: Urn, b: Urn, c: Urn): Search {
    Search({Edge(a, b, SOON), Edge(a, c, LATE), Edge(c, b, LATE)}, [Entry(a, Existed(5))], Interval(150, 151), {})
  }

  // Asked about one instant, the shortest chain can be from another time altogether: the target is
  // held at that instant, and at none of the chain's.
  lemma ShortestChainMissesWindow(a: Urn, b: Urn, c: Urn, d: nat)
    requires a != b && a != c && b != c && d >= 2
    ensures var q, chain := AskedLate(a, b, c), Chain(Short(a, b), SOON);
      && Asked(q, map[a := 5, b := 5, c := 5], a) && Connected(q, Short(a, b), a, b) && Connected(q, Long(a, b, c), a, b)
      && FirstShortest([Short(a, b), Long(a, b, c)], Some(chain))
      && ReachedWithin(q, b, 150, d)
      && forall t :: chain.valid.Contains(t) ==> !ReachedWithin(q, b, t, d)
  {
    ShortIsFirst(a, b, c);
    WayIsConnected(AskedLate(a, b, c), a, b, c);
    LateIsAsked(a, b, c);
    LateIsReached(a, b, c, d);
    forall t | SOON.Contains(t) ensures !ReachedWithin(AskedLate(a, b, c), b, t, d) {
      OutsideNothingIsReached(AskedLate(a, b, c), b, t, d);
    }
  }

  lemma LateIsAsked(a: Urn, b: Urn, c: Urn)
    ensures Asked(AskedLate(a, b, c), map[a := 5, b := 5, c := 5], a)
  {
    var q := AskedLate(a, b, c);
    assert q.sources[0].urn == a && q.sources[0].valid == Existed(5);
  }

  lemma LateIsReached(a: Urn, b: Urn, c: Urn, d: nat)
    requires d >= 2
    ensures ReachedWithin(AskedLate(a, b, c), b, 150, d)
  {
    var q := AskedLate(a, b, c);
    assert q.sources[0].urn == a && q.sources[0].valid.Contains(150) && Starts(q, a, 150);
    StepReaches(q, Edge(a, c, LATE), 150, 0);
    StepReaches(q, Edge(c, b, LATE), 150, 1);
    Deeper(q, b, 150, 2, d);
  }

  lemma OutsideNothingIsReached(q: Search, n: Urn, t: int, d: nat)
    requires !q.within.Contains(t)
    ensures !ReachedWithin(q, n, t, d)
  {
    if ReachedWithin(q, n, t, d) {
      var s, path := WalkOf(q, n, t, d);
    }
  }

  lemma WayIsConnected(q: Search, a: Urn, b: Urn, c: Urn)
    requires q.blocked == {} && q.edges == {Edge(a, b, SOON), Edge(a, c, LATE), Edge(c, b, LATE)}
    ensures Connected(q, Short(a, b), a, b) && Connected(q, Long(a, b, c), a, b)
  {
    var long := Long(a, b, c);
    assert Short(a, b)[..0] == [];
    assert long[..1] == [Edge(a, c, LATE)] && long[..1][..0] == [];
    assert Connected(q, long[..1], a, c);
  }

  lemma ShortIsFirst(a: Urn, b: Urn, c: Urn)
    ensures FirstShortest([Short(a, b), Long(a, b, c)], Some(Chain(Short(a, b), SOON)))
  {
    var ways := [Short(a, b), Long(a, b, c)];
    assert Short(a, b)[0].valid == SOON;
    assert AllHold(Short(a, b), 10) && Coexists(Short(a, b)) && Coexists(ways[0]);
    assert |Short(a, b)| < |Long(a, b, c)|;
    assert ShortestAt(ways, 0, Short(a, b));
    forall t ensures SOON.Contains(t) <==> ALWAYS.Contains(t) && AllHold(Short(a, b), t) {
    }
  }

  // Every path the procedure returns leads from one of the sources asked about to the target.
  ghost predicate Honest(q: Search, paths: Paths, target: Urn, maxLen: nat) {
    forall chunk, path :: path in paths(chunk) ==> |path| <= maxLen && FromOne(q, chunk, path, target)
  }

  ghost predicate FromOne(q: Search, sources: seq<Urn>, path: seq<Edge>, target: Urn) {
    exists a :: a in sources && Connected(q, path, a, target)
  }

  lemma {:induction false} AnswersAreHonest(q: Search, paths: Paths, target: Urn, maxLen: nat, sources: seq<Urn>, path: seq<Edge>)
    requires Honest(q, paths, target, maxLen) && path in Answers(sources, paths)
    ensures |path| <= maxLen && FromOne(q, sources, path, target)
    decreases |sources|
  {
    var n := |FirstChunk(sources)|;
    if path in paths(FirstChunk(sources)) {
      assert FromOne(q, FirstChunk(sources), path, target);
      var a :| a in FirstChunk(sources) && Connected(q, path, a, target);
      assert a in sources;
    } else {
      AnswersAreHonest(q, paths, target, maxLen, sources[n..], path);
      var a :| a in sources[n..] && Connected(q, path, a, target);
      assert a in sources;
    }
  }

  // What a chain is evidence of: the target where its first node is a source, and, over what an audit
  // asks, the target at just those of its instants that the window has.
  ghost predicate IsEvidence(q: Search, published: map<Urn, int>, reached: Reached, chain: Chain, a: Urn, target: Urn) {
    && (forall t :: chain.valid.Contains(t) && Starts(q, a, t) ==> Held(reached, target, t))
    && (Asked(q, published, a) ==> forall t :: chain.valid.Contains(t) ==> (Held(reached, target, t) <==> q.within.Contains(t)))
  }

  // Put together: over an honest procedure the chain starts at one of the sources and is evidence.
  lemma ProofPathIsEvidence(q: Search, published: map<Urn, int>, reached: Reached, maxDepth: nat, sources: seq<Urn>, target: Urn,
      accepts: Urn -> bool, paths: Paths, maxLen: nat, chain: Chain)
    requires Honest(q, paths, target, maxLen) && maxLen <= maxDepth && IsLayer(q, reached, maxDepth)
    requires FirstShortest(Answers(Named(accepts, sources), paths), Some(chain))
    ensures exists a :: a in sources && Connected(q, chain.hops, a, target) && IsEvidence(q, published, reached, chain, a, target)
  {
    var all := Answers(Named(accepts, sources), paths);
    var k :| ShortestAt(all, k, chain.hops);
    AnswersAreHonest(q, paths, target, maxLen, Named(accepts, sources), all[k]);
    var a :| a in Named(accepts, sources) && Connected(q, chain.hops, a, target);
    forall t | chain.valid.Contains(t) && Starts(q, a, t) ensures Held(reached, target, t) {
      ChainIsHeld(q, reached, maxDepth, chain, a, target, t);
    }
    forall t | Asked(q, published, a) && chain.valid.Contains(t) ensures Held(reached, target, t) <==> q.within.Contains(t) {
      ChainHeldIffInWindow(q, published, reached, maxDepth, chain, a, target, t);
    }
    assert IsEvidence(q, published, reached, chain, a, target);
  }
}
