// Where propagation stops, and what that says (RunEpoch in internal/sketch/sketch.go).
module Convergence {
  import opened Reachers
  import opened Sketch
  import opened Propagation

  // What one epoch comes to: each node the sketch of what reaches it within the rounds it took.
  ghost predicate IsEpoch<S(!new)>(kind: Kind<S>, all: set<NodeId>, edges: seq<Edge>, out: map<NodeId, S>) {
    exists rounds: nat :: Stopped(kind, all, LayersOf(all, edges), rounds) && Holds(kind, all, edges, out, rounds)
  }

  ghost predicate Holds<S(!new)>(kind: Kind<S>, all: set<NodeId>, edges: seq<Edge>, out: map<NodeId, S>, k: nat) {
    out.Keys == all && forall n :: n in out ==> out[n] == SketchOf(kind, Within(all, edges, n, k))
  }

  // Two runs over the same nodes and the same edges, in whatever order and however often each is listed
  // and with whatever workers, leave the same sketches.
  lemma EpochIsUnique<S(!new)>(kind: Kind<S>, nodes: seq<NodeId>, edges: seq<Edge>, nodes': seq<NodeId>, edges': seq<Edge>,
      out: map<NodeId, S>, again: map<NodeId, S>)
    requires (forall n :: n in nodes <==> n in nodes') && (forall e :: e in edges <==> e in edges')
    requires IsEpoch(kind, AllNodes(nodes, edges), edges, out) && IsEpoch(kind, AllNodes(nodes', edges'), edges', again)
    ensures out == again
  {
    SameNodes(nodes, edges, nodes', edges');
    OneEpoch(kind, AllNodes(nodes, edges), AllNodes(nodes', edges'), edges, edges', out, again);
  }

  lemma SameNodes(nodes: seq<NodeId>, edges: seq<Edge>, nodes': seq<NodeId>, edges': seq<Edge>)
    requires (forall n :: n in nodes <==> n in nodes') && (forall e :: e in edges <==> e in edges')
    ensures AllNodes(nodes, edges) == AllNodes(nodes', edges')
  {
  }

  lemma OneEpoch<S(!new)>(kind: Kind<S>, all: set<NodeId>, all': set<NodeId>, a: seq<Edge>, b: seq<Edge>, out: map<NodeId, S>,
      again: map<NodeId, S>)
    requires all == all' && forall e :: e in a <==> e in b
    requires IsEpoch(kind, all, a, out) && IsEpoch(kind, all', b, again)
    ensures out == again
  {
    var k: nat :| Stopped(kind, all, LayersOf(all, a), k) && Holds(kind, all, a, out, k);
    var l: nat :| Stopped(kind, all, LayersOf(all, b), l) && Holds(kind, all, b, again, l);
    SameLayers(all, a, b);
    SameStop(kind, all, LayersOf(all, a), LayersOf(all, b), k, l);
    SameHolds(kind, all, a, b, out, again, k);
  }

  lemma SameHolds<S(!new)>(kind: Kind<S>, all: set<NodeId>, a: seq<Edge>, b: seq<Edge>, out: map<NodeId, S>,
      again: map<NodeId, S>, k: nat)
    requires forall e :: e in a <==> e in b
    requires Holds(kind, all, a, out, k) && Holds(kind, all, b, again, k)
    ensures out == again
  {
    forall n | n in out ensures out[n] == again[n] {
      SameLayer(all, a, b, n, k);
    }
  }

  lemma SameLayer(all: set<NodeId>, a: seq<Edge>, b: seq<Edge>, n: NodeId, k: nat)
    requires forall e :: e in a <==> e in b
    ensures Within(all, a, n, k) == Within(all, b, n, k)
  {
    forall m ensures m in Within(all, a, n, k) <==> m in Within(all, b, n, k) {
      SameEdgesReach(a, b, m, n, k);
      SameEdgesReach(b, a, m, n, k);
    }
  }

  ghost predicate Alike(f: NodeId -> set<NodeId>, g: NodeId -> set<NodeId>) {
    forall n :: f(n) == g(n)
  }

  lemma SameLayers(all: set<NodeId>, a: seq<Edge>, b: seq<Edge>)
    requires forall e :: e in a <==> e in b
    ensures forall j: nat :: Alike(LayersOf(all, a)(j), LayersOf(all, b)(j))
  {
    forall j: nat, n ensures LayersOf(all, a)(j)(n) == LayersOf(all, b)(j)(n) {
      SameLayer(all, a, b, n, j);
    }
  }

  lemma SameStop<S(!new)>(kind: Kind<S>, all: set<NodeId>, f: Layers, g: Layers, k: nat, l: nat)
    requires forall j: nat :: Alike(f(j), g(j))
    requires Stopped(kind, all, f, k) && Stopped(kind, all, g, l)
    ensures k == l
  {
    var beforeK, beforeL := k - 1, l - 1;
    MovedAlike(kind, all, f, g, beforeK);
    MovedAlike(kind, all, f, g, beforeL);
    assert !Moved(kind, all, f, beforeK) && !Moved(kind, all, g, beforeL);
  }

  lemma MovedAlike<S(!new)>(kind: Kind<S>, all: set<NodeId>, f: Layers, g: Layers, j: nat)
    requires forall j: nat :: Alike(f(j), g(j))
    ensures Moved(kind, all, f, j) == Moved(kind, all, g, j)
  {
    assert Alike(f(j), g(j)) && Alike(f(j + 1), g(j + 1));
    MoveAlike(kind, all, f(j + 1), f(j), g(j + 1), g(j));
  }

  lemma MoveAlike<S(!new)>(kind: Kind<S>, all: set<NodeId>, f: NodeId -> set<NodeId>, f0: NodeId -> set<NodeId>,
      g: NodeId -> set<NodeId>, g0: NodeId -> set<NodeId>)
    requires Alike(f, g) && Alike(f0, g0)
    ensures CountsAgree(kind, all, f, f0) == CountsAgree(kind, all, g, g0)
  {
  }

  // ---- when the stop is at the closure

  ghost predicate SameSketches<S(!new)>(kind: Kind<S>, all: set<NodeId>, f: NodeId -> set<NodeId>, g: NodeId -> set<NodeId>) {
    forall n :: n in all ==> SketchOf(kind, f(n)) == SketchOf(kind, g(n))
  }

  // What edges bring is sketched from the sketches at their sources alone.
  lemma {:induction false} SameInto<S(!new)>(kind: Kind<S>, all: set<NodeId>, edges: seq<Edge>, f: NodeId -> set<NodeId>,
      g: NodeId -> set<NodeId>, n: NodeId)
    requires Semilattice(kind) && Closed(all, edges) && SameSketches(kind, all, f, g)
    ensures SketchOf(kind, Into(f, edges, n)) == SketchOf(kind, Into(g, edges, n))
  {
    if edges == [] {
      assert Into(f, edges, n) == {} == Into(g, edges, n);
    } else {
      var rest, e := edges[..|edges| - 1], edges[|edges| - 1];
      assert edges == rest + [e] && e in edges;
      SameInto(kind, all, rest, f, g, n);
      IntoOneMore(f, rest, e, n);
      IntoOneMore(g, rest, e, n);
      SketchOfUnion(kind, Into(f, rest, n), f(e.from));
      SketchOfUnion(kind, Into(g, rest, n), g(e.from));
    }
  }

  ghost function Sketched<S(!new)>(kind: Kind<S>, all: set<NodeId>, f: NodeId -> set<NodeId>): map<NodeId, S> {
    map n | n in all :: SketchOf(kind, f(n))
  }

  lemma SameSketched<S(!new)>(kind: Kind<S>, all: set<NodeId>, f: NodeId -> set<NodeId>, g: NodeId -> set<NodeId>)
    ensures SameSketches(kind, all, f, g) <==> Sketched(kind, all, f) == Sketched(kind, all, g)
  {
    if Sketched(kind, all, f) == Sketched(kind, all, g) {
      forall n | n in all ensures SketchOf(kind, f(n)) == SketchOf(kind, g(n)) {
        assert Sketched(kind, all, f)[n] == Sketched(kind, all, g)[n];
      }
    }
  }

  // What stood still once stands still at the next step.
  ghost predicate StandsOn<T(!new)>(s: nat -> T, j: nat) {
    s(j + 1) == s(j) ==> s(j + 2) == s(j + 1)
  }

  lemma {:induction false} StandsFrom<T(!new)>(s: nat -> T, k: nat, l: nat)
    requires forall j: nat :: StandsOn(s, j)
    requires s(k + 1) == s(k) && k <= l
    ensures s(l) == s(k) && s(l + 1) == s(l)
    decreases l
  {
    if k < l {
      StandsFrom(s, k, l - 1);
      assert StandsOn(s, l - 1);
    }
  }

  // A round that changes no sketch is followed by none that does.
  lemma NothingMoreChanges<S(!new)>(kind: Kind<S>, all: set<NodeId>, edges: seq<Edge>, layers: Layers, k: nat, l: nat)
    requires Semilattice(kind) && Closed(all, edges) && AreLayers(layers, all, edges) && k <= l
    requires SameSketches(kind, all, layers(k + 1), layers(k))
    ensures SameSketches(kind, all, layers(l), layers(k))
  {
    var s: nat -> map<NodeId, S> := (j: nat) => Sketched(kind, all, layers(j));
    forall j: nat ensures StandsOn(s, j) {
      StandOn(kind, all, edges, layers, j);
    }
    SameSketched(kind, all, layers(k + 1), layers(k));
    StandsFrom(s, k, l);
    SameSketched(kind, all, layers(l), layers(k));
  }

  lemma StandOn<S(!new)>(kind: Kind<S>, all: set<NodeId>, edges: seq<Edge>, layers: Layers, j: nat)
    requires Semilattice(kind) && Closed(all, edges) && AreLayers(layers, all, edges)
    ensures Sketched(kind, all, layers(j + 1)) == Sketched(kind, all, layers(j))
        ==> Sketched(kind, all, layers(j + 2)) == Sketched(kind, all, layers(j + 1))
  {
    LayersFollow(all, edges, layers, j);
    LayersFollow(all, edges, layers, j + 1);
    NextAlike(kind, all, edges, layers(j + 2), layers(j + 1), layers(j));
  }

  // Each node has itself and what its edges bring from the round before.
  ghost predicate Follows(all: set<NodeId>, edges: seq<Edge>, next: NodeId -> set<NodeId>, f: NodeId -> set<NodeId>) {
    forall n :: n in all ==> next(n) == {n} + Into(f, edges, n)
  }

  lemma LayersFollow(all: set<NodeId>, edges: seq<Edge>, layers: Layers, j: nat)
    requires AreLayers(layers, all, edges)
    ensures Follows(all, edges, layers(j + 1), layers(j))
  {
    forall n | n in all ensures layers(j + 1)(n) == {n} + Into(layers(j), edges, n) {
      assert Steps(layers, edges, j, n);
    }
  }

  lemma NextAlike<S(!new)>(kind: Kind<S>, all: set<NodeId>, edges: seq<Edge>, next: NodeId -> set<NodeId>,
      f: NodeId -> set<NodeId>, before: NodeId -> set<NodeId>)
    requires Semilattice(kind) && Closed(all, edges)
    requires Follows(all, edges, next, f) && Follows(all, edges, f, before)
    ensures Sketched(kind, all, f) == Sketched(kind, all, before) ==> Sketched(kind, all, next) == Sketched(kind, all, f)
  {
    if Sketched(kind, all, f) == Sketched(kind, all, before) {
      SameSketched(kind, all, f, before);
      forall n | n in all ensures SketchOf(kind, next(n)) == SketchOf(kind, f(n)) {
        NextSketch(kind, all, edges, f, before, n, next(n), f(n));
      }
      SameSketched(kind, all, next, f);
    }
  }

  lemma NextSketch<S(!new)>(kind: Kind<S>, all: set<NodeId>, edges: seq<Edge>, f: NodeId -> set<NodeId>, g: NodeId -> set<NodeId>,
      n: NodeId, ofF: set<NodeId>, ofG: set<NodeId>)
    requires Semilattice(kind) && Closed(all, edges) && SameSketches(kind, all, f, g)
    requires ofF == {n} + Into(f, edges, n) && ofG == {n} + Into(g, edges, n)
    ensures SketchOf(kind, ofF) == SketchOf(kind, ofG)
  {
    SameInto(kind, all, edges, f, g, n);
    SketchOfUnion(kind, {n}, Into(f, edges, n));
    SketchOfUnion(kind, {n}, Into(g, edges, n));
  }

  ghost function ClosureOf(all: set<NodeId>, edges: seq<Edge>): NodeId -> set<NodeId> {
    n => Closure(all, edges, n)
  }

  // After k rounds the sketches are those of everything that reaches each node if and only if one round
  // more would change none of them. Counts that do not move say less.
  lemma ClosureIffNothingChanges<S(!new)>(kind: Kind<S>, all: set<NodeId>, edges: seq<Edge>, k: nat)
    requires Semilattice(kind) && Closed(all, edges)
    ensures SameSketches(kind, all, LayersOf(all, edges)(k), ClosureOf(all, edges))
       <==> SameSketches(kind, all, LayersOf(all, edges)(k + 1), LayersOf(all, edges)(k))
  {
    if SameSketches(kind, all, LayersOf(all, edges)(k + 1), LayersOf(all, edges)(k)) {
      TheseAreLayers(all, edges);
      SettlesAtClosure(kind, all, edges, LayersOf(all, edges), k, k + |all|);
    }
    if SameSketches(kind, all, LayersOf(all, edges)(k), ClosureOf(all, edges)) {
      ClosureSettles(kind, all, edges, k);
    }
  }

  lemma SettlesAtClosure<S(!new)>(kind: Kind<S>, all: set<NodeId>, edges: seq<Edge>, layers: Layers, k: nat, l: nat)
    requires Semilattice(kind) && Closed(all, edges) && AreLayers(layers, all, edges)
    requires SameSketches(kind, all, layers(k + 1), layers(k)) && k <= l && l >= |all|
    requires forall n :: n in all ==> layers(l)(n) == Within(all, edges, n, l)
    ensures SameSketches(kind, all, layers(k), ClosureOf(all, edges))
  {
    NothingMoreChanges(kind, all, edges, layers, k, l);
    AtClosure(kind, all, edges, layers, k, l);
  }

  lemma ClosureSettles<S(!new)>(kind: Kind<S>, all: set<NodeId>, edges: seq<Edge>, k: nat)
    requires Semilattice(kind) && SameSketches(kind, all, LayersOf(all, edges)(k), ClosureOf(all, edges))
    ensures SameSketches(kind, all, LayersOf(all, edges)(k + 1), LayersOf(all, edges)(k))
  {
    forall n | n in all ensures SketchOf(kind, LayersOf(all, edges)(k + 1)(n)) == SketchOf(kind, LayersOf(all, edges)(k)(n)) {
      assert SketchOf(kind, LayersOf(all, edges)(k)(n)) == SketchOf(kind, ClosureOf(all, edges)(n));
      Between(kind, Within(all, edges, n, k), Within(all, edges, n, k + 1), Closure(all, edges, n), all, edges, n, k);
    }
  }

  lemma AtClosure<S(!new)>(kind: Kind<S>, all: set<NodeId>, edges: seq<Edge>, layers: Layers, k: nat, l: nat)
    requires Closed(all, edges) && l >= |all| && forall n :: n in all ==> layers(l)(n) == Within(all, edges, n, l)
    requires SameSketches(kind, all, layers(l), layers(k))
    ensures SameSketches(kind, all, layers(k), ClosureOf(all, edges))
  {
    forall n | n in all ensures SketchOf(kind, layers(k)(n)) == SketchOf(kind, ClosureOf(all, edges)(n)) {
      EventuallyClosure(all, edges, n, l);
      assert SketchOf(kind, layers(l)(n)) == SketchOf(kind, layers(k)(n));
    }
  }

  lemma Between<S(!new)>(kind: Kind<S>, a: set<NodeId>, b: set<NodeId>, c: set<NodeId>, all: set<NodeId>, edges: seq<Edge>,
      n: NodeId, k: nat)
    requires Semilattice(kind) && SketchOf(kind, a) == SketchOf(kind, c)
    requires a == Within(all, edges, n, k) && b == Within(all, edges, n, k + 1) && c == Closure(all, edges, n)
    ensures SketchOf(kind, b) == SketchOf(kind, a)
  {
    WithinMore(all, edges, n, k);
    WithinClosure(all, edges, n, k + 1);
    FewerMembersSketchBelow(kind, a, b);
    FewerMembersSketchBelow(kind, b, c);
    assert Commutes(kind, SketchOf(kind, a), SketchOf(kind, b));
  }
}
