// What the interval search must agree with: at one instant, the edges valid then form an ordinary
// directed graph, and reachability in it is ordinary depth-bounded reachability.
module Snapshot {
  import opened Intervals

  type Urn = string

  datatype Edge = Edge(from: Urn, to: Urn, valid: Interval)

  // Edges grouped by the node they leave.
  type Table = map<Urn, seq<Edge>>

  function OutOf(table: Table, n: Urn): seq<Edge> {
    if n in table then table[n] else []
  }

  ghost predicate WellKeyed(table: Table) {
    forall n, e :: n in table && e in table[n] ==> e.from == n
  }

  ghost function EdgesOf(table: Table): set<Edge> {
    set n, e | n in table && e in table[n] :: e
  }

  // A node with a span: a source, or one arrival of the search.
  datatype Entry = Entry(urn: Urn, valid: Interval)

  datatype Search = Search(edges: set<Edge>, sources: seq<Entry>, within: Interval, blocked: set<Urn>)

  ghost predicate Holds(f: seq<Entry>, n: Urn, t: int) {
    exists k :: 0 <= k < |f| && f[k].urn == n && f[k].valid.Contains(t)
  }

  ghost predicate Starts(q: Search, n: Urn, t: int) {
    n !in q.blocked && q.within.Contains(t) && Holds(q.sources, n, t)
  }

  // An edge that can be followed at instant t.
  ghost predicate Live(q: Search, e: Edge, t: int) {
    e in q.edges && e.to !in q.blocked && e.valid.Contains(t)
  }

  ghost predicate IsWalk(q: Search, path: seq<Edge>, a: Urn, b: Urn, t: int) {
    if path == [] then a == b
    else
      var last := path[|path| - 1];
      Live(q, last, t) && last.to == b && IsWalk(q, path[..|path| - 1], a, last.from, t)
  }

  // An unblocked walk of at most d edges from some source, every edge of it valid at t.
  ghost predicate ReachableBy(q: Search, n: Urn, t: int, d: nat) {
    exists a, path :: Starts(q, a, t) && |path| <= d && IsWalk(q, path, a, n, t)
  }

  // The same, layer by layer.
  ghost predicate ReachedWithin(q: Search, n: Urn, t: int, d: nat)
    decreases d, 0
  {
    if d == 0 then Starts(q, n, t)
    else ReachedWithin(q, n, t, d - 1) || Extends(q, n, t, d - 1)
  }

  ghost predicate Extends(q: Search, n: Urn, t: int, d: nat)
    decreases d, 1
  {
    exists e :: Live(q, e, t) && e.to == n && ReachedWithin(q, e.from, t, d)
  }

  // First reached at depth d.
  ghost predicate FirstReached(q: Search, n: Urn, t: int, d: nat) {
    ReachedWithin(q, n, t, d) && (d > 0 ==> !ReachedWithin(q, n, t, d - 1))
  }

  lemma {:induction false} LayersAreWalks(q: Search, n: Urn, t: int, d: nat)
    ensures ReachedWithin(q, n, t, d) <==> ReachableBy(q, n, t, d)
  {
    if ReachedWithin(q, n, t, d) {
      var a, path := WalkOf(q, n, t, d);
    }
    if ReachableBy(q, n, t, d) {
      var a, path :| Starts(q, a, t) && |path| <= d && IsWalk(q, path, a, n, t);
      WalkIsReached(q, a, path, n, t, d);
    }
  }

  lemma {:induction false} WalkOf(q: Search, n: Urn, t: int, d: nat) returns (a: Urn, path: seq<Edge>)
    requires ReachedWithin(q, n, t, d)
    ensures Starts(q, a, t) && |path| <= d && IsWalk(q, path, a, n, t)
    decreases d
  {
    if d == 0 {
      a, path := n, [];
    } else if ReachedWithin(q, n, t, d - 1) {
      a, path := WalkOf(q, n, t, d - 1);
    } else {
      var e :| Live(q, e, t) && e.to == n && ReachedWithin(q, e.from, t, d - 1);
      var head;
      a, head := WalkOf(q, e.from, t, d - 1);
      path := head + [e];
      assert path[..|path| - 1] == head;
    }
  }

  lemma {:induction false} WalkIsReached(q: Search, a: Urn, path: seq<Edge>, n: Urn, t: int, d: nat)
    requires Starts(q, a, t) && |path| <= d && IsWalk(q, path, a, n, t)
    ensures ReachedWithin(q, n, t, d)
    decreases d
  {
    if |path| < d {
      WalkIsReached(q, a, path, n, t, d - 1);
    } else if d > 0 {
      var last := path[d - 1];
      WalkIsReached(q, a, path[..d - 1], last.from, t, d - 1);
      assert Extends(q, n, t, d - 1);
    }
  }

  lemma {:induction false} Deeper(q: Search, n: Urn, t: int, d: nat, d': nat)
    requires d <= d' && ReachedWithin(q, n, t, d)
    ensures ReachedWithin(q, n, t, d')
    decreases d'
  {
    if d < d' {
      Deeper(q, n, t, d, d' - 1);
    }
  }

  // Once a layer adds nothing at an instant, no later one does.
  lemma {:induction false} Saturated(q: Search, t: int, d: nat, d': nat)
    requires d <= d' && forall n :: !FirstReached(q, n, t, d)
    ensures forall n :: ReachedWithin(q, n, t, d') <==> ReachedWithin(q, n, t, d)
    ensures forall n :: !FirstReached(q, n, t, d')
    decreases d'
  {
    if d < d' {
      Saturated(q, t, d, d' - 1);
      forall n ensures ReachedWithin(q, n, t, d') ==> ReachedWithin(q, n, t, d' - 1) {
        if Extends(q, n, t, d' - 1) {
          var e :| Live(q, e, t) && e.to == n && ReachedWithin(q, e.from, t, d' - 1);
          assert !FirstReached(q, e.from, t, d' - 1);
          if d' > 1 {
            StepReaches(q, e, t, d' - 2);
          }
        }
      }
    }
  }

  lemma StepReaches(q: Search, e: Edge, t: int, d: nat)
    requires Live(q, e, t) && ReachedWithin(q, e.from, t, d)
    ensures ReachedWithin(q, e.to, t, d + 1)
  {
    assert Extends(q, e.to, t, d);
  }
}
