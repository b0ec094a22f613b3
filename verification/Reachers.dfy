// What propagation must compute: for each node, the nodes that reach it along dependency edges.
module Reachers {
  type NodeId = string

  datatype Edge = Edge(from: NodeId, to: NodeId)

  // m reaches n along at most k edges.
  ghost predicate Reaches(edges: seq<Edge>, m: NodeId, n: NodeId, k: nat)
    decreases k, 0
  {
    m == n || (k > 0 && Arrives(edges, m, n, k - 1))
  }

  ghost predicate Arrives(edges: seq<Edge>, m: NodeId, n: NodeId, k: nat)
    decreases k, 1
  {
    exists e :: e in edges && e.to == n && Reaches(edges, m, e.from, k)
  }

  // The nodes propagation seeds: those named, and every endpoint.
  ghost function AllNodes(nodes: seq<NodeId>, edges: seq<Edge>): set<NodeId> {
    (set n | n in nodes) + (set e | e in edges :: e.from) + (set e | e in edges :: e.to)
  }

  ghost function Within(all: set<NodeId>, edges: seq<Edge>, n: NodeId, k: nat): set<NodeId> {
    set m | m in all && Reaches(edges, m, n, k)
  }

  // Everything that reaches n, however long the way.
  ghost predicate ReachesAtAll(edges: seq<Edge>, m: NodeId, n: NodeId) {
    exists k: nat :: Reaches(edges, m, n, k)
  }

  lemma {:induction false} Longer(edges: seq<Edge>, m: NodeId, n: NodeId, k: nat, l: nat)
    requires k <= l && Reaches(edges, m, n, k)
    ensures Reaches(edges, m, n, l)
    decreases k
  {
    if m != n {
      var e :| e in edges && e.to == n && Reaches(edges, m, e.from, k - 1);
      Longer(edges, m, e.from, k - 1, l - 1);
      assert Arrives(edges, m, n, l - 1);
    }
  }

  // From one node, the nodes met within k edges.
  ghost function Met(all: set<NodeId>, edges: seq<Edge>, m: NodeId, k: nat): set<NodeId> {
    set n | n in all && Reaches(edges, m, n, k)
  }

  ghost predicate Closed(all: set<NodeId>, edges: seq<Edge>) {
    forall e :: e in edges ==> e.from in all && e.to in all
  }

  lemma MetSettles(all: set<NodeId>, edges: seq<Edge>, m: NodeId, k: nat)
    requires Closed(all, edges) && m in all && k > 0 && Met(all, edges, m, k) == Met(all, edges, m, k - 1)
    ensures Met(all, edges, m, k + 1) == Met(all, edges, m, k)
  {
    forall n | n in all && Reaches(edges, m, n, k + 1) ensures Reaches(edges, m, n, k) {
      if m != n {
        assert Arrives(edges, m, n, k);
        var e :| e in edges && e.to == n && Reaches(edges, m, e.from, k);
        assert e.from in Met(all, edges, m, k);
        assert e.from in Met(all, edges, m, k - 1);
        assert Arrives(edges, m, n, k - 1);
      }
    }
    forall n | n in all && Reaches(edges, m, n, k) ensures Reaches(edges, m, n, k + 1) {
      Longer(edges, m, n, k, k + 1);
    }
  }

  // Until nothing new is met, every further edge meets at least one more node.
  lemma {:induction false} MetGrows(all: set<NodeId>, edges: seq<Edge>, m: NodeId, k: nat)
    requires Closed(all, edges) && m in all
    ensures |Met(all, edges, m, k)| > k || (k > 0 && Met(all, edges, m, k) == Met(all, edges, m, k - 1))
  {
    var met := Met(all, edges, m, k);
    if k == 0 {
      assert m in met;
      assert |met| == |met - {m}| + 1;
    } else {
      var before := Met(all, edges, m, k - 1);
      MetGrows(all, edges, m, k - 1);
      forall n | n in before ensures n in met {
        Longer(edges, m, n, k - 1, k);
      }
      if k > 1 && before == Met(all, edges, m, k - 2) {
        MetSettles(all, edges, m, k - 1);
      } else if met != before {
        assert met == before + (met - before);
        assert |met| == |before| + |met - before|;
      }
    }
  }

  lemma SubsetSize<T>(a: set<T>, b: set<T>)
    requires a <= b
    ensures |a| <= |b|
  {
    assert b == a + (b - a);
  }

  // Nothing new is met past one edge fewer than there are nodes.
  lemma {:induction false} SettledBy(all: set<NodeId>, edges: seq<Edge>, m: NodeId, k: nat)
    requires Closed(all, edges) && m in all && k >= |all|
    ensures k > 0 && Met(all, edges, m, k) == Met(all, edges, m, k - 1)
  {
    MetGrows(all, edges, m, k);
    SubsetSize(Met(all, edges, m, k), all);
  }

  lemma {:induction false} SettledStays(all: set<NodeId>, edges: seq<Edge>, m: NodeId, n: NodeId, k: nat, l: nat)
    requires Closed(all, edges) && m in all && n in all && 0 < k <= l && Met(all, edges, m, k) == Met(all, edges, m, k - 1)
    requires Reaches(edges, m, n, l)
    ensures Reaches(edges, m, n, k - 1)
    decreases l - k
  {
    if l == k {
      assert n in Met(all, edges, m, k);
    } else {
      MetSettles(all, edges, m, k);
      SettledStays(all, edges, m, n, k + 1, l);
      assert n in Met(all, edges, m, k);
    }
    assert n in Met(all, edges, m, k - 1);
  }

  // So by round |all| every node has everything that reaches it, and the round adds nothing.
  lemma RoundsSuffice(all: set<NodeId>, edges: seq<Edge>, n: NodeId, k: nat)
    requires Closed(all, edges) && n in all && k >= |all|
    ensures k > 0 && Within(all, edges, n, k) == Within(all, edges, n, k - 1)
  {
    SettledBy(all, edges, n, k);
    forall m | m in all ensures m in Within(all, edges, n, k) <==> m in Within(all, edges, n, k - 1) {
      SettledBy(all, edges, m, k);
      assert n in Met(all, edges, m, k) <==> n in Met(all, edges, m, k - 1);
    }
  }

  // If one round adds nothing anywhere, each node has exactly what reaches it.
  lemma StableIsComplete(all: set<NodeId>, edges: seq<Edge>, k: nat, n: NodeId, m: NodeId)
    requires Closed(all, edges) && n in all && m in all && k > 0
    requires forall x :: x in all ==> Within(all, edges, x, k) == Within(all, edges, x, k - 1)
    ensures m in Within(all, edges, n, k) <==> ReachesAtAll(edges, m, n)
  {
    if ReachesAtAll(edges, m, n) {
      var l: nat :| Reaches(edges, m, n, l);
      Longer(edges, m, n, l, l + k);
      forall x ensures x in Met(all, edges, m, k) <==> x in Met(all, edges, m, k - 1) {
        assert x in all ==> (m in Within(all, edges, x, k) <==> m in Within(all, edges, x, k - 1));
      }
      SettledStays(all, edges, m, n, k, l + k);
      Longer(edges, m, n, k - 1, k);
    }
  }

  ghost function Closure(all: set<NodeId>, edges: seq<Edge>, n: NodeId): set<NodeId> {
    set m | m in all && ReachesAtAll(edges, m, n)
  }

  lemma WithinClosure(all: set<NodeId>, edges: seq<Edge>, n: NodeId, k: nat)
    ensures Within(all, edges, n, k) <= Closure(all, edges, n)
  {
  }

  lemma WithinMore(all: set<NodeId>, edges: seq<Edge>, n: NodeId, k: nat)
    ensures Within(all, edges, n, k) <= Within(all, edges, n, k + 1)
  {
    forall m | m in Within(all, edges, n, k) ensures m in Within(all, edges, n, k + 1) {
      Longer(edges, m, n, k, k + 1);
    }
  }

  lemma EventuallyClosure(all: set<NodeId>, edges: seq<Edge>, n: NodeId, k: nat)
    requires Closed(all, edges) && n in all && k >= |all|
    ensures Within(all, edges, n, k) == Closure(all, edges, n)
  {
    RoundsSuffice(all, edges, n, k);
    forall x | x in all ensures Within(all, edges, x, k) == Within(all, edges, x, k - 1) {
      RoundsSuffice(all, edges, x, k);
    }
    forall m | m in all ensures m in Within(all, edges, n, k) <==> ReachesAtAll(edges, m, n) {
      StableIsComplete(all, edges, k, n, m);
    }
  }

  // Neither the order of the edges nor listing one twice matters.
  lemma {:induction false} SameEdgesReach(a: seq<Edge>, b: seq<Edge>, m: NodeId, n: NodeId, k: nat)
    requires forall e :: e in a <==> e in b
    ensures Reaches(a, m, n, k) ==> Reaches(b, m, n, k)
    decreases k
  {
    if Reaches(a, m, n, k) && m != n {
      assert k > 0 && Arrives(a, m, n, k - 1);
      var e :| e in a && e.to == n && Reaches(a, m, e.from, k - 1);
      SameEdgesReach(a, b, m, e.from, k - 1);
      assert Arrives(b, m, n, k - 1);
    }
  }
}
