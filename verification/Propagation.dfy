// The per-epoch fixpoint (RunEpoch, mergeChunk and splitEdges in internal/sketch/sketch.go).
module Propagation {
  import opened Reachers
  import opened Sketch

  type Sketches<S(!new)> = map<NodeId, Sketch<S>>

  // Each node's object, all of them among `repr`, holds the sketch of the set given for the node, and
  // no two nodes share an object.
  ghost predicate Represents<S(!new)>(kind: Kind<S>, m: Sketches<S>, repr: set<object>, members: NodeId -> set<NodeId>)
    reads repr
  {
    && (forall n :: n in m ==> m[n] in repr && m[n].kind == kind && m[n].value == SketchOf(kind, members(n)))
    && (forall a, b :: a in m && b in m && a != b ==> m[a] != m[b])
  }

  // What one slice of the edges brings to a node.
  ghost function Into(members: NodeId -> set<NodeId>, chunk: seq<Edge>, n: NodeId): set<NodeId> {
    set e, m | e in chunk && e.to == n && m in members(e.from) :: m
  }

  ghost function Share(members: NodeId -> set<NodeId>, chunk: seq<Edge>): NodeId -> set<NodeId> {
    n => Into(members, chunk, n)
  }

  lemma IntoAppend(members: NodeId -> set<NodeId>, a: seq<Edge>, b: seq<Edge>, n: NodeId)
    ensures Into(members, a + b, n) == Into(members, a, n) + Into(members, b, n)
  {
    forall m ensures m in Into(members, a + b, n) <==> m in Into(members, a, n) + Into(members, b, n) {
      if m in Into(members, a, n) {
        var e :| e in a && e.to == n && m in members(e.from);
        assert e in a + b;
      }
      if m in Into(members, b, n) {
        var e :| e in b && e.to == n && m in members(e.from);
        assert e in a + b;
      }
    }
  }

  lemma IntoOne(members: NodeId -> set<NodeId>, e: Edge, n: NodeId)
    ensures Into(members, [e], n) == if e.to == n then members(e.from) else {}
  {
    assert e in [e];
  }

  ghost predicate Targets(chunk: seq<Edge>, n: NodeId) {
    exists e :: e in chunk && e.to == n
  }

  ghost function Plus(held: NodeId -> set<NodeId>, n: NodeId, more: set<NodeId>): NodeId -> set<NodeId> {
    x => if x == n then held(n) + more else held(x)
  }

  // Merges one sketch into the object for a node, making the object if there is none yet.
  method MergeInto<S(!new)>(kind: Kind<S>, local0: Sketches<S>, ghost repr0: set<object>, n: NodeId, source: Sketch<S>,
      ghost held: NodeId -> set<NodeId>, ghost more: set<NodeId>) returns (local: Sketches<S>, ghost repr: set<object>)
    requires Semilattice(kind) && Represents(kind, local0, repr0, held) && source !in repr0
    requires source.value == SketchOf(kind, more) && (n !in local0 ==> held(n) == {})
    modifies repr0
    ensures local.Keys == local0.Keys + {n} && repr0 <= repr && fresh(repr - repr0)
    ensures n in local0 ==> local == local0 && repr == repr0
    ensures Represents(kind, local, repr, Plus(held, n, more))
  {
    local, repr := local0, repr0;
    if n !in local {
      var dst := new Sketch(kind);
      local, repr := local[n := dst], repr + {dst};
    }
    SketchOfUnion(kind, held(n), more);
    local[n].Merge(source);
  }

  lemma SameMembersRepresented<S(!new)>(kind: Kind<S>, m: Sketches<S>, repr: set<object>, f: NodeId -> set<NodeId>,
      g: NodeId -> set<NodeId>)
    requires Represents(kind, m, repr, f) && forall n :: n in m ==> f(n) == g(n)
    ensures Represents(kind, m, repr, g)
  {
  }

  lemma IntoOneMore(members: NodeId -> set<NodeId>, chunk: seq<Edge>, e: Edge, n: NodeId)
    ensures Into(members, chunk + [e], n) == if n == e.to then Into(members, chunk, n) + members(e.from) else Into(members, chunk, n)
    ensures Targets(chunk + [e], n) <==> Targets(chunk, n) || n == e.to
    ensures !Targets(chunk, n) ==> Into(members, chunk, n) == {}
  {
    IntoAppend(members, chunk, [e], n);
    IntoOne(members, e, n);
    assert e in chunk + [e];
    if Targets(chunk, n) {
      var x :| x in chunk && x.to == n;
      assert x in chunk + [e];
    }
  }

  // One worker's slice: a fresh sketch per target. Reads `cur`, changes nothing that existed before.
  method MergeChunk<S(!new)>(kind: Kind<S>, cur: Sketches<S>, ghost repr0: set<object>, chunk: seq<Edge>,
      ghost members: NodeId -> set<NodeId>) returns (local: Sketches<S>, ghost repr: set<object>)
    requires Semilattice(kind) && Represents(kind, cur, repr0, members) && forall e :: e in chunk ==> e.from in cur
    ensures fresh(repr) && Represents(kind, local, repr, Share(members, chunk))
    ensures forall n :: n in local <==> Targets(chunk, n)
  {
    local, repr := map[], {};
    ghost var held: NodeId -> set<NodeId> := n => {};
    for k := 0 to |chunk|
      invariant fresh(repr) && Represents(kind, local, repr, held)
      invariant forall n :: held(n) == Into(members, chunk[..k], n) && (n in local <==> Targets(chunk[..k], n))
    {
      var e := chunk[k];
      assert chunk[..k + 1] == chunk[..k] + [e];
      ghost var before := held;
      held := Plus(before, e.to, members(e.from));
      forall n
        ensures held(n) == Into(members, chunk[..k + 1], n)
        ensures Targets(chunk[..k + 1], n) <==> Targets(chunk[..k], n) || n == e.to
        ensures !Targets(chunk[..k], n) ==> before(n) == {}
      {
        IntoOneMore(members, chunk[..k], e, n);
      }
      local, repr := MergeInto(kind, local, repr, e.to, cur[e.from], before, members(e.from));
    }
    assert chunk[..|chunk|] == chunk;
    SameMembersRepresented(kind, local, repr, held, Share(members, chunk));
  }

  function Flatten<T>(chunks: seq<seq<T>>): seq<T> {
    if chunks == [] then [] else Flatten(chunks[..|chunks| - 1]) + chunks[|chunks| - 1]
  }

  // Contiguous slices of at most one size, at most one per worker.
  method SplitEdges(edges: seq<Edge>, workers: nat) returns (chunks: seq<seq<Edge>>)
    ensures Flatten(chunks) == edges
    ensures 0 < |chunks| && (workers > 0 ==> |chunks| <= workers)
  {
    var n := if workers > |edges| then |edges| else workers;
    if n <= 1 {
      assert [edges][..0] == [];
      return [edges];
    }
    var size := (|edges| + n - 1) / n;
    chunks := Slices(edges, size);
    FewSlices(|edges|, n, size, |chunks|);
  }

  method Slices(edges: seq<Edge>, size: nat) returns (chunks: seq<seq<Edge>>)
    requires size > 0 && |edges| > 0
    ensures Flatten(chunks) == edges
    ensures |chunks| > 0 && (|chunks| - 1) * size < |edges|
    ensures forall i :: 0 <= i < |chunks| - 1 ==> |chunks[i]| == size
    ensures 0 < |chunks[|chunks| - 1]| <= size
  {
    chunks := [];
    var start := 0;
    while start < |edges|
      invariant start <= |edges| && Flatten(chunks) == edges[..start]
      invariant start < |edges| ==> start == |chunks| * size
      invariant start == |edges| ==> |chunks| > 0 && (|chunks| - 1) * size < |edges|
      invariant forall i :: 0 <= i < |chunks| - (if start < |edges| then 0 else 1) ==> |chunks[i]| == size
      invariant start == |edges| ==> 0 < |chunks[|chunks| - 1]| <= size
    {
      var end := if start + size > |edges| then |edges| else start + size;
      assert (|chunks| + 1) * size == |chunks| * size + size;
      FlattenAppend(chunks, edges[start..end]);
      assert edges[..end] == edges[..start] + edges[start..end];
      chunks := chunks + [edges[start..end]];
      start := end;
    }
    assert edges[..start] == edges;
  }

  lemma FlattenAppend<T>(chunks: seq<seq<T>>, chunk: seq<T>)
    ensures Flatten(chunks + [chunk]) == Flatten(chunks) + chunk
  {
    assert (chunks + [chunk])[..|chunks|] == chunks;
  }

  lemma AtLeast(a: nat, b: nat, size: nat)
    requires a <= b
    ensures a * size <= b * size
  {
    assert b * size == a * size + (b - a) * size;
  }

  lemma RoundedUp(len: nat, n: nat)
    requires n > 0
    ensures (len + n - 1) / n * n >= len
  {
    var up := len + n - 1;
    assert up == up / n * n + up % n && up % n <= n - 1;
  }

  lemma FewSlices(len: nat, n: nat, size: nat, slices: nat)
    requires n > 0 && slices > 0 && size == (len + n - 1) / n && (slices - 1) * size < len
    ensures slices <= n
  {
    RoundedUp(len, n);
    if slices > n {
      AtLeast(n, slices - 1, size);
    }
  }

  ghost function Itself(): NodeId -> set<NodeId> {
    n => {n}
  }

  // Each node with a new sketch of itself alone.
  method Seed<S(!new)>(kind: Kind<S>, all: set<NodeId>) returns (cur: Sketches<S>, ghost repr: set<object>)
    requires Semilattice(kind)
    ensures fresh(repr) && cur.Keys == all && Represents(kind, cur, repr, Itself())
  {
    cur, repr := map[], {};
    var left := all;
    while left != {}
      invariant left <= all && cur.Keys == all - left && fresh(repr) && Represents(kind, cur, repr, Itself())
    {
      var n :| n in left;
      left := left - {n};
      var sk := SeedOne(kind, n);
      cur, repr := cur[n := sk], repr + {sk};
    }
  }

  // Makes a node's object unless it has one.
  method SeedIfAbsent<S(!new)>(kind: Kind<S>, cur0: Sketches<S>, ghost repr0: set<object>, n: NodeId)
      returns (cur: Sketches<S>, ghost repr: set<object>)
    requires Semilattice(kind) && Represents(kind, cur0, repr0, Itself())
    ensures cur.Keys == cur0.Keys + {n} && repr0 <= repr && fresh(repr - repr0) && Represents(kind, cur, repr, Itself())
  {
    cur, repr := cur0, repr0;
    if n in cur {
      return;
    }
    var sk := SeedOne(kind, n);
    cur, repr := cur[n := sk], repr + {sk};
  }

  method SeedEnds<S(!new)>(kind: Kind<S>, cur0: Sketches<S>, ghost repr0: set<object>, e: Edge)
      returns (cur: Sketches<S>, ghost repr: set<object>)
    requires Semilattice(kind) && Represents(kind, cur0, repr0, Itself())
    ensures cur.Keys == cur0.Keys + {e.from} + {e.to} && repr0 <= repr && fresh(repr - repr0) && Represents(kind, cur, repr, Itself())
  {
    cur, repr := SeedIfAbsent(kind, cur0, repr0, e.from);
    cur, repr := SeedIfAbsent(kind, cur, repr, e.to);
  }

  // The cold start: every node given, and both ends of every edge, once each.
  method ColdStart<S(!new)>(kind: Kind<S>, nodes: seq<NodeId>, edges: seq<Edge>) returns (cur: Sketches<S>, ghost repr: set<object>)
    requires Semilattice(kind)
    ensures fresh(repr) && cur.Keys == AllNodes(nodes, edges) && Represents(kind, cur, repr, Itself())
  {
    cur, repr := map[], {};
    for k := 0 to |nodes|
      invariant fresh(repr) && Represents(kind, cur, repr, Itself())
      invariant cur.Keys == AllNodes(nodes[..k], [])
    {
      NodesGrow(nodes, k);
      cur, repr := SeedIfAbsent(kind, cur, repr, nodes[k]);
    }
    assert nodes[..|nodes|] == nodes && edges[..0] == [];
    for k := 0 to |edges|
      invariant fresh(repr) && Represents(kind, cur, repr, Itself())
      invariant cur.Keys == AllNodes(nodes, edges[..k])
    {
      EdgesGrow(nodes, edges, k);
      cur, repr := SeedEnds(kind, cur, repr, edges[k]);
    }
    assert edges[..|edges|] == edges;
  }

  lemma NodesGrow(nodes: seq<NodeId>, k: nat)
    requires k < |nodes|
    ensures AllNodes(nodes[..k + 1], []) == AllNodes(nodes[..k], []) + {nodes[k]}
  {
    assert nodes[..k + 1] == nodes[..k] + [nodes[k]];
    assert forall n :: n in nodes[..k + 1] <==> n in nodes[..k] || n == nodes[k];
  }

  lemma EdgesGrow(nodes: seq<NodeId>, edges: seq<Edge>, k: nat)
    requires k < |edges|
    ensures AllNodes(nodes, edges[..k + 1]) == AllNodes(nodes, edges[..k]) + {edges[k].from} + {edges[k].to}
  {
    assert edges[..k + 1] == edges[..k] + [edges[k]];
    assert forall e :: e in edges[..k + 1] <==> e in edges[..k] || e == edges[k];
  }

  method SeedOne<S(!new)>(kind: Kind<S>, n: NodeId) returns (sk: Sketch<S>)
    requires Semilattice(kind)
    ensures fresh(sk) && sk.kind == kind && sk.value == SketchOf(kind, {n})
  {
    sk := new Sketch(kind);
    sk.Add(n);
    SketchOfSingle(kind, n);
  }

  lemma SketchOfSingle<S(!new)>(kind: Kind<S>, n: NodeId)
    requires Semilattice(kind)
    ensures SketchOf(kind, {n}) == kind.join(kind.empty, kind.single(n))
  {
    SketchOfAdd(kind, {}, n);
    assert {} + {n} == {n} && Commutes(kind, kind.single(n), kind.empty);
  }

  // Folds one worker's result into the round's, in whatever order the map gives.
  method FoldPart<S(!new)>(kind: Kind<S>, next: Sketches<S>, ghost repr: set<object>, part: Sketches<S>,
      ghost partRepr: set<object>, ghost held: NodeId -> set<NodeId>, ghost more: NodeId -> set<NodeId>)
    requires Semilattice(kind) && Represents(kind, next, repr, held) && Represents(kind, part, partRepr, more)
    requires part.Keys <= next.Keys && repr !! partRepr
    requires forall n :: n !in part ==> more(n) == {}
    modifies repr
    ensures Represents(kind, next, repr, Both(held, more))
  {
    var left := part.Keys;
    ghost var f := held;
    FoldNone(held, more, left);
    while left != {}
      invariant left <= part.Keys && FoldedBut(held, more, f, left)
      invariant Represents(kind, next, repr, f) && Represents(kind, part, partRepr, more)
    {
      var n :| n in left;
      var _, _ := MergeInto(kind, next, repr, n, part[n], f, more(n));
      FoldOne(held, more, f, left, n);
      f := Plus(f, n, more(n));
      left := left - {n};
    }
    SameMembersRepresented(kind, next, repr, f, Both(held, more));
  }

  ghost function Both(held: NodeId -> set<NodeId>, more: NodeId -> set<NodeId>): NodeId -> set<NodeId> {
    n => held(n) + more(n)
  }

  // Everything folded in except for the nodes left.
  ghost predicate FoldedBut(held: NodeId -> set<NodeId>, more: NodeId -> set<NodeId>, f: NodeId -> set<NodeId>,
      left: set<NodeId>)
  {
    forall n :: f(n) == if n in left then held(n) else held(n) + more(n)
  }

  lemma FoldNone(held: NodeId -> set<NodeId>, more: NodeId -> set<NodeId>, left: set<NodeId>)
    requires forall n :: n !in left ==> more(n) == {}
    ensures FoldedBut(held, more, held, left)
  {
    forall n | n !in left ensures held(n) + more(n) == held(n) {}
  }

  lemma FoldOne(held: NodeId -> set<NodeId>, more: NodeId -> set<NodeId>, f: NodeId -> set<NodeId>, left: set<NodeId>, n: NodeId)
    requires FoldedBut(held, more, f, left) && n in left
    ensures FoldedBut(held, more, Plus(f, n, more(n)), left - {n})
  {
  }

  // The workers' results for one round, one per slice, all their objects among `repr`.
  ghost predicate AreShares<S(!new)>(kind: Kind<S>, chunks: seq<seq<Edge>>, members: NodeId -> set<NodeId>,
      parts: seq<Sketches<S>>, repr: set<object>)
    reads repr
  {
    && |parts| <= |chunks|
    && (forall i :: 0 <= i < |parts| ==> Represents(kind, parts[i], repr, Share(members, chunks[i])))
    && (forall i, n :: 0 <= i < |parts| ==> (n in parts[i] <==> Targets(chunks[i], n)))
  }

  method Shares<S(!new)>(kind: Kind<S>, cur: Sketches<S>, ghost repr0: set<object>, chunks: seq<seq<Edge>>,
      ghost members: NodeId -> set<NodeId>) returns (parts: seq<Sketches<S>>, ghost repr: set<object>)
    requires Semilattice(kind) && Represents(kind, cur, repr0, members)
    requires forall i, e :: 0 <= i < |chunks| && e in chunks[i] ==> e.from in cur
    ensures fresh(repr) && AreShares(kind, chunks, members, parts, repr) && |parts| == |chunks|
  {
    parts, repr := [], {};
    for i := 0 to |chunks|
      invariant |parts| == i && fresh(repr) && AreShares(kind, chunks, members, parts, repr)
    {
      var part, more := MergeChunk(kind, cur, repr0, chunks[i], members);
      OneMoreShare(kind, chunks, members, parts, repr, part, more);
      parts, repr := parts + [part], repr + more;
    }
  }

  lemma OneMoreShare<S(!new)>(kind: Kind<S>, chunks: seq<seq<Edge>>, members: NodeId -> set<NodeId>,
      parts: seq<Sketches<S>>, repr: set<object>, part: Sketches<S>, more: set<object>)
    requires |parts| < |chunks| && AreShares(kind, chunks, members, parts, repr)
    requires Represents(kind, part, more, Share(members, chunks[|parts|]))
    requires forall n :: n in part <==> Targets(chunks[|parts|], n)
    ensures AreShares(kind, chunks, members, parts + [part], repr + more)
  {
  }

  ghost predicate FoldedUpTo(members: NodeId -> set<NodeId>, chunks: seq<seq<Edge>>, f: NodeId -> set<NodeId>) {
    forall n :: f(n) == {n} + Into(members, Flatten(chunks), n)
  }

  method FoldAll<S(!new)>(kind: Kind<S>, next: Sketches<S>, ghost repr: set<object>, chunks: seq<seq<Edge>>,
      parts: seq<Sketches<S>>, ghost partsRepr: set<object>, ghost members: NodeId -> set<NodeId>)
      returns (ghost f: NodeId -> set<NodeId>)
    requires Semilattice(kind) && Represents(kind, next, repr, Itself())
    requires AreShares(kind, chunks, members, parts, partsRepr) && |parts| == |chunks| && repr !! partsRepr
    requires forall i, e :: 0 <= i < |chunks| && e in chunks[i] ==> e.to in next
    modifies repr
    ensures Represents(kind, next, repr, f) && FoldedUpTo(members, chunks, f)
  {
    f := Itself();
    NothingInto(members, f);
    for i := 0 to |parts|
      invariant AreShares(kind, chunks, members, parts, partsRepr) && Represents(kind, next, repr, f)
      invariant FoldedUpTo(members, chunks[..i], f)
    {
      ShareOfOthers(members, chunks[i]);
      FoldPart(kind, next, repr, parts[i], partsRepr, f, Share(members, chunks[i]));
      ShareFolded(members, chunks, i, f);
      f := Both(f, Share(members, chunks[i]));
    }
    assert chunks[..|chunks|] == chunks;
  }

  lemma ShareOfOthers(members: NodeId -> set<NodeId>, chunk: seq<Edge>)
    ensures forall n :: !Targets(chunk, n) ==> Share(members, chunk)(n) == {}
  {
    forall n | !Targets(chunk, n) ensures Share(members, chunk)(n) == {} {
      IntoOneMore(members, chunk, Edge(n, n), n);
    }
  }

  lemma NothingInto(members: NodeId -> set<NodeId>, f: NodeId -> set<NodeId>)
    requires f == Itself()
    ensures FoldedUpTo(members, [], f)
  {
    forall n ensures f(n) == {n} + Into(members, Flatten([]), n) {
      assert Into(members, [], n) == {};
    }
  }

  lemma ShareFolded(members: NodeId -> set<NodeId>, chunks: seq<seq<Edge>>, i: nat, f: NodeId -> set<NodeId>)
    requires i < |chunks| && FoldedUpTo(members, chunks[..i], f)
    ensures FoldedUpTo(members, chunks[..i + 1], Both(f, Share(members, chunks[i])))
  {
    assert chunks[..i + 1] == chunks[..i] + [chunks[i]];
    FlattenAppend(chunks[..i], chunks[i]);
    forall n ensures Both(f, Share(members, chunks[i]))(n) == {n} + Into(members, Flatten(chunks[..i + 1]), n) {
      IntoAppend(members, Flatten(chunks[..i]), chunks[i], n);
    }
  }

  ghost function Layer(all: set<NodeId>, edges: seq<Edge>, k: nat): NodeId -> set<NodeId> {
    n => Within(all, edges, n, k)
  }

  // A node's next layer is itself and what the edges bring it from this one.
  lemma LayerStep(all: set<NodeId>, edges: seq<Edge>, k: nat, n: NodeId)
    requires Closed(all, edges) && n in all
    ensures Layer(all, edges, k + 1)(n) == {n} + Into(Layer(all, edges, k), edges, n)
  {
    forall m ensures m in Within(all, edges, n, k + 1) <==> m in {n} + Into(Layer(all, edges, k), edges, n) {
      if m in Within(all, edges, n, k + 1) && m != n {
        assert Arrives(edges, m, n, k);
        var e :| e in edges && e.to == n && Reaches(edges, m, e.from, k);
        assert m in Layer(all, edges, k)(e.from);
      }
      if m in Into(Layer(all, edges, k), edges, n) {
        var e :| e in edges && e.to == n && m in Layer(all, edges, k)(e.from);
        assert Arrives(edges, m, n, k);
      }
    }
  }

  lemma FlattenHas<T>(chunks: seq<seq<T>>, i: nat, x: T)
    requires i < |chunks| && x in chunks[i]
    ensures x in Flatten(chunks)
  {
    if i < |chunks| - 1 {
      FlattenHas(chunks[..|chunks| - 1], i, x);
    }
  }

  // A run's layers, opened one node of one layer at a time: each is got from the one before, and
  // from as many as there are nodes on they no longer change.
  type Layers = nat -> (NodeId -> set<NodeId>)

  ghost predicate Steps(layers: Layers, edges: seq<Edge>, k: nat, n: NodeId) {
    layers(k + 1)(n) == {n} + Into(layers(k), edges, n)
  }

  ghost predicate Settles(layers: Layers, all: set<NodeId>, k: nat) {
    forall n :: n in all ==> layers(k + 1)(n) == layers(k)(n)
  }

  ghost predicate AreLayers(layers: Layers, all: set<NodeId>, edges: seq<Edge>) {
    && (forall n :: n in all ==> layers(0)(n) == {n})
    && (forall k: nat, n {:trigger Steps(layers, edges, k, n)} :: n in all ==> Steps(layers, edges, k, n))
    && (forall k: nat {:trigger Settles(layers, all, k)} :: k + 1 >= |all| ==> Settles(layers, all, k))
  }

  // One round, recomputed in full from the last one's result.
  method Round<S(!new)>(kind: Kind<S>, cur: Sketches<S>, ghost repr0: set<object>, chunks: seq<seq<Edge>>, all: set<NodeId>,
      ghost edges: seq<Edge>, ghost layers: Layers, ghost k: nat) returns (next: Sketches<S>, ghost repr: set<object>)
    requires Semilattice(kind) && cur.Keys == all && Represents(kind, cur, repr0, layers(k))
    requires Closed(all, edges) && Flatten(chunks) == edges && AreLayers(layers, all, edges)
    ensures fresh(repr) && next.Keys == all && Represents(kind, next, repr, layers(k + 1))
  {
    forall i, e | 0 <= i < |chunks| && e in chunks[i] ensures e.from in all && e.to in all {
      FlattenHas(chunks, i, e);
    }
    var parts, partsRepr := Shares(kind, cur, repr0, chunks, layers(k));
    next, repr := Seed(kind, all);
    ghost var f := FoldAll(kind, next, repr, chunks, parts, partsRepr, layers(k));
    forall n | n in all ensures f(n) == layers(k + 1)(n) {
      assert Steps(layers, edges, k, n);
    }
    SameMembersRepresented(kind, next, repr, f, layers(k + 1));
  }

  // No count moved between two rounds.
  ghost predicate CountsAgree<S(!new)>(kind: Kind<S>, all: set<NodeId>, f: NodeId -> set<NodeId>, g: NodeId -> set<NodeId>) {
    forall n :: n in all ==> kind.count(SketchOf(kind, f(n))) == kind.count(SketchOf(kind, g(n)))
  }

  method AnyCountMoved<S(!new)>(kind: Kind<S>, cur: Sketches<S>, ghost repr0: set<object>, next: Sketches<S>, ghost repr: set<object>,
      ghost f: NodeId -> set<NodeId>, ghost g: NodeId -> set<NodeId>) returns (changed: bool)
    requires cur.Keys == next.Keys && Represents(kind, cur, repr0, f) && Represents(kind, next, repr, g)
    ensures changed <==> !CountsAgree(kind, next.Keys, g, f)
  {
    changed := false;
    var left := next.Keys;
    while left != {}
      invariant left <= next.Keys
      invariant changed <==> !CountsAgree(kind, next.Keys - left, g, f)
    {
      var n :| n in left;
      if kind.count(next[n].value) != kind.count(cur[n].value) {
        changed := true;
      }
      left := left - {n};
    }
    assert next.Keys - left == next.Keys;
  }

  // Round k + 1 moved some count.
  ghost predicate Moved<S(!new)>(kind: Kind<S>, all: set<NodeId>, layers: Layers, k: nat) {
    !CountsAgree(kind, all, layers(k + 1), layers(k))
  }

  ghost predicate AllMoved<S(!new)>(kind: Kind<S>, all: set<NodeId>, layers: Layers, k: nat) {
    forall j: nat {:trigger Moved(kind, all, layers, j)} :: j < k ==> Moved(kind, all, layers, j)
  }

  // The first round that moved no count is over, no later than the number of nodes allows.
  ghost predicate Stopped<S(!new)>(kind: Kind<S>, all: set<NodeId>, layers: Layers, k: nat) {
    0 < k && (k == 1 || k <= |all|) && !Moved(kind, all, layers, k - 1) && AllMoved(kind, all, layers, k - 1)
  }

  // There is only one such round.
  lemma OneStop<S(!new)>(kind: Kind<S>, all: set<NodeId>, layers: Layers, k: nat, l: nat)
    requires Stopped(kind, all, layers, k) && Stopped(kind, all, layers, l)
    ensures k == l
  {
  }

  ghost function LayersOf(all: set<NodeId>, edges: seq<Edge>): Layers {
    k => Layer(all, edges, k)
  }

  lemma TheseAreLayers(all: set<NodeId>, edges: seq<Edge>)
    requires Closed(all, edges)
    ensures AreLayers(LayersOf(all, edges), all, edges)
  {
    var layers := LayersOf(all, edges);
    forall k: nat, n | n in all ensures Steps(layers, edges, k, n) {
      LayerStep(all, edges, k, n);
    }
    forall k: nat | k + 1 >= |all| ensures Settles(layers, all, k) {
      forall n | n in all ensures layers(k + 1)(n) == layers(k)(n) {
        RoundsSuffice(all, edges, n, k + 1);
      }
    }
  }

  method RoundAndCompare<S(!new)>(kind: Kind<S>, cur: Sketches<S>, ghost repr0: set<object>, chunks: seq<seq<Edge>>,
      all: set<NodeId>, ghost edges: seq<Edge>, ghost layers: Layers, ghost k: nat)
      returns (next: Sketches<S>, ghost repr: set<object>, changed: bool)
    requires Semilattice(kind) && cur.Keys == all && Represents(kind, cur, repr0, layers(k))
    requires Closed(all, edges) && Flatten(chunks) == edges && AreLayers(layers, all, edges) && (k == 0 || k < |all|)
    ensures fresh(repr) && next.Keys == all && Represents(kind, next, repr, layers(k + 1))
    ensures changed <==> Moved(kind, all, layers, k)
    ensures changed ==> k + 1 < |all|
  {
    next, repr := Round(kind, cur, repr0, chunks, all, edges, layers, k);
    changed := AnyCountMoved(kind, cur, repr0, next, repr, layers(k), layers(k + 1));
    if k + 1 >= |all| {
      assert Settles(layers, all, k);
    }
  }

  // Still to go on, every round so far having moved something, or stopped.
  ghost predicate Underway<S(!new)>(kind: Kind<S>, all: set<NodeId>, layers: Layers, rounds: nat, changed: bool) {
    if changed then (rounds == 0 || rounds < |all|) && AllMoved(kind, all, layers, rounds)
    else Stopped(kind, all, layers, rounds)
  }

  lemma OneRoundOn<S(!new)>(kind: Kind<S>, all: set<NodeId>, layers: Layers, k: nat, changed: bool)
    requires Underway(kind, all, layers, k, true)
    requires changed <==> Moved(kind, all, layers, k)
    requires changed ==> k + 1 < |all|
    ensures Underway(kind, all, layers, k + 1, changed)
  {
  }

  method NextRound<S(!new)>(kind: Kind<S>, cur: Sketches<S>, ghost repr0: set<object>, chunks: seq<seq<Edge>>,
      all: set<NodeId>, ghost edges: seq<Edge>, ghost layers: Layers, ghost k: nat)
      returns (next: Sketches<S>, ghost repr: set<object>, changed: bool)
    requires Semilattice(kind) && cur.Keys == all && Represents(kind, cur, repr0, layers(k))
    requires Closed(all, edges) && Flatten(chunks) == edges && AreLayers(layers, all, edges)
    requires Underway(kind, all, layers, k, true)
    ensures fresh(repr) && next.Keys == all && Represents(kind, next, repr, layers(k + 1))
    ensures Underway(kind, all, layers, k + 1, changed)
    ensures changed ==> k + 1 < |all|
  {
    next, repr, changed := RoundAndCompare(kind, cur, repr0, chunks, all, edges, layers, k);
    OneRoundOn(kind, all, layers, k, changed);
  }

  // The loop of RunEpoch.
  method Propagate<S(!new)>(kind: Kind<S>, start: Sketches<S>, ghost repr0: set<object>, all: set<NodeId>, chunks: seq<seq<Edge>>,
      ghost edges: seq<Edge>, ghost layers: Layers) returns (cur: Sketches<S>, ghost repr: set<object>, ghost rounds: nat)
    requires Semilattice(kind) && Closed(all, edges) && Flatten(chunks) == edges && AreLayers(layers, all, edges)
    requires start.Keys == all && Represents(kind, start, repr0, layers(0))
    ensures fresh(repr - repr0) && cur.Keys == all && Represents(kind, cur, repr, layers(rounds))
    ensures Stopped(kind, all, layers, rounds)
  {
    cur, repr, rounds := start, repr0, 0;
    var changed := true;
    while changed
      invariant fresh(repr - repr0) && cur.Keys == all && Represents(kind, cur, repr, layers(rounds))
      invariant Underway(kind, all, layers, rounds, changed)
      decreases changed, |all| - rounds
      modifies {}
    {
      cur, repr, changed := NextRound(kind, cur, repr, chunks, all, edges, layers, rounds);
      rounds := rounds + 1;
    }
  }

  // Propagates until a round moves no count, which is within as many rounds as there are nodes, and
  // leaves each node the sketch of what reaches it within that many edges. Nothing outside is read,
  // nothing is left behind, and neither the workers nor any order of folding shows in the result: see
  // Convergence.EpochIsUnique.
  method RunEpoch<S(!new)>(kind: Kind<S>, nodes: seq<NodeId>, edges: seq<Edge>, workers: nat)
      returns (cur: Sketches<S>, ghost repr: set<object>, ghost rounds: nat)
    requires Semilattice(kind)
    ensures fresh(repr) && cur.Keys == AllNodes(nodes, edges)
    ensures Represents(kind, cur, repr, Layer(AllNodes(nodes, edges), edges, rounds))
    ensures Stopped(kind, AllNodes(nodes, edges), LayersOf(AllNodes(nodes, edges), edges), rounds)
  {
    var start, repr0 := ColdStart(kind, nodes, edges);
    var all := start.Keys;
    var chunks := SplitEdges(edges, workers);
    SameMembersRepresented(kind, start, repr0, Itself(), LayersOf(all, edges)(0));
    ghost var layers := LayersOf(all, edges);
    TheseAreLayers(all, edges);
    cur, repr, rounds := Propagate(kind, start, repr0, all, chunks, edges, layers);
  }

  lemma ExactIsSemilattice()
    ensures Semilattice(EXACT)
  {
    forall a, b ensures Commutes(EXACT, a, b) {
      assert EXACT.join(a, b) == a + b == b + a == EXACT.join(b, a);
    }
    forall a, b, c ensures Associates(EXACT, a, b, c) {
      assert (a + b) + c == a + (b + c);
    }
    forall a ensures Absorbs(EXACT, a) {
      assert a + a == a && {} + a == a;
    }
  }

  lemma {:induction false} ExactSketchIsTheSet(members: set<NodeId>)
    ensures SketchOf(EXACT, members) == members
    decreases |members|
  {
    ExactIsSemilattice();
    if members != {} {
      var m :| m in members;
      SketchOfTake(EXACT, members, m);
      ExactSketchIsTheSet(members - {m});
    }
  }

  lemma SameSizeSameSet<T>(a: set<T>, b: set<T>)
    requires a <= b && |a| == |b|
    ensures a == b
  {
    assert b == a + (b - a);
  }

  // Over exact sets, counts that agree mean nothing is left to add: each node has exactly the nodes
  // that reach it.
  lemma ExactFixpoint(all: set<NodeId>, edges: seq<Edge>, k: nat, n: NodeId)
    requires Closed(all, edges) && n in all && k > 0
    requires CountsAgree(EXACT, all, LayersOf(all, edges)(k), LayersOf(all, edges)(k - 1))
    ensures forall m :: m in SketchOf(EXACT, Layer(all, edges, k)(n)) <==> m in all && ReachesAtAll(edges, m, n)
  {
    forall x | x in all ensures Within(all, edges, x, k) == Within(all, edges, x, k - 1) {
      assert LayersOf(all, edges)(k)(x) == Within(all, edges, x, k);
      assert LayersOf(all, edges)(k - 1)(x) == Within(all, edges, x, k - 1);
      ExactSketchIsTheSet(Layer(all, edges, k)(x));
      ExactSketchIsTheSet(Layer(all, edges, k - 1)(x));
      forall y | y in Within(all, edges, x, k - 1) ensures y in Within(all, edges, x, k) {
        Longer(edges, y, x, k - 1, k);
      }
      SameSizeSameSet(Within(all, edges, x, k - 1), Within(all, edges, x, k));
    }
    ExactSketchIsTheSet(Layer(all, edges, k)(n));
    forall m | m in all ensures m in Within(all, edges, n, k) <==> ReachesAtAll(edges, m, n) {
      StableIsComplete(all, edges, k, n, m);
    }
  }

  lemma StoppedAgrees<S(!new)>(kind: Kind<S>, all: set<NodeId>, layers: Layers, k: nat)
    requires Stopped(kind, all, layers, k)
    ensures k > 0 && CountsAgree(kind, all, layers(k), layers(k - 1))
  {
    assert !Moved(kind, all, layers, k - 1);
  }

  method RunEpochExactly(nodes: seq<NodeId>, edges: seq<Edge>, workers: nat) returns (reach: map<NodeId, set<NodeId>>)
    ensures reach.Keys == AllNodes(nodes, edges)
    ensures forall n, m :: n in reach ==> (m in reach[n] <==> m in reach && ReachesAtAll(edges, m, n))
  {
    ExactIsSemilattice();
    var cur, repr, rounds := RunEpoch(EXACT, nodes, edges, workers);
    reach := map n | n in cur :: cur[n].value;
    StoppedAgrees(EXACT, AllNodes(nodes, edges), LayersOf(AllNodes(nodes, edges), edges), rounds);
    forall n | n in reach ensures forall m :: m in reach[n] <==> m in reach && ReachesAtAll(edges, m, n) {
      ExactFixpoint(AllNodes(nodes, edges), edges, rounds, n);
    }
  }

  // A sketch of fewer members is absorbed by the sketch of more.
  lemma FewerMembersSketchBelow<S(!new)>(kind: Kind<S>, a: set<NodeId>, b: set<NodeId>)
    requires Semilattice(kind) && a <= b
    ensures kind.join(SketchOf(kind, a), SketchOf(kind, b)) == SketchOf(kind, b)
  {
    SketchOfUnion(kind, a, b);
    assert a + b == b;
  }
}
