// Sketch propagation (internal/sketch/sketch.go), for any sketch that is a join of one sketch per
// member.
module Sketch {
  import opened Reachers

  // What a kind of sketch supplies: the empty one, the one for a single member, how two combine, and
  // what it counts.
  datatype Kind<!S> = Kind(empty: S, single: NodeId -> S, join: (S, S) -> S, count: S -> int)

  ghost predicate Commutes<S>(kind: Kind<S>, a: S, b: S) {
    kind.join(a, b) == kind.join(b, a)
  }

  ghost predicate Associates<S>(kind: Kind<S>, a: S, b: S, c: S) {
    kind.join(kind.join(a, b), c) == kind.join(a, kind.join(b, c))
  }

  ghost predicate Absorbs<S>(kind: Kind<S>, a: S) {
    kind.join(a, a) == a && kind.join(kind.empty, a) == a
  }

  // Joining is associative, commutative and idempotent, and empty is its unit. Each law is opened
  // only where it is named.
  ghost predicate Semilattice<S(!new)>(kind: Kind<S>) {
    && (forall a, b {:trigger Commutes(kind, a, b)} :: Commutes(kind, a, b))
    && (forall a, b, c {:trigger Associates(kind, a, b, c)} :: Associates(kind, a, b, c))
    && (forall a {:trigger Absorbs(kind, a)} :: Absorbs(kind, a))
  }

  // The sketch of a set of members.
  ghost function SketchOf<S(!new)>(kind: Kind<S>, members: set<NodeId>): S {
    if members == {} then kind.empty
    else
      var m :| m in members;
      kind.join(kind.single(m), SketchOf(kind, members - {m}))
  }

  // Which member is taken first makes no difference, nor does adding one twice.
  lemma {:induction false} SketchOfAdd<S(!new)>(kind: Kind<S>, members: set<NodeId>, m: NodeId)
    requires Semilattice(kind)
    ensures SketchOf(kind, members + {m}) == kind.join(kind.single(m), SketchOf(kind, members))
    decreases |members|
  {
    if m in members {
      SketchOfTake(kind, members, m);
      assert members + {m} == members;
      Absorb(kind, kind.single(m), SketchOf(kind, members - {m}));
    } else {
      SketchOfTake(kind, members + {m}, m);
      assert members + {m} - {m} == members;
    }
  }

  lemma Absorb<S(!new)>(kind: Kind<S>, a: S, b: S)
    requires Semilattice(kind)
    ensures kind.join(a, kind.join(a, b)) == kind.join(a, b)
  {
    assert Associates(kind, a, a, b) && Absorbs(kind, a);
  }

  lemma {:induction false} SketchOfTake<S(!new)>(kind: Kind<S>, members: set<NodeId>, m: NodeId)
    requires Semilattice(kind) && m in members
    ensures SketchOf(kind, members) == kind.join(kind.single(m), SketchOf(kind, members - {m}))
    decreases |members|
  {
    var x :| x in members && SketchOf(kind, members) == kind.join(kind.single(x), SketchOf(kind, members - {x}));
    if x != m {
      SketchOfTake(kind, members - {x}, m);
      SketchOfTake(kind, members - {m}, x);
      assert members - {x} - {m} == members - {m} - {x};
      Exchange(kind, kind.single(x), kind.single(m), SketchOf(kind, members - {x} - {m}));
    }
  }

  lemma Exchange<S(!new)>(kind: Kind<S>, a: S, b: S, c: S)
    requires Semilattice(kind)
    ensures kind.join(a, kind.join(b, c)) == kind.join(b, kind.join(a, c))
  {
    assert Associates(kind, a, b, c) && Associates(kind, b, a, c) && Commutes(kind, a, b);
  }

  // Merging sketches is sketching the union.
  lemma {:induction false} SketchOfUnion<S(!new)>(kind: Kind<S>, a: set<NodeId>, b: set<NodeId>)
    requires Semilattice(kind)
    ensures SketchOf(kind, a + b) == kind.join(SketchOf(kind, a), SketchOf(kind, b))
    decreases |a|
  {
    if a == {} {
      assert a + b == b && Absorbs(kind, SketchOf(kind, b));
    } else {
      var m :| m in a;
      var rest := a - {m};
      SketchOfUnion(kind, rest, b);
      assert a == rest + {m} && a + b == (rest + b) + {m};
      SketchOfAdd(kind, rest, m);
      SketchOfAdd(kind, rest + b, m);
      assert Associates(kind, kind.single(m), SketchOf(kind, rest), SketchOf(kind, b));
    }
  }

  // A sketch object, merged into in place.
  class Sketch<S(!new)> {
    const kind: Kind<S>
    var value: S

    constructor (kind: Kind<S>)
      ensures this.kind == kind && value == kind.empty
    {
      this.kind, value := kind, kind.empty;
    }

    method Add(n: NodeId)
      modifies this
      ensures value == kind.join(old(value), kind.single(n))
    {
      value := kind.join(value, kind.single(n));
    }

    method Merge(other: Sketch<S>)
      modifies this
      ensures value == kind.join(old(value), old(other.value))
    {
      value := kind.join(value, other.value);
    }
  }

  // Exact sets, which count their members.
  const EXACT: Kind<set<NodeId>> := Kind({}, n => {n}, (a, b) => a + b, a => |a|)

  // The set behind them (internal/sketch/exact.go), held to that kind: merged member by member, in any
  // order, also into itself.
  class ExactSet {
    var members: set<NodeId>

    constructor ()
      ensures members == EXACT.empty
    {
      members := {};
    }

    method Add(n: NodeId)
      modifies this
      ensures members == EXACT.join(old(members), EXACT.single(n))
    {
      members := members + {n};
    }

    method Merge(other: ExactSet)
      modifies this
      ensures members == EXACT.join(old(members), old(other.members))
      ensures other != this ==> other.members == old(other.members)
    {
      var left := other.members;
      while left != {}
        invariant left <= old(other.members)
        invariant members == old(members) + (old(other.members) - left)
        invariant other != this ==> other.members == old(other.members)
      {
        var n :| n in left;
        assert old(other.members) - (left - {n}) == (old(other.members) - left) + {n};
        left := left - {n};
        members := members + {n};
      }
      assert old(other.members) - left == old(other.members);
    }

    method Count() returns (n: int)
      ensures n == EXACT.count(members)
    {
      n := |members|;
    }
  }
}
