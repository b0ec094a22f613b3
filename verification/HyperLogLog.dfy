// HyperLogLog registers (internal/sketch/hll.go) as the image of sets: what propagation over them
// computes, whatever the floating-point estimate made of it.
module HyperLogLog {
  import opened Decimal
  import opened Reachers
  import opened Sketch
  import opened Propagation
  import opened Convergence

  function Pow2(k: nat): nat {
    if k == 0 then 1 else 2 * Pow2(k - 1)
  }

  lemma {:induction false} Pow2Split(j: nat, k: nat)
    ensures Pow2(j + k) == Pow2(j) * Pow2(k)
  {
    if j > 0 {
      Pow2Split(j - 1, k);
    }
  }

  // bits.LeadingZeros64
  function LeadingZeros(x: uint64, width: nat): nat
    decreases width
  {
    if width == 0 || x >= Pow2(width - 1) then 0 else 1 + LeadingZeros(x, width - 1)
  }

  function Quotient(x: nat, d: nat): nat
    requires d > 0
  {
    x / d
  }

  // The register a hash lands in: its top bits. Its rank there: leading zeros of the rest, plus one.
  function Index(x: uint64, precision: nat): nat
    requires precision <= 64
  {
    PowPositive(64 - precision);
    Quotient(x, Pow2(64 - precision))
  }

  function Rank(x: uint64, precision: nat): nat {
    LeadingZeros((x * Pow2(precision)) % TWO64, 64) + 1
  }

  lemma {:induction false} PowPositive(k: nat)
    ensures Pow2(k) > 0
  {
    if k > 0 {
      PowPositive(k - 1);
    }
  }

  lemma WordSize()
    ensures Pow2(64) == TWO64
  {
    assert Pow2(8) == 256;
    Pow2Split(8, 8);
    Pow2Split(16, 16);
    Pow2Split(32, 32);
  }

  lemma IndexInRange(x: uint64, precision: nat)
    requires precision <= 64
    ensures Index(x, precision) < Pow2(precision)
  {
    PowPositive(64 - precision);
    Pow2Split(precision, 64 - precision);
    WordSize();
    QuotientBelow(x, Pow2(precision), Pow2(64 - precision));
  }

  lemma QuotientBelow(x: nat, a: nat, b: nat)
    requires b > 0 && x < a * b
    ensures Quotient(x, b) < a
  {
    var q := Quotient(x, b);
    assert q * b <= x;
    if q >= a {
      Scale(a, q, b);
    }
  }

  lemma Scale(a: nat, q: nat, b: nat)
    requires a <= q
    ensures a * b <= q * b
  {
  }

  // Registers by index; one that is not listed is zero.
  datatype Registers = Registers(ranks: map<nat, nat>)

  const NONE: Registers := Registers(map[])

  function One(i: nat, rank: nat): Registers {
    Registers(map[i := rank])
  }

  function Get(r: Registers, i: nat): nat {
    if i in r.ranks then r.ranks[i] else 0
  }

  function Max(a: nat, b: nat): nat {
    if a >= b then a else b
  }

  // Register-wise maximum.
  function JoinRegisters(a: Registers, b: Registers): Registers {
    Registers(map i | i in a.ranks.Keys + b.ranks.Keys :: Max(Get(a, i), Get(b, i)))
  }

  type Hash = NodeId -> uint64

  function HllKind(hash: Hash, precision: nat, count: Registers -> int): Kind<Registers>
    requires precision <= 64
  {
    Kind(NONE, n => One(Index(hash(n), precision), Rank(hash(n), precision)), JoinRegisters, count)
  }

  lemma JoinGets(a: Registers, b: Registers, i: nat)
    ensures Get(JoinRegisters(a, b), i) == Max(Get(a, i), Get(b, i))
    ensures i in JoinRegisters(a, b).ranks <==> i in a.ranks || i in b.ranks
  {
  }

  lemma SameRegisters(a: Registers, b: Registers)
    requires forall i: nat :: (i in a.ranks <==> i in b.ranks) && Get(a, i) == Get(b, i)
    ensures a == b
  {
    forall i | i in a.ranks ensures i in b.ranks && a.ranks[i] == b.ranks[i] {
      assert Get(a, i) == Get(b, i);
    }
    assert a.ranks == b.ranks;
  }

  lemma HllIsSemilattice(hash: Hash, precision: nat, count: Registers -> int)
    requires precision <= 64
    ensures Semilattice(HllKind(hash, precision, count))
  {
    var kind := HllKind(hash, precision, count);
    forall a, b ensures Commutes(kind, a, b) {
      SameRegisters(JoinRegisters(a, b), JoinRegisters(b, a));
    }
    forall a, b, c ensures Associates(kind, a, b, c) {
      JoinAssociates(a, b, c);
    }
    forall a ensures Absorbs(kind, a) {
      SameRegisters(JoinRegisters(a, a), a);
      SameRegisters(JoinRegisters(NONE, a), a);
    }
  }

  lemma JoinAssociates(a: Registers, b: Registers, c: Registers)
    ensures JoinRegisters(JoinRegisters(a, b), c) == JoinRegisters(a, JoinRegisters(b, c))
  {
    var l, r := JoinRegisters(JoinRegisters(a, b), c), JoinRegisters(a, JoinRegisters(b, c));
    forall i: nat ensures (i in l.ranks <==> i in r.ranks) && Get(l, i) == Get(r, i) {
      JoinGets(a, b, i);
      JoinGets(b, c, i);
      JoinGets(JoinRegisters(a, b), c, i);
      JoinGets(a, JoinRegisters(b, c), i);
    }
    SameRegisters(l, r);
  }

  // The sketch of a set: each register holds the highest rank of the members landing in it.
  lemma {:induction false} RegisterIsHighestRank(hash: Hash, precision: nat, count: Registers -> int, members: set<NodeId>, i: nat)
    requires precision <= 64
    ensures var r := SketchOf(HllKind(hash, precision, count), members);
      && (forall m :: m in members && Index(hash(m), precision) == i ==> Rank(hash(m), precision) <= Get(r, i))
      && (Get(r, i) > 0 ==> exists m :: m in members && Index(hash(m), precision) == i && Rank(hash(m), precision) == Get(r, i))
    decreases |members|
  {
    var kind := HllKind(hash, precision, count);
    HllIsSemilattice(hash, precision, count);
    if members != {} {
      var m :| m in members;
      RegisterIsHighestRank(hash, precision, count, members - {m}, i);
      SketchOfTake(kind, members, m);
      JoinGets(kind.single(m), SketchOf(kind, members - {m}), i);
    }
  }

  // The sketch itself: an array of registers changed in place. `held` is what it stands for.
  class HLL {
    const precision: nat
    const registers: array<nat>

    ghost predicate Shows(held: Registers)
      reads this, registers
    {
      && precision <= 64 && registers.Length == Pow2(precision)
      && (forall i :: i in held.ranks ==> i < registers.Length)
      && (forall i :: 0 <= i < registers.Length ==> registers[i] == Get(held, i))
    }

    constructor (precision: nat)
      requires precision <= 64
      ensures fresh(registers) && this.precision == precision && Shows(NONE)
    {
      this.precision := precision;
      this.registers := new nat[Pow2(precision)](_ => 0);
    }

    // Raises one register if the member's rank there is higher.
    method Add(n: NodeId, hash: Hash, ghost held: Registers)
      requires Shows(held)
      modifies registers
      ensures Shows(JoinRegisters(held, One(Index(hash(n), precision), Rank(hash(n), precision))))
    {
      IndexInRange(hash(n), precision);
      var i, rank := Index(hash(n), precision), Rank(hash(n), precision);
      if rank > registers[i] {
        registers[i] := rank;
      }
      forall k: nat ensures Get(JoinRegisters(held, One(i, rank)), k) == if k == i then Max(Get(held, k), rank) else Get(held, k) {
        JoinGets(held, One(i, rank), k);
      }
    }

    // Refuses another precision, where the source panics.
    method Merge(other: HLL, ghost held: Registers, ghost otherHeld: Registers) returns (ok: bool)
      requires Shows(held) && other.Shows(otherHeld)
      modifies registers
      ensures ok <==> precision == other.precision
      ensures ok ==> Shows(JoinRegisters(held, otherHeld)) && other.Shows(otherHeld)
      ensures !ok ==> Shows(held)
    {
      if precision != other.precision {
        return false;
      }
      for i := 0 to other.registers.Length
        invariant forall k :: 0 <= k < registers.Length ==>
          registers[k] == if k < i then Max(Get(held, k), Get(otherHeld, k)) else Get(held, k)
        invariant other.Shows(otherHeld)
      {
        if other.registers[i] > registers[i] {
          registers[i] := other.registers[i];
        }
      }
      forall k: nat ensures Get(JoinRegisters(held, otherHeld), k) == Max(Get(held, k), Get(otherHeld, k)) {
        JoinGets(held, otherHeld, k);
      }
      return true;
    }
  }

  // A run over registers ends, whatever the estimate says, at the first round that moves no estimate and
  // so within as many as there are nodes; it leaves each node the registers of exactly the nodes
  // reaching it within that many edges; and no register exceeds that of the full closure.
  method RunEpochSketched(hash: Hash, precision: nat, count: Registers -> int, nodes: seq<NodeId>, edges: seq<Edge>,
      workers: nat) returns (out: map<NodeId, Registers>, ghost rounds: nat)
    requires precision <= 64
    ensures Stopped(HllKind(hash, precision, count), AllNodes(nodes, edges), LayersOf(AllNodes(nodes, edges), edges), rounds)
    ensures Holds(HllKind(hash, precision, count), AllNodes(nodes, edges), edges, out, rounds)
    ensures IsEpoch(HllKind(hash, precision, count), AllNodes(nodes, edges), edges, out)
    ensures forall n, i: nat :: n in out ==>
      Get(out[n], i) <= Get(SketchOf(HllKind(hash, precision, count), Closure(out.Keys, edges, n)), i)
  {
    var kind := HllKind(hash, precision, count);
    HllIsSemilattice(hash, precision, count);
    var cur;
    ghost var repr;
    cur, repr, rounds := RunEpoch(kind, nodes, edges, workers);
    out := map n | n in cur :: cur[n].value;
    ghost var all := AllNodes(nodes, edges);
    forall n | n in out ensures out[n] == SketchOf(kind, Within(all, edges, n, rounds)) {
      assert Layer(all, edges, rounds)(n) == Within(all, edges, n, rounds);
    }
    forall n, i: nat | n in out ensures Get(out[n], i) <= Get(SketchOf(kind, Closure(all, edges, n)), i) {
      NeverAboveClosure(hash, precision, count, all, edges, n, rounds, i);
    }
  }

  // The same nodes and edges give the same registers whatever the numbers of workers.
  method RunWithOtherWorkers(hash: Hash, precision: nat, count: Registers -> int, nodes: seq<NodeId>, edges: seq<Edge>,
      workers: nat, others: nat) returns (out: map<NodeId, Registers>, again: map<NodeId, Registers>)
    requires precision <= 64
    ensures out == again && IsEpoch(HllKind(hash, precision, count), AllNodes(nodes, edges), edges, out)
  {
    ghost var rounds, roundsAgain;
    out, rounds := RunEpochSketched(hash, precision, count, nodes, edges, workers);
    again, roundsAgain := RunEpochSketched(hash, precision, count, nodes, edges, others);
    EpochIsUnique(HllKind(hash, precision, count), nodes, edges, nodes, edges, out, again);
  }

  lemma NeverAboveClosure(hash: Hash, precision: nat, count: Registers -> int, all: set<NodeId>, edges: seq<Edge>, n: NodeId,
      k: nat, i: nat)
    requires precision <= 64
    ensures var kind := HllKind(hash, precision, count);
      Get(SketchOf(kind, Within(all, edges, n, k)), i) <= Get(SketchOf(kind, Closure(all, edges, n)), i)
  {
    var kind := HllKind(hash, precision, count);
    HllIsSemilattice(hash, precision, count);
    WithinClosure(all, edges, n, k);
    FewerMembersSketchBelow(kind, Within(all, edges, n, k), Closure(all, edges, n));
    JoinGets(SketchOf(kind, Within(all, edges, n, k)), SketchOf(kind, Closure(all, edges, n)), i);
  }
}
