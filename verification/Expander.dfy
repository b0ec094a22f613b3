// Reading the out-edges of a frontier through a procedure that silently stops at a row limit
// (internal/query/expander.go).
module Expander {
  import opened Wrappers
  import opened Snapshot

  // Sources named in one call.
  const SOURCE_CHUNK: nat := 256

  // Every edge leaving the given nodes.
  function AllOut(table: Table, urns: seq<Urn>): seq<Edge> {
    if urns == [] then [] else OutOf(table, urns[0]) + AllOut(table, urns[1..])
  }

  lemma {:induction false} AllOutAppend(table: Table, a: seq<Urn>, b: seq<Urn>)
    ensures AllOut(table, a + b) == AllOut(table, a) + AllOut(table, b)
  {
    if a == [] {
      assert a + b == b;
    } else {
      AllOutAppend(table, a[1..], b);
      assert (a + b)[1..] == a[1..] + b;
    }
  }

  // No node of the list has more edges than one call may return.
  ghost predicate Fits(table: Table, limit: nat, urns: seq<Urn>) {
    forall n :: n in urns ==> |OutOf(table, n)| <= limit
  }

  // The names a query may carry.
  function Named(accepts: Urn -> bool, urns: seq<Urn>): (named: seq<Urn>)
    ensures |named| <= |urns| && forall n :: n in named <==> n in urns && accepts(n)
  {
    if urns == [] then []
    else if accepts(urns[0]) then [urns[0]] + Named(accepts, urns[1..])
    else Named(accepts, urns[1..])
  }

  class GraphExpander {
    const table: Table
    const limit: nat
    const accepts: Urn -> bool
    var roundTrips: nat
    var healthy: bool

    constructor (table: Table, limit: nat, accepts: Urn -> bool)
      ensures this.table == table && this.limit == limit && this.accepts == accepts && roundTrips == 0 && healthy
    {
      this.table, this.limit, this.accepts, roundTrips, healthy := table, limit, accepts, 0, true;
    }

    // The edges there are to read: those of nodes whose names a query may carry.
    ghost function Readable(): Table {
      map n | n in table && accepts(n) :: table[n]
    }

    // The database procedure: some `limit` of the rows when there are more, and nothing in the
    // answer says so. The round trip itself may fail while the connection is not healthy.
    method MSpaths(urns: seq<Urn>) returns (rows: Option<seq<Edge>>)
      ensures healthy ==> rows.Some?
      ensures rows.Some? ==>
        && multiset(rows.value) <= multiset(AllOut(table, urns))
        && |rows.value| == (if |AllOut(table, urns)| <= limit then |AllOut(table, urns)| else limit)
    {
      var failed := *;
      if failed && !healthy {
        return None;
      }
      var all := AllOut(table, urns);
      if |all| <= limit {
        return Some(all);
      }
      assert all == all[..limit] + all[limit..];
      return Some(all[..limit]);
    }

    // Halves the sources when the answer is as long as a truncated one would be. Names no query may
    // carry are left out of it.
    method Expand(urns: seq<Urn>) returns (edges: Option<seq<Edge>>)
      requires WellKeyed(table)
      modifies this`roundTrips
      ensures edges.Some? ==> Serves(Readable(), limit, urns, edges.value)
      ensures healthy ==> edges.Some?
      ensures roundTrips >= old(roundTrips)
      decreases |urns|, 1
    {
      var valid := Named(accepts, urns);
      ReadingTheNamed(table, accepts, Readable(), limit, urns);
      if |valid| == 0 {
        ServesNothing(Readable(), limit);
        return Some([]);
      }
      roundTrips := roundTrips + 1;
      var rows := MSpaths(valid);
      if rows == None {
        return None;
      }
      if |rows.value| >= limit && |valid| > 1 {
        edges := ExpandHalves(valid);
        return;
      }
      OneCallServes(Readable(), limit, valid, rows.value);
      return rows;
    }

    method ExpandHalves(urns: seq<Urn>) returns (edges: Option<seq<Edge>>)
      requires WellKeyed(table) && |urns| > 1
      modifies this`roundTrips
      ensures edges.Some? ==> Serves(Readable(), limit, urns, edges.value)
      ensures healthy ==> edges.Some?
      ensures roundTrips >= old(roundTrips)
      decreases |urns|, 0
    {
      var half := |urns| / 2;
      var us, vs := urns[..half], urns[half..];
      assert us + vs == urns;
      var left := Expand(us);
      if left == None {
        return None;
      }
      var right := Expand(vs);
      if right == None {
        return None;
      }
      ServesConcat(Readable(), limit, us, vs, left.value, right.value);
      return Some(left.value + right.value);
    }

    // Splits a frontier into calls of bounded length.
    method Out(urns: seq<Urn>) returns (edges: Option<seq<Edge>>)
      requires WellKeyed(table)
      modifies this`roundTrips
      ensures edges.Some? ==> Serves(Readable(), limit, urns, edges.value)
      ensures healthy ==> edges.Some?
    {
      var out: seq<Edge> := [];
      var start := 0;
      ghost var readable, read := Readable(), [];
      ServesNothing(readable, limit);
      while start < |urns|
        invariant 0 <= start <= |urns|
        invariant read == urns[..start] && Serves(readable, limit, read, out)
      {
        var end := if start + SOURCE_CHUNK <= |urns| then start + SOURCE_CHUNK else |urns|;
        var more := Expand(urns[start..end]);
        if more == None {
          return None;
        }
        assert urns[..start] + urns[start..end] == urns[..end];
        ServesConcat(readable, limit, read, urns[start..end], out, more.value);
        read, out := read + urns[start..end], out + more.value;
        start := end;
      }
      assert read == urns;
      return Some(out);
    }
  }

  // What a read of several nodes promises: nothing that is not an edge of theirs, no edge twice, every
  // edge of a node within the limit, and of any other node not all.
  ghost predicate Serves(table: Table, limit: nat, urns: seq<Urn>, edges: seq<Edge>) {
    && multiset(edges) <= multiset(AllOut(table, urns))
    && (forall e: Edge :: |OutOf(table, e.from)| <= limit ==> multiset(edges)[e] == multiset(AllOut(table, urns))[e])
    && (forall n :: n in urns && |OutOf(table, n)| > limit ==> Short(table, urns, edges, n))
  }

  ghost predicate Short(table: Table, urns: seq<Urn>, edges: seq<Edge>, n: Urn) {
    exists e :: e in OutOf(table, n) && multiset(edges)[e] < multiset(AllOut(table, urns))[e]
  }

  // So a read is whole exactly when every node in it fits.
  lemma ServesWholeIffFits(table: Table, limit: nat, urns: seq<Urn>, edges: seq<Edge>)
    requires WellKeyed(table) && Serves(table, limit, urns, edges)
    ensures multiset(edges) == multiset(AllOut(table, urns)) <==> Fits(table, limit, urns)
  {
    if Fits(table, limit, urns) {
      forall e ensures multiset(edges)[e] == multiset(AllOut(table, urns))[e] {
        if e in AllOut(table, urns) {
          FromOneOf(table, urns, e);
        } else {
          assert e !in multiset(AllOut(table, urns)) && e !in multiset(edges);
        }
      }
    } else {
      var n :| n in urns && |OutOf(table, n)| > limit;
      assert Short(table, urns, edges, n);
    }
  }

  lemma {:induction false} FromOneOf(table: Table, urns: seq<Urn>, e: Edge)
    requires WellKeyed(table) && e in AllOut(table, urns)
    ensures e.from in urns
  {
    if e !in OutOf(table, urns[0]) {
      FromOneOf(table, urns[1..], e);
    }
  }

  // Asking for the names a query may carry is asking the readable part of the graph for all of them.
  lemma ReadingTheNamed(table: Table, accepts: Urn -> bool, readable: Table, limit: nat, urns: seq<Urn>)
    requires WellKeyed(table) && readable == map n | n in table && accepts(n) :: table[n]
    ensures WellKeyed(readable)
    ensures AllOut(table, Named(accepts, urns)) == AllOut(readable, Named(accepts, urns)) == AllOut(readable, urns)
    ensures forall edges :: Serves(readable, limit, Named(accepts, urns), edges) ==> Serves(readable, limit, urns, edges)
  {
    NamedOut(table, accepts, readable, urns);
    forall edges | Serves(readable, limit, Named(accepts, urns), edges)
      ensures Serves(readable, limit, urns, edges)
    {
      forall n | n in urns && |OutOf(readable, n)| > limit ensures Short(readable, urns, edges, n) {
        assert Short(readable, Named(accepts, urns), edges, n);
      }
    }
  }

  lemma {:induction false} NamedOut(table: Table, accepts: Urn -> bool, readable: Table, urns: seq<Urn>)
    requires readable == map n | n in table && accepts(n) :: table[n]
    ensures AllOut(table, Named(accepts, urns)) == AllOut(readable, Named(accepts, urns)) == AllOut(readable, urns)
  {
    if urns != [] {
      NamedOut(table, accepts, readable, urns[1..]);
      if accepts(urns[0]) {
        assert ([urns[0]] + Named(accepts, urns[1..]))[1..] == Named(accepts, urns[1..]);
      }
    }
  }

  lemma ServesNothing(table: Table, limit: nat)
    ensures Serves(table, limit, [], [])
  {
  }

  lemma ServesConcat(table: Table, limit: nat, us: seq<Urn>, vs: seq<Urn>, a: seq<Edge>, b: seq<Edge>)
    requires Serves(table, limit, us, a) && Serves(table, limit, vs, b)
    ensures Serves(table, limit, us + vs, a + b)
  {
    AllOutAppend(table, us, vs);
    var ofUs, ofVs := multiset(AllOut(table, us)), multiset(AllOut(table, vs));
    assert multiset(AllOut(table, us + vs)) == ofUs + ofVs && multiset(a + b) == multiset(a) + multiset(b);
    forall n | n in us + vs && |OutOf(table, n)| > limit ensures Short(table, us + vs, a + b, n) {
      if n in us {
        var e :| e in OutOf(table, n) && multiset(a)[e] < ofUs[e];
        assert multiset(a + b)[e] < (ofUs + ofVs)[e];
      } else {
        var e :| e in OutOf(table, n) && multiset(b)[e] < ofVs[e];
        assert multiset(a + b)[e] < (ofUs + ofVs)[e];
      }
    }
  }

  lemma DegreeWithinTotal(table: Table, urns: seq<Urn>, n: Urn)
    requires n in urns
    ensures |OutOf(table, n)| <= |AllOut(table, urns)|
  {
    if urns[0] != n {
      DegreeWithinTotal(table, urns[1..], n);
    }
  }

  lemma MoreOfEach<T>(some: seq<T>, all: seq<T>)
    requires multiset(some) <= multiset(all)
    ensures |some| <= |all|
  {
    var extra := multiset(all) - multiset(some);
    assert multiset(all) == multiset(some) + extra;
    assert |multiset(all)| == |multiset(some)| + |extra|;
  }

  lemma FewerLoseOne<T>(some: seq<T>, all: seq<T>)
    requires |some| < |all|
    ensures exists x :: x in all && multiset(some)[x] < multiset(all)[x]
  {
    if !(multiset(all) <= multiset(some)) {
      var x :| multiset(some)[x] < multiset(all)[x];
      assert x in multiset(all);
    } else {
      MoreOfEach(all, some);
    }
  }

  lemma OneCallServes(table: Table, limit: nat, urns: seq<Urn>, rows: seq<Edge>)
    requires WellKeyed(table) && urns != [] && multiset(rows) <= multiset(AllOut(table, urns))
    requires |rows| == if |AllOut(table, urns)| <= limit then |AllOut(table, urns)| else limit
    requires |rows| < limit || |urns| == 1
    ensures Serves(table, limit, urns, rows)
  {
    var all := AllOut(table, urns);
    if |all| <= limit {
      assert multiset(all) == multiset(rows) + (multiset(all) - multiset(rows));
      assert multiset(rows) == multiset(all);
      forall n | n in urns ensures |OutOf(table, n)| <= limit {
        DegreeWithinTotal(table, urns, n);
      }
    } else {
      FewerLoseOne(rows, all);
      assert all == OutOf(table, urns[0]);
      assert Short(table, urns, rows, urns[0]);
      forall e: Edge | |OutOf(table, e.from)| <= limit ensures multiset(rows)[e] == multiset(all)[e] {
        assert e !in all;
        assert e !in multiset(all);
      }
    }
  }
}
