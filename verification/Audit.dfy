// One audit, from the lockfile's pins to the removal rows (Audit in internal/query/audit.go).
module Audit {
  import opened Wrappers
  import opened Sorting
  import opened Snapshot
  import opened IntervalSearch
  import opened TwoPass
  import opened Packages
  import opened Expander
  import opened Roster
  import opened Cut
  import D = Duality
  import P = Proof

  // What an audit answers, over the graph as it was read: the search, the roster of it in some ranking,
  // and the removal rows of that roster.
  ghost predicate IsAudit(res: Result, seen: Table, tenures: seq<Tenure>, keyholders: seq<Keyholder>, cuts: seq<Removal>,
      whose: seq<nat>)
    reads res
  {
    && Answers(res, seen) && AreKeyholders(res.coexistence, tenures, keyholders)
    && RowsFor(keyholders, Losses(Question(res, seen), res.opts.Depth(), res.coexistence, keyholders), |keyholders|, cuts, whose)
    && SortedBy(WiderCut, cuts)
  }

  // Ranking, by whatever scores, keeps the roster what it is.
  lemma RankedAreKeyholders(reached: Reached, tenures: seq<Tenure>, rows: seq<Keyholder>, out: seq<Keyholder>)
    requires AreKeyholders(reached, tenures, rows) && multiset(out) == multiset(rows)
    ensures AreKeyholders(reached, tenures, out)
  {
    SameMembers(rows, out);
    forall i, j | 0 <= i < j < |out| ensures out[i].handle != out[j].handle {
      HandleOnce(rows, out, i, j);
    }
    forall h, p | EverHolds(reached, tenures, h, p) ensures exists k :: k in out && k.handle == h {
      var k :| k in rows && k.handle == h;
      assert k in out;
    }
  }

  lemma HandleOnce(rows: seq<Keyholder>, out: seq<Keyholder>, i: nat, j: nat)
    requires multiset(out) == multiset(rows) && i < j < |out|
    requires forall k, l :: 0 <= k < l < |rows| ==> rows[k].handle != rows[l].handle
    ensures out[i].handle != out[j].handle
  {
    SameMembers(rows, out);
    assert out[i] in rows && out[j] in rows;
    var k :| 0 <= k < |rows| && rows[k] == out[i];
    var l :| 0 <= l < |rows| && rows[l] == out[j];
    if k == l {
      OnceInMultiset(rows, k);
      TwiceInMultiset(out, i, j);
    }
  }

  // Nothing locked that the graph knows: nobody holds a key to it.
  lemma NothingLocked(whole: Table, limit: nat, options: Options, tenures: seq<Tenure>)
    requires WellKeyed(whole)
    ensures ReadTo(whole, limit, [], whole, options.Depth()) && CachedTo(whole, [], map[], options.Depth())
    ensures IsLayer(Whole(whole, [], options.Window(), {}), map[], options.Depth())
    ensures AreKeyholders(map[], tenures, [])
  {
    D.NoSourcesNothingRead(whole, limit, options.Depth(), options.Window());
    var blind, before := Blind(EdgesOf(whole), []), options.Depth() - 1;
    assert blind.sources == [];
    forall n ensures !UnionWithin(EdgesOf(whole), [], n, before) {
      D.NoSourcesNothingReached(blind, n, 0, before);
    }
    forall h, p ensures !EverHolds(map[], tenures, h, p) {
    }
  }

  lemma Normalised(options: Options)
    ensures Options(options.Window(), options.Depth()).Window() == options.Window()
    ensures Options(options.Window(), options.Depth()).Depth() == options.Depth()
  {
  }

  // What is made of a finished search.
  method Report(res: Result, tenures: seq<Tenure>, rank: seq<Keyholder> -> seq<Keyholder>, ghost seen: Table)
      returns (keyholders: seq<Keyholder>, union: nat, cuts: seq<Removal>, ghost whose: seq<nat>)
    requires Answers(res, seen) && res.coexistence.Keys <= res.union && forall s :: multiset(rank(s)) == multiset(s)
    ensures IsAudit(res, seen, tenures, keyholders, cuts, whose)
    ensures union == |UnionHandles(tenures, PackagesOf(res.union))| && |keyholders| <= union
  {
    var roster, count;
    roster, count, union := Keyholders(res.coexistence, res.union, tenures);
    keyholders := rank(roster);
    RankedAreKeyholders(res.coexistence, tenures, roster, keyholders);
    SameMany(roster, keyholders);
    cuts, whose := Cuts(res, keyholders, seen);
  }

  lemma SameMany<T>(a: seq<T>, b: seq<T>)
    requires multiset(a) == multiset(b)
    ensures |a| == |b|
  {
    assert |multiset(a)| == |multiset(b)|;
  }

  // From the pins to the removal rows. `rank` is how the risk scores reorder the roster.
  method Audit(pins: seq<Urn>, published: map<Urn, int>, exp: GraphExpander, tenures: seq<Tenure>,
      rank: seq<Keyholder> -> seq<Keyholder>, options: Options)
      returns (ok: bool, res: Result, keyholders: seq<Keyholder>, union: nat, cuts: seq<Removal>, ghost seen: Table,
        ghost whose: seq<nat>)
    requires WellKeyed(exp.table) && forall s :: multiset(rank(s)) == multiset(s)
    modifies exp`roundTrips
    ensures fresh(res)
    ensures exp.healthy ==> ok
    ensures ok ==> res.opts == Options(options.Window(), options.Depth())
    ensures ok ==> forall n, t :: Holds(res.sources, n, t) <==>
      (n in pins && exp.accepts(n) && n in published && Existed(published[n]).Contains(t))
    ensures ok ==> ReadTo(exp.Readable(), exp.limit, res.sources, seen, options.Depth())
    ensures ok ==> IsAudit(res, seen, tenures, keyholders, cuts, whose)
    ensures ok ==> union == |UnionHandles(tenures, PackagesOf(res.union))| && |keyholders| <= union
  {
    var sources := KnownVersions(pins, exp.accepts, published);
    Normalised(options);
    if sources == [] {
      res := new Result(sources, Options(options.Window(), options.Depth()));
      seen := exp.Readable();
      NothingLocked(seen, exp.limit, options, tenures);
      assert UnionHandles(tenures, PackagesOf({})) == {};
      return true, res, [], 0, [], seen, [];
    }
    var fronts;
    ok, res, fronts, seen := Reach(exp, sources, options);
    keyholders, union, cuts, whose := [], 0, [], [];
    if ok {
      keyholders, union, cuts, whose := Report(res, tenures, rank, seen);
    }
  }

  // Over edges that keep to their ends' existence, chains from what was locked are judged by the window
  // asked about (Proof.ChainHeldIffInWindow).
  lemma LockedAreAsked(res: Result, whole: Table, limit: nat, seen: Table, pins: set<Urn>, published: map<Urn, int>, a: Urn)
    requires WellKeyed(whole) && ReadTo(whole, limit, res.sources, seen, res.opts.Depth())
    requires D.Timely(EdgesOf(whole), published)
    requires forall n, t :: Holds(res.sources, n, t) <==> n in pins && D.Exists(published, n, t)
    requires a in pins
    ensures P.Asked(Question(res, seen), published, a)
  {
    SawAllIffFits(whole, limit, res.sources, seen, res.opts.Depth());
  }

  // The path procedure reads the graph itself. Where no node the search expanded was read short, what it
  // returns is evidence of what the search holds.
  lemma AuditedChainsAreEvidence(res: Result, whole: Table, limit: nat, seen: Table, published: map<Urn, int>, sources: seq<Urn>,
      target: Urn, accepts: Urn -> bool, paths: P.Paths, maxLen: nat, chain: P.Chain)
    requires WellKeyed(whole) && ReadTo(whole, limit, res.sources, seen, res.opts.Depth()) && Answers(res, seen)
    requires AllFit(whole, limit, res.sources, seen, res.opts.Depth())
    requires P.Honest(Question(res, whole), paths, target, maxLen) && maxLen <= res.opts.Depth()
    requires P.FirstShortest(P.Answers(Named(accepts, sources), paths), Some(chain))
    ensures exists a :: (a in sources && P.Connected(Question(res, whole), chain.hops, a, target)
                         && P.IsEvidence(Question(res, whole), published, res.coexistence, chain, a, target))
  {
    SawAllIffFits(whole, limit, res.sources, seen, res.opts.Depth());
    P.ProofPathIsEvidence(Question(res, whole), published, res.coexistence, res.opts.Depth(), sources, target, accepts, paths,
      maxLen, chain);
  }
}
