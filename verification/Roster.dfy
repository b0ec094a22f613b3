// Who holds a key: intersecting what an audit reaches with publish rights (internal/query/audit.go),
// and the same question asked from an account's side (internal/query/who.go).
module Roster {
  import opened Sorting
  import opened Text
  import opened Intervals
  import opened Snapshot
  import opened IntervalSearch
  import opened Packages

  // An account, the packages it could publish to while they were reached, over which spans, and since
  // when it had held any of them.
  datatype Keyholder = Keyholder(handle: string, through: map<string, IntervalSet>, since: int)

  // A MAINTAINS edge: an account's publish rights on one package, and when.
  datatype Tenure = Tenure(handle: string, pkg: string, valid: Interval)

  datatype VersionAttrs = VersionAttrs(urn: Urn, publishedAt: int)

  // A version with no recorded publish time is taken to have existed throughout.
  function Existed(publishedAt: int): Interval {
    if publishedAt <= 0 then ALWAYS else Interval(publishedAt, OPEN_INTERVAL)
  }

  ghost predicate Maintains(tenures: seq<Tenure>, handle: string, pkg: string, t: int) {
    exists k :: 0 <= k < |tenures| && tenures[k].handle == handle && tenures[k].pkg == pkg && tenures[k].valid.Contains(t)
  }

  lemma MaintainsAppend(tenures: seq<Tenure>, x: Tenure, handle: string, pkg: string, t: int)
    ensures Maintains(tenures + [x], handle, pkg, t)
       <==> Maintains(tenures, handle, pkg, t) || (x.handle == handle && x.pkg == pkg && x.valid.Contains(t))
  {
    if Maintains(tenures, handle, pkg, t) {
      var k :| 0 <= k < |tenures| && tenures[k].handle == handle && tenures[k].pkg == pkg && tenures[k].valid.Contains(t);
      assert (tenures + [x])[k] == tenures[k];
    }
    if x.handle == handle && x.pkg == pkg && x.valid.Contains(t) {
      assert (tenures + [x])[|tenures|] == x;
    }
  }

  // An instant at which some version of the package, among those named, is reached.
  ghost predicate HeldAmong(reached: Reached, versions: set<Urn>, pkg: string, t: int) {
    pkg != "" && exists v :: v in versions && Held(reached, v, t) && PackageOf(v) == pkg
  }

  ghost predicate PackageHeld(reached: Reached, pkg: string, t: int) {
    HeldAmong(reached, reached.Keys, pkg, t)
  }

  lemma HeldAmongOneMore(reached: Reached, versions: set<Urn>, v: Urn, pkg: string, t: int)
    ensures HeldAmong(reached, versions + {v}, pkg, t)
       <==> HeldAmong(reached, versions, pkg, t) || (pkg != "" && Held(reached, v, t) && PackageOf(v) == pkg)
  {
    if HeldAmong(reached, versions, pkg, t) {
      var w :| w in versions && Held(reached, w, t) && PackageOf(w) == pkg;
      assert w in versions + {v};
    }
    assert v in versions + {v};
  }

  type Spans = map<string, IntervalSet>

  function SpansAt(spans: Spans, pkg: string): IntervalSet {
    if pkg in spans then spans[pkg] else []
  }

  ghost predicate CanonicalSpans(spans: Spans) {
    forall p :: p in spans ==> Canonical(spans[p])
  }

  method Coexisting(reached: Reached) returns (spans: Spans)
    requires Tidy(reached)
    ensures CanonicalSpans(spans) && spans.Keys == PackagesOf(reached.Keys)
    ensures forall p, t :: Covered(SpansAt(spans, p), t) <==> PackageHeld(reached, p, t)
  {
    spans := map[];
    var left := reached.Keys;
    ghost var done: set<Urn> := {};
    while left != {}
      invariant left !! done && left + done == reached.Keys && CanonicalSpans(spans) && spans.Keys == PackagesOf(done)
      invariant forall p, t :: Covered(SpansAt(spans, p), t) <==> HeldAmong(reached, done, p, t)
    {
      var v :| v in left;
      forall p, t
        ensures HeldAmong(reached, done + {v}, p, t)
           <==> HeldAmong(reached, done, p, t) || (p != "" && Held(reached, v, t) && PackageOf(v) == p)
      {
        HeldAmongOneMore(reached, done, v, p, t);
      }
      left, done := left - {v}, done + {v};
      var pkg := PackageOf(v);
      if pkg != "" {
        var merged := MergeAll(SpansAt(spans, pkg), reached[v]);
        spans := spans[pkg := merged];
      }
    }
    assert done == reached.Keys;
  }

  type ByHandle = map<string, Spans>

  function ThroughAt(byHandle: ByHandle, handle: string): Spans {
    if handle in byHandle then byHandle[handle] else map[]
  }

  // The account could publish to the package, and the package was reached, at one common instant.
  ghost predicate HoldsKey(reached: Reached, tenures: seq<Tenure>, handle: string, pkg: string, t: int) {
    PackageHeld(reached, pkg, t) && Maintains(tenures, handle, pkg, t)
  }

  ghost predicate TidySpans(spans: Spans) {
    forall p :: p in spans ==> Canonical(spans[p]) && spans[p] != []
  }

  // No entry without an instant behind it.
  ghost predicate TidyRoster(byHandle: ByHandle) {
    forall h :: h in byHandle ==> byHandle[h] != map[] && TidySpans(byHandle[h])
  }

  ghost predicate KeyAt(byHandle: ByHandle, handle: string, pkg: string, t: int) {
    Covered(SpansAt(ThroughAt(byHandle, handle), pkg), t)
  }

  // Over which of these spans was the tenure valid, added to what is known, and whether over any.
  method AddHeld(known: IntervalSet, spans: IntervalSet, valid: Interval) returns (out: IntervalSet, met: bool)
    requires Canonical(known)
    ensures Canonical(out) && (!met ==> out == known)
    ensures forall t :: Covered(out, t) <==> Covered(known, t) || (Covered(spans, t) && valid.Contains(t))
    ensures met <==> exists t :: Covered(spans, t) && valid.Contains(t)
  {
    out, met := known, false;
    for k := 0 to |spans|
      invariant Canonical(out) && (!met ==> out == known)
      invariant forall t :: Covered(out, t) <==> Covered(known, t) || (Covered(spans[..k], t) && valid.Contains(t))
      invariant met <==> exists t :: Covered(spans[..k], t) && valid.Contains(t)
    {
      assert spans[..k + 1] == spans[..k] + [spans[k]];
      forall t ensures Covered(spans[..k + 1], t) <==> Covered(spans[..k], t) || spans[k].Contains(t) {
        CoveredAppend(spans[..k], spans[k], t);
      }
      var held := spans[k].Intersect(valid);
      if held.Empty() {
        assert forall t :: !held.Contains(t);
        continue;
      }
      assert held.Contains(held.from);
      assert Covered(spans[..k + 1], held.from) && valid.Contains(held.from);
      var added;
      out, added := Insert(out, held);
      met := true;
    }
    assert spans[..|spans|] == spans;
  }

  // The tenure and some reached span of its package have an instant in common.
  ghost predicate Overlaps(reached: Reached, e: Tenure) {
    exists t :: e.valid.Contains(t) && PackageHeld(reached, e.pkg, t)
  }

  ghost predicate EverHolds(reached: Reached, tenures: seq<Tenure>, handle: string, pkg: string) {
    exists t :: HoldsKey(reached, tenures, handle, pkg, t)
  }

  lemma HoldsKeyAppend(reached: Reached, tenures: seq<Tenure>, e: Tenure, handle: string, pkg: string)
    ensures forall t :: HoldsKey(reached, tenures + [e], handle, pkg, t) <==>
      (HoldsKey(reached, tenures, handle, pkg, t)
       || (PackageHeld(reached, pkg, t) && e.handle == handle && e.pkg == pkg && e.valid.Contains(t)))
    ensures EverHolds(reached, tenures + [e], handle, pkg) <==>
      EverHolds(reached, tenures, handle, pkg) || (e.handle == handle && e.pkg == pkg && Overlaps(reached, e))
  {
    forall t
      ensures HoldsKey(reached, tenures + [e], handle, pkg, t) <==>
        (HoldsKey(reached, tenures, handle, pkg, t)
         || (PackageHeld(reached, pkg, t) && e.handle == handle && e.pkg == pkg && e.valid.Contains(t)))
    {
      MaintainsAppend(tenures, e, handle, pkg, t);
    }
    if EverHolds(reached, tenures, handle, pkg) {
      var t :| HoldsKey(reached, tenures, handle, pkg, t);
      assert HoldsKey(reached, tenures + [e], handle, pkg, t);
    }
    if e.handle == handle && e.pkg == pkg && Overlaps(reached, e) {
      var t :| e.valid.Contains(t) && PackageHeld(reached, e.pkg, t);
      assert HoldsKey(reached, tenures + [e], handle, pkg, t);
    }
  }

  // Who holds which package, and when.
  ghost predicate IsRoster(reached: Reached, tenures: seq<Tenure>, byHandle: ByHandle) {
    TidyRoster(byHandle) && forall h, p, t :: KeyAt(byHandle, h, p, t) <==> HoldsKey(reached, tenures, h, p, t)
  }

  lemma RosterStep(reached: Reached, tenures: seq<Tenure>, e: Tenure, byHandle: ByHandle, held: IntervalSet)
    requires IsRoster(reached, tenures, byHandle) && Canonical(held) && held != []
    requires forall t :: Covered(held, t) <==>
      Covered(SpansAt(ThroughAt(byHandle, e.handle), e.pkg), t) || (PackageHeld(reached, e.pkg, t) && e.valid.Contains(t))
    ensures IsRoster(reached, tenures + [e], byHandle[e.handle := ThroughAt(byHandle, e.handle)[e.pkg := held]])
  {
    var through' := ThroughAt(byHandle, e.handle)[e.pkg := held];
    var byHandle' := byHandle[e.handle := through'];
    assert e.pkg in through' && TidySpans(through');
    forall h, p, t ensures KeyAt(byHandle', h, p, t) <==> HoldsKey(reached, tenures + [e], h, p, t) {
      HoldsKeyAppend(reached, tenures, e, h, p);
      assert KeyAt(byHandle, h, p, t) <==> HoldsKey(reached, tenures, h, p, t);
      if h == e.handle && p == e.pkg {
        assert KeyAt(byHandle', h, p, t) <==> Covered(held, t);
      } else {
        assert KeyAt(byHandle', h, p, t) <==> KeyAt(byHandle, h, p, t);
      }
    }
  }

  lemma RosterStays(reached: Reached, tenures: seq<Tenure>, e: Tenure, byHandle: ByHandle)
    requires IsRoster(reached, tenures, byHandle) && !Overlaps(reached, e)
    ensures IsRoster(reached, tenures + [e], byHandle)
  {
    forall h, p, t ensures KeyAt(byHandle, h, p, t) <==> HoldsKey(reached, tenures + [e], h, p, t) {
      HoldsKeyAppend(reached, tenures, e, h, p);
    }
  }

  type Holders = map<string, set<string>>

  function HoldersAt(holders: Holders, pkg: string): set<string> {
    if pkg in holders then holders[pkg] else {}
  }

  ghost predicate IsHolders(reached: Reached, tenures: seq<Tenure>, holders: Holders) {
    forall h, p :: h in HoldersAt(holders, p) <==> EverHolds(reached, tenures, h, p)
  }

  // A tenure of the account that counts.
  ghost predicate Counts(reached: Reached, tenures: seq<Tenure>, handle: string, k: int) {
    0 <= k < |tenures| && tenures[k].handle == handle && Overlaps(reached, tenures[k])
  }

  // When the first of an account's tenures that count began, which may be before anything was reached.
  ghost predicate IsSince(reached: Reached, tenures: seq<Tenure>, since: map<string, int>) {
    && (forall h, k :: Counts(reached, tenures, h, k) ==> h in since && since[h] <= tenures[k].valid.from)
    && (forall h :: h in since ==> exists k :: Counts(reached, tenures, h, k) && tenures[k].valid.from == since[h])
  }

  lemma HoldersStep(reached: Reached, tenures: seq<Tenure>, e: Tenure, holders: Holders)
    requires IsHolders(reached, tenures, holders)
    ensures IsHolders(reached, tenures + [e],
              if Overlaps(reached, e) then holders[e.pkg := HoldersAt(holders, e.pkg) + {e.handle}] else holders)
  {
    var holders' := if Overlaps(reached, e) then holders[e.pkg := HoldersAt(holders, e.pkg) + {e.handle}] else holders;
    forall h, p ensures h in HoldersAt(holders', p) <==> EverHolds(reached, tenures + [e], h, p) {
      HoldsKeyAppend(reached, tenures, e, h, p);
    }
  }

  function Earlier(since: map<string, int>, e: Tenure): map<string, int> {
    if e.handle !in since || e.valid.from < since[e.handle] then since[e.handle := e.valid.from] else since
  }

  lemma SinceStep(reached: Reached, tenures: seq<Tenure>, e: Tenure, since: map<string, int>)
    requires IsSince(reached, tenures, since)
    ensures IsSince(reached, tenures + [e], if Overlaps(reached, e) then Earlier(since, e) else since)
  {
    var n, all := |tenures|, tenures + [e];
    var since' := if Overlaps(reached, e) then Earlier(since, e) else since;
    forall h, k | Counts(reached, all, h, k) ensures h in since' && since'[h] <= all[k].valid.from {
      if k < n {
        assert Counts(reached, tenures, h, k);
      }
    }
    forall h | h in since' ensures exists k :: Counts(reached, all, h, k) && all[k].valid.from == since'[h] {
      if h in since && since'[h] == since[h] {
        var k :| Counts(reached, tenures, h, k) && tenures[k].valid.from == since[h];
        assert Counts(reached, all, h, k);
      } else {
        assert Counts(reached, all, h, n);
      }
    }
  }

  // What any tenure of a package in the union names, reached at a common instant or not.
  ghost function UnionHandles(tenures: seq<Tenure>, pkgs: set<string>): set<string> {
    set e | e in tenures && e.pkg in pkgs :: e.handle
  }

  // What a pass over the tenures gathers.
  datatype Tally = Tally(byHandle: ByHandle, holders: Holders, since: map<string, int>, unionHandles: set<string>) {
    // A tenure of the package held over some reached span, `held` being all its account has of it now.
    function Met(e: Tenure, held: IntervalSet): Tally {
      Tally(byHandle[e.handle := ThroughAt(byHandle, e.handle)[e.pkg := held]],
            holders[e.pkg := HoldersAt(holders, e.pkg) + {e.handle}], Earlier(since, e), unionHandles)
    }
  }

  // And what it has to show for itself.
  ghost predicate Scanned(reached: Reached, pkgs: set<string>, tenures: seq<Tenure>, x: Tally) {
    && IsRoster(reached, tenures, x.byHandle) && IsHolders(reached, tenures, x.holders) && IsSince(reached, tenures, x.since)
    && x.unionHandles == UnionHandles(tenures, pkgs)
  }

  lemma ScanSkips(reached: Reached, pkgs: set<string>, tenures: seq<Tenure>, e: Tenure, x: Tally)
    requires Scanned(reached, pkgs, tenures, x) && !Overlaps(reached, e)
    ensures Scanned(reached, pkgs, tenures + [e], if e.pkg in pkgs then x.(unionHandles := x.unionHandles + {e.handle}) else x)
  {
    RosterStays(reached, tenures, e, x.byHandle);
    HoldersStep(reached, tenures, e, x.holders);
    SinceStep(reached, tenures, e, x.since);
    UnionHandlesAppend(tenures, e, pkgs);
  }

  lemma ScanMeets(reached: Reached, pkgs: set<string>, tenures: seq<Tenure>, e: Tenure, x: Tally, held: IntervalSet)
    requires Scanned(reached, pkgs, tenures, x) && Overlaps(reached, e) && e.pkg in pkgs
    requires Canonical(held) && forall t :: Covered(held, t) <==>
      Covered(SpansAt(ThroughAt(x.byHandle, e.handle), e.pkg), t) || (PackageHeld(reached, e.pkg, t) && e.valid.Contains(t))
    ensures Scanned(reached, pkgs, tenures + [e], x.(unionHandles := x.unionHandles + {e.handle}).Met(e, held))
  {
    var t :| e.valid.Contains(t) && PackageHeld(reached, e.pkg, t);
    assert Covered(held, t);
    RosterStep(reached, tenures, e, x.byHandle, held);
    HoldersStep(reached, tenures, e, x.holders);
    SinceStep(reached, tenures, e, x.since);
    UnionHandlesAppend(tenures, e, pkgs);
  }

  // One pass over the tenures of the packages in the union.
  method Scan(reached: Reached, pkgs: set<string>, tenures: seq<Tenure>, coexisting: Spans) returns (tally: Tally)
    requires PackagesOf(reached.Keys) <= pkgs
    requires forall p, t :: Covered(SpansAt(coexisting, p), t) <==> PackageHeld(reached, p, t)
    ensures Scanned(reached, pkgs, tenures, tally)
  {
    tally := Tally(map[], map[], map[], {});
    ghost var done: seq<Tenure> := [];
    for k := 0 to |tenures|
      invariant done == tenures[..k] && Scanned(reached, pkgs, done, tally)
    {
      tally := ScanOne(reached, pkgs, done, tenures[k], coexisting, tally);
      done := done + [tenures[k]];
    }
    assert done == tenures;
  }

  method ScanOne(ghost reached: Reached, pkgs: set<string>, ghost done: seq<Tenure>, e: Tenure, coexisting: Spans, tally0: Tally)
      returns (tally: Tally)
    requires PackagesOf(reached.Keys) <= pkgs && Scanned(reached, pkgs, done, tally0)
    requires forall p, t :: Covered(SpansAt(coexisting, p), t) <==> PackageHeld(reached, p, t)
    ensures Scanned(reached, pkgs, done + [e], tally)
  {
    OutsideNeverOverlaps(reached, pkgs, e);
    if e.pkg !in pkgs {
      ScanSkips(reached, pkgs, done, e, tally0);
      return tally0;
    }
    tally := tally0.(unionHandles := tally0.unionHandles + {e.handle});
    var held, met := AddHeld(SpansAt(ThroughAt(tally.byHandle, e.handle), e.pkg), SpansAt(coexisting, e.pkg), e.valid);
    MetIsOverlap(reached, coexisting, e, met);
    if met {
      ScanMeets(reached, pkgs, done, e, tally0, held);
      tally := tally.Met(e, held);
    } else {
      ScanSkips(reached, pkgs, done, e, tally0);
    }
  }

  lemma OutsideNeverOverlaps(reached: Reached, pkgs: set<string>, e: Tenure)
    requires PackagesOf(reached.Keys) <= pkgs
    ensures Overlaps(reached, e) ==> e.pkg in pkgs
  {
    if t :| e.valid.Contains(t) && PackageHeld(reached, e.pkg, t) {
      var v :| v in reached.Keys && Held(reached, v, t) && PackageOf(v) == e.pkg;
      assert e.pkg in PackagesOf(reached.Keys);
    }
  }

  lemma MetIsOverlap(reached: Reached, coexisting: Spans, e: Tenure, met: bool)
    requires forall p, t :: Covered(SpansAt(coexisting, p), t) <==> PackageHeld(reached, p, t)
    requires met <==> exists t :: Covered(SpansAt(coexisting, e.pkg), t) && e.valid.Contains(t)
    ensures met <==> Overlaps(reached, e)
  {
  }

  lemma UnionHandlesAppend(tenures: seq<Tenure>, e: Tenure, pkgs: set<string>)
    ensures UnionHandles(tenures + [e], pkgs) == UnionHandles(tenures, pkgs) + (if e.pkg in pkgs then {e.handle} else {})
  {
    forall h ensures h in UnionHandles(tenures + [e], pkgs) <==> h in UnionHandles(tenures, pkgs) || (e.pkg in pkgs && h == e.handle) {
      if h in UnionHandles(tenures, pkgs) {
        var x :| x in tenures && x.pkg in pkgs && x.handle == h;
        assert x in tenures + [e];
      }
      if e.pkg in pkgs && h == e.handle {
        assert e in tenures + [e];
      }
    }
  }

  predicate WiderReach(a: Keyholder, b: Keyholder) {
    if |a.through| != |b.through| then |a.through| > |b.through| else Before(a.handle, b.handle)
  }

  lemma WiderReachIsWeakOrder(s: seq<Keyholder>)
    ensures WeakOrder(WiderReach, s)
  {
    forall a, b ensures WiderReach(a, b) ==> !WiderReach(b, a) {
      BeforeIsAsymmetric(a.handle, b.handle);
    }
    forall a, b, c ensures !WiderReach(b, a) && !WiderReach(c, b) ==> !WiderReach(c, a) {
      BeforeIsTransitive(a.handle, b.handle, c.handle);
    }
  }

  // The accounts that ever held a key to the package.
  ghost predicate AreHolders(reached: Reached, tenures: seq<Tenure>, pkg: string, who: set<string>) {
    forall h :: h in who <==> EverHolds(reached, tenures, h, pkg)
  }

  // The number of holders per reached package, which may be none.
  ghost predicate AreCounts(reached: Reached, tenures: seq<Tenure>, count: map<string, nat>) {
    && count.Keys == PackagesOf(reached.Keys)
    && forall p :: p in count ==> exists who :: AreHolders(reached, tenures, p, who) && count[p] == |who|
  }

  // The packages of all that was met, whenever.
  method UnionPackages(met: set<Urn>) returns (out: set<string>)
    ensures out == PackagesOf(met)
  {
    out := {};
    var left := met;
    while left != {}
      invariant left <= met && out == PackagesOf(met - left)
    {
      var v :| v in left;
      assert met - (left - {v}) == (met - left) + {v};
      left := left - {v};
      if PackageOf(v) != "" {
        out := out + {PackageOf(v)};
      }
    }
    assert met - left == met;
  }

  // The roster: one keyholder per account with any instant to its name, most packages first. `union`
  // is how many accounts there would be if the instants did not matter.
  method Keyholders(reached: Reached, met: set<Urn>, tenures: seq<Tenure>)
      returns (out: seq<Keyholder>, count: map<string, nat>, union: nat)
    requires Tidy(reached) && reached.Keys <= met
    ensures SortedBy(WiderReach, out) && AreKeyholders(reached, tenures, out)
    ensures AreCounts(reached, tenures, count)
    ensures union == |UnionHandles(tenures, PackagesOf(met))| && |out| <= union
  {
    var coexisting := Coexisting(reached);
    var unionPkgs := UnionPackages(met);
    var tally := Scan(reached, unionPkgs, tenures, coexisting);
    var byHandle, holders, since, unionHandles := tally.byHandle, tally.holders, tally.since, tally.unionHandles;
    SameHandles(reached, tenures, byHandle, since, unionPkgs);
    var rows := RowPerHandle(byHandle, since);
    RowsAreKeyholders(reached, tenures, byHandle, since, rows);
    count := CountHolders(reached, tenures, coexisting.Keys, holders);
    union := |unionHandles|;
    FewerNames(byHandle.Keys, unionHandles);
    WiderReachIsWeakOrder(rows);
    ghost var from;
    out, from := SortSlice(rows, WiderReach);
    Reordered(reached, tenures, rows, out, from);
  }

  // One row for each account that ever holds a key, no account twice, with exactly the instants it does.
  ghost predicate AreKeyholders(reached: Reached, tenures: seq<Tenure>, rows: seq<Keyholder>) {
    && (forall i, j :: 0 <= i < j < |rows| ==> rows[i].handle != rows[j].handle)
    && (forall k :: k in rows ==> IsKeyholder(reached, tenures, k))
    && (forall h, p :: EverHolds(reached, tenures, h, p) ==> exists k :: k in rows && k.handle == h)
  }

  ghost predicate IsKeyholder(reached: Reached, tenures: seq<Tenure>, k: Keyholder) {
    && k.through != map[] && TidySpans(k.through) && IsFirstTenure(reached, tenures, k)
    && forall p, t :: Covered(SpansAt(k.through, p), t) <==> HoldsKey(reached, tenures, k.handle, p, t)
  }

  lemma RowsAreKeyholders(reached: Reached, tenures: seq<Tenure>, byHandle: ByHandle, since: map<string, int>, rows: seq<Keyholder>)
    requires IsRoster(reached, tenures, byHandle) && IsSince(reached, tenures, since) && byHandle.Keys <= since.Keys
    requires forall k :: k in rows <==> k.handle in byHandle && k.through == byHandle[k.handle] && k.since == since[k.handle]
    requires forall i, j :: 0 <= i < j < |rows| ==> rows[i].handle != rows[j].handle
    ensures AreKeyholders(reached, tenures, rows)
  {
    forall k | k in rows ensures IsKeyholder(reached, tenures, k) {
      RowIsKeyholder(reached, tenures, byHandle, since, k);
    }
    forall h, p | EverHolds(reached, tenures, h, p) ensures exists k :: k in rows && k.handle == h {
      HolderHasRow(reached, tenures, byHandle, since, rows, h, p);
    }
  }

  lemma HolderHasRow(reached: Reached, tenures: seq<Tenure>, byHandle: ByHandle, since: map<string, int>, rows: seq<Keyholder>,
      h: string, p: string)
    requires IsRoster(reached, tenures, byHandle) && byHandle.Keys <= since.Keys && EverHolds(reached, tenures, h, p)
    requires forall k :: k in rows <==> k.handle in byHandle && k.through == byHandle[k.handle] && k.since == since[k.handle]
    ensures exists k :: k in rows && k.handle == h
  {
    HolderIsNamed(reached, tenures, byHandle, h, p);
    assert Keyholder(h, byHandle[h], since[h]) in rows;
  }

  lemma HolderIsNamed(reached: Reached, tenures: seq<Tenure>, byHandle: ByHandle, h: string, p: string)
    requires IsRoster(reached, tenures, byHandle) && EverHolds(reached, tenures, h, p)
    ensures h in byHandle
  {
    var t :| HoldsKey(reached, tenures, h, p, t);
    assert KeyAt(byHandle, h, p, t);
  }

  lemma FewerNames(some: set<string>, all: set<string>)
    requires some <= all
    ensures |some| <= |all|
  {
    assert all == some + (all - some);
  }

  // What the union names beyond the roster is the accounts whose rights never met a reach.
  lemma PhantomKeyholders(reached: Reached, tenures: seq<Tenure>, pkgs: set<string>, rows: seq<Keyholder>)
    requires AreKeyholders(reached, tenures, rows) && PackagesOf(reached.Keys) <= pkgs
    ensures |UnionHandles(tenures, pkgs)| - |rows| == |NeverMet(reached, tenures, pkgs)|
  {
    var named, never := UnionHandles(tenures, pkgs), NeverMet(reached, tenures, pkgs);
    var ever := named - never;
    forall k | k in rows ensures k.handle in ever {
      RowIsNamed(reached, tenures, pkgs, k);
    }
    RowsCount(rows, ever);
    assert named == ever + never;
  }

  ghost function NeverMet(reached: Reached, tenures: seq<Tenure>, pkgs: set<string>): set<string> {
    set h | h in UnionHandles(tenures, pkgs) && forall p :: !EverHolds(reached, tenures, h, p)
  }

  lemma RowIsNamed(reached: Reached, tenures: seq<Tenure>, pkgs: set<string>, k: Keyholder)
    requires IsKeyholder(reached, tenures, k) && PackagesOf(reached.Keys) <= pkgs
    ensures k.handle in UnionHandles(tenures, pkgs) && exists p :: EverHolds(reached, tenures, k.handle, p)
  {
    var i :| Counts(reached, tenures, k.handle, i) && tenures[i].valid.from == k.since;
    OutsideNeverOverlaps(reached, pkgs, tenures[i]);
    var t :| tenures[i].valid.Contains(t) && PackageHeld(reached, tenures[i].pkg, t);
    assert HoldsKey(reached, tenures, k.handle, tenures[i].pkg, t);
    assert EverHolds(reached, tenures, k.handle, tenures[i].pkg);
    assert tenures[i] in tenures;
  }

  lemma {:induction false} RowsCount(rows: seq<Keyholder>, names: set<string>)
    requires forall i, j :: 0 <= i < j < |rows| ==> rows[i].handle != rows[j].handle
    requires forall h :: h in names <==> exists k :: k in rows && k.handle == h
    ensures |rows| == |names|
  {
    if rows == [] {
      assert names == {};
    } else {
      var n := |rows| - 1;
      assert rows[n] in rows;
      assert rows == rows[..n] + [rows[n]];
      RowsCount(rows[..n], names - {rows[n].handle});
    }
  }

  // The account's `since` is the start of the earliest of its tenures that count.
  ghost predicate IsFirstTenure(reached: Reached, tenures: seq<Tenure>, k: Keyholder) {
    && (exists i :: Counts(reached, tenures, k.handle, i) && tenures[i].valid.from == k.since)
    && (forall i :: Counts(reached, tenures, k.handle, i) ==> k.since <= tenures[i].valid.from)
  }

  lemma RowIsKeyholder(reached: Reached, tenures: seq<Tenure>, byHandle: ByHandle, since: map<string, int>, k: Keyholder)
    requires IsRoster(reached, tenures, byHandle) && IsSince(reached, tenures, since)
    requires k.handle in byHandle && k.through == byHandle[k.handle] && k.handle in since && k.since == since[k.handle]
    ensures forall p, t :: Covered(SpansAt(k.through, p), t) <==> HoldsKey(reached, tenures, k.handle, p, t)
    ensures IsFirstTenure(reached, tenures, k)
  {
    forall p, t ensures Covered(SpansAt(k.through, p), t) <==> HoldsKey(reached, tenures, k.handle, p, t) {
      assert KeyAt(byHandle, k.handle, p, t) <==> HoldsKey(reached, tenures, k.handle, p, t);
    }
  }

  // Whoever is on the roster has a tenure that counts, and so is among those the union names.
  lemma SameHandles(reached: Reached, tenures: seq<Tenure>, byHandle: ByHandle, since: map<string, int>, pkgs: set<string>)
    requires IsRoster(reached, tenures, byHandle) && IsSince(reached, tenures, since) && PackagesOf(reached.Keys) <= pkgs
    ensures byHandle.Keys <= since.Keys && byHandle.Keys <= UnionHandles(tenures, pkgs)
  {
    forall h | h in byHandle ensures h in since && h in UnionHandles(tenures, pkgs) {
      var p :| p in byHandle[h];
      FirstInstantIsCovered(byHandle[h][p]);
      var t := byHandle[h][p][0].from;
      assert KeyAt(byHandle, h, p, t);
      var k :| 0 <= k < |tenures| && tenures[k].handle == h && tenures[k].pkg == p && tenures[k].valid.Contains(t);
      assert Counts(reached, tenures, h, k);
      OutsideNeverOverlaps(reached, pkgs, tenures[k]);
      assert tenures[k] in tenures;
    }
  }

  lemma Reordered(reached: Reached, tenures: seq<Tenure>, rows: seq<Keyholder>, out: seq<Keyholder>, from: seq<nat>)
    requires AreKeyholders(reached, tenures, rows) && Rearranged(rows, out, from) && forall k :: k in out <==> k in rows
    ensures AreKeyholders(reached, tenures, out)
  {
    forall i, j | 0 <= i < j < |out| ensures out[i].handle != out[j].handle {
      assert from[i] != from[j];
    }
    forall h, p | EverHolds(reached, tenures, h, p) ensures exists k :: k in out && k.handle == h {
      var k :| k in rows && k.handle == h;
      assert k in out;
    }
  }

  method CountHolders(ghost reached: Reached, ghost tenures: seq<Tenure>, pkgs: set<string>, holders: Holders)
      returns (count: map<string, nat>)
    requires IsHolders(reached, tenures, holders) && pkgs == PackagesOf(reached.Keys)
    ensures AreCounts(reached, tenures, count)
  {
    count := map[];
    var left := pkgs;
    while left != {}
      invariant left <= pkgs && count.Keys == pkgs - left
      invariant forall p :: p in count ==> count[p] == |HoldersAt(holders, p)|
    {
      var pkg :| pkg in left;
      left := left - {pkg};
      count := count[pkg := |HoldersAt(holders, pkg)|];
    }
    forall p | p in count ensures exists who :: AreHolders(reached, tenures, p, who) && count[p] == |who| {
      assert AreHolders(reached, tenures, p, HoldersAt(holders, p));
    }
  }

  method RowPerHandle(byHandle: ByHandle, since: map<string, int>) returns (rows: seq<Keyholder>)
    requires byHandle.Keys <= since.Keys
    ensures forall k :: k in rows <==> k.handle in byHandle && k.through == byHandle[k.handle] && k.since == since[k.handle]
    ensures forall i, j :: 0 <= i < j < |rows| ==> rows[i].handle != rows[j].handle
    ensures |rows| == |byHandle|
  {
    rows := [];
    var left := byHandle.Keys;
    while left != {}
      invariant left <= byHandle.Keys && |rows| + |left| == |byHandle.Keys|
      invariant forall k :: k in rows <==>
        k.handle in byHandle && k.handle !in left && k.through == byHandle[k.handle] && k.since == since[k.handle]
      invariant forall i, j :: 0 <= i < j < |rows| ==> rows[i].handle != rows[j].handle
    {
      var h :| h in left;
      left := left - {h};
      assert forall k :: k in rows ==> k.handle != h;
      rows := rows + [Keyholder(h, byHandle[h], since[h])];
    }
  }

  // What an account can publish to: its tenures merged per package, gaps kept.
  method Holdings(tenures: seq<Tenure>, handle: string) returns (spans: Spans)
    ensures CanonicalSpans(spans)
    ensures forall p, t :: Covered(SpansAt(spans, p), t) <==> Maintains(tenures, handle, p, t)
  {
    spans := map[];
    for k := 0 to |tenures|
      invariant CanonicalSpans(spans)
      invariant forall p, t :: Covered(SpansAt(spans, p), t) <==> Maintains(tenures[..k], handle, p, t)
    {
      var e := tenures[k];
      assert tenures[..k + 1] == tenures[..k] + [e];
      ghost var before := spans;
      if e.handle == handle {
        var merged, _ := Insert(SpansAt(spans, e.pkg), e.valid);
        spans := spans[e.pkg := merged];
      }
      forall p, t ensures Covered(SpansAt(spans, p), t) <==> Maintains(tenures[..k + 1], handle, p, t) {
        MaintainsAppend(tenures[..k], e, handle, p, t);
        assert Covered(SpansAt(before, p), t) <==> Maintains(tenures[..k], handle, p, t);
      }
    }
    assert tenures[..|tenures|] == tenures;
  }

  // The seeds of the inward search: versions while they existed and the account held their package.
  ghost predicate Seeded(versions: map<string, seq<VersionAttrs>>, spans: Spans, within: Interval, n: Urn, t: int) {
    exists p :: p in versions && SeedsOf(versions[p], SpansAt(spans, p), within, n, t)
  }

  ghost predicate SeedsOf(vs: seq<VersionAttrs>, spells: IntervalSet, within: Interval, n: Urn, t: int) {
    exists v :: v in vs && SeedAt(v, spells, within, n, t)
  }

  ghost predicate SeedAt(v: VersionAttrs, spells: IntervalSet, within: Interval, n: Urn, t: int) {
    v.urn == n && Existed(v.publishedAt).Contains(t) && Covered(spells, t) && within.Contains(t)
  }

  // One version, once per spell of its package.
  method SeedVersion(v: VersionAttrs, spells: IntervalSet, within: Interval, sources0: seq<Entry>) returns (sources: seq<Entry>)
    ensures forall n, t :: Holds(sources, n, t) <==> (Holds(sources0, n, t) || SeedAt(v, spells, within, n, t))
  {
    sources := sources0;
    for k := 0 to |spells|
      invariant forall n, t :: Holds(sources, n, t) <==> (Holds(sources0, n, t) || SeedAt(v, spells[..k], within, n, t))
    {
      assert spells[..k + 1] == spells[..k] + [spells[k]];
      var live := Existed(v.publishedAt).Intersect(spells[k]).Intersect(within);
      forall n, t
        ensures Covered(spells[..k + 1], t) <==> Covered(spells[..k], t) || spells[k].Contains(t)
        ensures Holds(sources + [Entry(v.urn, live)], n, t) <==> Holds(sources, n, t) || (n == v.urn && live.Contains(t))
      {
        CoveredAppend(spells[..k], spells[k], t);
        HoldsAppend(sources, Entry(v.urn, live), n, t);
      }
      if live.Empty() {
        assert forall t :: !live.Contains(t);
        continue;
      }
      sources := sources + [Entry(v.urn, live)];
    }
    assert spells[..|spells|] == spells;
  }

  method SeedPackage(vs: seq<VersionAttrs>, spells: IntervalSet, within: Interval, sources0: seq<Entry>) returns (sources: seq<Entry>)
    ensures forall n, t :: Holds(sources, n, t) <==> (Holds(sources0, n, t) || SeedsOf(vs, spells, within, n, t))
  {
    sources := sources0;
    for k := 0 to |vs|
      invariant forall n, t :: Holds(sources, n, t) <==> (Holds(sources0, n, t) || SeedsOf(vs[..k], spells, within, n, t))
    {
      assert vs[..k + 1] == vs[..k] + [vs[k]];
      forall n, t
        ensures SeedsOf(vs[..k + 1], spells, within, n, t) <==>
          (SeedsOf(vs[..k], spells, within, n, t) || SeedAt(vs[k], spells, within, n, t))
      {
        if SeedsOf(vs[..k], spells, within, n, t) {
          var v :| v in vs[..k] && SeedAt(v, spells, within, n, t);
          assert v in vs[..k + 1];
        }
        assert vs[k] in vs[..k + 1];
      }
      sources := SeedVersion(vs[k], spells, within, sources);
    }
    assert vs[..|vs|] == vs;
  }

  predicate SourceBefore(a: Entry, b: Entry) {
    if a.urn != b.urn then Before(a.urn, b.urn) else a.valid.from < b.valid.from
  }

  lemma SourceBeforeIsWeakOrder(s: seq<Entry>)
    ensures WeakOrder(SourceBefore, s)
  {
    forall a, b ensures SourceBefore(a, b) ==> !SourceBefore(b, a) {
      BeforeIsAsymmetric(a.urn, b.urn);
    }
    forall a, b, c ensures !SourceBefore(b, a) && !SourceBefore(c, b) ==> !SourceBefore(c, a) {
      BeforeIsTransitive(a.urn, b.urn, c.urn);
      BeforeIsAsymmetric(a.urn, b.urn);
      BeforeIsAsymmetric(b.urn, c.urn);
      BeforeIsAsymmetric(a.urn, c.urn);
    }
  }

  lemma SameEntriesHold(a: seq<Entry>, b: seq<Entry>, n: Urn, t: int)
    requires forall x :: x in a <==> x in b
    ensures Holds(a, n, t) <==> Holds(b, n, t)
  {
    if Holds(a, n, t) {
      var k :| 0 <= k < |a| && a[k].urn == n && a[k].valid.Contains(t);
      assert a[k] in b;
    }
    if Holds(b, n, t) {
      var k :| 0 <= k < |b| && b[k].urn == n && b[k].valid.Contains(t);
      assert b[k] in a;
    }
  }

  // Every version of every held package, as sources of the inward search.
  method VersionSources(versions: map<string, seq<VersionAttrs>>, spans: Spans, within: Interval) returns (sources: seq<Entry>)
    ensures forall n, t :: Holds(sources, n, t) <==> Seeded(versions, spans, within, n, t)
    ensures SortedBy(SourceBefore, sources)
  {
    var found: seq<Entry> := [];
    var left := versions.Keys * spans.Keys;
    while left != {}
      invariant left <= versions.Keys * spans.Keys
      invariant forall n, t :: Holds(found, n, t) <==>
        exists p :: p in versions && p !in left && SeedsOf(versions[p], SpansAt(spans, p), within, n, t)
    {
      var pkg :| pkg in left;
      left := left - {pkg};
      found := SeedPackage(versions[pkg], spans[pkg], within, found);
    }
    SourceBeforeIsWeakOrder(found);
    ghost var from;
    sources, from := SortSlice(found, SourceBefore);
    forall n, t ensures Holds(sources, n, t) <==> Seeded(versions, spans, within, n, t) {
      SameEntriesHold(sources, found, n, t);
    }
  }

  // The pins on pattern that the graph knows, from their publish on.
  method KnownVersions(pins: seq<Urn>, accepts: Urn -> bool, published: map<Urn, int>) returns (sources: seq<Entry>)
    ensures forall n, t :: Holds(sources, n, t) <==>
      (n in pins && accepts(n) && n in published && Existed(published[n]).Contains(t))
    ensures SortedBy(SourceBefore, sources)
  {
    var found: map<Urn, Interval> := map[];
    for k := 0 to |pins|
      invariant forall n :: n in found <==> n in pins[..k] && accepts(n) && n in published
      invariant forall n :: n in found ==> found[n] == Existed(published[n])
    {
      if accepts(pins[k]) && pins[k] in published {
        found := found[pins[k] := Existed(published[pins[k]])];
      }
    }
    var entries: seq<Entry> := [];
    var left := found.Keys;
    while left != {}
      invariant left <= found.Keys
      invariant forall n, t :: Holds(entries, n, t) <==> (n in found && n !in left && found[n].Contains(t))
    {
      var urn :| urn in left;
      left := left - {urn};
      forall n, t
        ensures Holds(entries + [Entry(urn, found[urn])], n, t) <==> Holds(entries, n, t) || (n == urn && found[urn].Contains(t))
      {
        HoldsAppend(entries, Entry(urn, found[urn]), n, t);
      }
      entries := entries + [Entry(urn, found[urn])];
    }
    SourceBeforeIsWeakOrder(entries);
    ghost var from;
    sources, from := SortSlice(entries, SourceBefore);
    forall n, t ensures Holds(sources, n, t) <==> Holds(entries, n, t) {
      SameEntriesHold(sources, entries, n, t);
    }
  }
}
