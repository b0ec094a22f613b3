// Which releases an OSV range affects (internal/advisory/ranges.go).
module Advisory {
  import opened Wrappers
  import opened Sorting
  import opened Semver
  import opened VersionText
  import opened SemverRange

  datatype Kind = Introduced | Fixed | LastAffected

  datatype Boundary = Boundary(version: Version, kind: Kind)

  // One step of the "Evaluation" section of the OSV schema, which looks at every event.
  function Step(v: Version, b: Boundary, affected: bool): bool {
    match b.kind
    case Introduced => if Compare(v, b.version) >= 0 then true else affected
    case Fixed => if Compare(v, b.version) >= 0 then false else affected
    case LastAffected => if Compare(v, b.version) > 0 then false else affected
  }

  function Evaluate(v: Version, bounds: seq<Boundary>): bool {
    if bounds == [] then false else Step(v, bounds[|bounds| - 1], Evaluate(v, bounds[..|bounds| - 1]))
  }

  // Versions over these identifiers, no number among them spelled in two ways.
  ghost predicate Comparable(idents: iset<string>, bounds: seq<Boundary>) {
    OneSpelling(idents) && forall b :: b in bounds ==> Over(idents, b.version.pre)
  }

  ghost predicate Ascending(bounds: seq<Boundary>) {
    forall i, j :: 0 <= i < j < |bounds| ==> Compare(bounds[i].version, bounds[j].version) <= 0
  }

  ghost predicate StrictlyAscending(bounds: seq<Boundary>) {
    forall i, j :: 0 <= i < j < |bounds| ==> Compare(bounds[i].version, bounds[j].version) < 0
  }

  // No event lets a version through that an earlier one holds back.
  predicate NoneOvertakes(bounds: seq<Boundary>) {
    forall i, j :: 0 <= i < j < |bounds| ==> !Overtakes(bounds[i].version, bounds[j].version)
  }

  // Being past one event is then being past all that follow, which so change nothing.
  lemma {:induction false} LaterEventsDoNothing(v: Version, bounds: seq<Boundary>, k: nat, n: nat)
    requires k < n <= |bounds| && Compare(v, bounds[k].version) < 0 && Ascending(bounds) && NoneOvertakes(bounds)
    ensures Evaluate(v, bounds[..n]) == Evaluate(v, bounds[..k])
  {
    var last := n - 1;
    assert bounds[..n][..last] == bounds[..last];
    if k < last {
      LaterEventsDoNothing(v, bounds, k, last);
      BetweenIffOvertakes(bounds[k].version, bounds[last].version);
    }
    assert Compare(v, bounds[last].version) < 0;
  }

  // Where the walk stops: at the first event past the version.
  function FirstPast(v: Version, bounds: seq<Boundary>): (k: nat)
    ensures k <= |bounds|
  {
    if bounds == [] || Compare(v, bounds[0].version) < 0 then 0 else 1 + FirstPast(v, bounds[1..])
  }

  lemma {:induction false} FirstPastIs(v: Version, bounds: seq<Boundary>, k: nat)
    requires k <= |bounds| && forall i :: 0 <= i < k ==> Compare(v, bounds[i].version) >= 0
    requires k < |bounds| ==> Compare(v, bounds[k].version) < 0
    ensures FirstPast(v, bounds) == k
  {
    if k > 0 {
      FirstPastIs(v, bounds[1..], k - 1);
    }
  }

  function Verdict(v: Version, bounds: seq<Boundary>): bool {
    Evaluate(v, bounds[..FirstPast(v, bounds)])
  }

  // The walk gives the verdict of the events up to there.
  method IsAffected(v: Version, bounds: seq<Boundary>) returns (affected: bool)
    ensures affected == Verdict(v, bounds)
  {
    affected := false;
    for k := 0 to |bounds|
      invariant affected == Evaluate(v, bounds[..k])
      invariant forall i :: 0 <= i < k ==> Compare(v, bounds[i].version) >= 0
    {
      var b := bounds[k];
      assert bounds[..k + 1][..k] == bounds[..k];
      var c := Compare(v, b.version);
      if c < 0 {
        FirstPastIs(v, bounds, k);
        return;
      }
      match b.kind {
        case Introduced => affected := true;
        case Fixed => affected := false;
        case LastAffected =>
          if c > 0 {
            affected := false;
          }
      }
    }
    FirstPastIs(v, bounds, |bounds|);
  }

  lemma {:induction false} FirstPastIsPast(v: Version, bounds: seq<Boundary>)
    ensures FirstPast(v, bounds) < |bounds| ==> Compare(v, bounds[FirstPast(v, bounds)].version) < 0
  {
    if bounds != [] && Compare(v, bounds[0].version) >= 0 {
      FirstPastIsPast(v, bounds[1..]);
    }
  }

  // Stopping there gives the verdict of every event.
  lemma VerdictIsEvaluation(v: Version, bounds: seq<Boundary>)
    requires Ascending(bounds) && NoneOvertakes(bounds)
    ensures Verdict(v, bounds) == Evaluate(v, bounds)
  {
    FirstPastIsPast(v, bounds);
    assert bounds[..|bounds|] == bounds;
    if FirstPast(v, bounds) < |bounds| {
      LaterEventsDoNothing(v, bounds, FirstPast(v, bounds), |bounds|);
    }
  }

  // Boundaries of equal precedence are at one version.
  ghost predicate TiesAgree(bounds: seq<Boundary>) {
    forall a, b :: a in bounds && b in bounds && Compare(a.version, b.version) == 0 ==>
      a.version.(build := "") == b.version.(build := "")
  }

  lemma TiesAgreeNeverOvertakes(bounds: seq<Boundary>)
    requires TiesAgree(bounds)
    ensures NoneOvertakes(bounds)
  {
    forall i, j | 0 <= i < j < |bounds| ensures !Overtakes(bounds[i].version, bounds[j].version) {
      if Overtakes(bounds[i].version, bounds[j].version) {
        TiesInTwoSpellings(bounds[i].version.pre, bounds[j].version.pre);
      }
    }
  }

  lemma {:induction false} TiesInTwoSpellings(a: seq<string>, b: seq<string>)
    requires Outruns(a, b)
    ensures CompareLists(a, b) == 0 && a != b
  {
    if a[0] == b[0] {
      TiesInTwoSpellings(a[1..], b[1..]);
    }
  }

  // Versions told apart by precedence agree, and so do versions that spell no number in two ways.
  lemma StrictTiesAgree(bounds: seq<Boundary>)
    requires StrictlyAscending(bounds)
    ensures Ascending(bounds) && TiesAgree(bounds)
  {
    forall i, j | 0 <= i < |bounds| && 0 <= j < |bounds| && Compare(bounds[i].version, bounds[j].version) == 0 ensures i == j {
      CompareAntisymmetric(bounds[i].version, bounds[j].version);
    }
  }

  lemma ComparableTiesAgree(idents: iset<string>, bounds: seq<Boundary>)
    requires Comparable(idents, bounds)
    ensures TiesAgree(bounds)
  {
    forall a, b | a in bounds && b in bounds && Compare(a.version, b.version) == 0
      ensures a.version.(build := "") == b.version.(build := "")
    {
      CompareZero(idents, a.version, b.version);
    }
  }

  // The kinds of events that show it: nothing introduced before the j-th.
  function FromOn(versions: seq<Version>, j: nat): seq<Boundary> {
    seq(|versions|, k requires 0 <= k < |versions| => Boundary(versions[k], if k < j then Fixed else Introduced))
  }

  ghost predicate Rising(versions: seq<Version>) {
    forall i, j :: 0 <= i < j < |versions| ==> Compare(versions[i], versions[j]) <= 0
  }

  ghost predicate PlacedAt(bounds: seq<Boundary>, versions: seq<Version>) {
    |bounds| == |versions| && forall k :: 0 <= k < |versions| ==> bounds[k].version == versions[k]
  }

  lemma {:induction false} OnlyFixed(v: Version, bounds: seq<Boundary>)
    requires forall b :: b in bounds ==> b.kind == Fixed
    ensures !Evaluate(v, bounds)
  {
    if bounds != [] {
      assert bounds[|bounds| - 1] in bounds;
      OnlyFixed(v, bounds[..|bounds| - 1]);
    }
  }

  lemma {:induction false} IntroducedStays(v: Version, versions: seq<Version>, j: nat, n: nat)
    requires j < n <= |versions| && Compare(v, versions[j]) >= 0
    ensures Evaluate(v, FromOn(versions, j)[..n])
  {
    var bounds, last := FromOn(versions, j), n - 1;
    assert bounds[..n][..last] == bounds[..last] && bounds[..n][last] == Boundary(versions[last], Introduced);
    if j < last {
      IntroducedStays(v, versions, j, last);
    }
  }

  lemma {:induction false} FirstPastAtMost(v: Version, bounds: seq<Boundary>, i: nat)
    requires i < |bounds| && Compare(v, bounds[i].version) < 0
    ensures FirstPast(v, bounds) <= i
  {
    if i > 0 && Compare(v, bounds[0].version) >= 0 {
      FirstPastAtMost(v, bounds[1..], i - 1);
    }
  }

  lemma OvertakenIsMissed(versions: seq<Version>, i: nat, j: nat) returns (v: Version)
    requires Rising(versions) && i < j < |versions| && Overtakes(versions[i], versions[j])
    ensures !Verdict(v, FromOn(versions, j)) && Evaluate(v, FromOn(versions, j))
  {
    var bounds := FromOn(versions, j);
    BetweenIffOvertakes(versions[i], versions[j]);
    v :| Compare(v, versions[i]) < 0 && Compare(v, versions[j]) >= 0;
    FirstPastAtMost(v, bounds, i);
    OnlyFixed(v, bounds[..FirstPast(v, bounds)]);
    IntroducedStays(v, versions, j, |versions|);
    assert bounds[..|versions|] == bounds;
  }

  // Events at these versions, of whatever kinds, may be left unread past the first that a version
  // falls short of, exactly when none overtakes another.
  lemma StoppingIsSafeIff(versions: seq<Version>)
    requires Rising(versions)
    ensures (forall bounds, v :: PlacedAt(bounds, versions) ==> Verdict(v, bounds) == Evaluate(v, bounds))
       <==> (forall i, j :: 0 <= i < j < |versions| ==> !Overtakes(versions[i], versions[j]))
  {
    if i, j :| 0 <= i < j < |versions| && Overtakes(versions[i], versions[j]) {
      var v := OvertakenIsMissed(versions, i, j);
      assert PlacedAt(FromOn(versions, j), versions);
    } else {
      forall bounds, v | PlacedAt(bounds, versions) ensures Verdict(v, bounds) == Evaluate(v, bounds) {
        VerdictIsEvaluation(v, bounds);
      }
    }
  }

  // Otherwise events are missed: here the second is no further than the version, though the first,
  // which sorts before it, is past.
  lemma StoppingEarlyMisses(x: string, y: string)
    requires x != y && NumericIdent(x).Some? && NumericIdent(x) == NumericIdent(y)
    ensures var v := ZERO.(pre := [x, "a"]);
      var bounds := [Boundary(ZERO.(pre := [x, "b"]), Introduced), Boundary(ZERO.(pre := [y, "c"]), Introduced)];
      Ascending(bounds) && !Verdict(v, bounds) && Evaluate(v, bounds)
  {
    var v := ZERO.(pre := [x, "a"]);
    var bounds := [Boundary(ZERO.(pre := [x, "b"]), Introduced), Boundary(ZERO.(pre := [y, "c"]), Introduced)];
    LeadingZeroesBreakTheOrder(x, y);
    CompareAntisymmetric(v, bounds[0].version);
    assert Compare(v, bounds[1].version) == 0;
    FirstPastIs(v, bounds, 0);
  }

  // Introduced and fixed in turn, at distinct versions.
  ghost predicate Alternating(bounds: seq<Boundary>) {
    && (forall i :: 0 <= i < |bounds| ==> bounds[i].kind == if i % 2 == 0 then Introduced else Fixed)
    && StrictlyAscending(bounds)
  }

  // From one introduction up to, and not including, the fix that follows it if any.
  ghost predicate WithinSpan(v: Version, bounds: seq<Boundary>, i: nat)
    requires i < |bounds|
  {
    i % 2 == 0 && Compare(v, bounds[i].version) >= 0 && (i + 1 < |bounds| ==> Compare(v, bounds[i + 1].version) < 0)
  }

  lemma EarlierAreBelow(v: Version, bounds: seq<Boundary>, i: nat, j: nat)
    requires i < j < |bounds| && Alternating(bounds)
    requires Compare(v, bounds[j].version) >= 0
    ensures Compare(v, bounds[i].version) >= 0
  {
    CompareAntisymmetric(v, bounds[j].version);
    CompareAntisymmetric(v, bounds[i].version);
    CompareStep(bounds[i].version, bounds[j].version, v);
  }

  ghost predicate WithinSome(v: Version, bounds: seq<Boundary>) {
    exists i: nat :: i < |bounds| && WithinSpan(v, bounds, i)
  }

  lemma {:induction false} AffectedIsUnionOfSpans(v: Version, bounds: seq<Boundary>)
    requires Alternating(bounds)
    ensures Evaluate(v, bounds) <==> WithinSome(v, bounds)
  {
    if bounds != [] {
      AffectedIsUnionOfSpans(v, bounds[..|bounds| - 1]);
      LastDecides(v, bounds);
    }
  }

  lemma LastDecides(v: Version, bounds: seq<Boundary>)
    requires bounds != [] && Alternating(bounds)
    ensures var last := |bounds| - 1;
      WithinSome(v, bounds) <==>
        if Compare(v, bounds[last].version) >= 0 then last % 2 == 0 else WithinSome(v, bounds[..last])
  {
    var last := |bounds| - 1;
    var head := bounds[..last];
    if Compare(v, bounds[last].version) >= 0 {
      forall i: nat | i < last ensures !WithinSpan(v, bounds, i) {
        if i + 1 < last {
          EarlierAreBelow(v, bounds, i + 1, last);
        }
      }
      assert WithinSpan(v, bounds, last) <==> last % 2 == 0;
    } else {
      forall i: nat | i < last ensures WithinSpan(v, bounds, i) <==> WithinSpan(v, head, i) {
        assert i + 1 < last ==> bounds[i + 1] == head[i + 1];
      }
      assert !WithinSpan(v, bounds, last);
    }
  }

  // At distinct versions there is only one order to sort the events into, so the order they are
  // published in does not matter.
  lemma SortIsForced(a: seq<Boundary>, b: seq<Boundary>)
    requires multiset(a) == multiset(b)
    requires StrictlyAscending(a) && StrictlyAscending(b)
    ensures a == b
  {
    var less := (x: Boundary, y: Boundary) => Compare(x.version, y.version) < 0;
    forall x: Boundary, y: Boundary ensures less(x, y) ==> !less(y, x) {
      CompareAntisymmetric(x.version, y.version);
    }
    StrictOrderIsUnique(less, a, b);
  }

  // The sentinel "0" stands for 0.0.0, so it misses exactly the prereleases of 0.0.0.
  lemma ZeroIsNotTheBeginning(v: Version)
    ensures Evaluate(v, [Boundary(ZERO, Introduced)]) <==> !(SameTriple(v, ZERO) && v.pre != [])
  {
    assert [Boundary(ZERO, Introduced)][..0] == [];
  }

  // One event of a range, as read: the first field that is set says what it is.
  datatype Event = Event(introduced: string, fixed: string, lastAffected: string)

  function BoundaryOf(e: Event): Option<Boundary> {
    if e.introduced != "" then
      if e.introduced == "0" then Some(Boundary(ZERO, Introduced)) else At(Parse(e.introduced), Introduced)
    else if e.fixed != "" then At(Parse(e.fixed), Fixed)
    else if e.lastAffected != "" then At(Parse(e.lastAffected), LastAffected)
    else None
  }

  function At(v: Option<Version>, kind: Kind): Option<Boundary> {
    match v
    case None => None
    case Some(version) => Some(Boundary(version, kind))
  }

  function BoundsOf(events: seq<Event>): seq<Boundary> {
    if events == [] then []
    else
      BoundsOf(events[..|events| - 1]) +
      match BoundaryOf(events[|events| - 1])
      case None => []
      case Some(b) => [b]
  }

  function Hits(bounds: seq<Boundary>): string -> bool {
    r => Parse(r).Some? && Verdict(Parse(r).value, bounds)
  }

  function Kept(releases: seq<string>, hit: string -> bool): seq<string> {
    if releases == [] then []
    else
      var head, last := Kept(releases[..|releases| - 1], hit), releases[|releases| - 1];
      if hit(last) then head + [last] else head
  }

  // Released versions that parse and are affected, in the order given.
  function AffectedAmong(releases: seq<string>, bounds: seq<Boundary>): seq<string> {
    Kept(releases, Hits(bounds))
  }

  // The events of the range, sorted one way or another, and the releases they affect.
  ghost predicate Answers(events: seq<Event>, releases: seq<string>, out: seq<string>) {
    exists bounds :: multiset(bounds) == multiset(BoundsOf(events)) && (Sortable(BoundsOf(events)) ==> Ascending(bounds))
      && out == AffectedAmong(releases, bounds)
  }

  method AffectedVersions(kind: string, events: seq<Event>, releases: seq<string>) returns (out: seq<string>)
    ensures kind == "GIT" ==> out == []
    ensures kind != "GIT" ==> Answers(events, releases, out)
  {
    out := [];
    if kind == "GIT" {
      return;
    }
    var raw := ReadBounds(events);
    if raw == [] {
      NoneKept(releases, Hits(raw));
      assert Ascending(raw) && AffectedAmong(releases, raw) == out;
      return;
    }
    var bounds := SortBounds(raw);
    out := KeepAffected(releases, bounds);
  }

  method ReadBounds(events: seq<Event>) returns (raw: seq<Boundary>)
    ensures raw == BoundsOf(events)
  {
    raw := [];
    for k := 0 to |events|
      invariant raw == BoundsOf(events[..k])
    {
      assert events[..k + 1][..k] == events[..k];
      var b := BoundaryOf(events[k]);
      if b.Some? {
        raw := raw + [b.value];
      }
    }
    assert events[..|events|] == events;
  }

  method KeepAffected(releases: seq<string>, bounds: seq<Boundary>) returns (out: seq<string>)
    ensures out == AffectedAmong(releases, bounds)
  {
    out := [];
    for k := 0 to |releases|
      invariant out == Kept(releases[..k], Hits(bounds))
    {
      assert releases[..k + 1][..k] == releases[..k];
      var v := Parse(releases[k]);
      if v == None {
        continue;
      }
      var hit := IsAffected(v.value, bounds);
      if hit {
        out := out + [releases[k]];
      }
    }
    assert releases[..|releases|] == releases;
  }

  lemma {:induction false} InKept(releases: seq<string>, hit: string -> bool, r: string)
    ensures r in Kept(releases, hit) <==> r in releases && hit(r)
  {
    if releases != [] {
      var n := |releases| - 1;
      InKept(releases[..n], hit, r);
      assert r in releases <==> r in releases[..n] || r == releases[n];
    }
  }

  lemma {:induction false} NoneKept(releases: seq<string>, hit: string -> bool)
    requires forall r :: !hit(r)
    ensures Kept(releases, hit) == []
  {
    if releases != [] {
      NoneKept(releases[..|releases| - 1], hit);
    }
  }

  lemma AmongAffected(releases: seq<string>, bounds: seq<Boundary>, r: string)
    ensures r in AffectedAmong(releases, bounds) <==> r in releases && Parse(r).Some? && Verdict(Parse(r).value, bounds)
  {
    InKept(releases, Hits(bounds), r);
  }

  // Any sorting of events that can be told apart is strict.
  lemma SortedIsStrict(a: seq<Boundary>, sorted: seq<Boundary>)
    requires multiset(a) == multiset(sorted) && Ascending(sorted)
    requires StrictlyAscending(a)
    ensures StrictlyAscending(sorted)
  {
    forall i, j | 0 <= i < j < |sorted|
      ensures Compare(sorted[i].version, sorted[j].version) < 0
    {
      assert sorted[i] in multiset(a) && sorted[j] in multiset(a);
      var x :| 0 <= x < |a| && a[x] == sorted[i];
      var y :| 0 <= y < |a| && a[y] == sorted[j];
      CompareAntisymmetric(a[x].version, a[y].version);
      if x == y {
        forall z | 0 <= z < |a| && z != x ensures a[z] != a[x] {
          CompareAntisymmetric(a[x].version, a[x].version);
          assert if z < x then Compare(a[z].version, a[x].version) < 0 else Compare(a[x].version, a[z].version) < 0;
        }
        TwiceInMultiset(sorted, i, j);
        OnceInMultiset(a, x);
        assert false;
      }
    }
  }

  // End to end: when the events, however published, are introductions and fixes in turn, a release is
  // affected exactly when it lies in one of the half-open spans between them.
  lemma AffectedReleases(events: seq<Event>, releases: seq<string>, out: seq<string>, spans: seq<Boundary>, r: string)
    requires Answers(events, releases, out)
    requires multiset(spans) == multiset(BoundsOf(events)) && Alternating(spans)
    ensures r in out <==> r in releases && Parse(r).Some? && WithinSome(Parse(r).value, spans)
  {
    DistinctIsSortable(BoundsOf(events), spans);
    var bounds :| multiset(bounds) == multiset(BoundsOf(events)) && Ascending(bounds) && out == AffectedAmong(releases, bounds);
    SortedIsStrict(spans, bounds);
    SortIsForced(spans, bounds);
    AmongAffected(releases, bounds, r);
    StrictTiesAgree(bounds);
    TiesAgreeNeverOvertakes(bounds);
    if Parse(r).Some? {
      VerdictIsEvaluation(Parse(r).value, bounds);
      AffectedIsUnionOfSpans(Parse(r).value, spans);
    }
  }

  const BELOW: (Boundary, Boundary) -> bool := (a: Boundary, b: Boundary) => Compare(a.version, b.version) < 0

  // What sort.Slice asks of the comparison it is given.
  ghost predicate Sortable(bounds: seq<Boundary>) {
    WeakOrder(BELOW, bounds)
  }

  // Boundaries whose ties are at one version can be sorted.
  lemma TiesAgreeIsSortable(bounds: seq<Boundary>)
    requires TiesAgree(bounds)
    ensures Sortable(bounds)
  {
    forall a: Boundary, b: Boundary ensures BELOW(a, b) ==> !BELOW(b, a) {
      CompareAntisymmetric(a.version, b.version);
    }
    forall a, b, c | a in bounds && b in bounds && c in bounds && !BELOW(b, a) && !BELOW(c, b) ensures !BELOW(c, a) {
      CompareAntisymmetric(a.version, b.version);
      CompareAntisymmetric(b.version, c.version);
      CompareAntisymmetric(a.version, c.version);
      CompareStep(a.version, b.version, c.version);
      SameBoundsCompare(bounds, a, b, c);
    }
  }

  lemma SameBoundsCompare(bounds: seq<Boundary>, a: Boundary, b: Boundary, c: Boundary)
    requires TiesAgree(bounds) && a in bounds && b in bounds && c in bounds
    ensures Compare(a.version, b.version) == 0 ==> Compare(a.version, c.version) == Compare(b.version, c.version)
    ensures Compare(b.version, c.version) == 0 ==> Compare(a.version, b.version) == Compare(a.version, c.version)
  {
  }

  lemma DistinctIsSortable(bounds: seq<Boundary>, sorted: seq<Boundary>)
    requires multiset(bounds) == multiset(sorted) && StrictlyAscending(sorted)
    ensures Sortable(bounds)
  {
    SameMembers(bounds, sorted);
    StrictTiesAgree(sorted);
    TiesAgreeIsSortable(bounds);
  }

  // Where precedence is no order of the boundaries they come back in some order or other.
  method SortBounds(raw: seq<Boundary>) returns (sorted: seq<Boundary>)
    ensures multiset(sorted) == multiset(raw)
    ensures Sortable(raw) ==> Ascending(sorted)
  {
    ghost var from;
    sorted, from := SortSlice(raw, BELOW);
    forall i, j | Sortable(raw) && 0 <= i < j < |sorted| ensures Compare(sorted[i].version, sorted[j].version) <= 0 {
      assert !BELOW(sorted[j], sorted[i]);
      CompareAntisymmetric(sorted[i].version, sorted[j].version);
    }
  }
}
