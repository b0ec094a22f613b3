// What the order a sort leaves open decides about an advisory: boundaries of equal precedence may come in
// any order (internal/advisory/ranges.go).
module SortChoice {
  import opened Sorting
  import opened Semver
  import opened VersionText
  import opened Advisory

  // The event leaves the version affected, or not, whatever came before it.
  predicate Turns(v: Version, b: Boundary, affected: bool) {
    match b.kind
    case Introduced => affected && Compare(v, b.version) >= 0
    case Fixed => !affected && Compare(v, b.version) >= 0
    case LastAffected => !affected && Compare(v, b.version) > 0
  }

  predicate Bears(v: Version, b: Boundary) {
    Turns(v, b, true) || Turns(v, b, false)
  }

  lemma {:induction false} LastToBearDecides(v: Version, bounds: seq<Boundary>, m: nat)
    requires m < |bounds| && Bears(v, bounds[m]) && forall k :: m < k < |bounds| ==> !Bears(v, bounds[k])
    ensures Evaluate(v, bounds) == Turns(v, bounds[m], true)
  {
    if m < |bounds| - 1 {
      LastToBearDecides(v, bounds[..|bounds| - 1], m);
    }
  }

  lemma {:induction false} NoneBearsNoneAffects(v: Version, bounds: seq<Boundary>)
    requires forall k :: 0 <= k < |bounds| ==> !Bears(v, bounds[k])
    ensures !Evaluate(v, bounds)
  {
    if bounds != [] {
      NoneBearsNoneAffects(v, bounds[..|bounds| - 1]);
    }
  }

  lemma {:induction false} LastToBear(v: Version, bounds: seq<Boundary>) returns (m: nat)
    requires exists b :: b in bounds && Bears(v, b)
    ensures m < |bounds| && Bears(v, bounds[m]) && forall k :: m < k < |bounds| ==> !Bears(v, bounds[k])
  {
    var n := |bounds| - 1;
    if Bears(v, bounds[n]) {
      m := n;
    } else {
      var b :| b in bounds && Bears(v, b);
      assert b in bounds[..n];
      m := LastToBear(v, bounds[..n]);
    }
  }

  // Sorting puts it where it may not be read: it has a boundary of equal precedence that is past.
  predicate Skippable(v: Version, bounds: seq<Boundary>, c: Boundary) {
    exists p :: p in bounds && Compare(v, p.version) < 0 && Compare(p.version, c.version) == 0
  }

  // Nothing of higher precedence has to be read after it.
  predicate Decisive(v: Version, bounds: seq<Boundary>, b: Boundary) {
    forall c :: c in bounds && Bears(v, c) && Compare(c.version, b.version) > 0 ==> Skippable(v, bounds, c)
  }

  // A verdict some sorting gives: a boundary that says so can be the last one read, or, for unaffected,
  // none that says anything need be read.
  ghost predicate MayBe(v: Version, bounds: seq<Boundary>, affected: bool) {
    || (exists b :: b in bounds && Turns(v, b, affected) && Decisive(v, bounds, b))
    || (!affected && forall c :: c in bounds && Bears(v, c) ==> Skippable(v, bounds, c))
  }

  ghost predicate Sorts(s: seq<Boundary>, r: seq<Boundary>) {
    multiset(r) == multiset(s) && Ascending(r)
  }

  // ---- no other verdict is given

  lemma PastIsSkipped(v: Version, r: seq<Boundary>, m: nat, j: nat)
    requires Ascending(r) && m < j < |r| && Compare(v, r[m].version) < 0 && Bears(v, r[j])
    ensures Skippable(v, r, r[j])
  {
    CompareStep(v, r[m].version, r[j].version);
    assert Compare(r[m].version, r[j].version) == 0;
    assert r[m] in r;
  }

  lemma SameBoundsSkip(v: Version, r: seq<Boundary>, s: seq<Boundary>, c: Boundary)
    requires multiset(r) == multiset(s) && Skippable(v, r, c)
    ensures Skippable(v, s, c)
  {
    SameMembers(r, s);
    var p :| p in r && Compare(v, p.version) < 0 && Compare(p.version, c.version) == 0;
    assert p in s;
  }

  // Every boundary that bears on the version is read or could have been left out.
  lemma UnreadIsSkippable(v: Version, s: seq<Boundary>, r: seq<Boundary>, j: nat)
    requires Sorts(s, r) && FirstPast(v, r) <= j < |r| && Bears(v, r[j])
    ensures Skippable(v, s, r[j])
  {
    FirstPastIsPast(v, r);
    PastIsSkipped(v, r, FirstPast(v, r), j);
    SameBoundsSkip(v, r, s, r[j]);
  }

  lemma GivenMayBe(v: Version, s: seq<Boundary>, r: seq<Boundary>)
    requires Sorts(s, r)
    ensures MayBe(v, s, Verdict(v, r))
  {
    SameMembers(r, s);
    var m := FirstPast(v, r);
    var read := r[..m];
    if b :| b in read && Bears(v, b) {
      var i := LastToBear(v, read);
      LastToBearDecides(v, read, i);
      assert r[i] in s && Turns(v, r[i], Verdict(v, r));
      forall k | i < k < m ensures !Bears(v, r[k]) {
        assert read[k] == r[k];
      }
      forall c | c in s && Bears(v, c) && Compare(c.version, r[i].version) > 0 ensures Skippable(v, s, c) {
        var j :| 0 <= j < |r| && r[j] == c;
        HigherIsLater(r, i, j);
        UnreadIsSkippable(v, s, r, j);
      }
    } else {
      forall k | 0 <= k < m ensures !Bears(v, read[k]) && !Bears(v, r[k]) {
        assert read[k] in read && read[k] == r[k];
      }
      NoneBearsNoneAffects(v, read);
      forall c | c in s && Bears(v, c) ensures Skippable(v, s, c) {
        var j :| 0 <= j < |r| && r[j] == c;
        UnreadIsSkippable(v, s, r, j);
      }
    }
  }

  lemma HigherIsLater(r: seq<Boundary>, i: nat, j: nat)
    requires Ascending(r) && i < |r| && j < |r| && Compare(r[j].version, r[i].version) > 0
    ensures i < j
  {
    ComparesEqualToItself(r[i].version);
  }

  // ---- and every such verdict is

  // Precedence first, then a rank of our choosing.
  ghost function Ranked(rank: Boundary -> int): (Boundary, Boundary) -> bool {
    (a: Boundary, b: Boundary) => BELOW(a, b) || (!BELOW(b, a) && rank(a) < rank(b))
  }

  lemma RankedIsWeakOrder(s: seq<Boundary>, rank: Boundary -> int)
    requires Sortable(s)
    ensures WeakOrder(Ranked(rank), s)
  {
    var less := Ranked(rank);
    forall a, b, c | a in s && b in s && c in s && !less(b, a) && !less(c, b) ensures !less(c, a) {
      assert !BELOW(b, a) && !BELOW(c, b) && !BELOW(c, a);
      if !BELOW(a, c) {
        assert !BELOW(a, b) && !BELOW(b, c);
      }
    }
  }

  ghost predicate RanksRise(r: seq<Boundary>, rank: Boundary -> int) {
    forall i, j :: 0 <= i < j < |r| && Compare(r[i].version, r[j].version) == 0 ==> rank(r[i]) <= rank(r[j])
  }

  lemma RankedSorting(s: seq<Boundary>, rank: Boundary -> int) returns (r: seq<Boundary>)
    requires Sortable(s)
    ensures Sorts(s, r) && RanksRise(r, rank)
  {
    RankedIsWeakOrder(s, rank);
    r := HasSorting(s, Ranked(rank));
    forall i, j | 0 <= i < j < |r|
      ensures Compare(r[i].version, r[j].version) <= 0
      ensures Compare(r[i].version, r[j].version) == 0 ==> rank(r[i]) <= rank(r[j])
    {
      assert !Ranked(rank)(r[j], r[i]);
      CompareAntisymmetric(r[i].version, r[j].version);
    }
  }

  // What is past comes first in its class, so what it excuses is not read.
  lemma SkippedIsUnread(v: Version, s: seq<Boundary>, r: seq<Boundary>, rank: Boundary -> int, j: nat, p: Boundary)
    requires Sorts(s, r) && j < |r| && p in s && Compare(v, p.version) < 0 && Compare(p.version, r[j].version) == 0
    requires RanksRise(r, rank) && rank(p) < rank(r[j])
    ensures FirstPast(v, r) <= j
  {
    SameMembers(r, s);
    assert p in r;
    var q :| 0 <= q < |r| && r[q] == p;
    CompareAntisymmetric(p.version, r[j].version);
    assert q < j;
    FirstPastAtMost(v, r, q);
  }

  function PastRank(v: Version, c: Boundary): int {
    if Compare(v, c.version) < 0 then 0 else 1
  }

  function PastFirst(v: Version): Boundary -> int {
    c => PastRank(v, c)
  }

  lemma NoneReadIsGiven(v: Version, s: seq<Boundary>) returns (r: seq<Boundary>)
    requires Sortable(s) && forall c :: c in s && Bears(v, c) ==> Skippable(v, s, c)
    ensures Sorts(s, r) && !Verdict(v, r)
  {
    r := RankedSorting(s, PastFirst(v));
    SameMembers(r, s);
    var read := r[..FirstPast(v, r)];
    forall j | 0 <= j < |read| ensures !Bears(v, read[j]) {
      if Bears(v, r[j]) {
        assert r[j] in s;
        var p :| p in s && Compare(v, p.version) < 0 && Compare(p.version, r[j].version) == 0;
        SkippedIsUnread(v, s, r, PastFirst(v), j, p);
      }
    }
    NoneBearsNoneAffects(v, read);
  }

  // In the class of b what is past comes last and b just before it; elsewhere what is past comes first.
  function EndRank(v: Version, b: Boundary, c: Boundary): int {
    if Compare(c.version, b.version) != 0 then PastRank(v, c)
    else if Compare(v, c.version) < 0 then 2
    else if c == b then 1
    else 0
  }

  function EndingAt(v: Version, b: Boundary): Boundary -> int {
    c => EndRank(v, b, c)
  }

  lemma {:induction false} LastIndexOf(s: seq<Boundary>, b: Boundary) returns (i: nat)
    requires b in s
    ensures i < |s| && s[i] == b && forall k :: i < k < |s| ==> s[k] != b
  {
    var n := |s| - 1;
    if s[n] == b {
      i := n;
    } else {
      assert b in s[..n];
      i := LastIndexOf(s[..n], b);
    }
  }

  lemma ReadUpTo(v: Version, r: seq<Boundary>, i: nat, b: Boundary)
    requires Ascending(r) && i < |r| && r[i] == b && Compare(v, b.version) >= 0
    requires RanksRise(r, EndingAt(v, b))
    ensures FirstPast(v, r) > i
  {
    FirstPastIsPast(v, r);
    var m := FirstPast(v, r);
    ComparesEqualToItself(b.version);
    if m < i {
      CompareStep(v, r[m].version, b.version);
    }
  }

  lemma LastReadIsGiven(v: Version, s: seq<Boundary>, b: Boundary, affected: bool) returns (r: seq<Boundary>)
    requires Sortable(s) && b in s && Turns(v, b, affected) && Decisive(v, s, b)
    ensures Sorts(s, r) && Verdict(v, r) == affected
  {
    r := RankedSorting(s, EndingAt(v, b));
    SameMembers(r, s);
    assert b in r;
    var i := LastIndexOf(r, b);
    ReadUpTo(v, r, i, b);
    var read := r[..FirstPast(v, r)];
    forall j | i < j < |read| ensures !Bears(v, read[j]) {
      if Bears(v, r[j]) {
        LaterIsUnread(v, s, r, b, i, j);
      }
    }
    LastToBearDecides(v, read, i);
  }

  lemma LaterIsUnread(v: Version, s: seq<Boundary>, r: seq<Boundary>, b: Boundary, i: nat, j: nat)
    requires Sortable(s) && Sorts(s, r) && i < j < |r| && r[i] == b && r[j] != b && b in s && Decisive(v, s, b) && Bears(v, r[j])
    requires RanksRise(r, EndingAt(v, b)) && Compare(v, b.version) >= 0
    ensures FirstPast(v, r) <= j
  {
    SameMembers(r, s);
    var c := r[j];
    LaterIsHigher(v, r, b, i, j);
    assert c in s;
    var p :| p in s && Compare(v, p.version) < 0 && Compare(p.version, c.version) == 0;
    CompareAntisymmetric(b.version, c.version);
    OtherClass(s, b, c, p);
    RanksElsewhere(v, b, p, c);
    SkippedIsUnread(v, s, r, EndingAt(v, b), j, p);
  }

  lemma RanksElsewhere(v: Version, b: Boundary, p: Boundary, c: Boundary)
    requires Compare(p.version, b.version) != 0 && Compare(c.version, b.version) != 0
    requires Compare(v, p.version) < 0 && Bears(v, c)
    ensures EndingAt(v, b)(p) < EndingAt(v, b)(c)
  {
  }

  lemma LaterIsHigher(v: Version, r: seq<Boundary>, b: Boundary, i: nat, j: nat)
    requires Ascending(r) && i < j < |r| && r[i] == b && r[j] != b && Bears(v, r[j])
    requires RanksRise(r, EndingAt(v, b)) && Compare(v, b.version) >= 0
    ensures Compare(r[j].version, b.version) > 0
  {
    ComparesEqualToItself(b.version);
    CompareAntisymmetric(b.version, r[j].version);
  }

  lemma OtherClass(s: seq<Boundary>, b: Boundary, c: Boundary, p: Boundary)
    requires Sortable(s) && b in s && c in s && p in s
    requires Compare(b.version, c.version) != 0 && Compare(p.version, c.version) == 0
    ensures Compare(p.version, b.version) != 0 && Compare(c.version, b.version) != 0
  {
    CompareAntisymmetric(p.version, c.version);
    CompareAntisymmetric(p.version, b.version);
    CompareAntisymmetric(b.version, c.version);
    assert !BELOW(p, c) && !BELOW(c, p) && (BELOW(b, c) || BELOW(c, b));
    assert Compare(p.version, b.version) == 0 ==> !BELOW(b, p) && !BELOW(p, b);
  }

  // Exactly which verdicts the order that the sort leaves open can give.
  lemma VerdictIsPossibleIff(v: Version, s: seq<Boundary>, affected: bool)
    requires Sortable(s)
    ensures (exists r :: Sorts(s, r) && Verdict(v, r) == affected) <==> MayBe(v, s, affected)
  {
    if r :| Sorts(s, r) && Verdict(v, r) == affected {
      GivenMayBe(v, s, r);
    }
    if b :| b in s && Turns(v, b, affected) && Decisive(v, s, b) {
      var r := LastReadIsGiven(v, s, b, affected);
    } else if MayBe(v, s, affected) {
      var r := NoneReadIsGiven(v, s);
    }
  }

  // Where ties are at one version: of the highest boundaries that bear on it, one introduces and
  // another of equal precedence ends.
  ghost predicate Disputed(v: Version, bounds: seq<Boundary>) {
    exists a, b :: a in bounds && b in bounds && Turns(v, a, true) && Turns(v, b, false)
      && Compare(a.version, b.version) == 0 && forall c :: c in bounds && Bears(v, c) ==> Compare(c.version, a.version) <= 0
  }

  lemma SortChoiceMattersIff(v: Version, s: seq<Boundary>)
    requires TiesAgree(s)
    ensures (MayBe(v, s, true) && MayBe(v, s, false)) <==> Disputed(v, s)
  {
    forall c | c in s && Bears(v, c) ensures !Skippable(v, s, c) {
    }
    if MayBe(v, s, true) && MayBe(v, s, false) {
      BothAreDisputed(v, s);
    }
    if Disputed(v, s) {
      var a, b :| a in s && b in s && Turns(v, a, true) && Turns(v, b, false)
        && Compare(a.version, b.version) == 0 && forall c :: c in s && Bears(v, c) ==> Compare(c.version, a.version) <= 0;
      forall c | c in s && Bears(v, c) ensures Compare(c.version, b.version) <= 0 {
        SameBoundsCompare(s, c, a, b);
      }
      assert Decisive(v, s, a) && Decisive(v, s, b);
    }
  }

  lemma BothAreDisputed(v: Version, s: seq<Boundary>)
    requires MayBe(v, s, true) && MayBe(v, s, false) && forall c :: c in s && Bears(v, c) ==> !Skippable(v, s, c)
    ensures Disputed(v, s)
  {
    var a :| a in s && Turns(v, a, true) && Decisive(v, s, a);
    assert Bears(v, a);
    var b :| b in s && Turns(v, b, false) && Decisive(v, s, b);
    DecisiveIsForemost(v, s, a);
    DecisiveIsForemost(v, s, b);
    CompareAntisymmetric(a.version, b.version);
  }

  lemma DecisiveIsForemost(v: Version, s: seq<Boundary>, a: Boundary)
    requires Decisive(v, s, a) && forall c :: c in s && Bears(v, c) ==> !Skippable(v, s, c)
    ensures forall c :: c in s && Bears(v, c) ==> Compare(c.version, a.version) <= 0
  {
  }

  // End to end: a release that parses can be returned exactly when affected is a verdict some sorting
  // gives it, and can be left out exactly when unaffected is.
  lemma ReleaseMayBeReturnedIff(events: seq<Event>, releases: seq<string>, r: string, affected: bool)
    requires Sortable(BoundsOf(events)) && r in releases && Parse(r).Some?
    ensures (exists out :: Answers(events, releases, out) && (r in out) == affected)
       <==> MayBe(Parse(r).value, BoundsOf(events), affected)
  {
    var v, s := Parse(r).value, BoundsOf(events);
    VerdictIsPossibleIff(v, s, affected);
    if out :| Answers(events, releases, out) && (r in out) == affected {
      var bounds :| multiset(bounds) == multiset(s) && Ascending(bounds) && out == AffectedAmong(releases, bounds);
      AmongAffected(releases, bounds, r);
      assert Sorts(s, bounds);
    }
    if bounds :| Sorts(s, bounds) && Verdict(v, bounds) == affected {
      AmongAffected(releases, bounds, r);
      assert Answers(events, releases, AffectedAmong(releases, bounds));
    }
  }
}
