// Resolution windows (internal/resolve/windows.go): the spans over which "install the highest version
// the range admits among those published so far" gives one answer.
module ResolutionWindows {
  import opened Wrappers
  import opened Sorting
  import opened Intervals
  import opened Semver
  import opened VersionText
  import opened SemverRange
  import opened Timeline

  datatype Release = Release(version: string, publishedAt: int)

  // The order the sweep runs on.
  const PRECEDENCE: (Version, Version) -> int := (v: Version, w: Version) => Compare(v, w)

  // Placed on the timeline, parseable, and satisfying the range.
  predicate Admitted(rel: Release, r: Range) {
    rel.publishedAt > 0 && Parse(rel.version).Some? && Satisfies(r, Parse(rel.version).value)
  }

  function CandidateOf(rel: Release): Candidate<Version>
    requires Parse(rel.version).Some?
  {
    Candidate(Parse(rel.version).value, rel.version, rel.publishedAt)
  }

  predicate OneSecond(releases: seq<Release>, r: Range, a: Release, b: Release, c: Release) {
    && a in releases && b in releases && c in releases && Admitted(a, r) && Admitted(b, r) && Admitted(c, r)
    && a.publishedAt == b.publishedAt == c.publishedAt
  }

  // Precedence orders the admitted releases of each publish second, which is what the sort needs.
  ghost predicate SecondsSort(releases: seq<Release>, r: Range) {
    forall a, b, c :: OneSecond(releases, r, a, b, c) ==>
      TieCarries(PRECEDENCE, Parse(a.version).value, Parse(b.version).value, Parse(c.version).value)
  }

  // Section 9 of SemVer 2.0.0, asked only of admitted releases that share their publish second with
  // another.
  predicate TiesInSection9(releases: seq<Release>, r: Range) {
    forall a, b :: a in releases && b in releases && a != b && a.publishedAt == b.publishedAt && Admitted(a, r) && Admitted(b, r) ==>
      NoLeadingZeroes(Parse(a.version).value.pre)
  }

  function Precedence(a: string, b: string): int
    requires Parse(a).Some? && Parse(b).Some?
  {
    Compare(Parse(a).value, Parse(b).value)
  }

  // The definition windows are an optimisation of: scan the releases, keep the highest published by
  // the instant, the first of equals.
  function PointResolve(releases: seq<Release>, r: Range, at: int): (best: Option<string>)
    ensures best.Some? ==> Parse(best.value).Some?
  {
    if releases == [] then None
    else
      var rel := releases[|releases| - 1];
      var best := PointResolve(releases[..|releases| - 1], r, at);
      if !Admitted(rel, r) || rel.publishedAt > at then best
      else if best == None || Precedence(rel.version, best.value) > 0 then Some(rel.version)
      else best
  }

  method PointResolveLoop(releases: seq<Release>, r: Range, at: int) returns (best: Option<string>)
    ensures best == PointResolve(releases, r, at)
  {
    best := None;
    for k := 0 to |releases|
      invariant best == PointResolve(releases[..k], r, at)
    {
      var rel := releases[k];
      assert releases[..k + 1][..k] == releases[..k];
      if rel.publishedAt <= 0 || rel.publishedAt > at {
        continue;
      }
      var v := Parse(rel.version);
      if v == None {
        continue;
      }
      var ok := SatisfiesLoop(r, v.value);
      if !ok {
        continue;
      }
      if best == None || Compare(v.value, Parse(best.value).value) > 0 {
        best := Some(rel.version);
      }
    }
    assert releases[..|releases|] == releases;
  }

  // What point resolution means: nothing exactly when nothing admitted was out, and otherwise an
  // admitted release already out, with none of higher precedence out.
  ghost predicate Resolves(releases: seq<Release>, r: Range, at: int, version: string) {
    && (exists rel :: rel in releases && Admitted(rel, r) && rel.publishedAt <= at && rel.version == version)
    && (forall rel :: rel in releases && Admitted(rel, r) && rel.publishedAt <= at && Parse(version).Some? ==>
          Precedence(rel.version, version) <= 0)
  }

  lemma OneMoreRelease(rest: seq<Release>, rel: Release, r: Range, at: int, best: string)
    requires Resolves(rest, r, at, best) && Parse(best).Some?
    ensures Admitted(rel, r) && rel.publishedAt <= at && Precedence(rel.version, best) > 0 ==>
      Resolves(rest + [rel], r, at, rel.version)
    ensures !(Admitted(rel, r) && rel.publishedAt <= at && Precedence(rel.version, best) > 0) ==>
      Resolves(rest + [rel], r, at, best)
  {
    if Admitted(rel, r) && rel.publishedAt <= at && Precedence(rel.version, best) > 0 {
      forall x | x in rest + [rel] && Admitted(x, r) && x.publishedAt <= at
        ensures Precedence(x.version, rel.version) <= 0
      {
        ComparesEqualToItself(Parse(rel.version).value);
        if x in rest {
          CompareAntisymmetric(Parse(rel.version).value, Parse(best).value);
          CompareStep(Parse(x.version).value, Parse(best).value, Parse(rel.version).value);
        }
      }
    }
  }

  lemma {:induction false} PointResolveIsMaximal(releases: seq<Release>, r: Range, at: int)
    ensures PointResolve(releases, r, at) == None <==>
      !exists rel :: rel in releases && Admitted(rel, r) && rel.publishedAt <= at
    ensures PointResolve(releases, r, at).Some? ==> Resolves(releases, r, at, PointResolve(releases, r, at).value)
  {
    if releases != [] {
      var rest, rel := releases[..|releases| - 1], releases[|releases| - 1];
      assert releases == rest + [rel];
      PointResolveIsMaximal(rest, r, at);
      var best := PointResolve(rest, r, at);
      if best.Some? {
        OneMoreRelease(rest, rel, r, at, best.value);
      } else if Admitted(rel, r) && rel.publishedAt <= at {
        ComparesEqualToItself(Parse(rel.version).value);
      }
    }
  }

  ghost predicate Placed(releases: seq<Release>, r: Range, x: Candidate<Version>) {
    exists rel :: rel in releases && Admitted(rel, r) && x == CandidateOf(rel)
  }

  ghost predicate CandidatesOf(releases: seq<Release>, r: Range, c: seq<Candidate<Version>>) {
    && (forall x :: x in c ==> Placed(releases, r, x))
    && (forall rel :: rel in releases && Admitted(rel, r) ==> CandidateOf(rel) in c)
  }

  method Admit(releases: seq<Release>, r: Range) returns (c: seq<Candidate<Version>>)
    ensures CandidatesOf(releases, r, c)
    ensures c == [] ==> forall rel :: rel in releases ==> !Admitted(rel, r)
  {
    c := [];
    for k := 0 to |releases|
      invariant CandidatesOf(releases[..k], r, c)
      invariant c == [] ==> forall rel :: rel in releases[..k] ==> !Admitted(rel, r)
    {
      var rel := releases[k];
      assert releases[..k + 1] == releases[..k] + [rel];
      forall x | Placed(releases[..k], r, x) ensures Placed(releases[..k + 1], r, x) {
        var y :| y in releases[..k] && Admitted(y, r) && x == CandidateOf(y);
        assert y in releases[..k + 1];
      }
      if rel.publishedAt <= 0 {
        continue;
      }
      var v := Parse(rel.version);
      if v == None {
        continue;
      }
      var ok := SatisfiesLoop(r, v.value);
      if !ok {
        continue;
      }
      assert rel in releases[..k + 1] && Admitted(rel, r);
      c := c + [Candidate(v.value, rel.version, rel.publishedAt)];
    }
    assert releases[..|releases|] == releases;
  }

  lemma PrecedenceClimbs()
    ensures Climbs(PRECEDENCE)
  {
    forall x, y ensures Opposite(PRECEDENCE, x, y) {
      CompareAntisymmetric(x, y);
    }
    forall x, y, z ensures StepCarries(PRECEDENCE, x, y, z) {
      CompareStep(x, y, z);
    }
  }

  lemma PrecedenceTiesCarry(releases: seq<Release>, r: Range, c: seq<Candidate<Version>>)
    requires SecondsSort(releases, r) && CandidatesOf(releases, r, c)
    ensures TiesCarry(PRECEDENCE, c)
  {
    forall x, y, z | x in c && y in c && z in c && x != y && y != z && x.published == y.published == z.published
      ensures TieCarries(PRECEDENCE, x.version, y.version, z.version)
    {
      PlacedTiesCarry(releases, r, x, y, z);
    }
  }

  lemma PlacedTiesCarry(releases: seq<Release>, r: Range, x: Candidate<Version>, y: Candidate<Version>, z: Candidate<Version>)
    requires SecondsSort(releases, r) && Placed(releases, r, x) && Placed(releases, r, y) && Placed(releases, r, z)
    requires x.published == y.published == z.published
    ensures TieCarries(PRECEDENCE, x.version, y.version, z.version)
  {
    var i :| i in releases && Admitted(i, r) && x == CandidateOf(i);
    var j :| j in releases && Admitted(j, r) && y == CandidateOf(j);
    var k :| k in releases && Admitted(k, r) && z == CandidateOf(k);
    assert OneSecond(releases, r, i, j, k);
  }

  // Keeping to section 9 is enough.
  lemma Section9SecondsSort(releases: seq<Release>, r: Range)
    requires TiesInSection9(releases, r)
    ensures SecondsSort(releases, r)
  {
    Section9IsOneSpelling();
    forall a, b, c | OneSecond(releases, r, a, b, c)
      ensures TieCarries(PRECEDENCE, Parse(a.version).value, Parse(b.version).value, Parse(c.version).value)
    {
      if a != b && b != c {
        CompareTransitive(Section9Idents(), Parse(a.version).value, Parse(b.version).value, Parse(c.version).value);
      }
    }
  }

  // So is having no more than two to a second, however they are spelled.
  lemma PairsSecondsSort(releases: seq<Release>, r: Range)
    requires forall a, b, c :: OneSecond(releases, r, a, b, c) ==> a == b || b == c || a == c
    ensures SecondsSort(releases, r)
  {
    forall a, b, c | OneSecond(releases, r, a, b, c)
      ensures TieCarries(PRECEDENCE, Parse(a.version).value, Parse(b.version).value, Parse(c.version).value)
    {
      if a == c {
        ComparesEqualToItself(Parse(a.version).value);
      }
    }
  }

  // The windows answer for an instant: none exactly when nothing admitted was out by then, and
  // otherwise a release that point resolution could have chosen.
  ghost predicate AnswersAt(releases: seq<Release>, r: Range, ws: seq<Window>, t: int) {
    match WindowAt(ws, t)
    case None => !exists rel :: rel in releases && Admitted(rel, r) && rel.publishedAt <= t
    case Some(version) => Resolves(releases, r, t, version)
  }

  // Each window is named after an admitted release already out when it opens.
  ghost predicate Named(releases: seq<Release>, r: Range, declaredAt: int, w: Window) {
    && w.from < w.to && (declaredAt > 0 ==> declaredAt <= w.from) && Parse(w.version).Some?
    && exists rel :: rel in releases && Admitted(rel, r) && rel.version == w.version && rel.publishedAt <= w.from
  }

  ghost predicate StepsUp(ws: seq<Window>) {
    forall i, j :: 0 <= i < j < |ws| ==>
      Parse(ws[i].version).Some? && Parse(ws[j].version).Some? && Precedence(ws[i].version, ws[j].version) < 0
  }

  // What the windows of a range are: answers for every instant from the declaration to the open end,
  // nonempty, contiguous, and open only at the last.
  ghost predicate AreWindows(releases: seq<Release>, r: Range, declaredAt: int, ws: seq<Window>) {
    && (forall t :: t < OPEN_INTERVAL && (declaredAt > 0 ==> declaredAt <= t) ==> AnswersAt(releases, r, ws, t))
    && (forall w :: w in ws ==> Named(releases, r, declaredAt, w))
    && Contiguous(ws)
    && ((forall rel :: rel in releases ==> rel.publishedAt < OPEN_INTERVAL) ==>
          forall i :: 0 <= i < |ws| ==> (ws[i].to == OPEN_INTERVAL <==> i == |ws| - 1))
  }

  // Where precedence does not order the releases of some second, the sort promises no order, and what
  // is left is that versions step up.
  method Windows(releases: seq<Release>, r: Range, declaredAt: int) returns (ws: seq<Window>)
    ensures StepsUp(ws)
    ensures SecondsSort(releases, r) ==> AreWindows(releases, r, declaredAt, ws)
  {
    var admitted := Admit(releases, r);
    if |admitted| == 0 {
      assert forall t :: AnswersAt(releases, r, [], t);
      return [];
    }
    PrecedenceClimbs();
    if SecondsSort(releases, r) {
      PrecedenceTiesCarry(releases, r, admitted);
      SoonerIsWeakOrder(PRECEDENCE, admitted);
    }
    var c, _ := SortSlice(admitted, Sooner(PRECEDENCE));
    var a, n, at := Sweep(PRECEDENCE, c);
    ghost var full := a[..n];
    var m := Clamp(a, n, declaredAt);
    ws := a[..m];
    SweptStepsUp(releases, r, c, full, at, declaredAt);
    if SecondsSort(releases, r) {
      InPublishOrder(c);
      SweptAnswers(releases, r, c, full, at, declaredAt);
      SweptShape(releases, r, c, full, at, declaredAt);
    }
  }

  lemma SweptStepsUp(releases: seq<Release>, r: Range, c: seq<Candidate<Version>>, full: seq<Window>, at: seq<nat>, declaredAt: int)
    requires CandidatesOf(releases, r, c) && Swept(PRECEDENCE, c, |c|, full, at)
    ensures StepsUp(ClampAll(full, declaredAt))
  {
    var ws := ClampAll(full, declaredAt);
    var from := ClampCuts(full, declaredAt);
    forall i | 0 <= i < |ws| ensures Parse(ws[i].version) == Some(c[at[from[i]]].version) {
      assert full[from[i]] == WindowOf(c, at, from[i]);
      var x := c[at[from[i]]];
      assert x in c;
      var rel :| rel in releases && Admitted(rel, r) && x == CandidateOf(rel);
    }
    forall i, j | 0 <= i < j < |ws| ensures Precedence(ws[i].version, ws[j].version) < 0 {
      assert PRECEDENCE(c[at[from[i]]].version, c[at[from[j]]].version) < 0;
    }
  }

  // Whatever order releases of one second come in, sweeping them in publish order answers as it should.
  lemma SweptAnswers(releases: seq<Release>, r: Range, c: seq<Candidate<Version>>, full: seq<Window>, at: seq<nat>, declaredAt: int)
    requires CandidatesOf(releases, r, c) && PublishOrder(c)
    requires Swept(PRECEDENCE, c, |c|, full, at)
    ensures forall t :: t < OPEN_INTERVAL && (declaredAt > 0 ==> declaredAt <= t) ==>
      AnswersAt(releases, r, ClampAll(full, declaredAt), t)
  {
    forall t | t < OPEN_INTERVAL && (declaredAt > 0 ==> declaredAt <= t)
      ensures AnswersAt(releases, r, ClampAll(full, declaredAt), t)
    {
      ClampKeepsAnswers(full, declaredAt, t);
      var best := SweptNamesHighest(PRECEDENCE, c, full, at, t);
      HighestResolves(releases, r, c, t, best, WindowAt(full, t));
    }
  }

  lemma InPublishOrder(c: seq<Candidate<Version>>)
    requires SortedBy(Sooner(PRECEDENCE), c)
    ensures PublishOrder(c)
  {
    forall i, j | 0 <= i <= j < |c| ensures c[i].published <= c[j].published {
      assert i < j ==> !Sooner(PRECEDENCE)(c[j], c[i]);
    }
  }

  lemma HighestResolves(releases: seq<Release>, r: Range, c: seq<Candidate<Version>>, t: int, best: nat, answer: Option<string>)
    requires CandidatesOf(releases, r, c) && best < |c|
    requires answer == None ==> forall j :: 0 <= j < |c| ==> c[j].published > t
    requires answer.Some? ==> answer.value == c[best].raw && HighestBy(PRECEDENCE, c, t, best)
    ensures answer == None ==> !exists rel :: rel in releases && Admitted(rel, r) && rel.publishedAt <= t
    ensures answer.Some? ==> Resolves(releases, r, t, answer.value)
  {
    forall rel | rel in releases && Admitted(rel, r)
      ensures exists j :: 0 <= j < |c| && c[j] == CandidateOf(rel)
    {
      assert CandidateOf(rel) in c;
    }
    if answer.Some? {
      assert c[best] in c;
      var rel :| rel in releases && Admitted(rel, r) && c[best] == CandidateOf(rel);
      forall x | x in releases && Admitted(x, r) && x.publishedAt <= t ensures Precedence(x.version, answer.value) <= 0 {
        var j :| 0 <= j < |c| && c[j] == CandidateOf(x);
        assert PRECEDENCE(c[j].version, c[best].version) <= 0;
      }
    }
  }

  lemma SweptShape(releases: seq<Release>, r: Range, c: seq<Candidate<Version>>, full: seq<Window>, at: seq<nat>, declaredAt: int)
    requires CandidatesOf(releases, r, c) && PublishOrder(c)
    requires Swept(PRECEDENCE, c, |c|, full, at)
    ensures var ws := ClampAll(full, declaredAt);
      && (forall w :: w in ws ==> Named(releases, r, declaredAt, w))
      && Contiguous(ws)
      && ((forall rel :: rel in releases ==> rel.publishedAt < OPEN_INTERVAL) ==>
            forall i :: 0 <= i < |ws| ==> (ws[i].to == OPEN_INTERVAL <==> i == |ws| - 1))
  {
    SweptTiles(PRECEDENCE, c, full, at, declaredAt);
    var ws := ClampAll(full, declaredAt);
    var from := ClampCuts(full, declaredAt);
    forall i | 0 <= i < |ws| ensures Named(releases, r, declaredAt, ws[i]) {
      assert full[from[i]] == WindowOf(c, at, from[i]);
      var x := c[at[from[i]]];
      assert x in c;
      var rel :| rel in releases && Admitted(rel, r) && x == CandidateOf(rel);
    }
    if forall rel :: rel in releases ==> rel.publishedAt < OPEN_INTERVAL {
      OnlyLastIsOpen(releases, r, c, full, at, declaredAt, ws, from);
    }
  }

  lemma OnlyLastIsOpen(releases: seq<Release>, r: Range, c: seq<Candidate<Version>>, full: seq<Window>, at: seq<nat>,
      declaredAt: int, ws: seq<Window>, from: seq<nat>)
    requires CandidatesOf(releases, r, c) && Swept(PRECEDENCE, c, |c|, full, at)
    requires ws == ClampAll(full, declaredAt) && CutFrom(full, declaredAt, ws, from)
    requires forall rel :: rel in releases ==> rel.publishedAt < OPEN_INTERVAL
    ensures forall i :: 0 <= i < |ws| ==> (ws[i].to == OPEN_INTERVAL <==> i == |ws| - 1)
  {
    forall k | 0 <= k < |c| ensures c[k].published < OPEN_INTERVAL {
      assert c[k] in c;
    }
    forall i | 0 <= i < |ws| ensures ws[i].to == OPEN_INTERVAL <==> from[i] == |full| - 1 {
      assert full[from[i]] == WindowOf(c, at, from[i]);
    }
    var last := full[|full| - 1];
    assert last == WindowOf(c, at, |full| - 1);
    if ws != [] {
      var i := |ws| - 1;
      assert full[from[i]] == WindowOf(c, at, from[i]);
      assert declaredAt > 0 ==> declaredAt <= ws[i].from < ws[i].to <= OPEN_INTERVAL;
      assert Clamped(last, declaredAt).Some? && ws[i] == Clamped(last, declaredAt).value;
    }
  }
}
