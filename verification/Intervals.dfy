// Half-open spans of time and the canonical set of disjoint spans the search prunes with
// (internal/query/interval.go).
module Intervals {
  import opened Sorting

  // 2100-01-01 in Unix seconds: the `valid_to` of a span that has not ended.
  const OPEN_INTERVAL: int := 4102444800

  datatype Interval = Interval(from: int, to: int) {
    predicate Empty() {
      from >= to
    }

    predicate Contains(t: int) {
      from <= t < to
    }

    function Intersect(o: Interval): (r: Interval)
      ensures forall t :: r.Contains(t) <==> Contains(t) && o.Contains(t)
    {
      Interval(if from >= o.from then from else o.from, if to <= o.to then to else o.to)
    }
  }

  const ALWAYS := Interval(0, OPEN_INTERVAL)

  function At(t: int): (i: Interval)
    ensures forall u :: i.Contains(u) <==> u == t
  {
    Interval(t, t + 1)
  }

  type IntervalSet = seq<Interval>

  // Sorted, and separated by gaps of at least one instant, so that no two members could be merged.
  ghost predicate Canonical(s: IntervalSet) {
    && (forall k :: 0 <= k < |s| ==> !s[k].Empty())
    && (forall j, k :: 0 <= j < k < |s| ==> s[j].to < s[k].from)
  }

  ghost predicate Covered(s: IntervalSet, t: int) {
    exists k :: 0 <= k < |s| && s[k].Contains(t)
  }

  // One ordered walk that consumes what is left of `i` from the left.
  method Covers(s: IntervalSet, i: Interval) returns (covered: bool)
    requires Canonical(s)
    ensures covered <==> forall t :: i.Contains(t) ==> Covered(s, t)
  {
    if i.Empty() {
      return true;
    }
    var left := i;
    for n := 0 to |s|
      invariant i.from <= left.from < left.to == i.to
      invariant forall t :: i.from <= t < left.from ==> Covered(s, t)
      invariant forall k :: 0 <= k < n ==> s[k].to <= left.from
    {
      var have := s[n];
      if have.to <= left.from {
        continue;
      }
      if have.from > left.from {
        assert i.Contains(left.from) && !Covered(s, left.from);
        return false;
      }
      assert forall t :: left.from <= t < have.to ==> s[n].Contains(t);
      if have.to >= left.to {
        return true;
      }
      left := Interval(have.to, left.to);
    }
    assert i.Contains(left.from) && !Covered(s, left.from);
    return false;
  }

  // Merges `i` into the set, coalescing what it touches or overlaps.
  method Insert(s: IntervalSet, i: Interval) returns (out: IntervalSet, added: bool)
    requires Canonical(s)
    ensures Canonical(out)
    ensures forall t :: Covered(out, t) <==> Covered(s, t) || i.Contains(t)
    ensures added <==> exists t :: i.Contains(t) && !Covered(s, t)
    ensures !added ==> out == s
  {
    var covered := Covers(s, i);
    if i.Empty() || covered {
      return s, false;
    }
    var kept: IntervalSet := [];
    var merged := i;
    for n := 0 to |s|
      invariant Partway(s, i, n, kept, merged)
    {
      MergeStep(s, i, n, kept, merged);
      if s[n].to < merged.from || s[n].from > merged.to {
        kept := kept + [s[n]];
      } else {
        merged := Hull(merged, s[n]);
      }
    }
    assert s[..|s|] == s;
    ghost var from;
    out, from := SortSlice(kept + [merged], (a: Interval, b: Interval) => a.from < b.from);
    SortedIsCanonical(kept, merged, out, from);
    added := true;
  }

  function Hull(a: Interval, b: Interval): Interval {
    Interval(if a.from <= b.from then a.from else b.from, if a.to >= b.to then a.to else b.to)
  }

  ghost predicate Apart(a: Interval, b: Interval) {
    a.to < b.from || b.to < a.from
  }

  // What holds after `n` members of `s` were either kept aside or absorbed into `merged`.
  ghost predicate Partway(s: IntervalSet, i: Interval, n: nat, kept: IntervalSet, merged: Interval)
    requires n <= |s|
  {
    && Canonical(kept)
    && !merged.Empty()
    && (forall x :: x in kept ==> x in s[..n] && Apart(x, merged))
    && (forall t :: Covered(kept, t) || merged.Contains(t) <==> Covered(s[..n], t) || i.Contains(t))
  }

  lemma MergeStep(s: IntervalSet, i: Interval, n: nat, kept: IntervalSet, merged: Interval)
    requires Canonical(s) && n < |s| && Partway(s, i, n, kept, merged)
    ensures s[n].to < merged.from || s[n].from > merged.to ==> Partway(s, i, n + 1, kept + [s[n]], merged)
    ensures !(s[n].to < merged.from || s[n].from > merged.to) ==> Partway(s, i, n + 1, kept, Hull(merged, s[n]))
  {
    var have := s[n];
    assert s[..n + 1] == s[..n] + [have];
    forall t ensures Covered(s[..n + 1], t) <==> Covered(s[..n], t) || have.Contains(t) {
      CoveredAppend(s[..n], have, t);
    }
    forall x | x in kept ensures x.to < have.from {}
    if have.to < merged.from || have.from > merged.to {
      forall t ensures Covered(kept + [have], t) <==> Covered(kept, t) || have.Contains(t) {
        CoveredAppend(kept, have, t);
      }
    }
  }

  lemma CoveredAppend(s: IntervalSet, x: Interval, t: int)
    ensures Covered(s + [x], t) <==> Covered(s, t) || x.Contains(t)
  {
    if Covered(s, t) {
      var k :| 0 <= k < |s| && s[k].Contains(t);
      assert (s + [x])[k].Contains(t);
    }
    if x.Contains(t) {
      assert (s + [x])[|s|].Contains(t);
    }
  }

  lemma ApartByPosition(kept: IntervalSet, merged: Interval, f: nat, g: nat)
    requires Canonical(kept) && forall x :: x in kept ==> Apart(x, merged)
    requires f <= |kept| && g <= |kept| && f != g
    ensures Apart((kept + [merged])[f], (kept + [merged])[g])
  {
    if f < |kept| && g < |kept| {
      assert if f < g then kept[f].to < kept[g].from else kept[g].to < kept[f].from;
    } else if f < |kept| {
      assert kept[f] in kept;
    } else {
      assert kept[g] in kept;
    }
  }

  lemma SortedIsCanonical(kept: IntervalSet, merged: Interval, out: IntervalSet, from: seq<nat>)
    requires Canonical(kept) && !merged.Empty() && forall x :: x in kept ==> Apart(x, merged)
    requires SortedBy((a: Interval, b: Interval) => a.from < b.from, out)
    requires Rearranged(kept + [merged], out, from)
    requires forall x :: x in out <==> x in kept + [merged]
    ensures Canonical(out)
    ensures forall t :: Covered(out, t) <==> Covered(kept, t) || merged.Contains(t)
  {
    var all := kept + [merged];
    forall k | 0 <= k < |out| ensures !out[k].Empty() {
      assert out[k] == all[from[k]];
    }
    forall j, k | 0 <= j < k < |out| ensures out[j].to < out[k].from {
      var f, g := from[j], from[k];
      assert f != g && out[j] == all[f] && out[k] == all[g];
      ApartByPosition(kept, merged, f, g);
      assert out[j].from <= out[k].from;
    }
    forall t ensures Covered(out, t) <==> Covered(kept, t) || merged.Contains(t) {
      CoveredAppend(kept, merged, t);
      SameMembersCover(out, all, t);
    }
  }

  lemma SameMembersCover(a: IntervalSet, b: IntervalSet, t: int)
    requires forall x :: x in a <==> x in b
    ensures Covered(a, t) <==> Covered(b, t)
  {
    if Covered(a, t) {
      var k :| 0 <= k < |a| && a[k].Contains(t);
      assert a[k] in b;
    }
    if Covered(b, t) {
      var k :| 0 <= k < |b| && b[k].Contains(t);
      assert b[k] in a;
    }
  }

  // The instants covered, as a finite set.
  ghost function Span(i: Interval): set<int> {
    set t: int | i.from <= t < i.to && i.Contains(t)
  }

  ghost function Instants(s: IntervalSet): set<int> {
    if s == [] then {} else Instants(s[..|s| - 1]) + Span(s[|s| - 1])
  }

  lemma {:induction false} InstantsAreCovered(s: IntervalSet)
    ensures forall t :: t in Instants(s) <==> Covered(s, t)
  {
    if s != [] {
      InstantsAreCovered(s[..|s| - 1]);
      forall t ensures t in Instants(s) <==> Covered(s, t) {
        CoveredAppend(s[..|s| - 1], s[|s| - 1], t);
        assert s[..|s| - 1] + [s[|s| - 1]] == s;
      }
    }
  }

  lemma {:induction false} SpanSize(i: Interval)
    ensures |Span(i)| == if i.Empty() then 0 else i.to - i.from
    decreases i.to - i.from
  {
    if !i.Empty() {
      var shorter := Interval(i.from, i.to - 1);
      SpanSize(shorter);
      assert Span(i) == Span(shorter) + {i.to - 1};
    } else {
      assert Span(i) == {};
    }
  }

  // Width counts covered instants, which is why half-open spans may tile.
  method Width(s: IntervalSet) returns (total: int)
    requires Canonical(s)
    ensures total == |Instants(s)|
  {
    total := 0;
    for n := 0 to |s|
      invariant total == |Instants(s[..n])|
    {
      SpanSize(s[n]);
      assert s[..n + 1][..n] == s[..n];
      InstantsAreCovered(s[..n]);
      assert Instants(s[..n]) !! Span(s[n]);
      total := total + (s[n].to - s[n].from);
    }
    assert s[..|s|] == s;
  }

  method Earliest(s: IntervalSet) returns (t: int)
    requires Canonical(s)
    ensures s == [] ==> t == 0
    ensures s != [] ==> Covered(s, t) && forall u :: Covered(s, u) ==> t <= u
  {
    if |s| == 0 {
      return 0;
    }
    t := s[0].from;
    assert s[0].Contains(t);
  }

  // Equal denotations mean equal sets, so a set does not remember the order it was built in.
  lemma {:induction false} CanonicalIsUnique(a: IntervalSet, b: IntervalSet)
    requires Canonical(a) && Canonical(b)
    requires forall t :: Covered(a, t) <==> Covered(b, t)
    ensures a == b
  {
    if a == [] || b == [] {
      if a != [] {
        FirstInstantIsCovered(a);
      }
      if b != [] {
        FirstInstantIsCovered(b);
      }
    } else {
      FirstSpansAgree(a, b);
      forall t ensures Covered(a[1..], t) <==> Covered(b[1..], t) {
        CoveredRest(a, t);
        CoveredRest(b, t);
      }
      CanonicalIsUnique(a[1..], b[1..]);
      assert a == [a[0]] + a[1..] && b == [b[0]] + b[1..];
    }
  }

  lemma FirstInstantIsCovered(a: IntervalSet)
    requires Canonical(a) && a != []
    ensures Covered(a, a[0].from)
  {
    assert a[0].Contains(a[0].from);
  }

  lemma CoveredRest(a: IntervalSet, t: int)
    requires Canonical(a) && a != []
    ensures Covered(a[1..], t) <==> Covered(a, t) && t >= a[0].to
  {
    if Covered(a, t) && t >= a[0].to {
      var k :| 0 <= k < |a| && a[k].Contains(t);
      assert a[1..][k - 1].Contains(t);
    }
    if Covered(a[1..], t) {
      var k :| 0 <= k < |a[1..]| && a[1..][k].Contains(t);
      assert a[k + 1].Contains(t);
    }
  }

  lemma FirstSpansAgree(a: IntervalSet, b: IntervalSet)
    requires Canonical(a) && Canonical(b) && a != [] && b != []
    requires forall t :: Covered(a, t) <==> Covered(b, t)
    ensures a[0] == b[0]
  {
    assert a[0].Contains(a[0].from) && b[0].Contains(b[0].from);
    assert Covered(b, a[0].from) && Covered(a, b[0].from);
    assert a[0].from == b[0].from;
    assert !Covered(a, a[0].to) && !Covered(b, b[0].to);
    assert b[0].Contains(a[0].to) <==> a[0].to < b[0].to;
    assert a[0].Contains(b[0].to) <==> b[0].to < a[0].to;
  }

  // The loop that folds one collection of spans into a set, one at a time.
  method MergeAll(s: IntervalSet, spans: seq<Interval>) returns (out: IntervalSet)
    requires Canonical(s)
    ensures Canonical(out)
    ensures forall t :: Covered(out, t) <==> Covered(s, t) || Covered(spans, t)
  {
    out := s;
    for n := 0 to |spans|
      invariant Canonical(out)
      invariant forall t :: Covered(out, t) <==> Covered(s, t) || Covered(spans[..n], t)
    {
      assert spans[..n + 1] == spans[..n] + [spans[n]];
      forall t ensures Covered(spans[..n + 1], t) <==> Covered(spans[..n], t) || spans[n].Contains(t) {
        CoveredAppend(spans[..n], spans[n], t);
      }
      var more, _ := Insert(out, spans[n]);
      out := more;
    }
    assert spans[..|spans|] == spans;
  }

  // Inserting the same spans in any order gives the same set, not merely an equivalent one.
  lemma OrderDoesNotMatter(one: seq<Interval>, other: seq<Interval>, a: IntervalSet, b: IntervalSet)
    requires multiset(one) == multiset(other)
    requires Canonical(a) && forall t :: Covered(a, t) <==> Covered(one, t)
    requires Canonical(b) && forall t :: Covered(b, t) <==> Covered(other, t)
    ensures a == b
  {
    SameMembers(one, other);
    forall t ensures Covered(a, t) <==> Covered(b, t) {
      SameMembersCover(one, other, t);
    }
    CanonicalIsUnique(a, b);
  }
}
