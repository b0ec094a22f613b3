// Ranges: desugaring into comparators, and what they admit (internal/semver/range.go).
module SemverRange {
  import opened Wrappers
  import opened Decimal
  import opened Semver

  datatype Op = LT | LTE | GT | GTE | EQ

  datatype Comparator = Comparator(op: Op, ver: Version)

  type ComparatorSet = seq<Comparator>

  // Satisfied by what any one of its sets admits.
  type Range = seq<ComparatorSet>

  // What an x-range gives of a version: the minor and the patch may be missing.
  datatype Partial = Partial(major: uint64, minor: uint64, patch: uint64, hasMinor: bool, hasPatch: bool, pre: seq<string>)

  // What parsePartial leaves in the fields it did not read.
  predicate ValidPartial(p: Partial) {
    (p.hasPatch ==> p.hasMinor) && (!p.hasMinor ==> p.minor == 0) && (!p.hasPatch ==> p.patch == 0)
  }

  function VersionOf(p: Partial): Version {
    Version(p.major, p.minor, p.patch, p.pre, "")
  }

  // The lowest prerelease of a version, marking a desugared upper bound.
  function ZeroPre(major: uint64, minor: uint64, patch: uint64): Version {
    Version(major, minor, patch, ["0"], "")
  }

  // Unsigned addition wraps.
  function Inc(x: uint64): uint64 {
    (x + 1) % TWO64
  }

  function UpperBound(p: Partial): Version {
    if p.hasMinor then ZeroPre(p.major, Inc(p.minor), 0) else ZeroPre(Inc(p.major), 0, 0)
  }

  function TildeRange(p: Partial): ComparatorSet {
    [Comparator(GTE, VersionOf(p)), Comparator(LT, UpperBound(p))]
  }

  function CaretUpper(p: Partial): Version {
    if p.major > 0 || !p.hasMinor then ZeroPre(Inc(p.major), 0, 0)
    else if p.minor > 0 || !p.hasPatch then ZeroPre(p.major, Inc(p.minor), 0)
    else ZeroPre(p.major, p.minor, Inc(p.patch))
  }

  function CaretRange(p: Partial): ComparatorSet {
    [Comparator(GTE, VersionOf(p)), Comparator(LT, CaretUpper(p))]
  }

  function ExactRange(p: Partial): ComparatorSet {
    if p.hasPatch then [Comparator(EQ, VersionOf(p))] else TildeRange(p)
  }

  function BoundComparator(op: Op, p: Partial): ComparatorSet {
    if p.hasPatch then [Comparator(op, VersionOf(p))]
    else match op
      case GT =>
        [Comparator(GTE, if p.hasMinor then Version(p.major, Inc(p.minor), 0, [], "") else Version(Inc(p.major), 0, 0, [], ""))]
      case LTE => [Comparator(LT, UpperBound(p))]
      case _ => [Comparator(op, VersionOf(p))]
  }

  function HyphenRange(lo: Partial, hi: Partial): ComparatorSet {
    [Comparator(GTE, VersionOf(lo)), if hi.hasPatch then Comparator(LTE, VersionOf(hi)) else Comparator(LT, UpperBound(hi))]
  }

  function Admits(op: Op, c: int): bool {
    match op
    case LT => c < 0
    case LTE => c <= 0
    case GT => c > 0
    case GTE => c >= 0
    case EQ => c == 0
  }

  predicate SameTriple(v: Version, w: Version) {
    v.major == w.major && v.minor == w.minor && v.patch == w.patch
  }

  predicate SetSatisfies(s: ComparatorSet, v: Version) {
    && (forall c :: c in s ==> Admits(c.op, Compare(v, c.ver)))
    && (v.IsPrerelease() ==> exists c :: c in s && c.ver.IsPrerelease() && SameTriple(c.ver, v))
  }

  predicate Satisfies(r: Range, v: Version) {
    exists s :: s in r && SetSatisfies(s, v)
  }

  method SetSatisfiesLoop(s: ComparatorSet, v: Version) returns (ok: bool)
    ensures ok <==> SetSatisfies(s, v)
  {
    for k := 0 to |s|
      invariant forall c :: c in s[..k] ==> Admits(c.op, Compare(v, c.ver))
    {
      if !Admits(s[k].op, Compare(v, s[k].ver)) {
        return false;
      }
    }
    assert s[..|s|] == s;
    if !v.IsPrerelease() {
      return true;
    }
    for k := 0 to |s|
      invariant forall c :: c in s[..k] ==> !(c.ver.IsPrerelease() && SameTriple(c.ver, v))
    {
      if s[k].ver.IsPrerelease() && SameTriple(s[k].ver, v) {
        return true;
      }
    }
    return false;
  }

  method SatisfiesLoop(r: Range, v: Version) returns (ok: bool)
    ensures ok <==> Satisfies(r, v)
  {
    for k := 0 to |r|
      invariant forall s :: s in r[..k] ==> !SetSatisfies(s, v)
    {
      var one := SetSatisfiesLoop(r[k], v);
      if one {
        return true;
      }
    }
    assert r[..|r|] == r;
    return false;
  }

  predicate TripleBefore(v: Version, w: Version) {
    v.major < w.major || (v.major == w.major && (v.minor < w.minor || (v.minor == w.minor && v.patch < w.patch)))
  }

  // The -0 bound lies below every version of its triple and above every version before it.
  lemma ZeroPreIsInfimum(v: Version, major: uint64, minor: uint64, patch: uint64)
    ensures Compare(v, ZeroPre(major, minor, patch)) < 0 <==> TripleBefore(v, ZeroPre(major, minor, patch))
  {
    var zero := "0";
    assert NumericIdent(zero) == Some(0) by {
      assert IsDigit(zero[0]) && zero[..0] == [];
      assert ValueOf(zero[..0]) == 0;
      assert ValueOf(zero) == 0;
    }
    var lowest := [zero];
    assert ZeroPre(major, minor, patch).pre == lowest && lowest[1..] == [];
    if v.pre != [] {
      assert CompareLists(v.pre, lowest) ==
        if v.pre[0] == zero then CompareLists(v.pre[1..], []) else CompareIdent(v.pre[0], zero);
      assert CompareLists(v.pre, lowest) >= 0;
    }
  }

  lemma ReleaseAgainst(v: Version, w: Version)
    requires v.pre == []
    ensures Compare(v, w) >= 0 <==> !TripleBefore(v, w)
    ensures Compare(v, w) == 0 <==> SameTriple(v, w) && w.pre == []
  {
  }

  // Comparing only as many components as a partial version gives.
  function PrefixCompare(v: Version, p: Partial): int {
    if v.major != p.major then CmpInt(v.major, p.major)
    else if p.hasMinor && v.minor != p.minor then CmpInt(v.minor, p.minor)
    else if p.hasPatch then CmpInt(v.patch, p.patch)
    else 0
  }

  // An inequality against a partial version means that inequality on the components it gives.
  predicate TopOfRange(p: Partial) {
    if p.hasMinor then p.minor == TWO64 - 1 else p.major == TWO64 - 1
  }

  // Exactly when the bound it desugars to does not wrap.
  lemma BoundAdmits(op: Op, p: Partial)
    requires ValidPartial(p) && !p.hasPatch && op != EQ
    ensures (forall v: Version :: v.pre == [] ==> (SetSatisfies(BoundComparator(op, p), v) <==> Admits(op, PrefixCompare(v, p))))
       <==> !((op == GT || op == LTE) && TopOfRange(p))
  {
    if (op == GT || op == LTE) && TopOfRange(p) {
      var v := if op == LTE then VersionOf(p).(pre := [])
               else Version(if p.hasMinor then p.major else 0, 0, 0, [], "");
      BoundOnRelease(op, p, v);
      assert SetSatisfies(BoundComparator(op, p), v) != Admits(op, PrefixCompare(v, p));
    } else {
      forall v: Version | v.pre == []
        ensures SetSatisfies(BoundComparator(op, p), v) <==> Admits(op, PrefixCompare(v, p))
      {
        BoundOnRelease(op, p, v);
      }
    }
  }

  lemma BoundOnRelease(op: Op, p: Partial, v: Version)
    requires ValidPartial(p) && !p.hasPatch && op != EQ && v.pre == []
    ensures SetSatisfies(BoundComparator(op, p), v) <==>
      match op
      case LT => TripleBefore(v, VersionOf(p))
      case LTE => TripleBefore(v, UpperBound(p))
      case GT => !TripleBefore(v, UpperBound(p))
      case GTE => !TripleBefore(v, VersionOf(p))
  {
    ReleaseAgainst(v, VersionOf(p));
    if op == LTE {
      ZeroPreIsInfimum(v, UpperBound(p).major, UpperBound(p).minor, 0);
    }
    var c := BoundComparator(op, p)[0];
    assert SetSatisfies(BoundComparator(op, p), v) <==> Admits(c.op, Compare(v, c.ver));
  }

  lemma PairSatisfied(a: Comparator, b: Comparator, v: Version)
    ensures SetSatisfies([a, b], v) <==>
      && Admits(a.op, Compare(v, a.ver)) && Admits(b.op, Compare(v, b.ver))
      && (v.IsPrerelease() ==>
           (a.ver.IsPrerelease() && SameTriple(a.ver, v)) || (b.ver.IsPrerelease() && SameTriple(b.ver, v)))
  {
    assert a in [a, b] && b in [a, b];
  }

  // A caret range fixes its components up to the first that is given and not zero.
  predicate CaretKeeps(p: Partial, v: Version) {
    && v.major == p.major
    && (p.major == 0 && p.hasMinor ==> v.minor == p.minor)
    && (p.major == 0 && p.minor == 0 && p.hasPatch ==> v.patch == p.patch)
  }

  // The component a caret range's upper bound increments.
  predicate CaretTop(p: Partial) {
    if p.major > 0 || !p.hasMinor then p.major == TWO64 - 1
    else if p.minor > 0 || !p.hasPatch then p.minor == TWO64 - 1
    else p.patch == TWO64 - 1
  }

  // The releases a caret range admits, exactly when its bound does not wrap.
  lemma CaretAdmits(p: Partial)
    requires ValidPartial(p)
    ensures (forall v: Version :: v.pre == [] ==>
              (SetSatisfies(CaretRange(p), v) <==> CaretKeeps(p, v) && !TripleBefore(v, VersionOf(p))))
       <==> !CaretTop(p)
  {
    if !CaretTop(p) {
      forall v: Version | v.pre == []
        ensures SetSatisfies(CaretRange(p), v) <==> CaretKeeps(p, v) && !TripleBefore(v, VersionOf(p))
      {
        RangePair(p, CaretUpper(p), v);
      }
    } else {
      var v := VersionOf(p).(pre := []);
      RangePair(p, CaretUpper(p), v);
      assert CaretKeeps(p, v) && !TripleBefore(v, VersionOf(p)) && !SetSatisfies(CaretRange(p), v);
    }
  }

  // A tilde range keeps every component it gives before the patch.
  predicate TildeKeeps(p: Partial, v: Version) {
    v.major == p.major && (p.hasMinor ==> v.minor == p.minor)
  }

  lemma TildeAdmits(p: Partial)
    requires ValidPartial(p)
    ensures (forall v: Version :: v.pre == [] ==>
              (SetSatisfies(TildeRange(p), v) <==> TildeKeeps(p, v) && !TripleBefore(v, VersionOf(p))))
       <==> !TopOfRange(p)
  {
    if !TopOfRange(p) {
      forall v: Version | v.pre == []
        ensures SetSatisfies(TildeRange(p), v) <==> TildeKeeps(p, v) && !TripleBefore(v, VersionOf(p))
      {
        RangePair(p, UpperBound(p), v);
      }
    } else {
      var v := VersionOf(p).(pre := []);
      RangePair(p, UpperBound(p), v);
      assert TildeKeeps(p, v) && !TripleBefore(v, VersionOf(p)) && !SetSatisfies(TildeRange(p), v);
    }
  }

  lemma RangePair(p: Partial, hi: Version, v: Version)
    requires hi == ZeroPre(hi.major, hi.minor, hi.patch)
    ensures v.pre == [] ==>
      (SetSatisfies([Comparator(GTE, VersionOf(p)), Comparator(LT, hi)], v) <==>
        !TripleBefore(v, VersionOf(p)) && TripleBefore(v, hi))
    ensures v.pre != [] ==>
      (SetSatisfies([Comparator(GTE, VersionOf(p)), Comparator(LT, hi)], v) <==>
        p.pre != [] && SameTriple(v, VersionOf(p)) && Compare(v, VersionOf(p)) >= 0 && TripleBefore(v, hi))
  {
    PairSatisfied(Comparator(GTE, VersionOf(p)), Comparator(LT, hi), v);
    ZeroPreIsInfimum(v, hi.major, hi.minor, hi.patch);
    if v.pre == [] {
      ReleaseAgainst(v, VersionOf(p));
    }
  }

  // The version has the operand's triple, and the operand is itself a prerelease.
  predicate AtOperand(p: Partial, v: Version) {
    p.pre != [] && SameTriple(v, VersionOf(p))
  }

  // A caret, tilde or bare range admits a prerelease only at the triple of a prerelease it wrote itself,
  // from that prerelease up, or only that one when the operand is whole and bare; and none at all when
  // its upper bound wraps.
  lemma PrereleasesAdmitted(p: Partial, v: Version)
    requires ValidPartial(p) && v.pre != []
    ensures SetSatisfies(CaretRange(p), v) <==> AtOperand(p, v) && Compare(v, VersionOf(p)) >= 0 && !CaretTop(p)
    ensures SetSatisfies(TildeRange(p), v) <==> AtOperand(p, v) && Compare(v, VersionOf(p)) >= 0 && !TopOfRange(p)
    ensures p.hasPatch ==> (SetSatisfies(ExactRange(p), v) <==> AtOperand(p, v) && Compare(v, VersionOf(p)) == 0)
    ensures !p.hasPatch ==> (SetSatisfies(ExactRange(p), v) <==> SetSatisfies(TildeRange(p), v))
  {
    RangePair(p, CaretUpper(p), v);
    RangePair(p, UpperBound(p), v);
    if p.hasPatch {
      OneSatisfied(Comparator(EQ, VersionOf(p)), v);
    }
  }

  lemma OneSatisfied(c: Comparator, v: Version)
    requires v.pre != []
    ensures SetSatisfies([c], v) <==> Admits(c.op, Compare(v, c.ver)) && c.ver.pre != [] && SameTriple(c.ver, v)
  {
    assert c in [c];
  }

  // Under an inequality a prerelease is admitted only at the triple of a prerelease operand, as that
  // inequality says; one that desugars to a release or to a marked bound admits none.
  lemma PrereleasesUnderBound(op: Op, p: Partial, v: Version)
    requires ValidPartial(p) && v.pre != []
    ensures SetSatisfies(BoundComparator(op, p), v) <==>
      AtOperand(p, v) && Admits(op, Compare(v, VersionOf(p))) && (p.hasPatch || (op != GT && op != LTE))
  {
    OneSatisfied(BoundComparator(op, p)[0], v);
    ZeroPreIsInfimum(v, UpperBound(p).major, UpperBound(p).minor, 0);
  }

  // In a hyphen range, only at the triple of an end that is a prerelease and between the two ends.
  lemma PrereleasesInHyphen(lo: Partial, hi: Partial, v: Version)
    requires ValidPartial(lo) && ValidPartial(hi) && v.pre != []
    ensures SetSatisfies(HyphenRange(lo, hi), v) <==>
      && (AtOperand(lo, v) || (hi.hasPatch && AtOperand(hi, v)))
      && Compare(v, VersionOf(lo)) >= 0
      && if hi.hasPatch then Compare(v, VersionOf(hi)) <= 0 else TripleBefore(v, UpperBound(hi))
  {
    PairSatisfied(HyphenRange(lo, hi)[0], HyphenRange(lo, hi)[1], v);
    ZeroPreIsInfimum(v, UpperBound(hi).major, UpperBound(hi).minor, 0);
  }

  predicate DesugaredBound(c: Comparator) {
    c.op == LT && c.ver == ZeroPre(c.ver.major, c.ver.minor, c.ver.patch)
  }

  // Whatever comparators a set combines, no prerelease gets in on the strength of a desugared bound.
  lemma NeverThroughUpperBound(s: ComparatorSet, v: Version)
    requires v.pre != [] && SetSatisfies(s, v)
    ensures exists c :: c in s && c.ver.pre != [] && SameTriple(c.ver, v) && !DesugaredBound(c)
  {
    var c :| c in s && c.ver.IsPrerelease() && SameTriple(c.ver, v);
    if DesugaredBound(c) {
      ZeroPreIsInfimum(v, c.ver.major, c.ver.minor, c.ver.patch);
    }
  }

  // Where the comparison of the given components stops short of the top: a prerelease upper end shuts
  // its own release out.
  predicate ShutsOutItsRelease(hi: Partial) {
    hi.hasPatch && hi.pre != []
  }

  // A hyphen range runs from its lower end through everything its upper end's components allow,
  // exactly when the upper bound neither wraps nor shuts its own release out, or does so below the
  // lower end where the range is empty anyway.
  lemma HyphenAdmits(lo: Partial, hi: Partial)
    requires ValidPartial(lo) && ValidPartial(hi)
    ensures (forall v: Version :: v.pre == [] ==>
              (SetSatisfies(HyphenRange(lo, hi), v) <==> PrefixCompare(v, lo) >= 0 && PrefixCompare(v, hi) <= 0))
       <==> if hi.hasPatch then hi.pre == [] || TripleBefore(VersionOf(hi), VersionOf(lo))
            else !TopOfRange(hi) || lo.major > hi.major
  {
    if if hi.hasPatch then hi.pre == [] || TripleBefore(VersionOf(hi), VersionOf(lo)) else !TopOfRange(hi) || lo.major > hi.major {
      forall v: Version | v.pre == []
        ensures SetSatisfies(HyphenRange(lo, hi), v) <==> PrefixCompare(v, lo) >= 0 && PrefixCompare(v, hi) <= 0
      {
        HyphenOnRelease(lo, hi, v);
      }
    } else {
      var v := if hi.hasPatch then VersionOf(hi).(pre := []) else Version(hi.major, TWO64 - 1, TWO64 - 1, [], "");
      HyphenOnRelease(lo, hi, v);
      assert PrefixCompare(v, lo) >= 0 && PrefixCompare(v, hi) <= 0 && !SetSatisfies(HyphenRange(lo, hi), v);
    }
  }

  // Up to a prerelease the range admits every release below that prerelease's own.
  lemma HyphenToPrereleaseAdmits(lo: Partial, hi: Partial, v: Version)
    requires ValidPartial(lo) && ValidPartial(hi) && ShutsOutItsRelease(hi) && v.pre == []
    ensures SetSatisfies(HyphenRange(lo, hi), v) <==> PrefixCompare(v, lo) >= 0 && PrefixCompare(v, hi) < 0
  {
    HyphenOnRelease(lo, hi, v);
  }

  lemma HyphenOnRelease(lo: Partial, hi: Partial, v: Version)
    requires ValidPartial(lo) && ValidPartial(hi) && v.pre == []
    ensures SetSatisfies(HyphenRange(lo, hi), v) <==>
      !TripleBefore(v, VersionOf(lo)) &&
      if ShutsOutItsRelease(hi) then TripleBefore(v, VersionOf(hi))
      else if hi.hasPatch then !TripleBefore(VersionOf(hi), v)
      else TripleBefore(v, UpperBound(hi))
  {
    PairSatisfied(HyphenRange(lo, hi)[0], HyphenRange(lo, hi)[1], v);
    ReleaseAgainst(v, VersionOf(lo));
    if hi.hasPatch {
      ReleaseAgainst(v, VersionOf(hi));
    } else {
      ZeroPreIsInfimum(v, UpperBound(hi).major, UpperBound(hi).minor, 0);
    }
  }

  // What an operand with a wildcard major reads as, prerelease and all.
  function Wildcard(pre: seq<string>): Partial {
    Partial(0, 0, 0, false, false, pre)
  }

  ghost predicate AdmitsEveryRelease(s: ComparatorSet) {
    forall v: Version :: v.pre == [] ==> SetSatisfies(s, v)
  }

  // A wildcard major is not recorded, so "any version" survives only ">=": every other operator narrows
  // it, and so does an operand of several segments standing bare.
  lemma WildcardUnderOperator(op: Op, pre: seq<string>)
    ensures AdmitsEveryRelease(BoundComparator(op, Wildcard(pre))) <==> op == GTE
    ensures !AdmitsEveryRelease(CaretRange(Wildcard(pre)))
    ensures !AdmitsEveryRelease(TildeRange(Wildcard(pre)))
    ensures !AdmitsEveryRelease(ExactRange(Wildcard(pre)))
  {
    var wild, one, zero := Wildcard(pre), Version(1, 0, 0, [], ""), ZERO;
    RangePair(wild, ZeroPre(1, 0, 0), one);
    assert !SetSatisfies(CaretRange(wild), one) && !SetSatisfies(TildeRange(wild), one);
    if op == EQ {
      assert BoundComparator(op, wild)[0] == Comparator(EQ, VersionOf(wild));
      assert Compare(one, VersionOf(wild)) != 0;
      assert !SetSatisfies(BoundComparator(op, wild), one);
    } else {
      BoundOnRelease(op, wild, one);
      BoundOnRelease(op, wild, zero);
      if op == GTE {
        forall v: Version | v.pre == [] ensures SetSatisfies(BoundComparator(GTE, wild), v) {
          BoundOnRelease(GTE, wild, v);
        }
      } else {
        assert !SetSatisfies(BoundComparator(op, wild), if op == GT then zero else one);
      }
    }
  }

  ghost predicate Highest(versions: seq<Version>, r: Range, best: Version) {
    && best in versions && Satisfies(r, best)
    && forall v :: v in versions && Satisfies(r, v) ==> Compare(v, best) <= 0
  }

  ghost predicate NoneSatisfies(versions: seq<Version>, r: Range) {
    forall v :: v in versions ==> !Satisfies(r, v)
  }

  lemma FirstToSatisfy(versions: seq<Version>, r: Range, v: Version)
    requires NoneSatisfies(versions, r) && Satisfies(r, v)
    ensures Highest(versions + [v], r, v)
  {
    ComparesEqualToItself(v);
  }

  lemma StillHighest(versions: seq<Version>, r: Range, best: Version, v: Version)
    requires Highest(versions, r, best) && Satisfies(r, v) && Compare(v, best) > 0
    ensures Highest(versions + [v], r, v)
  {
    ComparesEqualToItself(v);
    CompareAntisymmetric(v, best);
    forall u | u in versions && Satisfies(r, u) ensures Compare(u, v) <= 0 {
      CompareStep(u, best, v);
    }
  }

  // The highest version admitted. One that merely equals the best so far does not replace it.
  method MaxSatisfying(versions: seq<Version>, r: Range) returns (best: Version, found: bool)
    ensures found <==> exists v :: v in versions && Satisfies(r, v)
    ensures found ==> best in versions && Satisfies(r, best)
    ensures found ==> forall v :: v in versions && Satisfies(r, v) ==> Compare(v, best) <= 0
  {
    best, found := ZERO, false;
    for k := 0 to |versions|
      invariant found ==> Highest(versions[..k], r, best)
      invariant !found ==> NoneSatisfies(versions[..k], r)
    {
      var v := versions[k];
      assert versions[..k + 1] == versions[..k] + [v];
      var ok := SatisfiesLoop(r, v);
      if !ok {
        continue;
      }
      if !found || Compare(v, best) > 0 {
        if found {
          StillHighest(versions[..k], r, best, v);
        } else {
          FirstToSatisfy(versions[..k], r, v);
        }
        best, found := v, true;
      }
    }
    assert versions[..|versions|] == versions;
  }
}
