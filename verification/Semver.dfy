// Versions and their precedence (internal/semver/version.go).
module Semver {
  import opened Wrappers
  import opened Text
  import opened Decimal

  datatype Version = Version(major: uint64, minor: uint64, patch: uint64, pre: seq<string>, build: string) {
    predicate IsPrerelease() {
      |pre| > 0
    }
  }

  const ZERO := Version(0, 0, 0, [], "")

  function CmpInt(a: int, b: int): int {
    if a < b then -1 else if a > b then 1 else 0
  }

  // Digits only, and within the word size: what strconv.ParseUint takes.
  function NumericIdent(s: string): Option<uint64> {
    ParseUint(s)
  }

  // How the loop of comparePre decides between two identifiers that differ.
  function CompareIdent(x: string, y: string): int {
    match (NumericIdent(x), NumericIdent(y))
    case (Some(n), Some(m)) => CmpInt(n, m)
    case (Some(_), None) => -1
    case (None, Some(_)) => 1
    case (None, None) => if Before(x, y) then -1 else 1
  }

  // The first position at which the lists differ decides, even when it decides 0.
  function CompareLists(a: seq<string>, b: seq<string>): int {
    if a == [] || b == [] then CmpInt(|a|, |b|)
    else if a[0] == b[0] then CompareLists(a[1..], b[1..])
    else CompareIdent(a[0], b[0])
  }

  function ComparePre(a: seq<string>, b: seq<string>): int {
    if a == [] && b == [] then 0
    else if a == [] then 1
    else if b == [] then -1
    else CompareLists(a, b)
  }

  method ComparePreLoop(a: seq<string>, b: seq<string>) returns (c: int)
    ensures c == ComparePre(a, b)
  {
    if |a| == 0 && |b| == 0 {
      return 0;
    } else if |a| == 0 {
      return 1;
    } else if |b| == 0 {
      return -1;
    }
    var i := 0;
    while i < |a| && i < |b|
      invariant 0 <= i <= |a| && i <= |b|
      invariant CompareLists(a, b) == CompareLists(a[i..], b[i..])
    {
      if a[i] != b[i] {
        var an := NumericIdent(a[i]);
        var bn := NumericIdent(b[i]);
        if an.Some? && bn.Some? {
          return CmpInt(an.value, bn.value);
        } else if an.Some? {
          return -1;
        } else if bn.Some? {
          return 1;
        } else if Before(a[i], b[i]) {
          return -1;
        } else {
          return 1;
        }
      }
      i := i + 1;
    }
    return CmpInt(|a|, |b|);
  }

  function Compare(v: Version, o: Version): int {
    if v.major != o.major then CmpInt(v.major, o.major)
    else if v.minor != o.minor then CmpInt(v.minor, o.minor)
    else if v.patch != o.patch then CmpInt(v.patch, o.patch)
    else ComparePre(v.pre, o.pre)
  }

  // SemVer 2.0.0 section 11, independently of how comparePre goes about it: identifiers of digits
  // only compare numerically and below all others, others compare in ASCII order, and a longer list
  // wins when every earlier identifier is equal.
  predicate Numeric(x: string) {
    x != "" && AllDigits(x)
  }

  function Section11Ident(x: string, y: string): int {
    if Numeric(x) && Numeric(y) then CmpInt(ValueOf(x), ValueOf(y))
    else if Numeric(x) then -1
    else if Numeric(y) then 1
    else if x == y then 0
    else if Before(x, y) then -1
    else 1
  }

  function Section11Lists(a: seq<string>, b: seq<string>): int {
    if a == [] || b == [] then CmpInt(|a|, |b|)
    else if Section11Ident(a[0], b[0]) != 0 then Section11Ident(a[0], b[0])
    else Section11Lists(a[1..], b[1..])
  }

  function Section11(v: Version, o: Version): int {
    if (v.major, v.minor, v.patch) != (o.major, o.minor, o.patch) then
      CmpInt(if v.major != o.major then v.major - o.major
             else if v.minor != o.minor then v.minor - o.minor
             else v.patch - o.patch, 0)
    else if v.pre == [] || o.pre == [] then
      CmpInt(if v.pre == [] then 1 else 0, if o.pre == [] then 1 else 0)
    else Section11Lists(v.pre, o.pre)
  }

  predicate FitsWord(pre: seq<string>) {
    forall x :: x in pre && Numeric(x) ==> ValueOf(x) < TWO64
  }

  predicate NoLeadingZeroes(pre: seq<string>) {
    forall x :: x in pre && Numeric(x) ==> !LeadingZero(x)
  }

  // The first differing identifiers are two spellings of one number, and what follows is not equal.
  predicate StopsEarly(a: seq<string>, b: seq<string>) {
    if a == [] || b == [] then false
    else if a[0] == b[0] then StopsEarly(a[1..], b[1..])
    else Numeric(a[0]) && Numeric(b[0]) && ValueOf(a[0]) == ValueOf(b[0]) && Section11Lists(a[1..], b[1..]) != 0
  }

  // Within the word size, the code's order is that of section 11 except where it stops early.
  lemma {:induction false} ListsRealiseSection11(a: seq<string>, b: seq<string>)
    requires FitsWord(a) && FitsWord(b)
    ensures CompareLists(a, b) == Section11Lists(a, b) <==> !StopsEarly(a, b)
  {
    if a != [] && b != [] {
      assert a[0] in a && b[0] in b;
      if a[0] == b[0] {
        ListsRealiseSection11(a[1..], b[1..]);
      }
    }
  }

  lemma CompareRealisesSection11(v: Version, o: Version)
    requires FitsWord(v.pre) && FitsWord(o.pre)
    ensures Compare(v, o) == Section11(v, o) <==>
      !((v.major, v.minor, v.patch) == (o.major, o.minor, o.patch) && StopsEarly(v.pre, o.pre))
  {
    ListsRealiseSection11(v.pre, o.pre);
  }

  // Section 9 rules the exception out.
  lemma {:induction false} Section9NeverStopsEarly(a: seq<string>, b: seq<string>)
    requires NoLeadingZeroes(a) && NoLeadingZeroes(b)
    ensures !StopsEarly(a, b)
  {
    if a != [] && b != [] {
      assert a[0] in a && b[0] in b;
      if a[0] == b[0] {
        Section9NeverStopsEarly(a[1..], b[1..]);
      } else if Numeric(a[0]) && Numeric(b[0]) && ValueOf(a[0]) == ValueOf(b[0]) {
        SameValueSameNumeral(a[0], b[0]);
      }
    }
  }

  // The order laws. Antisymmetry and the strict steps hold of all versions; ties need identifiers that
  // spell no number in two ways.
  ghost predicate OneSpelling(idents: iset<string>) {
    forall x, y :: x in idents && y in idents && NumericIdent(x).Some? && NumericIdent(x) == NumericIdent(y) ==> x == y
  }

  ghost predicate Over(idents: iset<string>, pre: seq<string>) {
    forall x :: x in pre ==> x in idents
  }

  // Section 9 provides that.
  ghost function Section9Idents(): iset<string> {
    iset x: string | NoLeadingZeroes([x])
  }

  lemma Section9IsOneSpelling()
    ensures OneSpelling(Section9Idents())
    ensures forall pre :: NoLeadingZeroes(pre) ==> Over(Section9Idents(), pre)
  {
    forall x, y | x in Section9Idents() && y in Section9Idents() && NumericIdent(x).Some? && NumericIdent(x) == NumericIdent(y)
      ensures x == y
    {
      assert x in [x] && y in [y];
      SameValueSameNumeral(x, y);
    }
  }

  lemma CompareIdentAntisymmetric(x: string, y: string)
    requires x != y
    ensures CompareIdent(x, y) == -CompareIdent(y, x)
  {
    BeforeIsAsymmetric(x, y);
  }

  lemma {:induction false} CompareListsAntisymmetric(a: seq<string>, b: seq<string>)
    ensures CompareLists(a, b) == -CompareLists(b, a)
  {
    if a != [] && b != [] {
      if a[0] == b[0] {
        CompareListsAntisymmetric(a[1..], b[1..]);
      } else {
        CompareIdentAntisymmetric(a[0], b[0]);
      }
    }
  }

  lemma CompareAntisymmetric(v: Version, o: Version)
    ensures Compare(v, o) == -Compare(o, v)
  {
    CompareListsAntisymmetric(v.pre, o.pre);
  }

  lemma {:induction false} CompareListsZero(idents: iset<string>, a: seq<string>, b: seq<string>)
    requires OneSpelling(idents) && Over(idents, a) && Over(idents, b)
    ensures CompareLists(a, b) == 0 <==> a == b
  {
    if a != [] && b != [] {
      assert a == [a[0]] + a[1..] && b == [b[0]] + b[1..];
      assert a[0] in idents && b[0] in idents;
      if a[0] == b[0] {
        CompareListsZero(idents, a[1..], b[1..]);
      }
    }
  }

  // Equality ignores build metadata and nothing else.
  lemma CompareZero(idents: iset<string>, v: Version, o: Version)
    requires OneSpelling(idents) && Over(idents, v.pre) && Over(idents, o.pre)
    ensures Compare(v, o) == 0 <==> v.(build := "") == o.(build := "")
  {
    CompareListsZero(idents, v.pre, o.pre);
  }

  lemma CompareIdentTransitive(x: string, y: string, z: string)
    requires x != y && y != z
    requires CompareIdent(x, y) < 0 && CompareIdent(y, z) < 0
    ensures x != z && CompareIdent(x, z) < 0
  {
    BeforeIsTransitive(x, y, z);
    BeforeIsAsymmetric(x, y);
    BeforeIsAsymmetric(y, z);
  }

  lemma {:induction false} CompareListsTransitive(a: seq<string>, b: seq<string>, c: seq<string>)
    requires CompareLists(a, b) < 0 && CompareLists(b, c) < 0
    ensures CompareLists(a, c) < 0
  {
    if a != [] && b != [] && c != [] {
      if a[0] == b[0] && b[0] == c[0] {
        CompareListsTransitive(a[1..], b[1..], c[1..]);
      } else if a[0] != b[0] && b[0] != c[0] {
        CompareIdentTransitive(a[0], b[0], c[0]);
      }
    }
  }

  lemma {:induction false} CompareListsStep(a: seq<string>, b: seq<string>, c: seq<string>)
    requires CompareLists(a, b) <= 0 && CompareLists(b, c) < 0
    ensures CompareLists(a, c) <= 0
  {
    if a != [] && b != [] && c != [] {
      if a[0] == b[0] && b[0] == c[0] {
        CompareListsStep(a[1..], b[1..], c[1..]);
      } else if a[0] != b[0] && b[0] != c[0] && CompareIdent(a[0], b[0]) < 0 {
        CompareIdentTransitive(a[0], b[0], c[0]);
      }
    }
  }

  lemma {:induction false} CompareListsStepThen(a: seq<string>, b: seq<string>, c: seq<string>)
    requires CompareLists(a, b) < 0 && CompareLists(b, c) <= 0
    ensures CompareLists(a, c) <= 0
  {
    if a != [] && b != [] && c != [] {
      if a[0] == b[0] && b[0] == c[0] {
        CompareListsStepThen(a[1..], b[1..], c[1..]);
      } else if a[0] != b[0] && b[0] != c[0] && CompareIdent(b[0], c[0]) < 0 {
        CompareIdentTransitive(a[0], b[0], c[0]);
      }
    }
  }

  // Leading zeroes or not, a strict step on either side carries the comparison over.
  lemma CompareStep(u: Version, v: Version, w: Version)
    ensures Compare(u, v) <= 0 && Compare(v, w) < 0 ==> Compare(u, w) <= 0
    ensures Compare(u, v) < 0 && Compare(v, w) <= 0 ==> Compare(u, w) <= 0
    ensures Compare(u, v) < 0 && Compare(v, w) < 0 ==> Compare(u, w) < 0
  {
    if CompareLists(u.pre, v.pre) <= 0 && CompareLists(v.pre, w.pre) < 0 {
      CompareListsStep(u.pre, v.pre, w.pre);
    }
    if CompareLists(u.pre, v.pre) < 0 && CompareLists(v.pre, w.pre) <= 0 {
      CompareListsStepThen(u.pre, v.pre, w.pre);
    }
    if CompareLists(u.pre, v.pre) < 0 && CompareLists(v.pre, w.pre) < 0 {
      CompareListsTransitive(u.pre, v.pre, w.pre);
    }
  }

  lemma {:induction false} ListsCompareEqual(a: seq<string>)
    ensures CompareLists(a, a) == 0
  {
    if a != [] {
      ListsCompareEqual(a[1..]);
    }
  }

  lemma ComparesEqualToItself(v: Version)
    ensures Compare(v, v) == 0
  {
    ListsCompareEqual(v.pre);
  }

  // Ties carry over too when no number is spelled in two ways.
  lemma CompareTransitive(idents: iset<string>, u: Version, v: Version, w: Version)
    requires OneSpelling(idents) && Over(idents, u.pre) && Over(idents, v.pre) && Over(idents, w.pre)
    ensures Compare(u, v) <= 0 && Compare(v, w) <= 0 ==> Compare(u, w) <= 0
    ensures Compare(u, v) <= 0 && Compare(v, w) <= 0 && Compare(u, w) == 0 ==> Compare(u, v) == 0 && Compare(v, w) == 0
  {
    CompareZero(idents, u, v);
    CompareZero(idents, v, w);
    CompareAntisymmetric(u, v);
    CompareAntisymmetric(v, w);
    CompareStep(u, v, w);
  }

  ghost predicate TransitiveOver(idents: iset<string>) {
    forall u: Version, v: Version, w: Version :: Over(idents, u.pre) && Over(idents, v.pre) && Over(idents, w.pre) ==>
      (Compare(u, v) <= 0 && Compare(v, w) <= 0 ==> Compare(u, w) <= 0)
  }

  // The comparison is a total preorder of the versions with given identifiers if and only if no two of
  // these are numerals of one value.
  lemma PreorderIffOneSpelling(idents: iset<string>)
    ensures TransitiveOver(idents) <==> OneSpelling(idents)
  {
    if OneSpelling(idents) {
      forall u: Version, v: Version, w: Version | Over(idents, u.pre) && Over(idents, v.pre) && Over(idents, w.pre)
        && Compare(u, v) <= 0 && Compare(v, w) <= 0
        ensures Compare(u, w) <= 0
      {
        CompareTransitive(idents, u, v, w);
      }
    } else {
      var x, y :| x in idents && y in idents && NumericIdent(x).Some? && NumericIdent(x) == NumericIdent(y) && x != y;
      TwoSpellingsCycle(x, y);
      assert Over(idents, [x, x]) && Over(idents, [y]) && Over(idents, [x]);
    }
  }

  lemma TwoSpellingsCycle(x: string, y: string)
    requires x != y && NumericIdent(x).Some? && NumericIdent(x) == NumericIdent(y)
    ensures var u, v, w := ZERO.(pre := [x, x]), ZERO.(pre := [y]), ZERO.(pre := [x]);
      Compare(u, v) == 0 && Compare(v, w) == 0 && Compare(u, w) > 0
  {
    var twice, once := [x, x], [x];
    assert twice[1..] == once && once[1..] == [];
    assert CompareLists(once, []) == 1 && CompareLists(twice, once) == CompareLists(once, []);
  }

  // Two spellings of one number are enough to break transitivity, whatever number it is.
  lemma LeadingZeroesBreakTheOrder(x: string, y: string)
    requires x != y && NumericIdent(x).Some? && NumericIdent(x) == NumericIdent(y)
    ensures var a, b, c := ZERO.(pre := [x, "b"]), ZERO.(pre := [y, "c"]), ZERO.(pre := [x, "a"]);
      Compare(a, b) == 0 && Compare(b, c) == 0 && Compare(a, c) > 0
  {
    var p, q := [x, "b"], [x, "a"];
    assert p[1..] == ["b"] && q[1..] == ["a"];
    assert !AllDigits("a") && !AllDigits("b") by {
      assert !IsDigit("a"[0]) && !IsDigit("b"[0]);
    }
    assert CompareIdent("b", "a") == 1 && CompareLists(["b"], ["a"]) == 1;
  }

  // Two spellings of one number end the comparison as a tie while the first list goes on.
  predicate Outruns(a: seq<string>, b: seq<string>) {
    a != [] && b != [] &&
    if a[0] == b[0] then Outruns(a[1..], b[1..]) else CompareIdent(a[0], b[0]) == 0 && |a| > 1
  }

  lemma {:induction false} NothingBetween(v: seq<string>, a: seq<string>, b: seq<string>)
    requires CompareLists(v, a) < 0 && CompareLists(a, b) <= 0 && !Outruns(a, b)
    ensures CompareLists(v, b) < 0
  {
    if v != [] && a != [] && b != [] {
      if v[0] == a[0] && a[0] == b[0] {
        NothingBetween(v[1..], a[1..], b[1..]);
      } else if v[0] != a[0] && a[0] != b[0] {
        if CompareIdent(a[0], b[0]) < 0 {
          CompareIdentTransitive(v[0], a[0], b[0]);
        }
      } else if v[0] == a[0] {
        assert CompareLists(v[1..], a[1..]) < 0;
      }
    }
  }

  // The first list, cut where the tie is.
  lemma {:induction false} CutAtTie(a: seq<string>, b: seq<string>) returns (v: seq<string>)
    requires Outruns(a, b)
    ensures v != [] && CompareLists(v, a) < 0 && CompareLists(v, b) == 0
  {
    if a[0] == b[0] {
      var rest := CutAtTie(a[1..], b[1..]);
      v := [a[0]] + rest;
      assert v[1..] == rest;
    } else {
      v := [a[0]];
      assert v[1..] == [];
    }
  }

  predicate Overtakes(a: Version, b: Version) {
    a.major == b.major && a.minor == b.minor && a.patch == b.patch && Outruns(a.pre, b.pre)
  }

  // Some version comes before `a` and yet not before a `b` that is no lower, exactly when the lists
  // tie on a number spelled in two ways and `a`'s goes on.
  lemma BetweenIffOvertakes(a: Version, b: Version)
    requires Compare(a, b) <= 0
    ensures (exists v :: Compare(v, a) < 0 && Compare(v, b) >= 0) <==> Overtakes(a, b)
  {
    if v :| Compare(v, a) < 0 && Compare(v, b) >= 0 {
      CompareStep(v, a, b);
      if CompareLists(v.pre, a.pre) < 0 && CompareLists(a.pre, b.pre) <= 0 && !Outruns(a.pre, b.pre) {
        NothingBetween(v.pre, a.pre, b.pre);
      }
    }
    if Overtakes(a, b) {
      var cut := CutAtTie(a.pre, b.pre);
      var v := a.(pre := cut);
      assert Compare(v, a) < 0 && Compare(v, b) >= 0;
    }
  }
}
