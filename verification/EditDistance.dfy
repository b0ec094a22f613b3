// Levenshtein distance with two rolling rows (internal/typosquat/distance.go).
module EditDistance {
  type Runes = seq<char>

  // One insertion, deletion or substitution of a single rune.
  function Inserted(a: Runes, k: nat, x: char): Runes
    requires k <= |a|
  {
    a[..k] + [x] + a[k..]
  }

  function Replaced(a: Runes, k: nat, x: char): Runes
    requires k < |a|
  {
    a[k := x]
  }

  ghost predicate Inserts(a: Runes, b: Runes) {
    exists k: nat, x :: k <= |a| && b == Inserted(a, k, x)
  }

  ghost predicate Substitutes(a: Runes, b: Runes) {
    exists k: nat, x :: k < |a| && b == Replaced(a, k, x)
  }

  ghost predicate OneEdit(a: Runes, b: Runes) {
    Inserts(a, b) || Inserts(b, a) || Substitutes(a, b)
  }

  // A script: the strings passed through, each one edit from the last.
  ghost predicate Script(s: seq<Runes>, a: Runes, b: Runes) {
    s != [] && s[0] == a && s[|s| - 1] == b && forall k :: 0 < k < |s| ==> OneEdit(s[k - 1], s[k])
  }

  // The length of some script is n edits.
  ghost predicate Reaches(a: Runes, b: Runes, n: nat) {
    exists s :: Script(s, a, b) && |s| == n + 1
  }

  function Min3(x: int, y: int, z: int): int {
    if x <= y && x <= z then x else if y <= z then y else z
  }

  // The recurrence, on the first i runes of `a` and the first j of `b`.
  function Prefixes(a: Runes, b: Runes, i: nat, j: nat): nat
    requires i <= |a| && j <= |b|
  {
    if i == 0 then j
    else if j == 0 then i
    else Min3(Prefixes(a, b, i - 1, j) + 1, Prefixes(a, b, i, j - 1) + 1,
              Prefixes(a, b, i - 1, j - 1) + Cost(a[i - 1], b[j - 1]))
  }

  function Distance(a: Runes, b: Runes): nat {
    Prefixes(a, b, |a|, |b|)
  }

  function Cost(x: char, y: char): nat {
    if x == y then 0 else 1
  }

  // A table of cells that obeys the recurrence. Lemmas speak of such tables, and open one cell at a
  // time.
  type Cells = (nat, nat) -> int

  ghost predicate Cell(f: Cells, a: Runes, b: Runes, i: nat, j: nat)
    requires i <= |a| && j <= |b|
  {
    f(i, j) ==
      if i == 0 then j
      else if j == 0 then i
      else Min3(f(i - 1, j) + 1, f(i, j - 1) + 1, f(i - 1, j - 1) + Cost(a[i - 1], b[j - 1]))
  }

  ghost predicate IsTable(f: Cells, a: Runes, b: Runes) {
    forall i: nat, j: nat {:trigger Cell(f, a, b, i, j)} :: i <= |a| && j <= |b| ==> Cell(f, a, b, i, j)
  }

  ghost function TableOf(a: Runes, b: Runes): (f: Cells)
    ensures IsTable(f, a, b) && f(|a|, |b|) == Distance(a, b)
    ensures forall i: nat, j: nat :: i <= |a| && j <= |b| ==> f(i, j) == Prefixes(a, b, i, j)
  {
    (i: nat, j: nat) => if i <= |a| && j <= |b| then Prefixes(a, b, i, j) else 0
  }

  lemma {:induction false} TablesAreSymmetric(f: Cells, g: Cells, a: Runes, b: Runes, i: nat, j: nat)
    requires IsTable(f, a, b) && IsTable(g, b, a) && i <= |a| && j <= |b|
    ensures f(i, j) == g(j, i)
  {
    assert Cell(f, a, b, i, j) && Cell(g, b, a, j, i);
    if i > 0 && j > 0 {
      TablesAreSymmetric(f, g, a, b, i - 1, j);
      TablesAreSymmetric(f, g, a, b, i, j - 1);
      TablesAreSymmetric(f, g, a, b, i - 1, j - 1);
    }
  }

  lemma DistanceIsSymmetric(a: Runes, b: Runes)
    ensures Distance(a, b) == Distance(b, a)
  {
    TablesAreSymmetric(TableOf(a, b), TableOf(b, a), a, b, |a|, |b|);
  }

  lemma {:induction false} PrefixesZero(a: Runes, b: Runes, i: nat, j: nat)
    requires i <= |a| && j <= |b|
    ensures Prefixes(a, b, i, j) == 0 <==> a[..i] == b[..j]
  {
    if i > 0 && j > 0 {
      PrefixesZero(a, b, i - 1, j - 1);
      assert a[..i] == a[..i - 1] + [a[i - 1]] && b[..j] == b[..j - 1] + [b[j - 1]];
    }
  }

  lemma DistanceZero(a: Runes, b: Runes)
    ensures Distance(a, b) == 0 <==> a == b
  {
    PrefixesZero(a, b, |a|, |b|);
    assert a[..|a|] == a && b[..|b|] == b;
  }

  // The swap of operands and the two rows come to the recurrence. `decode` is []rune: two byte
  // strings that are not valid UTF-8 may decode alike.
  method EditDistance<B(==)>(a: seq<B>, b: seq<B>, decode: seq<B> -> Runes) returns (d: nat)
    ensures d == Distance(decode(a), decode(b))
  {
    if a == b {
      DistanceZero(decode(a), decode(b));
      return 0;
    }
    var ra, rb := decode(a), decode(b);
    if |ra| > |rb| {
      DistanceIsSymmetric(ra, rb);
      ra, rb := rb, ra;
    }
    d := Rows(ra, rb);
  }

  // Row i of the table holds the distances from prefixes of `ra` to the first i runes of `rb`.
  ghost predicate IsRow(row: array<int>, ra: Runes, rb: Runes, i: nat, upto: nat)
    requires i <= |rb| && upto <= |ra| && row.Length == |ra| + 1
    reads row
  {
    forall j :: 0 <= j <= upto ==> row[j] == Prefixes(ra, rb, j, i)
  }

  method Rows(ra: Runes, rb: Runes) returns (d: nat)
    ensures d == Distance(ra, rb)
  {
    var prev := new int[|ra| + 1](j => j);
    var curr := new int[|ra| + 1](_ => 0);
    for i := 1 to |rb| + 1
      invariant fresh(prev) && fresh(curr) && prev != curr && prev.Length == curr.Length == |ra| + 1
      invariant IsRow(prev, ra, rb, i - 1, |ra|)
    {
      FillRow(prev, curr, ra, rb, i);
      prev, curr := curr, prev;
    }
    d := prev[|ra|];
  }

  // Row i, from the one before it.
  method FillRow(prev: array<int>, curr: array<int>, ra: Runes, rb: Runes, i: nat)
    requires 0 < i <= |rb| && prev != curr && prev.Length == curr.Length == |ra| + 1
    requires IsRow(prev, ra, rb, i - 1, |ra|)
    modifies curr
    ensures IsRow(curr, ra, rb, i, |ra|)
  {
    curr[0] := i;
    for j := 1 to |ra| + 1
      invariant IsRow(prev, ra, rb, i - 1, |ra|) && IsRow(curr, ra, rb, i, j - 1)
    {
      var cost := if rb[i - 1] == ra[j - 1] then 0 else 1;
      curr[j] := Min3(prev[j] + 1, curr[j - 1] + 1, prev[j - 1] + cost);
    }
  }

  lemma {:induction false} SamePrefixesSameCells(f: Cells, g: Cells, a: Runes, b: Runes, c: Runes, i: nat, j: nat)
    requires IsTable(f, a, c) && IsTable(g, b, c) && i <= |a| && i <= |b| && j <= |c|
    requires forall k :: 0 <= k < i ==> a[k] == b[k]
    ensures f(i, j) == g(i, j)
  {
    assert Cell(f, a, c, i, j) && Cell(g, b, c, i, j);
    if i > 0 && j > 0 {
      SamePrefixesSameCells(f, g, a, b, c, i - 1, j);
      SamePrefixesSameCells(f, g, a, b, c, i, j - 1);
      SamePrefixesSameCells(f, g, a, b, c, i - 1, j - 1);
    }
  }

  // One edit moves the answer by at most 1, whatever the other string.
  lemma {:induction false} NeighbourCells(f: Cells, a: Runes, c: Runes, i: nat, j: nat)
    requires IsTable(f, a, c) && i < |a| && j <= |c|
    ensures f(i, j) <= f(i + 1, j) + 1 && f(i + 1, j) <= f(i, j) + 1
  {
    assert Cell(f, a, c, i, j) && Cell(f, a, c, i + 1, j);
    if j > 0 {
      NeighbourCells(f, a, c, i, j - 1);
      assert Cell(f, a, c, i, j - 1);
    }
  }

  lemma {:induction false} InsertionMovesByOne(f: Cells, g: Cells, a: Runes, k: nat, x: char, c: Runes, i: nat, j: nat)
    requires k <= i <= |a| && j <= |c| && IsTable(f, a, c) && IsTable(g, Inserted(a, k, x), c)
    ensures f(i, j) <= g(i + 1, j) + 1 && g(i + 1, j) <= f(i, j) + 1
  {
    var b := Inserted(a, k, x);
    if i == k {
      SamePrefixesSameCells(f, g, a, b, c, i, j);
      NeighbourCells(g, b, c, i, j);
    } else {
      assert Cell(f, a, c, i, j) && Cell(g, b, c, i + 1, j);
      if j > 0 {
        assert b[i] == a[i - 1];
        InsertionMovesByOne(f, g, a, k, x, c, i - 1, j);
        InsertionMovesByOne(f, g, a, k, x, c, i, j - 1);
        InsertionMovesByOne(f, g, a, k, x, c, i - 1, j - 1);
      }
    }
  }

  lemma {:induction false} SubstitutionMovesByOne(f: Cells, g: Cells, a: Runes, k: nat, x: char, c: Runes, i: nat, j: nat)
    requires k < i <= |a| && j <= |c| && IsTable(f, a, c) && IsTable(g, Replaced(a, k, x), c)
    ensures f(i, j) <= g(i, j) + 1
  {
    var b := Replaced(a, k, x);
    assert Cell(f, a, c, i, j) && Cell(g, b, c, i, j);
    if j > 0 {
      SubstitutionMovesByOne(f, g, a, k, x, c, i, j - 1);
      if i - 1 == k {
        SamePrefixesSameCells(f, g, a, b, c, k, j);
        SamePrefixesSameCells(f, g, a, b, c, k, j - 1);
      } else {
        SubstitutionMovesByOne(f, g, a, k, x, c, i - 1, j);
        SubstitutionMovesByOne(f, g, a, k, x, c, i - 1, j - 1);
      }
    }
  }

  lemma EditMovesByOne(a: Runes, b: Runes, c: Runes)
    requires OneEdit(a, b)
    ensures Distance(a, c) <= Distance(b, c) + 1
  {
    var f, g := TableOf(a, c), TableOf(b, c);
    if Inserts(a, b) {
      var k: nat, x :| k <= |a| && b == Inserted(a, k, x);
      InsertionMovesByOne(f, g, a, k, x, c, |a|, |c|);
    } else if Inserts(b, a) {
      var k: nat, x :| k <= |b| && a == Inserted(b, k, x);
      InsertionMovesByOne(g, f, b, k, x, c, |b|, |c|);
    } else {
      var k: nat, x :| k < |a| && b == Replaced(a, k, x);
      SubstitutionMovesByOne(f, g, a, k, x, c, |a|, |c|);
    }
  }

  lemma {:induction false} NoScriptIsShorter(s: seq<Runes>, a: Runes, b: Runes)
    requires Script(s, a, b)
    ensures Distance(a, b) <= |s| - 1
    decreases |s|
  {
    if |s| == 1 {
      DistanceZero(a, b);
    } else {
      var rest := s[1..];
      assert OneEdit(s[0], s[1]);
      forall k | 0 < k < |rest| ensures OneEdit(rest[k - 1], rest[k]) {
        assert OneEdit(s[k], s[k + 1]);
      }
      NoScriptIsShorter(rest, s[1], b);
      EditMovesByOne(a, s[1], b);
    }
  }

  // And some script is as short as the recurrence says.
  function Append(s: seq<Runes>, x: char): (r: seq<Runes>)
    ensures |r| == |s| && forall k :: 0 <= k < |s| ==> r[k] == s[k] + [x]
  {
    if s == [] then [] else [s[0] + [x]] + Append(s[1..], x)
  }

  lemma EditUnderAppend(a: Runes, b: Runes, x: char)
    requires OneEdit(a, b)
    ensures OneEdit(a + [x], b + [x])
  {
    if Inserts(a, b) {
      var k: nat, y :| k <= |a| && b == Inserted(a, k, y);
      assert b + [x] == Inserted(a + [x], k, y);
    } else if Inserts(b, a) {
      var k: nat, y :| k <= |b| && a == Inserted(b, k, y);
      assert a + [x] == Inserted(b + [x], k, y);
    } else {
      var k: nat, y :| k < |a| && b == Replaced(a, k, y);
      assert b + [x] == Replaced(a + [x], k, y);
    }
  }

  lemma ScriptUnderAppend(s: seq<Runes>, a: Runes, b: Runes, x: char)
    requires Script(s, a, b)
    ensures Script(Append(s, x), a + [x], b + [x])
  {
    var r := Append(s, x);
    forall k | 0 < k < |r| ensures OneEdit(r[k - 1], r[k]) {
      EditUnderAppend(s[k - 1], s[k], x);
    }
  }

  lemma EditThenScript(a: Runes, s: seq<Runes>, m: Runes, b: Runes)
    requires OneEdit(a, m) && Script(s, m, b)
    ensures Script([a] + s, a, b)
  {
    var r := [a] + s;
    forall k | 0 < k < |r| ensures OneEdit(r[k - 1], r[k]) {
      assert k > 1 ==> OneEdit(s[k - 2], s[k - 1]);
    }
  }

  lemma ScriptThenEdit(s: seq<Runes>, a: Runes, m: Runes, b: Runes)
    requires Script(s, a, m) && OneEdit(m, b)
    ensures Script(s + [b], a, b)
  {
    var r := s + [b];
    forall k | 0 < k < |r| ensures OneEdit(r[k - 1], r[k]) {
      assert k < |s| ==> OneEdit(s[k - 1], s[k]);
    }
  }

  lemma LastRune(a: Runes, i: nat)
    requires 0 < i <= |a|
    ensures a[..i] == a[..i - 1] + [a[i - 1]]
    ensures OneEdit(a[..i], a[..i - 1]) && OneEdit(a[..i - 1], a[..i])
  {
    assert a[..i] == Inserted(a[..i - 1], i - 1, a[i - 1]);
    assert Inserts(a[..i - 1], a[..i]);
  }

  lemma {:induction false} ShortScript(a: Runes, b: Runes, i: nat, j: nat) returns (s: seq<Runes>)
    requires i <= |a| && j <= |b|
    ensures Script(s, a[..i], b[..j]) && |s| == Prefixes(a, b, i, j) + 1
  {
    if i == 0 && j == 0 {
      s := [[]];
    } else if i == 0 || (j > 0 && Prefixes(a, b, i, j) == Prefixes(a, b, i, j - 1) + 1) {
      assert j > 0;
      LastRune(b, j);
      var t := ShortScript(a, b, i, j - 1);
      ScriptThenEdit(t, a[..i], b[..j - 1], b[..j]);
      s := t + [b[..j]];
    } else if j == 0 || Prefixes(a, b, i, j) == Prefixes(a, b, i - 1, j) + 1 {
      LastRune(a, i);
      var t := ShortScript(a, b, i - 1, j);
      EditThenScript(a[..i], t, a[..i - 1], b[..j]);
      s := [a[..i]] + t;
    } else {
      var t := ShortScript(a, b, i - 1, j - 1);
      s := KeepOrReplaceLast(a, b, i, j, t);
    }
  }

  lemma KeepOrReplaceLast(a: Runes, b: Runes, i: nat, j: nat, t: seq<Runes>) returns (s: seq<Runes>)
    requires 0 < i <= |a| && 0 < j <= |b| && Script(t, a[..i - 1], b[..j - 1])
    ensures Script(s, a[..i], b[..j]) && |s| == |t| + Cost(a[i - 1], b[j - 1])
  {
    var y := b[j - 1];
    ScriptUnderAppend(t, a[..i - 1], b[..j - 1], y);
    LastRune(a, i);
    LastRune(b, j);
    s := Append(t, y);
    if a[i - 1] != y {
      assert a[..i - 1] + [y] == Replaced(a[..i], i - 1, y);
      EditThenScript(a[..i], s, a[..i - 1] + [y], b[..j]);
      s := [a[..i]] + s;
    }
  }

  lemma SomeScriptIsThatShort(a: Runes, b: Runes) returns (s: seq<Runes>)
    ensures Script(s, a, b) && |s| == Distance(a, b) + 1
  {
    s := ShortScript(a, b, |a|, |b|);
    assert a[..|a|] == a && b[..|b|] == b;
  }

  lemma DistanceIsShortestScript(a: Runes, b: Runes)
    ensures Reaches(a, b, Distance(a, b))
    ensures forall n: nat :: Reaches(a, b, n) ==> Distance(a, b) <= n
  {
    var s := SomeScriptIsThatShort(a, b);
    forall n: nat | Reaches(a, b, n) ensures Distance(a, b) <= n {
      var t :| Script(t, a, b) && |t| == n + 1;
      NoScriptIsShorter(t, a, b);
    }
  }

  // One script after another.
  lemma TriangleInequality(a: Runes, b: Runes, c: Runes)
    ensures Distance(a, c) <= Distance(a, b) + Distance(b, c)
  {
    var s := SomeScriptIsThatShort(a, b);
    var t := SomeScriptIsThatShort(b, c);
    var u := s + t[1..];
    forall k | 0 < k < |u| ensures OneEdit(u[k - 1], u[k]) {
      if k < |s| {
        assert OneEdit(s[k - 1], s[k]);
      } else {
        var i := k - |s| + 1;
        assert u[k] == t[i] && u[k - 1] == t[i - 1];
        assert OneEdit(t[i - 1], t[i]);
      }
    }
    assert u[|u| - 1] == c;
    NoScriptIsShorter(u, a, c);
  }
}
