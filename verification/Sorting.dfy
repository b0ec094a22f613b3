// The standard library's sort.Slice, known to its callers only by its contract: the result is some
// rearrangement, sorted if the comparison is an order, and the order of ties is left open because
// sort.Slice is not stable.
module Sorting {

  // `less` never puts two members both ways round, and "not after" is transitive among them.
  ghost predicate WeakOrder<T(!new)>(less: (T, T) -> bool, s: seq<T>) {
    && (forall a, b :: a in s && b in s && less(a, b) ==> !less(b, a))
    && (forall a, b, c :: a in s && b in s && c in s && !less(b, a) && !less(c, b) ==> !less(c, a))
  }

  ghost predicate SortedBy<T>(less: (T, T) -> bool, s: seq<T>) {
    forall j, k :: 0 <= j < k < |s| ==> !less(s[k], s[j])
  }

  // `from` says which position of `s` each position of `out` was filled from: every one, none twice.
  ghost predicate Rearranged<T>(s: seq<T>, out: seq<T>, from: seq<nat>) {
    && |out| == |s| == |from|
    && (forall k :: 0 <= k < |from| ==> from[k] < |s| && out[k] == s[from[k]])
    && (forall j, k :: 0 <= j < k < |from| ==> from[j] != from[k])
    && (forall i: nat :: i < |s| ==> i in from)
  }

  method SortSlice<T(!new)>(s: seq<T>, less: (T, T) -> bool) returns (out: seq<T>, ghost from: seq<nat>)
    ensures WeakOrder(less, s) ==> SortedBy(less, out)
    ensures multiset(out) == multiset(s)
    ensures forall x :: x in out <==> x in s
    ensures Rearranged(s, out, from)
  {
    out, from := [], [];
    for n := 0 to |s|
      invariant WeakOrder(less, s) ==> SortedBy(less, out)
      invariant multiset(out) == multiset(s[..n])
      invariant Rearranged(s[..n], out, from)
    {
      var p := PlaceFor(s[n], out, less);
      if WeakOrder(less, s) {
        InsertKeepsSorted(less, s, out, from, p, n);
      }
      InsertKeepsRearranged(s, out, from, p, n);
      out, from := out[..p] + [s[n]] + out[p..], from[..p] + [n] + from[p..];
    }
    assert s[..|s|] == s;
    SameMembers(s, out);
  }

  method PlaceFor<T>(x: T, out: seq<T>, less: (T, T) -> bool) returns (p: nat)
    ensures p <= |out|
    ensures p > 0 ==> !less(x, out[p - 1])
    ensures forall k :: p <= k < |out| ==> less(x, out[k])
  {
    p := |out|;
    while p > 0 && less(x, out[p - 1])
      invariant p <= |out|
      invariant forall k :: p <= k < |out| ==> less(x, out[k])
    {
      p := p - 1;
    }
  }

  lemma SameMembers<T>(s: seq<T>, out: seq<T>)
    requires multiset(out) == multiset(s)
    ensures forall x :: x in out <==> x in s
  {
    forall x ensures x in out <==> x in s {
      assert x in out <==> x in multiset(out);
      assert x in s <==> x in multiset(s);
    }
  }

  lemma InsertKeepsRearranged<T>(s: seq<T>, out: seq<T>, from: seq<nat>, p: nat, n: nat)
    requires n < |s| && p <= |out| && Rearranged(s[..n], out, from) && multiset(out) == multiset(s[..n])
    ensures Rearranged(s[..n + 1], out[..p] + [s[n]] + out[p..], from[..p] + [n] + from[p..])
    ensures multiset(out[..p] + [s[n]] + out[p..]) == multiset(s[..n + 1])
  {
    InsertCounts(out, p, s[n]);
    assert s[..n + 1] == s[..n] + [s[n]];
    InsertReaches(from, p, n);
  }

  lemma InsertCounts<T>(out: seq<T>, p: nat, x: T)
    requires p <= |out|
    ensures multiset(out[..p] + [x] + out[p..]) == multiset(out) + multiset{x}
  {
    assert out == out[..p] + out[p..];
  }

  lemma InsertReaches(from: seq<nat>, p: nat, n: nat)
    requires p <= |from| && forall i: nat :: i < n ==> i in from
    ensures forall i: nat :: i < n + 1 ==> i in from[..p] + [n] + from[p..]
  {
    assert from == from[..p] + from[p..];
    forall i: nat | i < n + 1 ensures i in from[..p] + [n] + from[p..] {
      assert i < n ==> i in from;
    }
  }

  lemma InsertKeepsSorted<T(!new)>(less: (T, T) -> bool, s: seq<T>, out: seq<T>, from: seq<nat>, p: nat, n: nat)
    requires WeakOrder(less, s) && n < |s|
    requires Rearranged(s[..n], out, from) && SortedBy(less, out) && p <= |out|
    requires p > 0 ==> !less(s[n], out[p - 1])
    requires forall k :: p <= k < |out| ==> less(s[n], out[k])
    ensures SortedBy(less, out[..p] + [s[n]] + out[p..])
  {
    var x := s[n];
    var r := out[..p] + [x] + out[p..];
    forall j, k | 0 <= j < k < |r| ensures !less(r[k], r[j]) {
      forall i | 0 <= i < |out| ensures out[i] in s {}
      if k < p {
      } else if k == p {
        assert r[j] == out[j];
        if j < p - 1 {
          assert !less(out[p - 1], out[j]);
        }
      } else if j == p {
        assert less(x, out[k - 1]);
      } else {
        var j' := if j < p then j else j - 1;
        assert r[j] == out[j'] && r[k] == out[k - 1];
      }
    }
  }

  // Where `less` tells all members apart there is only one way to sort them.
  lemma {:induction false} StrictOrderIsUnique<T(!new)>(less: (T, T) -> bool, a: seq<T>, b: seq<T>)
    requires multiset(a) == multiset(b)
    requires forall x, y :: less(x, y) ==> !less(y, x)
    requires forall i, j :: 0 <= i < j < |a| ==> less(a[i], a[j])
    requires forall i, j :: 0 <= i < j < |b| ==> less(b[i], b[j])
    ensures a == b
  {
    assert |a| == |multiset(a)| == |b|;
    if a != [] {
      var last := |a| - 1;
      SameLast(less, a, b, last);
      SameWithoutLast(a, b, last);
      StrictOrderIsUnique(less, a[..last], b[..last]);
      assert a == a[..last] + [a[last]] && b == b[..last] + [b[last]];
    }
  }

  lemma SameLast<T(!new)>(less: (T, T) -> bool, a: seq<T>, b: seq<T>, last: nat)
    requires multiset(a) == multiset(b) && |a| == |b| == last + 1
    requires forall x, y :: less(x, y) ==> !less(y, x)
    requires forall i, j :: 0 <= i < j < |a| ==> less(a[i], a[j])
    requires forall i, j :: 0 <= i < j < |b| ==> less(b[i], b[j])
    ensures a[last] == b[last]
  {
    SameMembers(a, b);
    assert a[last] in b && b[last] in a;
  }

  lemma SameWithoutLast<T>(a: seq<T>, b: seq<T>, last: nat)
    requires multiset(a) == multiset(b) && |a| == |b| == last + 1 && a[last] == b[last]
    ensures multiset(a[..last]) == multiset(b[..last])
  {
    assert a == a[..last] + [a[last]] && b == b[..last] + [b[last]];
    assert multiset(a[..last]) == multiset(a) - multiset{a[last]};
  }

  lemma OnceInMultiset<T>(s: seq<T>, i: nat)
    requires i < |s| && forall j :: 0 <= j < |s| && j != i ==> s[j] != s[i]
    ensures multiset(s)[s[i]] == 1
  {
    assert s == s[..i] + [s[i]] + s[i + 1..];
    assert s[i] !in s[..i] && s[i] !in s[i + 1..];
  }

  lemma TwiceInMultiset<T>(s: seq<T>, i: nat, j: nat)
    requires i < j < |s| && s[i] == s[j]
    ensures multiset(s)[s[i]] >= 2
  {
    assert s == s[..j] + s[j..];
    assert s[..j][i] == s[i] && s[j..][0] == s[i];
    assert s[i] in multiset(s[..j]) && s[i] in multiset(s[j..]);
  }

  // Any weak order has a sorting.
  lemma {:induction false} HasSorting<T(!new)>(s: seq<T>, less: (T, T) -> bool) returns (r: seq<T>)
    requires WeakOrder(less, s)
    ensures multiset(r) == multiset(s) && SortedBy(less, r)
  {
    if s == [] {
      r := [];
    } else {
      var n := |s| - 1;
      assert s == s[..n] + [s[n]];
      var t := HasSorting(s[..n], less);
      SameMembers(s[..n], t);
      r := PutInPlace(s, t, s[n], less);
    }
  }

  lemma {:induction false} PutInPlace<T(!new)>(s: seq<T>, t: seq<T>, x: T, less: (T, T) -> bool) returns (r: seq<T>)
    requires WeakOrder(less, s) && x in s && (forall y :: y in t ==> y in s) && SortedBy(less, t)
    ensures multiset(r) == multiset(t + [x]) && SortedBy(less, r)
  {
    var n := |t| - 1;
    if t == [] || !less(x, t[n]) {
      r := t + [x];
      NoneAbove(s, t, x, less);
      AppendKeepsSorted(t, x, less);
    } else {
      var y := t[n];
      var front := PutInPlace(s, t[..n], x, less);
      assert t == t[..n] + [y];
      SameMembers(t[..n] + [x], front);
      r := front + [y];
      forall k | 0 <= k < |front| ensures !less(y, front[k]) {
        assert front[k] in t[..n] + [x];
      }
      AppendKeepsSorted(front, y, less);
      MovedPast(t[..n], front, x, y);
    }
  }

  lemma NoneAbove<T(!new)>(s: seq<T>, t: seq<T>, x: T, less: (T, T) -> bool)
    requires WeakOrder(less, s) && x in s && (forall y :: y in t ==> y in s) && SortedBy(less, t)
    requires t != [] ==> !less(x, t[|t| - 1])
    ensures forall k :: 0 <= k < |t| ==> !less(x, t[k])
  {
    forall k | 0 <= k < |t| ensures !less(x, t[k]) {
      var n := |t| - 1;
      assert t[k] in t && t[n] in t && (k < n ==> !less(t[n], t[k]));
    }
  }

  lemma AppendKeepsSorted<T>(t: seq<T>, x: T, less: (T, T) -> bool)
    requires SortedBy(less, t) && forall k :: 0 <= k < |t| ==> !less(x, t[k])
    ensures SortedBy(less, t + [x])
  {
  }

  lemma MovedPast<T>(t: seq<T>, front: seq<T>, x: T, y: T)
    requires multiset(front) == multiset(t + [x])
    ensures multiset(front + [y]) == multiset(t + [y] + [x])
  {
  }

  lemma PrefixGrows<T>(s: seq<T>, k: nat)
    requires k < |s|
    ensures s[..k + 1] == s[..k] + [s[k]]
  {
  }
}
