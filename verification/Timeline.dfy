// The sweep over publish times (Windows and clamp in internal/resolve/windows.go), for any notion of
// version: all it needs of the comparison is that a strict step carries it over.
module Timeline {
  import opened Wrappers
  import opened Sorting
  import opened Intervals

  datatype Window = Window(version: string, from: int, to: int) {
    predicate Contains(t: int) {
      from <= t < to
    }
  }

  datatype Candidate<V> = Candidate(version: V, raw: string, published: int)

  ghost predicate Opposite<V>(cmp: (V, V) -> int, x: V, y: V) {
    cmp(x, y) == -cmp(y, x)
  }

  ghost predicate StepCarries<V>(cmp: (V, V) -> int, x: V, y: V, z: V) {
    cmp(x, y) <= 0 && cmp(y, z) < 0 ==> cmp(x, z) <= 0 && (cmp(x, y) < 0 ==> cmp(x, z) < 0)
  }

  ghost predicate TieCarries<V>(cmp: (V, V) -> int, x: V, y: V, z: V) {
    cmp(x, y) <= 0 && cmp(y, z) <= 0 ==> cmp(x, z) <= 0
  }

  // What the sweep needs of the comparison. Ties need not carry over.
  ghost predicate Climbs<V(!new)>(cmp: (V, V) -> int) {
    && (forall x, y :: Opposite(cmp, x, y))
    && (forall x, y, z :: StepCarries(cmp, x, y, z))
  }

  // What the sort needs: among different candidates published in one second, ties do carry over.
  ghost predicate TiesCarry<V(!new)>(cmp: (V, V) -> int, c: seq<Candidate<V>>) {
    forall x, y, z :: x in c && y in c && z in c && x != y && y != z && x.published == y.published == z.published ==>
      TieCarries(cmp, x.version, y.version, z.version)
  }

  // Publish order; of two versions published in one second the higher precedence one sorts last.
  function Sooner<V>(cmp: (V, V) -> int): (Candidate<V>, Candidate<V>) -> bool {
    (a: Candidate<V>, b: Candidate<V>) =>
      if a.published != b.published then a.published < b.published else cmp(a.version, b.version) < 0
  }

  lemma SoonerIsWeakOrder<V(!new)>(cmp: (V, V) -> int, c: seq<Candidate<V>>)
    requires Climbs(cmp) && TiesCarry(cmp, c)
    ensures WeakOrder(Sooner(cmp), c)
  {
    var less := Sooner(cmp);
    forall x, y | x in c && y in c && less(x, y) ensures !less(y, x) {
      assert Opposite(cmp, x.version, y.version);
    }
    forall x, y, z | x in c && y in c && z in c && !less(y, x) && !less(z, y) ensures !less(z, x) {
      assert Opposite(cmp, x.version, y.version) && Opposite(cmp, y.version, z.version) && Opposite(cmp, x.version, z.version);
      if x != y && y != z && x.published == y.published == z.published {
        assert TieCarries(cmp, x.version, y.version, z.version);
      }
    }
  }

  // Where each window opens: candidates in order, the first of all being the first.
  ghost predicate Marks(k: nat, at: seq<nat>) {
    && |at| > 0 && at[0] == 0
    && (forall i :: 0 <= i < |at| ==> at[i] < k)
    && (forall i, j :: 0 <= i < j < |at| ==> at[i] < at[j])
  }

  // Where in the candidates window i stops being the answer.
  ghost function Until(k: nat, at: seq<nat>, i: nat): nat
    requires i < |at|
  {
    if i + 1 < |at| then at[i + 1] else k
  }

  ghost function WindowOf<V>(c: seq<Candidate<V>>, at: seq<nat>, i: nat): Window
    requires i < |at| && forall i :: 0 <= i < |at| ==> at[i] < |c|
  {
    Window(c[at[i]].raw, c[at[i]].published, if i + 1 < |at| then c[at[i + 1]].published else OPEN_INTERVAL)
  }

  ghost predicate Highest<V(!new)>(cmp: (V, V) -> int, c: seq<Candidate<V>>, k: nat, at: seq<nat>)
    requires Marks(k, at) && k <= |c|
  {
    forall i, j {:trigger cmp(c[j].version, c[at[i]].version)} ::
      0 <= i < |at| && 0 <= j < Until(k, at, i) ==> cmp(c[j].version, c[at[i]].version) <= 0
  }

  ghost predicate Rising<V(!new)>(cmp: (V, V) -> int, c: seq<Candidate<V>>, k: nat, at: seq<nat>)
    requires Marks(k, at) && k <= |c|
  {
    forall i, j {:trigger cmp(c[at[i]].version, c[at[j]].version)} ::
      0 <= i < j < |at| ==> cmp(c[at[i]].version, c[at[j]].version) < 0
  }

  // The sweep after k candidates: window i opens with candidate at[i] and closes when the next one
  // opens, and that candidate is the highest of all before then.
  ghost predicate Swept<V(!new)>(cmp: (V, V) -> int, c: seq<Candidate<V>>, k: nat, ws: seq<Window>, at: seq<nat>)
    requires k <= |c|
  {
    && Marks(k, at) && |ws| == |at| && (forall i {:trigger ws[i]} :: 0 <= i < |ws| ==> ws[i] == WindowOf(c, at, i))
    && Highest(cmp, c, k, at) && Rising(cmp, c, k, at)
  }

  function Extend<V>(ws: seq<Window>, c: Candidate<V>): seq<Window>
    requires |ws| > 0
  {
    var last := |ws| - 1;
    ws[last := Window(ws[last].version, ws[last].from, c.published)] + [Window(c.raw, c.published, OPEN_INTERVAL)]
  }

  lemma SweepStarts<V(!new)>(cmp: (V, V) -> int, c: seq<Candidate<V>>)
    requires |c| > 0 && Climbs(cmp)
    ensures Swept(cmp, c, 1, [Window(c[0].raw, c[0].published, OPEN_INTERVAL)], [0])
  {
    assert Opposite(cmp, c[0].version, c[0].version);
  }

  lemma SweepSkips<V(!new)>(cmp: (V, V) -> int, c: seq<Candidate<V>>, k: nat, ws: seq<Window>, at: seq<nat>)
    requires 0 < k < |c| && Swept(cmp, c, k, ws, at)
    requires cmp(c[k].version, c[at[|at| - 1]].version) <= 0
    ensures Swept(cmp, c, k + 1, ws, at)
  {
  }

  lemma SweepSteps<V(!new)>(cmp: (V, V) -> int, c: seq<Candidate<V>>, k: nat, ws: seq<Window>, at: seq<nat>)
    requires 0 < k < |c| && Swept(cmp, c, k, ws, at) && Climbs(cmp)
    requires cmp(c[k].version, c[at[|at| - 1]].version) > 0
    ensures Swept(cmp, c, k + 1, Extend(ws, c[k]), at + [k])
  {
    assert Marks(k + 1, at + [k]);
    StepKeepsHighest(cmp, c, k, at);
    StepKeepsRising(cmp, c, k, at);
    StepOpensWindow(c, k, ws, at);
  }

  lemma StepOpensWindow<V>(c: seq<Candidate<V>>, k: nat, ws: seq<Window>, at: seq<nat>)
    requires k < |c| && Marks(k, at) && |ws| == |at| && forall i :: 0 <= i < |ws| ==> ws[i] == WindowOf(c, at, i)
    ensures var ws' := Extend(ws, c[k]);
      |ws'| == |at| + 1 && forall i :: 0 <= i < |ws'| ==> ws'[i] == WindowOf(c, at + [k], i)
  {
    var ws', at' := Extend(ws, c[k]), at + [k];
    forall i | 0 <= i < |ws'| ensures ws'[i] == WindowOf(c, at', i) {
      if i < |ws| {
        assert ws[i] == WindowOf(c, at, i) && at'[i] == at[i];
      }
    }
  }

  lemma StepKeepsHighest<V(!new)>(cmp: (V, V) -> int, c: seq<Candidate<V>>, k: nat, at: seq<nat>)
    requires k < |c| && Marks(k, at) && Highest(cmp, c, k, at) && Climbs(cmp)
    requires cmp(c[k].version, c[at[|at| - 1]].version) > 0
    ensures Highest(cmp, c, k + 1, at + [k])
  {
    var at', best := at + [k], c[at[|at| - 1]].version;
    forall i, j | 0 <= i < |at'| && 0 <= j < Until(k + 1, at', i)
      ensures cmp(c[j].version, c[at'[i]].version) <= 0
    {
      if i < |at| {
        assert Until(k + 1, at', i) == Until(k, at, i) && at'[i] == at[i];
      } else if j < k {
        assert j < Until(k, at, |at| - 1);
        assert Opposite(cmp, c[k].version, best) && StepCarries(cmp, c[j].version, best, c[k].version);
      } else {
        assert Opposite(cmp, c[k].version, c[k].version);
      }
    }
  }

  lemma StepKeepsRising<V(!new)>(cmp: (V, V) -> int, c: seq<Candidate<V>>, k: nat, at: seq<nat>)
    requires k < |c| && Marks(k, at) && Rising(cmp, c, k, at) && Climbs(cmp)
    requires cmp(c[k].version, c[at[|at| - 1]].version) > 0
    ensures Rising(cmp, c, k + 1, at + [k])
  {
    var at', last := at + [k], |at| - 1;
    var best := c[at[last]].version;
    forall i, j | 0 <= i < j < |at'| ensures cmp(c[at'[i]].version, c[at'[j]].version) < 0 {
      if j == |at| {
        assert Opposite(cmp, c[k].version, best);
        if i < last {
          assert cmp(c[at[i]].version, best) < 0;
          assert StepCarries(cmp, c[at[i]].version, best, c[k].version);
        }
      } else {
        assert at'[i] == at[i] && at'[j] == at[j];
      }
    }
  }

  // Which release the windows name at an instant.
  function WindowAt(ws: seq<Window>, t: int): Option<string> {
    if ws == [] then None else if ws[0].Contains(t) then Some(ws[0].version) else WindowAt(ws[1..], t)
  }

  // One window of the clamped list, if any of it is left.
  function Clamped(w: Window, declaredAt: int): Option<Window> {
    if declaredAt > 0 && w.to <= declaredAt then None
    else
      var cut := if declaredAt > 0 && w.from < declaredAt then w.(from := declaredAt) else w;
      if cut.from >= cut.to then None else Some(cut)
  }

  function ClampAll(ws: seq<Window>, declaredAt: int): seq<Window> {
    if ws == [] then []
    else
      var head := ClampAll(ws[..|ws| - 1], declaredAt);
      match Clamped(ws[|ws| - 1], declaredAt)
      case None => head
      case Some(w) => head + [w]
  }

  // Compacts the first n windows of the array into its own front.
  method Clamp(a: array<Window>, n: nat, declaredAt: int) returns (m: nat)
    requires n <= a.Length
    modifies a
    ensures m <= n && a[..m] == ClampAll(old(a[..n]), declaredAt)
    ensures a[n..] == old(a[n..])
  {
    m := 0;
    for k := 0 to n
      invariant m <= k && a[..m] == ClampAll(old(a[..k]), declaredAt)
      invariant a[k..] == old(a[k..])
    {
      var w := a[k];
      assert w == old(a[k]) by {
        assert a[k..][0] == old(a[k..])[0];
      }
      assert old(a[..k + 1])[..k] == old(a[..k]);
      if declaredAt > 0 {
        if w.to <= declaredAt {
          continue;
        }
        if w.from < declaredAt {
          w := w.(from := declaredAt);
        }
      }
      if w.from >= w.to {
        continue;
      }
      ghost var before := a[..m];
      ghost var rest := a[k + 1..];
      a[m] := w;
      m := m + 1;
      assert a[..m] == before + [w];
      assert a[k + 1..] == rest;
    }
  }

  method Sweep<V(!new)>(cmp: (V, V) -> int, c: seq<Candidate<V>>) returns (a: array<Window>, n: nat, ghost at: seq<nat>)
    requires |c| > 0 && Climbs(cmp)
    ensures fresh(a) && n <= a.Length && Swept(cmp, c, |c|, a[..n], at)
  {
    a := new Window[|c|](_ => Window("", 0, 0));
    var best := c[0];
    a[0], n, at := Window(best.raw, best.published, OPEN_INTERVAL), 1, [0];
    SweepStarts(cmp, c);
    ghost var ws := [Window(best.raw, best.published, OPEN_INTERVAL)];
    for k := 1 to |c|
      invariant n == |at| && 1 <= n <= k && Swept(cmp, c, k, ws, at)
      invariant a[..n] == ws && best == c[at[n - 1]]
    {
      if cmp(c[k].version, best.version) <= 0 {
        SweepSkips(cmp, c, k, ws, at);
        continue;
      }
      ghost var here: nat := k;
      SweepSteps(cmp, c, here, ws, at);
      Append(a, n, c[k]);
      n, best := n + 1, c[k];
      ws, at := Extend(ws, c[k]), at + [here];
    }
  }

  // Closes the open window and opens the next.
  method Append<V>(a: array<Window>, n: nat, c: Candidate<V>)
    requires 0 < n < a.Length
    modifies a
    ensures a[..n + 1] == Extend(old(a[..n]), c)
  {
    a[n - 1] := Window(a[n - 1].version, a[n - 1].from, c.published);
    a[n] := Window(c.raw, c.published, OPEN_INTERVAL);
  }

  ghost predicate PublishOrder<V>(c: seq<Candidate<V>>) {
    forall i, j :: 0 <= i <= j < |c| ==> c[i].published <= c[j].published
  }

  // The highest of what was published by t.
  ghost predicate HighestBy<V(!new)>(cmp: (V, V) -> int, c: seq<Candidate<V>>, t: int, i: nat)
    requires i < |c|
  {
    c[i].published <= t && forall j :: 0 <= j < |c| && c[j].published <= t ==> cmp(c[j].version, c[i].version) <= 0
  }

  lemma {:induction false} WindowAtFirst(ws: seq<Window>, t: int, i: nat)
    requires i < |ws| && ws[i].Contains(t) && forall k :: 0 <= k < i ==> !ws[k].Contains(t)
    ensures WindowAt(ws, t) == Some(ws[i].version)
  {
    if i > 0 {
      WindowAtFirst(ws[1..], t, i - 1);
    }
  }

  lemma {:induction false} WindowAtNone(ws: seq<Window>, t: int)
    requires forall k :: 0 <= k < |ws| ==> !ws[k].Contains(t)
    ensures WindowAt(ws, t) == None
  {
    if ws != [] {
      WindowAtNone(ws[1..], t);
    }
  }

  // Before clamping, at every instant: nothing exactly when nothing was out, else the highest.
  lemma SweptNamesHighest<V(!new)>(cmp: (V, V) -> int, c: seq<Candidate<V>>, ws: seq<Window>, at: seq<nat>, t: int)
      returns (best: nat)
    requires Swept(cmp, c, |c|, ws, at) && PublishOrder(c) && t < OPEN_INTERVAL
    ensures best < |c|
    ensures WindowAt(ws, t) == None ==> forall j :: 0 <= j < |c| ==> c[j].published > t
    ensures WindowAt(ws, t).Some? ==> WindowAt(ws, t).value == c[best].raw && HighestBy(cmp, c, t, best)
  {
    var i := |ws| - 1;
    while i > 0 && c[at[i]].published > t
      invariant 0 <= i < |ws|
      invariant i + 1 < |ws| ==> c[at[i + 1]].published > t
    {
      i := i - 1;
    }
    best := at[i];
    assert forall k :: 0 <= k < |ws| ==> ws[k] == WindowOf(c, at, k);
    if c[best].published > t {
      forall k | 0 <= k < |ws| ensures !ws[k].Contains(t) {
        assert c[at[0]].published <= c[at[k]].published;
      }
      WindowAtNone(ws, t);
    } else {
      forall k | 0 <= k < i ensures !ws[k].Contains(t) {
        assert at[k + 1] <= at[i];
      }
      WindowAtFirst(ws, t, i);
      forall j | 0 <= j < |c| && c[j].published <= t ensures cmp(c[j].version, c[best].version) <= 0 {
        assert j < Until(|c|, at, i);
      }
    }
  }

  lemma {:induction false} WindowAtAppend(ws: seq<Window>, w: Window, t: int)
    ensures WindowAt(ws + [w], t) ==
      if WindowAt(ws, t).Some? then WindowAt(ws, t) else if w.Contains(t) then Some(w.version) else None
  {
    if ws != [] {
      assert (ws + [w])[1..] == ws[1..] + [w];
      WindowAtAppend(ws[1..], w, t);
    }
  }

  // From the dependent's publish on, clamping changes no answer.
  lemma {:induction false} ClampKeepsAnswers(ws: seq<Window>, declaredAt: int, t: int)
    requires declaredAt > 0 ==> t >= declaredAt
    ensures WindowAt(ClampAll(ws, declaredAt), t) == WindowAt(ws, t)
  {
    if ws != [] {
      var head, w := ws[..|ws| - 1], ws[|ws| - 1];
      assert ws == head + [w];
      ClampKeepsAnswers(head, declaredAt, t);
      WindowAtAppend(head, w, t);
      if Clamped(w, declaredAt).Some? {
        WindowAtAppend(ClampAll(head, declaredAt), Clamped(w, declaredAt).value, t);
      }
    }
  }

  // Where each surviving window came from: in order, none widened, none left before the dependent.
  ghost predicate CutFrom(ws: seq<Window>, declaredAt: int, r: seq<Window>, from: seq<nat>) {
    && |from| == |r|
    && (forall i :: 0 <= i < |from| ==> from[i] < |ws|)
    && (forall i, j :: 0 <= i < j < |from| ==> from[i] < from[j])
    && (forall i :: 0 <= i < |r| ==> r[i].version == ws[from[i]].version && r[i].to == ws[from[i]].to)
    && (forall i :: 0 <= i < |r| ==> ws[from[i]].from <= r[i].from < r[i].to && (declaredAt > 0 ==> declaredAt <= r[i].from))
  }

  lemma {:induction false} ClampCuts(ws: seq<Window>, declaredAt: int) returns (from: seq<nat>)
    ensures CutFrom(ws, declaredAt, ClampAll(ws, declaredAt), from)
  {
    from := [];
    if ws != [] {
      var last := |ws| - 1;
      from := ClampCuts(ws[..last], declaredAt);
      CutFromMore(ws, declaredAt, ClampAll(ws[..last], declaredAt), from);
      if Clamped(ws[last], declaredAt).Some? {
        from := from + [last];
      }
    }
  }

  lemma CutFromMore(ws: seq<Window>, declaredAt: int, r: seq<Window>, from: seq<nat>)
    requires ws != [] && CutFrom(ws[..|ws| - 1], declaredAt, r, from)
    ensures CutFrom(ws, declaredAt, r, from)
    ensures Clamped(ws[|ws| - 1], declaredAt).Some? ==>
      CutFrom(ws, declaredAt, r + [Clamped(ws[|ws| - 1], declaredAt).value], from + [|ws| - 1])
  {
    var head := ws[..|ws| - 1];
    assert forall i :: 0 <= i < |from| ==> head[from[i]] == ws[from[i]];
  }

  ghost predicate Contiguous(ws: seq<Window>) {
    forall i, j :: 0 <= i < j < |ws| && j == i + 1 ==> ws[i].to == ws[j].from
  }

  // Clamping windows that tile leaves windows that tile, up to the same end.
  lemma {:induction false} ClampTiles(ws: seq<Window>, declaredAt: int)
    requires Contiguous(ws) && forall i :: 0 <= i < |ws| ==> ws[i].from <= ws[i].to
    ensures var r := ClampAll(ws, declaredAt);
      && Contiguous(r)
      && (r != [] ==> r[|r| - 1].to == ws[|ws| - 1].to)
      && (ws != [] && declaredAt > 0 && ws[|ws| - 1].to <= declaredAt ==> r == [])
  {
    if ws != [] {
      var head, w := ws[..|ws| - 1], ws[|ws| - 1];
      ClampTiles(head, declaredAt);
      assert head != [] ==> head[|head| - 1].to == w.from;
    }
  }

  lemma SweptTiles<V(!new)>(cmp: (V, V) -> int, c: seq<Candidate<V>>, ws: seq<Window>, at: seq<nat>, declaredAt: int)
    requires Swept(cmp, c, |c|, ws, at) && PublishOrder(c)
    ensures Contiguous(ClampAll(ws, declaredAt))
  {
    forall i, j | 0 <= i < j < |ws| && j == i + 1 ensures ws[i].to == ws[j].from && ws[i].from <= ws[i].to {
      assert ws[i] == WindowOf(c, at, i) && ws[j] == WindowOf(c, at, j);
    }
    var head, w := ws[..|ws| - 1], ws[|ws| - 1];
    forall i | 0 <= i < |head| ensures head[i].from <= head[i].to {
      var j := i + 1;
      assert ws[i].to == ws[j].from && ws[i].from <= ws[i].to;
    }
    ClampTiles(head, declaredAt);
    assert head != [] ==> head[|head| - 1].to == w.from;
  }
}
