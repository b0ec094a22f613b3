// Holding intervals derived from sampled maintainer lists (spells in internal/ingest/rows.go).
module Spells {
  import opened Wrappers
  import opened Sorting
  import opened Intervals

  datatype Observation = Observation(at: int, maintainers: seq<string>)

  datatype Spell = Spell(from: int, to: int, observed: nat) {
    predicate Contains(t: int) {
      from <= t < to
    }
  }

  // One account's spells after some observations: those that ended, and the one still open.
  datatype History = History(closed: seq<Spell>, open: Option<Spell>) {
    function All(): seq<Spell> {
      match open
      case None => closed
      case Some(s) => closed + [s]
    }

    // What one more observation does to them.
    function Then(o: Observation, handle: string): History {
      if handle in o.maintainers then
        History(closed, match open
                        case Some(s) => Some(s.(observed := s.observed + 1))
                        case None => Some(Spell(o.at, OPEN_INTERVAL, 1)))
      else
        match open
        case Some(s) => History(closed + [s.(to := o.at)], None)
        case None => this
    }
  }

  function HistoryOf(obs: seq<Observation>, handle: string): History {
    if obs == [] then History([], None)
    else HistoryOf(obs[..|obs| - 1], handle).Then(obs[|obs| - 1], handle)
  }

  type Spelling = map<string, seq<Spell>>

  function StateOf(open: map<string, Spell>, out: Spelling, handle: string): History {
    History(if handle in out then out[handle] else [], if handle in open then Some(open[handle]) else None)
  }

  // Ends the spells of accounts that are no longer listed, in whatever order the map gives.
  method CloseAbsent(o: Observation, here: set<string>, open0: map<string, Spell>, out0: Spelling)
      returns (open: map<string, Spell>, out: Spelling)
    requires forall h :: h in here <==> h in o.maintainers
    ensures forall h :: h !in here ==> StateOf(open, out, h) == StateOf(open0, out0, h).Then(o, h)
    ensures forall h :: h in here ==> StateOf(open, out, h) == StateOf(open0, out0, h)
    ensures forall h :: h in out && out[h] == [] ==> h in out0 && out0[h] == []
  {
    open, out := open0, out0;
    var left := open0.Keys;
    while left != {}
      invariant left <= open0.Keys
      invariant forall h :: h in left || h in here || h !in open0 ==> StateOf(open, out, h) == StateOf(open0, out0, h)
      invariant forall h :: h in open0 && h !in left && h !in here ==> StateOf(open, out, h) == StateOf(open0, out0, h).Then(o, h)
      invariant forall h :: h in out && out[h] == [] ==> h in out0 && out0[h] == []
    {
      var h :| h in left;
      left := left - {h};
      if h in here {
        continue;
      }
      assert StateOf(open, out, h) == StateOf(open0, out0, h);
      var ended := open[h].(to := o.at);
      out := out[h := (if h in out then out[h] else []) + [ended]];
      open := open - {h};
    }
  }

  // Extends or opens the spell of each account listed.
  method NotePresent(o: Observation, here: set<string>, open0: map<string, Spell>, out: Spelling)
      returns (open: map<string, Spell>)
    requires forall h :: h in here <==> h in o.maintainers
    ensures forall h :: h in here ==> StateOf(open, out, h) == StateOf(open0, out, h).Then(o, h)
    ensures forall h :: h !in here ==> StateOf(open, out, h) == StateOf(open0, out, h)
  {
    open := open0;
    var left := here;
    while left != {}
      invariant left <= here
      invariant forall h :: h in left || h !in here ==> StateOf(open, out, h) == StateOf(open0, out, h)
      invariant forall h :: h in here && h !in left ==> StateOf(open, out, h) == StateOf(open0, out, h).Then(o, h)
    {
      var h :| h in left;
      left := left - {h};
      assert StateOf(open, out, h) == StateOf(open0, out, h);
      if h in open {
        open := open[h := open[h].(observed := open[h].observed + 1)];
      } else {
        open := open[h := Spell(o.at, OPEN_INTERVAL, 1)];
      }
    }
  }

  // Every account's spells, over some chronological arrangement of the observations.
  method DeriveSpells(obs: seq<Observation>) returns (out: Spelling, ghost sorted: seq<Observation>)
    ensures multiset(sorted) == multiset(obs) && forall i, j :: 0 <= i < j < |sorted| ==> sorted[i].at <= sorted[j].at
    ensures forall h :: (if h in out then out[h] else []) == HistoryOf(sorted, h).All()
    ensures forall h :: h in out ==> out[h] != []
  {
    var order, _ := SortSlice(obs, (a: Observation, b: Observation) => a.at < b.at);
    sorted := order;
    var open: map<string, Spell> := map[];
    out := map[];
    for k := 0 to |order|
      invariant forall h :: StateOf(open, out, h) == HistoryOf(order[..k], h)
      invariant forall h :: h in out ==> out[h] != []
    {
      var o := order[k];
      var here := set h | h in o.maintainers;
      assert order[..k + 1][..k] == order[..k];
      open, out := CloseAbsent(o, here, open, out);
      open := NotePresent(o, here, open, out);
    }
    assert order[..|order|] == order;
    out := Finish(open, out);
  }

  method Finish(open: map<string, Spell>, out0: Spelling) returns (out: Spelling)
    requires forall h :: h in out0 ==> out0[h] != []
    ensures forall h :: (if h in out then out[h] else []) == StateOf(open, out0, h).All()
    ensures forall h :: h in out ==> out[h] != []
  {
    out := out0;
    var left := open.Keys;
    while left != {}
      invariant left <= open.Keys
      invariant forall h :: h in left || h !in open ==> (if h in out then out[h] else []) == (if h in out0 then out0[h] else [])
      invariant forall h :: h in open && h !in left ==> h in out && out[h] == StateOf(open, out0, h).All()
      invariant forall h :: h in out ==> out[h] != []
    {
      var h :| h in left;
      left := left - {h};
      out := out[h := (if h in out then out[h] else []) + [open[h]]];
    }
  }

  ghost predicate Chronological(obs: seq<Observation>) {
    (forall i, j :: 0 <= i < j < |obs| ==> obs[i].at < obs[j].at) && forall i :: 0 <= i < |obs| ==> obs[i].at < OPEN_INTERVAL
  }

  ghost predicate InSpell(spells: seq<Spell>, t: int) {
    exists i :: 0 <= i < |spells| && spells[i].Contains(t)
  }

  // Whether the latest observation at or before t lists the account.
  function ListedAt(obs: seq<Observation>, handle: string, t: int): bool {
    if obs == [] then false
    else
      var last := obs[|obs| - 1];
      if last.at <= t then handle in last.maintainers else ListedAt(obs[..|obs| - 1], handle, t)
  }

  function TimesListed(obs: seq<Observation>, handle: string): nat {
    if obs == [] then 0
    else TimesListed(obs[..|obs| - 1], handle) + if handle in obs[|obs| - 1].maintainers then 1 else 0
  }

  function Observed(spells: seq<Spell>): nat {
    if spells == [] then 0 else Observed(spells[..|spells| - 1]) + spells[|spells| - 1].observed
  }

  // Nonempty, in order with gaps between, all over by `end` except an open one begun by then.
  ghost predicate Shaped(hist: History, end: int) {
    && (forall i :: 0 <= i < |hist.closed| ==> hist.closed[i].from < hist.closed[i].to <= end)
    && (forall i, j :: 0 <= i < j < |hist.closed| ==> hist.closed[i].to < hist.closed[j].from)
    && (hist.open.Some? ==>
          && hist.open.value.from <= end < OPEN_INTERVAL == hist.open.value.to
          && forall i :: 0 <= i < |hist.closed| ==> hist.closed[i].to < hist.open.value.from)
  }

  lemma {:induction false} HistoryIsShaped(obs: seq<Observation>, handle: string)
    requires Chronological(obs) && obs != []
    ensures Shaped(HistoryOf(obs, handle), obs[|obs| - 1].at)
  {
    if |obs| > 1 {
      HistoryIsShaped(obs[..|obs| - 1], handle);
    } else {
      assert HistoryOf(obs[..0], handle) == History([], None);
    }
  }

  lemma InSpellAppend(spells: seq<Spell>, s: Spell, t: int)
    ensures InSpell(spells + [s], t) <==> InSpell(spells, t) || s.Contains(t)
  {
    if InSpell(spells, t) {
      var i :| 0 <= i < |spells| && spells[i].Contains(t);
      assert (spells + [s])[i].Contains(t);
    }
    assert (spells + [s])[|spells|] == s;
  }

  // What an observation does to coverage: nothing before it, and its own verdict from then on.
  lemma ThenCovers(hist: History, o: Observation, handle: string, t: int)
    requires Shaped(hist, o.at) && t < OPEN_INTERVAL
    ensures InSpell(hist.Then(o, handle).All(), t) <==> if o.at <= t then handle in o.maintainers else InSpell(hist.All(), t)
  {
    assert o.at <= t ==> !InSpell(hist.closed, t);
    match hist.open {
      case None =>
        InSpellAppend(hist.closed, Spell(o.at, OPEN_INTERVAL, 1), t);
      case Some(s) =>
        InSpellAppend(hist.closed, s, t);
        InSpellAppend(hist.closed, s.(observed := s.observed + 1), t);
        InSpellAppend(hist.closed, s.(to := o.at), t);
    }
  }

  // An instant lies in a spell exactly when the latest observation by then lists the account.
  lemma {:induction false} SpellsFollowObservations(obs: seq<Observation>, handle: string, t: int)
    requires Chronological(obs) && t < OPEN_INTERVAL
    ensures InSpell(HistoryOf(obs, handle).All(), t) <==> ListedAt(obs, handle, t)
  {
    if obs != [] {
      var head, o := obs[..|obs| - 1], obs[|obs| - 1];
      SpellsFollowObservations(head, handle, t);
      if head != [] {
        HistoryIsShaped(head, handle);
      }
      ThenCovers(HistoryOf(head, handle), o, handle, t);
    }
  }

  lemma ObservedAppend(spells: seq<Spell>, s: Spell)
    ensures Observed(spells + [s]) == Observed(spells) + s.observed
  {
    assert (spells + [s])[..|spells|] == spells;
  }

  // Every listing is counted in exactly one spell.
  lemma {:induction false} ObservationsAreCounted(obs: seq<Observation>, handle: string)
    ensures Observed(HistoryOf(obs, handle).All()) == TimesListed(obs, handle)
  {
    if obs != [] {
      var head, o := obs[..|obs| - 1], obs[|obs| - 1];
      ObservationsAreCounted(head, handle);
      var hist := HistoryOf(head, handle);
      match hist.open {
        case None =>
          ObservedAppend(hist.closed, Spell(o.at, OPEN_INTERVAL, 1));
        case Some(s) =>
          ObservedAppend(hist.closed, s);
          ObservedAppend(hist.closed, s.(observed := s.observed + 1));
          ObservedAppend(hist.closed, s.(to := o.at));
      }
    }
  }

  // Disjoint, with gaps, so distinctly started; and only the last may be open.
  lemma SpellsAreSeparate(obs: seq<Observation>, handle: string)
    requires Chronological(obs)
    ensures var spells := HistoryOf(obs, handle).All();
      && (forall i :: 0 <= i < |spells| ==> spells[i].from < spells[i].to)
      && (forall i, j :: 0 <= i < j < |spells| ==> spells[i].to < spells[j].from)
      && (forall i :: 0 <= i < |spells| && spells[i].to == OPEN_INTERVAL ==> i == |spells| - 1)
  {
    if obs != [] {
      HistoryIsShaped(obs, handle);
    }
  }

  ghost predicate SampledAt(obs: seq<Observation>, ats: seq<int>) {
    |obs| == |ats| && forall i :: 0 <= i < |obs| ==> obs[i].at == ats[i]
  }

  ghost predicate NoEmptySpell(obs: seq<Observation>, handle: string) {
    forall s :: s in HistoryOf(obs, handle).All() ==> s.from < s.to
  }

  // Distinct sampling instants are exactly what the derivation needs: with two samples at one
  // instant, some listing gives a spell that covers no time.
  lemma EmptySpellIffTie(ats: seq<int>, handle: string)
    requires forall i, j :: 0 <= i < j < |ats| ==> ats[i] <= ats[j]
    requires forall i :: 0 <= i < |ats| ==> ats[i] < OPEN_INTERVAL
    ensures (forall obs :: SampledAt(obs, ats) ==> NoEmptySpell(obs, handle))
       <==> (forall i, j :: 0 <= i < j < |ats| ==> ats[i] < ats[j])
  {
    if forall i, j :: 0 <= i < j < |ats| ==> ats[i] < ats[j] {
      forall obs | SampledAt(obs, ats) ensures NoEmptySpell(obs, handle) {
        SpellsAreSeparate(obs, handle);
      }
    } else {
      var i, j :| 0 <= i < j < |ats| && ats[i] >= ats[j];
      assert ats[i] <= ats[i + 1] <= ats[j];
      var obs := TieHasEmptySpell(ats, handle, i);
    }
  }

  lemma TieHasEmptySpell(ats: seq<int>, handle: string, i: nat) returns (obs: seq<Observation>)
    requires i + 1 < |ats| && ats[i] >= ats[i + 1]
    ensures SampledAt(obs, ats) && !NoEmptySpell(obs, handle)
  {
    obs := seq(|ats|, k requires 0 <= k < |ats| => Observation(ats[k], if k == i then [handle] else []));
    OnceListed(obs, handle, i, |obs|);
    assert obs[..|obs|] == obs;
    assert Spell(ats[i], ats[i + 1], 1) in HistoryOf(obs, handle).All();
  }

  lemma {:induction false} OnceListed(obs: seq<Observation>, handle: string, i: nat, n: nat)
    requires i + 1 < |obs| && n <= |obs|
    requires forall k :: 0 <= k < |obs| ==> (handle in obs[k].maintainers <==> k == i)
    ensures HistoryOf(obs[..n], handle) ==
      if n <= i then History([], None)
      else if n == i + 1 then History([], Some(Spell(obs[i].at, OPEN_INTERVAL, 1)))
      else History([Spell(obs[i].at, obs[i + 1].at, 1)], None)
    ensures n == |obs| ==> HistoryOf(obs, handle) == HistoryOf(obs[..n], handle)
  {
    assert obs[..|obs|] == obs;
    if n > 0 {
      OnceListed(obs, handle, i, n - 1);
      assert obs[..n][..n - 1] == obs[..n - 1];
    }
  }
}
