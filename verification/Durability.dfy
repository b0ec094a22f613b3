// What the crash-safe loaders keep: where the graph may stand between two runs, and the one graph a
// finished load leaves.
module Durability {
  import opened GraphWrites

  ghost predicate Tagged(rows: set<Row>, e: Element, tag: Label) {
    exists r :: r in rows && r.Subject() == e && r.Tag() == tag
  }

  ghost predicate Assigns(rows: set<Row>, e: Element, p: Property, v: Value) {
    exists r :: r in rows && r.Subject() == e && p in r.Assigned() && r.Assigned()[p] == v
  }

  ghost predicate Keeps(base: Entity, now: Entity) {
    && base.labels <= now.labels
    && base.props.Keys <= now.props.Keys
  }

  // Nothing on the element but what was there before the load or what one of the rows puts there.
  ghost predicate Backed(base: Graph, rows: set<Row>, e: Element, now: Entity) {
    && (forall tag :: tag in now.labels ==> tag in At(base, e).labels || Tagged(rows, e, tag))
    && (forall p :: p in now.props ==> FromBase(base, e, p, now.props[p]) || Assigns(rows, e, p, now.props[p]))
    && (e in base || exists r :: r in rows && r.Subject() == e)
  }

  ghost predicate FromBase(base: Graph, e: Element, p: Property, v: Value) {
    p in At(base, e).props && At(base, e).props[p] == v
  }

  // The graph is the base with some of the rows applied, in some order, some of them perhaps in part.
  ghost predicate Between(g: Graph, base: Graph, rows: set<Row>) {
    && (forall e :: e in base ==> e in g && Keeps(base[e], g[e]))
    && (forall e :: e in g ==> Backed(base, rows, e, g[e]))
  }

  ghost predicate AllWritten(g: Graph, rows: set<Row>) {
    forall r :: r in rows ==> Written(g, r)
  }

  lemma StartsBetween(base: Graph, rows: set<Row>)
    ensures Between(base, base, rows)
  {
  }

  lemma ApplyStaysBetween(g: Graph, base: Graph, rows: set<Row>, row: Row)
    requires Between(g, base, rows) && row in rows
    ensures Between(Apply(g, row), base, rows)
  {
    var h := Apply(g, row);
    var s := row.Subject();
    if Found(g, row) {
      assert Backed(base, rows, s, h[s]) by {
        assert s in g ==> Backed(base, rows, s, g[s]);
        forall tag | tag in h[s].labels
          ensures tag in At(base, s).labels || Tagged(rows, s, tag)
        {
        }
        forall p | p in h[s].props
          ensures FromBase(base, s, p, h[s].props[p]) || Assigns(rows, s, p, h[s].props[p])
        {
          if p !in row.Assigned() {
            assert s in g && p in g[s].props && g[s].props[p] == h[s].props[p];
          }
        }
      }
    }
  }

  // Wherever a run stops, the graph is still the base with some rows applied and every row that had
  // landed is still there.
  lemma {:induction false} RunStaysBetween(g: Graph, base: Graph, rows: set<Row>, sent: seq<Row>)
    requires Between(g, base, rows) && Agree(rows)
    requires forall i :: 0 <= i < |sent| ==> sent[i] in rows
    ensures Between(ApplyAll(g, sent), base, rows)
    ensures forall r :: r in rows && Written(g, r) ==> Written(ApplyAll(g, sent), r)
  {
    if sent != [] {
      var n := |sent| - 1;
      RunStaysBetween(g, base, rows, sent[..n]);
      var h := ApplyAll(g, sent[..n]);
      ApplyStaysBetween(h, base, rows, sent[n]);
      forall r | r in rows && Written(g, r)
        ensures Written(ApplyAll(g, sent), r)
      {
        Survives(h, sent[n], r);
      }
    }
  }

  // Each link's endpoints are in the graph already or among the nodes sent before it.
  ghost predicate Supported(g: Graph, sent: seq<Row>) {
    forall i, k :: 0 <= i < |sent| && 0 <= k < |sent[i].Ends()| ==> EndReady(g, sent[..i], sent[i].Ends()[k])
  }

  ghost predicate EndReady(g: Graph, before: seq<Row>, end: (Element, Label)) {
    Has(g, end) || exists j :: 0 <= j < |before| && before[j].Subject() == end.0 && before[j].Tag() == end.1
  }

  // No row is dropped for want of an endpoint.
  lemma {:induction false} EveryRowLands(g: Graph, rows: set<Row>, sent: seq<Row>)
    requires Agree(rows) && Supported(g, sent)
    requires forall i :: 0 <= i < |sent| ==> sent[i] in rows
    ensures forall i :: 0 <= i < |sent| ==> Written(ApplyAll(g, sent), sent[i])
    ensures forall end :: Has(g, end) ==> Has(ApplyAll(g, sent), end)
  {
    if sent != [] {
      var n := |sent| - 1;
      var before := sent[..n];
      assert Supported(g, before) by {
        forall i, k | 0 <= i < n && 0 <= k < |before[i].Ends()|
          ensures EndReady(g, before[..i], before[i].Ends()[k])
        {
          assert before[..i] == sent[..i];
        }
      }
      EveryRowLands(g, rows, before);
      var h := ApplyAll(g, before);
      forall k | 0 <= k < |sent[n].Ends()|
        ensures Has(h, sent[n].Ends()[k])
      {
        assert EndReady(g, before, sent[n].Ends()[k]);
      }
      LandsIffFound(h, sent[n]);
      forall i | 0 <= i < |sent|
        ensures Written(ApplyAll(g, sent), sent[i])
      {
        if i < n {
          assert before[i] == sent[i];
          Survives(h, sent[n], sent[i]);
        }
      }
    }
  }

  // There is only one graph that is the base with all the rows applied.
  lemma FinishedGraphIsUnique(g: Graph, h: Graph, base: Graph, rows: set<Row>)
    requires Between(g, base, rows) && AllWritten(g, rows)
    requires Between(h, base, rows) && AllWritten(h, rows)
    ensures g == h
  {
    forall e | e in g
      ensures e in h && g[e] == h[e]
    {
      SameEntity(g, h, base, rows, e);
    }
    forall e | e in h
      ensures e in g
    {
      assert Backed(base, rows, e, h[e]);
    }
  }

  lemma SameEntity(g: Graph, h: Graph, base: Graph, rows: set<Row>, e: Element)
    requires Between(g, base, rows) && AllWritten(g, rows)
    requires Between(h, base, rows) && AllWritten(h, rows)
    requires e in g
    ensures e in h && g[e] == h[e]
  {
    assert Backed(base, rows, e, g[e]);
    assert e in h;
    assert Backed(base, rows, e, h[e]);
    OneWay(g, h, base, rows, e);
    OneWay(h, g, base, rows, e);
    EqualBothWays(g[e], h[e]);
  }

  lemma EqualBothWays(a: Entity, b: Entity)
    requires a.labels <= b.labels <= a.labels
    requires Within(a.props, b.props) && Within(b.props, a.props)
    ensures a == b
  {
    assert a.props == b.props;
  }

  lemma ValueOfWritten(g: Graph, rows: set<Row>, e: Element, p: Property, v: Value)
    requires AllWritten(g, rows) && Assigns(rows, e, p, v)
    ensures e in g && p in g[e].props && g[e].props[p] == v
  {
    var r :| r in rows && r.Subject() == e && p in r.Assigned() && r.Assigned()[p] == v;
    assert Written(g, r);
  }

  lemma OneWay(g: Graph, h: Graph, base: Graph, rows: set<Row>, e: Element)
    requires Between(g, base, rows) && AllWritten(g, rows)
    requires Between(h, base, rows) && AllWritten(h, rows)
    requires e in g && e in h
    ensures g[e].labels <= h[e].labels
    ensures Within(g[e].props, h[e].props)
  {
    assert Backed(base, rows, e, g[e]) && Backed(base, rows, e, h[e]);
    forall tag | tag in g[e].labels
      ensures tag in h[e].labels
    {
      if tag !in At(base, e).labels {
        var r :| r in rows && r.Subject() == e && r.Tag() == tag;
        assert Written(h, r);
      }
    }
    forall p | p in g[e].props
      ensures p in h[e].props && h[e].props[p] == g[e].props[p]
    {
      SameValue(g, h, base, rows, e, p);
    }
  }

  lemma SameValue(g: Graph, h: Graph, base: Graph, rows: set<Row>, e: Element, p: Property)
    requires Between(g, base, rows) && AllWritten(g, rows)
    requires Between(h, base, rows) && AllWritten(h, rows)
    requires e in g && e in h && p in g[e].props
    ensures p in h[e].props && h[e].props[p] == g[e].props[p]
  {
    var v := g[e].props[p];
    assert Backed(base, rows, e, g[e]);
    if Assigns(rows, e, p, v) {
      ValueOfWritten(h, rows, e, p, v);
    } else {
      assert FromBase(base, e, p, v);
      assert Keeps(base[e], h[e]);
      assert p in h[e].props;
      assert Backed(base, rows, e, h[e]);
      if Assigns(rows, e, p, h[e].props[p]) {
        ValueOfWritten(g, rows, e, p, h[e].props[p]);
      }
    }
  }

  // What each unit of work has to leave in the graph.
  type Scripts = map<string, seq<Row>>

  ghost function AllRows(scripts: Scripts): set<Row> {
    set name, row | name in scripts && row in scripts[name] :: row
  }

  // The invariant of a resumable load: the graph is between its base and the whole load, and a
  // recorded name has every one of its rows there.
  ghost predicate Durable(g: Graph, base: Graph, lines: seq<string>, scripts: Scripts) {
    && Between(g, base, AllRows(scripts))
    && forall i :: 0 <= i < |lines| && lines[i] in scripts ==> Landed(g, scripts[lines[i]])
  }

  ghost predicate Landed(g: Graph, rows: seq<Row>) {
    forall r :: r in rows ==> Written(g, r)
  }

  ghost predicate Covers(sent: seq<Row>, rows: seq<Row>) {
    forall r :: r in rows ==> r in sent
  }

  // What a flush sends for some names: only wanted rows, all of theirs, and nothing ahead of the nodes
  // it needs.
  ghost predicate Ready(g: Graph, sent: seq<Row>, names: seq<string>, scripts: Scripts) {
    && Agree(AllRows(scripts))
    && Supported(g, sent)
    && (forall i :: 0 <= i < |sent| ==> sent[i] in AllRows(scripts))
    && (forall i :: 0 <= i < |names| ==> names[i] in scripts && Covers(sent, scripts[names[i]]))
  }

  // A flush cut short anywhere in its writes keeps the invariant.
  lemma CutShortIsSafe(g: Graph, base: Graph, lines: seq<string>, scripts: Scripts, sent: seq<Row>, names: seq<string>, cut: nat)
    requires Durable(g, base, lines, scripts) && Ready(g, sent, names, scripts) && cut <= |sent|
    ensures Durable(ApplyAll(g, sent[..cut]), base, lines, scripts)
  {
    RunStaysBetween(g, base, AllRows(scripts), sent[..cut]);
    forall i | 0 <= i < |lines| && lines[i] in scripts
      ensures Landed(ApplyAll(g, sent[..cut]), scripts[lines[i]])
    {
      assert forall r :: r in scripts[lines[i]] ==> r in AllRows(scripts);
    }
  }

  // So does one whose writes finished, with any number of its names recorded.
  lemma FlushedIsSafe(g: Graph, base: Graph, lines: seq<string>, scripts: Scripts, sent: seq<Row>, names: seq<string>, recorded: nat)
    requires Durable(g, base, lines, scripts) && Ready(g, sent, names, scripts) && recorded <= |names|
    ensures Durable(ApplyAll(g, sent), base, lines + names[..recorded], scripts)
  {
    CutShortIsSafe(g, base, lines, scripts, sent, names, |sent|);
    assert sent[..|sent|] == sent;
    EveryRowLands(g, AllRows(scripts), sent);
    forall i | 0 <= i < recorded
      ensures Landed(ApplyAll(g, sent), scripts[names[i]])
    {
      assert Covers(sent, scripts[names[i]]);
    }
  }

  // However two loads were interrupted, resumed, ordered and batched, once every name is recorded
  // they have left the same graph.
  lemma FinishedLoadsAgree(g: Graph, gLines: seq<string>, h: Graph, hLines: seq<string>, base: Graph, scripts: Scripts)
    requires Durable(g, base, gLines, scripts) && Durable(h, base, hLines, scripts)
    requires forall name :: name in scripts ==> name in gLines && name in hLines
    ensures g == h
    ensures AllWritten(g, AllRows(scripts))
  {
    Finished(g, gLines, base, scripts);
    Finished(h, hLines, base, scripts);
    FinishedGraphIsUnique(g, h, base, AllRows(scripts));
  }

  lemma Finished(g: Graph, lines: seq<string>, base: Graph, scripts: Scripts)
    requires Durable(g, base, lines, scripts)
    requires forall name :: name in scripts ==> name in lines
    ensures AllWritten(g, AllRows(scripts))
  {
    forall r | r in AllRows(scripts)
      ensures Written(g, r)
    {
      var name :| name in scripts && r in scripts[name];
      var i :| 0 <= i < |lines| && lines[i] == name;
      assert Landed(g, scripts[lines[i]]);
    }
  }
}
