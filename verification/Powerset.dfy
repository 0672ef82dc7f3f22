/** compute_dfa: the powerset construction, and accepts on its result. */
module Powerset {
  import opened Prelude
  import opened Automata

  // ---- Sets of states reached by a word ----

  ghost function Step(m: Machine, from: set<nat>, a: nat): set<nat> {
    set e | e in m.edges && e.on == Value(a) && e.from in from :: e.to
  }

  ghost function RunSet(m: Machine, from: set<nat>, w: seq<nat>): set<nat>
    decreases |w|
  {
    if w == [] then from else RunSet(m, Step(m, from, w[0]), w[1..])
  }

  lemma ReadsNone(m: Machine, p: nat, q: nat)
    requires EpsilonFree(m)
    ensures Reads(m, p, [], q) <==> p == q
  {
    ReadsNothing(m, p);
  }

  // Without epsilon edges, reading a symbol is taking one edge.
  lemma ReadsSymbol(m: Machine, p: nat, w: seq<nat>, q: nat) returns (r: nat)
    requires EpsilonFree(m) && w != [] && Reads(m, p, w, q)
    ensures Edge(p, Value(w[0]), r) in m.edges && Reads(m, r, w[1..], q)
  {
    var path: seq<Edge> :| IsPath(m, p, path, q) && Word(path) == w;
    assert path != [];
    r := path[0].to;
    assert path[0] in m.edges;
    assert IsPath(m, r, path[1..], q) && Word(path[1..]) == w[1..];
  }

  lemma {:induction false} RunSetReads(m: Machine, from: set<nat>, w: seq<nat>, q: nat)
    requires EpsilonFree(m)
    ensures q in RunSet(m, from, w) <==> exists p :: p in from && Reads(m, p, w, q)
    decreases |w|
  {
    hide Reads, EpsilonFree;
    if w == [] {
      forall p ensures Reads(m, p, [], q) <==> p == q {
        ReadsNone(m, p, q);
      }
    } else {
      var next := Step(m, from, w[0]);
      RunSetReads(m, next, w[1..], q);
      if q in RunSet(m, from, w) {
        var r :| r in next && Reads(m, r, w[1..], q);
        var e :| e in m.edges && e.on == Value(w[0]) && e.from in from && e.to == r;
        ReadsStep(m, e, w[1..], q);
        assert [w[0]] + w[1..] == w;
      }
      if exists p :: p in from && Reads(m, p, w, q) {
        var p :| p in from && Reads(m, p, w, q);
        var r := ReadsSymbol(m, p, w, q);
        assert r in next;
      }
    }
  }

  lemma AcceptsBySet(m: Machine, s: nat, w: seq<nat>)
    requires EpsilonFree(m) && m.starts == {s}
    ensures Accepts(m, w) <==> RunSet(m, {s}, w) * m.accepts != {}
  {
    hide Reads, EpsilonFree, RunSet;
    if Accepts(m, w) {
      var p, q :| p in m.starts && q in m.accepts && Reads(m, p, w, q);
      RunSetReads(m, {s}, w, q);
      assert q in RunSet(m, {s}, w) * m.accepts;
    }
    if RunSet(m, {s}, w) * m.accepts != {} {
      var q :| q in RunSet(m, {s}, w) * m.accepts;
      RunSetReads(m, {s}, w, q);
    }
  }

  ghost function UsedSymbols(m: Machine): set<nat> {
    set e | e in m.edges && e.on.Value? :: e.on.symbol
  }

  // ---- Running a deterministic machine ----

  ghost function Targets(m: Machine, i: nat, a: nat): set<nat> {
    set e | e in m.edges && e.from == i && e.on == Value(a) :: e.to
  }

  lemma {:induction false} LeastExists(s: set<nat>) returns (m: nat)
    requires s != {}
    ensures m in s && forall y :: y in s ==> m <= y
  {
    m :| m in s;
    if s != {m} {
      var rest := s - {m};
      var y := LeastExists(rest);
      forall z | z in s ensures y <= z || m == z {
        assert z == m || z in rest;
      }
      m := if m < y then m else y;
    }
  }

  ghost function Least(s: set<nat>): (x: nat)
    requires s != {}
    ensures x in s && forall y :: y in s ==> x <= y
  {
    assert exists x :: x in s && forall y :: y in s ==> x <= y by { var x := LeastExists(s); }
    var x :| x in s && forall y :: y in s ==> x <= y;
    x
  }

  // What the source's accepts computes: always the edge to the least state.
  ghost predicate RunAccepts(m: Machine, i: nat, w: seq<nat>)
    decreases |w|
  {
    if w == [] then i in m.accepts
    else Targets(m, i, w[0]) != {} && RunAccepts(m, Least(Targets(m, i, w[0])), w[1..])
  }

  // ---- The result of the construction ----

  // d is the powerset machine of m; states[i] is the set its state i stands for.
  ghost predicate IsPowerset(d: Machine, m: Machine, states: seq<set<nat>>) {
    && d.numStates == |states| > 0
    && d.starts == {0} && states[0] == m.starts
    && Distinct(states)
    && (forall i: nat :: i in d.accepts <==> i < |states| && states[i] * m.accepts != {})
    && (forall e :: e in d.edges ==> EdgeOk(e, m, states))
    && (forall i, a :: 0 <= i < |states| && a in UsedSymbols(m) ==> Targets(d, i, a) != {})
  }

  ghost predicate EdgeOk(e: Edge, m: Machine, states: seq<set<nat>>) {
    && e.on.Value? && e.on.symbol in UsedSymbols(m)
    && e.from < |states| && e.to < |states|
    && states[e.to] == Step(m, states[e.from], e.on.symbol)
  }

  // Exactly one successor per state and used symbol, none for other symbols.
  lemma OneSuccessor(d: Machine, m: Machine, states: seq<set<nat>>, i: nat, a: nat)
    requires IsPowerset(d, m, states) && i < |states|
    ensures a !in UsedSymbols(m) ==> Targets(d, i, a) == {}
    ensures a in UsedSymbols(m) ==>
              exists j :: j < |states| && Targets(d, i, a) == {j} && states[j] == Step(m, states[i], a)
  {
    hide UsedSymbols, Step;
    forall j | j in Targets(d, i, a)
      ensures a in UsedSymbols(m) && j < |states| && states[j] == Step(m, states[i], a)
    {
      assert EdgeOk(Edge(i, Value(a), j), m, states);
    }
    if a in UsedSymbols(m) {
      var j :| j in Targets(d, i, a);
      forall k | k in Targets(d, i, a) ensures k == j {
        assert states[k] == states[j];
      }
      assert Targets(d, i, a) == {j};
    }
  }

  // An unused symbol leads nowhere, in m as in d.
  lemma {:induction false} RunFromNothing(m: Machine, w: seq<nat>)
    ensures RunSet(m, {}, w) == {}
  {
    if w != [] {
      assert Step(m, {}, w[0]) == {};
      RunFromNothing(m, w[1..]);
    }
  }

  lemma UnusedSymbol(m: Machine, from: set<nat>, w: seq<nat>)
    requires w != [] && w[0] !in UsedSymbols(m)
    ensures RunSet(m, from, w) == {}
  {
    forall e | e in m.edges ensures e.on != Value(w[0]) {
      assert e.on.Value? ==> e.on.symbol in UsedSymbols(m);
    }
    assert Step(m, from, w[0]) == {};
    RunFromNothing(m, w[1..]);
  }

  lemma {:induction false} PowersetRun(d: Machine, m: Machine, states: seq<set<nat>>, i: nat, w: seq<nat>)
    requires IsPowerset(d, m, states) && i < |states|
    ensures RunAccepts(d, i, w) <==> RunSet(m, states[i], w) * m.accepts != {}
    decreases |w|
  {
    hide IsPowerset, UsedSymbols, Targets, Step;
    if w == [] {
      AcceptingIff(d, m, states, i);
    } else {
      OneSuccessor(d, m, states, i, w[0]);
      if w[0] in UsedSymbols(m) {
        var j :| j < |states| && Targets(d, i, w[0]) == {j} && states[j] == Step(m, states[i], w[0]);
        PowersetRun(d, m, states, j, w[1..]);
        assert Least({j}) == j;
      } else {
        UnusedSymbol(m, states[i], w);
      }
    }
  }

  lemma AcceptingIff(d: Machine, m: Machine, states: seq<set<nat>>, i: nat)
    requires IsPowerset(d, m, states) && i < |states|
    ensures i in d.accepts <==> states[i] * m.accepts != {}
  {
  }

  // The source's accepts on the result decides the language of m.
  lemma PowersetDecides(d: Machine, m: Machine, states: seq<set<nat>>, s: nat, w: seq<nat>)
    requires EpsilonFree(m) && m.starts == {s} && IsPowerset(d, m, states)
    ensures RunAccepts(d, 0, w) <==> Accepts(m, w)
  {
    PowersetRun(d, m, states, 0, w);
    AcceptsBySet(m, s, w);
  }

  // A set run of the deterministic machine is its single run.
  lemma {:induction false} SingleRun(d: Machine, m: Machine, states: seq<set<nat>>, i: nat, w: seq<nat>)
    requires IsPowerset(d, m, states) && i < |states|
    ensures RunAccepts(d, i, w) <==> RunSet(d, {i}, w) * d.accepts != {}
    decreases |w|
  {
    hide IsPowerset, UsedSymbols;
    if w == [] {
      assert {i} * d.accepts == if i in d.accepts then {i} else {};
    } else {
      var a := w[0];
      assert Step(d, {i}, a) == Targets(d, i, a);
      OneSuccessor(d, m, states, i, a);
      if a in UsedSymbols(m) {
        var j :| j < |states| && Targets(d, i, a) == {j} && states[j] == Step(m, states[i], a);
        SingleRun(d, m, states, j, w[1..]);
        assert Least({j}) == j;
      } else {
        RunFromNothing(d, w[1..]);
      }
    }
  }

  lemma PowersetLanguage(d: Machine, m: Machine, states: seq<set<nat>>, s: nat, w: seq<nat>)
    requires EpsilonFree(m) && m.starts == {s} && IsPowerset(d, m, states)
    ensures Accepts(d, w) <==> Accepts(m, w)
  {
    forall e | e in d.edges ensures e.on.Value? {
      assert EdgeOk(e, m, states);
    }
    SingleRun(d, m, states, 0, w);
    AcceptsBySet(d, 0, w);
    PowersetDecides(d, m, states, s, w);
  }
}
