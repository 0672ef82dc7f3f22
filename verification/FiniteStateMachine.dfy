/** The FiniteStateMachine of the automata package: its fields and the methods that change them. */
module FiniteStateMachine {
  import opened Prelude
  import opened Automata
  import Ops = AutomataOps
  import opened EpsilonRemoval
  import opened EpsilonBuild
  import opened Powerset
  import opened PowersetBuild

  // ---- Loops over sets ----

  method Shifted(s: set<nat>, k: nat) returns (r: set<nat>)
    ensures r == ShiftSet(s, k)
  {
    r := {};
    var rest := s;
    while rest != {}
      invariant rest <= s && r == ShiftSet(s - rest, k)
    {
      var x :| x in rest;
      ShiftSetAdd(s - rest, x, k);
      r := r + {x + k};
      assert s - (rest - {x}) == (s - rest) + {x};
      rest := rest - {x};
    }
    assert s - rest == s;
  }

  lemma ShiftSetAdd(s: set<nat>, x: nat, k: nat)
    ensures ShiftSet(s + {x}, k) == ShiftSet(s, k) + {x + k}
  {
    assert x in s + {x};
    forall z | z in s ensures z + k in ShiftSet(s + {x}, k) {
      assert z in s + {x};
    }
  }

  method ShiftedEdges(s: set<Edge>, k: nat) returns (r: set<Edge>)
    ensures r == ShiftEdges(s, k)
  {
    r := {};
    var rest := s;
    while rest != {}
      invariant rest <= s && r == ShiftEdges(s - rest, k)
    {
      var e :| e in rest;
      r := r + {ShiftEdge(e, k)};
      rest := rest - {e};
      assert s - rest == (s - (rest + {e})) + {e};
    }
    assert s - rest == s;
  }

  // Epsilon edges from every state of from to every state of to.
  method AllBridges(from: set<nat>, to: set<nat>) returns (r: set<Edge>)
    ensures r == Ops.Bridges(from, to)
  {
    r := {};
    var rest := from;
    while rest != {}
      invariant rest <= from && r == Ops.Bridges(from - rest, to)
    {
      var i :| i in rest;
      var targets := to;
      while targets != {}
        invariant targets <= to && r == Ops.Bridges(from - rest, to) + Ops.Bridges({i}, to - targets)
      {
        var j :| j in targets;
        r := r + {Edge(i, Epsilon, j)};
        targets := targets - {j};
        assert to - targets == (to - (targets + {j})) + {j};
      }
      assert to - targets == to;
      rest := rest - {i};
      assert from - rest == (from - (rest + {i})) + {i};
    }
    assert from - rest == from;
  }

  // ---- The class ----

  class FiniteStateMachine {
    var numStates: nat
    var startingStates: set<nat>
    var acceptingStates: set<nat>
    var transitions: set<Edge>

    function View(): Machine
      reads this
    {
      Machine(numStates, startingStates, acceptingStates, transitions)
    }

    ghost predicate Valid()
      reads this
    {
      WellFormed(View())
    }

    constructor (m: Machine)
      ensures View() == m
    {
      numStates, startingStates, acceptingStates, transitions := m.numStates, m.starts, m.accepts, m.edges;
    }

    method Become(m: Machine)
      modifies this
      ensures View() == m
    {
      numStates, startingStates, acceptingStates, transitions := m.numStates, m.starts, m.accepts, m.edges;
    }

    method AddState() returns (id: nat)
      modifies this`numStates
      ensures id == old(numStates) && numStates == id + 1
    {
      id := numStates;
      numStates := numStates + 1;
    }

    // Union.
    method Join(other: FiniteStateMachine)
      requires Valid() && other.Valid() && other != this
      modifies this
      ensures Valid() && View() == Ops.Join(old(View()), other.View())
      ensures forall w :: Accepts(View(), w) <==> old(Accepts(View(), w)) || Accepts(other.View(), w)
    {
      hide Accepts;
      var offset := numStates;
      numStates := numStates + other.numStates;
      var starts := Shifted(other.startingStates, offset);
      startingStates := startingStates + starts;
      var accepts := Shifted(other.acceptingStates, offset);
      acceptingStates := acceptingStates + accepts;
      var edges := ShiftedEdges(other.transitions, offset);
      transitions := transitions + edges;
      forall w ensures Accepts(View(), w) <==> old(Accepts(View(), w)) || Accepts(other.View(), w) {
        Ops.JoinIsUnion(old(View()), other.View(), w);
      }
    }

    // Concatenation.
    method Then(other: FiniteStateMachine)
      requires Valid() && other.Valid() && other != this
      modifies this
      ensures Valid() && View() == Ops.Then(old(View()), other.View())
      ensures forall w :: Accepts(View(), w) <==>
                exists u, v :: w == u + v && old(Accepts(View(), u)) && Accepts(other.View(), v)
    {
      hide Accepts;
      var offset := numStates;
      numStates := numStates + other.numStates;
      var starts := Shifted(other.startingStates, offset);
      var bridges := AllBridges(acceptingStates, starts);
      acceptingStates := Shifted(other.acceptingStates, offset);
      var edges := ShiftedEdges(other.transitions, offset);
      transitions := transitions + edges + bridges;
      forall w ensures Accepts(View(), w) <==>
          exists u, v :: w == u + v && old(Accepts(View(), u)) && Accepts(other.View(), v)
      {
        Ops.ThenIsConcatenation(old(View()), other.View(), w);
      }
    }

    // One or more repetitions.
    method ThenLoop()
      requires Valid()
      modifies this
      ensures Valid() && View() == Ops.Loop(old(View()))
      ensures forall w :: Accepts(View(), w) <==>
                exists ws :: ws != [] && Ops.AllAccepted(old(View()), ws) && w == Ops.Flat(ws)
    {
      hide Accepts;
      var bridges := AllBridges(acceptingStates, startingStates);
      transitions := transitions + bridges;
      forall w ensures Accepts(View(), w) <==>
          exists ws :: ws != [] && Ops.AllAccepted(old(View()), ws) && w == Ops.Flat(ws)
      {
        Ops.LoopIsPlus(old(View()), w);
      }
    }

    method WithSingleStart()
      requires Valid()
      modifies this
      ensures Valid() && View() == Ops.SingleStart(old(View())) && |startingStates| == 1
      ensures forall w :: Accepts(View(), w) <==> old(Accepts(View(), w))
    {
      hide Accepts;
      forall w ensures Accepts(Ops.SingleStart(View()), w) <==> Accepts(View(), w)
        ensures WellFormed(Ops.SingleStart(View())) && |Ops.SingleStart(View()).starts| == 1
      {
        Ops.SingleStartKeepsLanguage(View(), w);
      }
      Ops.SingleStartKeepsLanguage(View(), []);
      if |startingStates| == 1 {
        return;
      }
      var s := AddState();
      var bridges := AllBridges({s}, startingStates);
      transitions := transitions + bridges;
      startingStates := {s};
    }

    method Reverse()
      requires Valid()
      modifies this
      ensures Valid() && View() == Ops.Reverse(old(View()))
      ensures forall w :: Accepts(View(), w) <==> old(Accepts(View(), Ops.Backwards(w)))
    {
      hide Accepts;
      startingStates, acceptingStates := acceptingStates, startingStates;
      transitions := set e | e in transitions :: FlipEdge(e);
      forall w ensures Accepts(View(), w) <==> old(Accepts(View(), Ops.Backwards(w))) {
        Ops.ReverseIsReversal(old(View()), w);
      }
    }

    method HasEpsilon() returns (r: bool)
      ensures r <==> !EpsilonFree(View())
    {
      var rest := transitions;
      while rest != {}
        invariant rest <= transitions
        invariant forall e :: e in transitions && e !in rest ==> e.on.Value?
      {
        var e :| e in rest;
        if e.on.Epsilon? {
          return true;
        }
        rest := rest - {e};
      }
      r := false;
    }

    // Epsilon edges removed by merging what they connect.  No word is lost; the words
    // gained are exactly those that use an epsilon edge backwards.
    method WithoutEpsilons()
      requires Valid()
      modifies this
      ensures Valid() && EpsilonFree(View()) && |startingStates| <= old(|startingStates|)
      ensures old(startingStates) != {} ==> startingStates != {}
      ensures forall w :: Accepts(View(), w) <==> Accepts(Symmetric(old(View())), w)
      ensures forall w :: old(Accepts(View(), w)) ==> Accepts(View(), w)
      ensures EpsilonsReturn(old(View())) ==> forall w :: Accepts(View(), w) <==> old(Accepts(View(), w))
      ensures old(EpsilonFree(View())) ==> View() == old(View())
    {
      hide Accepts, EpsilonsReturn;
      ghost var m := View();
      Languages(m);
      var has := HasEpsilon();
      if !has {
        assert Symmetric(m) == m;
        return;
      }
      var closures := Closures(View());
      var h, count := StateMapping(closures);
      assert MergesComponents(m, h);
      var n := Quotient(View(), h, count);
      forall w ensures Accepts(n, w) <==> Accepts(Symmetric(m), w) {
        QuotientLanguage(m, n, h, w);
      }
      ImageSmaller(m.starts, h);
      Become(n);
    }

    method UsedSymbolSet() returns (alpha: set<nat>)
      ensures alpha == UsedSymbols(View())
    {
      alpha := {};
      var rest := transitions;
      while rest != {}
        invariant rest <= transitions
        invariant alpha == set e | e in transitions && e !in rest && e.on.Value? :: e.on.symbol
      {
        var e :| e in rest;
        if e.on.Value? {
          alpha := alpha + {e.on.symbol};
        }
        rest := rest - {e};
      }
    }

    // The powerset machine.  It is deterministic over the symbols in use, and both its
    // language and the answer of AcceptsWord are those of the machine after
    // with_single_start and without_epsilons; with one start and no epsilon edges that
    // is the machine itself.
    method ComputeDfa()
      requires Valid()
      modifies this
      ensures Valid() && EpsilonFree(View()) && startingStates == {0}
      ensures forall i, a :: 0 <= i < numStates ==> |Targets(View(), i, a)| <= 1
      ensures forall w :: Accepts(View(), w) <==> Accepts(Symmetric(Ops.SingleStart(old(View()))), w)
      ensures forall w :: RunAccepts(View(), 0, w) <==> Accepts(View(), w)
      ensures old(|startingStates| == 1 && EpsilonFree(View())) ==>
                && (forall w :: Accepts(View(), w) <==> old(Accepts(View(), w)))
                && (forall i, a :: 0 <= i < numStates && a in old(UsedSymbols(View())) ==> |Targets(View(), i, a)| == 1)
    {
      hide Accepts, RunAccepts, Targets, UsedSymbols, EpsilonsReturn;
      WithSingleStart();
      WithoutEpsilons();
      var alpha := UsedSymbolSet();
      var s :| s in startingStates;
      Singleton(startingStates, s);
      ghost var m := View();
      var d, states := PowersetOf(View(), s, alpha);
      forall w ensures Accepts(d, w) <==> Accepts(m, w) ensures RunAccepts(d, 0, w) <==> Accepts(d, w) {
        PowersetLanguage(d, m, states, s, w);
        PowersetDecides(d, m, states, s, w);
      }
      Deterministic(d, m, states);
      Become(d);
    }

    // Follows the first edge for each symbol.
    method AcceptsWord(w: seq<nat>) returns (r: bool)
      ensures startingStates == {} ==> !r
      ensures startingStates != {} ==> exists i :: i in startingStates && r == RunAccepts(View(), i, w)
    {
      if startingStates == {} {
        return false;
      }
      var start :| start in startingStates;
      var i := start;
      for k := 0 to |w|
        invariant RunAccepts(View(), start, w) == RunAccepts(View(), i, w[k..])
      {
        assert w[k..][0] == w[k] && w[k..][1..] == w[k + 1..];
        var j := Lookup(i, w[k]);
        if j.None? {
          return false;
        }
        i := j.value;
      }
      r := i in acceptingStates;
    }

    // The least state reached from i by symbol a.
    method Lookup(i: nat, a: nat) returns (j: Option<nat>)
      ensures j == if Targets(View(), i, a) == {} then None else Some(Least(Targets(View(), i, a)))
    {
      j := None;
      var rest := transitions;
      while rest != {}
        invariant rest <= transitions
        invariant j.None? ==> forall e :: e in transitions && e !in rest ==> e.from != i || e.on != Value(a)
        invariant j.Some? ==> Edge(i, Value(a), j.value) in transitions
        invariant j.Some? ==> forall e :: e in transitions && e !in rest && e.from == i && e.on == Value(a) ==> j.value <= e.to
      {
        var e :| e in rest;
        if e.from == i && e.on == Value(a) && (j.None? || e.to < j.value) {
          j := Some(e.to);
        }
        rest := rest - {e};
      }
      if j.Some? {
        assert j.value in Targets(View(), i, a);
      }
    }
  }

  // Whether a machine without epsilon edges and with one start accepts a word, by way of its powerset.
  method Decide(m: Machine, w: seq<nat>) returns (r: bool)
    requires WellFormed(m) && EpsilonFree(m) && |m.starts| == 1
    ensures r <==> Accepts(m, w)
  {
    hide Accepts, RunAccepts, Targets, UsedSymbols, EpsilonsReturn, EpsilonFree;
    var fsm := new FiniteStateMachine(m);
    fsm.ComputeDfa();
    r := fsm.AcceptsWord(w);
  }

  // The same for any machine: it decides the language of the machine with a single start and two-way
  // epsilon edges.
  method DecideAny(m: Machine, w: seq<nat>) returns (r: bool)
    requires WellFormed(m)
    ensures r <==> Accepts(Symmetric(Ops.SingleStart(m)), w)
    ensures Accepts(m, w) ==> r
    ensures EpsilonsReturn(Ops.SingleStart(m)) ==> (r <==> Accepts(m, w))
  {
    hide Accepts, RunAccepts, Targets, UsedSymbols, EpsilonsReturn, EpsilonFree;
    Languages(Ops.SingleStart(m));
    Ops.SingleStartKeepsLanguage(m, w);
    var fsm := new FiniteStateMachine(m);
    fsm.ComputeDfa();
    r := fsm.AcceptsWord(w);
  }

  lemma Languages(m: Machine)
    ensures forall w :: Accepts(m, w) ==> Accepts(Symmetric(m), w)
    ensures EpsilonsReturn(m) ==> forall w :: Accepts(Symmetric(m), w) <==> Accepts(m, w)
  {
    hide Accepts, EpsilonsReturn;
    forall w | Accepts(m, w) ensures Accepts(Symmetric(m), w) {
      NeverLosesWords(m, w);
    }
    if EpsilonsReturn(m) {
      forall w ensures Accepts(Symmetric(m), w) <==> Accepts(m, w) {
        ReturningKeepsLanguage(m, w);
      }
    }
  }

  lemma Singleton(s: set<nat>, x: nat)
    requires |s| <= 1 && x in s
    ensures s == {x}
  {
    assert |s - {x}| == |s| - 1;
  }

  lemma {:induction false} ImageSmaller(s: set<nat>, h: seq<nat>)
    requires forall x :: x in s ==> x < |h|
    ensures |set x | x in s :: h[x]| <= |s|
    ensures s != {} ==> (set x | x in s :: h[x]) != {}
  {
    if s != {} {
      var x :| x in s;
      var t := s - {x};
      ImageSmaller(t, h);
      assert (set y | y in s :: h[y]) == (set y | y in t :: h[y]) + {h[x]};
    }
  }

  lemma Deterministic(d: Machine, m: Machine, states: seq<set<nat>>)
    requires IsPowerset(d, m, states)
    ensures EpsilonFree(d)
    ensures forall i, a :: 0 <= i < d.numStates ==> |Targets(d, i, a)| <= 1
    ensures forall i, a :: 0 <= i < d.numStates && a in UsedSymbols(m) ==> |Targets(d, i, a)| == 1
  {
    forall e | e in d.edges ensures e.on.Value? {
      assert EdgeOk(e, m, states);
    }
    forall i, a | 0 <= i < d.numStates
      ensures |Targets(d, i, a)| <= 1 && (a in UsedSymbols(m) ==> |Targets(d, i, a)| == 1)
    {
      OneSuccessor(d, m, states, i, a);
    }
  }
}
