/** The worklist of compute_dfa. */
module PowersetBuild {
  import opened Prelude
  import opened Automata
  import opened Powerset

  datatype Worklist = Worklist(states: seq<set<nat>>, index: map<set<nat>, nat>, accepts: set<nat>, edges: set<Edge>)

  ghost predicate Indexed(w: Worklist) {
    && (forall i :: 0 <= i < |w.states| ==> w.states[i] in w.index && w.index[w.states[i]] == i)
    && (forall s :: s in w.index ==> w.index[s] < |w.states| && w.states[w.index[s]] == s)
  }

  ghost predicate Sound(w: Worklist, m: Machine) {
    && Indexed(w)
    && |w.states| > 0 && w.states[0] == m.starts
    && (forall i :: 0 <= i < |w.states| ==> Within(w.states[i], m.numStates))
    && (forall i: nat :: i in w.accepts <==> i < |w.states| && w.states[i] * m.accepts != {})
    && (forall e :: e in w.edges ==> EdgeOk(e, m, w.states))
  }

  ghost predicate Within(s: set<nat>, n: nat) {
    forall x :: x in s ==> x < n
  }

  ghost predicate HasEdge(edges: set<Edge>, i: nat, a: nat) {
    exists j :: Edge(i, Value(a), j) in edges
  }

  // The states reached from a set by one symbol, and whether one of them accepts.
  method NextSet(m: Machine, from: set<nat>, a: nat) returns (next: set<nat>, accepting: bool)
    ensures next == Step(m, from, a)
    ensures accepting <==> next * m.accepts != {}
  {
    next, accepting := {}, false;
    var rest := m.edges;
    while rest != {}
      invariant rest <= m.edges
      invariant next == set e | e in m.edges - rest && e.on == Value(a) && e.from in from :: e.to
      invariant accepting <==> next * m.accepts != {}
    {
      var e :| e in rest;
      if e.on == Value(a) && e.from in from {
        if e.to in m.accepts {
          assert e.to in (next + {e.to}) * m.accepts;
          accepting := true;
        }
        assert (next + {e.to}) * m.accepts == next * m.accepts + {e.to} * m.accepts;
        next := next + {e.to};
      }
      rest := rest - {e};
      assert m.edges - rest == (m.edges - (rest + {e})) + {e};
    }
    assert m.edges - rest == m.edges;
  }

  // Adds the successor of state cur under symbol a; a new set is given the next id.
  method AddSuccessor(m: Machine, w: Worklist, cur: nat, a: nat) returns (r: Worklist, added: bool)
    requires WellFormed(m) && Sound(w, m) && cur < |w.states| && a in UsedSymbols(m)
    ensures Sound(r, m)
    ensures r.states == w.states || r.states == w.states + [Step(m, w.states[cur], a)]
    ensures added <==> |r.states| == |w.states| + 1
    ensures w.edges <= r.edges && HasEdge(r.edges, cur, a)
    ensures forall e :: e in r.edges && e.from != cur ==> e in w.edges
  {
    hide Step, UsedSymbols;
    var next, accepting := NextSet(m, w.states[cur], a);
    StepWithin(m, w.states[cur], a);
    var id;
    if next in w.index {
      id, added := w.index[next], false;
      r := w.(edges := w.edges + {Edge(cur, Value(a), id)});
    } else {
      id, added := |w.states|, true;
      r := Worklist(w.states + [next], w.index[next := id], if accepting then w.accepts + {id} else w.accepts,
                    w.edges + {Edge(cur, Value(a), id)});
      forall e | e in w.edges ensures EdgeOk(e, m, r.states) {
        assert EdgeOk(e, m, w.states);
      }
    }
    assert EdgeOk(Edge(cur, Value(a), id), m, r.states);
  }

  lemma StepWithin(m: Machine, from: set<nat>, a: nat)
    requires WellFormed(m)
    ensures Within(Step(m, from, a), m.numStates)
  {
  }

  // ---- Termination: there are only so many sets ----

  ghost function Subsets(n: nat): set<set<nat>> {
    if n == 0 then {{}} else
      var smaller := Subsets(n - 1);
      smaller + set s | s in smaller :: s + {n - 1}
  }

  lemma {:induction false} SubsetsComplete(n: nat, s: set<nat>)
    requires Within(s, n)
    ensures s in Subsets(n)
  {
    if n == 0 {
      assert s == {};
    } else {
      var t := s - {n - 1};
      SubsetsComplete(n - 1, t);
      assert s == t || s == t + {n - 1};
    }
  }

  lemma StatesBounded(w: Worklist, m: Machine)
    requires Sound(w, m)
    ensures |w.states| <= |Subsets(m.numStates)|
  {
    hide Step;
    var used := set i | 0 <= i < |w.states| :: w.states[i];
    forall i | 0 <= i < |w.states| ensures w.states[i] in Subsets(m.numStates) {
      SubsetsComplete(m.numStates, w.states[i]);
    }
    DistinctSize(w.states, used);
    SubsetSize(used, Subsets(m.numStates));
  }

  // All successors of state cur.
  method Visit(m: Machine, alpha: set<nat>, w: Worklist, queue: seq<nat>, cur: nat) returns (r: Worklist, q: seq<nat>)
    requires WellFormed(m) && Sound(w, m) && alpha == UsedSymbols(m)
    requires cur < |w.states| && Pending(w, alpha, queue + [cur])
    ensures Sound(r, m) && Pending(r, alpha, q)
    ensures |r.states| > |w.states| || (r.states == w.states && q == queue)
  {
    hide UsedSymbols, Step, Sound;
    r, q := w, queue;
    assert forall i :: i in queue ==> i in queue + [cur];
    var rest := alpha;
    while rest != {}
      invariant rest <= alpha && Sound(r, m) && w.states <= r.states
      invariant forall a :: a in alpha - rest ==> HasEdge(r.edges, cur, a)
      invariant forall i :: 0 <= i < |r.states| && i != cur && i !in q ==> Complete(r.edges, alpha, i)
      invariant forall i :: i in q ==> i < |r.states|
      invariant |r.states| > |w.states| || (r.states == w.states && q == queue)
    {
      var a :| a in rest;
      var next, added := AddSuccessor(m, r, cur, a);
      forall i | 0 <= i < |r.states| && i != cur && i !in q ensures Complete(next.edges, alpha, i) {
        StillComplete(r.edges, next.edges, alpha, i);
      }
      forall b | b in alpha - rest ensures HasEdge(next.edges, cur, b) {
        StillEdge(r.edges, next.edges, cur, b);
      }
      if added {
        q := q + [|r.states|];
      }
      r := next;
      rest := rest - {a};
    }
    assert alpha - rest == alpha;
  }

  ghost predicate Complete(edges: set<Edge>, alpha: set<nat>, i: nat) {
    forall a :: a in alpha ==> HasEdge(edges, i, a)
  }

  // States that are not queued have all their successors.
  ghost predicate Pending(w: Worklist, alpha: set<nat>, queue: seq<nat>) {
    && (forall i :: i in queue ==> i < |w.states|)
    && (forall i :: 0 <= i < |w.states| && i !in queue ==> Complete(w.edges, alpha, i))
  }

  lemma StillEdge(d: set<Edge>, e: set<Edge>, i: nat, a: nat)
    requires d <= e && HasEdge(d, i, a)
    ensures HasEdge(e, i, a)
  {
  }

  lemma StillComplete(d: set<Edge>, e: set<Edge>, alpha: set<nat>, i: nat)
    requires d <= e && Complete(d, alpha, i)
    ensures Complete(e, alpha, i)
  {
    forall a | a in alpha ensures HasEdge(e, i, a) {
      StillEdge(d, e, i, a);
    }
  }

  // The whole construction; s is the single start state.
  method PowersetOf(m: Machine, s: nat, alpha: set<nat>) returns (d: Machine, ghost states: seq<set<nat>>)
    requires WellFormed(m) && m.starts == {s} && alpha == UsedSymbols(m)
    ensures WellFormed(d) && IsPowerset(d, m, states)
  {
    hide UsedSymbols, Step;
    var w := Worklist([{s}], map[{s} := 0], if s in m.accepts then {0} else {}, {});
    assert {s} * m.accepts == if s in m.accepts then {s} else {};
    var queue := [0];
    while queue != []
      invariant Sound(w, m) && Pending(w, alpha, queue)
      decreases |Subsets(m.numStates)| - |w.states|, |queue|
    {
      var n := |queue| - 1;
      var cur := queue[n];
      assert queue == queue[..n] + [cur] && cur in queue;
      var next, q := Visit(m, alpha, w, queue[..n], cur);
      StatesBounded(next, m);
      w, queue := next, q;
    }
    d := Machine(|w.states|, {0}, w.accepts, w.edges);
    states := w.states;
    FinishedPowerset(d, m, w, alpha);
  }

  lemma FinishedPowerset(d: Machine, m: Machine, w: Worklist, alpha: set<nat>)
    requires Sound(w, m) && Pending(w, alpha, []) && alpha == UsedSymbols(m)
    requires d == Machine(|w.states|, {0}, w.accepts, w.edges)
    ensures WellFormed(d) && IsPowerset(d, m, w.states)
  {
    hide UsedSymbols, Step;
    forall e | e in d.edges ensures e.from < d.numStates && e.to < d.numStates {
      assert EdgeOk(e, m, w.states);
    }
    forall i, a | 0 <= i < |w.states| && a in alpha ensures Targets(d, i, a) != {} {
      assert Complete(w.edges, alpha, i) && HasEdge(w.edges, i, a);
      var j :| Edge(i, Value(a), j) in d.edges;
      assert j in Targets(d, i, a);
    }
  }
}
