/**
 without_epsilons: every set of states connected by epsilon edges, in either direction,
 becomes one state.
 */
module EpsilonRemoval {
  import opened Automata

  // ---- What the result accepts ----

  // The machine with all its epsilon edges made usable in both directions.
  ghost function Symmetric(m: Machine): Machine {
    m.(edges := m.edges + set e | e in m.edges && e.on.Epsilon? :: FlipEdge(e))
  }

  // States map to the same image exactly when epsilon edges connect them.
  ghost predicate MergesComponents(m: Machine, h: seq<nat>) {
    && |h| == m.numStates
    && forall i, j :: 0 <= i < |h| && 0 <= j < |h| ==> (h[i] == h[j] <==> Reads(Symmetric(m), i, [], j))
  }

  ghost function MapEdge(e: Edge, h: seq<nat>): Edge
    requires e.from < |h| && e.to < |h|
  {
    Edge(h[e.from], e.on, h[e.to])
  }

  // n is m with every state i replaced by h[i] and without epsilon edges.
  ghost predicate IsQuotient(n: Machine, m: Machine, h: seq<nat>)
    requires WellFormed(m) && |h| == m.numStates
  {
    && n.starts == (set s | s in m.starts :: h[s])
    && n.accepts == (set s | s in m.accepts :: h[s])
    && (forall e :: e in n.edges ==> e.on.Value? && exists d :: d in m.edges && MapEdge(d, h) == e)
    && (forall d :: d in m.edges && d.on.Value? ==> MapEdge(d, h) in n.edges)
  }

  lemma SymmetricWellFormed(m: Machine)
    requires WellFormed(m)
    ensures WellFormed(Symmetric(m))
  {
  }

  lemma EpsilonEdgeMerged(m: Machine, h: seq<nat>, e: Edge)
    requires WellFormed(m) && |h| == m.numStates && MergesComponents(m, h)
    requires e in Symmetric(m).edges && e.on.Epsilon?
    ensures e.from < |h| && e.to < |h| && h[e.from] == h[e.to]
  {
    SymmetricWellFormed(m);
    ReadsEdge(Symmetric(m), e);
  }

  // A path of the symmetric machine, seen in the quotient.
  lemma {:induction false} ProjectPath(m: Machine, n: Machine, h: seq<nat>, p: nat, path: seq<Edge>, q: nat)
    requires WellFormed(m) && |h| == m.numStates && MergesComponents(m, h) && IsQuotient(n, m, h)
    requires p < |h| && IsPath(Symmetric(m), p, path, q)
    ensures q < |h| && Reads(n, h[p], Word(path), h[q])
    decreases |path|
  {
    hide Reads, MergesComponents, IsQuotient;
    if path == [] {
      ReadsNothing(n, h[p]);
    } else {
      var e := path[0];
      SymmetricWellFormed(m);
      ProjectPath(m, n, h, e.to, path[1..], q);
      if e.on.Epsilon? {
        EpsilonEdgeMerged(m, h, e);
        assert Word(path) == Word(path[1..]);
      } else {
        ProjectedEdge(m, n, h, e);
        ReadsStep(n, MapEdge(e, h), Word(path[1..]), h[q]);
      }
    }
  }

  lemma ProjectedEdge(m: Machine, n: Machine, h: seq<nat>, e: Edge)
    requires WellFormed(m) && |h| == m.numStates && IsQuotient(n, m, h)
    requires e in Symmetric(m).edges && e.on.Value?
    ensures e.from < |h| && e.to < |h| && MapEdge(e, h) in n.edges
  {
    assert e in m.edges;
  }

  lemma LiftedEdge(m: Machine, n: Machine, h: seq<nat>, e: Edge) returns (d: Edge)
    requires WellFormed(m) && |h| == m.numStates && IsQuotient(n, m, h) && e in n.edges
    ensures d in m.edges && d.on.Value? && d.from < |h| && d.to < |h| && MapEdge(d, h) == e
  {
    d :| d in m.edges && MapEdge(d, h) == e;
  }

  lemma Connected(m: Machine, h: seq<nat>, i: nat, j: nat)
    requires MergesComponents(m, h) && i < |h| && j < |h| && h[i] == h[j]
    ensures Reads(Symmetric(m), i, [], j)
  {
  }

  // A path of the quotient, lifted to any states it stands for.
  lemma {:induction false} LiftPath(m: Machine, n: Machine, h: seq<nat>, p: nat, path: seq<Edge>, q: nat)
    requires WellFormed(m) && |h| == m.numStates && MergesComponents(m, h) && IsQuotient(n, m, h)
    requires p < |h| && q < |h| && IsPath(n, h[p], path, h[q])
    ensures Reads(Symmetric(m), p, Word(path), q)
    decreases |path|
  {
    hide Reads, MergesComponents, IsQuotient;
    var s := Symmetric(m);
    if path == [] {
      Connected(m, h, p, q);
    } else {
      var d := LiftedEdge(m, n, h, path[0]);
      LiftPath(m, n, h, d.to, path[1..], q);
      ReadsStep(s, d, Word(path[1..]), q);
      Connected(m, h, p, d.from);
      ReadsConcat(s, p, [], d.from, Word(path), q);
      assert [] + Word(path) == Word(path);
    }
  }

  // The exact language of the result, for every machine.
  lemma QuotientLanguage(m: Machine, n: Machine, h: seq<nat>, w: seq<nat>)
    requires WellFormed(m) && |h| == m.numStates && MergesComponents(m, h) && IsQuotient(n, m, h)
    ensures Accepts(n, w) <==> Accepts(Symmetric(m), w)
  {
    hide IsPath, Word, MergesComponents;
    var s := Symmetric(m);
    if Accepts(n, w) {
      var a, b :| a in n.starts && b in n.accepts && Reads(n, a, w, b);
      var p :| p in m.starts && h[p] == a;
      var q :| q in m.accepts && h[q] == b;
      var path :| IsPath(n, a, path, b) && Word(path) == w;
      LiftPath(m, n, h, p, path, q);
      assert p in s.starts && q in s.accepts;
    }
    if Accepts(s, w) {
      var p, q :| p in s.starts && q in s.accepts && Reads(s, p, w, q);
      var path :| IsPath(s, p, path, q) && Word(path) == w;
      ProjectPath(m, n, h, p, path, q);
      assert h[p] in n.starts && h[q] in n.accepts;
    }
  }

  // ---- When that is the language of the machine itself ----

  lemma NeverLosesWords(m: Machine, w: seq<nat>)
    requires Accepts(m, w)
    ensures Accepts(Symmetric(m), w)
  {
    var p, q :| p in m.starts && q in m.accepts && Reads(m, p, w, q);
    ReadsMonotone(m, Symmetric(m), p, w, q);
    assert p in Symmetric(m).starts;
  }

  // Every epsilon edge can be undone by epsilon edges.
  ghost predicate EpsilonsReturn(m: Machine) {
    forall e :: e in m.edges && e.on.Epsilon? ==> Reads(m, e.to, [], e.from)
  }

  lemma {:induction false} ReturningPath(m: Machine, p: nat, path: seq<Edge>, q: nat)
    requires EpsilonsReturn(m) && IsPath(Symmetric(m), p, path, q)
    ensures Reads(m, p, Word(path), q)
    decreases |path|
  {
    hide Reads;
    if path == [] {
      ReadsNothing(m, p);
    } else {
      var e := path[0];
      ReturningPath(m, e.to, path[1..], q);
      if e in m.edges {
        ReadsStep(m, e, Word(path[1..]), q);
      } else {
        assert FlipEdge(e) in m.edges;
        ReadsConcat(m, p, [], e.to, Word(path[1..]), q);
      }
      assert [] + Word(path[1..]) == Word(path[1..]);
    }
  }

  // States of one component reach each other by epsilon edges.
  ghost predicate ComponentsReturn(m: Machine) {
    forall i, j :: Reads(Symmetric(m), i, [], j) ==> Reads(m, i, [], j)
  }

  // Edge by edge is the same as component by component.
  lemma ReturningComponents(m: Machine)
    ensures EpsilonsReturn(m) <==> ComponentsReturn(m)
  {
    if EpsilonsReturn(m) {
      forall i, j | Reads(Symmetric(m), i, [], j)
        ensures Reads(m, i, [], j)
      {
        var path :| IsPath(Symmetric(m), i, path, j) && Word(path) == [];
        ReturningPath(m, i, path, j);
      }
    }
    if ComponentsReturn(m) {
      forall e | e in m.edges && e.on.Epsilon?
        ensures Reads(m, e.to, [], e.from)
      {
        assert FlipEdge(e) in Symmetric(m).edges;
        ReadsEdge(Symmetric(m), FlipEdge(e));
      }
    }
  }

  lemma ReturningKeepsLanguage(m: Machine, w: seq<nat>)
    requires EpsilonsReturn(m)
    ensures Accepts(Symmetric(m), w) <==> Accepts(m, w)
  {
    hide IsPath, Word, EpsilonsReturn;
    if Accepts(m, w) {
      NeverLosesWords(m, w);
    }
    if Accepts(Symmetric(m), w) {
      var s := Symmetric(m);
      var p, q :| p in s.starts && q in s.accepts && Reads(s, p, w, q);
      var path :| IsPath(s, p, path, q) && Word(path) == w;
      ReturningPath(m, p, path, q);
    }
  }

  // Two machines that differ in starts, accepting states and symbol edges only.
  ghost predicate SameEpsilons(m: Machine, n: Machine) {
    && m.numStates == n.numStates
    && forall e: Edge :: e.on.Epsilon? ==> (e in m.edges <==> e in n.edges)
  }

  ghost predicate KeepsLanguage(m: Machine) {
    forall w :: Accepts(Symmetric(m), w) <==> Accepts(m, w)
  }

  // The probe that tells whether the epsilon edge e can be undone.
  ghost function Probe(m: Machine, e: Edge): Machine {
    Machine(m.numStates, {e.to}, {e.from}, set d | d in m.edges && d.on.Epsilon?)
  }

  // Returning epsilons are exactly what makes the construction keep the language
  // whatever else the machine contains.
  lemma KeepsLanguageExactly(m: Machine)
    requires WellFormed(m)
    ensures EpsilonsReturn(m) <==>
              forall n :: WellFormed(n) && SameEpsilons(m, n) ==> KeepsLanguage(n)
  {
    hide Accepts, Reads;
    if EpsilonsReturn(m) {
      forall n | WellFormed(n) && SameEpsilons(m, n) ensures KeepsLanguage(n) {
        ReturnTransfers(m, n);
        forall w ensures Accepts(Symmetric(n), w) <==> Accepts(n, w) {
          ReturningKeepsLanguage(n, w);
        }
      }
    }
    if forall n :: WellFormed(n) && SameEpsilons(m, n) ==> KeepsLanguage(n) {
      forall e | e in m.edges && e.on.Epsilon? ensures Reads(m, e.to, [], e.from) {
        var n := Probe(m, e);
        assert WellFormed(n) && SameEpsilons(m, n);
        ProbeAccepts(m, e);
      }
    }
  }

  lemma {:induction false} EpsilonPath(m: Machine, n: Machine, p: nat, path: seq<Edge>, q: nat)
    requires SameEpsilons(m, n) && IsPath(m, p, path, q) && Word(path) == []
    ensures IsPath(n, p, path, q)
    decreases |path|
  {
    if path != [] {
      EpsilonPath(m, n, path[0].to, path[1..], q);
    }
  }

  lemma ReturnTransfers(m: Machine, n: Machine)
    requires SameEpsilons(m, n) && EpsilonsReturn(m)
    ensures EpsilonsReturn(n)
  {
    forall e | e in n.edges && e.on.Epsilon? ensures Reads(n, e.to, [], e.from) {
      assert e in m.edges;
      var path :| IsPath(m, e.to, path, e.from) && Word(path) == [];
      EpsilonPath(m, n, e.to, path, e.from);
    }
  }

  lemma ProbeAccepts(m: Machine, e: Edge)
    requires e in m.edges && e.on.Epsilon?
    ensures Accepts(Symmetric(Probe(m, e)), [])
    ensures Accepts(Probe(m, e), []) ==> Reads(m, e.to, [], e.from)
  {
    var n := Probe(m, e);
    var s := Symmetric(n);
    assert e in n.edges && FlipEdge(e) in s.edges;
    ReadsEdge(s, FlipEdge(e));
    assert e.to in s.starts && e.from in s.accepts;
    if Accepts(n, []) {
      var p, q :| p in n.starts && q in n.accepts && Reads(n, p, [], q);
      ReadsMonotone(n, m, p, [], q);
    }
  }

  // A word the source adds: from the end of an epsilon edge back to its beginning.
  lemma AddsAWord()
    ensures var m := Machine(2, {1}, {0}, {Edge(0, Epsilon, 1)});
            WellFormed(m) && !Accepts(m, []) && Accepts(Symmetric(m), [])
  {
    var e := Edge(0, Epsilon, 1);
    var m := Machine(2, {1}, {0}, {e});
    assert Probe(m, e) == m;
    ProbeAccepts(m, e);
    forall path: seq<Edge> ensures !IsPath(m, 1, path, 0) {
      assert path != [] ==> path[0] != e || path[0].from != 1;
    }
  }
}
