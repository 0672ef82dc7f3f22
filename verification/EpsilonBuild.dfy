/** The loops of without_epsilons: components, their numbering and the merged machine. */
module EpsilonBuild {
  import opened Automata
  import opened EpsilonRemoval
  import Sets = DisjointSets

  // ---- Epsilon components ----

  ghost predicate Justified(m: Machine, rs: seq<nat>) {
    forall i, j :: 0 <= i < |rs| && 0 <= j < |rs| && rs[i] == rs[j] ==> Reads(Symmetric(m), i, [], j)
  }

  ghost predicate Joined(rs: seq<nat>, e: Edge) {
    e.from < |rs| && e.to < |rs| && rs[e.from] == rs[e.to]
  }

  lemma {:induction false} EpsilonPathBack(m: Machine, p: nat, path: seq<Edge>, q: nat)
    requires IsPath(Symmetric(m), p, path, q) && Word(path) == []
    ensures Reads(Symmetric(m), q, [], p)
    decreases |path|
  {
    hide Reads;
    var s := Symmetric(m);
    if path == [] {
      ReadsNothing(s, p);
    } else {
      var e := path[0];
      EpsilonPathBack(m, e.to, path[1..], q);
      assert FlipEdge(e) in s.edges;
      ReadsEdge(s, FlipEdge(e));
      ReadsConcat(s, q, [], e.to, [], p);
    }
  }

  lemma ConnectedBack(m: Machine, p: nat, q: nat)
    requires Reads(Symmetric(m), p, [], q)
    ensures Reads(Symmetric(m), q, [], p)
  {
    var path :| IsPath(Symmetric(m), p, path, q) && Word(path) == [];
    EpsilonPathBack(m, p, path, q);
  }

  // Hanging the set of lo below hi keeps all pairs justified.
  lemma UnionJustified(m: Machine, rs: seq<nat>, x: nat, y: nat)
    requires Justified(m, rs) && x < |rs| && y < |rs| && Reads(Symmetric(m), x, [], y)
    ensures Justified(m, Sets.Replaced(rs, rs[x], rs[y]))
  {
    hide Reads, Symmetric;
    var s := Symmetric(m);
    var ns := Sets.Replaced(rs, rs[x], rs[y]);
    var nothing: seq<nat> := [];
    assert nothing + nothing == nothing;
    ConnectedBack(m, x, y);
    forall i, j | 0 <= i < |ns| && 0 <= j < |ns| && ns[i] == ns[j] ensures Reads(s, i, [], j) {
      if rs[i] != rs[j] {
        if rs[i] == rs[x] {
          ReadsConcat(s, i, [], x, [], y);
          ReadsConcat(s, i, [], y, [], j);
        } else {
          ReadsConcat(s, i, [], y, [], x);
          ReadsConcat(s, i, [], x, [], j);
        }
      }
    }
  }

  lemma {:induction false} PathJoined(m: Machine, rs: seq<nat>, p: nat, path: seq<Edge>, q: nat)
    requires forall e :: e in m.edges && e.on.Epsilon? ==> Joined(rs, e)
    requires p < |rs| && IsPath(Symmetric(m), p, path, q) && Word(path) == []
    ensures q < |rs| && rs[p] == rs[q]
    decreases |path|
  {
    if path != [] {
      var e := path[0];
      assert e in m.edges || FlipEdge(e) in m.edges;
      PathJoined(m, rs, e.to, path[1..], q);
    }
  }

  lemma ComponentsMerged(m: Machine, rs: seq<nat>)
    requires |rs| == m.numStates && Justified(m, rs)
    requires forall e :: e in m.edges && e.on.Epsilon? ==> Joined(rs, e)
    ensures MergesComponents(m, rs)
  {
    forall i, j | 0 <= i < |rs| && 0 <= j < |rs| && Reads(Symmetric(m), i, [], j) ensures rs[i] == rs[j] {
      var path :| IsPath(Symmetric(m), i, path, j) && Word(path) == [];
      PathJoined(m, rs, i, path, j);
    }
  }

  lemma StillJoined(rs: seq<nat>, a: nat, b: nat, e: Edge)
    requires Joined(rs, e)
    ensures Joined(Sets.Replaced(rs, a, b), e)
  {
  }

  // One set per epsilon component.
  method Closures(m: Machine) returns (closures: Sets.DisjointSets)
    requires WellFormed(m)
    ensures fresh(closures) && closures.Valid() && |closures.elements| == m.numStates
    ensures MergesComponents(m, closures.Sets())
  {
    hide MergesComponents, Reads, Symmetric, Justified;
    closures := new Sets.DisjointSets(m.numStates);
    Separate(m, closures.Sets());
    var rest := set e | e in m.edges && e.on.Epsilon?;
    while rest != {}
      invariant rest <= m.edges && forall e :: e in rest ==> e.on.Epsilon?
      invariant fresh(closures) && closures.Valid() && |closures.elements| == m.numStates
      invariant Justified(m, closures.Sets())
      invariant forall e :: e in m.edges && e.on.Epsilon? && e !in rest ==> Joined(closures.Sets(), e)
    {
      var e :| e in rest;
      ghost var rs := closures.Sets();
      closures.UnionSets(e.from, e.to);
      UnionStep(m, rs, closures.Sets(), e);
      forall d | d in m.edges && d.on.Epsilon? && d !in rest ensures Joined(closures.Sets(), d) {
        StillJoined(rs, rs[e.from], rs[e.to], d);
        StillJoined(rs, rs[e.to], rs[e.from], d);
      }
      rest := rest - {e};
    }
    ComponentsMerged(m, closures.Sets());
  }

  lemma Separate(m: Machine, rs: seq<nat>)
    requires forall i :: 0 <= i < |rs| ==> rs[i] == i
    ensures Justified(m, rs)
  {
    forall i, j | 0 <= i < |rs| && 0 <= j < |rs| && rs[i] == rs[j] ensures Reads(Symmetric(m), i, [], j) {
      ReadsNothing(Symmetric(m), i);
    }
  }

  lemma UnionStep(m: Machine, rs: seq<nat>, ns: seq<nat>, e: Edge)
    requires WellFormed(m) && |rs| == m.numStates && Justified(m, rs) && e in m.edges && e.on.Epsilon?
    requires ns == Sets.Replaced(rs, rs[e.from], rs[e.to]) || ns == Sets.Replaced(rs, rs[e.to], rs[e.from])
    ensures Justified(m, ns) && Joined(ns, e)
  {
    hide Reads, Justified;
    ReadsEdge(Symmetric(m), e);
    ConnectedBack(m, e.from, e.to);
    UnionJustified(m, rs, e.from, e.to);
    UnionJustified(m, rs, e.to, e.from);
  }

  // Numbers the sets in the order of their least elements.
  method StateMapping(closures: Sets.DisjointSets) returns (h: seq<nat>, count: nat)
    requires closures.Valid()
    modifies closures
    ensures |h| == old(|closures.elements|)
    ensures forall i :: 0 <= i < |h| ==> h[i] < count
    ensures forall i, j :: 0 <= i < |h| && 0 <= j < |h| ==> (h[i] == h[j] <==> old(closures.Sets())[i] == old(closures.Sets())[j])
  {
    h, count := [], 0;
    var n := |closures.elements|;
    ghost var rs := closures.Sets();
    for i := 0 to n
      invariant closures.Valid() && closures.Sets() == rs
      invariant |h| == i && forall k :: 0 <= k < i ==> h[k] < count
      invariant forall k, j :: 0 <= k < i && 0 <= j < i ==> (h[k] == h[j] <==> rs[k] == rs[j])
    {
      var c := closures.FindSetMin(i);
      if c < i {
        h := h + [h[c]];
      } else {
        assert forall k :: 0 <= k < i ==> rs[k] != rs[i];
        h := h + [count];
        count := count + 1;
      }
    }
  }

  // The machine in which state i has become h[i], without its epsilon edges.
  method Quotient(m: Machine, h: seq<nat>, count: nat) returns (n: Machine)
    requires WellFormed(m) && |h| == m.numStates && forall i :: 0 <= i < |h| ==> h[i] < count
    ensures n.numStates == count && WellFormed(n) && EpsilonFree(n) && IsQuotient(n, m, h)
  {
    var edges: set<Edge> := {};
    var rest := m.edges;
    while rest != {}
      invariant rest <= m.edges
      invariant forall e :: e in edges ==> e.on.Value? && e.from < count && e.to < count
      invariant forall e :: e in edges ==> exists d :: d in m.edges && MapEdge(d, h) == e
      invariant forall d :: d in m.edges && d !in rest && d.on.Value? ==> MapEdge(d, h) in edges
    {
      var e :| e in rest;
      rest := rest - {e};
      if e.on.Epsilon? {
        continue;
      }
      assert MapEdge(e, h) == Edge(h[e.from], e.on, h[e.to]);
      edges := edges + {Edge(h[e.from], e.on, h[e.to])};
    }
    n := Machine(count, set s | s in m.starts :: h[s], set s | s in m.accepts :: h[s], edges);
  }
}
