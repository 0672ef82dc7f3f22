/** Nondeterministic automata with epsilon edges, their paths and their language. */
module Automata {
  datatype Label = Value(symbol: nat) | Epsilon

  datatype Edge = Edge(from: nat, on: Label, to: nat)

  function FlipEdge(e: Edge): Edge {
    Edge(e.to, e.on, e.from)
  }

  datatype Machine = Machine(numStates: nat, starts: set<nat>, accepts: set<nat>, edges: set<Edge>)

  // All state ids are below the number of states.
  ghost predicate WellFormed(m: Machine) {
    && (forall s :: s in m.starts ==> s < m.numStates)
    && (forall s :: s in m.accepts ==> s < m.numStates)
    && (forall e :: e in m.edges ==> e.from < m.numStates && e.to < m.numStates)
  }

  ghost predicate EpsilonFree(m: Machine) {
    forall e :: e in m.edges ==> e.on.Value?
  }

  // ---- Paths and words ----

  ghost predicate IsPath(m: Machine, p: nat, path: seq<Edge>, q: nat)
    decreases |path|
  {
    if path == [] then p == q
    else path[0] in m.edges && path[0].from == p && IsPath(m, path[0].to, path[1..], q)
  }

  // The symbols along a path.
  ghost function Word(path: seq<Edge>): seq<nat> {
    if path == [] then []
    else (match path[0].on case Value(s) => [s] case Epsilon => []) + Word(path[1..])
  }

  // The machine can go from p to q reading w.
  ghost predicate Reads(m: Machine, p: nat, w: seq<nat>, q: nat) {
    exists path :: IsPath(m, p, path, q) && Word(path) == w
  }

  // w is in the language of the machine.
  ghost predicate Accepts(m: Machine, w: seq<nat>) {
    exists p, q :: p in m.starts && q in m.accepts && Reads(m, p, w, q)
  }

  lemma ReadsNothing(m: Machine, p: nat)
    ensures Reads(m, p, [], p)
  {
    assert IsPath(m, p, [], p) && Word([]) == [];
  }

  lemma ReadsEdge(m: Machine, e: Edge)
    requires e in m.edges
    ensures Reads(m, e.from, if e.on.Value? then [e.on.symbol] else [], e.to)
  {
    assert [e][1..] == [];
    assert IsPath(m, e.from, [e], e.to);
    assert Word([e]) == if e.on.Value? then [e.on.symbol] else [];
  }

  lemma {:induction false} PathConcat(m: Machine, p: nat, a: seq<Edge>, q: nat, b: seq<Edge>, r: nat)
    requires IsPath(m, p, a, q) && IsPath(m, q, b, r)
    ensures IsPath(m, p, a + b, r) && Word(a + b) == Word(a) + Word(b)
    decreases |a|
  {
    if a == [] {
      assert a + b == b;
    } else {
      assert (a + b)[1..] == a[1..] + b;
      PathConcat(m, a[0].to, a[1..], q, b, r);
      var s: seq<nat> := if a[0].on.Value? then [a[0].on.symbol] else [];
      assert Word(a + b) == s + (Word(a[1..]) + Word(b)) == (s + Word(a[1..])) + Word(b);
    }
  }

  lemma ReadsConcat(m: Machine, p: nat, u: seq<nat>, q: nat, v: seq<nat>, r: nat)
    requires Reads(m, p, u, q) && Reads(m, q, v, r)
    ensures Reads(m, p, u + v, r)
  {
    var a :| IsPath(m, p, a, q) && Word(a) == u;
    var b :| IsPath(m, q, b, r) && Word(b) == v;
    PathConcat(m, p, a, q, b, r);
  }

  // The first edge of a path, and what follows it.
  lemma ReadsStep(m: Machine, e: Edge, w: seq<nat>, q: nat)
    requires e in m.edges && Reads(m, e.to, w, q)
    ensures Reads(m, e.from, (if e.on.Value? then [e.on.symbol] else []) + w, q)
  {
    ReadsEdge(m, e);
    ReadsConcat(m, e.from, if e.on.Value? then [e.on.symbol] else [], e.to, w, q);
  }

  lemma {:induction false} PathMonotone(m: Machine, n: Machine, p: nat, path: seq<Edge>, q: nat)
    requires m.edges <= n.edges && IsPath(m, p, path, q)
    ensures IsPath(n, p, path, q)
    decreases |path|
  {
    if path != [] {
      PathMonotone(m, n, path[0].to, path[1..], q);
    }
  }

  lemma ReadsMonotone(m: Machine, n: Machine, p: nat, w: seq<nat>, q: nat)
    requires m.edges <= n.edges && Reads(m, p, w, q)
    ensures Reads(n, p, w, q)
  {
    var path :| IsPath(m, p, path, q) && Word(path) == w;
    PathMonotone(m, n, p, path, q);
  }

  // ---- Images of machines ----

  function ShiftEdge(e: Edge, k: nat): Edge {
    Edge(e.from + k, e.on, e.to + k)
  }

  ghost function ShiftSet(s: set<nat>, k: nat): set<nat> {
    set x | x in s :: x + k
  }

  ghost function ShiftEdges(s: set<Edge>, k: nat): set<Edge> {
    set e | e in s :: ShiftEdge(e, k)
  }

  lemma {:induction false} ShiftedPath(m: Machine, n: Machine, k: nat, p: nat, path: seq<Edge>, q: nat)
    requires ShiftEdges(m.edges, k) <= n.edges && IsPath(m, p, path, q)
    ensures Reads(n, p + k, Word(path), q + k)
    decreases |path|
  {
    hide Reads;
    if path == [] {
      ReadsNothing(n, p + k);
    } else {
      ShiftedPath(m, n, k, path[0].to, path[1..], q);
      assert ShiftEdge(path[0], k) in ShiftEdges(m.edges, k);
      ReadsStep(n, ShiftEdge(path[0], k), Word(path[1..]), q + k);
    }
  }

  // Edges of n from k on are edges of m, shifted.
  ghost predicate Unshifts(n: Machine, m: Machine, k: nat) {
    forall e :: e in n.edges && e.from >= k ==> e.to >= k && Edge(e.from - k, e.on, e.to - k) in m.edges
  }

  lemma {:induction false} UnshiftedPath(m: Machine, n: Machine, k: nat, p: nat, path: seq<Edge>, q: nat)
    requires Unshifts(n, m, k) && p >= k && IsPath(n, p, path, q)
    ensures q >= k && Reads(m, p - k, Word(path), q - k)
    decreases |path|
  {
    hide Reads;
    if path == [] {
      ReadsNothing(m, p - k);
    } else {
      var e := path[0];
      UnshiftedPath(m, n, k, e.to, path[1..], q);
      ReadsStep(m, Edge(e.from - k, e.on, e.to - k), Word(path[1..]), q - k);
    }
  }
}
