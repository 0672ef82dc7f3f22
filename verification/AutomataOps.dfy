/**
 Union, concatenation, repetition, reversal and the single start state, as operations on
 machines, with the language each of them yields.
 */
module AutomataOps {
  import opened Automata

  // ---- join: union ----

  ghost function Join(a: Machine, b: Machine): Machine {
    var k := a.numStates;
    Machine(k + b.numStates, a.starts + ShiftSet(b.starts, k), a.accepts + ShiftSet(b.accepts, k),
            a.edges + ShiftEdges(b.edges, k))
  }

  // A path that starts in a stays in a as long as no edge leads out of it.
  lemma {:induction false} StaysInFirst(a: Machine, n: Machine, p: nat, path: seq<Edge>, q: nat)
    requires WellFormed(a) && p < a.numStates
    requires forall e :: e in n.edges && e.from < a.numStates ==> e in a.edges
    requires IsPath(n, p, path, q)
    ensures q < a.numStates && IsPath(a, p, path, q)
    decreases |path|
  {
    if path != [] {
      StaysInFirst(a, n, path[0].to, path[1..], q);
    }
  }

  lemma JoinSplits(a: Machine, b: Machine, w: seq<nat>)
    requires WellFormed(a) && WellFormed(b) && Accepts(Join(a, b), w)
    ensures Accepts(a, w) || Accepts(b, w)
  {
    hide IsPath, Word;
    var n, k := Join(a, b), a.numStates;
    var p, q :| p in n.starts && q in n.accepts && Reads(n, p, w, q);
    var path :| IsPath(n, p, path, q) && Word(path) == w;
    if p < k {
      StaysInFirst(a, n, p, path, q);
      assert Reads(a, p, w, q);
    } else {
      assert Unshifts(n, b, k);
      UnshiftedPath(b, n, k, p, path, q);
      assert p - k in b.starts && q - k in b.accepts;
    }
  }

  lemma JoinCombines(a: Machine, b: Machine, w: seq<nat>)
    requires Accepts(a, w) || Accepts(b, w)
    ensures Accepts(Join(a, b), w)
  {
    hide IsPath, Word;
    var n, k := Join(a, b), a.numStates;
    if Accepts(a, w) {
      var p, q :| p in a.starts && q in a.accepts && Reads(a, p, w, q);
      ReadsMonotone(a, n, p, w, q);
    } else {
      var p, q :| p in b.starts && q in b.accepts && Reads(b, p, w, q);
      var path :| IsPath(b, p, path, q) && Word(path) == w;
      ShiftedPath(b, n, k, p, path, q);
      assert p + k in n.starts && q + k in n.accepts;
    }
  }

  lemma JoinIsUnion(a: Machine, b: Machine, w: seq<nat>)
    requires WellFormed(a) && WellFormed(b)
    ensures WellFormed(Join(a, b))
    ensures Accepts(Join(a, b), w) <==> Accepts(a, w) || Accepts(b, w)
  {
    hide Accepts;
    if Accepts(Join(a, b), w) {
      JoinSplits(a, b, w);
    }
    if Accepts(a, w) || Accepts(b, w) {
      JoinCombines(a, b, w);
    }
  }

  // ---- then: concatenation ----

  ghost function Bridges(from: set<nat>, to: set<nat>): set<Edge> {
    set i, j | i in from && j in to :: Edge(i, Epsilon, j)
  }

  ghost function Then(a: Machine, b: Machine): Machine {
    var k := a.numStates;
    Machine(k + b.numStates, a.starts, ShiftSet(b.accepts, k),
            a.edges + ShiftEdges(b.edges, k) + Bridges(a.accepts, ShiftSet(b.starts, k)))
  }

  // A path from a into b crosses from an accepting state of a to a start of b.
  lemma {:induction false} Crossing(a: Machine, b: Machine, n: Machine, p: nat, path: seq<Edge>, q: nat)
    returns (u: seq<nat>, i: nat, j: nat, v: seq<nat>)
    requires WellFormed(a) && p < a.numStates <= q && Unshifts(n, b, a.numStates)
    requires forall e :: e in n.edges && e.from < a.numStates ==>
               e in a.edges || (e.on.Epsilon? && e.from in a.accepts && e.to >= a.numStates && e.to - a.numStates in b.starts)
    requires IsPath(n, p, path, q)
    ensures Word(path) == u + v && i in a.accepts && j in b.starts
    ensures Reads(a, p, u, i) && Reads(b, j, v, q - a.numStates)
    decreases |path|
  {
    hide Reads;
    var e := path[0];
    if e in a.edges {
      u, i, j, v := Crossing(a, b, n, e.to, path[1..], q);
      ReadsStep(a, e, u, i);
      var s: seq<nat> := if e.on.Value? then [e.on.symbol] else [];
      assert Word(path) == s + (u + v) == (s + u) + v;
      u := s + u;
    } else {
      i, j, u, v := p, e.to - a.numStates, [], Word(path[1..]);
      ReadsNothing(a, p);
      UnshiftedPath(b, n, a.numStates, e.to, path[1..], q);
      assert Word(path) == [] + v;
    }
  }

  lemma ThenSplits(a: Machine, b: Machine, w: seq<nat>) returns (u: seq<nat>, v: seq<nat>)
    requires WellFormed(a) && WellFormed(b) && Accepts(Then(a, b), w)
    ensures w == u + v && Accepts(a, u) && Accepts(b, v)
  {
    hide IsPath, Word;
    var n, k := Then(a, b), a.numStates;
    var p, q :| p in n.starts && q in n.accepts && Reads(n, p, w, q);
    var path :| IsPath(n, p, path, q) && Word(path) == w;
    assert Unshifts(n, b, k);
    var i, j;
    u, i, j, v := Crossing(a, b, n, p, path, q);
    assert q - k in b.accepts;
  }

  lemma ThenCombines(a: Machine, b: Machine, u: seq<nat>, v: seq<nat>)
    requires Accepts(a, u) && Accepts(b, v)
    ensures Accepts(Then(a, b), u + v)
  {
    hide IsPath, Word;
    var n, k := Then(a, b), a.numStates;
    var p, i :| p in a.starts && i in a.accepts && Reads(a, p, u, i);
    var j, q :| j in b.starts && q in b.accepts && Reads(b, j, v, q);
    ReadsMonotone(a, n, p, u, i);
    var path :| IsPath(b, j, path, q) && Word(path) == v;
    ShiftedPath(b, n, k, j, path, q);
    assert j + k in ShiftSet(b.starts, k) && q + k in n.accepts;
    assert Edge(i, Epsilon, j + k) in n.edges;
    ReadsStep(n, Edge(i, Epsilon, j + k), v, q + k);
    assert [] + v == v;
    ReadsConcat(n, p, u, i, v, q + k);
  }

  lemma ThenIsConcatenation(a: Machine, b: Machine, w: seq<nat>)
    requires WellFormed(a) && WellFormed(b)
    ensures WellFormed(Then(a, b))
    ensures Accepts(Then(a, b), w) <==> exists u, v :: w == u + v && Accepts(a, u) && Accepts(b, v)
  {
    hide Accepts;
    if Accepts(Then(a, b), w) {
      var u, v := ThenSplits(a, b, w);
    }
    forall u, v | w == u + v && Accepts(a, u) && Accepts(b, v) ensures Accepts(Then(a, b), w) {
      ThenCombines(a, b, u, v);
    }
  }

  // ---- then_loop: one or more repetitions ----

  ghost function Loop(a: Machine): Machine {
    a.(edges := a.edges + Bridges(a.accepts, a.starts))
  }

  function Flat(ws: seq<seq<nat>>): seq<nat> {
    if ws == [] then [] else ws[0] + Flat(ws[1..])
  }

  ghost predicate AllAccepted(a: Machine, ws: seq<seq<nat>>) {
    forall i :: 0 <= i < |ws| ==> Accepts(a, ws[i])
  }

  lemma FlatFirst(u: seq<nat>, ws: seq<seq<nat>>)
    ensures Flat([u] + ws) == u + Flat(ws)
  {
    assert ([u] + ws)[1..] == ws;
  }

  // Every path to an accepting state is a path of a followed by whole words of a.
  lemma {:induction false} LoopPieces(a: Machine, p: nat, path: seq<Edge>, q: nat)
    returns (u: seq<nat>, i: nat, ws: seq<seq<nat>>)
    requires q in a.accepts && IsPath(Loop(a), p, path, q)
    ensures Word(path) == u + Flat(ws) && i in a.accepts && Reads(a, p, u, i) && AllAccepted(a, ws)
    decreases |path|
  {
    hide Reads, Flat;
    if path == [] {
      u, i, ws := [], q, [];
      ReadsNothing(a, p);
      FlatNothing();
    } else {
      var e := path[0];
      u, i, ws := LoopPieces(a, e.to, path[1..], q);
      if e in a.edges {
        ReadsStep(a, e, u, i);
        var s: seq<nat> := if e.on.Value? then [e.on.symbol] else [];
        assert Word(path) == s + (u + Flat(ws)) == (s + u) + Flat(ws);
        u := s + u;
      } else {
        assert Accepts(a, u);
        FlatFirst(u, ws);
        assert Word(path) == [] + Flat([u] + ws);
        u, i, ws := [], p, [u] + ws;
        ReadsNothing(a, p);
      }
    }
  }

  lemma FlatNothing()
    ensures Flat([]) == []
  {
  }

  lemma {:induction false} LoopPath(a: Machine, ws: seq<seq<nat>>)
    requires ws != [] && AllAccepted(a, ws)
    ensures Accepts(Loop(a), Flat(ws))
  {
    var n := Loop(a);
    var p, i :| p in a.starts && i in a.accepts && Reads(a, p, ws[0], i);
    ReadsMonotone(a, n, p, ws[0], i);
    if ws[1..] == [] {
      assert Flat(ws) == ws[0] + Flat([]) == ws[0];
    } else {
      LoopPath(a, ws[1..]);
      var j, q :| j in n.starts && q in n.accepts && Reads(n, j, Flat(ws[1..]), q);
      ReadsStep(n, Edge(i, Epsilon, j), Flat(ws[1..]), q);
      assert [] + Flat(ws[1..]) == Flat(ws[1..]);
      ReadsConcat(n, p, ws[0], i, Flat(ws[1..]), q);
    }
  }

  lemma LoopIsPlus(a: Machine, w: seq<nat>)
    requires WellFormed(a)
    ensures WellFormed(Loop(a))
    ensures Accepts(Loop(a), w) <==> exists ws :: ws != [] && AllAccepted(a, ws) && w == Flat(ws)
  {
    if Accepts(Loop(a), w) {
      var p, q :| p in a.starts && q in a.accepts && Reads(Loop(a), p, w, q);
      var path :| IsPath(Loop(a), p, path, q) && Word(path) == w;
      var u, i, ws := LoopPieces(a, p, path, q);
      assert Accepts(a, u);
      assert ([u] + ws)[1..] == ws;
      assert [u] + ws != [] && AllAccepted(a, [u] + ws) && w == Flat([u] + ws);
    }
    if exists ws :: ws != [] && AllAccepted(a, ws) && w == Flat(ws) {
      var ws :| ws != [] && AllAccepted(a, ws) && w == Flat(ws);
      LoopPath(a, ws);
    }
  }

  // ---- reverse ----

  ghost function Reverse(a: Machine): Machine {
    Machine(a.numStates, a.accepts, a.starts, set e | e in a.edges :: FlipEdge(e))
  }

  function Backwards(w: seq<nat>): seq<nat> {
    if w == [] then [] else Backwards(w[1..]) + [w[0]]
  }

  lemma {:induction false} BackwardsConcat(u: seq<nat>, v: seq<nat>)
    ensures Backwards(u + v) == Backwards(v) + Backwards(u)
  {
    if u == [] {
      assert u + v == v;
    } else {
      assert (u + v)[1..] == u[1..] + v;
      BackwardsConcat(u[1..], v);
    }
  }

  lemma BackwardsTwice(w: seq<nat>)
    ensures Backwards(Backwards(w)) == w
  {
    if w != [] {
      BackwardsTwice(w[1..]);
      BackwardsConcat(Backwards(w[1..]), [w[0]]);
      assert [w[0]][1..] == [] && Backwards([w[0]]) == [w[0]];
    }
  }

  lemma {:induction false} ReversedPath(a: Machine, p: nat, path: seq<Edge>, q: nat)
    requires IsPath(a, p, path, q)
    ensures Reads(Reverse(a), q, Backwards(Word(path)), p)
    decreases |path|
  {
    var n := Reverse(a);
    if path == [] {
      ReadsNothing(n, q);
    } else {
      var e := path[0];
      ReversedPath(a, e.to, path[1..], q);
      assert FlipEdge(e) in n.edges;
      ReadsEdge(n, FlipEdge(e));
      var s: seq<nat> := if e.on.Value? then [e.on.symbol] else [];
      ReadsConcat(n, q, Backwards(Word(path[1..])), e.to, s, p);
      BackwardsConcat(s, Word(path[1..]));
      assert e.on.Value? ==> s[1..] == [];
      assert Backwards(s) == s;
    }
  }

  lemma ReverseTwice(a: Machine)
    ensures Reverse(Reverse(a)) == a
  {
    var n := Reverse(a);
    forall e | e in a.edges ensures e in Reverse(n).edges {
      assert FlipEdge(e) in n.edges && FlipEdge(FlipEdge(e)) == e;
    }
    assert Reverse(n).edges == a.edges;
  }

  lemma ReverseForward(a: Machine, w: seq<nat>)
    requires Accepts(a, w)
    ensures Accepts(Reverse(a), Backwards(w))
  {
    var p, q :| p in a.starts && q in a.accepts && Reads(a, p, w, q);
    var path :| IsPath(a, p, path, q) && Word(path) == w;
    ReversedPath(a, p, path, q);
  }

  lemma ReverseIsReversal(a: Machine, w: seq<nat>)
    requires WellFormed(a)
    ensures WellFormed(Reverse(a))
    ensures Accepts(Reverse(a), w) <==> Accepts(a, Backwards(w))
  {
    BackwardsTwice(w);
    if Accepts(a, Backwards(w)) {
      ReverseForward(a, Backwards(w));
    }
    if Accepts(Reverse(a), w) {
      ReverseForward(Reverse(a), w);
      ReverseTwice(a);
    }
  }

  // ---- with_single_start ----

  ghost function SingleStart(a: Machine): Machine {
    if |a.starts| == 1 then a
    else Machine(a.numStates + 1, {a.numStates}, a.accepts, a.edges + Bridges({a.numStates}, a.starts))
  }

  lemma SingleStartKeepsLanguage(a: Machine, w: seq<nat>)
    requires WellFormed(a)
    ensures WellFormed(SingleStart(a)) && |SingleStart(a).starts| == 1
    ensures Accepts(SingleStart(a), w) <==> Accepts(a, w)
  {
    var n, s := SingleStart(a), a.numStates;
    if |a.starts| != 1 {
      if Accepts(a, w) {
        var p, q :| p in a.starts && q in a.accepts && Reads(a, p, w, q);
        ReadsMonotone(a, n, p, w, q);
        ReadsStep(n, Edge(s, Epsilon, p), w, q);
        assert [] + w == w;
      }
      if Accepts(n, w) {
        var p, q :| p in n.starts && q in n.accepts && Reads(n, p, w, q);
        var path: seq<Edge> :| IsPath(n, p, path, q) && Word(path) == w;
        assert path != [];
        StaysInFirst(a, n, path[0].to, path[1..], q);
        assert Word(path) == Word(path[1..]);
        assert Reads(a, path[0].to, w, q);
      }
    }
  }
}
