/** Who is woken by a call of wake_all, and which list it leaves behind. */
module WakeAll {
  import opened Prelude
  import opened WakerLists

  // x comes before y.
  ghost predicate Before(s: seq<Waker>, x: Waker, y: Waker) {
    s != [] && ((s[0] == x && y in s[1..]) || Before(s[1..], x, y))
  }

  lemma {:induction false} BeforeMembers(s: seq<Waker>, x: Waker, y: Waker)
    requires Before(s, x, y)
    ensures x in s && y in s[1..]
  {
    if !(s[0] == x && y in s[1..]) {
      BeforeMembers(s[1..], x, y);
    }
  }

  lemma {:induction false} BeforeWithout(s: seq<Waker>, w: Waker, x: Waker, y: Waker)
    ensures Before(Without(s, w), x, y) <==> Before(s, x, y) && x != w && y != w
  {
    if s != [] {
      BeforeWithout(s[1..], w, x, y);
      WithoutMembers(s[1..], w, y);
      var rest := Without(s[1..], w);
      if s[0] != w {
        assert Without(s, w)[1..] == rest;
      } else {
        assert Without(s, w) == rest;
        if Before(s[1..], x, y) {
          BeforeMembers(s[1..], x, y);
        }
      }
    }
  }

  lemma {:induction false} WithoutDistinct(s: seq<Waker>, w: Waker)
    requires Distinct(s)
    ensures Distinct(Without(s, w))
  {
    if s != [] {
      WithoutDistinct(s[1..], w);
      WithoutMembers(s[1..], w, s[0]);
    }
  }

  // ---- One callback ----

  // A waker stays in the waiting part when it is not unlinked, and in its place.
  lemma {:induction false} WaitingAfter(s: Split, ops: seq<Op>, n: nat, x: Waker, y: Waker)
    requires n <= |ops| && After(s, ops, n).Fine?
    ensures var t := After(s, ops, n).state;
            && (x in t.waiting <==> x in s.waiting && Op.Unlink(x) !in ops[..n])
            && (y in t.waiting <==> y in s.waiting && Op.Unlink(y) !in ops[..n])
            && (Before(t.waiting, x, y) <==> Before(s.waiting, x, y) && x in t.waiting && y in t.waiting)
  {
    if n == 0 {
      if Before(s.waiting, x, y) {
        BeforeMembers(s.waiting, x, y);
      }
    } else {
      WaitingAfter(s, ops, n - 1, x, y);
      assert ops[..n] == ops[..n - 1] + [ops[n - 1]];
      var u := After(s, ops, n - 1).state;
      match ops[n - 1] {
        case Insert(_) =>
        case Unlink(w) =>
          BeforeWithout(u.waiting, w, x, y);
          WithoutMembers(u.waiting, w, x);
          WithoutMembers(u.waiting, w, y);
      }
    }
  }

  lemma {:induction false} DistinctAfter(s: Split, ops: seq<Op>, n: nat)
    requires n <= |ops| && Distinct(s.waiting)
    ensures Distinct(After(s, ops, n).state.waiting)
  {
    if n > 0 {
      DistinctAfter(s, ops, n - 1);
      WithoutDistinct(After(s, ops, n - 1).state.waiting, ops[n - 1].waker);
    }
  }

  // ---- The whole call ----

  // Everyone woken was waiting at the call.
  lemma {:induction false} WokenWereWaiting(s: Split, behaviour: nat -> seq<Op>, n: nat, x: Waker)
    requires x in RunFrom(s, behaviour, n).woken
    ensures x in s.waiting
    decreases |s.waiting|
  {
    hide After, Without;
    if x != s.waiting[0] {
      var ops := behaviour(n);
      var o := After(Split(s.inserted, s.waiting[1..]), ops, |ops|);
      WaitingAfter(Split(s.inserted, s.waiting[1..]), ops, |ops|, x, x);
      WokenWereWaiting(o.state, behaviour, n + 1, x);
    }
  }

  // Nobody is woken twice, and the order of the list is kept.
  lemma {:induction false} WokenOnceInOrder(s: Split, behaviour: nat -> seq<Op>, n: nat)
    requires Distinct(s.waiting)
    ensures var woken := RunFrom(s, behaviour, n).woken;
            && Distinct(woken)
            && forall i, j :: 0 <= i < j < |woken| ==> Before(s.waiting, woken[i], woken[j])
    decreases |s.waiting|
  {
    hide After, Without;
    if s.waiting != [] {
      var ops, rest := behaviour(n), Split(s.inserted, s.waiting[1..]);
      var o := After(rest, ops, |ops|);
      if o.Fine? {
        DistinctAfter(rest, ops, |ops|);
        WokenOnceInOrder(o.state, behaviour, n + 1);
        var later := RunFrom(o.state, behaviour, n + 1).woken;
        forall i, j | 0 <= i <= j < |later|
          ensures later[j] in rest.waiting && (i < j ==> Before(rest.waiting, later[i], later[j]))
        {
          WokenWereWaiting(o.state, behaviour, n + 1, later[i]);
          WokenWereWaiting(o.state, behaviour, n + 1, later[j]);
          WaitingAfter(rest, ops, |ops|, later[i], later[j]);
        }
        forall j | 0 <= j < |later|
          ensures later[j] in rest.waiting
        {
          assert 0 <= j <= j;
        }
      }
    }
  }

  // Nobody who comes before w in the list, and is woken, unlinks w in the callback.
  ghost predicate KeptUntilTurn(waiting: seq<Waker>, woken: seq<Waker>, behaviour: nat -> seq<Op>, n: nat, w: Waker) {
    forall i :: 0 <= i < |woken| && Before(waiting, woken[i], w) ==> Op.Unlink(w) !in behaviour(n + i)
  }

  // A waker is woken exactly when it is not unlinked before its turn (and no callback panics before it).
  lemma {:induction false} WokenExactlyWhenKept(s: Split, behaviour: nat -> seq<Op>, n: nat, w: Waker)
    requires w in s.waiting && Distinct(s.waiting)
    ensures var r := RunFrom(s, behaviour, n);
            && (w in r.woken ==> KeptUntilTurn(s.waiting, r.woken, behaviour, n, w))
            && (!r.panicked && KeptUntilTurn(s.waiting, r.woken, behaviour, n, w) ==> w in r.woken)
    decreases |s.waiting|
  {
    hide After, Without;
    var r := RunFrom(s, behaviour, n);
    var ops, rest := behaviour(n), Split(s.inserted, s.waiting[1..]);
    var o := After(rest, ops, |ops|);
    if w == s.waiting[0] {
      forall i | 0 <= i < |r.woken|
        ensures !Before(s.waiting, r.woken[i], w)
      {
        if Before(s.waiting, r.woken[i], w) {
          BeforeMembers(s.waiting, r.woken[i], w);
        }
      }
    } else if o.Fine? {
      var later := RunFrom(o.state, behaviour, n + 1).woken;
      assert r.woken[0] == s.waiting[0] && r.woken[1..] == later;
      assert Before(s.waiting, s.waiting[0], w);
      WaitingAfter(rest, ops, |ops|, w, w);
      assert ops[..|ops|] == ops;
      if w in o.state.waiting {
        DistinctAfter(rest, ops, |ops|);
        WokenExactlyWhenKept(o.state, behaviour, n + 1, w);
        KeptLater(s, behaviour, n, o.state, w);
      } else if w in later {
        WokenWereWaiting(o.state, behaviour, n + 1, w);
      }
    }
  }

  // Being kept until its turn means the same after the first callback.
  lemma KeptLater(s: Split, behaviour: nat -> seq<Op>, n: nat, t: Split, w: Waker)
    requires Distinct(s.waiting) && s.waiting != [] && w in s.waiting[1..] && w in t.waiting
    requires After(Split(s.inserted, s.waiting[1..]), behaviour(n), |behaviour(n)|) == Fine(t)
    ensures KeptUntilTurn(s.waiting, [s.waiting[0]] + RunFrom(t, behaviour, n + 1).woken, behaviour, n, w) <==>
            KeptUntilTurn(t.waiting, RunFrom(t, behaviour, n + 1).woken, behaviour, n + 1, w)
  {
    hide After, Without, RunFrom, KeptUntilTurn, Before, Distinct;
    var ops, rest := behaviour(n), Split(s.inserted, s.waiting[1..]);
    var later := RunFrom(t, behaviour, n + 1).woken;
    assert ops[..|ops|] == ops;
    WaitingAfter(rest, ops, |ops|, w, w);
    forall i | 0 <= i < |later|
      ensures Before(s.waiting, later[i], w) <==> Before(t.waiting, later[i], w)
    {
      WokenWereWaiting(t, behaviour, n + 1, later[i]);
      WaitingAfter(rest, ops, |ops|, later[i], w);
      BeforeTail(s.waiting, later[i], w);
    }
    KeptShift(s.waiting, t.waiting, later, behaviour, n, w);
  }

  lemma BeforeTail(s: seq<Waker>, x: Waker, y: Waker)
    requires Distinct(s) && s != [] && x in s[1..]
    ensures Before(s, x, y) <==> Before(s[1..], x, y)
  {
  }

  lemma KeptShift(now: seq<Waker>, next: seq<Waker>, later: seq<Waker>, behaviour: nat -> seq<Op>, n: nat, w: Waker)
    requires now != [] && Op.Unlink(w) !in behaviour(n)
    requires forall i :: 0 <= i < |later| ==> (Before(now, later[i], w) <==> Before(next, later[i], w))
    ensures KeptUntilTurn(now, [now[0]] + later, behaviour, n, w) <==> KeptUntilTurn(next, later, behaviour, n + 1, w)
  {
    hide Before;
    var woken := [now[0]] + later;
    if KeptUntilTurn(now, woken, behaviour, n, w) {
      forall i | 0 <= i < |later| && Before(next, later[i], w)
        ensures Op.Unlink(w) !in behaviour(n + 1 + i)
      {
        assert woken[i + 1] == later[i];
        assert n + (i + 1) == n + 1 + i;
      }
    }
    if KeptUntilTurn(next, later, behaviour, n + 1, w) {
      forall i | 0 <= i < |woken| && Before(now, woken[i], w)
        ensures Op.Unlink(w) !in behaviour(n + i)
      {
        if i > 0 {
          assert woken[i] == later[i - 1];
          assert n + 1 + (i - 1) == n + i;
        }
      }
    }
  }

  // ---- Panics ----

  lemma {:induction false} PanickedOn(s: Split, ops: seq<Op>, n: nat) returns (k: nat)
    requires n <= |ops| && After(s, ops, n).Panicked?
    ensures var t := After(s, ops, n).state;
            k < n && ops[k].Insert? && (ops[k].waker in t.inserted || ops[k].waker in t.waiting)
  {
    if After(s, ops, n - 1).Panicked? {
      k := PanickedOn(s, ops, n - 1);
    } else {
      k := n - 1;
    }
  }

  // A panic has one cause: the last callback inserted a waker that was listed, and still is.
  lemma {:induction false} PanicNeedsListed(s: Split, behaviour: nat -> seq<Op>, n: nat) returns (op: Op)
    requires RunFrom(s, behaviour, n).panicked
    ensures var r := RunFrom(s, behaviour, n);
            r.woken != [] && op in behaviour(n + |r.woken| - 1) && op.Insert? && op.waker in r.final
    decreases |s.waiting|
  {
    hide After;
    var ops, rest := behaviour(n), Split(s.inserted, s.waiting[1..]);
    var o := After(rest, ops, |ops|);
    if o.Panicked? {
      var k := PanickedOn(rest, ops, |ops|);
      op := ops[k];
    } else {
      op := PanicNeedsListed(o.state, behaviour, n + 1);
    }
  }

  // ---- The list left behind ----

  // Insertions and removals on a list that has no marker and refuses nothing.
  function Replay(l: seq<Waker>, ops: seq<Op>, n: nat): seq<Waker>
    requires n <= |ops|
  {
    if n == 0 then l else
      match ops[n - 1]
      case Insert(w) => [w] + Replay(l, ops, n - 1)
      case Unlink(w) => Without(Replay(l, ops, n - 1), w)
  }

  // The callbacks number n to m - 1.
  function ReplayCalls(l: seq<Waker>, behaviour: nat -> seq<Op>, n: nat, m: nat): seq<Waker>
    requires n <= m
  {
    if n == m then l else
      var before := ReplayCalls(l, behaviour, n, m - 1);
      Replay(before, behaviour(m - 1), |behaviour(m - 1)|)
  }

  lemma {:induction false} InsertedIsReplay(s: Split, ops: seq<Op>, n: nat)
    requires n <= |ops| && After(s, ops, n).Fine?
    ensures After(s, ops, n).state.inserted == Replay(s.inserted, ops, n)
  {
    if n > 0 {
      InsertedIsReplay(s, ops, n - 1);
    }
  }

  lemma {:induction false} ReplayFront(l: seq<Waker>, behaviour: nat -> seq<Op>, n: nat, m: nat)
    requires n < m
    ensures ReplayCalls(l, behaviour, n, m)
         == ReplayCalls(Replay(l, behaviour(n), |behaviour(n)|), behaviour, n + 1, m)
  {
    hide Replay;
    if n + 1 < m {
      ReplayFront(l, behaviour, n, m - 1);
    }
  }

  // When nothing panics, what is left is exactly what the callbacks made of an empty list.
  lemma {:induction false} LeftBehind(s: Split, behaviour: nat -> seq<Op>, n: nat)
    requires !RunFrom(s, behaviour, n).panicked
    ensures var r := RunFrom(s, behaviour, n);
            r.final == ReplayCalls(s.inserted, behaviour, n, n + |r.woken|)
    decreases |s.waiting|
  {
    hide After, Replay;
    if s.waiting != [] {
      var ops, rest := behaviour(n), Split(s.inserted, s.waiting[1..]);
      var t := After(rest, ops, |ops|).state;
      InsertedIsReplay(rest, ops, |ops|);
      LeftBehind(t, behaviour, n + 1);
      ReplayFront(s.inserted, behaviour, n, n + |RunFrom(s, behaviour, n).woken|);
    }
  }

  // ---- On the linked list ----

  // Waking all: everyone at most once, in the order of the list, and nobody who was not listed at the call.
  // When nothing panics, everyone who is not unlinked before their turn is woken, and the list holds what
  // the callbacks made of it.
  method WakeEveryone(list: WakerList, behaviour: nat -> seq<Op>) returns (woken: seq<Waker>, panicked: bool)
    requires list.Valid()
    requires forall i, op :: op in behaviour(i) ==> op.waker in list.wakers
    modifies list, list.wakers
    ensures list.Valid() && list.wakers == old(list.wakers)
    ensures Distinct(woken) && forall w :: w in woken ==> w in old(list.items)
    ensures forall i, j :: 0 <= i < j < |woken| ==> Before(old(list.items), woken[i], woken[j])
    ensures forall w :: w in woken ==> KeptUntilTurn(old(list.items), woken, behaviour, 0, w)
    ensures !panicked ==>
              && (forall w :: w in old(list.items) && KeptUntilTurn(old(list.items), woken, behaviour, 0, w) ==> w in woken)
              && list.items == ReplayCalls([], behaviour, 0, |woken|)
    ensures panicked ==>
              && woken != []
              && exists op :: op in behaviour(|woken| - 1) && op.Insert? && op.waker in list.items
  {
    hide RunFrom, KeptUntilTurn, Before, ReplayCalls;
    ghost var s := Split([], list.items);
    woken, panicked := list.WakeAll(behaviour);
    WokenOnceInOrder(s, behaviour, 0);
    forall w | w in woken
      ensures w in s.waiting
    {
      WokenWereWaiting(s, behaviour, 0, w);
    }
    forall w | w in s.waiting
      ensures w in woken ==> KeptUntilTurn(s.waiting, woken, behaviour, 0, w)
      ensures !panicked && KeptUntilTurn(s.waiting, woken, behaviour, 0, w) ==> w in woken
    {
      WokenExactlyWhenKept(s, behaviour, 0, w);
    }
    if panicked {
      ghost var op := PanicNeedsListed(s, behaviour, 0);
    } else {
      LeftBehind(s, behaviour, 0);
    }
  }
}
