/** The intrusive list of wakers, and waking all of them while their callbacks change the list. */
module WakerLists {
  import opened Prelude

  // What a 'prev' pointer points at: the head field of a list or the next field of a waker.
  datatype Slot = Null | Head(list: WakerList) | Next(waker: Waker)

  // ---- Sequences of wakers ----

  function Without(s: seq<Waker>, w: Waker): seq<Waker> {
    if s == [] then [] else (if s[0] == w then [] else [s[0]]) + Without(s[1..], w)
  }

  lemma {:induction false} WithoutMembers(s: seq<Waker>, w: Waker, x: Waker)
    ensures x in Without(s, w) <==> x in s && x != w
  {
    if s != [] {
      WithoutMembers(s[1..], w, x);
      assert s == [s[0]] + s[1..];
    }
  }

  lemma {:induction false} WithoutAbsent(s: seq<Waker>, w: Waker)
    requires w !in s
    ensures Without(s, w) == s
  {
    if s != [] {
      WithoutAbsent(s[1..], w);
    }
  }

  lemma {:induction false} WithoutConcat(a: seq<Waker>, b: seq<Waker>, w: Waker)
    ensures Without(a + b, w) == Without(a, w) + Without(b, w)
  {
    if a == [] {
      assert a + b == b;
    } else {
      assert (a + b)[1..] == a[1..] + b;
      WithoutConcat(a[1..], b, w);
    }
  }

  // Taking out the element at k.
  lemma {:induction false} WithoutAt(s: seq<Waker>, k: nat)
    requires k < |s| && Distinct(s)
    ensures Without(s, s[k]) == s[..k] + s[k + 1..]
  {
    if k == 0 {
      WithoutAbsent(s[1..], s[0]);
    } else {
      WithoutAt(s[1..], k - 1);
      assert [s[0]] + s[1..][..k - 1] == s[..k];
      assert s[1..][k..] == s[k + 1..];
    }
  }

  lemma Removed(s: seq<Waker>, k: nat)
    requires k < |s| && Distinct(s)
    ensures var r := Without(s, s[k]);
            && |r| == |s| - 1 && Distinct(r)
            && (forall i :: 0 <= i < |r| ==> r[i] == s[if i < k then i else i + 1] != s[k])
            && (forall x :: x in r <==> x in s && x != s[k])
  {
    WithoutAt(s, k);
    forall x
      ensures x in Without(s, s[k]) <==> x in s && x != s[k]
    {
      WithoutMembers(s, s[k], x);
    }
  }

  // Nobody else is at k or next to it.
  lemma AllDiffer(s: seq<Waker>, k: nat)
    requires Distinct(s) && k < |s|
    ensures forall j :: 0 <= j < |s| ==>
              && (j != k ==> s[j] != s[k])
              && (k > 0 && j != k - 1 ==> s[j] != s[k - 1])
              && (k + 1 < |s| && j != k + 1 ==> s[j] != s[k + 1])
  {
  }

  // The pointers of the waker at i.
  ghost function PrevFor(list: WakerList, s: seq<Waker>, i: nat): Slot
    requires i < |s|
  {
    if i == 0 then Head(list) else Next(s[i - 1])
  }

  ghost function NextFor(s: seq<Waker>, i: nat): Waker?
    requires i < |s|
  {
    if i + 1 < |s| then s[i + 1] else null
  }

  lemma Neighbours(list: WakerList, s: seq<Waker>, k: nat)
    requires k < |s|
    ensures PrevFor(list, s, k) == if k == 0 then Head(list) else Next(s[k - 1])
    ensures NextFor(s, k) == if k + 1 < |s| then s[k + 1] else null
  {
  }

  // Leaving out k changes the pointers of its neighbours only.
  lemma ClosedGap(list: WakerList, s: seq<Waker>, k: nat, i: nat)
    requires k < |s| && i < |s| - 1 && Distinct(s)
    ensures var j, rest := if i < k then i else i + 1, Without(s, s[k]);
            && |rest| == |s| - 1
            && PrevFor(list, rest, i) == (if i == k then PrevFor(list, s, k) else PrevFor(list, s, j))
            && NextFor(rest, i) == (if i + 1 == k then NextFor(s, k) else NextFor(s, j))
  {
    WithoutAt(s, k);
  }

  // ---- The linked list ----

  class Waker {
    var prev: Slot
    var next: Waker?

    constructor ()
      ensures prev == Null && next == null
    {
      prev := Null;
      next := null;
    }

    // The pointer writes of unlink: the neighbours of position k point past it, and nothing else changes.
    method Detach(ghost list: WakerList, ghost k: int)
      requires list.Valid() && this in list.wakers
      requires if this in list.items then 0 <= k < |list.items| && list.items[k] == this else k == -1
      modifies list`head, list.wakers
      ensures list.head == if k == 0 then old(next) else old(list.head)
      ensures forall w :: w in list.wakers && w !in list.items ==> w.prev == Null && w.next == null
      ensures prev == Null && next == null
      ensures forall j :: 0 <= j < |list.items| && j != k ==>
                && list.items[j].prev == (if k >= 0 && j == k + 1 then old(prev) else old(list.items[j].prev))
                && list.items[j].next == (if j + 1 == k then old(next) else old(list.items[j].next))
    {
      hide Distinct, PrevFor, NextFor;
      ghost var items := list.items;
      if k >= 0 {
        list.Around(k);
        Neighbours(list, items, k);
        AllDiffer(items, k);
      }
      match prev {
        case Null =>
        case Head(l) => l.head := next;
        case Next(w) => w.next := next;
      }
      if next != null {
        next.prev := prev;
      }
      prev := Null;
      next := null;
    }

    // Takes the waker out of the list it is in, if any.
    method Unlink(ghost list: WakerList)
      requires list.Valid() && this in list.wakers
      modifies list, list.wakers
      ensures list.Valid() && list.wakers == old(list.wakers)
      ensures list.items == Without(old(list.items), this)
    {
      hide Without, Distinct, PrevFor, NextFor;
      ghost var items := list.items;
      ghost var k := -1;
      if this in items {
        k :| 0 <= k < |items| && items[k] == this;
        list.Around(k);
        Neighbours(list, items, k);
        Removed(items, k);
      } else {
        WithoutAbsent(items, this);
      }
      Detach(list, k);
      ghost var rest := Without(items, this);
      list.items := rest;
      forall i | 0 <= i < |rest|
        ensures list.LinkedAt(rest, i)
      {
        var j := if 0 <= k <= i then i + 1 else i;
        assert old(list.LinkedAt(items, j));
        if k >= 0 {
          ClosedGap(list, items, k, i);
        }
        assert rest[i] == items[j];
      }
    }

    // The waker's future: ready once it is in no list.
    method Poll(ghost list: WakerList) returns (ready: bool)
      requires list.Valid() && this in list.wakers
      ensures ready == (this !in list.items)
    {
      if this in list.items {
        ghost var k :| 0 <= k < |list.items| && list.items[k] == this;
        list.Around(k);
      }
      ready := prev == Null;
    }
  }

  class WakerList {
    var head: Waker?
    ghost var items: seq<Waker>
    // Every waker that is in this list or in no list.
    ghost var wakers: set<Waker>

    ghost predicate LinkedAt(s: seq<Waker>, i: nat)
      requires i < |s|
      reads s[i]
    {
      s[i].prev == PrevFor(this, s, i) && s[i].next == NextFor(s, i)
    }

    // Well linked: the head and the pointers of the wakers follow the items.
    ghost predicate Valid()
      reads this, wakers
    {
      && Distinct(items)
      && (forall w :: w in items ==> w in wakers)
      && head == (if items == [] then null else items[0])
      && (forall i :: 0 <= i < |items| ==> LinkedAt(items, i))
      && (forall w :: w in wakers && w !in items ==> w.prev == Null && w.next == null)
    }

    constructor (ghost wakers: set<Waker>)
      requires forall w :: w in wakers ==> w.prev == Null && w.next == null
      ensures Valid() && items == [] && this.wakers == wakers
    {
      head := null;
      items := [];
      this.wakers := wakers;
    }

    lemma Around(k: nat)
      requires Valid() && k < |items|
      ensures LinkedAt(items, k)
      ensures k + 1 < |items| ==> LinkedAt(items, k + 1)
      ensures k > 0 ==> LinkedAt(items, k - 1)
    {
    }
  
    // Puts the waker at the head; a waker that is in a list already is refused.
    method Insert(w: Waker) returns (ok: bool)
      requires Valid() && w in wakers
      modifies this, wakers
      ensures Valid() && wakers == old(wakers) && ok == (w !in old(items))
      ensures items == if ok then [w] + old(items) else old(items)
    {
      if w in items {
        ghost var k :| 0 <= k < |items| && items[k] == w;
        Around(k);
      }
      if w.prev != Null {
        return false;
      }
      var oldHead := head;
      ghost var was := items;
      assert was != [] ==> LinkedAt(was, 0);
      w.prev := Head(this);
      w.next := oldHead;
      if oldHead != null {
        oldHead.prev := Next(w);
      }
      head := w;
      items := [w] + was;
      forall i | 0 <= i < |items|
        ensures LinkedAt(items, i)
      {
        assert i > 0 ==> old(LinkedAt(was, i - 1));
      }
      ok := true;
    }

    method IsEmpty() returns (empty: bool)
      requires Valid()
      ensures empty == (items == [])
    {
      empty := head == null;
    }
  
    ghost method Adopt(w: Waker)
      requires Valid() && w.prev == Null && w.next == null
      modifies this`wakers
      ensures Valid() && wakers == old(wakers) + {w}
    {
      wakers := wakers + {w};
      assert forall i :: 0 <= i < |items| ==> old(LinkedAt(items, i));
    }

    ghost method Forget(w: Waker)
      requires Valid() && w !in items
      modifies this`wakers
      ensures Valid() && wakers == old(wakers) - {w}
    {
      wakers := wakers - {w};
      assert forall i :: 0 <= i < |items| ==> old(LinkedAt(items, i));
    }

    // The marker points at the first waiting waker; taking out either one leaves the rest.
    lemma AtMarker(marker: Waker, s: Split)
      requires Valid() && items == s.inserted + [marker] + s.waiting
      ensures marker in wakers && Without(items, marker) == s.inserted + s.waiting
      ensures marker !in s.inserted && marker !in s.waiting
      ensures marker.next == if s.waiting == [] then null else s.waiting[0]
      ensures s.waiting != [] ==>
                && s.waiting[0] in wakers
                && Without(items, s.waiting[0]) == s.inserted + [marker] + s.waiting[1..]
    {
      var k := |s.inserted|;
      assert items[k] == marker && LinkedAt(items, k);
      WithoutAt(items, k);
      assert items[..k] == s.inserted && items[k + 1..] == s.waiting;
      if s.waiting != [] {
        WithoutAt(items, k + 1);
        assert items[k + 1] == s.waiting[0];
        assert items[..k + 1] == s.inserted + [marker] && items[k + 2..] == s.waiting[1..];
      }
    }

    // One callback: its calls on the list, in order, until one of them panics.
    method RunCallback(ops: seq<Op>, ghost marker: Waker, ghost s: Split) returns (ok: bool)
      requires Valid() && items == s.inserted + [marker] + s.waiting
      requires forall op :: op in ops ==> op.waker in wakers && op.waker != marker
      modifies this, wakers
      ensures Valid() && wakers == old(wakers)
      ensures var o := After(s, ops, |ops|);
              ok == o.Fine? && items == o.state.inserted + [marker] + o.state.waiting
    {
      hide Valid, Without;
      for i := 0 to |ops|
        invariant Valid() && wakers == old(wakers)
        invariant var o := After(s, ops, i);
                  o.Fine? && items == o.state.inserted + [marker] + o.state.waiting
      {
        ghost var t := After(s, ops, i).state;
        var op := ops[i];
        assert op in ops;
        match op {
          case Insert(w) =>
            var done := Insert(w);
            if !done {
              PanicStays(s, ops, i + 1, |ops|);
              return false;
            }
          case Unlink(w) =>
            SplitWithout(t, marker, w);
            w.Unlink(this);
        }
      }
      ok := true;
    }

    // Wakes the wakers that are in the list now. Call number i of a callback performs behaviour(i).
    method WakeAll(behaviour: nat -> seq<Op>) returns (woken: seq<Waker>, panicked: bool)
      requires Valid()
      requires forall i, op :: op in behaviour(i) ==> op.waker in wakers
      modifies this, wakers
      ensures Valid() && wakers == old(wakers)
      ensures RunFrom(Split([], old(items)), behaviour, 0) == Report(woken, items, panicked)
    {
      hide Valid, Without, After, RunFrom;
      ghost var all := wakers;
      var marker := new Waker();
      Adopt(marker);
      var _ := Insert(marker);
      assert items == [] + [marker] + old(items);
      ghost var s := Split([], old(items));
      AtMarker(marker, s);
      ghost var whole := RunFrom(s, behaviour, 0);
      woken := [];
      while marker.next != null
        invariant Valid() && wakers == all + {marker}
        invariant items == s.inserted + [marker] + s.waiting
        invariant marker.next == if s.waiting == [] then null else s.waiting[0]
        invariant whole == WithEarlier(woken, RunFrom(s, behaviour, |woken|))
        decreases |s.waiting|
      {
        AtMarker(marker, s);
        var w := marker.next;
        w.Unlink(this);
        var ops := behaviour(|woken|);
        ghost var rest := Split(s.inserted, s.waiting[1..]);
        var ok := RunCallback(ops, marker, rest);
        RunStep(s, behaviour, woken);
        woken := woken + [w];
        s := After(rest, ops, |ops|).state;
        AtMarker(marker, s);
        if !ok {
          marker.Unlink(this);
          Forget(marker);
          panicked := true;
          return;
        }
      }
      AtMarker(marker, s);
      RunStep(s, behaviour, woken);
      marker.Unlink(this);
      Forget(marker);
      panicked := false;
    }
  }

  // ---- What the callbacks do, on sequences ----

  datatype Op = Insert(waker: Waker) | Unlink(waker: Waker)

  // The list around the marker: what was inserted since the call, and what still waits to be woken.
  datatype Split = Split(inserted: seq<Waker>, waiting: seq<Waker>)

  datatype Outcome = Fine(state: Split) | Panicked(state: Split)

  function Perform(s: Split, op: Op): Outcome {
    match op
    case Insert(w) =>
      if w in s.inserted || w in s.waiting then Panicked(s) else Fine(Split([w] + s.inserted, s.waiting))
    case Unlink(w) => Fine(Split(Without(s.inserted, w), Without(s.waiting, w)))
  }

  // The first n operations.
  function After(s: Split, ops: seq<Op>, n: nat): (o: Outcome)
    requires n <= |ops|
    ensures |o.state.waiting| <= |s.waiting|
  {
    if n == 0 then Fine(s) else
      var o := After(s, ops, n - 1);
      if o.Panicked? then o else PerformShrinks(o.state, ops[n - 1]); Perform(o.state, ops[n - 1])
  }

  // The wakers woken, in order, the list left behind, and whether a callback panicked.
  datatype Report = Report(woken: seq<Waker>, final: seq<Waker>, panicked: bool)

  function RunFrom(s: Split, behaviour: nat -> seq<Op>, n: nat): Report
    decreases |s.waiting|
  {
    if s.waiting == [] then Report([], s.inserted, false) else
      match After(Split(s.inserted, s.waiting[1..]), behaviour(n), |behaviour(n)|)
      case Panicked(t) => Report([s.waiting[0]], t.inserted + t.waiting, true)
      case Fine(t) =>
        var r := RunFrom(t, behaviour, n + 1);
        Report([s.waiting[0]] + r.woken, r.final, r.panicked)
  }

  function WithEarlier(woken: seq<Waker>, r: Report): Report {
    r.(woken := woken + r.woken)
  }

  // One iteration of the waking loop.
  lemma RunStep(s: Split, behaviour: nat -> seq<Op>, woken: seq<Waker>)
    ensures s.waiting == [] ==>
              WithEarlier(woken, RunFrom(s, behaviour, |woken|)) == Report(woken, s.inserted, false)
    ensures s.waiting != [] ==>
              var ops := behaviour(|woken|);
              var o := After(Split(s.inserted, s.waiting[1..]), ops, |ops|);
              var now := woken + [s.waiting[0]];
              WithEarlier(woken, RunFrom(s, behaviour, |woken|)) ==
              if o.Fine? then WithEarlier(now, RunFrom(o.state, behaviour, |now|))
              else Report(now, o.state.inserted + o.state.waiting, true)
  {
    hide After;
    if s.waiting != [] {
      var ops := behaviour(|woken|);
      var o := After(Split(s.inserted, s.waiting[1..]), ops, |ops|);
      if o.Fine? {
        var r := RunFrom(o.state, behaviour, |woken| + 1);
        assert woken + ([s.waiting[0]] + r.woken) == (woken + [s.waiting[0]]) + r.woken;
      }
    } else {
      assert woken + [] == woken;
    }
  }

  lemma {:induction false} WithoutShrinks(s: seq<Waker>, w: Waker)
    ensures |Without(s, w)| <= |s|
  {
    if s != [] {
      WithoutShrinks(s[1..], w);
    }
  }

  lemma PerformShrinks(s: Split, op: Op)
    ensures |Perform(s, op).state.waiting| <= |s.waiting|
  {
    WithoutShrinks(s.waiting, op.waker);
  }

  lemma {:induction false} PanicStays(s: Split, ops: seq<Op>, n: nat, m: nat)
    requires n <= m <= |ops| && After(s, ops, n).Panicked?
    ensures After(s, ops, m) == After(s, ops, n)
  {
    if n < m {
      PanicStays(s, ops, n, m - 1);
    }
  }

  lemma SplitWithout(s: Split, marker: Waker, w: Waker)
    requires w != marker
    ensures Without(s.inserted + [marker] + s.waiting, w)
         == Without(s.inserted, w) + [marker] + Without(s.waiting, w)
  {
    WithoutConcat(s.inserted + [marker], s.waiting, w);
    WithoutConcat(s.inserted, [marker], w);
    WithoutAbsent([marker], w);
  }
}
