/**
 DisjointSets: union by rank with path compression, where every set also knows its
 least element.
 */
module DisjointSets {
  import opened Prelude

  datatype ElementData = ElementData(parent: nat, min: nat, rank: nat)

  // The rank grows along the parent link and stays within bound.
  ghost predicate Placed(e: seq<ElementData>, bound: nat, i: nat)
    requires i < |e|
  {
    && e[i].parent < |e|
    && e[i].rank <= bound
    && (e[i].parent != i ==> e[i].rank < e[e[i].parent].rank)
  }

  // Every chain of parents ends.
  ghost predicate Forest(e: seq<ElementData>, bound: nat) {
    forall i :: 0 <= i < |e| ==> Placed(e, bound, i)
  }

  // The representative of the set of x.
  ghost function Root(e: seq<ElementData>, bound: nat, x: nat): (r: nat)
    requires Forest(e, bound) && x < |e|
    ensures r < |e| && e[r].parent == r
    ensures r != x ==> e[x].rank < e[r].rank
    decreases if Placed(e, bound, x) then bound - e[x].rank else 0
  {
    assert Placed(e, bound, x);
    if e[x].parent == x then x else assert Placed(e, bound, e[x].parent); Root(e, bound, e[x].parent)
  }

  ghost function Roots(e: seq<ElementData>, bound: nat): (rs: seq<nat>)
    requires Forest(e, bound)
    ensures |rs| == |e|
  {
    seq(|e|, i requires 0 <= i < |e| => Root(e, bound, i))
  }

  // The root of x knows the least element of its set.
  ghost predicate MinKnown(e: seq<ElementData>, rs: seq<nat>, x: nat)
    requires |e| == |rs| && x < |e|
  {
    rs[x] < |e| && e[rs[x]].min <= x && rs[e[rs[x]].min] == rs[x]
  }

  ghost predicate MinsKnown(e: seq<ElementData>, rs: seq<nat>)
    requires |e| == |rs|
  {
    forall x :: 0 <= x < |e| ==> MinKnown(e, rs, x)
  }

  lemma RootParent(e: seq<ElementData>, bound: nat, x: nat)
    requires Forest(e, bound) && x < |e|
    ensures Placed(e, bound, x)
    ensures Root(e, bound, x) == Root(e, bound, e[x].parent)
    ensures e[x].parent == x ==> Root(e, bound, x) == x
  {
    assert Placed(e, bound, x);
  }

  // ---- Path compression changes no representative ----

  ghost predicate Compressed(d: seq<ElementData>, e: seq<ElementData>, rs: seq<nat>) {
    && |d| == |e| == |rs|
    && (forall i :: 0 <= i < |e| ==> e[i].rank == d[i].rank && e[i].min == d[i].min)
    && (forall i :: 0 <= i < |e| ==> e[i].parent == d[i].parent || e[i].parent == rs[i])
  }

  lemma CompressedForest(d: seq<ElementData>, e: seq<ElementData>, bound: nat)
    requires Forest(d, bound) && Compressed(d, e, Roots(d, bound))
    ensures Forest(e, bound)
  {
    hide Root;
    forall i | 0 <= i < |e| ensures Placed(e, bound, i) {
      assert Placed(d, bound, i);
      assert Roots(d, bound)[i] == Root(d, bound, i);
    }
  }

  lemma {:induction false} CompressedRoot(d: seq<ElementData>, e: seq<ElementData>, bound: nat, x: nat)
    requires Forest(d, bound) && Forest(e, bound) && Compressed(d, e, Roots(d, bound)) && x < |d|
    ensures Root(e, bound, x) == Root(d, bound, x)
    decreases if Placed(d, bound, x) then bound - d[x].rank else 0
  {
    hide Root;
    RootParent(d, bound, x);
    RootParent(e, bound, x);
    if d[x].parent != x {
      assert Placed(d, bound, d[x].parent);
      CompressedRoot(d, e, bound, d[x].parent);
      RootParent(e, bound, Root(d, bound, x));
    }
  }

  lemma CompressedRoots(d: seq<ElementData>, e: seq<ElementData>, bound: nat)
    requires Forest(d, bound) && Compressed(d, e, Roots(d, bound)) && MinsKnown(d, Roots(d, bound))
    ensures Forest(e, bound) && Roots(e, bound) == Roots(d, bound) && MinsKnown(e, Roots(e, bound))
  {
    hide Root;
    CompressedForest(d, e, bound);
    forall i | 0 <= i < |e| ensures Root(e, bound, i) == Root(d, bound, i) {
      CompressedRoot(d, e, bound, i);
    }
    var rs := Roots(d, bound);
    assert Roots(e, bound) == rs;
    forall x | 0 <= x < |e| ensures MinKnown(e, rs, x) {
      assert MinKnown(d, rs, x);
    }
  }

  // ---- Linking two roots ----

  // Root lo is hung below root hi, whose rank may grow.
  ghost predicate Linked(d: seq<ElementData>, e: seq<ElementData>, lo: nat, hi: nat) {
    && |d| == |e| && lo < |d| && hi < |d| && lo != hi
    && d[lo].parent == lo && d[hi].parent == hi
    && (forall i :: 0 <= i < |e| && i != lo ==> e[i].parent == d[i].parent)
    && e[lo].parent == hi
    && (forall i :: 0 <= i < |e| && i != hi ==> e[i].rank == d[i].rank)
    && d[hi].rank <= e[hi].rank && d[lo].rank < e[hi].rank
  }

  ghost function Replaced(rs: seq<nat>, lo: nat, hi: nat): (r: seq<nat>)
    ensures |r| == |rs|
  {
    seq(|rs|, i requires 0 <= i < |rs| => if rs[i] == lo then hi else rs[i])
  }

  lemma LinkedForest(d: seq<ElementData>, e: seq<ElementData>, b: nat, lo: nat, hi: nat)
    requires Forest(d, b) && Linked(d, e, lo, hi) && e[hi].rank <= b + 1
    ensures Forest(e, b + 1)
  {
    var c := b + 1;
    forall i | 0 <= i < |e| ensures Placed(e, c, i) {
      assert Placed(d, b, i);
    }
  }

  lemma {:induction false} LinkedRoot(d: seq<ElementData>, e: seq<ElementData>, b: nat, lo: nat, hi: nat, x: nat)
    requires Forest(d, b) && Forest(e, b + 1) && Linked(d, e, lo, hi) && x < |d|
    ensures Root(e, b + 1, x) == if Root(d, b, x) == lo then hi else Root(d, b, x)
    decreases if Placed(d, b, x) then b - d[x].rank else 0
  {
    hide Root;
    RootParent(e, b + 1, hi);
    RootParent(e, b + 1, x);
    RootParent(d, b, x);
    if d[x].parent != x {
      assert Placed(d, b, d[x].parent);
      LinkedRoot(d, e, b, lo, hi, d[x].parent);
    }
  }

  lemma LinkedRoots(d: seq<ElementData>, e: seq<ElementData>, b: nat, lo: nat, hi: nat)
    requires Forest(d, b) && Linked(d, e, lo, hi) && e[hi].rank <= b + 1
    ensures Forest(e, b + 1) && Roots(e, b + 1) == Replaced(Roots(d, b), lo, hi)
  {
    hide Root;
    LinkedForest(d, e, b, lo, hi);
    forall i | 0 <= i < |e| ensures Root(e, b + 1, i) == if Root(d, b, i) == lo then hi else Root(d, b, i) {
      LinkedRoot(d, e, b, lo, hi, i);
    }
  }

  lemma LinkedMins(d: seq<ElementData>, e: seq<ElementData>, rs: seq<nat>, lo: nat, hi: nat)
    requires |d| == |e| == |rs| && lo < |d| && hi < |d| && rs[lo] == lo && rs[hi] == hi && lo != hi
    requires MinsKnown(d, rs)
    requires forall i :: 0 <= i < |d| && i != lo && i != hi ==> e[i].min == d[i].min
    requires e[hi].min == Min(d[lo].min, d[hi].min)
    ensures MinsKnown(e, Replaced(rs, lo, hi))
  {
    assert MinKnown(d, rs, lo) && MinKnown(d, rs, hi);
    forall x | 0 <= x < |e| ensures MinKnown(e, Replaced(rs, lo, hi), x) {
      assert MinKnown(d, rs, x);
    }
  }

  class DisjointSets {
    var elements: seq<ElementData>
    ghost var bound: nat

    ghost predicate Valid()
      reads this
    {
      Forest(elements, bound) && MinsKnown(elements, Roots(elements, bound))
    }

    // The representative of every element; two elements are together when it is the same.
    ghost function Sets(): (rs: seq<nat>)
      requires Valid()
      reads this
      ensures |rs| == |elements|
    {
      Roots(elements, bound)
    }

    constructor (n: nat)
      ensures Valid() && |elements| == n
      ensures forall x :: 0 <= x < n ==> Sets()[x] == x
    {
      elements := seq(n, i requires 0 <= i < n => ElementData(i, i, 0));
      bound := 0;
    }

    // The representative of x; shortens the links on the way.
    method FindSet(x: nat) returns (r: nat)
      requires Valid() && x < |elements|
      modifies this`elements
      ensures Valid() && Sets() == old(Sets()) && r == Sets()[x]
      ensures Compressed(old(elements), elements, Sets())
      decreases if Placed(elements, bound, x) then bound - elements[x].rank else 0
    {
      hide Root, MinsKnown;
      ghost var d := elements;
      RootParent(d, bound, x);
      var parent := elements[x].parent;
      if parent != x {
        RootParent(d, bound, parent);
        var p := FindSet(parent);
        elements := elements[x := elements[x].(parent := p)];
      }
      CompressedRoots(d, elements, bound);
      r := elements[x].parent;
    }

    // The least element of the set of x.
    method FindSetMin(x: nat) returns (m: nat)
      requires Valid() && x < |elements|
      modifies this`elements
      ensures Valid() && Sets() == old(Sets())
      ensures m < |elements| && Sets()[m] == Sets()[x]
      ensures forall y :: 0 <= y < |elements| && Sets()[y] == Sets()[x] ==> m <= y
    {
      hide Root;
      var r := FindSet(x);
      m := elements[r].min;
      assert MinKnown(elements, Sets(), x);
      forall y | 0 <= y < |elements| && Sets()[y] == Sets()[x] ensures m <= y {
        assert MinKnown(elements, Sets(), y);
      }
    }

    // Puts the sets of x and y together under one of the two representatives.
    method UnionSets(x: nat, y: nat)
      requires Valid() && x < |elements| && y < |elements|
      modifies this
      ensures Valid() && |elements| == old(|elements|)
      ensures Sets() == Replaced(old(Sets()), old(Sets())[x], old(Sets())[y])
           || Sets() == Replaced(old(Sets()), old(Sets())[y], old(Sets())[x])
    {
      hide Root, MinsKnown, MinKnown, Placed;
      var a := FindSet(x);
      var b := FindSet(y);
      if a == b {
        assert Replaced(Sets(), a, b) == Sets();
        return;
      }
      Link(a, b);
    }

    // Makes one of the roots a and b the parent of the other: the one of higher rank,
    // or a, whose rank then grows.
    method Link(a: nat, b: nat)
      requires Valid() && a < |elements| && b < |elements| && a != b
      requires elements[a].parent == a && elements[b].parent == b
      modifies this
      ensures Valid() && |elements| == old(|elements|)
      ensures Sets() == Replaced(old(Sets()), a, b) || Sets() == Replaced(old(Sets()), b, a)
    {
      hide Root, MinsKnown, MinKnown;
      ghost var d := elements;
      ghost var rs := Sets();
      RootParent(d, bound, a);
      RootParent(d, bound, b);
      var hi, lo, rank := a, b, elements[a].rank;
      if elements[a].rank < elements[b].rank {
        hi, lo, rank := b, a, elements[b].rank;
      } else if elements[a].rank == elements[b].rank {
        rank := rank + 1;
      }
      var min := if elements[a].min < elements[b].min then elements[a].min else elements[b].min;
      elements := elements[lo := ElementData(hi, min, elements[lo].rank)][hi := ElementData(hi, min, rank)];
      LinkedRoots(d, elements, bound, lo, hi);
      LinkedMins(d, elements, rs, lo, hi);
      bound := bound + 1;
    }
  }
}
