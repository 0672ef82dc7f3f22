/**
 Collecting a hash container in whatever order it iterates and sorting the result:
 the order is total, so the outcome does not depend on the iteration.
 */
module Sorting {
  import opened Prelude

  ghost predicate TotalOrder<T(!new)>(leq: (T, T) -> bool) {
    && (forall x, y :: leq(x, y) || leq(y, x))
    && (forall x, y, z :: leq(x, y) && leq(y, z) ==> leq(x, z))
  }

  ghost predicate SortedBy<T>(s: seq<T>, leq: (T, T) -> bool) {
    forall i, j :: 0 <= i < j < |s| ==> leq(s[i], s[j])
  }

  function Insert<T>(x: T, s: seq<T>, leq: (T, T) -> bool): (r: seq<T>)
    ensures |r| == |s| + 1
  {
    if s == [] || leq(x, s[0]) then [x] + s else [s[0]] + Insert(x, s[1..], leq)
  }

  lemma {:induction false} InsertSorted<T(!new)>(x: T, s: seq<T>, leq: (T, T) -> bool)
    requires TotalOrder(leq) && SortedBy(s, leq)
    ensures SortedBy(Insert(x, s, leq), leq)
    ensures multiset(Insert(x, s, leq)) == multiset(s) + multiset{x}
  {
    if s == [] || leq(x, s[0]) {
      ConsSorted(x, s, leq);
    } else {
      InsertSorted(x, s[1..], leq);
      var r := Insert(x, s[1..], leq);
      assert s == [s[0]] + s[1..];
      forall y | y in r
        ensures leq(s[0], y)
      {
        assert y in multiset(s[1..]) + multiset{x};
      }
      ConsSorted(s[0], r, leq);
    }
  }

  lemma ConsSorted<T(!new)>(x: T, s: seq<T>, leq: (T, T) -> bool)
    requires TotalOrder(leq) && SortedBy(s, leq)
    requires (forall y :: y in s ==> leq(x, y)) || (s != [] && leq(x, s[0]))
    ensures SortedBy([x] + s, leq)
  {
    forall i | 0 <= i < |s|
      ensures leq(x, s[i])
    {
      assert leq(s[i], s[i]);
    }
  }

  // The elements of a set, sorted.
  method Sorted<T(==, !new)>(items: set<T>, leq: (T, T) -> bool) returns (out: seq<T>)
    requires TotalOrder(leq)
    ensures SortedBy(out, leq)
    ensures multiset(out) == multiset(items)
  {
    out := [];
    var rest := items;
    while rest != {}
      invariant rest <= items
      invariant SortedBy(out, leq)
      invariant multiset(out) == multiset(items - rest)
    {
      var x :| x in rest;
      InsertSorted(x, out, leq);
      out := Insert(x, out, leq);
      rest := rest - {x};
      assert items - rest == (items - (rest + {x})) + {x};
    }
    assert items - rest == items;
  }

  lemma Repeated<T>(s: seq<T>, i: nat, j: nat)
    requires i < j < |s|
    ensures s[i] == s[j] ==> multiset(s)[s[i]] >= 2
  {
    assert s == s[..i] + ([s[i]] + (s[i + 1..j] + ([s[j]] + s[j + 1..])));
  }

  // Membership and absence of duplicates, read off the multiset.
  lemma SetContents<T>(s: seq<T>, items: set<T>)
    requires multiset(s) == multiset(items)
    ensures forall x :: x in s <==> x in items
    ensures Distinct(s)
    ensures |s| == |items|
  {
    forall x ensures x in s <==> x in items {
      assert x in s <==> x in multiset(s);
    }
    forall i, j | 0 <= i < j < |s| ensures s[i] != s[j] {
      Repeated(s, i, j);
    }
    assert |s| == |multiset(s)| == |multiset(items)|;
  }
}
