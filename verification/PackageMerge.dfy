/**
 The lists of the package-merge algorithm, as functions, and the two facts that
 make it work: a prefix of a merged list is the cheapest choice of that size, and
 a denomination never uses more coins than the next larger one.
 */
module PackageMerge {
  import opened Prelude

  // A coin of level i stands for one unit of code length of its symbol.
  datatype Coin = Coin(denomination: nat, symbol: nat)

  datatype Package = Package(value: nat, inner: seq<Coin>)

  datatype SymbolCount = SymbolCount(symbol: nat, count: nat)

  // ---- The lists ----

  // What the source computes for 2^i, by shifting a signed 32-bit one and widening the result: the sign
  // bit spreads at 31, and from 32 on the shift panics.
  function Shifted(i: nat): nat {
    if i == 31 then SPREAD else Pow2(i)
  }

  const SPREAD: nat := 0xFFFF_FFFF_8000_0000

  // All coins of level i, in the order of the histogram.
  function Coins(freqs: seq<SymbolCount>, i: nat): (r: seq<Package>)
    ensures |r| == |freqs|
  {
    seq(|freqs|, j requires 0 <= j < |freqs| =>
      Package(freqs[j].count, [Coin(Shifted(i), freqs[j].symbol)]))
  }

  function Combine(p: Package, q: Package): Package {
    Package(p.value + q.value, p.inner + q.inner)
  }

  // Joins neighbours; an odd last item is dropped.
  function Pair(list: seq<Package>): (r: seq<Package>)
    ensures |r| == |list| / 2
  {
    if |list| < 2 then [] else [Combine(list[0], list[1])] + Pair(list[2..])
  }

  // Order-keeping merge; on equal values the left item comes first.
  function Merge(a: seq<Package>, b: seq<Package>): (r: seq<Package>)
    ensures |r| == |a| + |b|
  {
    if a == [] then b
    else if b == [] then a
    else if a[0].value <= b[0].value then [a[0]] + Merge(a[1..], b)
    else [b[0]] + Merge(a, b[1..])
  }

  // The merged list of round k, whose items all have denomination 2^k.
  function Merged(freqs: seq<SymbolCount>, k: nat): (r: seq<Package>)
    decreases k, 1
  {
    Merge(Packages(freqs, k), Coins(freqs, k))
  }

  // The packages that enter round k: none, or the pairs of the round before.
  function Packages(freqs: seq<SymbolCount>, k: nat): (r: seq<Package>)
    decreases k, 0
  {
    if k == 0 then [] else Pair(Merged(freqs, k - 1))
  }

  ghost predicate Ascending(list: seq<Package>) {
    forall i, j :: 0 <= i <= j < |list| ==> list[i].value <= list[j].value
  }

  ghost predicate SortedCounts(freqs: seq<SymbolCount>) {
    && (forall i, j :: 0 <= i <= j < |freqs| ==> freqs[i].count <= freqs[j].count)
    && (forall i :: 0 <= i < |freqs| ==> freqs[i].count >= 1)
    && (forall i, j :: 0 <= i < j < |freqs| ==> freqs[i].symbol != freqs[j].symbol)
  }

  // ---- Sums over a prefix of a list ----

  // Sum of f over the first m items.
  ghost function Prefix(f: Package -> nat, list: seq<Package>, m: nat): nat
    requires m <= |list|
  {
    if m == 0 then 0 else f(list[0]) + Prefix(f, list[1..], m - 1)
  }

  lemma PrefixZero(f: Package -> nat, list: seq<Package>)
    ensures Prefix(f, list, 0) == 0
  {
  }

  lemma PrefixFirst(f: Package -> nat, list: seq<Package>, m: nat)
    requires 0 < m <= |list|
    ensures Prefix(f, list, m) == f(list[0]) + Prefix(f, list[1..], m - 1)
  {
  }

  lemma {:induction false} PrefixLast(f: Package -> nat, list: seq<Package>, m: nat)
    requires 0 < m <= |list|
    ensures Prefix(f, list, m) == Prefix(f, list, m - 1) + f(list[m - 1])
  {
    if m > 1 {
      PrefixLast(f, list[1..], m - 1);
    }
  }

  lemma {:induction false} PairPrefix(f: Package -> nat, list: seq<Package>, q: nat)
    requires forall x, y :: f(Combine(x, y)) == f(x) + f(y)
    requires 2 * q <= |list|
    ensures Prefix(f, Pair(list), q) == Prefix(f, list, 2 * q)
  {
    if q > 0 {
      PairPrefix(f, list[2..], q - 1);
      assert list[1..][1..] == list[2..];
      assert Pair(list)[1..] == Pair(list[2..]);
      assert Prefix(f, list, 2 * q) == f(list[0]) + (f(list[1..][0]) + Prefix(f, list[1..][1..], 2 * q - 2));
    }
  }

  lemma {:induction false} PairAt(list: seq<Package>, i: nat)
    requires 2 * i + 1 < |list|
    ensures Pair(list)[i] == Combine(list[2 * i], list[2 * i + 1])
  {
    if i > 0 {
      PairAt(list[2..], i - 1);
    }
  }

  lemma PairAscending(list: seq<Package>)
    requires Ascending(list)
    ensures Ascending(Pair(list))
  {
    forall i, j | 0 <= i <= j < |Pair(list)|
      ensures Pair(list)[i].value <= Pair(list)[j].value
    {
      PairAt(list, i);
      PairAt(list, j);
      assert list[2 * i].value <= list[2 * j].value;
      assert list[2 * i + 1].value <= list[2 * j + 1].value;
    }
  }

  // One step of a merge.
  lemma MergeStep(a: seq<Package>, b: seq<Package>)
    ensures a == [] ==> Merge(a, b) == b
    ensures b == [] ==> Merge(a, b) == a
    ensures a != [] && b != [] && a[0].value <= b[0].value ==>
              Merge(a, b)[0] == a[0] && Merge(a, b)[1..] == Merge(a[1..], b)
    ensures a != [] && b != [] && a[0].value > b[0].value ==>
              Merge(a, b)[0] == b[0] && Merge(a, b)[1..] == Merge(a, b[1..])
  {
  }

  lemma {:induction false} MergeMember(a: seq<Package>, b: seq<Package>, i: nat)
    requires i < |a| + |b|
    ensures Merge(a, b)[i] in a || Merge(a, b)[i] in b
  {
    if a == [] || b == [] || i == 0 {
    } else if a[0].value <= b[0].value {
      MergeMember(a[1..], b, i - 1);
    } else {
      MergeMember(a, b[1..], i - 1);
    }
  }

  lemma ConsAscending(x: Package, list: seq<Package>)
    requires Ascending(list)
    requires forall i :: 0 <= i < |list| ==> x.value <= list[i].value
    ensures Ascending([x] + list)
  {
    var l := [x] + list;
    forall i, j | 0 <= i <= j < |l| ensures l[i].value <= l[j].value {
      if j > 0 {
        assert l[j] == list[j - 1];
        if i > 0 { assert l[i] == list[i - 1]; }
      }
    }
  }

  lemma {:induction false} MergeAscending(a: seq<Package>, b: seq<Package>)
    requires Ascending(a) && Ascending(b)
    ensures Ascending(Merge(a, b))
  {
    if a == [] || b == [] {
    } else if a[0].value <= b[0].value {
      MergeAscending(a[1..], b);
      forall i | 0 <= i < |a| + |b| - 1 ensures a[0].value <= Merge(a[1..], b)[i].value {
        MergeMember(a[1..], b, i);
      }
      ConsAscending(a[0], Merge(a[1..], b));
    } else {
      MergeAscending(a, b[1..]);
      forall i | 0 <= i < |a| + |b| - 1 ensures b[0].value <= Merge(a, b[1..])[i].value {
        MergeMember(a, b[1..], i);
      }
      ConsAscending(b[0], Merge(a, b[1..]));
    }
  }

  lemma {:induction false} ListsAscending(freqs: seq<SymbolCount>, k: nat)
    requires SortedCounts(freqs)
    ensures Ascending(Packages(freqs, k)) && Ascending(Merged(freqs, k))
  {
    if k > 0 {
      ListsAscending(freqs, k - 1);
      PairAscending(Merged(freqs, k - 1));
    }
    MergeAscending(Packages(freqs, k), Coins(freqs, k));
  }

  // ---- A merged prefix is the cheapest choice of its size ----

  const Value: Package -> nat := (p: Package) => p.value

  // Taking the smaller first item instead of the last of the other list.
  lemma ReplaceLast(x: Package, list: seq<Package>, m: nat)
    requires Ascending(list) && 0 < m <= |list| && x.value <= list[0].value
    ensures x.value + Prefix(Value, list, m - 1) <= Prefix(Value, list, m)
  {
    hide Prefix;
    PrefixLast(Value, list, m);
    assert list[0].value <= list[m - 1].value;
  }

  lemma AscendingTail(list: seq<Package>)
    requires Ascending(list) && list != []
    ensures Ascending(list[1..])
  {
  }

  lemma {:induction false} MergePrefixCheapest(a: seq<Package>, b: seq<Package>, q: nat, s: nat)
    requires Ascending(a) && Ascending(b)
    requires q <= |a| && s <= |b|
    ensures Prefix(Value, Merge(a, b), q + s) <= Prefix(Value, a, q) + Prefix(Value, b, s)
  {
    hide Merge, Prefix, Ascending;
    MergeStep(a, b);
    PrefixZero(Value, a);
    PrefixZero(Value, b);
    PrefixZero(Value, Merge(a, b));
    if q + s > 0 && a != [] && b != [] {
      PrefixFirst(Value, Merge(a, b), q + s);
      if a[0].value <= b[0].value {
        AscendingTail(a);
        PrefixZero(Value, a[1..]);
        if q > 0 {
          PrefixFirst(Value, a, q);
          MergePrefixCheapest(a[1..], b, q - 1, s);
        } else {
          MergePrefixCheapest(a[1..], b, 0, s - 1);
          ReplaceLast(a[0], b, s);
        }
      } else {
        AscendingTail(b);
        PrefixZero(Value, b[1..]);
        if s > 0 {
          PrefixFirst(Value, b, s);
          MergePrefixCheapest(a, b[1..], q, s - 1);
        } else {
          MergePrefixCheapest(a, b[1..], q - 1, 0);
          ReplaceLast(b[0], a, q);
        }
      }
    }
  }

  // ---- How a prefix of a merged list splits ----

  // How many of the first m items of Merge(a, b) come from b.
  ghost function Taken(a: seq<Package>, b: seq<Package>, m: nat): (t: nat)
    requires m <= |a| + |b|
    ensures t <= m && t <= |b| && m - t <= |a|
  {
    if m == 0 then 0
    else if a == [] then m
    else if b == [] then 0
    else if a[0].value <= b[0].value then Taken(a[1..], b, m - 1)
    else 1 + Taken(a, b[1..], m - 1)
  }

  lemma TakenStep(a: seq<Package>, b: seq<Package>, m: nat)
    requires 0 < m <= |a| + |b|
    ensures a == [] ==> Taken(a, b, m) == m
    ensures a != [] && b == [] ==> Taken(a, b, m) == 0
    ensures a != [] && b != [] && a[0].value <= b[0].value ==> Taken(a, b, m) == Taken(a[1..], b, m - 1)
    ensures a != [] && b != [] && a[0].value > b[0].value ==> Taken(a, b, m) == 1 + Taken(a, b[1..], m - 1)
  {
  }

  // A merged prefix that takes something from b takes its first item.
  lemma {:induction false} TakenFirst(a: seq<Package>, b: seq<Package>, m: nat) returns (i: nat)
    requires m <= |a| + |b| && Taken(a, b, m) > 0
    ensures i < m && b != [] && Merge(a, b)[i] == b[0]
  {
    hide Merge, Taken;
    if m > 0 {
      MergeStep(a, b);
      TakenStep(a, b, m);
    }
    if a != [] && a[0].value <= b[0].value {
      var j := TakenFirst(a[1..], b, m - 1);
      i := j + 1;
      assert Merge(a, b)[i] == Merge(a, b)[1..][j];
    } else {
      i := 0;
    }
  }

  lemma {:induction false} TakenPrefix(f: Package -> nat, a: seq<Package>, b: seq<Package>, m: nat)
    requires m <= |a| + |b|
    ensures var t := Taken(a, b, m);
            Prefix(f, Merge(a, b), m) == Prefix(f, a, m - t) + Prefix(f, b, t)
  {
    hide Merge, Prefix, Taken;
    PrefixZero(f, a);
    PrefixZero(f, b);
    PrefixZero(f, Merge(a, b));
    if m > 0 {
      MergeStep(a, b);
      TakenStep(a, b, m);
      if a != [] && b != [] {
        PrefixFirst(f, Merge(a, b), m);
        if a[0].value <= b[0].value {
          TakenPrefix(f, a[1..], b, m - 1);
          PrefixFirst(f, a, m - Taken(a, b, m));
        } else {
          TakenPrefix(f, a, b[1..], m - 1);
          PrefixFirst(f, b, Taken(a, b, m));
        }
      }
    }
  }

  // A package that was taken is no larger than a coin that was not.
  lemma {:induction false} TakenBelowRest(a: seq<Package>, b: seq<Package>, m: nat)
    requires Ascending(a) && Ascending(b)
    requires m <= |a| + |b|
    ensures var t := Taken(a, b, m);
            t < m && t < |b| ==> a[m - t - 1].value <= b[t].value
  {
    if m == 0 || a == [] || b == [] {
    } else if a[0].value <= b[0].value {
      TakenBelowRest(a[1..], b, m - 1);
      var t := Taken(a[1..], b, m - 1);
      if t < |b| {
        assert b[0].value <= b[t].value;
      }
    } else {
      TakenBelowRest(a, b[1..], m - 1);
    }
  }

  // The last item of a prefix is at least as large as every coin in the prefix.
  lemma {:induction false} TakenReaches(a: seq<Package>, b: seq<Package>, m: nat, t: nat)
    requires Ascending(a) && Ascending(b)
    requires m <= |a| + |b| && t < Taken(a, b, m)
    ensures b[t].value <= Merge(a, b)[m - 1].value
  {
    hide Merge, Taken, Ascending;
    if m > 0 {
      MergeStep(a, b);
      TakenStep(a, b, m);
    }
    if a == [] {
      At(b, t, m - 1);
    } else if a[0].value <= b[0].value {
      AscendingTail(a);
      TakenReaches(a[1..], b, m - 1, t);
      assert m > 1 ==> Merge(a, b)[m - 1] == Merge(a, b)[1..][m - 2];
    } else if t == 0 {
      MergeAscending(a, b);
      At(Merge(a, b), 0, m - 1);
    } else {
      AscendingTail(b);
      TakenReaches(a, b[1..], m - 1, t - 1);
      assert Merge(a, b)[m - 1] == Merge(a, b)[1..][m - 2];
    }
  }

  lemma At(list: seq<Package>, i: nat, j: nat)
    requires Ascending(list) && i <= j < |list|
    ensures list[i].value <= list[j].value
  {
  }

  lemma {:induction false} ItemsPositive(freqs: seq<SymbolCount>, k: nat, i: nat)
    requires SortedCounts(freqs)
    requires i < |Merged(freqs, k)|
    ensures Merged(freqs, k)[i].value >= 1
  {
    hide Merge, Pair;
    var packs, coins := Packages(freqs, k), Coins(freqs, k);
    MergeMember(packs, coins, i);
    if Merge(packs, coins)[i] in packs {
      var j :| 0 <= j < |packs| && packs[j] == Merge(packs, coins)[i];
      PairAt(Merged(freqs, k - 1), j);
      ItemsPositive(freqs, k - 1, 2 * j);
    }
  }
}
