/**
 What the coins selected by package-merge say about code lengths: they meet the
 Kraft equality, they decrease with the count, and no other assignment of lengths
 is cheaper.  Symbols are identified here by their position in the histogram.
 */
module CodeLengths {
  import opened Prelude
  import opened PackageMerge

  // ---- Kraft sums and costs of the first n of a list of lengths ----

  ghost predicate AtMost(lens: seq<nat>, limit: nat) {
    forall j :: 0 <= j < |lens| ==> lens[j] <= limit
  }

  // The Kraft sum, scaled by 2^limit.
  ghost function KraftTo(lens: seq<nat>, limit: nat, n: nat): nat
    requires n <= |lens| && AtMost(lens, limit)
  {
    if n == 0 then 0 else KraftTo(lens, limit, n - 1) + Pow2(limit - lens[n - 1])
  }

  // Number of bits used when symbol j occurs w[j] times.
  ghost function CostTo(w: seq<nat>, lens: seq<nat>, n: nat): nat
    requires n <= |w| && n <= |lens|
  {
    if n == 0 then 0 else CostTo(w, lens, n - 1) + lens[n - 1] * w[n - 1]
  }

  ghost function SumTo(w: seq<nat>, n: nat): nat
    requires n <= |w|
  {
    if n == 0 then 0 else SumTo(w, n - 1) + w[n - 1]
  }

  ghost function Counts(freqs: seq<SymbolCount>): (w: seq<nat>)
    ensures |w| == |freqs|
  {
    seq(|freqs|, j requires 0 <= j < |freqs| => freqs[j].count)
  }

  lemma {:induction false} CoinValues(freqs: seq<SymbolCount>, k: nat, m: nat)
    requires m <= |freqs|
    ensures Prefix(Value, Coins(freqs, k), m) == SumTo(Counts(freqs), m)
  {
    if m > 0 {
      CoinValues(freqs, k, m - 1);
      PrefixLast(Value, Coins(freqs, k), m);
    }
  }

  // ---- The lower bound: no assignment of lengths beats a prefix ----

  // How many of the first n lengths are at least t, and their total weight.
  ghost function HowMany(lens: seq<nat>, t: nat, n: nat): (c: nat)
    requires n <= |lens|
    ensures c <= n
  {
    if n == 0 then 0 else HowMany(lens, t, n - 1) + if lens[n - 1] >= t then 1 else 0
  }

  ghost function HowHeavy(w: seq<nat>, lens: seq<nat>, t: nat, n: nat): nat
    requires n <= |w| && n <= |lens|
  {
    if n == 0 then 0 else HowHeavy(w, lens, t, n - 1) + if lens[n - 1] >= t then w[n - 1] else 0
  }

  // Denomination and value of the coins of rounds 0..k when a symbol of length l
  // owns its coins of the l largest denominations.
  ghost function Denominations(lens: seq<nat>, limit: nat, k: nat, n: nat): nat
    requires k < limit && n <= |lens|
  {
    HowMany(lens, limit - k, n) * Pow2(k) + if k == 0 then 0 else Denominations(lens, limit, k - 1, n)
  }

  ghost function Values(w: seq<nat>, lens: seq<nat>, limit: nat, k: nat, n: nat): nat
    requires k < limit && n <= |w| && n <= |lens|
  {
    HowHeavy(w, lens, limit - k, n) + if k == 0 then 0 else Values(w, lens, limit, k - 1, n)
  }

  ghost predicate SortedWeights(w: seq<nat>) {
    forall i, j :: 0 <= i <= j < |w| ==> w[i] <= w[j]
  }

  // The c smallest weights add up to no more than any c of them.
  lemma {:induction false} Lightest(w: seq<nat>, lens: seq<nat>, t: nat, n: nat)
    requires SortedWeights(w) && n <= |w| && n <= |lens|
    ensures SumTo(w, HowMany(lens, t, n)) <= HowHeavy(w, lens, t, n)
  {
    if n > 0 {
      Lightest(w, lens, t, n - 1);
    }
  }

  lemma {:induction false} SumToMonotone(w: seq<nat>, m: nat, n: nat)
    requires m <= n <= |w|
    ensures SumTo(w, m) <= SumTo(w, n)
  {
    if m < n {
      SumToMonotone(w, m, n - 1);
    }
  }

  // Coins of round k alone.
  lemma EnoughCoins(freqs: seq<SymbolCount>, lens: seq<nat>, t: nat, k: nat, m: nat)
    requires SortedCounts(freqs) && |freqs| == |lens|
    requires m <= HowMany(lens, t, |lens|)
    ensures m <= |Merged(freqs, k)|
    ensures Prefix(Value, Merged(freqs, k), m) <= HowHeavy(Counts(freqs), lens, t, |lens|)
  {
    hide Merge, Packages, HowMany, HowHeavy;
    ListsAscending(freqs, k);
    MergePrefixCheapest(Packages(freqs, k), Coins(freqs, k), 0, m);
    assert Prefix(Value, Packages(freqs, k), 0) == 0;
    CoinValues(freqs, k, m);
    Lightest(Counts(freqs), lens, t, |lens|);
    SumToMonotone(Counts(freqs), m, HowMany(lens, t, |lens|));
  }

  // Coins of round k and packages of round k - 1.
  lemma PackagesAndCoins(freqs: seq<SymbolCount>, lens: seq<nat>, t: nat, k: nat, q: nat, v: nat)
    requires SortedCounts(freqs) && |freqs| == |lens|
    requires k > 0 && 2 * q <= |Merged(freqs, k - 1)|
    requires Prefix(Value, Merged(freqs, k - 1), 2 * q) <= v
    ensures var s := HowMany(lens, t, |lens|);
            && q + s <= |Merged(freqs, k)|
            && Prefix(Value, Merged(freqs, k), q + s) <= HowHeavy(Counts(freqs), lens, t, |lens|) + v
  {
    hide Merge, Pair, Prefix;
    var s := HowMany(lens, t, |lens|);
    ListsAscending(freqs, k);
    MergePrefixCheapest(Packages(freqs, k), Coins(freqs, k), q, s);
    PairPrefix(Value, Merged(freqs, k - 1), q);
    CoinValues(freqs, k, s);
    Lightest(Counts(freqs), lens, t, |lens|);
  }

  // Any coins of rounds 0..k worth at least m times 2^k are at least as heavy as
  // the first m items of the merged list of round k.
  lemma {:induction false} NothingCheaper(freqs: seq<SymbolCount>, lens: seq<nat>, limit: nat, k: nat, m: nat)
    requires SortedCounts(freqs) && |freqs| == |lens|
    requires k < limit
    requires Denominations(lens, limit, k, |lens|) >= m * Pow2(k)
    ensures m <= |Merged(freqs, k)|
    ensures Prefix(Value, Merged(freqs, k), m) <= Values(Counts(freqs), lens, limit, k, |lens|)
  {
    hide Merge, Pair, Prefix, HowMany, HowHeavy;
    var s := HowMany(lens, limit - k, |lens|);
    if m <= s {
      EnoughCoins(freqs, lens, limit - k, k, m);
    } else {
      Distribute(m, s, Pow2(k));
      if k > 0 {
        DoublePow2(m - s, k);
        NothingCheaper(freqs, lens, limit, k - 1, 2 * (m - s));
        PackagesAndCoins(freqs, lens, limit - k, k, m - s,
          Values(Counts(freqs), lens, limit, k - 1, |lens|));
      }
    }
  }

  // How much of a length l is accounted for by rounds 0..k.
  ghost function Reached(l: nat, limit: nat, k: nat): nat
    requires k < limit && l <= limit
  {
    if l >= limit - k then l - (limit - 1 - k) else 0
  }

  lemma {:induction false} RoundValues(w: seq<nat>, lens: seq<nat>, limit: nat, k: nat, n: nat)
    requires k < limit && 0 < n <= |w| && n <= |lens| && AtMost(lens, limit)
    ensures Values(w, lens, limit, k, n)
         == Values(w, lens, limit, k, n - 1) + Reached(lens[n - 1], limit, k) * w[n - 1]
  {
    if k > 0 {
      RoundValues(w, lens, limit, k - 1, n);
      Distribute(Reached(lens[n - 1], limit, k - 1), 1, w[n - 1]);
    }
  }

  lemma {:induction false} RoundDenominations(lens: seq<nat>, limit: nat, k: nat, n: nat)
    requires k < limit && 0 < n <= |lens| && AtMost(lens, limit)
    ensures Denominations(lens, limit, k, n)
         == Denominations(lens, limit, k, n - 1) + Pow2(k + 1) - Pow2(k + 1 - Reached(lens[n - 1], limit, k))
  {
    Distribute(HowMany(lens, limit - k, n - 1), 1, Pow2(k));
    if k > 0 {
      RoundDenominations(lens, limit, k - 1, n);
    }
  }

  // All rounds together: the value is the cost, the denomination is the Kraft sum
  // taken away from one full unit per symbol.
  lemma {:induction false} AllRounds(w: seq<nat>, lens: seq<nat>, limit: nat, n: nat)
    requires 0 < limit && n <= |w| && n <= |lens| && AtMost(lens, limit)
    ensures Values(w, lens, limit, limit - 1, n) == CostTo(w, lens, n)
    ensures Denominations(lens, limit, limit - 1, n) == n * Pow2(limit) - KraftTo(lens, limit, n)
  {
    if n == 0 {
      NoRounds(w, lens, limit, limit - 1);
    } else {
      AllRounds(w, lens, limit, n - 1);
      RoundValues(w, lens, limit, limit - 1, n);
      RoundDenominations(lens, limit, limit - 1, n);
      Distribute(n - 1, 1, Pow2(limit));
    }
  }

  lemma {:induction false} NoRounds(w: seq<nat>, lens: seq<nat>, limit: nat, k: nat)
    requires k < limit
    ensures Values(w, lens, limit, k, 0) == 0 && Denominations(lens, limit, k, 0) == 0
  {
    if k > 0 {
      NoRounds(w, lens, limit, k - 1);
    }
  }

  // ---- The selection ----

  // The number of coins of each round among the first m items of round k.
  ghost function CoinsTaken(freqs: seq<SymbolCount>, k: nat, m: nat): (a: seq<nat>)
    requires m <= |Merged(freqs, k)|
    ensures |a| == k + 1
    ensures forall i :: 0 <= i <= k ==> a[i] <= |freqs|
  {
    var t := Taken(Packages(freqs, k), Coins(freqs, k), m);
    if k == 0 then [t] else CoinsTaken(freqs, k - 1, 2 * (m - t)) + [t]
  }

  // The number of rounds that take a coin of position j.
  ghost function Selected(a: seq<nat>, j: nat): (l: nat)
    ensures l <= |a|
  {
    if a == [] then 0 else Selected(a[..|a| - 1], j) + if j < a[|a| - 1] then 1 else 0
  }

  lemma SelectedLast(a: seq<nat>, t: nat, j: nat)
    ensures Selected(a + [t], j) == Selected(a, j) + if j < t then 1 else 0
  {
    assert (a + [t])[..|a|] == a;
  }

  ghost function Lengths(a: seq<nat>, n: nat): (lens: seq<nat>)
    ensures |lens| == n && AtMost(lens, |a|)
  {
    seq(n, j requires 0 <= j < n => Selected(a, j))
  }

  ghost predicate NonDecreasing(a: seq<nat>) {
    forall i, j :: 0 <= i <= j < |a| ==> a[i] <= a[j]
  }

  // A round never takes more coins than the next one: a package holding the extra
  // coin would be heavier than the coin, yet was preferred to it.
  lemma TakenAtMost(a: seq<Package>, b: seq<Package>, c: seq<Package>, m: nat)
    requires Ascending(a) && Ascending(b) && Ascending(c)
    requires |b| == |c| && forall i :: 0 <= i < |b| ==> b[i].value == c[i].value
    requires forall i :: 0 <= i < |a| + |b| ==> Merge(a, b)[i].value >= 1
    requires m <= |Pair(Merge(a, b))| + |c|
    ensures var t := Taken(Pair(Merge(a, b)), c, m);
            Taken(a, b, 2 * (m - t)) <= t
  {
    var packs := Pair(Merge(a, b));
    var t := Taken(packs, c, m);
    var n := m - t;
    if Taken(a, b, 2 * n) > t {
      MergeAscending(a, b);
      PairAscending(Merge(a, b));
      TakenBelowRest(packs, c, m);
      TakenReaches(a, b, 2 * n, t);
      PairAt(Merge(a, b), n - 1);
    }
  }

  lemma SnocNonDecreasing(a: seq<nat>, t: nat)
    requires NonDecreasing(a)
    requires a == [] || a[|a| - 1] <= t
    ensures NonDecreasing(a + [t])
  {
    var c := a + [t];
    forall i, j | 0 <= i <= j < |c| ensures c[i] <= c[j] {
      if i < j == |a| { assert a[i] <= a[|a| - 1]; }
    }
  }

  lemma {:induction false} CoinsTakenNonDecreasing(freqs: seq<SymbolCount>, k: nat, m: nat)
    requires SortedCounts(freqs)
    requires m <= |Merged(freqs, k)|
    ensures NonDecreasing(CoinsTaken(freqs, k, m))
  {
    hide Merge, Pair, Taken;
    if k > 0 {
      var t := Taken(Packages(freqs, k), Coins(freqs, k), m);
      CoinsTakenNonDecreasing(freqs, k - 1, 2 * (m - t));
      ListsAscending(freqs, k - 1);
      ListsAscending(freqs, k);
      var prev := Merged(freqs, k - 1);
      forall i | 0 <= i < |prev| ensures prev[i].value >= 1 {
        ItemsPositive(freqs, k - 1, i);
      }
      TakenAtMost(Packages(freqs, k - 1), Coins(freqs, k - 1), Coins(freqs, k), m);
      SnocNonDecreasing(CoinsTaken(freqs, k - 1, 2 * (m - t)), t);
    }
  }

  // ---- Kraft equality of the selection ----

  // Total denomination of the coins taken.
  ghost function Worth(a: seq<nat>): nat {
    if a == [] then 0 else Worth(a[..|a| - 1]) + a[|a| - 1] * Pow2(|a| - 1)
  }

  lemma WorthLast(a: seq<nat>, t: nat)
    ensures Worth(a + [t]) == Worth(a) + t * Pow2(|a|)
    ensures Worth([]) == 0
  {
    assert (a + [t])[..|a|] == a;
  }

  // Every item of round k is worth 2^k, so the first m are worth m times that.
  lemma {:induction false} SelectionWorth(freqs: seq<SymbolCount>, k: nat, m: nat)
    requires m <= |Merged(freqs, k)|
    ensures Worth(CoinsTaken(freqs, k, m)) == m * Pow2(k)
  {
    hide Merge, Pair, Taken, Worth;
    var t := Taken(Packages(freqs, k), Coins(freqs, k), m);
    if k == 0 {
      WorthLast([], t);
      assert [] + [t] == CoinsTaken(freqs, k, m);
    } else {
      SelectionWorth(freqs, k - 1, 2 * (m - t));
      WorthLast(CoinsTaken(freqs, k - 1, 2 * (m - t)), t);
      DoublePow2(m - t, k);
      Distribute(m - t, t, Pow2(k));
    }
  }

  lemma {:induction false} SelectedNone(a: seq<nat>, j: nat)
    requires forall i :: 0 <= i < |a| ==> a[i] <= j
    ensures Selected(a, j) == 0
  {
    if a != [] {
      SelectedNone(a[..|a| - 1], j);
    }
  }

  // Dropping the last round halves the share of each symbol it served.
  lemma {:induction false} KraftDropRound(a: seq<nat>, size: nat, n: nat)
    requires a != [] && NonDecreasing(a)
    requires n <= size && a[|a| - 1] <= size
    ensures var k := |a| - 1;
            KraftTo(Lengths(a, size), k + 1, n)
            == KraftTo(Lengths(a[..k], size), k, Min(a[k], n)) + (n - Min(a[k], n)) * Pow2(k + 1)
  {
    hide KraftTo, Lengths, Pow2, Selected;
    var k := |a| - 1;
    if n == 0 {
      KraftNothing(Lengths(a, size), k + 1);
      KraftNothing(Lengths(a[..k], size), k);
    } else {
      KraftDropRound(a, size, n - 1);
      KraftStep(a, size, n);
      if n > a[k] {
        SelectedNone(a, n - 1);
        Distribute(n - 1 - a[k], 1, Pow2(k + 1));
      } else {
        KraftStep(a[..k], size, n);
        SelectedLast(a[..k], a[k], n - 1);
        assert a[..k] + [a[k]] == a;
      }
    }
  }

  lemma KraftNothing(lens: seq<nat>, limit: nat)
    requires AtMost(lens, limit)
    ensures KraftTo(lens, limit, 0) == 0
  {
  }

  lemma KraftStep(a: seq<nat>, size: nat, n: nat)
    requires 0 < n <= size
    ensures Selected(a, n - 1) <= |a|
    ensures KraftTo(Lengths(a, size), |a|, n) ==
            KraftTo(Lengths(a, size), |a|, n - 1) + Pow2(|a| - Selected(a, n - 1))
  {
    hide Selected, Pow2;
  }

  // What the coins taken leave of one full unit per symbol is the Kraft sum.
  lemma {:induction false} KraftOfSelection(a: seq<nat>, size: nat, n: nat)
    requires NonDecreasing(a) && n <= size
    requires forall i :: 0 <= i < |a| ==> a[i] <= n
    ensures Worth(a) + KraftTo(Lengths(a, size), |a|, n) == n * Pow2(|a|)
  {
    if a == [] {
      KraftOfZeros(size, n);
    } else {
      var k := |a| - 1;
      var t := a[k];
      KraftOfSelection(a[..k], size, t);
      KraftDropRound(a, size, n);
      DoublePow2(t, k + 1);
      Distribute(t, t, Pow2(k));
      Distribute(n, t, Pow2(k + 1));
    }
  }

  lemma {:induction false} KraftOfZeros(size: nat, n: nat)
    requires n <= size
    ensures KraftTo(Lengths([], size), 0, n) == n
  {
    if n > 0 {
      KraftOfZeros(size, n - 1);
    }
  }

  // ---- Cost of the selection ----

  // Total value of the coins taken.
  ghost function Weight(w: seq<nat>, a: seq<nat>): nat
    requires forall i :: 0 <= i < |a| ==> a[i] <= |w|
  {
    if a == [] then 0 else Weight(w, a[..|a| - 1]) + SumTo(w, a[|a| - 1])
  }

  lemma WeightLast(w: seq<nat>, a: seq<nat>, t: nat)
    requires t <= |w| && forall i :: 0 <= i < |a| ==> a[i] <= |w|
    ensures Weight(w, a + [t]) == Weight(w, a) + SumTo(w, t)
    ensures Weight(w, []) == 0
  {
    assert (a + [t])[..|a|] == a;
  }

  lemma {:induction false} SelectionWeight(freqs: seq<SymbolCount>, k: nat, m: nat)
    requires m <= |Merged(freqs, k)|
    ensures Weight(Counts(freqs), CoinsTaken(freqs, k, m)) == Prefix(Value, Merged(freqs, k), m)
  {
    hide Merge, Pair, Taken, Prefix, Weight, SumTo, Counts;
    var w := Counts(freqs);
    var packs, coins := Packages(freqs, k), Coins(freqs, k);
    var t := Taken(packs, coins, m);
    TakenPrefix(Value, packs, coins, m);
    CoinValues(freqs, k, t);
    if k == 0 {
      PrefixZero(Value, packs);
      WeightLast(w, [], t);
      assert [] + [t] == CoinsTaken(freqs, k, m);
    } else {
      SelectionWeight(freqs, k - 1, 2 * (m - t));
      WeightLast(w, CoinsTaken(freqs, k - 1, 2 * (m - t)), t);
      PairPrefix(Value, Merged(freqs, k - 1), m - t);
    }
  }

  // Adding up by round or by symbol gives the same total.
  lemma {:induction false} WeightIsCost(w: seq<nat>, a: seq<nat>)
    requires forall i :: 0 <= i < |a| ==> a[i] <= |w|
    ensures Weight(w, a) == CostTo(w, Lengths(a, |w|), |w|)
  {
    if a == [] {
      CostOfNothing(w, |w|);
    } else {
      WeightIsCost(w, a[..|a| - 1]);
      CostOfRound(w, a, |w|);
    }
  }

  lemma {:induction false} CostOfNothing(w: seq<nat>, n: nat)
    requires n <= |w|
    ensures CostTo(w, Lengths([], |w|), n) == 0
  {
    if n > 0 {
      CostOfNothing(w, n - 1);
    }
  }

  lemma {:induction false} CostOfRound(w: seq<nat>, a: seq<nat>, n: nat)
    requires n <= |w|
    requires a != [] && a[|a| - 1] <= |w|
    ensures CostTo(w, Lengths(a, |w|), n)
         == CostTo(w, Lengths(a[..|a| - 1], |w|), n) + SumTo(w, Min(a[|a| - 1], n))
  {
    if n > 0 {
      CostOfRound(w, a, n - 1);
      var x, y := Selected(a[..|a| - 1], n - 1), Selected(a, n - 1);
      assert Lengths(a, |w|)[n - 1] == y && Lengths(a[..|a| - 1], |w|)[n - 1] == x;
      if n <= a[|a| - 1] {
        Distribute(x, 1, w[n - 1]);
      }
    }
  }
}
