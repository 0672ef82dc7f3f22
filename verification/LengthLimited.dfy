/**
 HuffmanTree::build_length_limited_tree: from a list of symbols to the cheapest code
 lengths of at most a given size.
 */
module LengthLimited {
  import opened Prelude
  import opened PackageMerge
  import opened CodeLengths

  datatype SymbolLength = SymbolLength(symbol: nat, length: nat)

  // The panics and errors of the source, in the order in which it can raise them.
  datatype BuildError = ShiftOverflow | SumOverflow | TooFewPackages | MissingSymbols | LengthTooLarge

  // The largest limit whose coins all have the denomination intended.
  const MAX_LIMIT := 31

  const U64: nat := 0x1_0000_0000_0000_0000

  // ---- What is promised of the result ----

  ghost function Share(limit: nat): SymbolLength -> int {
    (e: SymbolLength) => if e.length <= limit then Pow2(limit - e.length) else 0
  }

  // The Kraft sum of the code lengths, scaled by 2^limit.
  ghost function KraftSum(lens: seq<SymbolLength>, limit: nat): int {
    SumOver(lens, Share(limit))
  }

  ghost function BitsOf(symbols: seq<nat>): SymbolLength -> int {
    (e: SymbolLength) => e.length * multiset(symbols)[e.symbol]
  }

  // Number of bits needed to write all of symbols.
  ghost function TotalBits(symbols: seq<nat>, lens: seq<SymbolLength>): int {
    SumOver(lens, BitsOf(symbols))
  }

  // Exactly the symbols of the input, in increasing order.
  ghost predicate Covers(lens: seq<SymbolLength>, symbols: seq<nat>) {
    && (forall i, j :: 0 <= i < j < |lens| ==> lens[i].symbol < lens[j].symbol)
    && (forall i :: 0 <= i < |lens| ==> lens[i].symbol in symbols)
    && (forall s :: s in symbols ==> exists i :: 0 <= i < |lens| && lens[i].symbol == s)
  }

  // A code with these lengths exists: lengths 1..limit and a Kraft sum of at most one.
  ghost predicate Feasible(lens: seq<SymbolLength>, limit: nat) {
    && (forall i :: 0 <= i < |lens| ==> 1 <= lens[i].length <= limit)
    && KraftSum(lens, limit) <= Pow2(limit)
  }

  ghost predicate Optimal(lens: seq<SymbolLength>, symbols: seq<nat>, limit: nat) {
    forall other: seq<SymbolLength> :: Covers(other, symbols) && Feasible(other, limit) ==>
      TotalBits(symbols, lens) <= TotalBits(symbols, other)
  }

  // s occurs less often than t, or as often and is the smaller symbol.
  ghost predicate Rarer(symbols: seq<nat>, s: nat, t: nat) {
    var m := multiset(symbols);
    m[s] < m[t] || (m[s] == m[t] && s < t)
  }

  ghost predicate RarerIsLonger(lens: seq<SymbolLength>, symbols: seq<nat>) {
    forall i, j :: 0 <= i < |lens| && 0 <= j < |lens| ==>
      Rarer(symbols, lens[i].symbol, lens[j].symbol) ==> lens[i].length >= lens[j].length
  }

  ghost function DistinctSymbols(symbols: seq<nat>): set<nat> {
    set s | s in symbols
  }

  // ---- The number of packages ----

  // n minus the number of packages entering round k is n / 2^k rounded up.
  lemma {:induction false} PackageCount(freqs: seq<SymbolCount>, k: nat)
    requires |freqs| > 0
    ensures var d := |freqs| - |Packages(freqs, k)|;
            d >= 1 && (d - 1) * Pow2(k) < |freqs| <= d * Pow2(k)
  {
    hide Merge, Pair;
    if k > 0 {
      PackageCount(freqs, k - 1);
      var d := |freqs| - |Packages(freqs, k - 1)|;
      var e := |freqs| - |Packages(freqs, k)|;
      assert e == (d + 1) / 2;
      DoublePow2(e - 1, k);
      DoublePow2(e, k);
      Scale(2 * (e - 1), d - 1, Pow2(k - 1));
      Scale(d, 2 * e, Pow2(k - 1));
    }
  }

  // Enough packages exactly when a code of the limited length can hold all symbols.
  lemma EnoughPackages(freqs: seq<SymbolCount>, limit: nat)
    requires |freqs| > 0
    ensures |freqs| - 1 <= |Packages(freqs, limit)| <==> |freqs| <= Pow2(limit)
  {
    hide Packages;
    PackageCount(freqs, limit);
    var d := |freqs| - |Packages(freqs, limit)|;
    if d >= 2 {
      Scale(1, d - 1, Pow2(limit));
    }
  }

  // ---- The coins of each symbol ----

  function CountSymbol(coins: seq<Coin>, s: nat): nat {
    if coins == [] then 0 else (if coins[0].symbol == s then 1 else 0) + CountSymbol(coins[1..], s)
  }

  lemma {:induction false} CountSymbolConcat(a: seq<Coin>, b: seq<Coin>, s: nat)
    ensures CountSymbol(a + b, s) == CountSymbol(a, s) + CountSymbol(b, s)
  {
    if a == [] {
      assert a + b == b;
    } else {
      assert (a + b)[1..] == a[1..] + b;
      CountSymbolConcat(a[1..], b, s);
    }
  }

  ghost function Occurs(s: nat): Package -> nat {
    (p: Package) => CountSymbol(p.inner, s)
  }

  lemma {:induction false} CoinOccurs(freqs: seq<SymbolCount>, k: nat, s: nat, t: nat)
    requires SortedCounts(freqs) && t <= |freqs|
    ensures (forall j :: 0 <= j < t ==> freqs[j].symbol != s) ==> Prefix(Occurs(s), Coins(freqs, k), t) == 0
    ensures forall j :: 0 <= j < t && freqs[j].symbol == s ==> Prefix(Occurs(s), Coins(freqs, k), t) == 1
  {
    if t > 0 {
      CoinOccurs(freqs, k, s, t - 1);
      PrefixLast(Occurs(s), Coins(freqs, k), t);
      var c := [Coin(Shifted(k), freqs[t - 1].symbol)];
      assert c[1..] == [];
      assert CountSymbol(c, s) == if freqs[t - 1].symbol == s then 1 else 0;
      assert Occurs(s)(Coins(freqs, k)[t - 1]) == CountSymbol(c, s);
    }
  }

  lemma OccursAdds(s: nat)
    ensures forall x, y :: Occurs(s)(Combine(x, y)) == Occurs(s)(x) + Occurs(s)(y)
  {
    forall x, y ensures Occurs(s)(Combine(x, y)) == Occurs(s)(x) + Occurs(s)(y) {
      CountSymbolConcat(x.inner, y.inner, s);
    }
  }

  // The coins of position j in the first m items, counted one by one.
  lemma {:induction false} OccurrencesSelected(freqs: seq<SymbolCount>, k: nat, m: nat, j: nat)
    requires SortedCounts(freqs) && j < |freqs|
    requires m <= |Merged(freqs, k)|
    ensures Prefix(Occurs(freqs[j].symbol), Merged(freqs, k), m) == Selected(CoinsTaken(freqs, k, m), j)
  {
    hide Merge, Pair, Taken, Prefix, Occurs, CountSymbol, Coins, Selected;
    var s := freqs[j].symbol;
    var packs, coins := Packages(freqs, k), Coins(freqs, k);
    var t := Taken(packs, coins, m);
    TakenPrefix(Occurs(s), packs, coins, m);
    CoinOccurs(freqs, k, s, t);
    if k == 0 {
      PrefixZero(Occurs(s), packs);
      SelectedLast([], t, j);
      assert [] + [t] == CoinsTaken(freqs, k, m);
      SelectedNone([], j);
    } else {
      OccursAdds(s);
      OccurrencesSelected(freqs, k - 1, 2 * (m - t), j);
      SelectedLast(CoinsTaken(freqs, k - 1, 2 * (m - t)), t, j);
      PairPrefix(Occurs(s), Merged(freqs, k - 1), m - t);
    }
  }

  lemma {:induction false} NoStrangers(freqs: seq<SymbolCount>, k: nat, m: nat, s: nat)
    requires SortedCounts(freqs) && forall j :: 0 <= j < |freqs| ==> freqs[j].symbol != s
    requires m <= |Merged(freqs, k)|
    ensures Prefix(Occurs(s), Merged(freqs, k), m) == 0
  {
    hide Merge, Pair, Taken, Prefix, Occurs, CountSymbol;
    var packs, coins := Packages(freqs, k), Coins(freqs, k);
    var t := Taken(packs, coins, m);
    TakenPrefix(Occurs(s), packs, coins, m);
    CoinOccurs(freqs, k, s, t);
    if k == 0 {
      PrefixZero(Occurs(s), packs);
    } else {
      OccursAdds(s);
      NoStrangers(freqs, k - 1, 2 * (m - t), s);
      PairPrefix(Occurs(s), Merged(freqs, k - 1), m - t);
    }
  }

  // ---- The lengths that result, by position in the histogram ----

  // The lengths package-merge gives to n symbols that fit the limit.
  ghost function ChosenLengths(freqs: seq<SymbolCount>, limit: nat): (lens: seq<nat>)
    requires 2 <= |freqs| <= Pow2(limit)
    ensures |lens| == |freqs|
  {
    hide Packages, Merged;
    EnoughPackages(freqs, limit);
    assert limit > 0;
    MergedSize(freqs, limit);
    Lengths(CoinsTaken(freqs, limit - 1, 2 * (|freqs| - 1)), |freqs|)
  }

  lemma MergedSize(freqs: seq<SymbolCount>, limit: nat)
    requires limit > 0 && |freqs| > 0
    requires |freqs| - 1 <= |Packages(freqs, limit)|
    ensures 2 * (|freqs| - 1) <= |Merged(freqs, limit - 1)|
  {
  }

  lemma {:induction false} SelectedAntitone(a: seq<nat>, i: nat, j: nat)
    requires i <= j
    ensures Selected(a, i) >= Selected(a, j)
  {
    if a != [] {
      SelectedAntitone(a[..|a| - 1], i, j);
    }
  }

  // Every length is positive, or its share alone would fill the Kraft sum.
  lemma {:induction false} KraftLeavesNoZero(lens: seq<nat>, limit: nat, n: nat)
    requires 0 < n <= |lens| && AtMost(lens, limit)
    ensures KraftTo(lens, limit, n) >= 1
    ensures forall j :: 0 <= j < n && lens[j] == 0 && n > 1 ==> KraftTo(lens, limit, n) > Pow2(limit)
  {
    if n > 1 {
      KraftLeavesNoZero(lens, limit, n - 1);
      if lens[0] == 0 && n == 2 {
        assert KraftTo(lens, limit, 1) == KraftTo(lens, limit, 0) + Pow2(limit);
      }
    }
  }

  lemma ChosenLengthsCorrect(freqs: seq<SymbolCount>, limit: nat)
    requires SortedCounts(freqs) && 2 <= |freqs| <= Pow2(limit)
    ensures var lens := ChosenLengths(freqs, limit);
            && (forall j :: 0 <= j < |lens| ==> 1 <= lens[j] <= limit)
            && (forall i, j :: 0 <= i <= j < |lens| ==> lens[i] >= lens[j])
            && AtMost(lens, limit)
            && KraftTo(lens, limit, |lens|) == Pow2(limit)
  {
    hide Packages, Merged, CoinsTaken, KraftTo, Worth, Selected;
    var n := |freqs|;
    EnoughPackages(freqs, limit);
    assert limit > 0;
    MergedSize(freqs, limit);
    var a := CoinsTaken(freqs, limit - 1, 2 * (n - 1));
    var lens := ChosenLengths(freqs, limit);
    CoinsTakenNonDecreasing(freqs, limit - 1, 2 * (n - 1));
    SelectionWorth(freqs, limit - 1, 2 * (n - 1));
    KraftOfSelection(a, n, n);
    DoublePow2(n - 1, limit);
    Distribute(n, 1, Pow2(limit));
    KraftLeavesNoZero(lens, limit, n);
    forall i, j | 0 <= i <= j < n ensures lens[i] >= lens[j] {
      SelectedAntitone(a, i, j);
    }
  }

  lemma RoomLeft(n: nat, half: nat, kraft: nat)
    requires kraft <= 2 * half
    ensures n * (2 * half) - kraft >= (2 * (n - 1)) * half
  {
    assert n * (2 * half) == (2 * (n - 1)) * half + 2 * half;
  }

  lemma ChosenCost(freqs: seq<SymbolCount>, limit: nat)
    requires 2 <= |freqs| <= Pow2(limit)
    ensures limit > 0 && 2 * (|freqs| - 1) <= |Merged(freqs, limit - 1)|
    ensures CostTo(Counts(freqs), ChosenLengths(freqs, limit), |freqs|)
         == Prefix(Value, Merged(freqs, limit - 1), 2 * (|freqs| - 1))
  {
    hide Packages, Merged, CoinsTaken, CostTo, Prefix, Weight, Counts, Lengths;
    EnoughPackages(freqs, limit);
    assert limit > 0;
    MergedSize(freqs, limit);
    SelectionWeight(freqs, limit - 1, 2 * (|freqs| - 1));
    WeightIsCost(Counts(freqs), CoinsTaken(freqs, limit - 1, 2 * (|freqs| - 1)));
  }

  lemma OtherCost(freqs: seq<SymbolCount>, limit: nat, other: seq<nat>)
    requires SortedCounts(freqs) && limit > 0
    requires |other| == |freqs| && AtMost(other, limit)
    requires KraftTo(other, limit, |other|) <= Pow2(limit)
    requires |freqs| > 0
    ensures 2 * (|freqs| - 1) <= |Merged(freqs, limit - 1)|
    ensures Prefix(Value, Merged(freqs, limit - 1), 2 * (|freqs| - 1)) <= CostTo(Counts(freqs), other, |freqs|)
  {
    hide Merged, KraftTo, CostTo, Values, Denominations, Prefix;
    var n, half := |freqs|, Pow2(limit - 1);
    assert Pow2(limit) == 2 * half;
    RoomLeft(n, half, KraftTo(other, limit, n));
    AllRounds(Counts(freqs), other, limit, n);
    NothingCheaper(freqs, other, limit, limit - 1, 2 * (n - 1));
  }

  lemma ChosenLengthsCheapest(freqs: seq<SymbolCount>, limit: nat, other: seq<nat>)
    requires SortedCounts(freqs) && 2 <= |freqs| <= Pow2(limit)
    requires |other| == |freqs| && AtMost(other, limit)
    requires KraftTo(other, limit, |other|) <= Pow2(limit)
    ensures CostTo(Counts(freqs), ChosenLengths(freqs, limit), |freqs|) <= CostTo(Counts(freqs), other, |freqs|)
  {
    hide Merged, KraftTo, CostTo, Prefix, ChosenLengths;
    ChosenCost(freqs, limit);
    OtherCost(freqs, limit, other);
  }
}
