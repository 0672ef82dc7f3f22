/**
 The loops of HuffmanTree::build_length_limited_tree and of merge_by, proved against
 the lists of PackageMerge, and the promises made for the lengths returned.
 */
module LengthLimitedBuild {
  import opened Prelude
  import opened Sorting
  import opened PackageMerge
  import opened CodeLengths
  import opened LengthLimited

  // ---- Histogram ----

  method CountSymbols(symbols: seq<nat>) returns (freqs: map<nat, nat>)
    ensures freqs.Keys == DistinctSymbols(symbols)
    ensures forall s :: s in freqs ==> freqs[s] == multiset(symbols)[s]
  {
    freqs := map[];
    for i := 0 to |symbols|
      invariant freqs.Keys == DistinctSymbols(symbols[..i])
      invariant forall s :: s in freqs ==> freqs[s] == multiset(symbols[..i])[s]
    {
      var s := symbols[i];
      assert symbols[..i + 1] == symbols[..i] + [s];
      assert s !in freqs ==> s !in symbols[..i];
      freqs := freqs[s := (if s in freqs then freqs[s] else 0) + 1];
    }
    assert symbols[..|symbols|] == symbols;
  }

  predicate CountOrder(a: SymbolCount, b: SymbolCount) {
    a.count < b.count || (a.count == b.count && a.symbol <= b.symbol)
  }

  ghost predicate TiesBySymbol(freqs: seq<SymbolCount>) {
    forall i, j :: 0 <= i < j < |freqs| && freqs[i].count == freqs[j].count ==> freqs[i].symbol < freqs[j].symbol
  }

  // The histogram of symbols in the order of the source.
  ghost predicate IsHistogram(freqs: seq<SymbolCount>, symbols: seq<nat>) {
    && SortedCounts(freqs)
    && TiesBySymbol(freqs)
    && (forall j :: 0 <= j < |freqs| ==>
          freqs[j].symbol in symbols && freqs[j].count == multiset(symbols)[freqs[j].symbol])
    && (forall s :: s in symbols ==> exists j :: 0 <= j < |freqs| && freqs[j].symbol == s)
    && |freqs| == |DistinctSymbols(symbols)|
  }

  method Histogram(symbols: seq<nat>) returns (freqs: seq<SymbolCount>)
    ensures IsHistogram(freqs, symbols)
  {
    var counts := CountSymbols(symbols);
    var items := set s | s in counts :: SymbolCount(s, counts[s]);
    freqs := Sorted(items, CountOrder);
    SetContents(freqs, items);
    forall s | s in counts ensures SymbolCount(s, counts[s]) in freqs {
      assert SymbolCount(s, counts[s]) in items;
    }
    forall e | e in freqs ensures e.symbol in counts && e.count == counts[e.symbol] {
      assert e in items;
    }
    SortedEntries(freqs, counts);
    SortedCountsOf(freqs, counts, symbols);
  }

  lemma SortedCountsOf(freqs: seq<SymbolCount>, counts: map<nat, nat>, symbols: seq<nat>)
    requires counts.Keys == DistinctSymbols(symbols) && |freqs| == |counts.Keys|
    requires forall s :: s in counts ==> counts[s] == multiset(symbols)[s]
    requires forall e :: e in freqs ==> e.symbol in counts && e.count == counts[e.symbol]
    requires forall i, j :: 0 <= i <= j < |freqs| ==> freqs[i].count <= freqs[j].count
    requires forall i, j :: 0 <= i < j < |freqs| ==> freqs[i].symbol != freqs[j].symbol
    requires TiesBySymbol(freqs)
    requires forall s :: s in counts ==> exists j :: 0 <= j < |freqs| && freqs[j].symbol == s
    ensures IsHistogram(freqs, symbols)
  {
    forall j | 0 <= j < |freqs|
      ensures freqs[j].symbol in symbols && freqs[j].count == multiset(symbols)[freqs[j].symbol] >= 1
    {
      assert freqs[j] in freqs;
    }
    forall s | s in symbols ensures exists j :: 0 <= j < |freqs| && freqs[j].symbol == s {
      assert s in counts;
    }
  }

  lemma SortedEntries(freqs: seq<SymbolCount>, counts: map<nat, nat>)
    requires SortedBy(freqs, CountOrder) && Distinct(freqs)
    requires forall e :: e in freqs ==> e.symbol in counts && e.count == counts[e.symbol]
    requires forall s :: s in counts ==> SymbolCount(s, counts[s]) in freqs
    ensures forall i, j :: 0 <= i <= j < |freqs| ==> freqs[i].count <= freqs[j].count
    ensures forall i, j :: 0 <= i < j < |freqs| ==> freqs[i].symbol != freqs[j].symbol
    ensures TiesBySymbol(freqs)
    ensures forall s :: s in counts ==> exists j :: 0 <= j < |freqs| && freqs[j].symbol == s
    ensures |freqs| == |counts.Keys|
  {
    forall i, j | 0 <= i <= j < |freqs| ensures freqs[i].count <= freqs[j].count {
      assert i < j ==> CountOrder(freqs[i], freqs[j]);
    }
    forall i, j | 0 <= i < j < |freqs| ensures freqs[i].symbol != freqs[j].symbol {
      assert freqs[i] in freqs && freqs[j] in freqs;
    }
    var keys := seq(|freqs|, j requires 0 <= j < |freqs| => freqs[j].symbol);
    forall s | s in counts ensures s in keys && exists j :: 0 <= j < |freqs| && freqs[j].symbol == s {
      var j :| 0 <= j < |freqs| && freqs[j] == SymbolCount(s, counts[s]);
      assert keys[j] == s;
    }
    DistinctSize(keys, counts.Keys);
  }

  // ---- One round ----

  // Panics when there is a symbol and the shift is too wide.
  method BuildDenomList(freqs: seq<SymbolCount>, i: nat) returns (denom: Option<seq<Package>>)
    ensures denom == if freqs != [] && i >= 32 then None else Some(Coins(freqs, i))
  {
    var coins: seq<Package> := [];
    for j := 0 to |freqs|
      invariant coins == Coins(freqs, i)[..j] && (j > 0 ==> i < 32)
    {
      if i >= 32 {
        return None;
      }
      coins := coins + [Package(freqs[j].count, [Coin(Shifted(i), freqs[j].symbol)])];
    }
    assert coins == Coins(freqs, i);
    denom := Some(coins);
  }

  method PackagePairs(list: seq<Package>) returns (out: seq<Package>)
    ensures out == Pair(list)
  {
    out := [];
    for i := 0 to |list| / 2
      invariant out == Pair(list)[..i]
    {
      PairAt(list, i);
      out := out + [Combine(list[2 * i], list[2 * i + 1])];
    }
  }

  method MergeBy(a: seq<Package>, b: seq<Package>) returns (out: seq<Package>)
    ensures out == Merge(a, b)
  {
    hide Merge;
    out := [];
    var i, j := 0, 0;
    ghost var rest := Merge(a, b);
    assert a[0..] == a && b[0..] == b && out + rest == rest;
    while i < |a| && j < |b|
      invariant i <= |a| && j <= |b|
      invariant rest == Merge(a[i..], b[j..]) && Merge(a, b) == out + rest
    {
      MergeSuffixes(a, b, i, j);
      var x := if a[i].value <= b[j].value then a[i] else b[j];
      if a[i].value <= b[j].value {
        i := i + 1;
      } else {
        j := j + 1;
      }
      rest := Merge(a[i..], b[j..]);
      Regroup(out, x, rest);
      out := out + [x];
    }
    MergeEnds(a[i..], b[j..]);
    out := out + (a[i..] + b[j..]);
  }

  lemma Regroup<T>(a: seq<T>, x: T, b: seq<T>)
    ensures a + ([x] + b) == (a + [x]) + b
  {
  }

  lemma MergeSuffixes(a: seq<Package>, b: seq<Package>, i: nat, j: nat)
    requires i < |a| && j < |b|
    ensures Merge(a[i..], b[j..]) == if a[i].value <= b[j].value
                                     then [a[i]] + Merge(a[i + 1..], b[j..])
                                     else [b[j]] + Merge(a[i..], b[j + 1..])
  {
    assert a[i..][1..] == a[i + 1..] && b[j..][1..] == b[j + 1..];
  }

  lemma MergeEnds(a: seq<Package>, b: seq<Package>)
    requires a == [] || b == []
    ensures Merge(a, b) == a + b
  {
  }

  // ---- Taking coins until the wanted denomination is reached ----

  // The denomination a coin was meant to have.
  function Intended(c: Coin): nat {
    if c.denomination == SPREAD then Pow2(31) else c.denomination
  }

  ghost predicate CleanTo(coins: seq<Coin>, c: nat)
    requires c <= |coins|
  {
    forall i :: 0 <= i < c ==> coins[i].denomination != SPREAD
  }

  // Every coin has the denomination it was meant to have.
  ghost predicate Clean(p: Package) {
    CleanTo(p.inner, |p.inner|)
  }

  ghost function WorthTo(coins: seq<Coin>, c: nat): nat
    requires c <= |coins|
  {
    if c == 0 then 0 else WorthTo(coins, c - 1) + Intended(coins[c - 1])
  }

  // A package whose coins were meant to add up to unit.
  ghost predicate WorthExactly(p: Package, unit: nat) {
    && (forall c :: 0 <= c < |p.inner| ==> Intended(p.inner[c]) >= 1)
    && WorthTo(p.inner, |p.inner|) == unit
  }

  lemma {:induction false} WorthIncreases(coins: seq<Coin>, c: nat, d: nat)
    requires c <= d <= |coins|
    requires forall i :: 0 <= i < |coins| ==> Intended(coins[i]) >= 1
    ensures WorthTo(coins, c) + (d - c) <= WorthTo(coins, d)
  {
    hide Intended;
    if c < d {
      WorthIncreases(coins, c, d - 1);
    }
  }

  lemma {:induction false} WorthConcat(a: seq<Coin>, b: seq<Coin>, d: nat)
    requires d <= |b|
    ensures WorthTo(a + b, |a| + d) == WorthTo(a, |a|) + WorthTo(b, d)
  {
    hide Intended;
    if d == 0 {
      WorthOfPrefix(a, b, |a|);
    } else {
      WorthConcat(a, b, d - 1);
    }
  }

  lemma {:induction false} WorthOfPrefix(a: seq<Coin>, b: seq<Coin>, c: nat)
    requires c <= |a|
    ensures WorthTo(a + b, c) == WorthTo(a, c)
  {
    hide Intended;
    if c > 0 {
      WorthOfPrefix(a, b, c - 1);
    }
  }

  lemma CoinWorth(freqs: seq<SymbolCount>, k: nat, p: Package)
    requires k <= 31 && p in Coins(freqs, k)
    ensures WorthExactly(p, Pow2(k)) && (k < 31 ==> Clean(p))
  {
    hide Pow2;
    Pow32();
    Pow2Step(32);
    Pow2Monotone(k, 31);
    OneCoin(p.inner, Shifted(k));
  }

  lemma OneCoin(coins: seq<Coin>, d: nat)
    requires |coins| == 1 && coins[0].denomination == d
    ensures WorthTo(coins, 1) == if d == SPREAD then Pow2(31) else d
  {
    hide Pow2;
    assert WorthTo(coins, 0) == 0;
  }

  // Items of round k are meant to be worth 2^k each, and are while all shifts are below the sign bit.
  lemma {:induction false} MergedWorth(freqs: seq<SymbolCount>, k: nat, i: nat)
    requires k <= 31 && i < |Merged(freqs, k)|
    ensures WorthExactly(Merged(freqs, k)[i], Pow2(k)) && (k < 31 ==> Clean(Merged(freqs, k)[i]))
    decreases k, 1
  {
    hide Merge, Pair, Coins, WorthExactly, Clean;
    MergeMember(Packages(freqs, k), Coins(freqs, k), i);
    if Merged(freqs, k)[i] in Packages(freqs, k) {
      var j :| 0 <= j < |Packages(freqs, k)| && Packages(freqs, k)[j] == Merged(freqs, k)[i];
      PackageWorth(freqs, k, j);
    } else {
      CoinWorth(freqs, k, Merged(freqs, k)[i]);
    }
  }

  lemma {:induction false} PackageWorth(freqs: seq<SymbolCount>, k: nat, j: nat)
    requires k <= 32 && j < |Packages(freqs, k)|
    ensures WorthExactly(Packages(freqs, k)[j], Pow2(k)) && (k <= 31 ==> Clean(Packages(freqs, k)[j]))
    decreases k, 0
  {
    hide Merge, Pair, WorthExactly, Clean, Combine, Merged, Pow2;
    var prev := Merged(freqs, k - 1);
    Pow2Step(k);
    PairAt(prev, j);
    MergedWorth(freqs, k - 1, 2 * j);
    MergedWorth(freqs, k - 1, 2 * j + 1);
    CombinedWorth(prev[2 * j], prev[2 * j + 1], Pow2(k - 1));
  }

  lemma CombinedWorth(p: Package, q: Package, unit: nat)
    requires WorthExactly(p, unit) && WorthExactly(q, unit)
    ensures WorthExactly(Combine(p, q), 2 * unit) && (Clean(p) && Clean(q) ==> Clean(Combine(p, q)))
  {
    hide WorthTo, Intended;
    WorthConcat(p.inner, q.inner, |q.inner|);
  }

  // Some of the packages that are needed holds a coin of the last level.
  lemma TopCoin(freqs: seq<SymbolCount>, limit: nat) returns (p: nat)
    requires limit > 0 && 2 <= |freqs| <= Pow2(limit)
    ensures p < |freqs| - 1 <= |Packages(freqs, limit)|
    ensures exists c :: 0 <= c < |Packages(freqs, limit)[p].inner|
              && Packages(freqs, limit)[p].inner[c].denomination == Shifted(limit - 1)
  {
    hide Merge, Pair, Taken;
    var n := |freqs| - 1;
    EnoughPackages(freqs, limit);
    PackageCount(freqs, limit - 1);
    var a, b := Packages(freqs, limit - 1), Coins(freqs, limit - 1);
    var i := TakenFirst(a, b, 2 * n);
    p := i / 2;
    var merged := Merged(freqs, limit - 1);
    PairAt(merged, p);
    var c := if i % 2 == 0 then 0 else |merged[2 * p].inner|;
    assert Packages(freqs, limit)[p].inner[c] == b[0].inner[0];
  }

  // Coins of symbol s in the first pi packages and the first ci coins of the next.
  ghost function Tally(list: seq<Package>, pi: nat, ci: nat, s: nat): nat
    requires pi <= |list| && (pi < |list| ==> ci <= |list[pi].inner|)
  {
    Prefix(Occurs(s), list, pi) + if pi < |list| then CountSymbol(list[pi].inner[..ci], s) else 0
  }

  ghost predicate Tallied(counts: map<nat, nat>, list: seq<Package>, pi: nat, ci: nat)
    requires pi <= |list| && (pi < |list| ==> ci <= |list[pi].inner|)
  {
    forall s :: Tally(list, pi, ci, s) == if s in counts then counts[s] else 0
  }

  lemma TallyCoin(list: seq<Package>, pi: nat, ci: nat, s: nat)
    requires pi < |list| && ci < |list[pi].inner|
    ensures Tally(list, pi, ci + 1, s)
         == Tally(list, pi, ci, s) + if list[pi].inner[ci].symbol == s then 1 else 0
  {
    var coins := list[pi].inner;
    assert coins[..ci + 1] == coins[..ci] + [coins[ci]];
    CountSymbolConcat(coins[..ci], [coins[ci]], s);
    assert [coins[ci]][1..] == [];
    assert CountSymbol([coins[ci]], s) == if coins[ci].symbol == s then 1 else 0;
  }

  lemma TallyPackage(list: seq<Package>, pi: nat, s: nat)
    requires pi < |list|
    ensures Tally(list, pi, |list[pi].inner|, s) == Tally(list, pi + 1, 0, s)
  {
    PrefixLast(Occurs(s), list, pi + 1);
    assert list[pi].inner[..|list[pi].inner|] == list[pi].inner;
    assert pi + 1 < |list| ==> list[pi + 1].inner[..0] == [];
  }

  lemma FewerPackages(a: nat, b: nat, unit: nat)
    ensures a * unit < b * unit ==> a < b
  {
    if b <= a {
      Scale(b, a, unit);
    }
  }

  // The loop stopped with a coins-worth of part in package pi: that is the end of
  // package number want.
  lemma StopsAtPackageEnd(list: seq<Package>, unit: nat, want: nat, pi: nat, ci: nat, part: nat)
    requires unit >= 1 && pi < want && pi <= |list|
    requires forall i :: 0 <= i < |list| ==> WorthExactly(list[i], unit)
    requires if pi < |list| then ci <= |list[pi].inner| && part == WorthTo(list[pi].inner, ci) else part == 0
    requires pi * unit + part >= want * unit
    ensures pi < |list| && want == pi + 1 && ci == |list[pi].inner| && part == unit
  {
    hide Intended;
    Scale(pi + 1, want, unit);
    Distribute(pi, 1, unit);
    WorthIncreases(list[pi].inner, ci, |list[pi].inner|);
    Distribute(want, pi, unit);
    if want > pi + 1 {
      Scale(2, want - pi, unit);
    }
  }

  // A multiple of 2^32 that fits in a word is below the widened sign bit.
  lemma SpreadIsTooMuch(want: nat, unit: nat)
    requires unit == Pow2(32) && want * unit < U64
    ensures want * unit < SPREAD
  {
    Pow32();
  }

  // The state of the loop after some packages and some coins, all of the denomination intended.
  ghost predicate Taking(list: seq<Package>, unit: nat, want: nat, total: nat, counts: map<nat, nat>, pi: nat, ci: nat) {
    && pi <= |list| && pi <= want
    && (if pi < |list| then ci <= |list[pi].inner| && CleanTo(list[pi].inner, ci) else ci == 0)
    && (pi == want ==> ci == 0)
    && total == pi * unit + (if pi < |list| then WorthTo(list[pi].inner, ci) else 0)
    && Tallied(counts, list, pi, ci)
    && (forall i :: 0 <= i < pi ==> Clean(list[i]))
    && (forall s :: s in counts ==> counts[s] >= 1)
  }

  lemma TakingStarts(list: seq<Package>, unit: nat, want: nat)
    ensures Taking(list, unit, want, 0, map[], 0, 0)
  {
    assert |list| > 0 ==> list[0].inner[..0] == [];
  }

  lemma TakingPackage(list: seq<Package>, unit: nat, want: nat, total: nat, counts: map<nat, nat>, pi: nat, ci: nat)
    requires Taking(list, unit, want, total, counts, pi, ci) && pi < |list| && ci == |list[pi].inner|
    requires WorthExactly(list[pi], unit) && total < want * unit
    ensures Taking(list, unit, want, total, counts, pi + 1, 0)
  {
    hide Intended, Tally;
    forall s ensures Tally(list, pi, ci, s) == Tally(list, pi + 1, 0, s) { TallyPackage(list, pi, s); }
    Distribute(pi, 1, unit);
    FewerPackages(pi + 1, want, unit);
  }

  lemma TakingCoin(list: seq<Package>, unit: nat, want: nat, total: nat, counts: map<nat, nat>, pi: nat, ci: nat)
    requires Taking(list, unit, want, total, counts, pi, ci) && pi < |list| && ci < |list[pi].inner|
    requires WorthExactly(list[pi], unit) && total < want * unit
    requires list[pi].inner[ci].denomination != SPREAD
    ensures var c := list[pi].inner[ci];
            var more := counts[c.symbol := (if c.symbol in counts then counts[c.symbol] else 0) + 1];
            total + c.denomination <= want * unit && Taking(list, unit, want, total + c.denomination, more, pi, ci + 1)
  {
    hide Tally;
    var coins := list[pi].inner;
    var c := coins[ci];
    FewerPackages(pi, want, unit);
    Scale(pi + 1, want, unit);
    Distribute(pi, 1, unit);
    WorthIncreases(coins, ci + 1, |coins|);
    assert WorthTo(coins, ci + 1) == WorthTo(coins, ci) + c.denomination;
    forall s ensures Tally(list, pi, ci + 1, s) == Tally(list, pi, ci, s) + if c.symbol == s then 1 else 0 {
      TallyCoin(list, pi, ci, s);
    }
  }

  lemma TakingEnds(list: seq<Package>, unit: nat, want: nat, total: nat, counts: map<nat, nat>, pi: nat, ci: nat)
    requires unit >= 1 && forall i :: 0 <= i < |list| ==> WorthExactly(list[i], unit)
    requires Taking(list, unit, want, total, counts, pi, ci) && (total < want * unit ==> pi == |list|)
    ensures var m := Min(want, |list|);
            && total == m * unit
            && (forall i :: 0 <= i < m ==> Clean(list[i]))
            && (forall s :: Prefix(Occurs(s), list, m) == if s in counts then counts[s] else 0)
  {
    hide WorthExactly, Prefix, Occurs;
    var m := Min(want, |list|);
    if total < want * unit {
      FewerPackages(pi, want, unit);
    } else if pi < want {
      StopsAtPackageEnd(list, unit, want, pi, ci, if pi < |list| then WorthTo(list[pi].inner, ci) else 0);
      Distribute(pi, 1, unit);
      forall s ensures Tally(list, pi, ci, s) == Tally(list, want, 0, s) { TallyPackage(list, pi, s); }
    }
    assert m < |list| ==> list[m].inner[..0] == [];
    forall s ensures Tally(list, m, 0, s) == Prefix(Occurs(s), list, m) {
    }
  }

  // Takes coins one at a time, in 64-bit arithmetic; None when that overflows. With coins of the denomination
  // intended it stops exactly at the end of package number want, or of the last package when there are fewer;
  // a coin whose sign bit was spread ruins the total.
  method TakeCoins(list: seq<Package>, unit: nat, want: nat) returns (r: Option<(nat, map<nat, nat>)>)
    requires unit >= 1
    requires forall i :: 0 <= i < |list| ==> WorthExactly(list[i], unit)
    requires unit == Pow2(32) || forall i :: 0 <= i < |list| ==> Clean(list[i])
    ensures want * unit >= U64 ==> r == None
    ensures want * unit < U64 && (forall i :: 0 <= i < Min(want, |list|) ==> Clean(list[i])) ==>
              r.Some? && r.value.0 == Min(want, |list|) * unit
    ensures want * unit < U64 && (exists i :: 0 <= i < Min(want, |list|) && !Clean(list[i])) ==>
              r.Some? ==> r.value.0 != want * unit
    ensures r.Some? && r.value.0 == want * unit ==>
              && (forall s :: Prefix(Occurs(s), list, Min(want, |list|)) == if s in r.value.1 then r.value.1[s] else 0)
              && (forall s :: s in r.value.1 ==> r.value.1[s] >= 1)
  {
    hide Intended, WorthTo, Prefix, Occurs, WorthExactly, Tallied, Pow2;
    var counts: map<nat, nat> := map[];
    var total := 0;
    var desired := want * unit;
    if desired >= U64 {
      return None;
    }
    var pi, ci := 0, 0;
    TakingStarts(list, unit, want);
    while total < desired
      invariant 0 <= pi <= |list| && 0 <= ci && 0 <= total
      invariant total <= desired ==> Taking(list, unit, want, total, counts, pi, ci)
      invariant total > desired ==> exists i :: 0 <= i < Min(want, |list|) && !Clean(list[i])
      decreases |list| - pi, if pi < |list| then |list[pi].inner| - ci else 0
    {
      if pi >= |list| {
        break;
      }
      var p := list[pi];
      if ci >= |p.inner| {
        TakingPackage(list, unit, want, total, counts, pi, ci);
        pi := pi + 1;
        ci := 0;
        continue;
      }
      var c := p.inner[ci];
      FewerPackages(pi, want, unit);
      if c.denomination != SPREAD {
        TakingCoin(list, unit, want, total, counts, pi, ci);
      } else {
        SpreadIsTooMuch(want, unit);
        assert !Clean(list[pi]);
      }
      if total + c.denomination >= U64 {
        return None;
      }
      total := total + c.denomination;
      counts := counts[c.symbol := (if c.symbol in counts then counts[c.symbol] else 0) + 1];
      ci := ci + 1;
    }
    if total <= desired {
      TakingEnds(list, unit, want, total, counts, pi, ci);
    }
    r := Some((total, counts));
  }

  // ---- Lists of lengths in the order of the histogram ----

  ghost function LengthOf(lens: seq<SymbolLength>, s: nat): nat {
    if lens == [] then 0 else if lens[0].symbol == s then lens[0].length else LengthOf(lens[1..], s)
  }

  lemma {:induction false} LengthOfAt(lens: seq<SymbolLength>, i: nat)
    requires i < |lens| && forall a, b :: 0 <= a < b < |lens| ==> lens[a].symbol < lens[b].symbol
    ensures LengthOf(lens, lens[i].symbol) == lens[i].length
  {
    if i > 0 {
      LengthOfAt(lens[1..], i - 1);
    }
  }

  ghost function Listing(freqs: seq<SymbolCount>, lens: seq<nat>): (l: seq<SymbolLength>)
    requires |freqs| == |lens|
    ensures |l| == |lens|
  {
    seq(|lens|, j requires 0 <= j < |lens| => SymbolLength(freqs[j].symbol, lens[j]))
  }

  lemma {:induction false} ListingSums(freqs: seq<SymbolCount>, symbols: seq<nat>, lens: seq<nat>, limit: nat, n: nat)
    requires IsHistogram(freqs, symbols) && |freqs| == |lens| && AtMost(lens, limit) && n <= |lens|
    ensures SumOver(Listing(freqs, lens)[..n], Share(limit)) == KraftTo(lens, limit, n)
    ensures SumOver(Listing(freqs, lens)[..n], BitsOf(symbols)) == CostTo(Counts(freqs), lens, n)
  {
    if n > 0 {
      var l := Listing(freqs, lens);
      ListingSums(freqs, symbols, lens, limit, n - 1);
      hide SumOver, IsHistogram;
      SumOverLast(l, n, Share(limit));
      SumOverLast(l, n, BitsOf(symbols));
      CountOfEntry(freqs, symbols, n - 1);
    }
  }

  lemma CountOfEntry(freqs: seq<SymbolCount>, symbols: seq<nat>, j: nat)
    requires IsHistogram(freqs, symbols) && j < |freqs|
    ensures multiset(symbols)[freqs[j].symbol] == freqs[j].count
  {
  }

  lemma SumOverLast<T>(s: seq<T>, n: nat, f: T -> int)
    requires 0 < n <= |s|
    ensures SumOver(s[..n], f) == SumOver(s[..n - 1], f) + f(s[n - 1])
  {
    assert s[..n] == s[..n - 1] + [s[n - 1]];
    SumOverConcat(s[..n - 1], [s[n - 1]], f);
    SumOverOne(s[n - 1], f);
  }

  lemma SumOverOne<T>(x: T, f: T -> int)
    ensures SumOver([x], f) == f(x)
  {
    assert [x][1..] == [];
  }

  // A list sorted by symbol, rearranged into the order of the histogram.
  ghost function InOrder(freqs: seq<SymbolCount>, list: seq<SymbolLength>): (lens: seq<nat>)
    ensures |lens| == |freqs|
  {
    seq(|freqs|, j requires 0 <= j < |freqs| => LengthOf(list, freqs[j].symbol))
  }

  lemma InOrderMember(freqs: seq<SymbolCount>, symbols: seq<nat>, list: seq<SymbolLength>, j: nat)
    requires IsHistogram(freqs, symbols) && Covers(list, symbols) && j < |freqs|
    ensures Listing(freqs, InOrder(freqs, list))[j] in list
  {
    assert freqs[j].symbol in symbols;
    var i :| 0 <= i < |list| && list[i].symbol == freqs[j].symbol;
    LengthOfAt(list, i);
    assert list[i] == Listing(freqs, InOrder(freqs, list))[j];
  }

  lemma MemberInOrder(freqs: seq<SymbolCount>, symbols: seq<nat>, list: seq<SymbolLength>, i: nat)
    requires IsHistogram(freqs, symbols) && Covers(list, symbols) && i < |list|
    ensures list[i] in Listing(freqs, InOrder(freqs, list))
  {
    assert list[i].symbol in symbols;
    var j :| 0 <= j < |freqs| && freqs[j].symbol == list[i].symbol;
    LengthOfAt(list, i);
    assert list[i] == Listing(freqs, InOrder(freqs, list))[j];
  }

  lemma InOrderPermutes(freqs: seq<SymbolCount>, symbols: seq<nat>, list: seq<SymbolLength>)
    requires IsHistogram(freqs, symbols) && Covers(list, symbols)
    ensures multiset(Listing(freqs, InOrder(freqs, list))) == multiset(list)
  {
    var l := Listing(freqs, InOrder(freqs, list));
    DistinctMultiset(l);
    DistinctMultiset(list);
    assert (set x | x in l) == (set x | x in list) by {
      forall j | 0 <= j < |l| ensures l[j] in list { InOrderMember(freqs, symbols, list, j); }
      forall i | 0 <= i < |list| ensures list[i] in l { MemberInOrder(freqs, symbols, list, i); }
    }
  }

  // The sums of a list sorted by symbol, taken in the order of the histogram.
  lemma ByPosition(freqs: seq<SymbolCount>, symbols: seq<nat>, list: seq<SymbolLength>, limit: nat)
    returns (lens: seq<nat>)
    requires IsHistogram(freqs, symbols) && Covers(list, symbols)
    requires forall i :: 0 <= i < |list| ==> list[i].length <= limit
    ensures |lens| == |freqs| && AtMost(lens, limit)
    ensures forall j :: 0 <= j < |freqs| ==> SymbolLength(freqs[j].symbol, lens[j]) in list
    ensures KraftSum(list, limit) == KraftTo(lens, limit, |lens|)
    ensures TotalBits(symbols, list) == CostTo(Counts(freqs), lens, |lens|)
  {
    hide SumOver, KraftTo, CostTo, Share, BitsOf, Covers;
    lens := InOrder(freqs, list);
    var l := Listing(freqs, lens);
    forall j | 0 <= j < |lens| ensures SymbolLength(freqs[j].symbol, lens[j]) in list && lens[j] <= limit {
      InOrderMember(freqs, symbols, list, j);
      assert l[j] in list;
    }
    InOrderPermutes(freqs, symbols, list);
    assert l[..|l|] == l;
    ListingSums(freqs, symbols, lens, limit, |lens|);
    SumOverPermutation(l, list, Share(limit));
    SumOverPermutation(l, list, BitsOf(symbols));
  }

  lemma PositionOf(freqs: seq<SymbolCount>, symbols: seq<nat>, s: nat) returns (j: nat)
    requires IsHistogram(freqs, symbols) && s in symbols
    ensures j < |freqs| && freqs[j].symbol == s
  {
    j :| 0 <= j < |freqs| && freqs[j].symbol == s;
  }

  lemma RarerComesFirst(freqs: seq<SymbolCount>, symbols: seq<nat>, a: nat, b: nat)
    requires IsHistogram(freqs, symbols) && a < |freqs| && b < |freqs|
    requires Rarer(symbols, freqs[a].symbol, freqs[b].symbol)
    ensures a <= b
  {
    assert freqs[a].count < freqs[b].count || (freqs[a].count == freqs[b].count && freqs[a].symbol < freqs[b].symbol);
  }

  lemma ChosenOrder(freqs: seq<SymbolCount>, symbols: seq<nat>, list: seq<SymbolLength>, chosen: seq<nat>)
    requires IsHistogram(freqs, symbols) && Covers(list, symbols) && |chosen| == |freqs|
    requires forall i, j :: 0 <= i <= j < |chosen| ==> chosen[i] >= chosen[j]
    requires forall i, j :: 0 <= i < |list| && 0 <= j < |freqs| && list[i].symbol == freqs[j].symbol ==>
               list[i].length == chosen[j]
    ensures RarerIsLonger(list, symbols)
  {
    hide Rarer, IsHistogram;
    forall i, j | 0 <= i < |list| && 0 <= j < |list| && Rarer(symbols, list[i].symbol, list[j].symbol)
      ensures list[i].length >= list[j].length
    {
      var a := PositionOf(freqs, symbols, list[i].symbol);
      var b := PositionOf(freqs, symbols, list[j].symbol);
      RarerComesFirst(freqs, symbols, a, b);
    }
  }

  // A list that gives every symbol its chosen length keeps all promises.
  lemma ChosenListCorrect(freqs: seq<SymbolCount>, symbols: seq<nat>, list: seq<SymbolLength>, limit: nat)
    requires IsHistogram(freqs, symbols) && Covers(list, symbols)
    requires 2 <= |freqs| <= Pow2(limit)
    requires forall i, j :: 0 <= i < |list| && 0 <= j < |freqs| && list[i].symbol == freqs[j].symbol ==>
               list[i].length == ChosenLengths(freqs, limit)[j]
    ensures forall i :: 0 <= i < |list| ==> 1 <= list[i].length <= limit
    ensures KraftSum(list, limit) == Pow2(limit)
    ensures RarerIsLonger(list, symbols)
    ensures Optimal(list, symbols, limit)
  {
    hide SumOver, KraftTo, CostTo, ChosenLengths, KraftSum, TotalBits, RarerIsLonger;
    var chosen := ChosenLengths(freqs, limit);
    ChosenLengthsCorrect(freqs, limit);
    forall i | 0 <= i < |list| ensures 1 <= list[i].length <= limit {
      var j :| 0 <= j < |freqs| && freqs[j].symbol == list[i].symbol;
    }
    var lens := ByPosition(freqs, symbols, list, limit);
    assert lens == chosen;
    ChosenOrder(freqs, symbols, list, chosen);
    forall other: seq<SymbolLength> | Covers(other, symbols) && Feasible(other, limit)
      ensures TotalBits(symbols, list) <= TotalBits(symbols, other)
    {
      var others := ByPosition(freqs, symbols, other, limit);
      ChosenLengthsCheapest(freqs, limit, others);
    }
  }

  predicate SymbolOrder(a: SymbolLength, b: SymbolLength) {
    a.symbol < b.symbol || (a.symbol == b.symbol && a.length <= b.length)
  }

  // The entries of the count map, sorted by symbol.
  method CollectLengths(counts: map<nat, nat>) returns (lens: seq<SymbolLength>)
    ensures forall i, j :: 0 <= i < j < |lens| ==> lens[i].symbol < lens[j].symbol
    ensures forall i :: 0 <= i < |lens| ==> lens[i].symbol in counts && lens[i].length == counts[lens[i].symbol]
    ensures forall s :: s in counts ==> exists i :: 0 <= i < |lens| && lens[i].symbol == s
    ensures |lens| == |counts|
  {
    var items := set s | s in counts :: SymbolLength(s, counts[s]);
    lens := Sorted(items, SymbolOrder);
    SetContents(lens, items);
    forall s | s in counts ensures SymbolLength(s, counts[s]) in lens {
      assert SymbolLength(s, counts[s]) in items;
    }
    forall e | e in lens ensures e.symbol in counts && e.length == counts[e.symbol] {
      assert e in items;
    }
    SortedLengths(lens, counts);
  }

  lemma SortedLengths(lens: seq<SymbolLength>, counts: map<nat, nat>)
    requires SortedBy(lens, SymbolOrder) && Distinct(lens)
    requires forall e :: e in lens ==> e.symbol in counts && e.length == counts[e.symbol]
    requires forall s :: s in counts ==> SymbolLength(s, counts[s]) in lens
    ensures forall i, j :: 0 <= i < j < |lens| ==> lens[i].symbol < lens[j].symbol
    ensures forall s :: s in counts ==> exists i :: 0 <= i < |lens| && lens[i].symbol == s
    ensures |lens| == |counts|
  {
    forall i, j | 0 <= i < j < |lens| ensures lens[i].symbol < lens[j].symbol {
      assert lens[i] in lens && lens[j] in lens;
      assert SymbolOrder(lens[i], lens[j]);
    }
    var keys := seq(|lens|, i requires 0 <= i < |lens| => lens[i].symbol);
    forall s | s in counts ensures s in keys && exists i :: 0 <= i < |lens| && lens[i].symbol == s {
      var i :| 0 <= i < |lens| && lens[i] == SymbolLength(s, counts[s]);
      assert keys[i] == s;
    }
    DistinctSize(keys, counts.Keys);
  }

  // ---- The whole function ----

  // All rounds of the main loop.
  method AllPackages(freqs: seq<SymbolCount>, limit: nat) returns (r: Option<seq<Package>>)
    ensures r == if freqs != [] && limit > 32 then None else Some(Packages(freqs, limit))
  {
    var list := [];
    for i := 0 to limit
      invariant list == Packages(freqs, i) && (freqs != [] ==> i <= 32)
    {
      var denom := BuildDenomList(freqs, i);
      if denom.None? {
        return None;
      }
      var merged := MergeBy(list, denom.value);
      list := PackagePairs(merged);
    }
    r := Some(list);
  }

  // The counts of the coins in the first n - 1 packages are the chosen lengths.
  lemma CountsAreChosen(freqs: seq<SymbolCount>, limit: nat, j: nat)
    requires SortedCounts(freqs) && 2 <= |freqs| <= Pow2(limit) && j < |freqs|
    ensures |freqs| - 1 <= |Packages(freqs, limit)|
    ensures Prefix(Occurs(freqs[j].symbol), Packages(freqs, limit), |freqs| - 1) == ChosenLengths(freqs, limit)[j]
  {
    hide Merge, Pair, Prefix, Merged, Occurs;
    EnoughPackages(freqs, limit);
    assert limit > 0;
    var n := |freqs| - 1;
    var s := freqs[j].symbol;
    MergedSize(freqs, limit);
    OccursAdds(s);
    PairPrefix(Occurs(s), Merged(freqs, limit - 1), n);
    OccurrencesSelected(freqs, limit - 1, 2 * n, j);
  }

  lemma NoOtherCoins(freqs: seq<SymbolCount>, limit: nat, m: nat, s: nat)
    requires SortedCounts(freqs) && forall j :: 0 <= j < |freqs| ==> freqs[j].symbol != s
    requires m <= |Packages(freqs, limit)|
    ensures Prefix(Occurs(s), Packages(freqs, limit), m) == 0
  {
    hide Merge, Pair, Prefix, Merged, Occurs;
    if limit == 0 {
      PrefixZero(Occurs(s), []);
    } else {
      OccursAdds(s);
      PairPrefix(Occurs(s), Merged(freqs, limit - 1), m);
      NoStrangers(freqs, limit - 1, 2 * m, s);
    }
  }

  // The map holds exactly the symbols of the input, with their chosen lengths.
  lemma CountsComplete(freqs: seq<SymbolCount>, symbols: seq<nat>, limit: nat, counts: map<nat, nat>)
    requires IsHistogram(freqs, symbols) && 2 <= |freqs| <= Pow2(limit)
    requires |freqs| - 1 <= |Packages(freqs, limit)|
    requires forall s :: Prefix(Occurs(s), Packages(freqs, limit), |freqs| - 1) == if s in counts then counts[s] else 0
    requires forall s :: s in counts ==> counts[s] >= 1
    ensures counts.Keys == DistinctSymbols(symbols)
    ensures forall j :: 0 <= j < |freqs| ==>
              freqs[j].symbol in counts && counts[freqs[j].symbol] == ChosenLengths(freqs, limit)[j]
  {
    hide Packages, Prefix, Occurs, ChosenLengths;
    ChosenLengthsCorrect(freqs, limit);
    forall j | 0 <= j < |freqs|
      ensures freqs[j].symbol in counts && counts[freqs[j].symbol] == ChosenLengths(freqs, limit)[j]
    {
      CountsAreChosen(freqs, limit, j);
    }
    forall s | s in counts ensures s in symbols {
      if forall j :: 0 <= j < |freqs| ==> freqs[j].symbol != s {
        NoOtherCoins(freqs, limit, |freqs| - 1, s);
      }
    }
    forall s | s in symbols ensures s in counts {
      var j :| 0 <= j < |freqs| && freqs[j].symbol == s;
    }
  }

  lemma NothingTaken(list: seq<Package>, counts: map<nat, nat>)
    requires forall s :: Prefix(Occurs(s), list, 0) == if s in counts then counts[s] else 0
    requires forall s :: s in counts ==> counts[s] >= 1
    ensures |counts| == 0
  {
    forall s ensures s !in counts {
      PrefixZero(Occurs(s), list);
    }
    assert counts.Keys == {};
  }

  lemma SamePackages(want: nat, have: nat, unit: nat)
    requires unit >= 1 && Min(want, have) * unit == want * unit
    ensures want <= have
  {
    if have < want {
      Scale(have + 1, want, unit);
      Distribute(have, 1, unit);
    }
  }

  // At limit 32 the coins of the last level are among those needed, and their total is never the wanted one.
  lemma SpreadCoinNeeded(freqs: seq<SymbolCount>)
    requires 2 <= |freqs| && (|freqs| - 1) * Pow2(32) < U64
    ensures |freqs| - 1 <= |Packages(freqs, 32)|
    ensures exists i :: 0 <= i < |freqs| - 1 && !Clean(Packages(freqs, 32)[i])
  {
    hide Packages, Pow2;
    Pow64();
    Pow2Add(32, 32);
    FewerPackages(|freqs| - 1, Pow2(32), Pow2(32));
    var p := TopCoin(freqs, 32);
  }

  method BuildLengthLimitedTree(symbols: seq<nat>, limit: nat) returns (r: Result<seq<SymbolLength>, BuildError>)
    ensures |symbols| == 0 ==> r == Ok([])
    ensures |symbols| == 1 ==> r == Ok([SymbolLength(symbols[0], 1)])
    ensures |symbols| >= 2 ==> (r.Ok? <==> limit <= MAX_LIMIT && 2 <= |DistinctSymbols(symbols)| <= Pow2(limit))
    ensures |symbols| >= 2 && limit > 32 ==> r == Err(ShiftOverflow)
    ensures |symbols| >= 2 && limit == 32 && |DistinctSymbols(symbols)| >= 2 ==>
              r == Err(SumOverflow) || r == Err(TooFewPackages)
    ensures |symbols| >= 2 && limit <= 32 && |DistinctSymbols(symbols)| == 1 ==> r == Err(MissingSymbols)
    ensures |symbols| >= 2 && limit <= MAX_LIMIT && |DistinctSymbols(symbols)| > Pow2(limit) ==>
              r == Err(if (|DistinctSymbols(symbols)| - 1) * Pow2(limit) >= U64 then SumOverflow else TooFewPackages)
    ensures |symbols| >= 2 && r.Ok? ==>
              && Covers(r.value, symbols)
              && (forall i :: 0 <= i < |r.value| ==> 1 <= r.value[i].length <= limit)
              && KraftSum(r.value, limit) == Pow2(limit)
              && RarerIsLonger(r.value, symbols)
              && Optimal(r.value, symbols, limit)
  {
    hide Packages, Prefix, Occurs, ChosenLengths, KraftSum, RarerIsLonger, Optimal, Pow2, SortedCounts, Clean, WorthExactly;
    if |symbols| == 0 {
      return Ok([]);
    }
    if |symbols| == 1 {
      return Ok([SymbolLength(symbols[0], 1)]);
    }
    var freqs := Histogram(symbols);
    assert symbols[0] in DistinctSymbols(symbols);
    var packages := AllPackages(freqs, limit);
    if packages.None? {
      return Err(ShiftOverflow);
    }
    var list := packages.value;
    forall i | 0 <= i < |list|
      ensures WorthExactly(list[i], Pow2(limit)) && (limit <= MAX_LIMIT ==> Clean(list[i]))
    {
      PackageWorth(freqs, limit, i);
    }
    var want := |freqs| - 1;
    if limit == 32 && |freqs| >= 2 && want * Pow2(limit) < U64 {
      SpreadCoinNeeded(freqs);
    }
    var taken := TakeCoins(list, Pow2(limit), want);
    EnoughPackages(freqs, limit);
    FitsWord(|freqs|, limit);
    if taken.None? {
      return Err(SumOverflow);
    }
    var (total, counts) := taken.value;
    if total != want * Pow2(limit) {
      return Err(TooFewPackages);
    }
    assert limit <= MAX_LIMIT || |freqs| == 1;
    SamePackages(want, |list|, Pow2(limit));
    var lens := CollectLengths(counts);
    if |freqs| == 1 {
      NothingTaken(list, counts);
    } else {
      CountsComplete(freqs, symbols, limit, counts);
      ChosenListCorrect(freqs, symbols, lens, limit);
    }
    if |lens| != |freqs| {
      return Err(MissingSymbols);
    }
    for i := 0 to |lens| {
      if lens[i].length > limit {
        return Err(LengthTooLarge);
      }
    }
    r := Ok(lens);
  }

  // A feasible input does not overflow the wanted total.
  lemma FitsWord(n: nat, limit: nat)
    requires 1 <= n && limit <= 32
    ensures n == 1 || (n <= Pow2(limit) && limit <= MAX_LIMIT) ==> (n - 1) * Pow2(limit) < U64
  {
    hide Pow2;
    if n <= Pow2(limit) && limit <= MAX_LIMIT {
      Scale(n - 1, Pow2(limit), Pow2(limit));
      Pow2Add(limit, limit);
      Pow2Monotone(limit + limit, 64);
      Pow64();
    }
  }
}
