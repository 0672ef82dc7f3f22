/**
 huffman_canonical_codes_from_lens and code2vec: the canonical code of a list of code
 lengths (section 3.2.2 of RFC 1951).  A length of zero means that the symbol has no code.
 */
module CanonicalCodes {
  import opened Prelude
  import opened BitStrings

  const U64: int := 0x1_0000_0000_0000_0000

  // ---- The codes as numbers ----

  // How many of the first n lengths equal l.
  function CountTo(lens: seq<nat>, l: nat, n: nat): (c: nat)
    requires n <= |lens|
  {
    if n == 0 then 0 else CountTo(lens, l, n - 1) + if lens[n - 1] == l then 1 else 0
  }

  // Number of codes of length l among the first n symbols.
  function CodesOfLength(lens: seq<nat>, n: nat, l: nat): nat
    requires n <= |lens|
  {
    if l == 0 then 0 else CountTo(lens, l, n)
  }

  // The smallest code of length b when only the first n symbols are coded.
  function FirstCode(lens: seq<nat>, n: nat, b: nat): nat
    requires n <= |lens|
  {
    if b == 0 then 0 else 2 * (FirstCode(lens, n, b - 1) + CodesOfLength(lens, n, b - 1))
  }

  // One past the largest code of length b.
  ghost function EndCode(lens: seq<nat>, n: nat, b: nat): nat
    requires n <= |lens|
  {
    FirstCode(lens, n, b) + CodesOfLength(lens, n, b)
  }

  function Code(lens: seq<nat>, i: nat): nat
    requires i < |lens|
  {
    FirstCode(lens, |lens|, lens[i]) + CountTo(lens, lens[i], i)
  }

  ghost predicate Below64(lens: seq<nat>) {
    forall i :: 0 <= i < |lens| ==> lens[i] < 64
  }

  // The Kraft sum of the coded symbols, scaled by 2^64.
  ghost function Kraft(lens: seq<nat>, n: nat): nat
    requires n <= |lens| && Below64(lens)
  {
    if n == 0 then 0
    else Kraft(lens, n - 1) + if lens[n - 1] == 0 then 0 else Pow2(64 - lens[n - 1])
  }

  ghost predicate KraftValid(lens: seq<nat>)
    requires Below64(lens)
  {
    Kraft(lens, |lens|) <= Pow2(64)
  }

  // ---- The Kraft sum is the end of the code space ----

  lemma {:induction false} EndCodeGrows(lens: seq<nat>, n: nat, b: nat)
    requires 0 < n <= |lens|
    ensures FirstCode(lens, n, b) == FirstCode(lens, n - 1, b)
              + if 0 < lens[n - 1] < b then Pow2(b - lens[n - 1]) else 0
    ensures EndCode(lens, n, b) == EndCode(lens, n - 1, b)
              + if 0 < lens[n - 1] <= b then Pow2(b - lens[n - 1]) else 0
  {
    if b > 0 {
      EndCodeGrows(lens, n, b - 1);
    }
  }

  lemma {:induction false} EndCodeEmpty(lens: seq<nat>, b: nat)
    ensures EndCode(lens, 0, b) == 0
  {
    if b > 0 {
      EndCodeEmpty(lens, b - 1);
    }
  }

  lemma {:induction false} KraftIsEndCode(lens: seq<nat>, n: nat)
    requires n <= |lens| && Below64(lens)
    ensures Kraft(lens, n) == EndCode(lens, n, 64)
  {
    if n == 0 {
      EndCodeEmpty(lens, 64);
    } else {
      KraftIsEndCode(lens, n - 1);
      EndCodeGrows(lens, n, 64);
    }
  }

  // ---- The codes in their order ----

  // Shorter codes come first, and codes of one length in the order of their symbols.
  predicate Precedes(lens: seq<nat>, k: nat, i: nat)
    requires k < |lens| && i < |lens|
  {
    0 < lens[k] && (lens[k] < lens[i] || (lens[k] == lens[i] && k < i))
  }

  // The code space taken by those of the first n symbols that precede symbol i.
  ghost function SpaceBefore(lens: seq<nat>, i: nat, n: nat): nat
    requires i < |lens| && n <= |lens|
  {
    if n == 0 then 0
    else SpaceBefore(lens, i, n - 1) + if Precedes(lens, n - 1, i) then Pow2(lens[i] - lens[n - 1]) else 0
  }

  lemma {:induction false} SpaceBeforeTo(lens: seq<nat>, i: nat, n: nat)
    requires i < |lens| && n <= |lens| && lens[i] > 0
    ensures SpaceBefore(lens, i, n) == FirstCode(lens, n, lens[i]) + CountTo(lens, lens[i], Min(n, i))
  {
    if n == 0 {
      EndCodeEmpty(lens, lens[i]);
    } else {
      SpaceBeforeTo(lens, i, n - 1);
      EndCodeGrows(lens, n, lens[i]);
      hide FirstCode;
      Pow2Step(0);
    }
  }

  // The rules of section 3.2.2 of RFC 1951: a code starts where the codes that precede it end.
  lemma CodeStartsAfter(lens: seq<nat>, i: nat)
    requires i < |lens| && lens[i] > 0
    ensures Code(lens, i) == SpaceBefore(lens, i, |lens|)
  {
    SpaceBeforeTo(lens, i, |lens|);
  }

  // The space taken at one length is taken twice over at the next.
  lemma {:induction false} EndCodeDoubles(lens: seq<nat>, n: nat, b: nat, c: nat)
    requires n <= |lens| && b <= c
    ensures EndCode(lens, n, b) * Pow2(c - b) <= EndCode(lens, n, c)
    ensures b < c ==> EndCode(lens, n, b) * Pow2(c - b) <= FirstCode(lens, n, c)
  {
    hide EndCode, FirstCode, Pow2;
    if b < c {
      EndCodeDoubles(lens, n, b, c - 1);
      EndCodeStep(lens, n, c);
      TwiceProduct(EndCode(lens, n, b), Pow2(c - 1 - b), EndCode(lens, n, c - 1));
      Pow2Step(c - b);
    } else {
      Pow2Step(0);
    }
  }

  lemma EndCodeStep(lens: seq<nat>, n: nat, c: nat)
    requires n <= |lens| && c > 0
    ensures 2 * EndCode(lens, n, c - 1) == FirstCode(lens, n, c) <= EndCode(lens, n, c)
  {
  }

  lemma TwiceProduct(e: nat, p: nat, x: nat)
    requires e * p <= x
    ensures e * (2 * p) <= 2 * x
  {
    assert e * (2 * p) == 2 * (e * p);
  }

  lemma {:induction false} ValidAtEveryLength(lens: seq<nat>, b: nat)
    requires Below64(lens) && KraftValid(lens) && b <= 64
    ensures EndCode(lens, |lens|, b) <= Pow2(b)
  {
    hide EndCode, Kraft, Pow2;
    var e := EndCode(lens, |lens|, b);
    KraftIsEndCode(lens, |lens|);
    EndCodeDoubles(lens, |lens|, b, 64);
    Pow2Add(b, 64 - b);
    if e > Pow2(b) {
      Scale(Pow2(b) + 1, e, Pow2(64 - b));
      Distribute(Pow2(b), 1, Pow2(64 - b));
    }
  }

  // The shortest length at which the code space overflows.
  lemma {:induction false} FirstOverflow(lens: seq<nat>, m: nat) returns (b: nat)
    requires EndCode(lens, |lens|, m) > Pow2(m)
    ensures 0 < b <= m
    ensures FirstCode(lens, |lens|, b) <= Pow2(b) < EndCode(lens, |lens|, b)
  {
    if EndCode(lens, |lens|, m - 1) > Pow2(m - 1) {
      b := FirstOverflow(lens, m - 1);
    } else {
      b := m;
    }
  }

  lemma {:induction false} SymbolOfRank(lens: seq<nat>, l: nat, r: nat, n: nat) returns (i: nat)
    requires n <= |lens| && r < CountTo(lens, l, n)
    ensures i < n && lens[i] == l && CountTo(lens, l, i) == r
  {
    if lens[n - 1] == l && CountTo(lens, l, n - 1) == r {
      i := n - 1;
    } else {
      i := SymbolOfRank(lens, l, r, n - 1);
    }
  }

  lemma {:induction false} RankBelowCount(lens: seq<nat>, i: nat, n: nat)
    requires i < n <= |lens|
    ensures CountTo(lens, lens[i], i) < CountTo(lens, lens[i], n)
  {
    if i < n - 1 {
      RankBelowCount(lens, i, n - 1);
    }
  }

  // ---- Which codes fit, in 64-bit arithmetic ----

  // The code as computed with numbers that wrap around at 2^64.
  function WrappedCode(lens: seq<nat>, i: nat): nat
    requires i < |lens|
  {
    Code(lens, i) % U64
  }

  ghost predicate AllFit(lens: seq<nat>) {
    forall i :: 0 <= i < |lens| && lens[i] != 0 ==> WrappedCode(lens, i) < Pow2(lens[i])
  }

  lemma CodeFits(lens: seq<nat>, i: nat)
    requires Below64(lens) && KraftValid(lens) && i < |lens| && lens[i] != 0
    ensures Code(lens, i) < EndCode(lens, |lens|, lens[i]) <= Pow2(lens[i])
    ensures WrappedCode(lens, i) == Code(lens, i)
  {
    hide FirstCode, CountTo, Kraft, Pow2;
    ValidAtEveryLength(lens, lens[i]);
    RankBelowCount(lens, i, |lens|);
    Pow64();
    Pow2Monotone(lens[i], 64);
  }

  // Wrap-around never hides an overfull code: the first code past the end of its
  // length is still below 2^64.
  lemma FitExactlyWhenKraftValid(lens: seq<nat>)
    requires Below64(lens)
    ensures AllFit(lens) <==> KraftValid(lens)
  {
    hide FirstCode, CountTo, Kraft, Pow2;
    if KraftValid(lens) {
      forall i | 0 <= i < |lens| && lens[i] != 0 ensures WrappedCode(lens, i) < Pow2(lens[i]) {
        CodeFits(lens, i);
      }
    } else {
      KraftIsEndCode(lens, |lens|);
      var b := FirstOverflow(lens, 64);
      var i := SymbolOfRank(lens, b, Pow2(b) - FirstCode(lens, |lens|, b), |lens|);
      Pow64();
      Pow2Monotone(b, 64);
      assert lens[i] == b < 64;
      Pow2Monotone(b + 1, 64);
      Pow2Monotone(b, b + 1);
      assert WrappedCode(lens, i) == Pow2(b);
    }
  }

  // ---- Codes as bit strings ----

  ghost function CodeOf(lens: seq<nat>, i: nat): seq<Bit>
    requires i < |lens|
  {
    CodeBits(Code(lens, i), lens[i])
  }

  // No code is the beginning of another one.
  lemma CodesPrefixFree(lens: seq<nat>, i: nat, j: nat)
    requires Below64(lens) && KraftValid(lens)
    requires i < |lens| && j < |lens| && i != j && lens[i] != 0 && lens[j] != 0
    ensures !(CodeOf(lens, i) <= CodeOf(lens, j))
  {
    hide Kraft, Pow2, FirstCode, CountTo, CodeBits;
    CodeFits(lens, i);
    CodeFits(lens, j);
    var a, b := Code(lens, i), Code(lens, j);
    if CodeOf(lens, i) <= CodeOf(lens, j) {
      var d := lens[j] - lens[i];
      CodeBitsPrefix(b, lens[j], lens[i]);
      Pow2Add(lens[i], d);
      DivBelow(b, Pow2(lens[i]), Pow2(d));
      CodeBitsInjective(a, b / Pow2(d), lens[i]);
      if d > 0 {
        EndCodeDoubles(lens, |lens|, lens[i], lens[j]);
        Scale(a + 1, EndCode(lens, |lens|, lens[i]), Pow2(d));
        DivAtLeast(b, a + 1, Pow2(d));
      } else {
        SameLengthCodes(lens, i, j);
        Pow2Step(0);
      }
    }
  }

  lemma SameLengthCodes(lens: seq<nat>, i: nat, j: nat)
    requires i < |lens| && j < |lens| && i != j && lens[i] == lens[j]
    ensures Code(lens, i) != Code(lens, j)
  {
    if i < j {
      RankBelowCount(lens, i, j);
    } else {
      RankBelowCount(lens, j, i);
    }
  }

  // ---- The source's loops ----

  datatype Entry = Entry(symbol: nat, bits: seq<Bit>)

  // The coded symbols among the first n, in order, with their codes.
  ghost function Entries(lens: seq<nat>, n: nat): seq<Entry>
    requires n <= |lens|
  {
    if n == 0 then []
    else if lens[n - 1] == 0 then Entries(lens, n - 1)
    else Entries(lens, n - 1) + [Entry(n - 1, CodeOf(lens, n - 1))]
  }

  ghost predicate PrefixFree(codes: seq<Entry>) {
    forall a, b :: 0 <= a < |codes| && 0 <= b < |codes| && a != b ==> !(codes[a].bits <= codes[b].bits)
  }

  lemma FitsWhenShiftedOut(code: nat, p: nat)
    requires p > 0
    ensures code / p == 0 <==> code < p
  {
    if code < p {
      DivBelow(code, 1, p);
    } else {
      DivAtLeast(code, 1, p);
    }
  }

  // code2vec: the bits of a code, or None when its assertion fails.
  method CodeToVec(code: nat, len: nat) returns (r: Option<seq<Bit>>)
    ensures r == if code < Pow2(len) then Some(CodeBits(code, len)) else None
  {
    hide CodeBits, Pow2;
    var v: seq<Bit> := [];
    var i := len;
    while i > 0
      invariant 0 <= i <= len && |v| == len - i
      invariant v == CodeBits(code, len)[..len - i]
    {
      i := i - 1;
      CodeBitsAt(code, len, len - 1 - i);
      v := v + [(code / Pow2(i)) % 2];
    }
    assert CodeBits(code, len)[..len] == CodeBits(code, len);
    FitsWhenShiftedOut(code, Pow2(len));
    if code / Pow2(len) != 0 {
      return None;
    }
    r := Some(v);
  }

  method MaxLength(lens: seq<nat>) returns (m: nat)
    ensures forall i :: 0 <= i < |lens| ==> lens[i] <= m
    ensures m == 0 || m in lens
  {
    m := 0;
    for i := 0 to |lens|
      invariant forall j :: 0 <= j < i ==> lens[j] <= m
      invariant m == 0 || m in lens
    {
      if m < lens[i] {
        m := lens[i];
      }
    }
  }

  // The next code of length b after the first n symbols, in wrap-around arithmetic.
  ghost function NextCode(lens: seq<nat>, b: nat, n: nat): nat
    requires n <= |lens|
  {
    (FirstCode(lens, |lens|, b) + CountTo(lens, b, n)) % U64
  }

  lemma {:induction false} WrapMultiple(x: nat, k: nat)
    ensures (x + k * U64) % U64 == x % U64
  {
    if k > 0 {
      WrapMultiple(x, k - 1);
      assert x + k * U64 == (x + (k - 1) * U64) + U64;
    }
  }

  lemma NextCodeStart(lens: seq<nat>, b: nat)
    ensures b > 0 ==>
      NextCode(lens, b, 0) == (2 * (NextCode(lens, b - 1, 0) + CodesOfLength(lens, |lens|, b - 1))) % U64
    ensures b == 0 ==> NextCode(lens, b, 0) == 0
  {
    if b > 0 {
      var a, c := FirstCode(lens, |lens|, b - 1), CodesOfLength(lens, |lens|, b - 1);
      WrapMultiple(2 * (a % U64 + c), 2 * (a / U64));
      assert 2 * (a + c) == 2 * (a % U64 + c) + (2 * (a / U64)) * U64;
    }
  }

  lemma NextCodeStep(lens: seq<nat>, b: nat, i: nat)
    requires i < |lens|
    ensures NextCode(lens, b, i + 1)
         == if lens[i] == b then (NextCode(lens, b, i) + 1) % U64 else NextCode(lens, b, i)
  {
    var a := FirstCode(lens, |lens|, b) + CountTo(lens, b, i);
    WrapMultiple(a % U64 + 1, a / U64);
  }

  // How many symbols there are of each length; zero lengths do not count.
  method CountLengths(lens: seq<nat>, max: nat) returns (count: array<nat>)
    requires forall i :: 0 <= i < |lens| ==> lens[i] <= max
    ensures fresh(count) && count.Length == max + 1
    ensures forall l :: 0 <= l <= max ==> count[l] == CodesOfLength(lens, |lens|, l)
  {
    count := new nat[max + 1](_ => 0);
    for i := 0 to |lens|
      invariant forall l :: 0 <= l <= max ==> count[l] == CountTo(lens, l, i)
    {
      count[lens[i]] := count[lens[i]] + 1;
    }
    count[0] := 0;
  }

  // The smallest code of every length.
  method FirstCodes(lens: seq<nat>, max: nat) returns (next: array<nat>)
    requires forall i :: 0 <= i < |lens| ==> lens[i] <= max
    ensures fresh(next) && next.Length == max + 1
    ensures forall b :: 0 <= b <= max ==> next[b] == NextCode(lens, b, 0)
  {
    hide NextCode, CodesOfLength;
    var count := CountLengths(lens, max);
    next := new nat[max + 1](_ => 0);
    var code := 0;
    NextCodeStart(lens, 0);
    for b := 1 to max + 1
      invariant code == NextCode(lens, b - 1, 0)
      invariant forall l :: 0 <= l < b ==> next[l] == NextCode(lens, l, 0)
      invariant forall l :: 0 <= l <= max ==> count[l] == CodesOfLength(lens, |lens|, l)
    {
      NextCodeStart(lens, b);
      code := (2 * (code + count[b - 1])) % U64;
      next[b] := code;
    }
  }

  // Codes for all symbols, or None when a code does not fit its length.
  method CanonicalCodesFromLens(lens: seq<nat>) returns (r: Option<seq<Entry>>)
    requires Below64(lens)
    ensures r.Some? <==> KraftValid(lens)
    ensures r.Some? ==> r.value == Entries(lens, |lens|) && PrefixFree(r.value)
  {
    hide NextCode, CodeBits, Kraft, Pow2, FirstCode, CountTo, PrefixFree;
    var max := MaxLength(lens);
    var next := FirstCodes(lens, max);
    var out: seq<Entry> := [];
    for i := 0 to |lens|
      invariant forall b :: 0 < b <= max ==> next[b] == NextCode(lens, b, i)
      invariant forall j :: 0 <= j < i && lens[j] != 0 ==> WrappedCode(lens, j) < Pow2(lens[j])
      invariant KraftValid(lens) ==> out == Entries(lens, i)
    {
      var len := lens[i];
      forall b | 0 < b <= max
        ensures NextCode(lens, b, i + 1) == if len == b then (NextCode(lens, b, i) + 1) % U64 else NextCode(lens, b, i)
      {
        NextCodeStep(lens, b, i);
      }
      if len != 0 {
        var code := next[len];
        assert code == WrappedCode(lens, i) by { NextCodeIsCode(lens, i); }
        next[len] := (next[len] + 1) % U64;
        var v := CodeToVec(code, len);
        if v.None? {
          FitExactlyWhenKraftValid(lens);
          return None;
        }
        if KraftValid(lens) {
          CodeFits(lens, i);
        }
        out := out + [Entry(i, v.value)];
      }
    }
    FitExactlyWhenKraftValid(lens);
    EntriesPrefixFree(lens, |lens|);
    r := Some(out);
  }

  lemma NextCodeIsCode(lens: seq<nat>, i: nat)
    requires i < |lens|
    ensures NextCode(lens, lens[i], i) == WrappedCode(lens, i)
  {
  }

  lemma {:induction false} EntriesMembers(lens: seq<nat>, n: nat)
    requires n <= |lens|
    ensures forall a :: 0 <= a < |Entries(lens, n)| ==>
              var e := Entries(lens, n)[a];
              e.symbol < n && lens[e.symbol] != 0 && e.bits == CodeOf(lens, e.symbol)
    ensures forall a, b :: 0 <= a < b < |Entries(lens, n)| ==> Entries(lens, n)[a].symbol < Entries(lens, n)[b].symbol
    ensures forall i :: 0 <= i < n && lens[i] != 0 ==> Entry(i, CodeOf(lens, i)) in Entries(lens, n)
  {
    if n > 0 {
      EntriesMembers(lens, n - 1);
    }
  }

  lemma EntriesPrefixFree(lens: seq<nat>, n: nat)
    requires Below64(lens) && KraftValid(lens) && n <= |lens|
    ensures PrefixFree(Entries(lens, n))
  {
    var codes := Entries(lens, n);
    EntriesMembers(lens, n);
    forall a, b | 0 <= a < |codes| && 0 <= b < |codes| && a != b ensures !(codes[a].bits <= codes[b].bits) {
      CodesPrefixFree(lens, codes[a].symbol, codes[b].symbol);
    }
  }
}
