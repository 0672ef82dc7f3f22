/**
 Encoder, decoder and the whole way round: lengths, canonical codes, bit writer, bytes,
 bit reader, tree, and back to the symbols.
 */
module HuffmanCodec {
  import opened Prelude
  import opened BitStrings
  import opened BitIo
  import opened CanonicalCodes
  import Tree = HuffmanTree
  import LengthLimited
  import LengthLimitedBuild

  // ---- Encoder ----

  class HuffmanEncoder {
    var codes: map<nat, seq<Bit>>

    constructor (codelist: seq<Entry>)
      requires forall a, b :: 0 <= a < b < |codelist| ==> codelist[a].symbol < codelist[b].symbol
      ensures forall s, v :: s in codes && codes[s] == v <==> Entry(s, v) in codelist
    {
      var m: map<nat, seq<Bit>> := map[];
      for i := 0 to |codelist|
        invariant forall s, v :: s in m && m[s] == v <==> Entry(s, v) in codelist[..i]
      {
        assert codelist[..i + 1] == codelist[..i] + [codelist[i]];
        m := m[codelist[i].symbol := codelist[i].bits];
      }
      assert codelist[..|codelist|] == codelist;
      codes := m;
    }

    method WriteSymbol(symbol: nat, writer: BitWriter) returns (ok: bool)
      requires writer.Valid()
      modifies writer
      ensures writer.Valid() && ok == (symbol in codes)
      ensures writer.Written() == old(writer.Written()) + if ok then codes[symbol] else []
    {
      if symbol !in codes {
        return false;
      }
      writer.WriteBitVec(codes[symbol]);
      ok := true;
    }
  }

  // ---- Decoder ----

  // The tree holds exactly the codes of the list.
  ghost predicate HoldsExactly(tree: Tree.HuffmanTree, codes: seq<Entry>)
    reads tree
  {
    forall c, x :: tree.Holds(c, x) <==> Entry(x, c) in codes
  }

  // HuffmanTree::from_canonical_lens; None when a code does not fit its length.
  method TreeFromCanonicalLens(lens: seq<nat>) returns (r: Option<Tree.HuffmanTree>)
    requires Below64(lens)
    ensures r.Some? <==> KraftValid(lens)
    ensures r.Some? ==> fresh(r.value) && r.value.Valid() && HoldsExactly(r.value, Entries(lens, |lens|))
  {
    var codes := CanonicalCodesFromLens(lens);
    if codes.None? {
      return None;
    }
    var list := codes.value;
    EntriesMembers(lens, |lens|);
    var tree := new Tree.HuffmanTree();
    for i := 0 to |list|
      invariant tree.Valid() && HoldsExactly(tree, list[..i])
    {
      assert list[..i + 1] == list[..i] + [list[i]];
      assert list[i].bits != [];
      var ok := tree.Insert(list[i].symbol, list[i].bits);
      assert ok.Ok?;
    }
    assert list[..|list|] == list;
    r := Some(tree);
  }

  // ---- Round trip ----

  ghost predicate Coded(lens: seq<nat>, message: seq<nat>) {
    forall k :: 0 <= k < |message| ==> message[k] < |lens| && lens[message[k]] != 0
  }

  // The codes of the symbols of a message, one after the other.
  ghost function Encoded(lens: seq<nat>, message: seq<nat>): seq<Bit>
    requires Coded(lens, message)
  {
    if message == [] then [] else CodeOf(lens, message[0]) + Encoded(lens, message[1..])
  }

  lemma EncodedNext(lens: seq<nat>, message: seq<nat>, k: nat, tail: seq<Bit>)
    requires Coded(lens, message) && k < |message|
    ensures Encoded(lens, message[k..]) + tail == CodeOf(lens, message[k]) + (Encoded(lens, message[k + 1..]) + tail)
  {
    hide CodeOf;
    assert message[k..][0] == message[k] && message[k..][1..] == message[k + 1..];
  }

  lemma {:induction false} EncodedSnoc(lens: seq<nat>, message: seq<nat>, s: nat)
    requires Coded(lens, message) && s < |lens| && lens[s] != 0
    ensures Coded(lens, message + [s])
    ensures Encoded(lens, message + [s]) == Encoded(lens, message) + CodeOf(lens, s)
  {
    hide CodeOf;
    if message == [] {
      assert message + [s] == [s] && [s][1..] == [];
    } else {
      assert (message + [s])[1..] == message[1..] + [s];
      EncodedSnoc(lens, message[1..], s);
    }
  }

  method Encode(encoder: HuffmanEncoder, order: BitOrder, ghost lens: seq<nat>, message: seq<nat>)
    returns (bytes: seq<Byte>)
    requires Coded(lens, message)
    requires forall s, v :: s in encoder.codes && encoder.codes[s] == v <==> Entry(s, v) in Entries(lens, |lens|)
    ensures exists z :: 0 <= z < 8 && BitsIn(bytes, order) == Encoded(lens, message) + Zeros(z)
  {
    hide CodeOf, BitsIn;
    EntriesMembers(lens, |lens|);
    var writer := new BitWriter(order);
    for k := 0 to |message|
      invariant writer.Valid() && writer.Written() == Encoded(lens, message[..k])
    {
      var s := message[k];
      assert message[..k + 1] == message[..k] + [s];
      EncodedSnoc(lens, message[..k], s);
      assert Entry(s, CodeOf(lens, s)) in Entries(lens, |lens|);
      var ok := encoder.WriteSymbol(s, writer);
    }
    assert message[..|message|] == message;
    writer.Finish();
    bytes := writer.out;
  }

  // Reads one symbol whose code is next in the stream.
  method DecodeSymbol(tree: Tree.HuffmanTree, reader: BitReader, ghost code: seq<Bit>, ghost s: nat, ghost rest: seq<Bit>)
    returns (r: Option<nat>)
    requires tree.Valid() && tree.Holds(code, s) && code != []
    requires reader.Valid() && reader.Unread() == code + rest
    modifies reader, reader.buffer
    ensures reader.Valid() && r == Some(s) && reader.Unread() == rest
  {
    hide BitsIn, Tree.Full, Tree.StopsAtOnce;
    ghost var u := reader.Unread();
    Tree.CodeAnswers(tree.root, u, code, s, rest);
    var c := tree.ReadCode(reader);
    reader.Consume();
    r := if c.Ok? then Some(c.value) else None;
  }

  lemma HeldCode(tree: Tree.HuffmanTree, lens: seq<nat>, s: nat)
    requires HoldsExactly(tree, Entries(lens, |lens|)) && s < |lens| && lens[s] != 0
    ensures tree.Holds(CodeOf(lens, s), s) && CodeOf(lens, s) != []
  {
    EntriesMembers(lens, |lens|);
  }

  // Reads count symbols.
  method Decode(tree: Tree.HuffmanTree, bytes: seq<Byte>, order: BitOrder, count: nat, ghost lens: seq<nat>,
    ghost message: seq<nat>, ghost tail: seq<Bit>) returns (r: Option<seq<nat>>)
    requires tree.Valid() && HoldsExactly(tree, Entries(lens, |lens|))
    requires Coded(lens, message) && count == |message|
    requires BitsIn(bytes, order) == Encoded(lens, message) + tail
    ensures r == Some(message)
  {
    hide BitsIn, CodeOf, Entries, HoldsExactly, ZeroFrom, Tree.HasCode, Tree.Full, Encoded;
    assert message[0..] == message;
    var reader := new BitReader(bytes, order);
    var out: seq<nat> := [];
    for k := 0 to count
      invariant reader.Valid() && fresh(reader) && fresh(reader.buffer) && out == message[..k]
      invariant reader.Unread() == Encoded(lens, message[k..]) + tail
    {
      ghost var s := message[k];
      ghost var rest := Encoded(lens, message[k + 1..]) + tail;
      EncodedNext(lens, message, k, tail);
      HeldCode(tree, lens, s);
      var c := DecodeSymbol(tree, reader, CodeOf(lens, s), s, rest);
      out := out + [c.value];
    }
    assert message[..count] == message;
    r := Some(out);
  }

  // Every message over the coded symbols survives encoding and decoding, in either bit order.
  method EncodeThenDecode(lens: seq<nat>, message: seq<nat>, order: BitOrder) returns (r: Option<seq<nat>>)
    requires Below64(lens) && KraftValid(lens) && Coded(lens, message)
    ensures r == Some(message)
  {
    var codelist := CanonicalCodesFromLens(lens);
    EntriesMembers(lens, |lens|);
    var encoder := new HuffmanEncoder(codelist.value);
    var bytes := Encode(encoder, order, lens, message);
    var tree := TreeFromCanonicalLens(lens);
    ghost var z :| 0 <= z < 8 && BitsIn(bytes, order) == Encoded(lens, message) + Zeros(z);
    r := Decode(tree.value, bytes, order, |message|, lens, message, Zeros(z));
  }

  // ---- From a message to its own code ----

  ghost function Share64(): LengthLimited.SymbolLength -> int {
    (e: LengthLimited.SymbolLength) => if e.length == 0 || e.length > 64 then 0 else Pow2(64 - e.length)
  }

  lemma {:induction false} KraftGrows(a: seq<nat>, b: seq<nat>, n: nat)
    requires n <= |a| <= |b| && Below64(a) && Below64(b) && forall i :: 0 <= i < |a| ==> a[i] == b[i]
    ensures Kraft(a, n) == Kraft(b, n)
  {
    if n > 0 {
      KraftGrows(a, b, n - 1);
    }
  }

  lemma {:induction false} KraftPadded(a: seq<nat>, n: nat)
    requires n <= |a| && Below64(a) && forall i :: n <= i < |a| ==> a[i] == 0
    ensures Kraft(a, |a|) == Kraft(a, n)
    decreases |a| - n
  {
    if n < |a| {
      KraftPadded(a, n + 1);
    }
  }

  // Appending zeros up to symbol s and then its length.
  lemma KraftExtended(a: seq<nat>, b: seq<nat>, l: nat)
    requires Below64(a) && l < 64 && a <= b && forall i :: |a| <= i < |b| ==> b[i] == 0
    ensures Below64(b) && Below64(b + [l])
    ensures Kraft(b + [l], |b| + 1) == Kraft(a, |a|) + if l == 0 then 0 else Pow2(64 - l)
  {
    hide Pow2;
    KraftGrows(a, b, |a|);
    KraftPadded(b, |a|);
    KraftGrows(b, b + [l], |b|);
  }

  // dense_symbol_lengths: the length of every symbol up to the largest one.
  method DenseSymbolLengths(list: seq<LengthLimited.SymbolLength>) returns (out: seq<nat>)
    requires forall i, j :: 0 <= i < j < |list| ==> list[i].symbol < list[j].symbol
    requires forall i :: 0 <= i < |list| ==> list[i].length < 64
    ensures forall i :: 0 <= i < |list| ==> list[i].symbol < |out| && out[list[i].symbol] == list[i].length
    ensures forall s :: 0 <= s < |out| && out[s] != 0 ==> exists i :: 0 <= i < |list| && list[i].symbol == s
    ensures Below64(out) && Kraft(out, |out|) == SumOver(list, Share64())
  {
    hide Kraft, SumOver, Pow2;
    out := [];
    NothingToSum();
    for k := 0 to |list|
      invariant Below64(out)
      invariant |out| == if k == 0 then 0 else list[k - 1].symbol + 1
      invariant forall i :: 0 <= i < k ==> list[i].symbol < |out| && out[list[i].symbol] == list[i].length
      invariant forall s :: 0 <= s < |out| && out[s] != 0 ==> exists i :: 0 <= i < k && list[i].symbol == s
      invariant Kraft(out, |out|) == SumOver(list[..k], Share64())
    {
      var v := list[k];
      var padded := out + seq(v.symbol - |out|, _ => 0);
      KraftExtended(out, padded, v.length);
      assert list[..k + 1] == list[..k] + [v];
      SumOverConcat(list[..k], [v], Share64());
      LengthLimitedBuild.SumOverOne(v, Share64());
      out := padded + [v.length];
    }
    assert list[..|list|] == list;
  }

  lemma NothingToSum()
    ensures Kraft([], 0) == 0 == SumOver([], Share64())
  {
  }

  // Lengths with a Kraft sum of one at the limit are valid for canonical codes.
  lemma {:induction false} KraftRescaled(list: seq<LengthLimited.SymbolLength>, limit: nat)
    requires limit <= 64 && forall i :: 0 <= i < |list| ==> 1 <= list[i].length <= limit
    ensures SumOver(list, Share64()) == LengthLimited.KraftSum(list, limit) * Pow2(64 - limit)
  {
    if list != [] {
      KraftRescaled(list[1..], limit);
      Pow2Add(limit - list[0].length, 64 - limit);
      Distribute(LengthLimited.Share(limit)(list[0]), LengthLimited.KraftSum(list[1..], limit), Pow2(64 - limit));
    }
  }

  // Builds the code of a message and sends the message through it.
  method CompressAndBack(symbols: seq<nat>, limit: nat, order: BitOrder) returns (r: Option<seq<nat>>)
    ensures r.Some? <==>
              || |symbols| < 2
              || (limit <= LengthLimited.MAX_LIMIT && 2 <= |LengthLimited.DistinctSymbols(symbols)| <= Pow2(limit))
    ensures r.Some? ==> r.value == symbols
  {
    hide Pow2, SumOver, LengthLimited.Optimal, LengthLimited.RarerIsLonger, Kraft, LengthLimited.KraftSum;
    var built := LengthLimitedBuild.BuildLengthLimitedTree(symbols, limit);
    if built.Err? {
      return None;
    }
    var dense := DenseSymbolLengths(built.value);
    if |symbols| >= 2 {
      KraftRescaled(built.value, limit);
      Pow2Add(limit, 64 - limit);
      CoveredIsCoded(built.value, symbols, dense);
    } else {
      ShortMessage(symbols, built.value, dense);
    }
    r := EncodeThenDecode(dense, symbols, order);
  }

  lemma CoveredIsCoded(list: seq<LengthLimited.SymbolLength>, symbols: seq<nat>, dense: seq<nat>)
    requires LengthLimited.Covers(list, symbols)
    requires forall i :: 0 <= i < |list| ==>
               list[i].length >= 1 && list[i].symbol < |dense| && dense[list[i].symbol] == list[i].length
    ensures Coded(dense, symbols)
  {
    forall k | 0 <= k < |symbols| ensures symbols[k] < |dense| && dense[symbols[k]] != 0 {
      assert symbols[k] in symbols;
      var i :| 0 <= i < |list| && list[i].symbol == symbols[k];
    }
  }

  lemma ShortMessage(symbols: seq<nat>, list: seq<LengthLimited.SymbolLength>, dense: seq<nat>)
    requires |symbols| < 2
    requires list == if symbols == [] then [] else [LengthLimited.SymbolLength(symbols[0], 1)]
    requires forall i :: 0 <= i < |list| ==> list[i].symbol < |dense| && dense[list[i].symbol] == list[i].length
    ensures SumOver(list, Share64()) <= Pow2(64)
    ensures Coded(dense, symbols)
  {
    if symbols != [] {
      assert list[1..] == [] && list[0].symbol == symbols[0];
    }
  }

  // ---- The number of bits written is the cost that was minimised ----

  ghost function SingleBits(list: seq<LengthLimited.SymbolLength>, s: nat): int {
    SumOver(list, LengthLimited.BitsOf([s]))
  }

  lemma {:induction false} TotalBitsSnoc(list: seq<LengthLimited.SymbolLength>, message: seq<nat>, s: nat)
    ensures LengthLimited.TotalBits(message + [s], list) == LengthLimited.TotalBits(message, list) + SingleBits(list, s)
  {
    if list != [] {
      TotalBitsSnoc(list[1..], message, s);
      var e := list[0];
      var a, b := multiset(message)[e.symbol], multiset([s])[e.symbol];
      assert multiset(message + [s])[e.symbol] == a + b;
      Distribute(a, b, e.length);
    }
  }

  lemma {:induction false} SingleBitsIsLength(list: seq<LengthLimited.SymbolLength>, i: nat)
    requires i < |list| && forall a, b :: 0 <= a < b < |list| ==> list[a].symbol < list[b].symbol
    ensures SingleBits(list, list[i].symbol) == list[i].length
  {
    var s := list[i].symbol;
    assert multiset([s])[s] == 1;
    if i == 0 {
      SingleBitsAbsent(list[1..], s);
    } else {
      assert list[0].symbol != s;
      SingleBitsIsLength(list[1..], i - 1);
    }
  }

  lemma {:induction false} SingleBitsAbsent(list: seq<LengthLimited.SymbolLength>, s: nat)
    requires forall a :: 0 <= a < |list| ==> list[a].symbol != s
    ensures SingleBits(list, s) == 0
  {
    if list != [] {
      SingleBitsAbsent(list[1..], s);
    }
  }

  lemma {:induction false} EncodedSize(list: seq<LengthLimited.SymbolLength>, lens: seq<nat>, message: seq<nat>)
    requires forall a, b :: 0 <= a < b < |list| ==> list[a].symbol < list[b].symbol
    requires forall i :: 0 <= i < |list| ==> list[i].symbol < |lens| && lens[list[i].symbol] == list[i].length
    requires forall s :: 0 <= s < |lens| && lens[s] != 0 ==> exists i :: 0 <= i < |list| && list[i].symbol == s
    requires Coded(lens, message)
    ensures |Encoded(lens, message)| == LengthLimited.TotalBits(message, list)
  {
    if message == [] {
      NoBits(list);
    } else {
      var n := |message| - 1;
      var s := message[n];
      EncodedSize(list, lens, message[..n]);
      assert message == message[..n] + [s];
      EncodedSnoc(lens, message[..n], s);
      TotalBitsSnoc(list, message[..n], s);
      var i :| 0 <= i < |list| && list[i].symbol == s;
      SingleBitsIsLength(list, i);
    }
  }

  lemma {:induction false} NoBits(list: seq<LengthLimited.SymbolLength>)
    ensures LengthLimited.TotalBits([], list) == 0
  {
    if list != [] {
      NoBits(list[1..]);
    }
  }
}
