/** Hashing a stream of bytes chunk by chunk, with the length padding of section 5.1 of FIPS 180-4. */
module MerkleDamgards {
  import opened Prelude
  import opened ByteOrder

  // ---- Folding a compression function over the chunks of a message ----

  function Fold<S>(f: (seq<Byte>, S) -> S, h: S, data: seq<Byte>, chunk: nat): S
    requires chunk > 0
    decreases |data|
  {
    if |data| < chunk then h else Fold(f, f(data[..chunk], h), data[chunk..], chunk)
  }

  lemma FoldStep<S>(f: (seq<Byte>, S) -> S, h: S, data: seq<Byte>, ii: nat, chunk: nat)
    requires chunk > 0 && ii <= |data|
    ensures ii + chunk > |data| ==> Fold(f, h, data[ii..], chunk) == h
    ensures ii + chunk <= |data| ==>
              Fold(f, h, data[ii..], chunk) == Fold(f, f(data[ii..ii + chunk], h), data[ii + chunk..], chunk)
  {
    if ii + chunk <= |data| {
      assert data[ii..][..chunk] == data[ii..ii + chunk] && data[ii..][chunk..] == data[ii + chunk..];
    }
  }

  // The bytes after the last whole chunk.
  function Tail(data: seq<Byte>, chunk: nat): seq<Byte>
    requires chunk > 0
    decreases |data|
  {
    if |data| < chunk then data else Tail(data[chunk..], chunk)
  }

  lemma ModMinus(x: nat, d: nat)
    requires 0 < d <= x
    ensures (x - d) % d == x % d && x / d >= 1
  {
    DivModUnique(x - d, d, x / d - 1, x % d);
  }

  lemma {:induction false} TailLength(data: seq<Byte>, chunk: nat)
    requires chunk > 0
    ensures |Tail(data, chunk)| == |data| % chunk
    decreases |data|
  {
    if |data| >= chunk {
      TailLength(data[chunk..], chunk);
      ModMinus(|data|, chunk);
    }
  }

  // Hashing a first part leaves its hash and its tail, and nothing else matters later.
  lemma {:induction false} FoldConcat<S>(f: (seq<Byte>, S) -> S, h: S, a: seq<Byte>, b: seq<Byte>, chunk: nat)
    requires chunk > 0
    ensures Fold(f, h, a + b, chunk) == Fold(f, Fold(f, h, a, chunk), Tail(a, chunk) + b, chunk)
    ensures Tail(a + b, chunk) == Tail(Tail(a, chunk) + b, chunk)
    decreases |a|
  {
    if |a| >= chunk {
      assert (a + b)[..chunk] == a[..chunk];
      assert (a + b)[chunk..] == a[chunk..] + b;
      FoldConcat(f, f(a[..chunk], h), a[chunk..], b, chunk);
    }
  }

  lemma {:induction false} TailIs(data: seq<Byte>, chunk: nat)
    requires chunk > 0
    ensures |data| % chunk <= |data| && Tail(data, chunk) == data[|data| - |data| % chunk..]
    decreases |data|
  {
    if |data| >= chunk {
      TailIs(data[chunk..], chunk);
      ModMinus(|data|, chunk);
    }
  }

  // Adding bytes up to the end of the pending chunk.
  lemma Filled<S>(f: (seq<Byte>, S) -> S, iv: S, m: seq<Byte>, d: seq<Byte>, chunk: nat)
    requires chunk > 0 && |m| % chunk + |d| <= chunk
    ensures |m| % chunk + |d| < chunk ==>
              && |m + d| % chunk == |m| % chunk + |d|
              && Fold(f, iv, m + d, chunk) == Fold(f, iv, m, chunk)
              && Tail(m + d, chunk) == Tail(m, chunk) + d
    ensures |m| % chunk + |d| == chunk ==>
              && |m + d| % chunk == 0
              && Fold(f, iv, m + d, chunk) == f(Tail(m, chunk) + d, Fold(f, iv, m, chunk))
              && Tail(m + d, chunk) == []
  {
    FoldConcat(f, iv, m, d, chunk);
    TailLength(m, chunk);
    TailLength(m + d, chunk);
    var t := Tail(m, chunk) + d;
    assert t[..|t|] == t;
  }

  // ---- Padding ----

  function CeilDiv(a: nat, b: nat): nat
    requires b > 0
  {
    a / b + if a % b != 0 then 1 else 0
  }

  function BlockSizeRemainder(block: nat, end: nat): nat
    requires block > 0
  {
    if end % block == 0 then 0 else block - end % block
  }

  datatype LengthPadding = LengthPadding(bigEndian: bool, int128: bool) {
    function Bits(): nat {
      if int128 then 128 else 64
    }
  }

  // The number of bytes added to a message of the given length.
  function NumExtra(p: LengthPadding, length: nat): (n: nat)
    ensures n >= 9
  {
    var least := CeilDiv(1 + p.Bits(), 8);
    least + BlockSizeRemainder(p.Bits(), length + least)
  }

  // A one bit, zeros, and the length in bits at the end.
  function Padding(p: LengthPadding, length: nat): (r: seq<Byte>)
    ensures |r| == NumExtra(p, length)
  {
    [0x80] + seq(NumExtra(p, length) - 9, _ => 0)
    + if p.bigEndian then BeBytes(8 * length, 8) else LeBytes(8 * length, 8)
  }

  // ---- The streaming hash ----

  const MAX_LENGTH: nat := 0x2000_0000_0000_0000  // 2^61 bytes

  class MerkleDamgard<S> {
    var hash: S
    var length: nat
    const pending: array<Byte>
    const padding: LengthPadding
    const chunk: nat
    ghost const iv: S
    // Everything hashed so far.
    ghost var message: seq<Byte>

    ghost predicate Valid(f: (seq<Byte>, S) -> S)
      reads this, pending
    {
      && chunk > 0 && pending.Length == chunk && length == |message|
      && hash == Fold(f, iv, message, chunk)
      && |Tail(message, chunk)| == length % chunk
      && pending[..length % chunk] == Tail(message, chunk)
    }

    constructor (iv: S, padding: LengthPadding, chunk: nat)
      requires chunk > 0 && (padding.int128 ==> padding.bigEndian)
      ensures forall f :: Valid(f)
      ensures fresh(pending) && message == [] && this.iv == iv && this.padding == padding && this.chunk == chunk
    {
      hash := iv;
      length := 0;
      pending := new Byte[chunk](_ => 0);
      this.padding := padding;
      this.chunk := chunk;
      this.iv := iv;
      message := [];
    }

    constructor Clone(from: MerkleDamgard<S>, ghost f: (seq<Byte>, S) -> S)
      requires from.Valid(f)
      ensures Valid(f) && fresh(pending)
      ensures message == from.message && iv == from.iv && padding == from.padding && chunk == from.chunk
    {
      hash := from.hash;
      length := from.length;
      pending := new Byte[from.pending.Length](i requires 0 <= i < from.pending.Length reads from.pending => from.pending[i]);
      padding := from.padding;
      chunk := from.chunk;
      iv := from.iv;
      message := from.message;
    }

    // Compresses the whole chunks.
    method Compress(data: seq<Byte>, f: (seq<Byte>, S) -> S)
      requires chunk > 0
      modifies this`hash
      ensures hash == Fold(f, old(hash), data, chunk)
    {
      hide Fold;
      var ii := 0;
      assert data[0..] == data;
      while ii + chunk <= |data|
        invariant 0 <= ii <= |data|
        invariant Fold(f, old(hash), data, chunk) == Fold(f, hash, data[ii..], chunk)
      {
        var jj := ii + chunk;
        FoldStep(f, hash, data, ii, chunk);
        hash := f(data[ii..jj], hash);
        ii := jj;
      }
      FoldStep(f, hash, data, ii, chunk);
    }

    // Completes the pending chunk, as far as the data goes.
    method Fill(data: seq<Byte>, f: (seq<Byte>, S) -> S) returns (n: nat)
      requires Valid(f) && length % chunk != 0
      modifies this, pending
      ensures n <= |data| && (length % chunk != 0 ==> n == |data|)
      ensures Valid(f) && message == old(message) + data[..n]
    {
      hide Fold, Tail;
      var rem := length % chunk;
      n := Min(chunk - rem, |data|);
      ghost var tail := Tail(message, chunk);
      Filled(f, iv, message, data[..n], chunk);
      forall k | 0 <= k < n {
        pending[rem + k] := data[k];
      }
      length := length + n;
      message := message + data[..n];
      assert pending[..rem + n] == tail + data[..n];
      if length % chunk == 0 {
        assert pending[..] == pending[..rem + n];
        hash := f(pending[..], hash);
      }
    }

    // Compresses the whole chunks of the data and keeps the rest.
    method Absorb(rest: seq<Byte>, f: (seq<Byte>, S) -> S)
      requires Valid(f) && length % chunk == 0
      modifies this, pending
      ensures Valid(f) && message == old(message) + rest
    {
      hide Fold, Tail;
      FoldConcat(f, iv, message, rest, chunk);
      assert Tail(message, chunk) == [] && [] + rest == rest;
      TailIs(rest, chunk);
      TailLength(message + rest, chunk);
      Compress(rest, f);
      var r := |rest| % chunk;
      forall k | 0 <= k < r {
        pending[k] := rest[|rest| - r + k];
      }
      length := length + |rest|;
      message := message + rest;
      assert pending[..r] == rest[|rest| - r..];
    }

    // Adds data to the message.
    method Update(data: seq<Byte>, f: (seq<Byte>, S) -> S)
      requires Valid(f)
      modifies this, pending
      ensures Valid(f) && message == old(message) + data
    {
      hide Valid;
      var rest := data;
      assert chunk > 0 by {
        ChunkPositive(f);
      }
      if length % chunk != 0 {
        var n := Fill(data, f);
        rest := rest[n..];
        assert old(message) + data[..n] + rest == old(message) + data;
        if length % chunk != 0 {
          return;
        }
      }
      Absorb(rest, f);
    }

    lemma ChunkPositive(f: (seq<Byte>, S) -> S)
      requires Valid(f)
      ensures chunk > 0
    {
    }

    // The scratch buffer, zero but for the one bit and the length.
    method Scratch(numExtra: nat) returns (buf: array<Byte>)
      requires numExtra == NumExtra(padding, length) <= chunk + 17
      ensures fresh(buf) && buf.Length == chunk + 17 && buf[..numExtra] == Padding(padding, length)
    {
      hide BeBytes, LeBytes, NumExtra;
      var messageLength := 8 * length;
      var size := chunk + 17;
      buf := new Byte[size](_ => 0);
      buf[0] := 0x80;
      var lengthBytes := if padding.bigEndian then BeBytes(messageLength, 8) else LeBytes(messageLength, 8);
      forall k | 0 <= k < 8 {
        buf[numExtra - 8 + k] := lengthBytes[k];
      }
    }

    // The hash of the padded message. The scratch buffer must hold the padding, and the padded message
    // must end on a chunk boundary: the source asserts both.
    method Finish(f: (seq<Byte>, S) -> S) returns (r: Option<S>)
      requires Valid(f) && length < MAX_LENGTH
      ensures r.Some? <==> PaddingWorks(padding, |message|, chunk)
      ensures r.Some? ==> r.value == Fold(f, iv, message + Padding(padding, |message|), chunk)
      ensures (padding.int128 ==> padding.bigEndian) ==>
                StandardPadding(padding, |message|, Padding(padding, |message|))
    {
      hide Fold, Tail, Padding, StandardPadding;
      if padding.int128 ==> padding.bigEndian {
        PaddingIsStandard(padding, length);
      }
      var bits := padding.Bits();
      var paddedLength := length + CeilDiv(1 + bits, 8);
      paddedLength := paddedLength + BlockSizeRemainder(bits, paddedLength);
      var numExtra := paddedLength - length;
      if numExtra > chunk + 17 {
        return None;
      }
      var buf := Scratch(numExtra);
      var h := new MerkleDamgard.Clone(this, f);
      h.Update(buf[..numExtra], f);
      if h.length % chunk != 0 {
        return None;
      }
      r := Some(h.hash);
    }
  }

  // ---- The padding is the standard one ----

  ghost predicate PaddingWorks(p: LengthPadding, length: nat, chunk: nat)
    requires chunk > 0
  {
    NumExtra(p, length) <= chunk + 17 && (length + NumExtra(p, length)) % chunk == 0
  }

  lemma RemainderReaches(block: nat, end: nat)
    requires block > 0
    ensures BlockSizeRemainder(block, end) < block && (end + BlockSizeRemainder(block, end)) % block == 0
  {
    var q, m := end / block, end % block;
    if m != 0 {
      assert end + (block - m) == block * (q + 1) by {
        Distribute(q, 1, block);
      }
      DivModUnique(end + (block - m), block, q + 1, 0);
    }
  }

  // With chunks of 64 bytes and a 64-bit length, or 128 and 128, every message can be finished.
  lemma PaddingAlwaysWorks(p: LengthPadding, length: nat)
    ensures PaddingWorks(p, length, p.Bits())
  {
    RemainderReaches(p.Bits(), length + CeilDiv(1 + p.Bits(), 8));
  }

  // Only then: any other chunk size misses the padding of some message.
  lemma PaddingWorksExactly(p: LengthPadding, chunk: nat)
    requires chunk > 0
    ensures (forall length: nat :: PaddingWorks(p, length, chunk)) <==> chunk == p.Bits()
  {
    if chunk == p.Bits() {
      forall length: nat
        ensures PaddingWorks(p, length, chunk)
      {
        PaddingAlwaysWorks(p, length);
      }
    } else {
      var long := if p.int128 then 112 else 56;
      assert NumExtra(p, 0) == p.Bits() && NumExtra(p, long) == 2 * p.Bits() - long;
      assert !PaddingWorks(p, 0, chunk) || !PaddingWorks(p, long, chunk);
    }
  }

  // Chunks of 128 bytes with a 64-bit length: the empty message already misses the boundary.
  lemma PaddingMissesBoundary()
    ensures !PaddingWorks(LengthPadding(true, false), 0, 128)
  {
    assert NumExtra(LengthPadding(true, false), 0) == 64;
  }

  lemma ZerosNeeded(p: LengthPadding, length: nat) returns (zeros: nat)
    ensures NumExtra(p, length) == 1 + zeros + p.Bits() / 8
    ensures zeros < p.Bits() && (length + 1 + zeros + p.Bits() / 8) % p.Bits() == 0
  {
    hide BlockSizeRemainder;
    var least := CeilDiv(1 + p.Bits(), 8);
    assert least == 1 + p.Bits() / 8;
    RemainderReaches(p.Bits(), length + least);
    zeros := BlockSizeRemainder(p.Bits(), length + least);
  }

  // Section 5.1 of FIPS 180-4, byte by byte: a one bit, the least number of zeros that reaches a chunk
  // boundary, and the length in bits, digit by digit in base 256, in the width and order promised.
  ghost predicate StandardPadding(p: LengthPadding, length: nat, pad: seq<Byte>) {
    var width := p.Bits() / 8;
    && 1 + width <= |pad| <= width + p.Bits() && (length + |pad|) % p.Bits() == 0
    && pad[0] == 0x80
    && (forall i :: 0 < i < |pad| - width ==> pad[i] == 0)
    && forall i :: 0 <= i < width ==>
         pad[if p.bigEndian then |pad| - 1 - i else |pad| - width + i] == LengthDigit(length, i)
  }

  ghost function LengthDigit(length: nat, i: nat): nat {
    (8 * length / Pow2(8 * i)) % 256
  }

  // The length octets in the width promised, although only eight are ever written.
  lemma PaddingWidth(p: LengthPadding, length: nat) returns (zeros: nat)
    requires length < MAX_LENGTH && (p.int128 ==> p.bigEndian)
    ensures var width := p.Bits() / 8;
            && Padding(p, length) == [0x80] + seq(zeros, _ => 0)
                                     + (if p.bigEndian then BeBytes(8 * length, width) else LeBytes(8 * length, width))
            && zeros < p.Bits()
            && (length + 1 + zeros + width) % p.Bits() == 0
  {
    zeros := ZerosNeeded(p, length);
    hide BeBytes, LeBytes, NumExtra;
    if p.int128 {
      Pow64();
      LeadingZeros(8 * length, 8, 8);
      MoreZeros(zeros, BeBytes(8 * length, 8));
    }
  }

  lemma PaddingIsStandard(p: LengthPadding, length: nat)
    requires length < MAX_LENGTH && (p.int128 ==> p.bigEndian)
    ensures StandardPadding(p, length, Padding(p, length))
  {
    hide BeBytes, LeBytes, NumExtra, Padding, LengthDigit;
    var zeros := PaddingWidth(p, length);
    var width := p.Bits() / 8;
    var octets := if p.bigEndian then BeBytes(8 * length, width) else LeBytes(8 * length, width);
    LaidOut(zeros, octets);
    forall i | 0 <= i < width
      ensures octets[if p.bigEndian then width - 1 - i else i] == LengthDigit(length, i)
    {
      OctetDigits(length, width, i);
    }
  }

  lemma OctetDigits(length: nat, width: nat, i: nat)
    requires i < width
    ensures BeBytes(8 * length, width)[width - 1 - i] == LengthDigit(length, i)
    ensures LeBytes(8 * length, width)[i] == LengthDigit(length, i)
  {
    BeDigits(8 * length, width, i);
    LeDigits(8 * length, width, i);
  }

  lemma LaidOut(zeros: nat, octets: seq<Byte>)
    ensures var pad := [0x80] + seq(zeros, _ => 0) + octets;
            && |pad| == 1 + zeros + |octets| && pad[0] == 0x80
            && (forall i :: 0 < i < |pad| - |octets| ==> pad[i] == 0)
            && forall i :: |pad| - |octets| <= i < |pad| ==> pad[i] == octets[i - (|pad| - |octets|)]
  {
  }

  lemma MoreZeros(zeros: nat, last: seq<Byte>)
    ensures [0x80] + seq(zeros + 8, _ => 0) + last == [0x80] + seq(zeros, _ => 0) + (seq(8, _ => 0) + last)
  {
    assert seq(zeros + 8, _ => 0) == seq(zeros, _ => 0) + seq(8, _ => 0);
  }

  // Different messages stay different when padded.
  lemma PaddingIsInjective(p: LengthPadding, a: seq<Byte>, b: seq<Byte>)
    requires |a| < MAX_LENGTH && |b| < MAX_LENGTH
    requires a + Padding(p, |a|) == b + Padding(p, |b|)
    ensures a == b
  {
    hide BeBytes, LeBytes;
    var x, y := a + Padding(p, |a|), b + Padding(p, |b|);
    LastEight(p, a);
    LastEight(p, b);
    Pow64();
    BytesInjective(8 * |a|, 8 * |b|, 8);
    assert x[..|a|] == a && y[..|b|] == b;
  }

  lemma LastEight(p: LengthPadding, a: seq<Byte>)
    ensures var x := a + Padding(p, |a|);
            |x| >= 8 && x[|x| - 8..] == if p.bigEndian then BeBytes(8 * |a|, 8) else LeBytes(8 * |a|, 8)
  {
    hide BeBytes, LeBytes;
  }

  // ---- Any split of the message ----

  function Joined(parts: seq<seq<Byte>>): seq<Byte> {
    if parts == [] then [] else Joined(parts[..|parts| - 1]) + parts[|parts| - 1]
  }

  // Hashing a message in any parts gives the fold of the compression function over the padded message.
  method Hash<S>(f: (seq<Byte>, S) -> S, iv: S, p: LengthPadding, parts: seq<seq<Byte>>) returns (r: S)
    requires p.int128 ==> p.bigEndian
    requires |Joined(parts)| < MAX_LENGTH
    ensures r == Fold(f, iv, Joined(parts) + Padding(p, |Joined(parts)|), p.Bits())
    ensures StandardPadding(p, |Joined(parts)|, Padding(p, |Joined(parts)|))
  {
    hide Fold, Tail, Padding, NumExtra, StandardPadding;
    var h := new MerkleDamgard(iv, p, p.Bits());
    for i := 0 to |parts|
      invariant h.Valid(f) && fresh(h) && fresh(h.pending) && h.message == Joined(parts[..i])
    {
      assert parts[..i + 1][..i] == parts[..i];
      h.Update(parts[i], f);
    }
    assert parts[..|parts|] == parts;
    PaddingAlwaysWorks(p, h.length);
    var o := h.Finish(f);
    r := o.value;
  }
}
