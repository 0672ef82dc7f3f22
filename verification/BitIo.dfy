/** BitVector, BitReader and BitWriter over byte streams, proved against strings of bits. */
module BitIo {
  import opened Prelude
  import opened BitStrings

  datatype BitOrder = MsbFirst | LsbFirst

  function ByteBits(b: Byte, order: BitOrder): (v: seq<Bit>)
    ensures |v| == 8
  {
    if order.MsbFirst? then CodeBits(b, 8) else LsbBits(b, 8)
  }

  // The bits of a byte stream.
  function BitsIn(bytes: seq<Byte>, order: BitOrder): (v: seq<Bit>)
    ensures |v| == 8 * |bytes|
  {
    if bytes == [] then [] else ByteBits(bytes[0], order) + BitsIn(bytes[1..], order)
  }

  lemma {:induction false} BitsInConcat(a: seq<Byte>, b: seq<Byte>, order: BitOrder)
    ensures BitsIn(a + b, order) == BitsIn(a, order) + BitsIn(b, order)
  {
    if a == [] {
      assert a + b == b;
    } else {
      assert (a + b)[1..] == a[1..] + b;
      BitsInConcat(a[1..], b, order);
    }
  }

  lemma BitsInFirst(bytes: seq<Byte>, order: BitOrder)
    requires bytes != []
    ensures BitsIn(bytes, order) == ByteBits(bytes[0], order) + BitsIn(bytes[1..], order)
  {
  }

  lemma BitsInOne(b: Byte, order: BitOrder)
    ensures BitsIn([b], order) == ByteBits(b, order)
  {
    assert [b][1..] == [];
  }

  lemma BitsInLast(bytes: seq<Byte>, order: BitOrder)
    requires bytes != []
    ensures var n := |bytes| - 1;
            BitsIn(bytes, order) == BitsIn(bytes[..n], order) + ByteBits(bytes[n], order)
  {
    var n := |bytes| - 1;
    assert bytes == bytes[..n] + [bytes[n]];
    BitsInConcat(bytes[..n], [bytes[n]], order);
    BitsInOne(bytes[n], order);
  }

  lemma {:induction false} BitsInAt(bytes: seq<Byte>, order: BitOrder, i: nat)
    requires i < 8 * |bytes|
    ensures BitsIn(bytes, order)[i] == ByteBits(bytes[i / 8], order)[i % 8]
  {
    hide ByteBits;
    if i >= 8 {
      BitsInAt(bytes[1..], order, i - 8);
      assert i / 8 == (i - 8) / 8 + 1 && i % 8 == (i - 8) % 8;
      assert bytes[1..][(i - 8) / 8] == bytes[i / 8];
    }
  }

  // Bit j of a byte in the order of the stream, counted from its least significant bit.
  lemma StreamBit(bytes: seq<Byte>, order: BitOrder, k: nat, j: nat)
    requires k < |bytes| && j < 8
    ensures BitsIn(bytes, order)[8 * k + j] == BitOf(bytes[k], if order.MsbFirst? then 7 - j else j)
  {
    hide BitsIn, CodeBits, LsbBits, Pow2;
    BitsInAt(bytes, order, 8 * k + j);
    assert (8 * k + j) / 8 == k && (8 * k + j) % 8 == j;
    CodeBitsAt(bytes[k], 8, j);
    LsbBitsAt(bytes[k], 8, j);
  }

  // ---- BitVector ----

  // The bits of data from position len on are zero.
  ghost predicate ZeroFrom(data: seq<Byte>, len: nat) {
    forall i :: len <= i < 8 * |data| ==> BitsIn(data, MsbFirst)[i] == 0
  }

  lemma AddZeroByte(data: seq<Byte>)
    ensures ZeroFrom(data + [0], 8 * |data|)
    ensures BitsIn(data + [0], MsbFirst)[..8 * |data|] == BitsIn(data, MsbFirst)
  {
    BitsInConcat(data, [0], MsbFirst);
    BitsInOne(0, MsbFirst);
    CodeBitsShift(0, 0, 8);
  }

  // Setting the first unused bit, which lies in the last byte.
  lemma SetBit(data: seq<Byte>, len: nat, bit: Bit) returns (x: Byte)
    requires data != [] && 8 * (|data| - 1) <= len < 8 * |data|
    requires ZeroFrom(data, len)
    ensures x == data[|data| - 1] + bit * Pow2(7 - len % 8)
    ensures ZeroFrom(data[|data| - 1 := x], len + 1)
    ensures BitsIn(data[|data| - 1 := x], MsbFirst)[..len + 1] == BitsIn(data, MsbFirst)[..len] + [bit]
  {
    hide CodeBits, BitsIn, Pow2;
    var n, k := |data| - 1, len % 8;
    var last := data[n];
    var bits := BitsIn(data, MsbFirst);
    BitsInLast(data, MsbFirst);
    forall i | k <= i < 8 ensures CodeBits(last, 8)[i] == 0 {
      assert bits[8 * n + i] == CodeBits(last, 8)[i];
    }
    Pow2Small();
    SetNextBit(last, k, 8, bit);
    x := last + bit * Pow2(7 - k);
    var data' := data[n := x];
    BitsInLast(data', MsbFirst);
    assert data'[..n] == data[..n];
    assert BitsIn(data', MsbFirst) == BitsIn(data[..n], MsbFirst) + CodeBits(last, 8)[..k] + [bit] + Zeros(7 - k);
    assert bits[..len] == BitsIn(data[..n], MsbFirst) + CodeBits(last, 8)[..k];
  }

  lemma Pow2Small()
    ensures Pow2(8) == 256
  {
    assert Pow2(4) == 16;
    Pow2Add(4, 4);
  }

  class BitVector {
    var data: seq<Byte>
    var len: nat

    // Unused bits of the last byte are zero.
    ghost predicate Valid()
      reads this
    {
      |data| == (len + 7) / 8 && ZeroFrom(data, len)
    }

    ghost function Bits(): (v: seq<Bit>)
      requires Valid()
      reads this
      ensures |v| == len
    {
      BitsIn(data, MsbFirst)[..len]
    }

    constructor ()
      ensures Valid() && Bits() == []
    {
      data, len := [], 0;
    }

    method Clear()
      modifies this
      ensures Valid() && Bits() == []
    {
      data, len := [], 0;
    }

    method Push(bit: Bit)
      requires Valid()
      modifies this
      ensures Valid() && Bits() == old(Bits()) + [bit]
    {
      hide BitsIn, Pow2, ZeroFrom;
      if len % 8 == 0 {
        AddZeroByte(data);
        assert BitsIn(data, MsbFirst)[..len] == BitsIn(data, MsbFirst);
        data := data + [0];
      }
      ghost var x := SetBit(data, len, bit);
      // The bit is zero so far, so that setting it is adding it.
      data := data[|data| - 1 := data[|data| - 1] + bit * Pow2(7 - len % 8)];
      len := len + 1;
    }

    method PushFullMsb(b: Byte)
      requires Valid() && len % 8 == 0
      modifies this
      ensures Valid() && Bits() == old(Bits()) + CodeBits(b, 8)
    {
      BitsInConcat(data, [b], MsbFirst);
      BitsInOne(b, MsbFirst);
      assert BitsIn(data, MsbFirst)[..len] == BitsIn(data, MsbFirst);
      data := data + [b];
      len := len + 8;
      assert BitsIn(data, MsbFirst)[..len] == BitsIn(data, MsbFirst);
    }

    method PushZeros(n: nat)
      requires Valid()
      modifies this
      ensures Valid() && Bits() == old(Bits()) + Zeros(n)
    {
      hide ZeroFrom, BitsIn;
      for i := 0 to n
        invariant Valid() && Bits() == old(Bits()) + Zeros(i)
      {
        Push(0);
      }
    }

    // Pushes the bits of another vector, from position from on.
    method Append(other: BitVector, from: nat)
      requires Valid() && other.Valid() && other != this && from <= other.len
      modifies this
      ensures Valid() && Bits() == old(Bits()) + other.Bits()[from..]
    {
      hide ZeroFrom, BitsIn;
      for i := from to other.len
        invariant Valid() && Bits() == old(Bits()) + other.Bits()[from..i]
      {
        var b := other.Get(i);
        Push(b.value);
      }
    }

    method Get(i: nat) returns (r: Option<Bit>)
      requires Valid()
      ensures r == if i < len then Some(Bits()[i]) else None
    {
      if i >= len {
        return None;
      }
      BitsInAt(data, MsbFirst, i);
      CodeBitsAt(data[i / 8], 8, i % 8);
      r := Some((data[i / 8] / Pow2(7 - i % 8)) % 2);
    }
  }

  // ---- BitReader ----

  datatype ReadResult = EndOfFile | NotEnoughBits | Value(value: nat)

  // Where u holds the bits not yet read: what reading n bits returns, and what is left.
  ghost function ReadSpec(u: seq<Bit>, n: nat): ReadResult {
    if n <= |u| then Value(FromLsb(u[..n])) else if u == [] then EndOfFile else NotEnoughBits
  }

  ghost function Rest(u: seq<Bit>, n: nat): seq<Bit> {
    if n <= |u| then u[n..] else []
  }

  lemma ReadBitsAre(v: seq<Bit>)
    ensures FromLsb(v) < Pow2(|v|)
    ensures forall i :: 0 <= i < |v| ==> BitOf(FromLsb(v), i) == v[i]
  {
    hide FromLsb, BitOf;
    FromLsbAppend(v, 0);
    forall i | 0 <= i < |v|
      ensures BitOf(FromLsb(v), i) == v[i]
    {
      FromLsbAt(v, i);
    }
  }

  class BitReader {
    // What the underlying reader still has to offer.
    var input: seq<Byte>
    const order: BitOrder
    const buffer: BitVector
    var offset: nat
    var consumed: nat

    ghost predicate Valid()
      reads this, buffer
    {
      && buffer.Valid()
      && buffer.len % 8 == 0
      && consumed <= offset <= buffer.len
    }

    // The bits not yet read, and the bits not yet consumed.
    ghost function Unread(): seq<Bit>
      requires Valid()
      reads this, buffer
    {
      buffer.Bits()[offset..] + BitsIn(input, order)
    }

    ghost function Unconsumed(): seq<Bit>
      requires Valid()
      reads this, buffer
    {
      buffer.Bits()[consumed..] + BitsIn(input, order)
    }

    constructor (input: seq<Byte>, order: BitOrder)
      ensures Valid() && fresh(buffer)
      ensures this.input == input && this.order == order
      ensures offset == consumed == 0 && buffer.Bits() == []
      ensures Unread() == Unconsumed() == BitsIn(input, order)
    {
      this.input, this.order, this.offset, this.consumed := input, order, 0, 0;
      buffer := new BitVector();
    }

    // Makes bits the next ones to be read; refused while unread bits are buffered.
    method Load(bits: BitVector) returns (ok: bool)
      requires Valid() && bits.Valid() && bits != buffer
      modifies this, buffer
      ensures Valid() && input == old(input)
      ensures ok == (old(offset) == old(buffer.len))
      ensures ok ==> Unread() == Unconsumed() == bits.Bits() + BitsIn(input, order)
      ensures !ok ==> Unread() == old(Unread()) && Unconsumed() == old(Unconsumed())
    {
      hide BitsIn, ZeroFrom, Zeros;
      if offset != buffer.len {
        return false;
      }
      buffer.Clear();
      // Padding in front, so that the loaded bits end on a byte boundary.
      var n := if bits.len % 8 == 0 then 0 else 8 - bits.len % 8;
      buffer.PushZeros(n);
      offset, consumed := n, n;
      buffer.Append(bits, 0);
      ok := true;
    }

    // One more byte from the underlying reader, in the order of this stream.
    method Fill()
      requires Valid() && input != []
      modifies this, buffer
      ensures Valid() && offset == old(offset) && consumed == old(consumed) && buffer.len == old(buffer.len) + 8
      ensures Unread() == old(Unread()) && Unconsumed() == old(Unconsumed())
    {
      hide BitsIn, ZeroFrom, CodeBits, LsbBits, ReverseBits, Pow2;
      var b := input[0];
      BitsInFirst(input, order);
      input := input[1..];
      ReverseBitsReverses(b, 8);
      Pow2Small();
      assert forall x: seq<Bit>, y, z :: x + y + z == x + (y + z);
      buffer.PushFullMsb(if order.LsbFirst? then ReverseBits(b, 8) else b);
    }

    // One round of the loop of read_bits.
    method ReadBit() returns (r: Option<Bit>)
      requires Valid()
      modifies this, buffer
      ensures Valid() && consumed == old(consumed) && Unconsumed() == old(Unconsumed())
      ensures r == if old(Unread()) == [] then None else Some(old(Unread())[0])
      ensures Unread() == Rest(old(Unread()), 1)
      ensures r.None? ==> input == []
    {
      hide BitsIn, ZeroFrom;
      if offset == buffer.len {
        if input == [] {
          return None;
        }
        Fill();
      }
      r := buffer.Get(offset);
      offset := offset + 1;
    }

    method ReadBits(n: nat) returns (r: ReadResult)
      requires Valid() && n <= 64
      modifies this, buffer
      ensures Valid() && consumed == old(consumed) && Unconsumed() == old(Unconsumed())
      ensures r == ReadSpec(old(Unread()), n)
      ensures r.Value? <==> n <= |old(Unread())|
      ensures r.Value? ==> forall i :: 0 <= i < n ==> BitOf(r.value, i) == old(Unread())[i]
      ensures r.Value? ==> r.value < Pow2(n)
      ensures r == EndOfFile <==> n > 0 && old(Unread()) == []
      ensures r == NotEnoughBits <==> 0 < |old(Unread())| < n
      ensures Unread() == Rest(old(Unread()), n)
      ensures n > |old(Unread())| ==> input == []
    {
      hide BitsIn, ZeroFrom, FromLsb, Pow2, BitOf, Unread, Unconsumed;
      ghost var u := Unread();
      var out := 0;
      FromLsbEmpty();
      for i := 0 to n
        invariant Valid() && i <= |u| && Unread() == u[i..] && out == FromLsb(u[..i])
        invariant consumed == old(consumed) && Unconsumed() == old(Unconsumed())
      {
        var b := ReadBit();
        if b.None? {
          return if i == 0 then EndOfFile else NotEnoughBits;
        }
        assert u[..i + 1] == u[..i] + [u[i]];
        FromLsbAppend(u[..i], u[i]);
        // All bits of out from i on are zero, so that this is an addition.
        out := out + b.value * Pow2(i);
        assert u[i..][1..] == u[i + 1..];
      }
      r := Value(out);
      ReadBitsAre(u[..n]);
    }

    method Consume()
      requires Valid()
      modifies this, buffer
      ensures Valid() && input == old(input)
      ensures Unread() == Unconsumed() == old(Unread())
    {
      if offset == buffer.len {
        buffer.Clear();
        offset := 0;
      }
      consumed := offset;
    }

    // The buffered bits that were not consumed.
    method IntoUnconsumedBits() returns (bits: BitVector)
      requires Valid()
      ensures fresh(bits) && bits.Valid()
      ensures bits.Bits() + BitsIn(input, order) == Unconsumed()
    {
      bits := new BitVector();
      bits.Append(buffer, consumed);
    }
  }

  // ---- BitWriter ----

  // The bits of the byte under construction: the low ones below the offset, or the high ones above it.
  ghost function Started(b: Byte, offset: nat, order: BitOrder): seq<Bit>
    requires offset < 8
  {
    if order.MsbFirst? then CodeBits(b, 8)[..7 - offset] else LsbBits(b, offset)
  }

  // Its other bits are zero.
  ghost predicate Unstarted(b: Byte, offset: nat, order: BitOrder)
    requires offset < 8
  {
    if order.MsbFirst? then forall i :: 7 - offset <= i < 8 ==> CodeBits(b, 8)[i] == 0 else b < Pow2(offset)
  }

  // The low len bits of a value in the order in which they are written.
  function ValueBits(val: nat, len: nat, order: BitOrder): (v: seq<Bit>)
    ensures |v| == len
  {
    if order.MsbFirst? then CodeBits(val, len) else LsbBits(val, len)
  }

  // Setting the next bit of a byte; it is zero so far, so that setting it is adding it.
  lemma StartHigh(b: Byte, offset: nat, bit: Bit)
    requires offset < 8 && Unstarted(b, offset, MsbFirst)
    ensures b + bit * Pow2(offset) < 256
    ensures CodeBits(b + bit * Pow2(offset), 8) == Started(b, offset, MsbFirst) + [bit] + Zeros(offset)
  {
    hide CodeBits, Pow2;
    Pow2Small();
    SetNextBit(b, 7 - offset, 8, bit);
  }

  lemma StartLow(b: Byte, offset: nat, bit: Bit)
    requires offset < 8 && Unstarted(b, offset, LsbFirst)
    ensures b + bit * Pow2(offset) < 256 && b + bit * Pow2(offset) < Pow2(offset + 1)
    ensures LsbBits(b + bit * Pow2(offset), offset + 1) == Started(b, offset, LsbFirst) + [bit]
  {
    hide LsbBits, Pow2;
    Pow2Small();
    Pow2Monotone(offset + 1, 8);
    LsbBitsAppend(b, bit, offset);
  }

  lemma NothingStarted(order: BitOrder)
    ensures var offset := if order.MsbFirst? then 7 else 0;
            Unstarted(0, offset, order) && Started(0, offset, order) == []
  {
    assert 0 * Pow2(8) == 0;
    CodeBitsShift(0, 0, 8);
  }

  // A whole byte, completed with zeros.
  lemma Completed(b: Byte, offset: nat, order: BitOrder) returns (z: nat)
    requires offset < 8 && Unstarted(b, offset, order) && offset != if order.MsbFirst? then 7 else 0
    ensures z < 8 && ByteBits(b, order) == Started(b, offset, order) + Zeros(z)
  {
    hide CodeBits;
    if order.MsbFirst? {
      z := offset + 1;
    } else {
      z := 8 - offset;
      LsbBitsSmall(b, offset, z);
    }
  }

  class BitWriter {
    const order: BitOrder
    var out: seq<Byte>
    var bitOffset: nat
    var currentByte: Byte

    ghost predicate Valid()
      reads this
    {
      bitOffset < 8 && Unstarted(currentByte, bitOffset, order)
    }

    // All bits written so far.
    ghost function Written(): seq<Bit>
      requires Valid()
      reads this
    {
      BitsIn(out, order) + Started(currentByte, bitOffset, order)
    }

    constructor (order: BitOrder)
      ensures Valid() && out == [] && Written() == [] && this.order == order
    {
      NothingStarted(order);
      this.order := order;
      out, bitOffset, currentByte := [], if order.MsbFirst? then 7 else 0, 0;
    }

    // One bit of the loops of write_bits.
    method WriteLow(b: Bit)
      requires Valid() && order.LsbFirst?
      modifies this
      ensures Valid() && Written() == old(Written()) + [b]
    {
      hide BitsIn, LsbBits, Pow2;
      StartLow(currentByte, bitOffset, b);
      currentByte := currentByte + b * Pow2(bitOffset);
      bitOffset := bitOffset + 1;
      if bitOffset == 8 {
        BitsInConcat(out, [currentByte], order);
        BitsInOne(currentByte, order);
        Flush();
      }
    }

    method WriteHigh(b: Bit)
      requires Valid() && order.MsbFirst?
      modifies this
      ensures Valid() && Written() == old(Written()) + [b]
    {
      hide BitsIn, CodeBits, Pow2;
      StartHigh(currentByte, bitOffset, b);
      currentByte := currentByte + b * Pow2(bitOffset);
      if bitOffset == 0 {
        BitsInConcat(out, [currentByte], order);
        BitsInOne(currentByte, order);
        Flush();
      } else {
        bitOffset := bitOffset - 1;
      }
    }

    // In the high-first order every bit is shifted down from its place, by less than the word size.
    method WriteBits(val: nat, len: nat)
      requires Valid() && (order.MsbFirst? ==> len <= 64)
      modifies this
      ensures Valid() && Written() == old(Written()) + ValueBits(val, len, order)
    {
      hide BitsIn, LsbBits, CodeBits, Pow2, Started, Unstarted;
      if order.LsbFirst? {
        var v := val;
        for i := 0 to len
          invariant Valid() && Written() + LsbBits(v, len - i) == old(Written()) + LsbBits(val, len)
        {
          ghost var w := Written();
          var b: Bit := v % 2;
          LsbBitsFirst(v, len - i);
          WriteLow(b);
          v := v / 2;
          assert w + ([b] + LsbBits(v, len - i - 1)) == (w + [b]) + LsbBits(v, len - i - 1);
        }
      } else {
        for i := 0 to len
          invariant Valid() && Written() == old(Written()) + CodeBits(val, len)[..i]
        {
          CodeBitsAt(val, len, i);
          WriteHigh((val / Pow2(len - i - 1)) % 2);
        }
      }
    }

    // The body of finish once there is something to write.
    method Flush()
      modifies this
      ensures Valid() && out == old(out) + [old(currentByte)] && Written() == BitsIn(out, order)
      ensures bitOffset == if order.MsbFirst? then 7 else 0
    {
      hide BitsIn;
      NothingStarted(order);
      out := out + [currentByte];
      bitOffset, currentByte := if order.MsbFirst? then 7 else 0, 0;
    }

    // Completes the last byte with zeros.
    method Finish()
      requires Valid()
      modifies this
      ensures Valid() && Written() == BitsIn(out, order)
      ensures exists z :: 0 <= z < 8 && BitsIn(out, order) == old(Written()) + Zeros(z)
    {
      hide BitsIn;
      if if order.MsbFirst? then bitOffset < 7 else bitOffset > 0 {
        ghost var z := Completed(currentByte, bitOffset, order);
        BitsInConcat(out, [currentByte], order);
        BitsInOne(currentByte, order);
        Flush();
        assert BitsIn(out, order) == old(Written()) + Zeros(z);
      } else {
        assert Started(currentByte, bitOffset, order) == [];
        assert BitsIn(out, order) == old(Written()) + Zeros(0);
      }
    }

    method WriteBitVec(bits: seq<Bit>)
      requires Valid()
      modifies this
      ensures Valid() && Written() == old(Written()) + bits
    {
      hide BitsIn, LsbBits, CodeBits, Started, Unstarted;
      for i := 0 to |bits|
        invariant Valid() && Written() == old(Written()) + bits[..i]
      {
        OneBitValue(bits[i], order);
        WriteBits(bits[i], 1);
      }
    }
  }

  lemma OneBitValue(b: Bit, order: BitOrder)
    ensures ValueBits(b, 1, order) == [b]
  {
  }
}
