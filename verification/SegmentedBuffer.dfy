/** The cyclic buffer of packets: a byte ring that overwrites its oldest packets. */
module SegmentedBuffers {
  import opened Prelude

  // ---- Bytes on a ring ----

  // The k-th byte after start.
  function Wrap(x: nat, n: nat): nat
    requires x < 2 * n
  {
    if x < n then x else x - n
  }

  lemma WrapIsMod(x: nat, n: nat)
    requires x < 2 * n
    ensures x % n == Wrap(x, n)
  {
    if x >= n {
      assert (x - n + n) % n == (x - n) % n;
    }
  }

  ghost function Ring(buf: seq<Byte>, start: nat, length: nat): (r: seq<Byte>)
    requires length <= |buf| && (length > 0 ==> start < |buf|)
    ensures |r| == length
  {
    seq(length, k requires 0 <= k < length => buf[Wrap(start + k, |buf|)])
  }

  lemma RingAt(buf: seq<Byte>, start: nat, length: nat, k: nat)
    requires k < length <= |buf| && start < |buf|
    ensures Ring(buf, start, length)[k] == buf[Wrap(start + k, |buf|)]
  {
  }

  lemma RingFirst(buf: seq<Byte>, start: nat, length: nat)
    requires 0 < length <= |buf| && start < |buf|
    ensures Ring(buf, start, length)[0] == buf[start]
  {
    RingAt(buf, start, length, 0);
  }

  lemma RingDrop(buf: seq<Byte>, start: nat, length: nat, m: nat)
    requires m <= length <= |buf| && start < |buf|
    ensures Ring(buf, Wrap(start + m, |buf|), length - m) == Ring(buf, start, length)[m..]
  {
    var a, b := Ring(buf, Wrap(start + m, |buf|), length - m), Ring(buf, start, length);
    forall k | 0 <= k < length - m
      ensures a[k] == b[m..][k]
    {
      assert b[m..][k] == b[m + k];
      assert Wrap(Wrap(start + m, |buf|) + k, |buf|) == Wrap(start + (m + k), |buf|);
    }
  }

  lemma RingStart(buf: seq<Byte>, start: nat, length: nat, m: nat)
    requires m <= length <= |buf| && start < |buf| && start + m <= |buf|
    ensures Ring(buf, start, length)[..m] == buf[start..start + m]
  {
    forall k | 0 <= k < m
      ensures Ring(buf, start, length)[k] == buf[start..start + m][k]
    {
      RingAt(buf, start, length, k);
    }
  }

  lemma RingAppend(buf: seq<Byte>, start: nat, length: nat, i: nat, data: seq<Byte>)
    requires length + |data| <= |buf| && start < |buf| && i == Wrap(start + length, |buf|) && i + |data| <= |buf|
    ensures var after := buf[..i] + data + buf[i + |data|..];
            Ring(after, start, length + |data|) == Ring(buf, start, length) + data
  {
    var after := buf[..i] + data + buf[i + |data|..];
    var a, b := Ring(after, start, length + |data|), Ring(buf, start, length) + data;
    forall k | 0 <= k < length + |data|
      ensures a[k] == b[k]
    {
      var x := Wrap(start + k, |buf|);
      assert if k < length then x < i || x >= i + |data| else x == i + (k - length);
    }
  }

  // Room is missing exactly when the oldest byte lies where the next n bytes go.
  lemma OverrunIsFull(n: nat, start: nat, length: nat, i: nat, m: nat)
    requires start < n && length <= n && i == Wrap(start + length, n) && i + m <= n
    ensures (length > 0 && i <= start < i + m) <==> length + m > n
  {
  }

  // ---- Packets ----

  type Segment = s: seq<Byte> | |s| <= 255 witness []

  function Encode(segments: seq<Segment>): seq<Byte> {
    if segments == [] then [] else [|segments[0]|] + segments[0] + Encode(segments[1..])
  }

  lemma {:induction false} EncodeConcat(a: seq<Segment>, b: seq<Segment>)
    ensures Encode(a + b) == Encode(a) + Encode(b)
  {
    if a == [] {
      assert a + b == b;
    } else {
      assert (a + b)[1..] == a[1..] + b;
      EncodeConcat(a[1..], b);
    }
  }

  lemma Spliced(bytes: seq<Byte>, before: seq<Byte>, done: nat, n: nat)
    requires done + n <= |bytes| && done + n <= |before|
    ensures var out := bytes[..done] + before[done..];
            out[..done] + bytes[done..][..n] + out[done + n..] == bytes[..done + n] + before[done + n..]
  {
    var out := bytes[..done] + before[done..];
    assert out[..done] == bytes[..done];
    assert out[done + n..] == before[done + n..];
    assert bytes[..done] + bytes[done..][..n] == bytes[..done + n];
  }

  lemma EmptyOrNot(segments: seq<Segment>)
    ensures Encode(segments) == [] <==> segments == []
  {
  }

  lemma Sliced(head: Byte, body: seq<Byte>, rest: seq<Byte>, tail: seq<Byte>)
    ensures var bytes := [head] + body + rest + tail;
            && bytes[0] == head
            && bytes[1..1 + |body|] == body
            && bytes[1 + |body|..] == rest + tail
  {
    assert [head] + body + rest + tail == [head] + body + (rest + tail);
  }

  lemma FirstPacket(whole: seq<Segment>, tail: seq<Byte>)
    requires whole != []
    ensures var bytes, len := Encode(whole) + tail, |whole[0]|;
            && |bytes| >= 1 + len && bytes[0] == len
            && bytes[1..1 + len] == whole[0]
            && bytes[1 + len..] == Encode(whole[1..]) + tail
  {
    Sliced(|whole[0]|, whole[0], Encode(whole[1..]), tail);
  }

  // What write puts into the ring.
  function LengthAnd(segment: seq<Byte>): seq<Byte> {
    [|segment| % 256] + segment
  }

  lemma LastPacket(kept: seq<Segment>, segment: Segment)
    ensures Encode(kept + [segment]) == Encode(kept) + ([|segment|] + segment)
  {
    EncodeConcat(kept, [segment]);
    assert Encode([segment]) == [|segment|] + segment + Encode([]);
  }

  // The packets left when room is made for some more bytes: the oldest ones go first.
  function Kept(segments: seq<Segment>, extra: nat, n: nat): seq<Segment> {
    if segments == [] || |Encode(segments)| + extra <= n then segments else Kept(segments[1..], extra, n)
  }

  lemma KeptStep(segments: seq<Segment>, extra: nat, n: nat)
    requires extra <= n
    ensures if |Encode(segments)| + extra > n
            then segments != [] && Kept(segments, extra, n) == Kept(segments[1..], extra, n)
            else Kept(segments, extra, n) == segments
  {
  }

  // The longest suffix that fits.
  lemma {:induction false} KeptIsLongestSuffix(segments: seq<Segment>, extra: nat, n: nat) returns (d: nat)
    requires extra <= n
    ensures d <= |segments| && Kept(segments, extra, n) == segments[d..]
    ensures |Encode(segments[d..])| + extra <= n
    ensures forall e :: 0 <= e < d ==> |Encode(segments[e..])| + extra > n
  {
    assert segments[0..] == segments;
    if segments == [] || |Encode(segments)| + extra <= n {
      d := 0;
    } else {
      var c := KeptIsLongestSuffix(segments[1..], extra, n);
      d := c + 1;
      assert segments[1..][c..] == segments[d..];
      forall e | 0 <= e < d
        ensures |Encode(segments[e..])| + extra > n
      {
        if e > 0 {
          assert segments[1..][e - 1..] == segments[e..];
        }
      }
    }
  }

  lemma {:induction false} KeptTwice(segments: seq<Segment>, a: nat, b: nat, n: nat)
    requires a <= b
    ensures Kept(Kept(segments, a, n), b, n) == Kept(segments, b, n)
  {
    if segments != [] && |Encode(segments)| + a > n {
      KeptTwice(segments[1..], a, b, n);
    }
  }

  // ---- The buffer ----

  class SegmentedBuffer {
    var start: nat
    var length: nat
    const buf: array<Byte>
    // The packets, oldest first.
    ghost var segments: seq<Segment>

    ghost predicate InRange()
      reads this
    {
      length <= buf.Length && (start < buf.Length || (start == 0 && buf.Length == 0))
    }

    ghost function Content(): seq<Byte>
      requires InRange()
      reads this, buf
    {
      Ring(buf[..], start, length)
    }

    ghost predicate Valid()
      reads this, buf
    {
      InRange() && Content() == Encode(segments)
    }

    constructor (buffer: array<Byte>)
      ensures Valid() && segments == [] && buf == buffer
    {
      start := 0;
      length := 0;
      buf := buffer;
      segments := [];
    }

    method IsEmpty() returns (empty: bool)
      requires InRange()
      ensures empty == (Content() == []) && (Valid() ==> empty == (segments == []))
    {
      EmptyOrNot(segments);
      empty := length == 0;
    }

    method Clear()
      modifies this
      ensures Valid() && segments == []
    {
      start := 0;
      length := 0;
      segments := [];
    }

    // Drops the oldest packet.
    method Evict(ghost whole: seq<Segment>, ghost tail: seq<Byte>)
      requires InRange() && Content() == Encode(whole) + tail && whole != []
      modifies this`start, this`length
      ensures InRange() && Content() == Encode(whole[1..]) + tail && length < old(length)
      ensures Wrap(start + length, buf.Length) == old(Wrap(start + length, buf.Length))
    {
      hide Ring, Encode;
      FirstPacket(whole, tail);
      RingFirst(buf[..], start, length);
      var first: nat := buf[start];
      RingDrop(buf[..], start, length, 1 + first);
      WrapIsMod(start + 1 + first, buf.Length);
      start := start + 1;
      length := length - 1;
      start := start + first;
      length := length - first;
      start := start % buf.Length;
    }

    // Copies bytes in after the last one.
    method CopyIn(i: nat, data: seq<Byte>)
      requires InRange() && buf.Length > 0 && i == Wrap(start + length, buf.Length)
      requires length + |data| <= buf.Length && i + |data| <= buf.Length
      modifies this`length, buf
      ensures InRange() && Content() == old(Content()) + data
    {
      hide Ring, Wrap;
      RingAppend(buf[..], start, length, i, data);
      forall k | 0 <= k < |data| {
        buf[i + k] := data[k];
      }
      assert buf[..] == old(buf[..])[..i] + data + old(buf[..])[i + |data|..];
      length := length + |data|;
    }

    // Appends as much as fits before the end of the array. The ring holds whole packets, then
    // the bytes of the packet being written; only whole packets are evicted.
    method AppendPartial(data: seq<Byte>, ghost whole: seq<Segment>, ghost tail: seq<Byte>)
      returns (n: nat)
      requires InRange() && Content() == Encode(whole) + tail
      requires data != [] && |tail| + |data| <= buf.Length
      modifies this`start, this`length, buf
      ensures InRange() && 0 < n <= |data|
      ensures Content() == Encode(Kept(whole, |tail| + n, buf.Length)) + (tail + data[..n])
    {
      hide Ring, Encode, Kept, Wrap;
      WrapIsMod(start + length, buf.Length);
      var i := (start + length) % buf.Length;
      var j := Min(i + |data|, buf.Length);
      n := j - i;
      ghost var cur := whole;
      while length > 0 && start >= i && start < j
        invariant InRange() && i == Wrap(start + length, buf.Length)
        invariant Content() == Encode(cur) + tail
        invariant Kept(cur, |tail| + n, buf.Length) == Kept(whole, |tail| + n, buf.Length)
        decreases length
      {
        OverrunIsFull(buf.Length, start, length, i, n);
        KeptStep(cur, |tail| + n, buf.Length);
        Evict(cur, tail);
        cur := cur[1..];
      }
      OverrunIsFull(buf.Length, start, length, i, n);
      KeptStep(cur, |tail| + n, buf.Length);
      CopyIn(i, data[..n]);
      assert Encode(cur) + tail + data[..n] == Encode(cur) + (tail + data[..n]);
    }

    // Keeps the packets that still fit and adds the new one with its length byte, which must fit together.
    // The length byte is the length modulo 256, so that longer packets are not stored as packets.
    method Write(segment: seq<Byte>)
      requires Valid() && |segment| + 1 <= buf.Length
      modifies this, buf
      ensures var kept := Kept(old(segments), |segment| + 1, buf.Length);
              && InRange() && Content() == Encode(kept) + LengthAnd(segment)
              && (|segment| <= 255 ==> Valid() && segments == kept + [segment])
    {
      hide Ring, Encode, Kept, Wrap;
      ghost var whole := segments;
      var lengthByte := |segment| % 256;
      ghost var tail: seq<Byte> := [lengthByte];
      var n := AppendPartial([lengthByte], whole, []);
      ghost var kept := Kept(whole, 1, buf.Length);
      assert [] + [lengthByte][..1] == tail;
      var rest := segment;
      while rest != []
        invariant InRange() && tail + rest == LengthAnd(segment)
        invariant kept == Kept(whole, |tail|, buf.Length)
        invariant Content() == Encode(kept) + tail
        decreases |rest|
      {
        n := AppendPartial(rest, kept, tail);
        KeptTwice(whole, |tail|, |tail| + n, buf.Length);
        kept := Kept(kept, |tail| + n, buf.Length);
        tail := tail + rest[..n];
        rest := rest[n..];
      }
      if |segment| <= 255 {
        segments := kept + [segment];
        LastPacket(kept, segment);
      }
    }

    // Takes the first byte for a length; in a ring of packets that is the length of the oldest.
    method Peek() returns (len: Option<nat>)
      requires InRange()
      ensures len == if Content() == [] then None else Some(Content()[0])
      ensures Valid() ==> len == if segments == [] then None else Some(|segments[0]|)
    {
      OldestFirst(segments);
      if length == 0 {
        return None;
      }
      RingFirst(buf[..], start, length);
      len := Some(buf[start]);
    }

    // Moves bytes out, up to the end of the array, and panics when the ring holds fewer.
    method CopyPiece(out: array<Byte>, done: nat, remaining: nat) returns (n: nat, ok: bool)
      requires InRange() && buf.Length > 0 && 0 < remaining && done + remaining <= out.Length && out != buf
      modifies this`start, this`length, out
      ensures 0 < n <= remaining && ok == (n <= old(length))
      ensures ok ==> InRange() && length == old(length) - n && Content() == old(Content())[n..]
      ensures ok ==> out[..] == old(out[..])[..done] + old(Content())[..n] + old(out[..])[done + n..]
    {
      hide Ring, Wrap;
      var i := start;
      var j := Min(i + remaining, buf.Length);
      n := j - i;
      if n <= length {
        RingDrop(buf[..], start, length, n);
        RingStart(buf[..], start, length, n);
      }
      WrapIsMod(j, buf.Length);
      forall k | 0 <= k < n {
        out[done + k] := buf[i + k];
      }
      start := j % buf.Length;
      if n > length {
        return n, false;
      }
      length := length - n;
      assert buf[..] == old(buf[..]);
      ok := true;
    }

    // Moves the next bytes out, in one or two pieces.
    method CopyOut(out: array<Byte>, count: nat) returns (ok: bool)
      requires InRange() && buf.Length > 0 && count <= out.Length && out != buf
      modifies this`start, this`length, out
      ensures ok == (count <= old(length))
      ensures ok ==> InRange() && Content() == old(Content())[count..]
      ensures ok ==> out[..] == old(Content())[..count] + old(out[..])[count..]
    {
      hide Ring, Wrap;
      var remaining, done := count, 0;
      ghost var bytes, before := Content(), out[..];
      while remaining > 0
        invariant InRange() && 0 <= remaining && 0 <= done && done + remaining == count && length + done == |bytes|
        invariant Content() == bytes[done..]
        invariant out[..] == bytes[..done] + before[done..]
      {
        var n, fine := CopyPiece(out, done, remaining);
        if !fine {
          return false;
        }
        Spliced(bytes, before, done, n);
        remaining := remaining - n;
        done := done + n;
      }
      ok := true;
    }

    // Takes the first byte for a length and copies that many bytes out; in a ring of packets that is the
    // oldest packet.
    method Read(out: array<Byte>) returns (r: ReadOutcome)
      requires InRange() && out != buf && (Content() != [] ==> Content()[0] <= out.Length)
      modifies this, out
      ensures old(Content()) == [] ==> r == Nothing && InRange() && Content() == [] && out[..] == old(out[..])
      ensures old(Content()) != [] ==>
                var bytes, n := old(Content()), old(Content())[0];
                && r == (if 1 + n <= |bytes| then Packet(n) else Underflow)
                && (r.Packet? ==> InRange() && Content() == bytes[1 + n..]
                                  && out[..] == bytes[1..1 + n] + old(out[..])[n..])
      ensures old(Valid()) ==>
                if old(segments) == [] then r == Nothing && Valid() && segments == []
                else
                  && r == Packet(|old(segments)[0]|)
                  && Valid() && segments == old(segments)[1..]
                  && out[..] == old(segments)[0] + old(out[..])[|old(segments)[0]|..]
    {
      hide Ring, Encode, Wrap;
      OldestFirst(segments);
      if length == 0 {
        return Nothing;
      }
      RingFirst(buf[..], start, length);
      var count: nat := buf[start];
      RingDrop(buf[..], start, length, 1);
      WrapIsMod(start + 1, buf.Length);
      start := (start + 1) % buf.Length;
      length := length - 1;
      ghost var bytes := old(Content());
      var ok := CopyOut(out, count);
      if !ok {
        return Underflow;
      }
      assert bytes[1..][..count] == bytes[1..1 + count] && bytes[1..][count..] == bytes[1 + count..];
      if segments != [] {
        segments := segments[1..];
      }
      r := Packet(count);
    }
  }

  datatype ReadOutcome = Nothing | Packet(len: nat) | Underflow

  lemma OldestFirst(segments: seq<Segment>)
    ensures Encode(segments) == [] <==> segments == []
    ensures segments != [] ==>
              var bytes, len := Encode(segments), |segments[0]|;
              && |bytes| >= 1 + len && bytes[0] == len
              && bytes[1..1 + len] == segments[0]
              && bytes[1 + len..] == Encode(segments[1..])
  {
    hide Encode;
    EmptyOrNot(segments);
    if segments != [] {
      FirstPacket(segments, []);
      assert Encode(segments) + [] == Encode(segments) && Encode(segments[1..]) + [] == Encode(segments[1..]);
    }
  }

  // A packet that is written into an empty ring and read is the packet exactly when it has at most 255 bytes;
  // otherwise only its first bytes come back, as many as the cut length says.
  method WriteThenRead(buffer: array<Byte>, segment: seq<Byte>) returns (back: seq<Byte>)
    requires |segment| + 1 <= buffer.Length
    modifies buffer
    ensures back == segment[..|segment| % 256]
    ensures back == segment <==> |segment| <= 255
  {
    hide Ring, Wrap;
    var ring := new SegmentedBuffer(buffer);
    ring.Write(segment);
    var out := new Byte[255](_ => 0);
    assert ring.Content() == LengthAnd(segment) by {
      assert Encode([]) + LengthAnd(segment) == LengthAnd(segment);
    }
    var r := ring.Read(out);
    back := out[..r.len];
    assert LengthAnd(segment)[1..1 + |segment| % 256] == segment[..|segment| % 256];
  }
}
