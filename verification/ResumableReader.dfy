/**
 Reading values from a stream that arrives in chunks.  When a chunk ends in the middle
 of a value, the client keeps the unconsumed bits and loads them into the reader of the
 next chunk; it sees the same values as a reader over the whole stream.
 */
module ResumableReader {
  import opened Prelude
  import opened BitStrings
  import opened BitIo

  // How a client reads one value: from the numbers read so far for this value, the width of the next
  // read, or None when the value is complete. Reads of no bits are legal; rank bounds how many of
  // them follow each other.
  datatype Plan = Plan(next: seq<nat> -> Option<nat>, rank: seq<nat> -> nat)

  // Only reads of no bits so far, all of which return zero.
  ghost predicate Idle(plan: Plan, acc: seq<nat>) {
    forall j :: 0 <= j < |acc| ==> acc[j] == 0 && plan.next(acc[..j]) == Some(0)
  }

  // Widths are those read_bits can return, reads of no bits come to an end, and a value takes at
  // least one bit.
  ghost predicate Proper(plan: Plan) {
    && (forall acc :: plan.next(acc).Some? ==> plan.next(acc).value <= 64)
    && (forall acc :: plan.next(acc) == Some(0) ==> plan.rank(acc + [0]) < plan.rank(acc))
    && (forall acc :: Idle(plan, acc) ==> plan.next(acc).Some?)
  }

  // One value from the bits u: the numbers read and the bits left, or None when u ends first.
  ghost function ReadValue(plan: Plan, acc: seq<nat>, u: seq<Bit>): (r: Option<(seq<nat>, seq<Bit>)>)
    requires Proper(plan)
    ensures r.Some? ==> |r.value.1| <= |u|
    decreases |u|, plan.rank(acc)
  {
    match plan.next(acc)
    case None => Some((acc, u))
    case Some(w) =>
      if w > |u| then None else
        NoBitsRead(u[..w]);
        ReadValue(plan, acc + [FromLsb(u[..w])], u[w..])
  }

  lemma NoBitsRead(v: seq<Bit>)
    ensures v == [] ==> FromLsb(v) == 0
  {
  }

  // Before its first bit a value is not complete.
  lemma {:induction false} ReadValueTakes(plan: Plan, acc: seq<nat>, u: seq<Bit>)
    requires Proper(plan) && Idle(plan, acc) && ReadValue(plan, acc, u).Some?
    ensures |ReadValue(plan, acc, u).value.1| < |u|
    decreases plan.rank(acc)
  {
    hide FromLsb;
    var w := plan.next(acc).value;
    NoBitsRead(u[..w]);
    if w == 0 {
      var more := acc + [0];
      forall j | 0 <= j < |more|
        ensures more[j] == 0 && plan.next(more[..j]) == Some(0)
      {
        assert more[..j] == acc[..j];
        assert acc[..|acc|] == acc;
      }
      assert u[0..] == u;
      ReadValueTakes(plan, more, u);
    }
  }

  // All complete values at the front of u.
  ghost function Values(plan: Plan, u: seq<Bit>): seq<seq<nat>>
    requires Proper(plan)
    decreases |u|
  {
    match ReadValue(plan, [], u)
    case None => []
    case Some((v, rest)) =>
      ReadValueTakes(plan, [], u);
      [v] + Values(plan, rest)
  }

  // A value that is complete stays the same when more bits follow.
  lemma {:induction false} ReadValueExtends(plan: Plan, acc: seq<nat>, u: seq<Bit>, more: seq<Bit>)
    requires Proper(plan) && ReadValue(plan, acc, u).Some?
    ensures var (v, rest) := ReadValue(plan, acc, u).value;
            ReadValue(plan, acc, u + more) == Some((v, rest + more))
    decreases |u|, plan.rank(acc)
  {
    hide FromLsb;
    if plan.next(acc).Some? {
      var w := plan.next(acc).value;
      NoBitsRead(u[..w]);
      assert (u + more)[..w] == u[..w] && (u + more)[w..] == u[w..] + more;
      ReadValueExtends(plan, acc + [FromLsb(u[..w])], u[w..], more);
    }
  }

  function Flatten(chunks: seq<seq<Byte>>): seq<Byte> {
    if chunks == [] then [] else chunks[0] + Flatten(chunks[1..])
  }

  // Reads one value, without consuming it.
  method TryValue(reader: BitReader, plan: Plan) returns (r: Option<seq<nat>>)
    requires reader.Valid() && Proper(plan)
    modifies reader, reader.buffer
    ensures reader.Valid() && reader.Unconsumed() == old(reader.Unconsumed())
    ensures match ReadValue(plan, [], old(reader.Unread()))
            case None => r == None && reader.input == []
            case Some((v, rest)) => r == Some(v) && reader.Unread() == rest
  {
    hide FromLsb, BitsIn, ZeroFrom;
    ghost var u := reader.Unread();
    var acc: seq<nat> := [];
    while plan.next(acc).Some?
      invariant reader.Valid() && reader.Unconsumed() == old(reader.Unconsumed())
      invariant ReadValue(plan, [], u) == ReadValue(plan, acc, reader.Unread())
      decreases |reader.Unread()|, plan.rank(acc)
    {
      NoBitsRead(reader.Unread()[..Min(plan.next(acc).value, |reader.Unread()|)]);
      var x := reader.ReadBits(plan.next(acc).value);
      if !x.Value? {
        return None;
      }
      acc := acc + [x.value];
    }
    r := Some(acc);
  }

  // Reads all complete values of one chunk; the reader is left at a value boundary
  // as far as consumption goes.
  method ReadChunk(reader: BitReader, plan: Plan, ghost more: seq<Bit>) returns (values: seq<seq<nat>>)
    requires reader.Valid() && Proper(plan) && reader.Unread() == reader.Unconsumed()
    modifies reader, reader.buffer
    ensures reader.Valid() && reader.input == []
    ensures Values(plan, old(reader.Unread()) + more) == values + Values(plan, reader.Unconsumed() + more)
    ensures ReadValue(plan, [], reader.Unconsumed()).None?
  {
    hide BitsIn, ZeroFrom, ReadValue;
    ghost var u := reader.Unread();
    values := [];
    while true
      invariant reader.Valid() && reader.Unread() == reader.Unconsumed()
      invariant Values(plan, u + more) == values + Values(plan, reader.Unread() + more)
      decreases |reader.Unread()|
    {
      ghost var x := reader.Unread();
      var v := TryValue(reader, plan);
      if v.None? {
        return;
      }
      ReadValueExtends(plan, [], x, more);
      ReadValueTakes(plan, [], x);
      reader.Consume();
      values := values + [v.value];
    }
  }

  // A fresh reader for one chunk, primed with the bits saved from the one before.
  method NextChunk(chunk: seq<Byte>, order: BitOrder, plan: Plan, saved: BitVector, ghost more: seq<Bit>)
    returns (values: seq<seq<nat>>, left: BitVector)
    requires Proper(plan) && saved.Valid()
    ensures fresh(left) && left.Valid() && ReadValue(plan, [], left.Bits()).None?
    ensures Values(plan, saved.Bits() + (BitsIn(chunk, order) + more)) == values + Values(plan, left.Bits() + more)
  {
    hide BitsIn, ZeroFrom, ReadValue, Values;
    var reader := new BitReader(chunk, order);
    var ok := reader.Load(saved);
    assert saved.Bits() + (BitsIn(chunk, order) + more) == reader.Unread() + more;
    values := ReadChunk(reader, plan, more);
    left := reader.IntoUnconsumedBits();
    NoBitsIn(reader.order);
    assert left.Bits() == reader.Unconsumed();
  }

  method ReadAll(chunks: seq<seq<Byte>>, order: BitOrder, plan: Plan) returns (values: seq<seq<nat>>)
    requires Proper(plan)
    ensures values == Values(plan, BitsIn(Flatten(chunks), order))
  {
    hide BitsIn, ZeroFrom, ReadValue, Values, Flatten;
    values := [];
    var saved := new BitVector();
    ghost var total := BitsIn(Flatten(chunks), order);
    assert chunks[0..] == chunks;
    assert saved.Bits() + total == total;
    NothingToRead(plan);
    for k := 0 to |chunks|
      invariant fresh(saved) && saved.Valid() && ReadValue(plan, [], saved.Bits()).None?
      invariant Values(plan, total) == values + Values(plan, saved.Bits() + BitsIn(Flatten(chunks[k..]), order))
    {
      FlattenFirst(chunks, k, order);
      var vs, left := NextChunk(chunks[k], order, plan, saved, BitsIn(Flatten(chunks[k + 1..]), order));
      values := values + vs;
      saved := left;
    }
    assert chunks[|chunks|..] == [];
    NoBitsIn(order);
    assert saved.Bits() + [] == saved.Bits();
    NoValues(plan, saved.Bits());
  }

  lemma NothingToRead(plan: Plan)
    requires Proper(plan)
    ensures ReadValue(plan, [], []).None?
  {
    if ReadValue(plan, [], []).Some? {
      ReadValueTakes(plan, [], []);
    }
  }

  lemma NoValues(plan: Plan, u: seq<Bit>)
    requires Proper(plan) && ReadValue(plan, [], u).None?
    ensures Values(plan, u) == []
  {
  }

  lemma NoBitsIn(order: BitOrder)
    ensures BitsIn([], order) == [] && Flatten([]) == []
  {
  }

  lemma FlattenFirst(chunks: seq<seq<Byte>>, k: nat, order: BitOrder)
    requires k < |chunks|
    ensures BitsIn(Flatten(chunks[k..]), order)
         == BitsIn(chunks[k], order) + BitsIn(Flatten(chunks[k + 1..]), order)
  {
    assert chunks[k..][1..] == chunks[k + 1..];
    BitsInConcat(chunks[k], Flatten(chunks[k + 1..]), order);
  }
}
