/** Base-128 integers: seven bits to an octet, the top bit set on all octets but the last. */
module Base128 {
  import opened Prelude

  datatype DerError =
    | EndOfInput | ZeroDigit | NumberTooLarge | ShortFormRequired
    | ReservedLength | TooManyLengthOctets | IndefiniteLength
    | WrongTag | WrongForm | NotFinished | NotSorted

  // The octets of a number that others follow.
  function High(n: nat): seq<Byte> {
    if n == 0 then [] else High(n / 128) + [128 + n % 128]
  }

  // The octets of a whole number.
  function Varint(n: nat): seq<Byte> {
    High(n / 128) + [n % 128]
  }

  // Digit i in base 128, counted from the end, with the top bit set on all octets but the last.
  lemma {:induction false} HighDigits(n: nat, i: nat)
    requires i < |High(n)|
    ensures High(n)[|High(n)| - 1 - i] == 128 + (n / Pow2(7 * i)) % 128
  {
    if i > 0 {
      HighDigits(n / 128, i - 1);
      SevenMore(n, i);
    }
  }

  lemma SevenMore(n: nat, i: nat)
    requires i > 0
    ensures (n / 128) / Pow2(7 * (i - 1)) == n / Pow2(7 * i)
  {
    Pow2Add(7, 7 * (i - 1));
    assert Pow2(7) == 128;
    DivDiv(n, 128, Pow2(7 * (i - 1)));
  }

  lemma VarintDigits(n: nat, i: nat)
    requires i < |Varint(n)|
    ensures Varint(n)[|Varint(n)| - 1 - i] == (n / Pow2(7 * i)) % 128 + if i > 0 then 128 else 0
  {
    if i > 0 {
      HighDigits(n / 128, i - 1);
      SevenMore(n, i);
    }
  }

  // No more octets than needed.
  lemma {:induction false} VarintIsShortest(n: nat)
    ensures n > 0 ==> |High(n)| > 0 && High(n)[0] > 128
    ensures |Varint(n)| > 1 ==> Varint(n)[0] > 128
    decreases n
  {
    if n >= 128 {
      VarintIsShortest(n / 128);
    }
  }

  // No digit of the number is zero.
  predicate NonZeroDigits(n: nat) {
    n == 0 || (n % 128 != 0 && NonZeroDigits(n / 128))
  }

  // ---- Writing ----

  lemma {:induction false} HighLength(n: nat, k: nat)
    requires n < Pow2(7 * k)
    ensures |High(n)| <= k
  {
    if n > 0 && k > 0 {
      Pow2Add(7, 7 * (k - 1));
      assert Pow2(7) == 128;
      HighLength(n / 128, k - 1);
    }
  }

  // Eight octets hold the numbers of at most 56 bits; a larger one runs off the front of the buffer.
  method SerializeVarint(number: nat) returns (r: Option<seq<Byte>>)
    ensures r.Some? <==> number < Pow2(56)
    ensures r.Some? ==> r.value == Varint(number)
  {
    hide High, Pow2;
    var num := number;
    var buf := new Byte[8](_ => 0);
    var i := 7;
    Pow2Step(0);
    while true
      invariant 0 <= i <= 7 && buf.Length == 8 && fresh(buf)
      invariant buf[i] == if i == 7 then 0 else 128
      invariant forall k :: 0 <= k < i ==> buf[k] == 0
      invariant i == 7 ==> num == number
      invariant i < 7 ==> num > 0 && High(number / 128) + [number % 128] == High(num) + buf[i + 1..]
      invariant number < Pow2(56) <==> num < Pow2(7 * (i + 1))
      decreases i
    {
      var b := num % 128;
      ghost var was := num;
      ghost var later := buf[i + 1..];
      HighStep(num);
      DropSeven(num, i);
      num := num / 128;
      buf[i] := buf[i] + b;
      assert buf[i + 1..] == later && buf[i..] == [buf[i]] + later;
      if num == 0 {
        break;
      }
      if i == 0 {
        return None;
      }
      buf[i - 1] := buf[i - 1] + 128;
      assert buf[i..] == [buf[i]] + later;
      i := i - 1;
    }
    r := Some(buf[i..]);
  }

  lemma HighStep(n: nat)
    ensures n > 0 ==> High(n) == High(n / 128) + [128 + n % 128]
    ensures High(0) == []
  {
  }

  lemma DropSeven(n: nat, i: nat)
    ensures n < Pow2(7 * (i + 1)) <==> n / 128 < Pow2(7 * i)
  {
    Pow2Add(7, 7 * i);
    assert Pow2(7) == 128;
  }

  // ---- Parsing ----

  // Reads one octet at a time; a zero digit before the last one is refused.
  function ReadVarint(data: seq<Byte>, number: nat, budget: nat): Result<(nat, seq<Byte>), DerError> {
    if budget == 0 then Err(NumberTooLarge)
    else if data == [] then Err(EndOfInput)
    else
      var digit := data[0] % 128;
      var next := number * 128 + digit;
      if data[0] < 128 then Ok((next, data[1..]))
      else if digit == 0 then Err(ZeroDigit)
      else ReadVarint(data[1..], next, budget - 1)
  }

  // A 64-bit number has at most nine whole groups of seven bits.
  const MAX_OCTETS := 9

  method ParseVarint(data: seq<Byte>) returns (r: Result<(nat, seq<Byte>), DerError>)
    ensures r == ReadVarint(data, 0, MAX_OCTETS)
    ensures r.Ok? ==> r.value.0 < Pow2(63)
  {
    hide Pow2;
    var number := 0;
    var rest := data;
    Pow2Step(0);
    for i := 0 to MAX_OCTETS
      invariant 0 <= number < Pow2(7 * i)
      invariant ReadVarint(data, 0, MAX_OCTETS) == ReadVarint(rest, number, MAX_OCTETS - i)
    {
      if rest == [] {
        return Err(EndOfInput);
      }
      var octet := rest[0];
      rest := rest[1..];
      var part := octet % 128;
      DropSeven(number * 128 + part, i);
      Pow2Monotone(7 * (i + 1), 63);
      number := number * 128 + part;
      if octet / 128 == 0 {
        return Ok((number, rest));
      }
      if part == 0 {
        return Err(ZeroDigit);
      }
    }
    r := Err(NumberTooLarge);
  }

  // ---- Parsing and writing undo each other ----

  lemma {:induction false} ReadHigh(n: nat, tail: seq<Byte>, budget: nat)
    requires |High(n)| <= budget
    ensures NonZeroDigits(n) ==> ReadVarint(High(n) + tail, 0, budget) == ReadVarint(tail, n, budget - |High(n)|)
    ensures !NonZeroDigits(n) ==> ReadVarint(High(n) + tail, 0, budget).Err?
  {
    if n == 0 {
      assert High(n) + tail == tail;
    } else {
      var last := 128 + n % 128;
      assert High(n) + tail == High(n / 128) + ([last] + tail);
      ReadHigh(n / 128, [last] + tail, budget);
      assert ([last] + tail)[1..] == tail;
    }
  }

  lemma ReadLast(last: Byte, rest: seq<Byte>, number: nat, budget: nat)
    requires last < 128 && budget > 0
    ensures ReadVarint([last] + rest, number, budget) == Ok((number * 128 + last, rest))
  {
    assert ([last] + rest)[1..] == rest;
  }

  // What is written is read back exactly when no digit but the last is zero.
  lemma VarintReadBack(n: nat, rest: seq<Byte>)
    requires n < Pow2(56)
    ensures ReadVarint(Varint(n) + rest, 0, MAX_OCTETS) == Ok((n, rest)) <==> NonZeroDigits(n / 128)
    ensures !NonZeroDigits(n / 128) ==> ReadVarint(Varint(n) + rest, 0, MAX_OCTETS).Err?
  {
    hide High, Pow2, ReadVarint, NonZeroDigits;
    DropSeven(n, 7);
    HighLength(n / 128, 7);
    var last: Byte := n % 128;
    assert Varint(n) + rest == High(n / 128) + ([last] + rest);
    ReadHigh(n / 128, [last] + rest, MAX_OCTETS);
    ReadLast(last, rest, n / 128, MAX_OCTETS - |High(n / 128)|);
  }

  // Every accepted encoding is the one that is written for its value.
  lemma {:induction false} AcceptedIsWritten(data: seq<Byte>, number: nat, budget: nat)
    requires ReadVarint(data, number, budget).Ok? && NonZeroDigits(number)
    ensures var (n, rest) := ReadVarint(data, number, budget).value;
            High(number) + data == Varint(n) + rest && NonZeroDigits(n / 128)
    decreases budget
  {
    var digit := data[0] % 128;
    var next := number * 128 + digit;
    assert next / 128 == number && next % 128 == digit;
    var (n, rest) := ReadVarint(data, number, budget).value;
    if data[0] < 128 {
      assert data == [data[0]] + rest;
    } else {
      AcceptedIsWritten(data[1..], next, budget - 1);
      assert High(next) == High(number) + [data[0]];
      assert High(number) + data == High(next) + data[1..];
    }
  }

  // 2^14 has the digits 1, 0, 0: it is written and then refused.
  lemma ZeroDigitRefused()
    ensures Varint(16384) == [129, 128, 0]
    ensures ReadVarint(Varint(16384), 0, MAX_OCTETS) == Err(ZeroDigit)
  {
    assert High(1) == [129] && High(128) == [129, 128];
  }
}
