/** DER elements: identifier octets, length octets and contents (sections 8.1.2 and 8.1.3 of ITU-T X.690). */
module Der {
  import opened Prelude
  import opened ByteOrder
  import opened Base128

  // ---- Identifiers ----

  datatype TagClass = Universal | Application | ContextSpecific | Private {
    function Code(): Byte {
      match this
      case Universal => 0
      case Application => 1
      case ContextSpecific => 2
      case Private => 3
    }

    static function From(v: Byte): TagClass
      requires v < 4
    {
      if v == 0 then Universal else if v == 1 then Application else if v == 2 then ContextSpecific else Private
    }
  }

  datatype Tag = Tag(cls: TagClass, number: nat) {
    // The writer's buffer holds the number.
    ghost predicate Writable() {
      number < Pow2(56)
    }

    // The parser takes the number back.
    predicate Readable() {
      number >= 31 ==> NonZeroDigits(number / 128)
    }
  }

  datatype Identifier = Identifier(tag: Tag, constructed: bool)

  // The fields of the first octet.
  function First(cls: TagClass, constructed: bool, low: nat): Byte
    requires low < 32
  {
    cls.Code() * 64 + (if constructed then 32 else 0) + low
  }

  // Table 1 and figure 3 of section 8.1.2 of ITU-T X.690: the class in bits 8 and 7, the form in bit 6.
  lemma FirstOctet(cls: TagClass, constructed: bool, low: nat)
    requires low < 32
    ensures First(Universal, false, low) == low && First(Application, false, low) == 0x40 + low
    ensures First(ContextSpecific, false, low) == 0x80 + low && First(Private, false, low) == 0xC0 + low
    ensures First(cls, true, low) == First(cls, false, low) + 0x20
  {
  }

  function ClassOf(first: Byte): TagClass {
    TagClass.From(first / 64)
  }

  predicate IsConstructed(first: Byte) {
    (first / 32) % 2 == 1
  }

  function Low(first: Byte): (low: nat)
    ensures low < 32
  {
    first % 32
  }

  function IdentifierBytes(id: Identifier): seq<Byte> {
    [First(id.tag.cls, id.constructed, if id.tag.number <= 30 then id.tag.number else 31)]
    + if id.tag.number >= 31 then Varint(id.tag.number) else []
  }

  method SerializeIdentifier(id: Identifier) returns (r: Option<seq<Byte>>)
    ensures r.Some? <==> id.tag.Writable()
    ensures r.Some? ==> r.value == IdentifierBytes(id)
  {
    hide Pow2, Varint;
    var out := [First(id.tag.cls, id.constructed, if id.tag.number <= 30 then id.tag.number else 31)];
    if id.tag.number >= 31 {
      var number := SerializeVarint(id.tag.number);
      if number.None? {
        return None;
      }
      out := out + number.value;
    } else {
      SmallNumber(id.tag.number);
    }
    r := Some(out);
  }

  lemma SmallNumber(n: nat)
    requires n < 32
    ensures n < Pow2(56)
  {
    assert Pow2(5) == 32;
    Pow2Monotone(5, 56);
  }

  function ReadIdentifier(data: seq<Byte>): Result<(Identifier, seq<Byte>), DerError> {
    if data == [] then Err(EndOfInput)
    else
      var cls, constructed, low := ClassOf(data[0]), IsConstructed(data[0]), Low(data[0]);
      if low < 31 then Ok((Identifier(Tag(cls, low), constructed), data[1..]))
      else match ReadVarint(data[1..], 0, MAX_OCTETS)
      case Err(e) => Err(e)
      case Ok((number, rest)) =>
        if number <= 30 then Err(ShortFormRequired) else Ok((Identifier(Tag(cls, number), constructed), rest))
  }

  lemma FirstReadBack(cls: TagClass, constructed: bool, low: nat)
    requires low < 32
    ensures var first := First(cls, constructed, low);
            ClassOf(first) == cls && IsConstructed(first) == constructed && Low(first) == low
  {
  }

  lemma FirstWrittenBack(first: Byte)
    ensures First(ClassOf(first), IsConstructed(first), Low(first)) == first
  {
  }

  lemma IdentifierReadBack(id: Identifier, rest: seq<Byte>)
    requires id.tag.Writable()
    ensures id.tag.Readable() ==> ReadIdentifier(IdentifierBytes(id) + rest) == Ok((id, rest))
    ensures !id.tag.Readable() ==> ReadIdentifier(IdentifierBytes(id) + rest).Err?
  {
    hide ReadVarint, Pow2, First, ClassOf, IsConstructed, Low;
    FirstReadBack(id.tag.cls, id.constructed, if id.tag.number <= 30 then id.tag.number else 31);
    var bytes := IdentifierBytes(id) + rest;
    assert bytes[0] == IdentifierBytes(id)[0];
    if id.tag.number >= 31 {
      assert bytes[1..] == Varint(id.tag.number) + rest;
      VarintReadBack(id.tag.number, rest);
    } else {
      assert bytes[1..] == rest;
    }
  }

  // Every accepted identifier is the one that is written.
  lemma AcceptedIdentifierIsWritten(data: seq<Byte>)
    requires ReadIdentifier(data).Ok?
    ensures var (id, rest) := ReadIdentifier(data).value; data == IdentifierBytes(id) + rest && id.tag.Readable()
  {
    hide ReadVarint, Varint, First, ClassOf, IsConstructed, Low;
    FirstWrittenBack(data[0]);
    var (id, rest) := ReadIdentifier(data).value;
    assert data == [data[0]] + data[1..];
    if Low(data[0]) == 31 {
      assert High(0) + data[1..] == data[1..];
      hide High, NonZeroDigits;
      AcceptedIsWritten(data[1..], 0, MAX_OCTETS);
      assert IdentifierBytes(id) == [data[0]] + Varint(id.tag.number);
      assert IdentifierBytes(id) + rest == [data[0]] + (Varint(id.tag.number) + rest);
    }
  }

  // ---- Lengths ----

  datatype Length = Short(n: nat) | Long(n: nat) | Indefinite

  const USIZE_OCTETS := 8

  // Big-endian without leading zeros.
  function Minimal(n: nat): seq<Byte> {
    if n == 0 then [] else Minimal(n / 256) + [n % 256]
  }

  function FromBe(data: seq<Byte>): nat {
    if data == [] then 0 else 256 * FromBe(data[..|data| - 1]) + data[|data| - 1]
  }

  // A length is a machine word, so its count of octets is at most eight.
  function LengthBytes(n: nat): seq<Byte> {
    if n <= 127 then [n] else [128 + |Minimal(n)| % 128] + Minimal(n)
  }

  function ReadLength(data: seq<Byte>): Result<(Length, seq<Byte>), DerError> {
    if data == [] then Err(EndOfInput)
    else
      var lower := data[0] % 128;
      if data[0] < 128 then Ok((Short(lower), data[1..]))
      else if lower == 0 then Ok((Indefinite, data[1..]))
      else if lower == 127 then Err(ReservedLength)
      else if lower > USIZE_OCTETS then Err(TooManyLengthOctets)
      else if |data| - 1 < lower then Err(EndOfInput)
      else
        var buf := seq(USIZE_OCTETS - lower, _ => 0) + data[1..1 + lower];
        Ok((Long(FromBe(buf)), data[1 + lower..]))
  }

  // Octet i from the end is digit i in base 256.
  lemma {:induction false} MinimalDigits(n: nat, i: nat)
    requires i < |Minimal(n)|
    ensures Minimal(n)[|Minimal(n)| - 1 - i] == (n / Pow2(8 * i)) % 256
  {
    if i > 0 {
      MinimalDigits(n / 256, i - 1);
      DigitStep(n, i);
    }
  }

  // The fixed-width form is the minimal one behind zeros.
  lemma {:induction false} StripZeros(n: nat, k: nat)
    requires n < Pow2(8 * k)
    ensures |Minimal(n)| <= k && BeBytes(n, k) == seq(k - |Minimal(n)|, _ => 0) + Minimal(n)
  {
    if n == 0 {
      ZeroBytes(k);
    } else {
      Pow2Byte(k);
      StripZeros(n / 256, k - 1);
    }
  }

  lemma {:induction false} MinimalStartsNonZero(n: nat)
    requires n > 0
    ensures |Minimal(n)| > 0 && Minimal(n)[0] != 0
  {
    if n >= 256 {
      MinimalStartsNonZero(n / 256);
    }
  }

  method SerializeLength(len: nat) returns (r: seq<Byte>)
    requires len < 0x1_0000_0000_0000_0000
    ensures r == LengthBytes(len)
  {
    hide Minimal, BeBytes, Pow2;
    Pow64();
    StripZeros(len, 8);
    if len <= 127 {
      return [len];
    }
    MinimalStartsNonZero(len);
    var buf := BeBytes(len, 8);
    var i := 0;
    while i < |buf| && buf[i] == 0
      invariant 0 <= i <= 8 - |Minimal(len)|
    {
      i := i + 1;
    }
    assert buf[i] != 0;
    assert buf[i..] == Minimal(len);
    r := [128 + (|buf| - i)] + buf[i..];
  }

  lemma {:induction false} FromBeMinimal(n: nat)
    ensures FromBe(Minimal(n)) == n
  {
    if n > 0 {
      FromBeMinimal(n / 256);
      var data := Minimal(n);
      assert data[..|data| - 1] == Minimal(n / 256) && data[|data| - 1] == n % 256;
    }
  }

  lemma {:induction false} FromBeZeros(d: seq<Byte>, zeros: nat)
    ensures FromBe(seq(zeros, _ => 0) + d) == FromBe(d) < Pow2(8 * |d|)
  {
    var data := seq(zeros, _ => 0) + d;
    if d != [] {
      FromBeZeros(d[..|d| - 1], zeros);
      assert data[..|data| - 1] == seq(zeros, _ => 0) + d[..|d| - 1];
      Pow2Byte(|d|);
    } else if zeros > 0 {
      FromBeZeros(d, zeros - 1);
      assert data[..|data| - 1] == seq(zeros - 1, _ => 0) + d;
    }
  }

  lemma LongReadBack(d: seq<Byte>, rest: seq<Byte>)
    requires 0 < |d| <= USIZE_OCTETS
    ensures ReadLength([128 + |d| % 128] + d + rest) == Ok((Long(FromBe(d)), rest))
  {
    hide FromBe, Pow2;
    var k := |d|;
    assert k % 128 == k;
    var bytes := [128 + k] + d + rest;
    FromBeZeros(d, USIZE_OCTETS - k);
    assert bytes[1..1 + k] == d;
    assert bytes[1 + k..] == rest;
    assert bytes[0] == 128 + k;
    LowerBits(bytes[0], k);
  }

  lemma LowerBits(first: Byte, k: nat)
    requires k < 128 && first == 128 + k
    ensures first % 128 == k
  {
  }

  lemma LengthReadBack(n: nat, rest: seq<Byte>)
    requires n < 0x1_0000_0000_0000_0000
    ensures ReadLength(LengthBytes(n) + rest) == Ok((if n <= 127 then Short(n) else Long(n), rest))
  {
    hide Minimal, Pow2, FromBe;
    Pow64();
    StripZeros(n, 8);
    if n <= 127 {
      assert (LengthBytes(n) + rest)[1..] == rest;
    } else {
      hide ReadLength;
      MinimalStartsNonZero(n);
      FromBeMinimal(n);
      LongReadBack(Minimal(n), rest);
    }
  }

  // ---- Elements ----

  datatype Element = Element(ident: Identifier, content: seq<Byte>)

  function ElementBytes(e: Element): seq<Byte> {
    IdentifierBytes(e.ident) + LengthBytes(|e.content|) + e.content
  }

  function ParseElement(data: seq<Byte>): Result<(Element, seq<Byte>), DerError> {
    match ReadIdentifier(data)
    case Err(e) => Err(e)
    case Ok((ident, afterIdent)) =>
      match ReadLength(afterIdent)
      case Err(e) => Err(e)
      case Ok((Indefinite, _)) => Err(IndefiniteLength)
      case Ok((len, rest)) =>
        if |rest| < len.n then Err(EndOfInput) else Ok((Element(ident, rest[..len.n]), rest[len.n..]))
  }

  lemma ElementReadBack(e: Element, rest: seq<Byte>)
    requires e.ident.tag.Writable() && |e.content| < 0x1_0000_0000_0000_0000
    ensures e.ident.tag.Readable() ==> ParseElement(ElementBytes(e) + rest) == Ok((e, rest))
    ensures !e.ident.tag.Readable() ==> ParseElement(ElementBytes(e) + rest).Err?
  {
    hide Minimal, IdentifierBytes, LengthBytes, ReadIdentifier, ReadLength, Pow2;
    var n := |e.content|;
    LengthReadBack(n, e.content + rest);
    var afterIdent := LengthBytes(n) + (e.content + rest);
    IdentifierReadBack(e.ident, afterIdent);
    assert ElementBytes(e) + rest == IdentifierBytes(e.ident) + afterIdent;
    assert (e.content + rest)[..n] == e.content && (e.content + rest)[n..] == rest;
  }

  // Parsing always takes something.
  lemma ParseTakes(data: seq<Byte>)
    requires ParseElement(data).Ok?
    ensures |ParseElement(data).value.1| < |data|
  {
    hide IdentifierBytes;
    AcceptedIdentifierIsWritten(data);
    IdentifierNotEmpty(ReadIdentifier(data).value.0);
  }

  lemma IdentifierNotEmpty(id: Identifier)
    ensures |IdentifierBytes(id)| > 0
  {
  }

  // ---- What is accepted ----

  lemma {:induction false} MinimalOfBytes(d: seq<Byte>)
    requires d != [] && d[0] != 0
    ensures FromBe(d) > 0 && Minimal(FromBe(d)) == d
  {
    var n := |d| - 1;
    if n == 0 {
      assert FromBe(d[..0]) == 0;
      assert FromBe(d) == d[0] && Minimal(d[0] / 256) == [];
    } else {
      MinimalOfBytes(d[..n]);
      var high := FromBe(d[..n]);
      assert FromBe(d) / 256 == high && FromBe(d) % 256 == d[n];
    }
  }

  // A length that is accepted is the one that is written exactly when its long form was needed
  // and has no leading zero: the parser also takes longer forms.
  lemma AcceptedLength(data: seq<Byte>)
    requires ReadLength(data).Ok? && !ReadLength(data).value.0.Indefinite?
    ensures var (len, rest) := ReadLength(data).value;
            data == LengthBytes(len.n) + rest <==> len.Short? || (len.n > 127 && data[1] != 0)
  {
    hide FromBe, Minimal, Pow2;
    var (len, rest) := ReadLength(data).value;
    assert data == [data[0]] + data[1..];
    if len.Long? {
      var k := data[0] % 128;
      var d := data[1..1 + k];
      FromBeZeros(d, 8 - k);
      assert data == [data[0]] + d + rest;
      if len.n > 127 {
        MinimalStartsNonZero(len.n);
        if d[0] != 0 {
          MinimalOfBytes(d);
        } else {
          assert (LengthBytes(len.n) + rest)[1] == Minimal(len.n)[0];
        }
      } else {
        assert (LengthBytes(len.n) + rest)[0] == len.n;
      }
    }
  }

  // An accepted element is the one that is written exactly when its length octets are.
  lemma AcceptedElement(data: seq<Byte>)
    requires ParseElement(data).Ok?
    ensures var (e, rest) := ParseElement(data).value;
            var (len, _) := ReadLength(ReadIdentifier(data).value.1).value;
            && !len.Indefinite?
            && (data == ElementBytes(e) + rest <==>
                len.Short? || (len.n > 127 && ReadIdentifier(data).value.1[1] != 0))
  {
    hide ReadIdentifier, ReadLength, IdentifierBytes, LengthBytes;
    var (e, rest) := ParseElement(data).value;
    var (id, middle) := ReadIdentifier(data).value;
    var (len, content) := ReadLength(middle).value;
    AcceptedIdentifierIsWritten(data);
    AcceptedLength(middle);
    assert content == e.content + rest;
    assert ElementBytes(e) + rest == IdentifierBytes(id) + (LengthBytes(len.n) + content);
    if data == ElementBytes(e) + rest {
      assert data[|IdentifierBytes(id)|..] == middle == LengthBytes(len.n) + content;
    }
  }

  lemma LongFive(content: seq<Byte>)
    ensures ReadLength([0x81, 5] + content) == Ok((Long(5), content))
  {
    var data := [0x81, 5] + content;
    assert data[1..2] == [5] && data[2..] == content;
    FromBeZeros([5], 7);
    assert [5][..0] == [] && FromBe([5]) == 5;
  }

  // Five contents octets behind the length octets 0x81 0x05 are accepted, and written back behind 0x05.
  lemma LongLengthAccepted(content: seq<Byte>)
    requires |content| == 5
    ensures var e := Element(Identifier(Tag(Universal, 4), false), content);
            var data := [4] + ([0x81, 5] + content);
            ParseElement(data) == Ok((e, [])) && ElementBytes(e) != data
  {
    var id := Identifier(Tag(Universal, 4), false);
    var data := [4] + ([0x81, 5] + content);
    assert IdentifierBytes(id) == [4] && LengthBytes(5) == [5];
    IdentifierReadBack(id, [0x81, 5] + content) by {
      SmallNumber(4);
    }
    LongFive(content);
    hide ReadIdentifier, ReadLength, IdentifierBytes, LengthBytes;
    assert content[..5] == content && content[5..] == [];
    assert |ElementBytes(Element(id, content))| != |data|;
  }
}
