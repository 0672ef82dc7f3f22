/** SET OF: elements written in the order of their bytes, and refused in any other order. */
module DerSetOf {
  import opened Prelude
  import opened Sorting
  import opened Base128
  import opened Der
  import opened DerTree
  import opened DerIo

  const SET := 17

  // ---- The order of byte strings ----

  predicate Leq(a: seq<Byte>, b: seq<Byte>) {
    a == [] || (b != [] && (a[0] < b[0] || (a[0] == b[0] && Leq(a[1..], b[1..]))))
  }

  // The strings agree up to position k, and there a has the smaller octet.
  predicate LessAt(a: seq<Byte>, b: seq<Byte>, k: nat) {
    k < |a| && k < |b| && a[..k] == b[..k] && a[k] < b[k]
  }

  lemma LessAtTail(a: seq<Byte>, b: seq<Byte>, k: nat)
    requires a != [] && b != [] && a[0] == b[0]
    ensures LessAt(a, b, k + 1) <==> LessAt(a[1..], b[1..], k)
    ensures !LessAt(a, b, 0)
  {
    if k < |a| - 1 && k < |b| - 1 {
      assert a[..k + 1] == [a[0]] + a[1..][..k] && b[..k + 1] == [b[0]] + b[1..][..k];
      assert a[1..][..k] == a[..k + 1][1..] && b[1..][..k] == b[..k + 1][1..];
    }
  }

  // Lexicographic: the first octet that differs decides, and a proper start comes first.
  lemma {:induction false} LeqLexicographic(a: seq<Byte>, b: seq<Byte>)
    ensures Leq(a, b) <==> a <= b || exists k: nat :: LessAt(a, b, k)
  {
    if a == [] || b == [] {
    } else if a[0] != b[0] {
      assert a[0] < b[0] ==> LessAt(a, b, 0);
      forall k: nat | LessAt(a, b, k)
        ensures a[0] < b[0]
      {
        assert k > 0 ==> a[..k][0] == b[..k][0];
      }
    } else {
      hide LessAt;
      LeqLexicographic(a[1..], b[1..]);
      assert a == [a[0]] + a[1..] && b == [b[0]] + b[1..];
      if k: nat :| LessAt(a, b, k) {
        LessAtTail(a, b, if k > 0 then k - 1 else 0);
      }
      if k: nat :| LessAt(a[1..], b[1..], k) {
        LessAtTail(a, b, k);
      }
    }
  }

  lemma {:induction false} LeqTotal(a: seq<Byte>, b: seq<Byte>)
    ensures Leq(a, b) || Leq(b, a)
    ensures Leq(a, b) && Leq(b, a) ==> a == b
  {
    if a != [] && b != [] && a[0] == b[0] {
      LeqTotal(a[1..], b[1..]);
      assert a == [a[0]] + a[1..] && b == [b[0]] + b[1..];
    }
  }

  lemma {:induction false} LeqTransitive(a: seq<Byte>, b: seq<Byte>, c: seq<Byte>)
    requires Leq(a, b) && Leq(b, c)
    ensures Leq(a, c)
  {
    if a != [] && a[0] == b[0] == c[0] {
      LeqTransitive(a[1..], b[1..], c[1..]);
    }
  }

  lemma LeqIsTotalOrder()
    ensures TotalOrder(Leq) && TotalOrder(LeqTree)
  {
    forall a: seq<Byte>, b: seq<Byte>
      ensures Leq(a, b) || Leq(b, a)
    {
      LeqTotal(a, b);
    }
    forall a: seq<Byte>, b: seq<Byte>, c: seq<Byte> | Leq(a, b) && Leq(b, c)
      ensures Leq(a, c)
    {
      LeqTransitive(a, b, c);
    }
  }

  predicate LeqTree(a: Tree, b: Tree) {
    Leq(TreeBytes(a), TreeBytes(b))
  }

  // ---- Sorting ----

  // The trees in the order of their bytes.
  function Arranged(items: seq<Tree>, n: nat): (r: seq<Tree>)
    requires n <= |items|
    ensures |r| == n
  {
    if n == 0 then [] else Insert(items[n - 1], Arranged(items, n - 1), LeqTree)
  }

  lemma {:induction false} ArrangedSorted(items: seq<Tree>, n: nat)
    requires n <= |items|
    ensures SortedBy(Arranged(items, n), LeqTree) && multiset(Arranged(items, n)) == multiset(items[..n])
  {
    hide Insert, LeqTree, SortedBy, TotalOrder;
    if n == 0 {
      NothingSorted();
    } else {
      ArrangedSorted(items, n - 1);
      LeqIsTotalOrder();
      InsertSorted(items[n - 1], Arranged(items, n - 1), LeqTree);
      assert items[..n] == items[..n - 1] + [items[n - 1]];
    }
  }

  lemma NothingSorted()
    ensures SortedBy([], LeqTree)
  {
  }

  function Encodings(s: seq<Tree>): (r: seq<seq<Byte>>)
    ensures |r| == |s|
  {
    seq(|s|, i requires 0 <= i < |s| => TreeBytes(s[i]))
  }

  // Sorting the bytes sorts the trees.
  lemma {:induction false} InsertEncoding(t: Tree, s: seq<Tree>)
    ensures Insert(TreeBytes(t), Encodings(s), Leq) == Encodings(Insert(t, s, LeqTree))
  {
    hide TreeBytes, Leq;
    if s != [] && !LeqTree(t, s[0]) {
      InsertEncoding(t, s[1..]);
      assert Encodings(s)[1..] == Encodings(s[1..]);
    }
  }

  function Flatten(s: seq<seq<Byte>>, n: nat): seq<Byte>
    requires n <= |s|
  {
    if n == 0 then [] else Flatten(s, n - 1) + s[n - 1]
  }

  lemma {:induction false} FlattenIsBytes(s: seq<Tree>, n: nat)
    requires n <= |s|
    ensures Flatten(Encodings(s), n) == BytesTo(s, n)
  {
    hide TreeBytes;
    if n > 0 {
      FlattenIsBytes(s, n - 1);
    }
  }

  // ---- Writing ----

  ghost predicate SetFits(items: seq<Tree>) {
    && (forall i :: 0 <= i < |items| ==> Fits(items[i]))
    && |BytesTo(Arranged(items, |items|), |items|)| < MAX_USIZE
  }

  // Encodes every item with a writer of its own, sorts, and joins.
  method WriteSetOf(writer: DerWriter, items: seq<Tree>) returns (ok: bool)
    requires SetFits(items)
    modifies writer
    ensures var tag := TagOr(old(writer.implicitTag), Tag(Universal, SET));
            && ok == (tag.Writable() && forall i :: 0 <= i < |items| ==> Writable(items[i]))
            && (ok ==> writer.out == old(writer.out) + SetBytes(tag, items))
    ensures ok ==> writer.implicitTag == None
  {
    hide Insert, TreeBytes, Fits, Writable, ElementBytes, Leq, Tag.Writable;
    var elements: seq<seq<Byte>> := [];
    ghost var n := |items|;
    for i := 0 to |items|
      invariant writer.out == old(writer.out) && writer.implicitTag == old(writer.implicitTag)
      invariant forall j :: 0 <= j < i ==> Writable(items[j])
      invariant elements == Encodings(Arranged(items, i))
    {
      var w := new DerWriter();
      ok := w.WriteTree(items[i]);
      if !ok {
        return;
      }
      assert w.out == TreeBytes(items[i]);
      InsertEncoding(items[i], Arranged(items, i));
      elements := Insert(w.out, elements, Leq);
    }
    var data := [];
    for i := 0 to |elements|
      invariant data == Flatten(elements, i)
    {
      data := data + elements[i];
    }
    FlattenIsBytes(Arranged(items, n), n);
    ok := writer.WriteElement(Tag(Universal, SET), true, data);
  }

  function SetBytes(tag: Tag, items: seq<Tree>): seq<Byte> {
    ElementBytes(Element(Identifier(tag, true), BytesTo(Arranged(items, |items|), |items|)))
  }

  // ---- The order of the items does not matter ----

  lemma FirstIsLeast(a: seq<seq<Byte>>, x: seq<Byte>)
    requires SortedBy(a, Leq) && x in a
    ensures Leq(a[0], x)
  {
    hide Leq;
    LeqTotal(x, x);
  }

  lemma Rest<T>(a: seq<T>)
    requires a != []
    ensures multiset(a[1..]) == multiset(a) - multiset{a[0]}
  {
    assert a == [a[0]] + a[1..];
  }

  lemma {:induction false} SortedOnce(a: seq<seq<Byte>>, b: seq<seq<Byte>>)
    requires SortedBy(a, Leq) && SortedBy(b, Leq) && multiset(a) == multiset(b)
    ensures a == b
  {
    hide Leq;
    assert |multiset(a)| == |a| && |multiset(b)| == |b|;
    if a != [] {
      assert a[0] in multiset(b) && b[0] in multiset(a);
      FirstIsLeast(a, b[0]);
      FirstIsLeast(b, a[0]);
      LeqTotal(a[0], b[0]);
      Rest(a);
      Rest(b);
      SortedOnce(a[1..], b[1..]);
      assert a == [a[0]] + a[1..] && b == [b[0]] + b[1..];
    }
  }

  lemma EncodingsConcat(a: seq<Tree>, b: seq<Tree>)
    ensures Encodings(a + b) == Encodings(a) + Encodings(b)
  {
    hide TreeBytes;
  }

  lemma {:induction false} EncodingsPermuted(a: seq<Tree>, b: seq<Tree>)
    requires multiset(a) == multiset(b)
    ensures multiset(Encodings(a)) == multiset(Encodings(b))
  {
    hide TreeBytes;
    assert |multiset(a)| == |a| && |multiset(b)| == |b|;
    if a != [] {
      Rest(a);
      assert a[0] in multiset(b);
      var j :| 0 <= j < |b| && b[j] == a[0];
      var c, d := b[..j], b[j + 1..];
      assert b == c + ([b[j]] + d);
      assert multiset(c + d) == multiset(b) - multiset{b[j]};
      EncodingsPermuted(a[1..], c + d);
      EncodingsConcat(c, [b[j]] + d);
      EncodingsConcat([b[j]], d);
      EncodingsConcat(c, d);
      EncodingsConcat([a[0]], a[1..]);
      assert a == [a[0]] + a[1..];
    }
  }

  lemma EncodingsSorted(s: seq<Tree>)
    requires SortedBy(s, LeqTree)
    ensures SortedBy(Encodings(s), Leq)
  {
    hide TreeBytes, Leq;
    forall i, j | 0 <= i < j < |s|
      ensures Leq(Encodings(s)[i], Encodings(s)[j])
    {
      assert LeqTree(s[i], s[j]);
    }
  }

  // Two writers of the same set of items write the same bytes.
  lemma SetBytesCanonical(tag: Tag, a: seq<Tree>, b: seq<Tree>)
    requires multiset(a) == multiset(b)
    ensures SetBytes(tag, a) == SetBytes(tag, b)
  {
    hide Insert, Leq, SortedBy;
    var x, y := Arranged(a, |a|), Arranged(b, |b|);
    assert |multiset(a)| == |a| && |multiset(b)| == |b|;
    assert a[..|a|] == a && b[..|b|] == b;
    ArrangedSorted(a, |a|);
    ArrangedSorted(b, |b|);
    EncodingsPermuted(x, y);
    EncodingsSorted(x);
    EncodingsSorted(y);
    SortedOnce(Encodings(x), Encodings(y));
    FlattenIsBytes(x, |x|);
    FlattenIsBytes(y, |y|);
  }

  // ---- Reading ----

  // Elements until the data ends, each with the bytes it was parsed from.
  function ParseAll(data: seq<Byte>): Result<seq<seq<Byte>>, DerError>
    decreases |data|
  {
    if data == [] then Ok([])
    else if ParseElement(data).Err? then Err(NotFinished)
    else
      ParseTakes(data);
      var rest := ParseElement(data).value.1;
      match ParseAll(rest)
      case Err(e) => Err(e)
      case Ok(slices) => Ok([data[..|data| - |rest|]] + slices)
  }

  // Every slice holds one value of the given shape and nothing else.
  function ReadEach(schema: Schema, slices: seq<seq<Byte>>, n: nat): Result<seq<Tree>, DerError>
    requires n <= |slices|
  {
    if n == 0 then Ok([]) else
      match ReadEach(schema, slices, n - 1)
      case Err(e) => Err(e)
      case Ok(items) =>
        match Read(schema, slices[n - 1])
        case Err(e) => Err(e)
        case Ok((t, rest)) => if rest != [] then Err(NotFinished) else Ok(items + [t])
  }

  function ReadSet(tag: Tag, schema: Schema, data: seq<Byte>): Result<(seq<Tree>, seq<Byte>), DerError> {
    match Expect(tag, true, data)
    case Err(e) => Err(e)
    case Ok((content, rest)) =>
      match ParseAll(content)
      case Err(e) => Err(e)
      case Ok(slices) =>
        if exists i :: 0 < i < |slices| && !Leq(slices[i - 1], slices[i]) then Err(NotSorted)
        else match ReadEach(schema, slices, |slices|)
        case Err(e) => Err(e)
        case Ok(items) => Ok((items, rest))
  }

  method ReadSetOf(reader: DerReader, schema: Schema) returns (r: Result<seq<Tree>, DerError>)
    modifies reader
    ensures match ReadSet(TagOr(old(reader.implicitTag), Tag(Universal, SET)), schema, old(reader.remaining))
            case Err(e) => r == Err(e)
            case Ok((items, rest)) => r == Ok(items) && reader.remaining == rest
  {
    hide Expect, Leq, Read;
    ghost var tag := TagOr(reader.implicitTag, Tag(Universal, SET));
    var data := reader.ReadElement(Tag(Universal, SET), true);
    if data.Err? {
      return Err(data.error);
    }
    var parsed := ParseAll(data.value);
    if parsed.Err? {
      return Err(parsed.error);
    }
    var slices := parsed.value;
    var k := 1;
    while k < |slices|
      invariant 1 <= k && (k <= |slices| || slices == [])
      invariant forall j :: 0 < j < k && j < |slices| ==> Leq(slices[j - 1], slices[j])
    {
      if !Leq(slices[k - 1], slices[k]) {
        return Err(NotSorted);
      }
      k := k + 1;
    }
    var items := [];
    for i := 0 to |slices|
      invariant reader.remaining == Expect(tag, true, old(reader.remaining)).value.1
      invariant ReadEach(schema, slices, i) == Ok(items)
    {
      var single := new DerReader(slices[i]);
      var item := single.ReadTree(schema);
      if item.Err? {
        ReadEachStops(schema, slices, i + 1, |slices|);
        return Err(item.error);
      }
      if single.remaining != [] {
        ReadEachStops(schema, slices, i + 1, |slices|);
        return Err(NotFinished);
      }
      items := items + [item.value];
    }
    r := Ok(items);
  }

  lemma {:induction false} ReadEachStops(schema: Schema, slices: seq<seq<Byte>>, n: nat, m: nat)
    requires n <= m <= |slices| && ReadEach(schema, slices, n).Err?
    ensures ReadEach(schema, slices, m) == Err(ReadEach(schema, slices, n).error)
  {
    hide Read;
    if n < m {
      ReadEachStops(schema, slices, n, m - 1);
    }
  }

  // ---- Round trip ----

  ghost predicate Sound(s: seq<Tree>) {
    forall i :: 0 <= i < |s| ==> Fits(s[i]) && Writable(s[i])
  }

  predicate AllAccepted(s: seq<Tree>, schema: Schema) {
    forall i :: 0 <= i < |s| ==> Accepts(schema, s[i])
  }

  // What the schema asks for, of every item.
  ghost function Trims(s: seq<Tree>, schema: Schema): (r: seq<Tree>)
    requires AllAccepted(s, schema)
    ensures |r| == |s|
  {
    seq(|s|, i requires 0 <= i < |s| => assert Accepts(schema, s[i]); Trim(schema, s[i]))
  }

  predicate TagsReadable(s: seq<Tree>) {
    forall i :: 0 <= i < |s| ==> s[i].tag.Readable()
  }

  lemma {:induction false} BytesFront(s: seq<Tree>, n: nat)
    requires 0 < n <= |s|
    ensures BytesTo(s, n) == TreeBytes(s[0]) + BytesTo(s[1..], n - 1)
  {
    hide TreeBytes;
    if n > 1 {
      BytesFront(s, n - 1);
    }
  }

  lemma ParseTree(t: Tree, rest: seq<Byte>)
    requires Fits(t) && Writable(t)
    ensures TreeBytes(t) != []
    ensures var r := ParseElement(TreeBytes(t) + rest);
            if t.tag.Readable() then r.Ok? && r.value.1 == rest else r.Err?
  {
    hide ParseElement, ElementBytes;
    TreeNotEmpty(t);
    ElementReadBack(ElementOf(t), rest);
  }

  lemma {:induction false} ParseAllBack(s: seq<Tree>)
    requires Sound(s)
    ensures TagsReadable(s) ==> ParseAll(BytesTo(s, |s|)) == Ok(Encodings(s))
    ensures !TagsReadable(s) ==> ParseAll(BytesTo(s, |s|)).Err?
  {
    hide TreeBytes, Fits, Writable, ParseElement, Tag.Readable;
    if s != [] {
      var first, rest := TreeBytes(s[0]), BytesTo(s[1..], |s| - 1);
      BytesFront(s, |s|);
      ParseTree(s[0], rest);
      assert forall i :: 0 <= i < |s[1..]| ==> s[1..][i] == s[i + 1];
      assert Sound(s[1..]);
      ParseAllBack(s[1..]);
      TagsReadableFront(s);
      assert (first + rest)[..|first|] == first;
      assert Encodings(s) == [first] + Encodings(s[1..]);
    }
  }

  lemma TagsReadableFront(s: seq<Tree>)
    requires s != []
    ensures TagsReadable(s) <==> s[0].tag.Readable() && TagsReadable(s[1..])
  {
    hide Tag.Readable;
    assert forall i :: 1 <= i < |s| ==> s[i] == s[1..][i - 1];
  }

  lemma {:induction false} ReadEachBack(s: seq<Tree>, schema: Schema, n: nat)
    requires n <= |s| && Sound(s)
    ensures var r := ReadEach(schema, Encodings(s), n);
            && (r.Ok? <==> AllAccepted(s[..n], schema))
            && (r.Ok? ==> r == Ok(Trims(s[..n], schema)))
  {
    hide TreeBytes, Read, Fits, Writable, Accepts, Trim;
    if n > 0 {
      ReadEachBack(s, schema, n - 1);
      ReadBackAs(schema, s[n - 1], []);
      assert TreeBytes(s[n - 1]) + [] == TreeBytes(s[n - 1]);
      assert s[..n] == s[..n - 1] + [s[n - 1]];
      TrimsSnoc(s[..n - 1], s[n - 1], schema);
    }
  }

  lemma TrimsSnoc(s: seq<Tree>, t: Tree, schema: Schema)
    ensures AllAccepted(s + [t], schema) <==> AllAccepted(s, schema) && Accepts(schema, t)
    ensures AllAccepted(s + [t], schema) ==> Trims(s + [t], schema) == Trims(s, schema) + [Trim(schema, t)]
  {
    hide Accepts, Trim;
    assert (s + [t])[|s|] == t && forall i :: 0 <= i < |s| ==> (s + [t])[i] == s[i];
  }

  lemma AcceptedTags(s: seq<Tree>, schema: Schema)
    requires AllAccepted(s, schema)
    ensures TagsReadable(s)
  {
    forall i | 0 <= i < |s|
      ensures s[i].tag.Readable()
    {
      assert Accepts(schema, s[i]);
    }
  }

  // The check of neighbours finds every pair out of order.
  lemma NeighboursSorted(a: seq<seq<Byte>>)
    ensures SortedBy(a, Leq) <==> forall i :: 0 < i < |a| ==> Leq(a[i - 1], a[i])
  {
    hide Leq;
    if forall i :: 0 < i < |a| ==> Leq(a[i - 1], a[i]) {
      forall i, j | 0 <= i < j < |a|
        ensures Leq(a[i], a[j])
      {
        NeighboursReach(a, i, j);
      }
    }
  }

  lemma {:induction false} NeighboursReach(a: seq<seq<Byte>>, i: nat, j: nat)
    requires i < j < |a| && forall k :: 0 < k < |a| ==> Leq(a[k - 1], a[k])
    ensures Leq(a[i], a[j])
    decreases j
  {
    hide Leq;
    assert Leq(a[j - 1], a[j]);
    if i < j - 1 {
      NeighboursReach(a, i, j - 1);
      LeqTransitive(a[i], a[j - 1], a[j]);
    }
  }

  // Elements in any order under the tag of a set are read exactly when their bytes are in order, the tag is
  // readable and the schema accepts every element; out of order is an error of its own.
  lemma SetReadsExactly(tag: Tag, s: seq<Tree>, schema: Schema, rest: seq<Byte>)
    requires tag.Writable() && Sound(s) && |BytesTo(s, |s|)| < MAX_USIZE
    ensures var e := Element(Identifier(tag, true), BytesTo(s, |s|));
            var r := ReadSet(tag, schema, ElementBytes(e) + rest);
            && (r.Ok? <==> tag.Readable() && SortedBy(Encodings(s), Leq) && AllAccepted(s, schema))
            && (r.Ok? ==> r == Ok((Trims(s, schema), rest)))
            && (tag.Readable() && TagsReadable(s) && !SortedBy(Encodings(s), Leq) ==> r == Err(NotSorted))
  {
    hide Leq, Sound, Expect, ElementBytes, ParseAll, ReadEach, Tag.Writable, Tag.Readable, Trims, AllAccepted,
         TagsReadable, BytesTo, Encodings, SortedBy;
    ExpectReadBack(Element(Identifier(tag, true), BytesTo(s, |s|)), tag, true, rest);
    ParseAllBack(s);
    NeighboursSorted(Encodings(s));
    ReadEachBack(s, schema, |s|);
    assert s[..|s|] == s;
    if AllAccepted(s, schema) {
      AcceptedTags(s, schema);
    }
  }

  // A set that is written is read back in the order of the bytes, each item as far as the schema asks for it,
  // exactly when the tag of the set is readable and the schema accepts every item.
  lemma SetReadBack(tag: Tag, items: seq<Tree>, schema: Schema, rest: seq<Byte>)
    requires tag.Writable() && SetFits(items) && Sound(items)
    ensures var sorted := Arranged(items, |items|);
            && multiset(sorted) == multiset(items) && SortedBy(sorted, LeqTree)
            && var r := ReadSet(tag, schema, SetBytes(tag, items) + rest);
               && (r.Ok? <==> tag.Readable() && AllAccepted(items, schema))
               && (r.Ok? ==> AllAccepted(sorted, schema) && r == Ok((Trims(sorted, schema), rest)))
  {
    hide Insert, LeqTree, Sound, ReadSet, ElementBytes, Tag.Writable, Tag.Readable, Trims, AllAccepted, BytesTo, SortedBy;
    var n := |items|;
    var sorted := Arranged(items, n);
    ArrangedSorted(items, n);
    assert items[..n] == items;
    SameItems(items, sorted, schema);
    EncodingsSorted(sorted);
    SetReadsExactly(tag, sorted, schema, rest);
  }

  lemma SameItems(a: seq<Tree>, b: seq<Tree>, schema: Schema)
    requires multiset(a) == multiset(b) && Sound(a)
    ensures |a| == |b| && Sound(b) && (AllAccepted(a, schema) <==> AllAccepted(b, schema))
  {
    hide Fits, Writable, Accepts;
    assert |multiset(a)| == |a| && |multiset(b)| == |b|;
    assert forall x :: x in a <==> x in multiset(a);
    assert forall x :: x in b <==> x in multiset(b);
    forall i | 0 <= i < |b|
      ensures b[i] in a
    {
      assert b[i] in multiset(b);
    }
    forall i | 0 <= i < |a|
      ensures a[i] in b
    {
      assert a[i] in multiset(a);
    }
  }
}
