/** Nested DER values: writing them, and reading them back by their expected shape. */
module DerTree {
  import opened Prelude
  import opened Base128
  import opened Der

  datatype Tree = Primitive(tag: Tag, content: seq<Byte>) | Constructed(tag: Tag, children: seq<Tree>)

  // What a reader expects: an octet string, or a sequence that may have more elements than the fields
  // when it is extensible.
  datatype Schema = Leaf(tag: Tag) | Node(tag: Tag, extensible: bool, fields: seq<Schema>)

  // The same value under another tag.
  function Retagged(t: Tree, tag: Tag): Tree {
    t.(tag := tag)
  }

  function RetaggedSchema(schema: Schema, tag: Tag): Schema {
    schema.(tag := tag)
  }

  const SEQUENCE := 16
  const OCTET_STRING := 4
  const MAX_USIZE := 0x1_0000_0000_0000_0000

  // ---- What is written ----

  function TreeBytes(t: Tree): seq<Byte> {
    match t
    case Primitive(tag, content) => ElementBytes(Element(Identifier(tag, false), content))
    case Constructed(tag, children) => ElementBytes(Element(Identifier(tag, true), BytesTo(children, |children|)))
  }

  // The first n trees.
  function BytesTo(s: seq<Tree>, n: nat): seq<Byte>
    requires n <= |s|
    decreases s, n
  {
    if n == 0 then [] else BytesTo(s, n - 1) + TreeBytes(s[n - 1])
  }

  function Shape(t: Tree): Schema {
    match t
    case Primitive(tag, _) => Leaf(tag)
    case Constructed(tag, children) => Node(tag, false, Shapes(children))
  }

  function Shapes(s: seq<Tree>): (r: seq<Schema>)
    ensures |r| == |s|
    decreases s, 0
  {
    seq(|s|, i requires 0 <= i < |s| => Shape(s[i]))
  }

  // Every length is a machine word.
  ghost predicate Fits(t: Tree) {
    match t
    case Primitive(_, content) => |content| < MAX_USIZE
    case Constructed(_, children) =>
      |BytesTo(children, |children|)| < MAX_USIZE && forall i :: 0 <= i < |children| ==> Fits(children[i])
  }

  ghost predicate Writable(t: Tree) {
    t.tag.Writable() && (t.Constructed? ==> forall i :: 0 <= i < |t.children| ==> Writable(t.children[i]))
  }

  predicate Readable(t: Tree) {
    t.tag.Readable() && (t.Constructed? ==> forall i :: 0 <= i < |t.children| ==> Readable(t.children[i]))
  }

  // ---- What is read ----

  // The contents of the first element, when it has the tag and the form asked for.
  function Expect(tag: Tag, constructed: bool, data: seq<Byte>): Result<(seq<Byte>, seq<Byte>), DerError> {
    match ParseElement(data)
    case Err(e) => Err(e)
    case Ok((el, rest)) =>
      if el.ident.tag != tag then Err(WrongTag)
      else if el.ident.constructed != constructed then Err(WrongForm)
      else Ok((el.content, rest))
  }

  function Read(schema: Schema, data: seq<Byte>): Result<(Tree, seq<Byte>), DerError> {
    match schema
    case Leaf(tag) => (
      match Expect(tag, false, data)
      case Err(e) => Err(e)
      case Ok((content, rest)) => Ok((Primitive(tag, content), rest)))
    case Node(tag, extensible, fields) =>
      match Expect(tag, true, data)
      case Err(e) => Err(e)
      case Ok((content, rest)) =>
        match ReadTo(fields, |fields|, content)
        case Err(e) => Err(e)
        case Ok((children, left)) => 
          if left != [] && !extensible then Err(NotFinished) else Ok((Constructed(tag, children), rest))
  }

  // The first n fields.
  function ReadTo(fields: seq<Schema>, n: nat, data: seq<Byte>): Result<(seq<Tree>, seq<Byte>), DerError>
    requires n <= |fields|
    decreases fields, n
  {
    if n == 0 then Ok(([], data)) else
      match ReadTo(fields, n - 1, data)
      case Err(e) => Err(e)
      case Ok((trees, left)) =>
        match Read(fields[n - 1], left)
        case Err(e) => Err(e)
        case Ok((t, rest)) => Ok((trees + [t], rest))
  }

  // ---- Round trip ----

  // A written element is taken exactly by the one who asks for its tag and its form.
  lemma ExpectReadBack(e: Element, tag: Tag, constructed: bool, rest: seq<Byte>)
    requires e.ident.tag.Writable() && |e.content| < MAX_USIZE
    ensures var r := Expect(tag, constructed, ElementBytes(e) + rest);
            && (if e.ident == Identifier(tag, constructed) && tag.Readable() then r == Ok((e.content, rest)) else r.Err?)
            && (e.ident.tag.Readable() ==>
                  && (e.ident.tag != tag ==> r == Err(WrongTag))
                  && (e.ident.tag == tag && e.ident.constructed != constructed ==> r == Err(WrongForm)))
  {
    hide ElementBytes, ParseElement, Tag.Writable, Tag.Readable;
    ElementReadBack(e, rest);
  }

  // The tree has what the schema asks for, and more only where the schema is extensible.
  predicate Matches(schema: Schema, t: Tree) {
    match schema
    case Leaf(tag) => t.Primitive? && t.tag == tag
    case Node(tag, extensible, fields) =>
      && t.Constructed? && t.tag == tag
      && |fields| <= |t.children| && (extensible || |fields| == |t.children|)
      && forall i :: 0 <= i < |fields| ==> Matches(fields[i], t.children[i])
  }

  // The part of the tree that the schema asks for.
  function Trim(schema: Schema, t: Tree): Tree
    requires Matches(schema, t)
  {
    match schema
    case Leaf(_) => t
    case Node(tag, _, fields) =>
      Constructed(tag, seq(|fields|, i requires 0 <= i < |fields| => Trim(fields[i], t.children[i])))
  }

  predicate ReadableAs(schema: Schema, t: Tree)
    requires Matches(schema, t)
  {
    && t.tag.Readable()
    && (schema.Node? ==> forall i :: 0 <= i < |schema.fields| ==> ReadableAs(schema.fields[i], t.children[i]))
  }

  // The tree has what the schema asks for, and the tags asked for are readable.
  predicate Accepts(schema: Schema, t: Tree) {
    Matches(schema, t) && ReadableAs(schema, t)
  }

  lemma AcceptsNode(tag: Tag, extensible: bool, fields: seq<Schema>, t: Tree)
    ensures Accepts(Node(tag, extensible, fields), t) <==>
      && t.Constructed? && t.tag == tag && tag.Readable()
      && |fields| <= |t.children| && (extensible || |fields| == |t.children|)
      && forall i :: 0 <= i < |fields| ==> Accepts(fields[i], t.children[i])
  {
    hide Tag.Readable;
    if t.Constructed? && |fields| <= |t.children| && forall i :: 0 <= i < |fields| ==> Accepts(fields[i], t.children[i]) {
      assert forall i :: 0 <= i < |fields| ==> Accepts(fields[i], t.children[i]) ==> Matches(fields[i], t.children[i]);
    }
  }

  function ElementOf(t: Tree): Element {
    match t
    case Primitive(tag, content) => Element(Identifier(tag, false), content)
    case Constructed(tag, children) => Element(Identifier(tag, true), BytesTo(children, |children|))
  }

  // The trees from the n-th on.
  ghost function BytesFrom(s: seq<Tree>, n: nat): seq<Byte>
    requires n <= |s|
    decreases |s| - n
  {
    if n == |s| then [] else TreeBytes(s[n]) + BytesFrom(s, n + 1)
  }

  lemma {:induction false} BytesSplit(s: seq<Tree>, n: nat)
    requires n <= |s|
    ensures BytesTo(s, |s|) == BytesTo(s, n) + BytesFrom(s, n)
    decreases |s| - n
  {
    hide TreeBytes;
    if n < |s| {
      BytesSplit(s, n + 1);
      assert BytesTo(s, n) + TreeBytes(s[n]) + BytesFrom(s, n + 1) == BytesTo(s, n) + (TreeBytes(s[n]) + BytesFrom(s, n + 1));
    }
  }

  lemma TreeNotEmpty(t: Tree)
    ensures TreeBytes(t) != [] && TreeBytes(t) == ElementBytes(ElementOf(t))
  {
    hide IdentifierBytes, LengthBytes;
    IdentifierNotEmpty(ElementOf(t).ident);
  }

  lemma ReadNothing(schema: Schema)
    ensures Read(schema, []).Err?
  {
  }

  // A tree that is written is read by exactly the schemas that accept it, and nothing is left over.
  lemma {:induction false} ReadBackAs(schema: Schema, t: Tree, rest: seq<Byte>)
    requires Fits(t) && Writable(t)
    ensures Read(schema, TreeBytes(t) + rest).Ok? <==> Accepts(schema, t)
    ensures Accepts(schema, t) ==> Read(schema, TreeBytes(t) + rest) == Ok((Trim(schema, t), rest))
    decreases schema
  {
    hide ElementBytes, Expect, Tag.Writable, Tag.Readable, TreeBytes;
    TreeNotEmpty(t);
    var e := ElementOf(t);
    match schema {
      case Leaf(tag) => ExpectReadBack(e, tag, false, rest);
      case Node(tag, extensible, fields) =>
        ExpectReadBack(e, tag, true, rest);
        if e.ident == Identifier(tag, true) {
          ReadChildren(schema, t);
        }
    }
  }

  lemma {:induction false} ReadChildren(schema: Schema, t: Tree)
    requires schema.Node? && t.Constructed? && t.tag == schema.tag && Fits(t) && Writable(t)
    ensures var r := ReadTo(schema.fields, |schema.fields|, ElementOf(t).content);
            && (t.tag.Readable() ==>
                  (Accepts(schema, t) <==> r.Ok? && (r.value.1 == [] || schema.extensible)))
            && (Accepts(schema, t) ==> Trim(schema, t) == Constructed(t.tag, r.value.0))
    decreases schema, 0
  {
    hide Tag.Writable, Tag.Readable, TreeBytes, Accepts, Read;
    var fields, s := schema.fields, t.children;
    BytesSplit(s, 0);
    assert ElementOf(t).content == BytesFrom(s, 0);
    ReadBackTo(fields, s, |fields|);
    AcceptsNode(schema.tag, schema.extensible, fields, t);
    if |fields| < |s| {
      TreeNotEmpty(s[|fields|]);
    }
    if Accepts(schema, t) {
      TrimNode(schema, t, ReadTo(fields, |fields|, ElementOf(t).content).value.0);
    }
  }

  // Elements after the last field, where none are allowed, are what the reader complains of.
  lemma LeftOver(tag: Tag, fields: seq<Schema>, t: Tree, rest: seq<Byte>)
    requires Fits(t) && Writable(t) && t.Constructed? && t.tag == tag && tag.Readable()
    requires |fields| < |t.children| && forall i :: 0 <= i < |fields| ==> Accepts(fields[i], t.children[i])
    ensures Read(Node(tag, false, fields), TreeBytes(t) + rest) == Err(NotFinished)
  {
    hide ElementBytes, Expect, Tag.Writable, Tag.Readable, TreeBytes, Accepts;
    var s := t.children;
    TreeNotEmpty(t);
    ExpectReadBack(ElementOf(t), tag, true, rest);
    BytesSplit(s, 0);
    assert ElementOf(t).content == BytesFrom(s, 0);
    ReadBackTo(fields, s, |fields|);
    TreeNotEmpty(s[|fields|]);
  }

  lemma TrimNode(schema: Schema, t: Tree, trimmed: seq<Tree>)
    requires schema.Node? && Accepts(schema, t) && |trimmed| == |schema.fields|
    requires forall i :: 0 <= i < |trimmed| ==>
               Accepts(schema.fields[i], t.children[i]) && trimmed[i] == Trim(schema.fields[i], t.children[i])
    ensures Trim(schema, t) == Constructed(t.tag, trimmed)
  {
    hide ReadableAs;
    assert Trim(schema, t).children == trimmed;
  }

  lemma {:induction false} ReadBackTo(fields: seq<Schema>, s: seq<Tree>, n: nat)
    requires n <= |fields| && forall i :: 0 <= i < |s| ==> Fits(s[i]) && Writable(s[i])
    ensures var r := ReadTo(fields, n, BytesFrom(s, 0));
            && (r.Ok? <==> n <= |s| && forall i :: 0 <= i < n ==> Accepts(fields[i], s[i]))
            && (r.Ok? ==>
                  && r.value.1 == BytesFrom(s, n) && |r.value.0| == n
                  && forall i :: 0 <= i < n ==> Accepts(fields[i], s[i]) && r.value.0[i] == Trim(fields[i], s[i]))
    decreases fields, n
  {
    hide Fits, Writable, Matches, Trim, ReadableAs, TreeBytes, Read;
    if n > 0 {
      ReadBackTo(fields, s, n - 1);
      if n <= |s| {
        ReadBackAs(fields[n - 1], s[n - 1], BytesFrom(s, n));
      } else {
        ReadNothing(fields[n - 1]);
      }
    }
  }

  lemma ShapesAt(s: seq<Tree>, i: nat)
    requires i < |s|
    ensures Shapes(s)[i] == Shape(s[i])
  {
  }

  // The tree's own shape asks for all of it.
  lemma {:induction false} ShapeMatches(t: Tree)
    ensures Matches(Shape(t), t) && Trim(Shape(t), t) == t && (ReadableAs(Shape(t), t) <==> Readable(t))
    decreases t
  {
    if t.Constructed? {
      var fields := Shapes(t.children);
      assert Shape(t) == Node(t.tag, false, fields);
      forall i | 0 <= i < |t.children|
        ensures Matches(fields[i], t.children[i]) && Trim(fields[i], t.children[i]) == t.children[i]
        ensures ReadableAs(fields[i], t.children[i]) <==> Readable(t.children[i])
      {
        ShapeMatches(t.children[i]);
        ShapesAt(t.children, i);
      }
      assert Trim(Shape(t), t).children == t.children;
    }
  }

  // A tree that is written is read back, with nothing left over, exactly when all its tags are readable.
  lemma ReadBack(t: Tree, rest: seq<Byte>)
    requires Fits(t) && Writable(t)
    ensures Readable(t) ==> Read(Shape(t), TreeBytes(t) + rest) == Ok((t, rest))
    ensures !Readable(t) ==> Read(Shape(t), TreeBytes(t) + rest).Err?
  {
    hide Fits, Writable, Matches, Trim, Readable, ReadableAs, TreeBytes, Read, Shape;
    assert Accepts(Shape(t), t) <==> Matches(Shape(t), t) && ReadableAs(Shape(t), t);
    ShapeMatches(t);
    ReadBackAs(Shape(t), t, rest);
  }
}
