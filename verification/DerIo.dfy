/** The DER writer and reader objects. */
module DerIo {
  import opened Prelude
  import opened Base128
  import opened Der
  import opened DerTree

  function TagOr(implicitTag: Option<Tag>, default: Tag): Tag {
    if implicitTag.Some? then implicitTag.value else default
  }

  class DerWriter {
    var out: seq<Byte>
    // Where each element starts.
    var indices: seq<nat>
    var implicitTag: Option<Tag>

    constructor ()
      ensures out == [] && indices == [] && implicitTag == None
    {
      out := [];
      indices := [];
      implicitTag := None;
    }

    // Fails for a tag number of more than 56 bits.
    method WriteTag(default: Tag, constructed: bool) returns (ok: bool)
      modifies this
      ensures var tag := TagOr(old(implicitTag), default);
              && ok == tag.Writable()
              && (ok ==> out == old(out) + IdentifierBytes(Identifier(tag, constructed)))
      ensures implicitTag == None && indices == old(indices) + [|old(out)|]
    {
      hide IdentifierBytes, Tag.Writable;
      var tag := TagOr(implicitTag, default);
      implicitTag := None;
      indices := indices + [|out|];
      var bytes := SerializeIdentifier(Identifier(tag, constructed));
      ok := bytes.Some?;
      if ok {
        out := out + bytes.value;
      }
    }

    method WriteLength(len: nat)
      requires len < MAX_USIZE
      modifies this`out
      ensures out == old(out) + LengthBytes(len)
    {
      var bytes := SerializeLength(len);
      out := out + bytes;
    }

    // Tag, length and contents.
    method WriteElement(default: Tag, constructed: bool, content: seq<Byte>) returns (ok: bool)
      requires |content| < MAX_USIZE
      modifies this
      ensures var tag := TagOr(old(implicitTag), default);
              && ok == tag.Writable()
              && (ok ==> out == old(out) + ElementBytes(Element(Identifier(tag, constructed), content)))
      ensures implicitTag == None && indices == old(indices) + [|old(out)|]
    {
      hide IdentifierBytes, LengthBytes, Tag.Writable;
      ok := WriteTag(default, constructed);
      if ok {
        WriteLength(|content|);
        out := out + content;
        ghost var id := Identifier(TagOr(old(implicitTag), default), constructed);
        assert old(out) + IdentifierBytes(id) + LengthBytes(|content|) + content
            == old(out) + (IdentifierBytes(id) + LengthBytes(|content|) + content);
      }
    }

    method WriteOctetString(octets: seq<Byte>) returns (ok: bool)
      requires |octets| < MAX_USIZE
      modifies this
      ensures var tag := TagOr(old(implicitTag), Tag(Universal, OCTET_STRING));
              && ok == tag.Writable()
              && (ok ==> out == old(out) + ElementBytes(Element(Identifier(tag, false), octets)))
      ensures implicitTag == None && indices == old(indices) + [|old(out)|]
    {
      ok := WriteElement(Tag(Universal, OCTET_STRING), false, octets);
    }

    // The children go to a writer of their own; their bytes become the contents.
    method WriteSequence(t: Tree) returns (ok: bool)
      requires t.Constructed? && Fits(t)
      modifies this
      ensures var tag := TagOr(old(implicitTag), Tag(Universal, SEQUENCE));
              && ok == (tag.Writable() && forall i :: 0 <= i < |t.children| ==> Writable(t.children[i]))
              && (ok ==> out == old(out) + TreeBytes(Constructed(tag, t.children)))
      ensures ok ==> implicitTag == None && indices == old(indices) + [|old(out)|]
      decreases t, 0
    {
      hide Tag.Writable, ElementBytes;
      var writer := new DerWriter();
      for i := 0 to |t.children|
        invariant fresh(writer) && writer.implicitTag == None
        invariant writer.out == BytesTo(t.children, i)
        invariant forall j :: 0 <= j < i ==> Writable(t.children[j])
        invariant out == old(out) && indices == old(indices) && implicitTag == old(implicitTag)
      {
        ok := writer.WriteTree(t.children[i]);
        if !ok {
          return false;
        }
      }
      ok := WriteElement(Tag(Universal, SEQUENCE), true, writer.out);
    }

    // Any tree, its tag written implicitly; a tag that is set already wins.
    method WriteTree(t: Tree) returns (ok: bool)
      requires Fits(t)
      modifies this
      ensures var u := Retagged(t, TagOr(old(implicitTag), t.tag));
              ok == Writable(u) && (ok ==> out == old(out) + TreeBytes(u))
      ensures ok ==> implicitTag == None && indices == old(indices) + [|old(out)|]
      decreases t, 1
    {
      hide Tag.Writable, ElementBytes;
      if implicitTag.None? {
        implicitTag := Some(t.tag);
      }
      match t {
        case Primitive(_, content) => ok := WriteOctetString(content);
        case Constructed(_, _) => ok := WriteSequence(t);
      }
      implicitTag := None;
    }
  }

  class DerReader {
    var remaining: seq<Byte>
    var implicitTag: Option<Tag>

    constructor (input: seq<Byte>)
      ensures remaining == input && implicitTag == None
    {
      remaining := input;
      implicitTag := None;
    }

    method ReadElement(default: Tag, constructed: bool) returns (r: Result<seq<Byte>, DerError>)
      modifies this
      ensures implicitTag == None
      ensures match Expect(TagOr(old(implicitTag), default), constructed, old(remaining))
              case Err(e) => r == Err(e) && remaining == old(remaining)
              case Ok((content, rest)) => r == Ok(content) && remaining == rest
    {
      hide ParseElement;
      var tag := TagOr(implicitTag, default);
      implicitTag := None;
      match ParseElement(remaining) {
        case Err(e) => return Err(e);
        case Ok((el, rest)) =>
          if tag == el.ident.tag {
            if constructed != el.ident.constructed {
              return Err(WrongForm);
            }
            remaining := rest;
            return Ok(el.content);
          }
          return Err(WrongTag);
      }
    }

    // Reads the contents with a reader of their own, which must be finished at the end unless the sequence
    // is extensible.
    method ReadSequence(schema: Schema) returns (r: Result<seq<Tree>, DerError>)
      requires schema.Node?
      modifies this
      ensures implicitTag == None
      ensures match Read(RetaggedSchema(schema, TagOr(old(implicitTag), Tag(Universal, SEQUENCE))), old(remaining))
              case Err(e) => r == Err(e)
              case Ok((t, rest)) => t.Constructed? && r == Ok(t.children) && remaining == rest
      decreases schema, 0
    {
      hide Expect;
      ghost var tag := TagOr(implicitTag, Tag(Universal, SEQUENCE));
      var data := ReadElement(Tag(Universal, SEQUENCE), true);
      if data.Err? {
        return Err(data.error);
      }
      var reader := new DerReader(data.value);
      var items := [];
      ghost var fields := schema.fields;
      for i := 0 to |schema.fields|
        invariant fresh(reader) && reader.implicitTag == None && implicitTag == None
        invariant ReadTo(fields, i, data.value) == Ok((items, reader.remaining))
        invariant Expect(tag, true, old(remaining)) == Ok((data.value, remaining))
      {
        var item := reader.ReadTree(schema.fields[i]);
        if item.Err? {
          ReadToStops(fields, i + 1, |fields|, data.value);
          return Err(item.error);
        }
        items := items + [item.value];
      }
      if reader.remaining != [] && !schema.extensible {
        return Err(NotFinished);
      }
      r := Ok(items);
    }

    // Any tree of the given shape, under the tag that is set already or under its own.
    method ReadTree(schema: Schema) returns (r: Result<Tree, DerError>)
      modifies this
      ensures implicitTag == None
      ensures match Read(RetaggedSchema(schema, TagOr(old(implicitTag), schema.tag)), old(remaining))
              case Err(e) => r == Err(e)
              case Ok((t, rest)) => r == Ok(t) && remaining == rest
      decreases schema, 1
    {
      hide Expect;
      if implicitTag.None? {
        implicitTag := Some(schema.tag);
      }
      var tag := implicitTag.value;
      match schema {
        case Leaf(_) =>
          var content := ReadElement(Tag(Universal, OCTET_STRING), false);
          r := if content.Ok? then Ok(Primitive(tag, content.value)) else Err(content.error);
        case Node(_, _, _) =>
          var children := ReadSequence(schema);
          r := if children.Ok? then Ok(Constructed(tag, children.value)) else Err(children.error);
      }
      implicitTag := None;
    }
  }

  lemma {:induction false} ReadToStops(fields: seq<Schema>, n: nat, m: nat, data: seq<Byte>)
    requires n <= m <= |fields| && ReadTo(fields, n, data).Err?
    ensures ReadTo(fields, m, data) == Err(ReadTo(fields, n, data).error)
  {
    if n < m {
      ReadToStops(fields, n, m - 1, data);
    }
  }

  // Writing any tree and reading it back by any schema.
  method WriteThenReadAs(t: Tree, schema: Schema, rest: seq<Byte>) returns (r: Option<Tree>, left: seq<Byte>)
    requires Fits(t)
    ensures r.Some? <==> Writable(t) && Accepts(schema, t)
    ensures r.Some? ==> Accepts(schema, t) && r == Some(Trim(schema, t)) && left == rest
  {
    hide Fits, Writable, Accepts, Trim, TreeBytes, Read;
    var writer := new DerWriter();
    var ok := writer.WriteTree(t);
    r, left := None, [];
    if ok {
      ReadBackAs(schema, t, rest);
      assert [] + TreeBytes(t) == TreeBytes(t);
      var reader := new DerReader(writer.out + rest);
      var back := reader.ReadTree(schema);
      if back.Ok? {
        r, left := Some(back.value), reader.remaining;
      }
    }
  }

  // Its own shape gives all of it back, when every tag in it is readable.
  method WriteThenRead(t: Tree, rest: seq<Byte>) returns (r: Option<Tree>, left: seq<Byte>)
    requires Fits(t)
    ensures r.Some? <==> Writable(t) && Readable(t)
    ensures r.Some? ==> r == Some(t) && left == rest
  {
    hide Fits, Writable, Readable, Matches, ReadableAs, Trim;
    ShapeMatches(t);
    r, left := WriteThenReadAs(t, Shape(t), rest);
  }
}
