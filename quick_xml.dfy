/** The part of the quick_xml library that the settings rewriter relies on,
    taken at the level of parsed events: the events a Reader yields, a
    Reader that yields them one at a time, a Writer that appends them to an
    in-memory buffer, and the owned start tag that is edited in place.
    Byte-level parsing and serialisation are not modelled; a Reader is given
    the outcomes of its successive reads directly. */
module QuickXml {
  import opened Optional

  /** One `key="value"` pair of a tag, the key qualified by its prefix. */
  datatype Attribute = Attribute(key: string, value: string)

  /** A parsing event. Element names are qualified names (prefix included),
      compared as whole byte strings. */
  datatype Event =
    | Start(name: string, attributes: seq<Attribute>)
    | End(name: string)
    | Empty(name: string, attributes: seq<Attribute>)
    | Text(content: string)
    | CData(content: string)
    | Comment(content: string)
    | Decl(content: string)
    | PI(content: string)
    | DocType(content: string)
    | Eof

  /** The outcome of one `read_event` call: an event, or a syntax error
      reported together with the reader's buffer position. */
  datatype ReadItem = Read(event: Event) | Malformed(position: nat)

  /** A forward-only reader. `items` are the outcomes its successive reads
      produce; once they are used up, every further read yields Eof. */
  class Reader {
    const items: seq<ReadItem>
    var consumed: nat

    ghost predicate Valid()
      reads this
    {
      consumed <= |items|
    }

    constructor (items: seq<ReadItem>)
      ensures Valid()
      ensures this.items == items && consumed == 0
    {
      this.items := items;
      consumed := 0;
    }

    method ReadEvent() returns (r: ReadItem)
      requires Valid()
      modifies this
      ensures Valid()
      ensures old(consumed) < |items| ==> r == items[old(consumed)] && consumed == old(consumed) + 1
      ensures old(consumed) == |items| ==> r == Read(Eof) && consumed == old(consumed)
    {
      if consumed < |items| {
        r := items[consumed];
        consumed := consumed + 1;
      } else {
        r := Read(Eof);
      }
    }
  }

  /** A writer over a growable buffer. The sink it writes to may reject one
      write: `faultAt == Some(k)` makes the write that finds `k` events
      already in the buffer fail and leaves the buffer as it was. With
      `faultAt == None` every write succeeds, as with an in-memory cursor. */
  class Writer {
    const faultAt: Option<nat>
    var written: seq<Event>

    constructor (faultAt: Option<nat>)
      ensures this.faultAt == faultAt && written == []
    {
      this.faultAt := faultAt;
      written := [];
    }

    method WriteEvent(e: Event) returns (ok: bool)
      modifies this
      ensures ok <==> faultAt != Some(|old(written)|)
      ensures written == if ok then old(written) + [e] else old(written)
    {
      ok := faultAt != Some(|written|);
      if ok {
        written := written + [e];
      }
    }
  }

  /** An owned start tag (`BytesStart`) whose attribute list can be edited in
      place; its name is fixed when it is created. */
  class BytesStart {
    const name: string
    var attributes: seq<Attribute>

    /** Takes ownership of a borrowed tag, keeping its name and attributes. */
    constructor IntoOwned(name: string, attributes: seq<Attribute>)
      ensures this.name == name && this.attributes == attributes
    {
      this.name := name;
      this.attributes := attributes;
    }

    method ClearAttributes()
      modifies this
      ensures attributes == []
    {
      attributes := [];
    }

    /** Appends one attribute after those already present. */
    method PushAttribute(key: string, value: string)
      modifies this
      ensures attributes == old(attributes) + [Attribute(key, value)]
    {
      attributes := attributes + [Attribute(key, value)];
    }
  }
}
