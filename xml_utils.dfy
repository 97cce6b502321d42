/** The settings rewriter `apply_settings_readonly`: it pulls events from a
    reader until end of input and writes each one to an in-memory writer,
    except that every self-closing `w:documentProtection` element is written
    with its attributes replaced by a fixed list of nine pairs (the
    WordprocessingML document protection setting, section 17.15.1.29 of
    ECMA-376 Part 1).

    The specification is given by functions over event sequences: `Pulled`
    (the events the loop reads before it stops), `Rewrite` (what it writes
    for them) and `ApplyReadonly` (the outcome of the whole call). The method
    `ApplySettingsReadonly` is the loop itself, proved equal to
    `ApplyReadonly`; the lemmas state what the rewrite promises. */
module XmlUtils {
  import opened Optional
  import opened QuickXml

  /** The qualified name the rewriter matches, prefix included. */
  const ProtectionTag: string := "w:documentProtection"

  /** The attributes a matched element receives, in the order they are pushed. */
  const ProtectionAttributes: seq<Attribute> := [
    Attribute("w:edit", "readOnly"),
    Attribute("w:enforcement", "1"),
    Attribute("w:cryptProviderType", "rsaFull"),
    Attribute("w:cryptAlgorithmClass", "hash"),
    Attribute("w:cryptAlgorithmType", "typeAny"),
    Attribute("w:cryptAlgorithmSid", "4"),
    Attribute("w:cryptSpinCount", "0"),
    Attribute("w:hash", "i1Ge4q/1mFrm4dpp3YwuD26Jte4="),
    Attribute("w:salt", "ql69CaZ9XBh8gn1wvmwi+Q==")
  ]

  /** What one call returns: the written events, the writer's error, or a
      panic raised on a reader error at the given buffer position. The two
      failures carry no output: nothing written before them is returned. */
  datatype Outcome = Done(xml: seq<Event>) | WriterError | Panicked(position: nat)

  /** The one event the rewriter edits: a self-closing element whose
      qualified name is exactly `w:documentProtection`. */
  predicate IsProtection(e: Event) {
    e.Empty? && e.name == ProtectionTag
  }

  /** A read outcome that ends the loop: end of input or a reader error. */
  predicate IsStop(item: ReadItem) {
    item.Malformed? || item == Read(Eof)
  }

  /** The event written for one event read. */
  function RewriteEvent(e: Event): (r: Event)
    ensures IsProtection(r) == IsProtection(e)
    ensures r != e ==> IsProtection(e)
    ensures IsProtection(e) ==> r.name == e.name && r.attributes == ProtectionAttributes
  {
    if IsProtection(e) then Empty(e.name, ProtectionAttributes) else e
  }

  /** The events written for a run of events read, one for one. */
  function Rewrite(events: seq<Event>): (r: seq<Event>)
    ensures |r| == |events|
  {
    if events == [] then [] else [RewriteEvent(events[0])] + Rewrite(events[1..])
  }

  /** The number of self-closing `w:documentProtection` elements in a run. */
  function ProtectionCount(events: seq<Event>): nat {
    if events == [] then 0
    else (if IsProtection(events[0]) then 1 else 0) + ProtectionCount(events[1..])
  }

  /** The events the loop reads before it stops: the longest prefix of the
      read outcomes holding neither Eof nor a reader error. */
  function Pulled(input: seq<ReadItem>): (r: seq<Event>)
    ensures |r| <= |input|
    ensures forall j :: 0 <= j < |r| ==> input[j] == Read(r[j]) && r[j] != Eof
    ensures |r| < |input| ==> IsStop(input[|r|])
  {
    if input == [] || IsStop(input[0]) then [] else [input[0].event] + Pulled(input[1..])
  }

  /** The outcome of `apply_settings_readonly` on a reader yielding `input`
      and a writer whose sink rejects the write numbered `faultAt`, if any.
      The events before the stop are written in order, so a writer fault
      among them comes first; otherwise a reader error panics, and Eof (or
      the end of input) returns everything written. */
  function ApplyReadonly(input: seq<ReadItem>, faultAt: Option<nat>): Outcome {
    var pulled := Pulled(input);
    if faultAt.Some? && faultAt.value < |pulled| then WriterError
    else if |pulled| < |input| && input[|pulled|].Malformed? then Panicked(input[|pulled|].position)
    else Done(Rewrite(pulled))
  }

  /** The reader's input that yields the given events, in order: reading it
      back gives exactly those events when none of them is Eof. */
  function Reread(events: seq<Event>): (r: seq<ReadItem>)
    ensures Eof !in events ==> Pulled(r) == events
  {
    var r := seq(|events|, j requires 0 <= j < |events| => Read(events[j]));
    if Eof in events then r else PulledUnique(r, events); r
  }

  /** Clears the attributes of a matched tag, then pushes the fixed pairs one
      by one; the tag's name is left as it was. */
  method SetProtectionAttributes(elem: BytesStart)
    modifies elem
    ensures elem.attributes == ProtectionAttributes
  {
    elem.ClearAttributes();
    elem.PushAttribute("w:edit", "readOnly");
    elem.PushAttribute("w:enforcement", "1");
    elem.PushAttribute("w:cryptProviderType", "rsaFull");
    elem.PushAttribute("w:cryptAlgorithmClass", "hash");
    elem.PushAttribute("w:cryptAlgorithmType", "typeAny");
    elem.PushAttribute("w:cryptAlgorithmSid", "4");
    elem.PushAttribute("w:cryptSpinCount", "0");
    elem.PushAttribute("w:hash", "i1Ge4q/1mFrm4dpp3YwuD26Jte4=");
    elem.PushAttribute("w:salt", "ql69CaZ9XBh8gn1wvmwi+Q==");
  }

  /** The event loop: read, rewrite a matching self-closing element in place,
      copy every other event, stop at Eof; a writer error returns an error
      and a reader error panics. */
  method ApplySettingsReadonly(input: seq<ReadItem>, faultAt: Option<nat>) returns (outcome: Outcome)
    ensures outcome == ApplyReadonly(input, faultAt)
  {
    var reader := new Reader(input);
    var writer := new Writer(faultAt);
    ghost var pulled := Pulled(input);
    ghost var stop := 0;
    while true
      invariant reader.Valid() && reader.items == input && writer.faultAt == faultAt
      invariant reader.consumed <= |pulled|
      invariant writer.written == Rewrite(pulled[..reader.consumed])
      invariant forall j :: 0 <= j < reader.consumed ==> faultAt != Some(j)
      decreases |input| - reader.consumed
    {
      ghost var k := reader.consumed;
      var item := reader.ReadEvent();
      if item.Malformed? {
        return Panicked(item.position);
      }
      var e := item.event;
      if e == Eof {
        stop := k;
        break;
      }
      assert k < |pulled| && pulled[k] == e;
      assert pulled[..k + 1] == pulled[..k] + [e];
      RewriteAppend(pulled[..k], e);
      if IsProtection(e) {
        var elem := new BytesStart.IntoOwned(e.name, e.attributes);
        SetProtectionAttributes(elem);
        var ok := writer.WriteEvent(Empty(elem.name, elem.attributes));
        if !ok {
          return WriterError;
        }
      } else {
        var ok := writer.WriteEvent(e);
        if !ok {
          return WriterError;
        }
      }
    }
    assert stop == |pulled| && pulled[..stop] == pulled;
    outcome := Done(writer.written);
  }

  // Properties of the rewrite of an event sequence.

  lemma {:induction false} RewriteAt(events: seq<Event>, i: nat)
    requires i < |events|
    ensures Rewrite(events)[i] == RewriteEvent(events[i])
  {
    if i > 0 {
      RewriteAt(events[1..], i - 1);
    }
  }

  lemma {:induction false} RewriteAppend(events: seq<Event>, e: Event)
    ensures Rewrite(events + [e]) == Rewrite(events) + [RewriteEvent(e)]
  {
    if events != [] {
      assert (events + [e])[1..] == events[1..] + [e];
      RewriteAppend(events[1..], e);
    }
  }

  /** An event comes out unchanged exactly when it is not a self-closing
      `w:documentProtection` element, or is one that already carries the
      fixed attributes. Start and End tags of that name, and the same local
      name under another prefix, are therefore never touched. */
  lemma {:induction false} PassesThroughUnchanged(events: seq<Event>, i: nat)
    requires i < |events|
    ensures Rewrite(events)[i] == events[i]
        <==> !IsProtection(events[i]) || events[i].attributes == ProtectionAttributes
  {
    RewriteAt(events, i);
  }

  /** A matched element keeps its qualified name, and its attributes are
      exactly the nine fixed pairs in order, so none of its own survive. */
  lemma {:induction false} ProtectionNormalised(events: seq<Event>, i: nat)
    requires i < |events| && IsProtection(events[i])
    ensures Rewrite(events)[i] == Empty(ProtectionTag, ProtectionAttributes)
  {
    RewriteAt(events, i);
  }

  /** Each position keeps its kind: an element is a protection element
      after the rewrite exactly when it was one before. */
  lemma {:induction false} MatchesKeepPositions(events: seq<Event>, i: nat)
    requires i < |events|
    ensures IsProtection(Rewrite(events)[i]) <==> IsProtection(events[i])
  {
    RewriteAt(events, i);
  }

  /** The rewrite neither adds nor removes protection elements. */
  lemma {:induction false} ProtectionCountPreserved(events: seq<Event>)
    ensures ProtectionCount(Rewrite(events)) == ProtectionCount(events)
  {
    if events != [] {
      ProtectionCountPreserved(events[1..]);
      assert Rewrite(events)[1..] == Rewrite(events[1..]);
    }
  }

  /** The events are a fixed point of the rewrite exactly when every
      protection element in them already carries the fixed attributes. */
  lemma {:induction false} UnchangedIff(events: seq<Event>)
    ensures Rewrite(events) == events
        <==> forall i :: 0 <= i < |events| && IsProtection(events[i])
               ==> events[i].attributes == ProtectionAttributes
  {
    forall i | 0 <= i < |events| {
      PassesThroughUnchanged(events, i);
    }
    if Rewrite(events) != events {
      var i :| 0 <= i < |events| && Rewrite(events)[i] != events[i];
      PassesThroughUnchanged(events, i);
    }
  }

  /** Without a self-closing `w:documentProtection`, nothing changes: no
      element is injected. */
  lemma {:induction false} NoInjection(events: seq<Event>)
    requires forall i :: 0 <= i < |events| ==> !IsProtection(events[i])
    ensures Rewrite(events) == events
  {
    UnchangedIff(events);
  }

  lemma {:induction false} Idempotent(events: seq<Event>)
    ensures Rewrite(Rewrite(events)) == Rewrite(events)
  {
    var once := Rewrite(events);
    forall i | 0 <= i < |once| && IsProtection(once[i])
      ensures once[i].attributes == ProtectionAttributes
    {
      RewriteAt(events, i);
    }
    UnchangedIff(once);
  }

  // Properties of the whole call.

  /** `Pulled` is the only sequence with its three defining properties. */
  lemma {:induction false} PulledUnique(input: seq<ReadItem>, r: seq<Event>)
    requires |r| <= |input|
    requires forall j :: 0 <= j < |r| ==> input[j] == Read(r[j]) && r[j] != Eof
    requires |r| < |input| ==> IsStop(input[|r|])
    ensures r == Pulled(input)
  {
  }

  /** Reading a concatenation stops inside the first part when that part
      holds a stop, and otherwise continues into the second. */
  lemma {:induction false} PulledConcat(a: seq<ReadItem>, b: seq<ReadItem>)
    ensures Pulled(a + b) == if |Pulled(a)| < |a| then Pulled(a) else Pulled(a) + Pulled(b)
  {
    var pa := Pulled(a);
    if |pa| < |a| {
      PulledUnique(a + b, pa);
    } else {
      var r := pa + Pulled(b);
      assert forall j :: |a| <= j < |r| ==> (a + b)[j] == b[j - |a|];
      PulledUnique(a + b, r);
    }
  }

  /** Eof ends the loop: whatever follows it is never read, and Eof itself
      behaves as the end of input. */
  lemma {:induction false} EofEndsReading(before: seq<ReadItem>, after: seq<ReadItem>, faultAt: Option<nat>)
    ensures ApplyReadonly(before + [Read(Eof)] + after, faultAt) == ApplyReadonly(before, faultAt)
  {
    var input := before + [Read(Eof)] + after;
    assert input == before + ([Read(Eof)] + after);
    PulledConcat(before, [Read(Eof)] + after);
    assert Pulled([Read(Eof)] + after) == [];
    var k := |Pulled(before)|;
    if k < |before| {
      assert input[k] == before[k];
    } else {
      assert Pulled(input) == Pulled(before);
      assert input[k] == Read(Eof);
    }
  }

  /** A reader error before Eof aborts the call with a panic carrying its
      position, unless the writer failed first on an earlier event. */
  lemma {:induction false} ReaderErrorAborts(before: seq<ReadItem>, position: nat, after: seq<ReadItem>, faultAt: Option<nat>)
    requires forall j :: 0 <= j < |before| ==> !IsStop(before[j])
    ensures ApplyReadonly(before + [Malformed(position)] + after, faultAt)
         == if faultAt.Some? && faultAt.value < |before| then WriterError else Panicked(position)
  {
    var input := before + [Malformed(position)] + after;
    assert input == before + ([Malformed(position)] + after);
    var r := seq(|before|, j requires 0 <= j < |before| => before[j].event);
    PulledUnique(before, r);
    PulledConcat(before, [Malformed(position)] + after);
    assert Pulled([Malformed(position)] + after) == [];
  }

  /** Order and count are kept: each event read before the stop yields
      exactly one written event at the same position, and Eof is never
      written. */
  lemma {:induction false} OrderAndCountPreserved(input: seq<ReadItem>, faultAt: Option<nat>)
    requires ApplyReadonly(input, faultAt).Done?
    ensures |ApplyReadonly(input, faultAt).xml| == |Pulled(input)|
    ensures forall i :: 0 <= i < |ApplyReadonly(input, faultAt).xml| ==>
              input[i].Read? && ApplyReadonly(input, faultAt).xml[i] == RewriteEvent(input[i].event)
    ensures Eof !in ApplyReadonly(input, faultAt).xml
  {
    var pulled := Pulled(input);
    forall i | 0 <= i < |pulled| {
      RewriteAt(pulled, i);
    }
  }

  /** A document without a self-closing `w:documentProtection` comes out as
      it went in, provided reading stops at Eof rather than at a reader
      error and the writer does not fail. */
  lemma {:induction false} NoProtectionNoChange(input: seq<ReadItem>)
    requires !(|Pulled(input)| < |input| && input[|Pulled(input)|].Malformed?)
    requires forall e :: e in Pulled(input) ==> !IsProtection(e)
    ensures ApplyReadonly(input, None) == Done(Pulled(input))
  {
    NoInjection(Pulled(input));
  }

  /** Reading back what the call wrote and running it again gives the same
      events: a rewritten element still matches and is rewritten to the same
      fixed attributes. */
  lemma {:induction false} StreamIdempotent(input: seq<ReadItem>)
    requires ApplyReadonly(input, None).Done?
    ensures ApplyReadonly(Reread(ApplyReadonly(input, None).xml), None) == ApplyReadonly(input, None)
  {
    OrderAndCountPreserved(input, None);
    Idempotent(Pulled(input));
  }
}
