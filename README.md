# docx_readonly: the settings rewriter

This project models `apply_settings_readonly`, the function of docx_readonly
that marks a Word document read-only by editing its `word/settings.xml`
member. The function pulls XML events from a quick_xml `Reader` in a loop and
writes them to a `Writer` over an in-memory buffer. Every self-closing element
whose qualified name is exactly `w:documentProtection` is written with its
attributes cleared and replaced by nine fixed pairs (`w:edit="readOnly"`,
`w:enforcement="1"`, … `w:hash`, `w:salt`, in that order). That element is the
WordprocessingML document protection setting (section 17.15.1.29 of ECMA-376
Part 1). Every other event is written unchanged. Eof ends the loop, a writer
error is returned as an error, and a reader error panics.

The model works on parsed events rather than bytes:

- `quick_xml.dfy` (module `QuickXml`) holds what the function uses of the
  library. `Event` lists the parser's events, with qualified element names and
  ordered attribute lists. `ReadItem` is the outcome of one read: an event, or
  an error with its buffer position. `Reader` yields a given sequence of read
  outcomes and then Eof forever. `Writer` appends events to its buffer. Its
  sink may reject one write, chosen by the parameter `faultAt`; `None` is the
  infallible in-memory cursor the source uses. `BytesStart` is the owned tag
  that is edited in place.
- `xml_utils.dfy` (module `XmlUtils`) holds the rewriter. The specification is
  a set of pure functions:
  - `Pulled`: the events read before the first Eof or reader error.
  - `RewriteEvent` and `Rewrite`: what is written for them.
  - `ApplyReadonly`: the outcome of the whole call. It is `Done(events)`,
    `WriterError` or `Panicked(position)`. Neither failure carries output.

  The method `ApplySettingsReadonly` is the loop itself: a `Reader`, a
  `Writer`, a fresh `BytesStart` for each match, cleared and given the nine
  pushes by `SetProtectionAttributes`. It is proved equal to `ApplyReadonly`
  for every input and every writer fault. The lemmas state what the
  rewrite promises.

The model follows the code:

- The code never injects a `w:documentProtection` element when the document
  has none. `NoInjection` and `NoProtectionNoChange` prove that the output then
  equals the input.
- Only the self-closing form is rewritten. A `Start`/`End` pair of that name
  passes through untouched: the guard at src/xml_utils.rs:30 matches only the
  `Empty` event, so every other event of that name reaches the copy-through
  arm at src/xml_utils.rs:58-61. So does the same local name under another
  prefix.
- A malformed document does not produce a parse error value. The reader's
  error makes the function panic, reporting the buffer position. Only a writer
  error is returned as an error.

The code does not compute the `w:hash` and `w:salt` values; they are fixed
constants, and the model holds them as such.

## Model

| member | source | states |
|---|---|---|
| `XmlUtils.ApplySettingsReadonly` | src/xml_utils.rs:5-68 | The event loop returns exactly `ApplyReadonly(input, faultAt)`. The outcome is the rewritten events read before Eof, or `WriterError` if a write among them fails, or `Panicked(position)` when a reader error comes first. No partial output is returned. |
| `XmlUtils.ApplyReadonly` | src/xml_utils.rs:5-68 | The reference outcome of the whole call: `WriterError` when the sink rejects a write of one of the events read before the stop; otherwise `Panicked(position)` when the stop is a reader error; otherwise `Done` with the rewrite of those events. |
| `XmlUtils.IsProtection` | src/xml_utils.rs:30 | The match guard: a self-closing element whose qualified name equals `w:documentProtection` exactly, prefix included. |
| `XmlUtils.SetProtectionAttributes` | src/xml_utils.rs:34-53 | After clearing and the nine pushes, the tag's attributes are exactly the nine fixed pairs in source order, whatever it carried before. |
| `XmlUtils.RewriteEvent` | src/xml_utils.rs:30-61 | An event is changed only if it is a self-closing element named exactly `w:documentProtection`. Whether an event matches is kept. A matched element keeps its name and gets exactly the fixed attributes. |
| `XmlUtils.Rewrite` | src/xml_utils.rs:10-64 | One written event for each event read: the lengths are equal. |
| `XmlUtils.Pulled` | src/xml_utils.rs:10-64 | The loop reads the longest run of outcomes that holds neither Eof nor a reader error. The run is a prefix of the input, and what follows it, if anything, is Eof or an error. |
| `XmlUtils.RewriteAt` | src/xml_utils.rs:30-61 | Position `i` of the output is the rewrite of position `i` of the input. |
| `XmlUtils.PassesThroughUnchanged` | src/xml_utils.rs:58-61 | An event is written unchanged if and only if it is not a self-closing `w:documentProtection` or already has exactly the fixed attributes. Start/End tags of that name and other prefixes are therefore untouched. |
| `XmlUtils.ProtectionNormalised` | src/xml_utils.rs:30-54 | A matched element becomes `Empty("w:documentProtection", fixed pairs)`. No original attribute outside the fixed list survives. |
| `XmlUtils.MatchesKeepPositions` | src/xml_utils.rs:30-54 | A position holds a protection element after the rewrite if and only if it held one before. |
| `XmlUtils.ProtectionCountPreserved` | src/xml_utils.rs:30-61 | The number of self-closing `w:documentProtection` elements is the same before and after: none is added or removed. |
| `XmlUtils.UnchangedIff` | src/xml_utils.rs:30-61 | The rewrite leaves a sequence unchanged if and only if every protection element in it already carries the fixed attributes. |
| `XmlUtils.NoInjection` | src/xml_utils.rs:30-61 | Without a self-closing `w:documentProtection`, the output equals the input: no element is injected. |
| `XmlUtils.Idempotent` | src/xml_utils.rs:30-54 | Rewriting the rewritten events changes nothing. |
| `XmlUtils.EofEndsReading` | src/xml_utils.rs:56 | Whatever follows Eof is never read or written, and Eof behaves as the end of input. |
| `XmlUtils.ReaderErrorAborts` | src/xml_utils.rs:54-62 | A reader error before Eof ends the call with a panic at its position. The exception is a writer fault on an earlier event, which returns `WriterError` first. |
| `XmlUtils.OrderAndCountPreserved` | src/xml_utils.rs:10-64 | On success, each event read before Eof yields exactly one written event at the same position: its rewrite. Eof itself is never written. |
| `XmlUtils.NoProtectionNoChange` | src/xml_utils.rs:30-61 | A document whose reading stops at Eof or end of input, not at a reader error, and that has no self-closing `w:documentProtection` is returned event for event as it was read. |
| `XmlUtils.StreamIdempotent` | src/xml_utils.rs:5-68 | Feeding the successful output back through the whole call returns the same output. |
| `QuickXml.Reader.constructor` | src/xml_utils.rs:6 | A new reader over the input has read nothing yet. |
| `QuickXml.Writer.constructor` | src/xml_utils.rs:8 | A new writer starts with an empty buffer and the given sink. |
| `QuickXml.Reader.ReadEvent` | src/xml_utils.rs:11 | Each read yields the next outcome and advances by one. After the last outcome, reads yield Eof and do not advance. |
| `QuickXml.Writer.WriteEvent` | src/xml_utils.rs:60 | A write appends the event to the buffer unless the sink rejects it. A rejected write leaves the buffer unchanged and reports failure. |
| `QuickXml.BytesStart.IntoOwned` | src/xml_utils.rs:33 | The owned tag has the matched element's name and attributes. |
| `QuickXml.BytesStart.ClearAttributes` | src/xml_utils.rs:34 | The tag is left with no attributes. |
| `QuickXml.BytesStart.PushAttribute` | src/xml_utils.rs:45-53 | The pair is appended after the attributes already present. |

## Left out

- Byte-level XML parsing, the `trim_text` whitespace trimming and serialisation belong to the quick_xml library. The model takes events as already parsed and trimmed, and `StreamIdempotent` assumes that serialising events and reading them back returns the same events.
- The position a reader error reports is taken as given with the error. How quick_xml computes it is not modelled.
- The `println!` diagnostics are not modelled. The one at src/xml_utils.rs:66 decodes the output with `from_utf8(..).unwrap()`, so an output that is not valid UTF-8 (a text byte such as a Latin-1 `0xE9`, which the reader and writer copy unchecked) panics after the loop, and any of them panics if writing to standard output fails. Events here carry character strings, so the model cannot express that case: where the source panics after the loop, `ApplyReadonly` gives `Done`.
- The kind of error quick_xml's writer returns is not modelled: a writer error is one rejected write, chosen by `faultAt`.
- src/zip_utils.rs (extracting the archive to a directory, rebuilding it, and the `write_settings` stub) is filesystem and zip-library plumbing and is not part of this model.
- `make_docx_readonly` in src/lib.rs (temporary directory, file reads and writes, error wrapping into `DocxError`) is I/O orchestration and is not part of this model. The buffer-based variant there is commented out, so no in-memory archive repacker exists to model.
