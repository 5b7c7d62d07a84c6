# slope: envelope codec and viewer state machine

slope reads and edits Sentry envelopes. An envelope is a byte stream made of:

- one JSON header line;
- a sequence of items, each an item-header JSON line followed by a payload.

A header with a `length` frames exactly that many payload bytes. Without one, the payload runs to the next line feed.

This project models three parts of the program and proves properties about them.

- **The `envelope` package.**
  - `Parse` turns bytes into an envelope.
  - `Serialize` writes an envelope back, recomputing every `length`.
  - `UpdateLength` rewrites one header through an insertion-ordered map.
  - `IsBinary` classifies a payload as binary or text.
- **The terminal viewer's state machine** in `tui/model.go`. It covers:
  - list navigation, deletion and saving;
  - the quit confirmation;
  - export of one payload;
  - editor results;
  - adding a file as an attachment.
- **The list label** (`itemLabel`) and the human-readable size (`formatSize`).

The JSON library is a `Codec` record with five functions: decode, compact, marshal, `viaAny` and `keysReadable`. `viaAny` is what becomes of a member value that `UpdateLength` unmarshals into Go's `any` and marshals again. It is None when the value cannot be read. `keysReadable` tells whether the ordered map's parser accepts an object text's member names. That parser rejects a name that is not valid UTF-8 or holds an unpaired surrogate escape, which `json.Valid` lets through. The ghost predicate `Lawful` states the only facts the framing relies on:

- marshalled and compacted text is one non-empty line;
- that text decodes to the same value;
- compacting it again changes nothing;
- marshalled text has readable member names;
- null, booleans, strings and integers within ±2^53 come back from `any` unchanged;
- every 64-bit integer can be read into `any`;
- a value that has been through `any` comes back unchanged the next time.

Every codec-dependent theorem assumes `Lawful(c)`.

The viewer is a pure function `Update(codec, state, event, world) -> Outcome`. The `World` argument supplies what the outside world decides:

- whether the temporary file could be created;
- whether it could be renamed over the original;
- whether the export write succeeded;
- what the text field holds after a keystroke;
- which file the picker chose, with its contents and MIME type.

An `Outcome` carries three things: the next state, the command returned to the runtime, and the file replaced on disk, if any.

Files:

- `bytes.dfy`: bytes, `Option`, `Result`, and line splitting.
- `json.dfy`: the JSON value model, the `Codec`, the ordered map's `Set` and `Collapse`, and member values passing through `any`.
- `fields.dfy`: how Go's `encoding/json` fills the `type`, `length` and `filename` fields of an item header.
- `envelope.dfy`: `Parse`, `UpdateLength` and `Serialize`.
- `envelope_props.dfy`: framing lemmas and the serialize/parse round trip.
- `binary.dfy`: RFC 3629 well-formedness, Go's table-driven `utf8.Valid`, and `IsBinary`.
- `format.dfy`: `formatSize` and `itemLabel`.
- `viewer.dfy`: the state machine.
- `viewer_props.dfy`: its properties.

## Model

| member | source | states |
|---|---|---|
| Bytes.SplitLine | envelope/envelope.go:37-41 | One line is read up to a line feed and trimmed. The line holds no line feed. The input is either the line, a line feed and the rest, or the whole unterminated line with nothing left over. |
| Bytes.SplitLineOfTerminated | envelope/envelope.go:53-57 | A line without a line feed, followed by one, is split back into exactly that line and the bytes after it. |
| EnvelopeCodec.Parse | envelope/envelope.go:27-111 | The parse fails with EmptyHeader exactly when the first line is empty. It fails with InvalidEnvelopeHeader exactly when that line is not JSON. On success the header is the first line and every item is framed by its header. |
| EnvelopeCodec.ParseItems | envelope/envelope.go:51-108 | A successful item parse yields only framed items, none longer than the input. Any failure is an item error. |
| EnvelopeCodec.ReadFrame | envelope/envelope.go:61-105 | A header that is not JSON fails with InvalidItemHeader. A read item keeps its header line and is framed by it. An explicit length takes a prefix of the remaining bytes. |
| EnvelopeProperties.BlankLinesAreSkipped | envelope/envelope.go:57-60 | Any number of blank lines before an item header produce no item. |
| EnvelopeProperties.ExplicitLengthFrame | envelope/envelope.go:82-97 | A header with length n takes exactly the next n bytes as payload. It consumes one following line feed when there is one. |
| EnvelopeProperties.TruncatedFrameFails | envelope/envelope.go:84-86 | A declared length larger than what remains fails with TruncatedPayload(expected, available). |
| EnvelopeProperties.ImplicitLengthFrame | envelope/envelope.go:98-105 | Without a length, the payload is the bytes up to the next line feed, which is consumed. |
| EnvelopeProperties.ImplicitLengthFrameAtEnd | envelope/envelope.go:98-105 | Without a length and without a further line feed, the payload runs to the end of the input. |
| EnvelopeProperties.InvalidItemHeaderFails | envelope/envelope.go:61-63 | An item header line that is not JSON fails the whole parse. |
| EnvelopeProperties.UnreadableItemFieldsFail | envelope/envelope.go:70-77 | An item header whose type, length or filename cannot be decoded fails the whole parse. |
| EnvelopeProperties.InvalidEnvelopeHeaderFails | envelope/envelope.go:45-47 | A first line that is not JSON fails, whatever follows it. |
| ItemHeader.Step | envelope/envelope.go:70-79 | Decoding one member changes only the field its key names, after Go's case folding. |
| ItemHeader.DottedCapitalIIsSkipped | envelope/envelope.go:70-79 | A key spelled `fİlename` with U+0130 names no field, so its value is skipped and the filename stays empty. `fılename` with the dotless U+0131 sets the filename. |
| ItemHeader.DecodeMembers | envelope/envelope.go:70-77 | Go's struct decoding of the header's members. Its partner lemmas below describe the result without the member-by-member fold. |
| ItemHeader.DecodeMembersSucceedsIff | envelope/envelope.go:70-77 | Decoding fails exactly when some member holds the wrong kind of value for the field its key names. A string field takes a string or null. The length takes null or an integer in the 64-bit range. |
| ItemHeader.DecodedStringIsLast | envelope/envelope.go:70-77 | `type` and `filename` are the string of the last member whose key names them and whose value is a string. A null never overrides. With no such member the field is empty. |
| ItemHeader.DecodedLengthIsLast | envelope/envelope.go:70-77 | The length is the integer of the last member whose key names it and holds an integer or null. It is absent when that member is null, or when there is no such member. |
| ItemHeader.DecodeAfterSet | envelope/envelope.go:180-187 | Setting `length` to n keeps the decoded type and filename. The length reads back as n, unless a later key that differs only in case already overrode it. |
| ItemHeader.RepeatedKeyLosesType | envelope/envelope.go:180-187 | `{"type":"a","type":null}` decodes as type "a". After the ordered map collapses the repeated key and `length` is set, it decodes as type "". |
| JsonModel.Set | envelope/envelope.go:185 | The ordered map's set: an existing key keeps its position and takes the new value, and a new key is appended last. Other members are untouched. With distinct keys, lookup returns the new value. |
| JsonModel.Collapse | envelope/envelope.go:181-184 | Decoding an object into the ordered map yields distinct keys and the same key set. |
| JsonModel.CollapseDistinct | envelope/envelope.go:181-184 | An object without repeated keys passes through the ordered map unchanged. |
| JsonModel.SetTwice | envelope/envelope.go:185 | Setting the same key to the same value twice equals setting it once. |
| JsonModel.SetKeys | envelope/envelope.go:185 | Set keeps the key order. It appends `k` only when `k` was absent. |
| JsonModel.ThroughAny | envelope/envelope.go:181-184 | Reading the members into a map of `any` succeeds exactly when every member value can be read. The keys and their order are kept, and each value is replaced by what comes back from `any`. |
| JsonModel.ThroughAnyThenSet | envelope/envelope.go:181-185 | When every value other than key k's comes back from `any` unchanged, setting k after the trip gives the same members as setting k on the originals. |
| EnvelopeCodec.UpdateLength | envelope/envelope.go:180-187 | The update fails with HeaderNotJson exactly when the header is not JSON. It fails with KeyNotReadable exactly when the header is an object whose member names the ordered map cannot read. It fails with ValueNotReadable exactly when the names can be read but some member value cannot be read into `any`. It succeeds exactly when the header is an object whose member names and values can all be read. |
| EnvelopeProperties.UpdateLengthDecodes | envelope/envelope.go:180-187 | With distinct keys and readable member names and values, the rewritten header decodes to the members as they come back from `any`, with `length` set to n. |
| EnvelopeProperties.UpdateLengthKeepsOrder | envelope/envelope.go:180-187 | When the member names can be read and the values other than `length` come back from `any` unchanged, the rewritten header keeps every other member verbatim and in place. `length` is replaced in place or appended last. |
| EnvelopeProperties.UpdateLengthExample | envelope/envelope.go:180-187 | With readable member names, `{"type":"event","length":10}` updated to 42 decodes as `{"type":"event","length":42}`. |
| EnvelopeProperties.UpdateLengthNeedsObject | envelope/envelope.go:180-184 | A header that is JSON but not an object cannot be updated. |
| EnvelopeCodec.SerializeItem | envelope/envelope.go:125-138 | A frame ends with the payload and a line feed. A failure to update the header's length is reported as ItemHeaderNotUpdatable, and only such a failure is. |
| EnvelopeCodec.SerializeItems | envelope/envelope.go:124-139 | The frames are written exactly when every item can be framed. Otherwise the error is that of the first item that cannot be. |
| EnvelopeCodec.Serialize | envelope/envelope.go:113-142 | An envelope header that is not JSON fails with EnvelopeHeaderNotJson. Otherwise a failure is some item's frame error. Output begins with the compacted envelope header and a line feed. |
| EnvelopeProperties.SerializeSucceedsIff | envelope/envelope.go:113-142 | Serialize succeeds exactly when the envelope header is JSON and every item header is a JSON object whose member names can be read and whose member values can all be read into `any`. |
| EnvelopeProperties.SerializeItemsSucceedIff | envelope/envelope.go:124-139 | The item frames are written exactly when every item header is a JSON object whose member names can be read and whose member values can all be read into `any`. |
| EnvelopeProperties.SerializeItemSucceedsIff | envelope/envelope.go:125-138 | One frame is written exactly when the item's header is a JSON object whose member names can be read and whose member values can all be read into `any`. |
| EnvelopeProperties.SerializedFrameShape | envelope/envelope.go:125-138 | A frame is the rewritten header as one non-empty line, then a line feed, the payload and a line feed. |
| EnvelopeProperties.RewrittenHeaderFrames | envelope/envelope.go:126-138 | The item with its rewritten header can again be written and read back. Its header is an object with distinct, readable keys whose field values survive `any`, and its type, filename and length agree with the item. |
| EnvelopeProperties.ThroughAnyKeepsFields | envelope/envelope.go:181-185 | When the values under keys naming a field, other than `length` itself, survive `any`, setting `length` after the trip and setting it on the original members give the same keys, and the same values wherever a field is read. |
| EnvelopeProperties.RewrittenIsStable | envelope/envelope.go:181-186 | The members the serializer writes have distinct keys, and every one of them comes back from `any` unchanged, apart from `length`, which can still be read. |
| EnvelopeProperties.RewrittenFields | envelope/envelope.go:70-79 | The rewritten members read as the original type and filename. Their length is the new one, or what a differently spelled length key already gave. |
| ItemHeader.DecodeIgnoresOtherKeys | envelope/envelope.go:70-79 | Two member lists with the same keys, and the same values under every key that names a field, decode to the same fields. |
| EnvelopeProperties.ReadFramedItem | envelope/envelope.go:51-108 | A framed item written as header, line feed, payload and line feed is parsed back as that same item, followed by whatever comes after. |
| EnvelopeProperties.ReadSerializedFrame | envelope/envelope.go:124-139 | Parsing a serialized frame gives back the item with its rewritten header, followed by the rest. |
| EnvelopeProperties.ReadSerializedItems | envelope/envelope.go:124-139 | Serialized items parse back with the same count and the same types, filenames and payload bytes. The items read back can be rewritten again. |
| EnvelopeProperties.SerializeThenParse | envelope/envelope.go:113-142 | A parsed envelope serializes, when every item header is an object with distinct keys whose member names can be read and whose values can all be read into `any`, those under keys naming a field coming back unchanged. Parsing the output gives the compacted envelope header and the same items by type, filename and payload. |
| EnvelopeProperties.ParseSerializeRoundTrip | envelope/envelope_test.go:73-107 | Parse, then serialize, then parse gives the same item count, types and payload bytes, whenever item headers have distinct, readable keys, all their values can be read into `any`, and those under keys naming a field other than `length` come back unchanged. |
| EnvelopeProperties.SerializeIsStable | envelope/envelope.go:113-142 | For the same envelopes as SerializeThenParse, serializing, parsing and serializing again gives exactly the same bytes. |
| EnvelopeProperties.SerializedItemsAreFixed | envelope/envelope.go:124-139 | Items read back from serialized frames serialize to the same frames. |
| EnvelopeProperties.FrameIsFixed | envelope/envelope.go:125-138 | Re-serializing the item read back from a frame writes the same frame. |
| BinaryClassifier.LeadTableAgrees | envelope/envelope.go:145 | The lead-byte table used by utf8.Valid agrees with the UTF-8 syntax of RFC 3629 for every input. |
| BinaryClassifier.Valid | envelope/envelope.go:145 | The table-driven scan returns true exactly when the input is well-formed UTF-8 per RFC 3629. |
| BinaryClassifier.IsBinary | envelope/envelope.go:144-154 | A payload is binary exactly when it is not well-formed UTF-8 or contains a control byte below 0x20 other than tab, line feed and carriage return. |
| BinaryClassifier.PlainTextIsNotBinary | envelope/envelope_test.go:110-115 | ASCII text whose only control bytes are tab, line feed or carriage return is not binary. |
| BinaryClassifier.ControlAndInvalidAreBinary | envelope/envelope_test.go:116-121 | The bytes 00 01 02 are binary, and so are FF FE. |
| Format.RoundHalfEven | tui/format.go:37-40 | The result is num/den rounded to the nearest integer, with ties going to the even one. |
| Format.DecimalReadsBack | tui/format.go:42 | A printed decimal numeral parses back to the number. |
| Format.FormatSize | tui/format.go:35-44 | The unit is MB exactly from 1048576 bytes and KB exactly from 1024 below that. Sizes below 1024 end in " B". The figure itself is stated by FormatSizeReadsBack. |
| Format.FormatSizeReadsBack | tui/format.go:35-44 | The printed size reads back as the unit picked by the 1024 and 1048576 thresholds, with a figure that is the size in that unit rounded to the nearest tenth. Sizes below 1024 are exact counts of bytes. |
| Format.TieRoundsToEven | tui/format.go:40 | 1280 bytes, a tie, is printed as 1.2 KB. |
| Format.ByteSizeExamples | tui/format_test.go:44-45 | 0 prints as "0 B" and 512 as "512 B". 50 and 100 print as "50 B" and "100 B". |
| Format.KiloSizeExamples | tui/format_test.go:46-47 | 1024 prints as "1.0 KB" and 1536 as "1.5 KB". |
| Format.MegaSizeExamples | tui/format_test.go:48-49 | 1048576 prints as "1.0 MB" and 1572864 as "1.5 MB". |
| Format.ToUpper | tui/format.go:14 | Upper-casing keeps the length, leaves no lower-case ASCII letter, and keeps every other character. |
| Format.ItemLabel | tui/format.go:13-20 | The list label. Its partner lemmas LabelLayout and LabelReadsIndex state its parts and that the position reads back from it. |
| Format.LabelLayout | tui/format.go:13-20 | The label is the number, ". ", the upper-cased type and the size, joined by " · ". The filename is appended as a last part exactly when it is non-empty. |
| Format.LabelReadsIndex | tui/format.go:14 | The list position can be read back from the label's leading numeral. |
| Format.EventLabelExample | tui/format_test.go:16-21 | Item 0 of type "event" with any 100-byte payload is labelled "1. EVENT · 100 B". |
| Format.AttachmentLabelExample | tui/format_test.go:22-27 | Item 2 of type "attachment" with any 50-byte payload and filename "test.bin" is labelled "3. ATTACHMENT · 50 B · test.bin". |
| Viewer.Initial | tui/model.go:49-66 | A new viewer is in list mode with a valid selection, nothing unsaved and no message. |
| Viewer.Update | tui/model.go:98-149 | Every event keeps the selection within the list, or 0 on an empty list. It enters export mode only with an item to export. |
| Viewer.UpdateList | tui/model.go:151-210 | Every list-mode key keeps the selection invariant. |
| Viewer.Delete | tui/model.go:169-178 | Deleting removes one item and keeps the selection invariant. |
| Viewer.UpdateExport | tui/model.go:333-356 | Every key in export mode keeps the selection invariant. |
| Viewer.ApplyEdit | tui/model.go:103-121 | An edit result keeps the selection invariant and writes no file. |
| Viewer.UpdatePicker | tui/model.go:297-316 | A picker message keeps the selection invariant and writes no file. |
| Viewer.DefaultExportFilename | tui/model.go:318-331 | The suggested name is never empty. It is the item's filename whenever that is set. Otherwise it is the type, or "item" for an empty type, followed by ".json" when the payload is JSON and ".bin" when it is not. |
| Viewer.Save | tui/model.go:189-201 | The file is written exactly when the temporary file is created, serialization succeeds and the rename succeeds. What is written is the serialized envelope at the file's path, and the flag is cleared. Otherwise the flag is kept and an error is shown. The envelope, mode and selection never change. |
| Viewer.AttachmentHeader | tui/model.go:460-466 | The attachment header has three members, or four when a content type is known. |
| Viewer.AddAttachment | tui/model.go:454-480 | Attaching fails exactly when the file cannot be read. On success one item is appended, and the envelope header and existing items are unchanged. |
| ViewerProperties.NavigationSteps | tui/model.go:153-160 | Up and k move the selection up one place, stopping at the top. Down and j move it down one place, stopping at the last item. Nothing else but the message changes. |
| ViewerProperties.DownRepeatedly | tui/model.go:157-160 | After pressing down n times, the selection is min(selected + n, last). The envelope, mode and flag are unchanged. |
| ViewerProperties.UpRepeatedly | tui/model.go:153-156 | After pressing up n times, the selection is max(selected - n, 0). The envelope, mode and flag are unchanged. |
| ViewerProperties.DeleteRemovesSelected | tui/model.go:169-178 | d removes exactly the selected item. The others keep their order, element by element and as a multiset. The selection stays put unless it was on the last item. The envelope is marked modified and the dump is reprinted. |
| ViewerProperties.DeleteOnEmptyListChangesNothing | tui/model.go:169-170 | d on an empty list only clears the message. |
| ViewerProperties.QuitIff | tui/model.go:122-207 | The viewer quits exactly on q or ctrl+c in list mode with nothing unsaved, or on y in the confirmation prompt. |
| ViewerProperties.DirtyQuitAsksFirst | tui/model.go:202-206 | With unsaved changes, q and ctrl+c only switch to the confirmation prompt. |
| ViewerProperties.ConfirmCancelled | tui/model.go:138-141 | In the prompt, any key but y returns to the list and changes nothing else. |
| ViewerProperties.CleanSaveWritesNothing | tui/model.go:189-192 | With nothing unsaved, w writes nothing and changes nothing but the message. |
| ViewerProperties.DirtySave | tui/model.go:189-201 | With unsaved changes, the file is replaced exactly when the temporary file is created, serialization succeeds and the rename succeeds. Only then is the flag cleared and the size updated. Otherwise an error is shown and the file is kept. |
| ViewerProperties.SavedFileReopens | tui/model.go:427-452 | When every item header meets the conditions of SerializeThenParse, a successful save writes bytes that parse back to the same items by type, filename and payload. |
| ViewerProperties.EditErrorOnlySetsMessage | tui/model.go:103-107 | An editor or pager error only sets the error message. |
| ViewerProperties.UnchangedEditIsNoOp | tui/model.go:108-111 | An edit that leaves the payload unchanged changes nothing at all. |
| ViewerProperties.ChangedEdit | tui/model.go:108-121 | A changed payload replaces only that item's payload. If the length can be rewritten, the header is replaced and the envelope marked modified. Otherwise the header and the flag stay as they were and an error is shown. |
| ViewerProperties.EditedHeaderRecordsLength | tui/model.go:112-119 | After an edit, a header that is an object with distinct, readable keys and readable values decodes to its members as they come back from `any`, with `length` set to the new payload size. |
| ViewerProperties.KeyPressTransitions | tui/model.go:122-147 | Every key press follows the mode table. A message left afterwards comes from delete or save in the list, export confirmation, or a file picked in the picker. |
| ViewerProperties.EditorOnlyForText | tui/model.go:165-168 | The editor starts, on the selected item, exactly on e in list mode when the selected payload is not binary. |
| ViewerProperties.PagerOnlyForItems | tui/model.go:161-164 | The pager starts, on the selected item, exactly on enter in list mode on a non-empty list. |
| ViewerProperties.ExportStarts | tui/model.go:179-185 | x on a non-empty list enters export mode, prefilled with the item's default export name. |
| ViewerProperties.ExportConfirmed | tui/model.go:335-348 | Enter in export mode writes the selected payload under the typed name unless the name is empty, and reports success or the write error. It always returns to the list with the envelope unchanged. |
| ViewerProperties.ExportNameExamples | tui/model_test.go:361-370 | Default names are "crash.txt", "event.json", "event.bin" and "item.json" for the four test items. |
| ViewerProperties.AttachmentAdded | tui/model.go:297-313 | A picked file is appended as one attachment item, and the other items are unchanged. An unreadable file leaves the envelope and flag untouched and shows the error. Either way the viewer returns to the list. |
| ViewerProperties.AttachmentHeaderFields | tui/model.go:460-466 | The attachment header has distinct keys. It decodes as type "attachment", the data's length and the base name. |
| ViewerProperties.AttachmentIsRewritable | tui/model.go:460-478 | An attached item is one the serializer can write and the parser read back. |
| ViewerProperties.DeleteKeepsSavable | tui/model.go:169-178 | Deleting keeps every remaining item serializable and readable back. |
| ViewerProperties.PickerKeepsSavable | tui/model.go:297-313 | Attaching a file keeps every item serializable and readable back. |
| ViewerProperties.KeyPressKeepsSavable | tui/model.go:98-149 | Key presses, resizes and picker messages keep every item serializable and readable back. |

## Left out

- Reading the input stream (`io.ReadAll`) and buffered-reader errors other than end of input: Parse takes the whole input as bytes, and a byte buffer cannot fail otherwise.
- The JSON grammar itself, `PrettyJSON`, `OneLineJSON` and the internals of `compactJSON`: the codec is abstract and constrained only by `Lawful`. `OneLineJSON` also joins whitespace runs inside JSON strings, a detail of rendering only.
- Rendering: `View`, `helpText`, `separator`, `buildDump`, `formatHeader`, `highlightJSON` and the styles. Status messages are structured values (`Note`, `Cause`), not styled strings.
- Starting the pager and the editor, temporary files for editing, and environment variables. Their effect is an `Effect` value, and their result arrives as an `EditResult` event.
- The file picker's and text field's own behaviour. Their results come from `World`. The picker height set on a resize is left out.
- `writeFile`'s individual system calls. Failure to stat, close or rename the temporary file is one `commit` outcome, and the saved size is the length of the serialized bytes.
- `filepath.Base` and the MIME lookup of `addAttachment`: they come with the `Pick` value.
- The `json.Marshal` error in `addAttachment`: an ordered map of strings and an integer always marshals.
- The key-name constants: the file defining them is not part of this model, so keys are an enumeration.
- The 8-byte ASCII fast path of `utf8.Valid`: it speeds up the scan without changing the result.
- Bytes already flushed by `Serialize` before an error: the model returns only the error, and the viewer then discards the temporary file.
- EnvelopeCodec.Parse: a negative `length` makes Go's `make` panic. The model returns a `NegativeLength` error instead.
- Format.FormatSize: Go formats the float64 quotient. The model rounds the exact quotient, which agrees for sizes below 2^53 bytes.
- Format.ToUpper: only ASCII letters are upper-cased, whereas `strings.ToUpper` maps all of Unicode. Item types outside ASCII are not modelled.
- ItemHeader.Names: key folding follows encoding/json as of Go 1.21: ASCII letters are upper-cased, and U+0131, U+017F and U+212A fold to I, S and K. U+0130 has no simple case fold and names no field. The Go version is not pinned in the files modelled, and earlier versions fold differently.
- EnvelopeCodec.UpdateLength: what `any` does to a value is abstract (`viaAny`). The model assumes only that null, booleans, strings and integers within ±2^53 come back unchanged, and that every 64-bit integer can be read. The rounding of larger integers, float formatting, and key sorting inside nested objects are not spelled out. Lemmas that need a value unchanged require it (`StableValues`, `FieldValuesStable`). When a header has both an unreadable member name and an unreadable value, Go reports whichever comes first; the model always reports KeyNotReadable. Which names the ordered map's parser rejects is abstract (`keysReadable`).
- EnvelopeProperties.ParseSerializeRoundTrip: item headers with repeated keys are excluded. Go's struct decoding and the ordered map disagree on them, as `ItemHeader.RepeatedKeyLosesType` shows. Headers with a member name the ordered map cannot read, or a value it cannot read into `any`, are excluded too: Go fails to serialize them. So are headers where `any` changes a value under a key naming a field, which can happen only for an integer beyond 2^53 under a differently spelled length key.
- Viewer.Update: an edit result must name an existing item, because Go indexes the item list with it.
- Format.ItemLabel: the separator is " · " (U+00B7), as tui/format_test.go:20 and :26 expect. The text of tui/format.go:19 shows it double-encoded as "Â·", which is taken as an encoding artifact.
