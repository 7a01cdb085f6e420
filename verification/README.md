# Framing and canonical JSON of a CESR/KERI codec

This project models two parts of a Rust implementation of CESR (Composable Event Streaming
Representation) and KERI, and proves what they are for.

**The stream side** (`crates/cesr-stream`). A sans-I/O framer finds message boundaries in a growing
byte prefix and keeps only offsets and counters between calls. Its memory is modelled by classes
with the same fields (`MessageFramer`, `EventProgress`, `GroupFrameCursor`, `NestedSigCursor`,
`JsonVersionHead`, `CesrCodec`, `TextStream`); what a call must answer is given by functions
without memory (`Frame`, `RunFrom`, `Scan`, `EventSize`, ...). The functions continue from a
position, so "from the start" and "from where an interrupted call got to" are one function at two
positions. The results are: a retained framer answers every call as a fresh one would; an answer on
a prefix is the answer on every longer input; the explicit-stack enclosure scan is the recursive
walk and succeeds exactly when the parsed forest respects four budgets; the framer emits exactly the
in-limit messages and the group codec decodes exactly the in-limit groups; draining a stream tiles
it, however its bytes arrived; and draining undoes rendering. What a primitive, a counter, a group, a
version head and a selector are is stated on the bytes of the wire, apart from the functions that
read them, and proved of those.

**The JSON side** (`crates/keri-codec`). A writer with minimal escapes, a strict cursor
(`Scanner`) whose value walk uses an explicit stack, and grammars of fixed shape on top of it. The
reference is a tree of JSON values with a compact printer (`Print`), RFC 8259 unescaping, the
number grammar of RFC 8259 section 6 and UTF-8 as the encodings of scalar values (RFC 3629). The results
are: the text reader accepts exactly what the writer writes; the value reader accepts exactly the
prints of canonical trees, under exact budgets of fields and depth; the strict payload grammars are
the value reader restricted to one shape; building and parsing IPEX payloads are inverse; what
saidifying produces verifies and is changed by no further saidifying, for every document and every
table of digestive labels; a routed body that is written reads back as its arguments exactly under a
condition the caller can check; an accepted routed body carries the digest of itself with the digest
field dummied; and every payload and body, written or accepted, is given as its literal text.

Reading order: `Prelude`, `CounterCodes`, `Primitives`, `PrimitiveWire`, `VersionHead`,
`GroupGrammar`, `NestedSigCursor`, `GroupCursor`, `GroupLimits`, `Enclosure`, `HeadGrammar`, `Forest`,
`Selectors`, `GroupWire`, `FrameGrammar`, `EventProgress`, `Starvation`, `Framer`, `Chunking`,
`Draining`, `Streaming`, `Rendering`, `FrameAcceptance`, `GroupCodec`, `GroupAcceptance`,
`GroupStreaming`, `Refusals`; then `JsonText`, `Utf8`, `JsonValue`, `JsonWire`, `JsonReader`, `Scanner`,
`JsonFields`, `Ipex`, `IpexWire`, `Routed`, `SadScan`, `SadSlots`, `Said`, `SaidFixed`, `SaidWire`,
`RoutedBody`, `RoutedWriter`, `RoutedWire`.
`dafny verify dfyconfig.toml` checks everything.

Conventions. `usize` is 64 bits wide; slices are at most `ISIZE_MAX` long, as Rust guarantees.
Counters that the source adds with saturation or checks for overflow are unbounded here and a proof
shows that the failing branch is never taken (`assert false` stands in it). Methods carry the
source's control flow; each is proved against a specification function, and the lemmas are about
those functions.

Where code and documentation disagree, the model follows the code:

- `max_nested_groups` is documented as a bound on the child groups of each enclosure
  (crates/cesr-stream/src/framing.rs:31-32); the code keeps one count for the whole scan. The two
  agree for every limit exactly on payloads whose nested enclosures hold no groups
  (`Forests.EachEnclosureExact`); the payload `-TAB-TAA` is refused under a limit of one although
  each of its enclosures has at most one child (`Forests.ChainedIsRefused`).
- A partial atom in an enclosure is reported as `NeedBytes`, although partial group heads and spans
  are reported as `Truncated` (crates/cesr-stream/src/framing.rs:148-178). So a call on a complete
  group can fail with `NeedBytes`, and it does so exactly when its current group is whole, encloses
  a payload, and the scan of the payload comes to a partial atom (`Starvation.FrameStrands`). More
  bytes never help (`Starvation.StrandedForGood`); `-VAB{   ` is such an input
  (`Starvation.CutShortStrands`).
- `RoutedBody::write` does not escape and relies on the strict parser to refuse what is not
  canonical (crates/keri-codec/src/routed.rs:310-313). A route with quotes in it can be spelled like
  another route with another payload; then the write succeeds and reads back as those
  (`RoutedWriters.MisreadIsWritten`). It reads back as its arguments exactly under the condition of
  `RoutedWriters.ReadsBackExactly`.
- `render_payload` says that its writer emits only ASCII (crates/keri-codec/src/ipex.rs:759-761);
  the writer passes multi-byte UTF-8 through. What makes the check unreachable is that escaping
  keeps UTF-8 (`EscapeKeepsUtf8`, `PrintIsUtf8`).

## Model

| member | source | states |
|---|---|---|
| CounterCodes.SoftFieldDecode | crates/cesr-stream/src/encode.rs:189-205 | every string of base-64 digits is the soft field of exactly the number it decodes to |
| CounterCodes.DecodeSoftField | crates/cesr-stream/src/encode.rs:189-205 | decoding a soft field gives back the count whenever it is below 64^ss |
| CounterCodes.EncodeSoftInto | crates/cesr-stream/src/encode.rs:189-205 | the shift-and-mask loop appends the base-64 digits of the count, high to low |
| CounterCodes.EncodeCountInto | crates/cesr-stream/src/encode.rs:112-124 | succeeds exactly when the count is at most 64^ss - 1, then appends the one wire form; a refusal leaves the destination untouched |
| CounterCodes.EncodeCountAutoInto | crates/cesr-stream/src/encode.rs:126-137 | appends the form auto-promotion chooses; when neither form can hold the count it appends nothing and reports the capacity of the last form tried |
| CounterCodes.ReadPrinted | crates/cesr-stream/src/parse.rs:165-203 | reading recovers the code and the count of any printed counter and consumes exactly its encoding, whatever follows |
| CounterCodes.PrintRead | crates/cesr-stream/src/parse.rs:165-203 | the reader accepts nothing but printed counters |
| CounterCodes.AutoPromotionIsMinimal | crates/cesr-stream/src/encode.rs:126-137 | the promoted form decodes to the same count, a count that fits is never promoted, and failure means that no available form holds it |
| CounterCodes.CounterNeedIsSound | crates/cesr-stream/src/parse.rs:165-203 | a starved counter read is never cured by fewer bytes than it asked for |
| CounterCodes.Base64Alphabet | crates/cesr/src/b64/alphabet.rs:15-16 | the digits are those of the URL-safe alphabet, in its order |
| PrimitiveWire.SoftFieldOnWire | crates/cesr-stream/src/encode.rs:189-205 | every digit of a soft field is the alphabet's character for that digit of the count in base 64, most significant first |
| PrimitiveWire.MatterExact | crates/cesr/src/core/matter/code/matter_code.rs:389-420 | a primitive is sized exactly if a code of the table, as long as its first character says, begins the stream and its fixed or announced size is there |
| PrimitiveWire.IndexedExact | crates/cesr/src/core/indexer/builder.rs:276-330 | the same for indexed signatures |
| PrimitiveWire.CounterSpanExact | crates/cesr-stream/src/parse.rs:368-398 | a counter is stepped over exactly if a code of either table begins the stream and all its characters are there |
| Primitives.MattersStable | crates/cesr-stream/src/parse.rs:350-356 | a run of Matter primitives that was sized or refused stays so in every longer input |
| Primitives.MattersLocal | crates/cesr-stream/src/parse.rs:350-356 | a run of Matter primitives depends on nothing behind its end |
| Primitives.TextStream.Take | crates/cesr-stream/src/parse.rs:115-130 | the cursor moves past the bytes it hands out, or stays and reports how many are missing |
| Primitives.TextStream.SkipMatters | crates/cesr-stream/src/parse.rs:350-356 | the loop ends where the sizing specification says, at the same error otherwise |
| Primitives.TextStream.SkipIndexer | crates/cesr-stream/src/parse.rs:358-366 | one indexed signature is stepped over by its table size |
| Primitives.TextStream.SkipCounter | crates/cesr-stream/src/parse.rs:368-398 | a counter is stepped over without knowing its code table |
| VersionHead.JsonHeadAccepts | crates/cesr-stream/src/message.rs:91-149 | from the byte behind the brace, the head automaton accepts exactly white space, "v", white space, a colon, white space and a quote, and reports the offset behind it |
| Enclosures.JsonBodyHead | crates/cesr-stream/src/message.rs:91-149 | a body recognised as JSON has its version string behind exactly a brace and that head |
| VersionHead.JsonVersionHead.Advance | crates/cesr-stream/src/message.rs:114-149 | the resumed automaton answers as on the whole input; its offset never moves back and ends at the head's end, at the end of a starved input, or on the first offending byte, so no byte is stepped over twice |
| VersionHead.HeadSizingIsFinal | crates/cesr-stream/src/message.rs:151-224 | for JSON, CBOR and MessagePack a size or hard error holds for every extension, except on the empty slice, and a starved answer is a sound lower bound, through the V1/V2 choice at short tails |
| VersionHead.SizeCoversHead | crates/cesr-stream/src/message.rs:161-224 | a declared size always covers the version head it was read from |
| HeadGrammar.BinaryHeadExact | crates/cesr-stream/src/message.rs:25-89 | the version offset of CBOR and MessagePack is found exactly behind a map that is not empty, the one-byte text key `v` and a text header for 17 bytes, by RFC 8949 section 3 and the MessagePack headers |
| HeadGrammar.EventSizeExact | crates/cesr-stream/src/message.rs:151-224 | a body has a size exactly if its first field is `v` in its encoding and holds a known protocol, two hex digits, the kind of the encoding, six hex digits worth that size and `_`, and the size covers them |
| HeadGrammar.V2IsUnsupported | crates/cesr-stream/src/message.rs:161-224 | a V2 version string is refused as unsupported once whole, and awaited by exactly the missing bytes before |
| HeadGrammar.DetectExact | crates/cesr-stream/src/cold.rs:82-91 | the first byte announces JSON by a brace, CBOR by major type 5, MessagePack by a map header, text by the alphabet, and CESR binary by any other high byte |
| GroupGrammar.ElementsFrom | crates/cesr-stream/src/group/mod.rs:837-921 | a framed group ends inside the input and the byte budget, and its signatures are within their budget and no more than its bytes |
| NestedSigCursors.NestedSigCursor.AdvanceBounded | crates/cesr-stream/src/group/mod.rs:647-715 | a resumed element with a nested signature list answers as a fresh scan of the element; what it retains changes no later answer, and on an error it stands on the very primitive or counter that failed |
| GroupCursors.ElementsStable | crates/cesr-stream/src/group/mod.rs:837-921 | the extent of a group is the same in every longer input, and a refusal stays a refusal |
| GroupCursors.GroupFrameCursor.AdvanceElements | crates/cesr-stream/src/group/mod.rs:853-921 | the element loop, from wherever it was left, ends with the extent or error of a scan from the start; on an error it stands past every completed element, on the failing piece of the next |
| GroupCursors.GroupFrameCursor.PassCurrent | crates/cesr-stream/src/group/mod.rs:853-921 | one attempt either completes the current element and moves past it for good, or fails as the whole scan does and stays in it |
| GroupCursors.GroupFrameCursor.AdvanceLimited | crates/cesr-stream/src/group/mod.rs:837-921 | every call answers as a scan from the start of the group; the retained position never moves back, leads every longer input to the same answer, and on an error nothing complete is ahead of it |
| GroupLimits.ElementsExact | crates/cesr-stream/src/group/mod.rs:837-921 | a bounded element scan succeeds exactly when the unbounded one does within the bounds, with the same extent |
| GroupLimits.GroupExact | crates/cesr-stream/src/framing.rs:201-214 | element check and bounded framing together succeed exactly when the group is whole and its bytes, signatures and largest declared list are within limits |
| GroupLimits.StarvedWithin | crates/cesr-stream/src/group/mod.rs:837-921 | a group asks for more bytes only while less than its byte budget has arrived |
| GroupWire.GroupOnWire | crates/cesr-stream/src/group/mod.rs:925-1170 | without limits a group is framed exactly if a counter of the table stands there and is followed by the quadlets it counts, or by as many elements as it counts, each made of the primitives, indexed signatures and nested list of its letter; bytes, signatures and largest list are those of the elements |
| GroupWire.LetterExact | crates/cesr-stream/src/group/mod.rs:925-1170 | what one element of each letter consists of and how many signatures it holds |
| GroupWire.LettersExact | crates/cesr/src/core/counter/code.rs:84-120 | which letters each table has, small and big, and which of them count quadlets, enclose, envelop or list |
| Enclosures.SkipEnclosedAtom | crates/cesr-stream/src/framing.rs:148-178 | one embedded body or primitive is sized, flagged as a signature or refused, with errors passed through unmapped |
| Enclosures.EnterGroup | crates/cesr-stream/src/framing.rs:102-143 | entering a nested group pushes its rest and its payload such that walking the new stack is walking the old one |
| Enclosures.ScanEnclosure | crates/cesr-stream/src/framing.rs:63-146 | the explicit-stack scan terminates on every input, returns exactly what the recursive walk returns, and its saturating counters never saturate |
| Forests.WalkExact | crates/cesr-stream/src/framing.rs:80-146 | the walk succeeds exactly when the bytes parse as a forest whose groups, depth, lists, bodies and signatures are within what is left of the limits, and then counts exactly that forest |
| Forests.ScanExact | crates/cesr-stream/src/framing.rs:63-146 | the enclosure scan succeeds exactly when the payload is a forest within all limits and then returns exactly the forest's signature count |
| Selectors.SelectedScan | crates/cesr-stream/src/group/unwrap.rs:131-180 | a selector of major version 1 or 2 has what follows it read with that table, whatever the table around it and the minor version; any other major version is refused |
| Selectors.SelectorsSpelled | crates/cesr-stream/src/group/unwrap.rs:162-180 | the selectors of versions 1.0 and 2.0 are `-_AAABAA` and `-_AAACAA` |
| Selectors.UnselectedScan | crates/cesr-stream/src/group/unwrap.rs:131-180 | a payload without a selector is read with the table around it |
| Selectors.BrokenSelector | crates/cesr-stream/src/group/unwrap.rs:131-180 | a selector cut short is refused with what it lacks, and a payload that only begins like one is read as it stands |
| Forests.EachEnclosureExact | crates/cesr-stream/src/framing.rs:180-190 | a scan that succeeds keeps each enclosure's children within the group limit; on payloads without groups in nested enclosures that is all it asks, and every other payload is refused by a limit that each of its enclosures keeps |
| Forests.ChainedIsRefused | crates/cesr-stream/src/framing.rs:180-190 | the payload `-TAB-TAA`, whose enclosures have at most one child each, is refused under a limit of one |
| FrameGrammar.CloseGroup | crates/cesr-stream/src/framing.rs:471-537 | closing a group keeps bytes, groups and signatures within their limits, or stops with an answer that fits the call |
| FrameGrammar.Frame | crates/cesr-stream/src/framing.rs:288-403 | an emitted span is not empty, lies in the input, covers its body, and has one exactly when the first byte starts one; at end of input a non-empty input is never left pending |
| FrameGrammar.ScanWithinPayload | crates/cesr-stream/src/framing.rs:63-146 | a scan never finds more signatures than its payload has bytes |
| Events.EventProgress.constructor | crates/cesr-stream/src/framing.rs:374-380 | progress starts at the end of the body with nothing counted |
| Events.EventProgress.AdvanceGroup | crates/cesr-stream/src/framing.rs:471-537 | cursor, groups and signatures stay the body length plus sums over completed groups and within the limits, so the checked subtraction and additions cannot fail |
| Events.EventProgress.BeginGroup | crates/cesr-stream/src/framing.rs:539-575 | a counter at the cursor opens the group it announces, waits, or is refused by the group, byte and element limits |
| Events.EventProgress.Advance | crates/cesr-stream/src/framing.rs:407-467 | answers as framing the whole message from the position before the call, and leaves a position that answers every longer input alike; while pending, nothing complete is ahead of it |
| Starvation.WalkStrands | crates/cesr-stream/src/framing.rs:80-178 | the walk of a payload asks for more bytes exactly when it comes to a partial atom with everything before it within the limits |
| Starvation.FrameStrands | crates/cesr-stream/src/framing.rs:288-403 | a frame's error is `NeedBytes` exactly when its current group is whole, encloses a payload and the scan of that payload comes to a partial atom lacking that many bytes |
| Starvation.StrandedForGood | crates/cesr-stream/src/framing.rs:288-403 | such an error is met by every longer input, open or ended |
| Starvation.CutShortStrands | crates/cesr-stream/src/framing.rs:148-178 | the input `-VAB{   ` fails with `NeedBytes(1)` before and at the end of input, whatever follows |
| Framers.MessageFramer.Start | crates/cesr-stream/src/framing.rs:336-403 | the first bytes lead to a state that answers every longer input as a fresh framer, or to the fresh framer's own answer |
| Framers.MessageFramer.Advance | crates/cesr-stream/src/framing.rs:288-335 | every call on a grown prefix answers exactly what a fresh framer answers on it, whatever earlier calls returned, errors and end-of-input calls included; while pending, everything complete is behind it |
| Chunking.GroupsFinal | crates/cesr-stream/src/framing.rs:407-467 | the outcome of the attachment loop on an open prefix is its outcome on every longer input, open or ended |
| Chunking.FrameFinal | crates/cesr-stream/src/framing.rs:288-403 | a span found on an open prefix is the span of every longer input, and a refusal stays a refusal |
| Chunking.FrameInChunks | crates/cesr-stream/src/framing.rs:288-335 | any schedule of growing prefixes through one framer, with truncating end-of-input calls in between, first emits the span of a fresh framer on the whole input, and agrees with it on pending and error |
| Chunking.ScanGroupV1 | crates/cesr-stream/src/framing.rs:46-61 | the one-shot group scan returns length and bounded signature count as its specification |
| Chunking.ScanMatchesFrame | crates/cesr-stream/src/framing.rs:46-61 | the one-shot scan succeeds exactly when the framer emits a standalone group at the end of the same input, with the same length |
| Draining.MessageCodec.Next | crates/cesr-stream/src/codec.rs:193-208 | a span is split off the buffer exactly; pending and errors leave the buffer as it is |
| Draining.DrainTiles | crates/cesr-stream/src/codec.rs:193-208 | the spans of a drain concatenate to exactly the consumed prefix, none is empty or shorter than its body, and only a refusal leaves bytes over |
| Draining.DrainAll | crates/cesr-stream/src/codec.rs:201-208 | the read loop stops, and its chunks followed by what is left are the stream, byte for byte |
| Streaming.Poll | crates/cesr-stream/src/codec.rs:193-208 | polling until `None` takes from the buffer exactly the next frames of the whole stream and leaves nothing it could frame |
| Streaming.DrainInChunks | crates/cesr-stream/src/codec.rs:193-208 | for every schedule of arrivals, polling after each and finishing at the end of input yields exactly the frames of draining the whole stream, and a refusal exactly where that drain has one |
| Rendering.GroupsTaken | crates/cesr-stream/src/framing.rs:407-467 | a run of in-limit groups is taken whole and counted exactly, up to an envelope that ends the message |
| Rendering.DrainUndoesRender | crates/cesr-stream/src/framing.rs:407-467 | joining in-limit messages and draining the stream gives back exactly their boundaries and body lengths |
| FrameAcceptance.FrameExact | crates/cesr-stream/src/framing.rs:288-403 | open or ended, a span is emitted exactly if an in-limit message of that body length and length begins the input and what follows ends it: body size, element counts, group count, attachment bytes, signatures, nested groups and depth are all within their limits |
| FrameAcceptance.PendingIsBounded | crates/cesr-stream/src/framing.rs:288-403 | a frame is pending only while no more has arrived than one body and its attachments may take |
| Refusals.FrameNames | crates/cesr-stream/src/framing.rs:288-575 | a refusal for a limit names the caller's limit of that kind, over all groups of a message; for attachment bytes, and for the signatures of a group without a body, it may name what is left of it |
| FrameAcceptance.MissingIsExact | crates/cesr-stream/src/framing.rs:407-467 | an incomplete body is pending, and truncated by exactly the missing bytes at the end of input |
| GroupCodec.FramedParses | crates/cesr-stream/src/group/mod.rs:194-215 | the bytes a bounded cursor frames are parsed again without limits, by the one-shot parser, up to their last byte |
| GroupCodec.ParseBytes | crates/cesr-stream/src/group/mod.rs:1178-1220 | the group parser returns the group and the remainder at the end that its grammar gives |
| GroupCodec.AttemptFinal | crates/cesr-stream/src/codec.rs:77-125 | a group decoded from a prefix is the one decoded from every longer buffer, and a refusal stays a refusal |
| GroupCodec.CesrCodec.Decode | crates/cesr-stream/src/codec.rs:77-125 | the retained cursor decides as a fresh codec on the whole buffer; a group is removed exactly, anything else leaves the buffer unchanged, and the parse after framing never fails; after `Ok(None)` only the counter or the incomplete piece of the current element is ahead of the cursor |
| GroupCodec.CesrCodec.DecodeEof | crates/cesr-stream/src/codec.rs:127-162 | at the end of a non-empty buffer there is a group, a refusal, or a truncation with the missing count; never nothing |
| GroupCodec.DecodeInChunks | crates/cesr-stream/src/codec.rs:77-125 | for every arrival schedule the polled codec returns the group of a codec given the whole buffer, with exactly the rest left |
| GroupAcceptance.AttemptExact | crates/cesr-stream/src/codec.rs:77-125 | the codec decodes a group exactly if a whole one of its version stands at the head, it is within the limits, and if it encloses a payload, that is a forest within the limits, read with the codec's version |
| GroupAcceptance.PendingIsBounded | crates/cesr-stream/src/codec.rs:77-125 | the codec waits only while less than its byte limit has arrived |
| Refusals.AttemptNames | crates/cesr-stream/src/codec.rs:77-125 | the same of the group codec |
| GroupAcceptance.MissingIsExact | crates/cesr-stream/src/codec.rs:127-162 | a group that counts quadlets lacks exactly the rest of its bytes |
| GroupStreaming.GroupsTile | crates/cesr-stream/src/codec.rs:77-162 | the groups decoded from a stream tile exactly the consumed prefix, each behind its own counter, and only a refusal or truncation leaves bytes over |
| GroupStreaming.PollGroups | crates/cesr-stream/src/codec.rs:77-125 | polling until `None` takes from the buffer exactly the next groups of the whole stream and leaves at most the start of one |
| GroupStreaming.DecodeAllInChunks | crates/cesr-stream/src/codec.rs:77-162 | for every schedule of arrivals, polling after each and finishing at the end of input yields exactly the groups and the remainder of decoding the whole stream, and a refusal exactly where that has one |
| JsonTexts.WriteStr | crates/keri-codec/src/codec.rs:223-243 | the escape loop appends the quoted spelling of the text |
| JsonTexts.EscapeHasNoControls | crates/keri-codec/src/codec.rs:218-243 | no raw byte below 0x20 is ever written |
| JsonTexts.EscapeKeepsUtf8 | crates/keri-codec/src/codec.rs:218-243 | escaping neither makes nor breaks UTF-8, from any point inside a sequence |
| JsonTexts.UnescapeUndoesEscape | crates/keri-codec/src/codec.rs:218-243 | RFC 8259 section 7 unescaping gives back every string that was written |
| JsonTexts.QuotedDelimitsItself | crates/keri-codec/src/codec.rs:218-243 | a written string ends at its own closing quote: two strings with anything behind them are equal only if text and rest are |
| JsonTexts.JsonTextExact | crates/keri-codec/src/codec/scanner.rs:269-368 | the text reader accepts exactly the writer's spelling of UTF-8 text, stops behind its closing quote and recovers the text |
| JsonTexts.StringExact | crates/keri-codec/src/codec/scanner.rs:227-256 | the fixed-field reader accepts exactly the texts the text reader accepts that need no escape |
| Utf8Scalars.Utf8Exact | crates/keri-codec/src/codec/scanner.rs:306-315 | a text passes the UTF-8 check exactly if it is the encoding of a sequence of Unicode scalar values |
| JsonWire.SpellingOnWire | crates/keri-codec/src/codec.rs:223-243 | the literal spelling of every byte of a text |
| JsonWire.PrintOnWire | crates/keri-codec/src/codec/scanner.rs:491-631 | the literal text of every kind of value: words, quoted texts, and items or members between brackets with commas between them |
| JsonValues.NumberIsLexeme | crates/keri-codec/src/codec/scanner.rs:390-431 | what the number reader consumes follows the RFC 8259 number grammar |
| JsonValues.LexemeIsNumber | crates/keri-codec/src/codec/scanner.rs:390-431 | every number of that grammar is read whole wherever no number character follows |
| JsonReaders.ValueIsPrinted | crates/keri-codec/src/codec/scanner.rs:491-631 | an accepted value is the compact print of a canonical tree (UTF-8 texts, grammatical numbers, unique keys at every depth), and the budget covered and paid exactly its fields and height |
| JsonReaders.PrintedIsValue | crates/keri-codec/src/codec/scanner.rs:491-631 | every canonical tree in compact form is read back under any budget that covers it, ending where its text ends |
| JsonReaders.ObjectExact | crates/keri-codec/src/codec/scanner.rs:197-205 | an object is accepted exactly when the print of a canonical object stands there and the budget covers it, and the span ends at its own closing brace whatever its strings contain |
| JsonReaders.PrintIsUtf8 | crates/keri-codec/src/ipex.rs:510-521 | an accepted value is UTF-8 as a whole, so the conversion of its span cannot fail |
| JsonReaders.CostWithinText | crates/keri-codec/src/codec/scanner.rs:68-70 | a value has fewer fields and levels than bytes, so the unlimited budget never runs out |
| JsonReaders.EncodeStrings | crates/keri-codec/src/codec.rs:194-206 | the array encoder writes the compact print of an array of texts |
| JsonReaders.StringArrayExact | crates/keri-codec/src/codec/scanner.rs:646-677 | the array reader accepts exactly the canonical arrays that consist of plain strings |
| Scanners.Scanner.ChargeLiteral | crates/keri-codec/src/codec/scanner.rs:154-179 | each literal is charged for what it opens, closes and names, up to the first limit |
| Scanners.Scanner.JsonString | crates/keri-codec/src/codec/scanner.rs:269-315 | the escape-aware loop accepts, ends and fails where the text reader does |
| Scanners.Scanner.JsonText | crates/keri-codec/src/codec/scanner.rs:320-368 | checking the spelling and decoding it afterwards yields the text the spelling stands for, and the internal error branches are never taken |
| Scanners.Decode | crates/keri-codec/src/codec/scanner.rs:325-368 | the loop over backslashes inverts the writer's escape |
| Scanners.Scanner.CanonicalValue | crates/keri-codec/src/codec/scanner.rs:491-613 | the iterative walk with its container and key stacks terminates and accepts, ends, charges and fails exactly as the recursive reader |
| Scanners.Scanner.StringArray | crates/keri-codec/src/codec/scanner.rs:646-677 | the list loop collects the items its specification gives |
| JsonFields.FieldThen | crates/keri-codec/src/codec/scanner.rs:141-189 | a field literal, a value and the rest of an object follow one another exactly when the members begin with that field, with the same charges |
| JsonFields.ObjectInExact | crates/keri-codec/src/ipex.rs:582-584 | a caller's text passes the object check exactly when it is the compact print of a canonical object |
| IpexPayloads.ApplyPayload | crates/keri-codec/src/ipex.rs:501-526 | the application reader follows its literal sequence, refuses SAIDs and identifiers that do not decode, and keeps the filter as the bytes it spans |
| IpexPayloads.GrantPayload | crates/keri-codec/src/ipex.rs:534-544 | the grant reader follows its literal sequence and refuses identifiers that do not decode |
| IpexPayloads.PayloadExact | crates/keri-codec/src/ipex.rs:501-556 | each strict reader is the value reader on payloads of its shape whose fixed fields are plain and decode |
| IpexPayloads.BuildPayload | crates/keri-codec/src/ipex.rs:574-618 | a builder succeeds exactly when its filter is a canonical object, writes the compact print of the payload, and its UTF-8 and whole-payload checks never fail |
| IpexPayloads.PayloadRoundTrip | crates/keri-codec/src/ipex.rs:501-556 | for every message, SAID, identifier and canonical filter the reader recovers what was rendered, to the last byte, exactly when the budget admits its fields and depth |
| IpexPayloads.BuildThenParse | crates/keri-codec/src/ipex.rs:356-420 | what a builder renders, the reader of its route takes apart into what went in, under every limit that admits it |
| IpexWire.BuiltText | crates/keri-codec/src/ipex.rs:574-618 | what is built is the literal text of the route's payload around the quoted message, the primitives and the filter |
| IpexWire.AcceptedText | crates/keri-codec/src/ipex.rs:501-556 | a strict reader accepts nothing but that text for the payload it returns, of the shape of its route, with primitives that decode |
| RoutedPayloads.PayloadStringField | crates/keri-codec/src/routed.rs:489-507 | the search loop returns or refuses as its specification |
| RoutedPayloads.FindStringExact | crates/keri-codec/src/routed.rs:489-507 | on every canonical object the search answers by its top-level members alone; keys inside nested values never match |
| RoutedPayloads.LookupMeaning | crates/keri-codec/src/routed.rs:489-507 | the search returns a text exactly when the first member with that name is that text and neither it nor any key up to its own is spelled with an escape |
| RoutedPayloads.EscapedKeyHidesLaterFields | crates/keri-codec/src/routed.rs:489-507 | without that condition the promise fails: an object whose requested member is a string is refused because an earlier key has an escape |
| SadScans.Scan | crates/keri-codec/src/said.rs:584-637 | the top-level field loop finds, skips and refuses as its specification, for every table of digestive labels |
| SadScans.ScanExact | crates/keri-codec/src/said.rs:584-637 | of printed canonical members the scan accepts exactly those whose version field is a JSON version string and whose digestive fields are plain strings, and notes exactly where these stand |
| SadScans.ScanSadExact | crates/keri-codec/src/said.rs:584-637 | a text is scanned exactly if it is the compact print of a canonical object with such fields |
| SadSlots.SlotKept | crates/keri-codec/src/said.rs:280-300 | overwriting a noted digest by a plain text of its width leaves the scan as it was |
| SadSlots.VersionKept | crates/keri-codec/src/said.rs:336-379 | writing a size into the version string changes the declared size and nothing else of the scan |
| Saids.Saidify | crates/keri-codec/src/said.rs:336-379 | in place: the size is patched, every slot dummied, every digest computed over that one rendering and then spliced in; a refused document is left as it was |
| Saids.Verify | crates/keri-codec/src/said.rs:396-445 | succeeds exactly when the declared size is the length and every digestive field holds the digest of the document with all of them dummied |
| Saids.SaidifyThenVerify | crates/keri-codec/src/said.rs:336-445 | for every document and every table of labels, what saidify produces has the length it started with and passes verify |
| SaidFixpoints.SaidifyKeepsExactly | crates/keri-codec/src/said.rs:336-445 | saidify leaves a document as it is if and only if the document verifies and spells its size without upper-case digits; every document that verifies can be saidified |
| SaidFixpoints.SaidifyTwice | crates/keri-codec/src/said.rs:336-379 | saidifying what saidify produced changes nothing |
| SaidFixpoints.UpperCaseIsChanged | crates/keri-codec/src/said.rs:336-379 | a document that verifies with the size `00001F` is rewritten with `00001f` |
| SaidWire.SaidifiesExactly | crates/keri-codec/src/said.rs:336-379 | saidifying succeeds exactly if the document is scanned, every configured field is there in the width of its code, and the length fits six hex digits where there is a version string |
| SaidWire.SaidifiedBytes | crates/keri-codec/src/said.rs:336-379 | saidifying keeps every byte outside the digests and the size field, writes the length, and makes every digest that of the result with `#` all over its digests |
| SaidWire.VerifiedExact | crates/keri-codec/src/said.rs:396-445 | a document verifies exactly if it is scanned, complete, of the declared size, and every digest is that of the document with `#` all over its digests |
| RoutedBodies.ParseBody | crates/keri-codec/src/routed.rs:238-282 | the parser follows the head, the literal sequence, the payload span and the digest check |
| RoutedBodies.GrammarExact | crates/keri-codec/src/routed.rs:238-266 | the grammar accepts exactly the canonical objects with the members of a routed body whose version string declares their length and whose cost the budget covers |
| RoutedWriters.WriteBody | crates/keri-codec/src/routed.rs:323-348 | formatting, saidifying in place and reading back give the specified bytes or error |
| RoutedWriters.WriteThenParse | crates/keri-codec/src/routed.rs:323-348 | over plain strings and a canonical payload, writing succeeds exactly when the size fits its six hex digits and the budget covers the body, and parsing then returns the same type, time, routes and payload with the digest of the dummied rendering |
| RoutedWriters.ReadsBackExactly | crates/keri-codec/src/routed.rs:323-348 | for every call, writing succeeds and parsing gives back the arguments if and only if the strings are plain UTF-8, the payload is a canonical object, the size fits and the budget covers the body |
| RoutedWriters.MisreadIsWritten | crates/keri-codec/src/routed.rs:323-348 | outside that condition a write can succeed and parse back as another route and another payload |
| RoutedWriters.ParsedIsVerified | crates/keri-codec/src/routed.rs:238-282 | every accepted body is the rendering of what was parsed, declares its own length, and holds the digest of itself with the digest field dummied |
| RoutedWire.WrittenText | crates/keri-codec/src/routed.rs:323-348 | whatever the arguments, a successful write is the literal text of a query or reply around them, with its own length in six hex digits and the digest of that text with 44 `#` for the digest |
| RoutedWire.AcceptedText | crates/keri-codec/src/routed.rs:238-282 | only such a text is accepted, as the kind it names, with its parts, its own length and its own digest |

## Left out

- Matter and Indexer code tables: they are a parameter with a sanity condition; only the size of a primitive and whether its code is a signature matter.
- Typed narrowing and decoding of primitives: qb64 values are their texts, which of them decode is a parameter, and so are digest computation and code inference, of which only width, alphabet and the code of their own result are known.
- Error texts: which limit, offset or missing count is reported is modelled, the wording and some error variants of primitives (malformed matter, base64, UTF-8) are merged.
- Primitives.TextStream.SkipIndexer: the missing count of a starved indexed signature is the total and not the rest, as in the source, so no lower bound is claimed for it.
- Chunking.FrameInChunks: prefixes only grow, as the interface asks; replacing a retained prefix is not modelled, and error kinds on different prefixes may differ.
- Chunking.FrameFinal: a refusal is kept as a refusal, not as the same error, because a pending counter over budget is reported with the bytes seen so far.
- RoutedWriters.WriteThenParse: assumes strings that need no escape and a canonical payload; RoutedWriters.ReadsBackExactly shows that no other call reads back as its arguments.
- Digest tables: `SadCodes::from_pairs`, which caps the table at four labels and reserves `v`; the scan and both digest operations are modelled for tables of any length.
- Verifying nested self-addressing blocks and key events by their spans.
- IpexPayloads.BuildThenParse: covers the payload map of each route; the typed embeds (credential, registry event, anchor), their SAID map and the exchange envelope around a payload are not modelled.
- Routed payload types: endpoint, location and key-state claims, and the logs query, beyond the field search they share.
- Opaque anchors, thresholds, receipts, ACDC and key-event grammars of the JSON codec.
- The Tokio traits, shared byte buffers and zero-copy slicing: buffers are byte sequences that methods reassign.
- Cryptography, key state, escrow and duplicity.
