# Verified model of the printer SDK

Dafny models of the deterministic cores of a label-printer SDK, with proofs about every input, every run or every
reachable state. `dafny verify dfyconfig.toml` checks everything.

- **IPP codec** (`Bytes`, `IppModel`, `IppWire`, `IppOctets`, `IppDecode`, `IppDecodeProofs`, `IppMessageProofs`,
  `IppEncode`, `IppCodec`): the wire form of section 3 of RFC 8010 is written as a function of the message tree. The
  decoder and the encoder, classes that move an offset and counters, are proved to accept exactly that form and to undo
  each other.
- **Plans and their execution** (`Plan`, `RunModel`, `RunProofs`, `Answers`, `Executor`, `ReplayProtection` in
  `Replay.dfy`): the executor runs against an arbitrary environment that may fail, time out or cancel at every moment.
  `RunModel` says what the run of a plan comes to in an environment, `Executor` computes it, `RunProofs` shows that its
  log and its errors are true and when it completes, and `Answers` when a response is complete.
- **Brother rasters** (`PackBits`, `Bits`, `Raster`, `BrotherLines`, `BrotherPlan`, `BrotherBatch`, `BrotherPrinter`):
  compression (section 9 of TIFF 6.0), mirroring and framing preserve the raster; batches and copies have the promised
  structure, and a machine that reads every command by its octets prints exactly the rasters asked for.
- **Credit flow over Bluetooth** (`CreditFlow`, `BleTransport`, `BrowserBluetooth`): one abstract machine; the Rust and
  the TypeScript transport keep a trace of what they did, and every method shows that the trace is a run of that machine.
- **Confirmed IPP changes** (`Utf8Text` in `Utf8.dfy`, `Administration`, `SettingValues`, `Observations`,
  `ConfirmedChange`, `ChangeAgent`): plan, re-read, one write, verify, against an arbitrary printer (section 4 of RFC
  3380).
- **Documents** (`Forest`, `Documents`, `RenderWalks`, `ZoneBatch`, `RenameClash`, `ZoneBatchProofs`): validation
  establishes a forest, bounded walks compute unbounded meanings, batch materialization preserves validity.
- **Raster algorithms and arithmetic** (`Arithmetic`, `LineDrawing`, `Dither`, `DitherStencils`, `Sheet`, `Decimal`,
  `DecimalText`, `NumeralGrammar`).
- **BER for SNMP** (`Ber`, `BerValues`, `Snmp`): sections 8.1.3, 8.3 and 8.19 of ITU-T X.690.

Integers are unbounded except where width matters: octet truncation of line lengths, saturating counters, 32- and 64-bit
integers in IPP and BER, the 32-bit arithmetic of lines and page counts, the 128-bit limit of decimals, checked 64-bit
sheet geometry, the 64-bit conversion to dots. SHA-256, template evaluation, the object registry and the size of
serialized documents are parameters; time, transports, printers and cancellation are arbitrary functions of the step.

Seven promises do not hold of the code on all inputs. Each has its exact condition and a witness:

- A decoded collection member without a value cannot be encoded again (`IppCodec.DecodeThenEncode`,
  `IppCodec.EmptyMemberDecodesButDoesNotEncode`).
- A compressed Brother row wider than 191 bytes can overflow its one-octet length (`PackBits.OneByteLengthIffNarrow`).
- Object identifiers whose first sub-identifier exceeds 32 bits do not survive (`Snmp.OidRoundTrip`, `Snmp.OidWraps`); the
  model wraps, as a release build does.
- Eliding the SNMP community overwrites other octets when something follows the outer sequence
  (`Snmp.ElidesIffSpanning`, `Snmp.TrailingOctetShiftsMask`).
- Renamed element identifiers of a batch page can coincide when a zone identifier hides the suffix of another slot
  (`ZoneBatchProofs.PagesAreValid`, `ZoneBatchProofs.ValidBatchInvalidPage`).
- The doubled accumulator of the line loop overflows 32 bits on some lines; on which ones depends on both extents and
  their greatest common divisor (`LineDrawing.LineFitsExactly`). The first extent with such a line is 715827884 dots
  (`LineDrawing.ExtentLimitExact`, `LineDrawing.LongLineOverflows`), while longer horizontal lines may fit
  (`LineDrawing.LongLineFits`).
- Lengths wrap at 64 bits when converted to dots above 25400 dots per inch, so that the one-dot bound on the
  intrusion of neighbouring labels fails (`Sheet.DotsNeverWrap`, `Sheet.IntrusionAtMostOneDot`), and above 50800 a huge
  length may pass for a small one (`Sheet.LengthsMisread`, `Sheet.DotsWrap`).

## Model

| member | source | states |
|---|---|---|
| `IppModel.TagRoundTrip` | crates/mb-printer-core/src/ipp.rs:338-414 | every value-tag byte survives decoding and encoding; a tag fails to survive exactly when it is an extension of a named byte |
| `IppModel.ScalarRoundTrip` | crates/mb-printer-core/src/ipp.rs:788-845 | the scalar codec is a bijection: a value encodes to octets if and only if these decode, under its tag, to the value |
| `IppModel.ScalarWritesBack` | crates/mb-printer-core/src/ipp.rs:1029-1076 | encoding a decoded scalar gives back the very octets it was read from |
| `IppOctets.TagKinds` | crates/mb-printer-core/src/ipp.rs:338-414 | the octets of out-of-band tags, of control tags and of tags with a syntax of their own |
| `IppOctets.DelimiterOctets` | crates/mb-printer-core/src/ipp.rs:507-531 | group delimiters are the octets below sixteen other than zero and three, which ends the attributes |
| `IppOctets.TagOctets` | crates/mb-printer-core/src/ipp.rs:338-414 | the registered value tags by their octets; every other octet is an extension |
| `IppOctets.CollectionOctets` | crates/mb-printer-core/src/ipp.rs:947-991 | a collection opens with 34, closes with 37 0 0 0 0 in hexadecimal, and 4a announces its members |
| `Bytes.I32Octets` | crates/mb-printer-core/src/ipp.rs:1029-1076 | a 32-bit integer is four octets, high one first, a negative one as its sum with 2 to the 32nd |
| `IppOctets.EntryOctets` | crates/mb-printer-core/src/ipp.rs:947-991 | an entry is its tag, the length of its name, high octet first, the name, and the same of its value |
| `IppOctets.MessageOctets` | crates/mb-printer-core/src/ipp.rs:847-873 | a message is its version, code and request identifier, its groups, and the octet 3 |
| `IppDecode.Decoder.AttributeValue` | crates/mb-printer-core/src/ipp.rs:664-704 | reading one entry, nested collections included, computes the functional decoder's entry: same value, same offset, same counters, same error |
| `IppDecode.Decoder.ReadMembers` | crates/mb-printer-core/src/ipp.rs:706-785 | the collection loop computes the functional decoder's members |
| `IppDecode.Decoder.ReadAttributes` | crates/mb-printer-core/src/ipp.rs:533-566 | the attribute loop, with its repeated nameless values, computes the functional decoder's attributes |
| `IppDecode.Decoder.ReadGroups` | crates/mb-printer-core/src/ipp.rs:507-568 | the group loop computes the functional decoder's groups |
| `IppDecode.DecodeMessage` | crates/mb-printer-core/src/ipp.rs:488-576 | decoding a message computes `Decode`, on every input and under all limits, errors included |
| `IppEncode.Encoder.WriteValue` | crates/mb-printer-core/src/ipp.rs:947-973 | writing a value appends exactly its wire form and adds exactly its cost, and succeeds exactly when it fits |
| `IppEncode.Encoder.WriteMember` | crates/mb-printer-core/src/ipp.rs:975-991 | the same for a collection member |
| `IppEncode.Encoder.WriteAttribute` | crates/mb-printer-core/src/ipp.rs:932-945 | the same for an attribute with all its values |
| `IppEncode.EncodeMessage` | crates/mb-printer-core/src/ipp.rs:847-873 | encoding accepts exactly the encodable messages, writes their wire form and ends with their cost in its counters; an error about a limit names that limit and an amount beyond it |
| `IppDecodeProofs.MembersComplete` | crates/mb-printer-core/src/ipp.rs:706-785 | the decoder reads back the wire form of any collection that fits, at any nesting depth, with its exact cost |
| `IppDecodeProofs.MembersSound` | crates/mb-printer-core/src/ipp.rs:706-785 | whatever collection the decoder accepts has exactly the octets read as its wire form, fits and is canonical |
| `IppMessageProofs.GroupsComplete` | crates/mb-printer-core/src/ipp.rs:507-568 | the decoder reads back the wire form of any groups that fit |
| `IppMessageProofs.GroupsSound` | crates/mb-printer-core/src/ipp.rs:507-568 | whatever groups the decoder accepts have exactly the octets read as their wire form |
| `IppCodec.DecodeExact` | crates/mb-printer-core/src/ipp.rs:488-576 | decoding succeeds with a tree if and only if the tree is decodable under the limits and the input is its wire form; so decoded trees are always canonical |
| `IppCodec.EncodeThenDecode` | crates/mb-printer-core/src/ipp.rs:847-873 | an encodable message is decoded back under the same limits if and only if its value tags are canonical, and then both sides end with the same counters |
| `IppCodec.DecodeThenEncode` | crates/mb-printer-core/src/ipp.rs:488-576 | a decoded input is the wire form of its tree; the tree can be encoded again if and only if every collection member has a value and no attribute name exceeds the value limit |
| `IppCodec.DecodeInjective` | crates/mb-printer-core/src/ipp.rs:488-576 | no two inputs share a tree, whatever limits they were decoded under |
| `IppOctets.UsableLimits` | crates/mb-printer-core/src/ipp.rs:52-66 | limits are usable when a message has room for its header and nothing else is forbidden altogether |
| `IppCodec.EmptyMemberDecodesButDoesNotEncode` | crates/mb-printer-core/src/ipp.rs:975-991 | a member without value decodes and is then refused by the encoder |
| `Plan.FlattenStream` | crates/mb-printer-executor/src/executor.rs:299-336 | chunking by logical chunk and payload limit never changes the bytes a plan sends |
| `Plan.RasterPieceSize` | crates/mb-printer-executor/src/executor.rs:299-336 | no physical raster write is empty or exceeds the payload limit or the logical chunk it is cut by |
| `Plan.ChunksFull` | crates/mb-printer-executor/src/executor.rs:299-336 | every chunk but the last is as long as allowed |
| `ReplayProtection.RasterWithinReportedLimit` | crates/mb-printer-executor/src/executor.rs:299-336 | in a run, no raster write exceeds the payload limit the transport reported when its action was reached |
| `Executor.Preflight` | crates/mb-printer-executor/src/executor.rs:165-241 | a plan is accepted if and only if it is admissible; otherwise the error names the plan as a whole or the first action that cannot be admitted |
| `Executor.Executor.WritePiece` | crates/mb-printer-executor/src/executor.rs:430-455 | one write is a look at the cancellation and then the write itself: not issued when cancelled before, confirmed and counted exactly when the transport takes it before any cancellation, in doubt otherwise, with what the transport said |
| `Executor.Executor.CollectFixed` | crates/mb-printer-executor/src/executor.rs:503-573 | a Phomemo frame is everything the transport handed over during the call from its first 0x1a on and so always validates; other responses are exactly what was handed over; the retained total stays within the limit; the outcome and its moment are those of `Listen` |
| `Executor.Executor.CollectMultipart` | crates/mb-printer-executor/src/executor.rs:575-630 | a collected response is exactly what the transport handed over during the call, not empty and within its declared maximum; the outcome and its moment are those of `Gather` |
| `Executor.Executor.RunRaster` | crates/mb-printer-executor/src/executor.rs:299-336 | the writes issued for a raster are its pieces, cut under the limit the transport reports then, in order, or a prefix of them; a limit of zero writes nothing |
| `Executor.Executor.RunWait` | crates/mb-printer-executor/src/executor.rs:337-378 | a retained response satisfies the validator of its action and is the frame in what was handed over for it |
| `Executor.Executor.RunCollect` | crates/mb-printer-executor/src/executor.rs:379-407 | the same for collected responses, within the declared maximum |
| `Executor.Executor.Execute` | crates/mb-printer-executor/src/executor.rs:132-163 | against any transport and any cancellation, the writes issued are a prefix of the plan's pieces, cut under the limits reported when each action was reached, in order and never repeated; all but possibly the last are confirmed; the last is unconfirmed exactly when the run ends with an unknown write outcome; every retained response is a validated frame of what was handed over for its action; writes with their moments, responses, progress and result are those of the run `RunTo` of the plan in its environment; a plan that is not admissible does nothing |
| `Executor.Executor.RunActions` | crates/mb-printer-executor/src/executor.rs:243-413 | the same for the action loop alone |
| `Executor.Executor.SendPiece` | crates/mb-printer-executor/src/executor.rs:315-332 | one physical write of a raster is two looks at the cancellation, the write and the delay, and stops at the first that is troubled |
| `RunProofs.RunIsTruthful` | crates/mb-printer-executor/src/executor.rs:430-455 | each write of a run counts as confirmed exactly when the transport took it at its own moment and before any cancellation, and the moments of the writes increase |
| `RunProofs.PlayStopsAtTrouble` | crates/mb-printer-executor/src/executor.rs:299-336 | a script of effects finishes exactly when none is troubled at its moment, and otherwise stops right after the first that is |
| `RunProofs.ListensHeardOut` | crates/mb-printer-executor/src/executor.rs:503-630 | listening ends with an answer that validates or is all that was heard, in silence for a reason, with an answer over a limit, or with the failure of its last wait |
| `RunProofs.RunStopsForCause` | crates/mb-printer-executor/src/executor.rs:243-413 | a run stops in the last action it reached and for a cause at its last moment: a cancellation, a write not confirmed, a failure of the operation asked for, silence, an unfit answer, or a missing limit |
| `RunProofs.EndsAsReported` | crates/mb-printer-executor/src/executor.rs:132-163 | success means that no action met trouble, and each error tells what happened at the last moment of the run: `Cancelled`, `WriteOutcomeUnknown` with its write, `TransportFailed`, `ResponseTimeout`, `BadResponse`, `InvalidPlan` |
| `RunProofs.RunCompletesExactly` | crates/mb-printer-executor/src/executor.rs:243-413 | a run completes if and only if no action meets trouble: no cancellation at its moments, no failure of its operations, a limit for its raster, and an answer that validates or that it may go without |
| `RunProofs.QuietRunCompletes` | crates/mb-printer-executor/src/executor.rs:243-413 | a run during which nothing is cancelled and nothing fails, whose rasters get a limit and whose waits and collections get valid answers, completes |
| `Answers.FrameExact` | crates/mb-printer-executor/src/executor.rs:511-560 | a fixed response is complete as soon as what was heard is as long as some answer that validates; a Phomemo frame exactly when what follows the first 0x1a validates; a response of variable length never |
| `Answers.PromptParts` | crates/mb-printer-executor/src/executor.rs:503-573 | a valid answer that arrives promptly in at most 16 non-empty parts, no shorter run of which validates, is the answer to the wait |
| `Answers.ReadsSpent` | crates/mb-printer-executor/src/executor.rs:519-573 | after 16 reads without a frame a Phomemo wait has timed out and any other makes do with what was heard |
| `Answers.CollectedParts` | crates/mb-printer-executor/src/executor.rs:575-630 | fewer than 4096 parts within the maximum, then silence, are collected as their concatenation |
| `Answers.NeverIdle` | crates/mb-printer-executor/src/executor.rs:619-630 | a printer that still answers after 4096 parts is refused, unless the time is up just then |
| `Answers.ValidatesExact` | crates/mb-printer-executor/src/executor.rs:632-662 | what each validator accepts, as texts and fixed octets: a status reply is 80 20 42 and 29 more octets |
| `Executor.AdmissibleExactly` | crates/mb-printer-executor/src/executor.rs:165-241 | the limits in numbers: 16384 actions, 16 mebibytes collected, positive bounds, no wait for a response of variable length |
| `ReplayProtection.RunSendsPlanStream` | crates/mb-printer-executor/src/executor.rs:243-413 | wherever a run stops, the bytes handed to the transport are a prefix of the plan's byte stream, and all of it on success |
| `ReplayProtection.RetainedWithinLimits` | crates/mb-printer-executor/src/executor.rs:337-407 | retained responses never exceed twice the limit, and not the limit for plans that only wait or only collect |
| `Answers.RetainedIsTotal` | crates/mb-printer-executor/src/executor.rs:415-417 | what counts against the limit is the length of all retained responses together |
| `RunModel.SaturatesAt` | crates/mb-printer-executor/src/executor.rs:448-452 | the count of confirmed bytes stops at the largest 64-bit number |
| `ReplayProtection.ConfirmedBytes` | crates/mb-printer-executor/src/executor.rs:430-455 | bytes issued are bytes confirmed plus those of the one write in doubt |
| `ReplayProtection.ReplayGuard.ExecuteOnce` | crates/mb-printer-executor/src/replay.rs:46-57 | over all calls, what was issued under a key is one run of the plan that claimed it; a fresh key makes exactly the run of the given plan in its environment; a used one writes nothing |
| `ReplayProtection.IssuedUnderKey` | crates/mb-printer-executor/src/replay.rs:40-57 | the writes ever issued under a key form one prefix of the pieces of the plan that claimed it |
| `ReplayProtection.ReplayStore.Claim` | crates/mb-printer-executor/src/replay.rs:9-31 | a key is free at most once and stays claimed; a store may fail with or without recording the key, the one in memory never does |
| `ReplayProtection.ExecuteOnceWithStore` | crates/mb-printer-executor/src/replay.rs:70-84 | the same through a store that may fail: without a successful claim of a free key nothing is issued and the store error or the replay is reported; a free key is claimed for good by the one run of the given plan |
| `PackBits.PackBits` | crates/mb-printer-core/src/protocol.rs:649-704 | the compressor loop computes `Pack` |
| `PackBits.PackPacks` | crates/mb-printer-core/src/protocol.rs:649-704 | a standard expander gives back exactly the data, and meets no no-op header |
| `PackBits.PackSize` | crates/mb-printer-core/src/protocol.rs:649-704 | compression adds at most one byte in three, rounded up |
| `PackBits.OneByteLengthIffNarrow` | crates/mb-printer-core/src/protocol.rs:717-722 | every row of a width compresses to fewer than 256 bytes if and only if the width is at most 191 |
| `Raster.MirrorHorizontal` | crates/mb-printer-core/src/raster.rs:320-329 | every pixel moves to the mirrored column of its row |
| `Raster.PackMsb` | crates/mb-printer-core/src/raster.rs:341-353 | packing succeeds exactly on valid rasters; bit x of row y is set exactly where the pixel is, padding is clear |
| `Bits.OctetOfBits` | crates/mb-printer-core/src/raster.rs:341-353 | the first bit of an octet has the weight 128, the last the weight one |
| `Raster.PackingIsInjective` | crates/mb-printer-core/src/raster.rs:341-353 | two rasters of one shape with the same packed form are equal |
| `BrotherLines.MirrorRow` | crates/mb-printer-core/src/protocol.rs:708-714 | the bit loop computes the mirrored row |
| `BrotherLines.MirroredTwice` | crates/mb-printer-core/src/protocol.rs:708-714 | mirroring twice is the identity |
| `BrotherLines.BrotherRasterLines` | crates/mb-printer-core/src/protocol.rs:705-724 | the lines are the framed mirrored rows, with the length octet truncated as in the source |
| `BrotherLines.ReadFramed` | crates/mb-printer-core/src/protocol.rs:705-724 | when every payload length fits its octet, a reader of the lines recovers exactly the rows, compressed or not |
| `BrotherLines.LineBits` | crates/mb-printer-core/src/protocol.rs:705-724 | for any width, bit x of a line is the pixel from the right end of the padded row |
| `BrotherLines.LinesRecoverMirror` | crates/mb-printer-core/src/protocol.rs:705-724 | for widths that are multiples of 8 and narrow enough, the reader recovers the packed rows of the mirrored raster |
| `BrotherPlan.PlanInner` | crates/mb-printer-core/src/protocol.rs:268-332 | errors in source order; a plan of copies is the body that many times between one pair of boundaries, limited on the predicted sizes |
| `BrotherPlan.PlanWithLimits` | crates/mb-printer-core/src/protocol.rs:206-215 | a plan is made exactly when the request is not rejected and the sizes predicted from one copy fit, and is then within the limits |
| `BrotherPlan.EnforcePlanLimits` | crates/mb-printer-core/src/protocol.rs:634-642 | refuses exactly the plans over the action or byte limit |
| `BrotherPlan.CopiesPredicted` | crates/mb-printer-core/src/protocol.rs:301-316 | predicted action count and owned bytes are those of the plan built |
| `BrotherPlan.CopiesAlreadyLimited` | crates/mb-printer-core/src/protocol.rs:206-215 | enforcing the limits again on a plan of copies changes nothing |
| `BrotherPrinter.AcceptedExactly` | crates/mb-printer-core/src/protocol.rs:277-298 | a page is planned exactly when its data fill its rows, density is 1 to 8, copies are positive and within the limit, cutting has a count, compression is not LZO, a medium is given and the rows suit printer and medium |
| `BrotherPrinter.InformationReads` | crates/mb-printer-core/src/protocol.rs:554-569 | the print information reads as the quality, medium kind, width and length given and the number of rows, low octet first |
| `BrotherPrinter.SetupReads` | crates/mb-printer-core/src/protocol.rs:544-553 | whatever state the printer was in, and even if it swallows as many octets as the invalidation and the first mode switch have, the set-up resets it, puts it into raster mode and asks for its status |
| `BrotherPrinter.PlanPrints` | crates/mb-printer-core/src/protocol.rs:268-332 | a printer that reads the commands of a plan by their octets prints the raster as many times as asked, each time announced with its rows, quality and medium, cut as asked, from right to left |
| `BrotherBatch.CopiesStructure` | crates/mb-printer-core/src/protocol.rs:299-329 | a plan of copies has one start and one end, and between them for each copy the status exchange, print information, the cutter configuration if cutting, the raster and the print command, with the raster's payload each time |
| `BrotherBatch.PlanBatchWithLimits` | crates/mb-printer-core/src/protocol.rs:222-266 | a batch succeeds and fails exactly as specified: set-up once, cutter once, then every page |
| `BrotherBatch.BatchOfOne` | crates/mb-printer-core/src/protocol.rs:222-266 | a batch of one raster is the single plan |
| `BrotherBatch.BatchStructure` | crates/mb-printer-core/src/protocol.rs:222-266 | one start, status request, wait and end, one cutter configuration if cutting, and for each raster in order print information, raster, print; payloads are those of the rasters |
| `BrotherBatch.BatchPrintsEveryRaster` | crates/mb-printer-core/src/protocol.rs:222-266 | a printer reading the batch's lines finds every raster's mirrored rows, in order |
| `BrotherPrinter.BatchPrints` | crates/mb-printer-core/src/protocol.rs:222-266 | it prints every raster of a batch once, in order, each announced with its own number of rows and cut as asked although the cutter is configured only once |
| `LineDrawing.GrayRaster.Set` | crates/mb-printer-core/src/render.rs:1043-1047 | exactly the named pixel changes, and nothing outside the canvas |
| `LineDrawing.GrayRaster.Line` | crates/mb-printer-core/src/render.rs:1048-1073 | the loop ends, and paints exactly the squares around the centres of the ideal line, clipped to the canvas |
| `LineDrawing.StrokeWidth` | crates/mb-printer-core/src/render.rs:1048-1062 | a stroke is as wide as asked if that is odd and one dot wider if it is even; minus one shows one dot, anything less none |
| `LineDrawing.Step` | crates/mb-printer-core/src/render.rs:1063-1071 | with the accumulator in closed form, the longer axis always advances and the shorter one exactly when its half-up rounding does |
| `LineDrawing.LineEnds` | crates/mb-printer-core/src/render.rs:1048-1073 | the centres start at the first point and reach the second after as many steps as the larger of the two extents |
| `LineDrawing.LineStaysInBox` | crates/mb-printer-core/src/render.rs:1048-1073 | no centre leaves the bounding box |
| `LineDrawing.LineIsConnected` | crates/mb-printer-core/src/render.rs:1048-1073 | consecutive centres are neighbours and the longer axis moves by one each time |
| `LineDrawing.ArithmeticFits` | crates/mb-printer-core/src/render.rs:1048-1073 | for lines of moderate extent every intermediate value of the loop fits 32 bits |
| `LineDrawing.LineFitsExactly` | crates/mb-printer-core/src/render.rs:1063-1071 | for extents M >= m with greatest common divisor g, all doubled accumulators of a line fit 32 bits if and only if 2(M - m) + 2g((M / g) / 2) is at most 2^31 - 1, or 2^31 when the vertical axis is the longer one, quotients rounded down |
| `LineDrawing.DeviationBounds` | crates/mb-printer-core/src/render.rs:1063-1071 | the drawn line is off the ideal one by at most g((M / g) / 2) parts of its longer extent |
| `LineDrawing.DeviationReached` | crates/mb-printer-core/src/render.rs:1063-1071 | and by exactly that much at some step |
| `LineDrawing.LongLineFits` | crates/mb-printer-core/src/render.rs:1063-1071 | a horizontal line of a thousand million dots fits |
| `LineDrawing.ExtentLimitExact` | crates/mb-printer-core/src/render.rs:1063-1071 | 715827883 is the largest extent up to which the doubled accumulators of all lines fit 32 bits |
| `LineDrawing.LongLineOverflows` | crates/mb-printer-core/src/render.rs:1063-1071 | one dot further, the line with a single step along its shorter axis overflows halfway |
| `CreditFlow.ClassifyExact` | crates/mb-printer-native/src/transports/ble.rs:22-36 | the frames 1, n grant n credits, the frames 2, lo, hi advertise a limit, all others are responses |
| `CreditFlow.CreditsConserved` | crates/mb-printer-native/src/transports/ble.rs:14-63 | over every run, credits granted are held, consumed, discarded or, only once the counter saturates, forfeited |
| `CreditFlow.NeverOverdrawn` | crates/mb-printer-native/src/transports/ble.rs:40-63 | at no point of a run have more credits been consumed than granted |
| `CreditFlow.ResponsesInOrder` | crates/mb-printer-native/src/transports/ble.rs:65-90 | responses are handed over once each, in arrival order, and are never control frames |
| `CreditFlow.HandedInOrder` | crates/mb-printer-native/src/transports/ble.rs:65-90 | a transport that keeps the state of a run handed over exactly the responses that arrived first, in order |
| `CreditFlow.LossIsFinal` | crates/mb-printer-native/src/transports/ble.rs:50-58 | a response is dropped only as the last step of a run |
| `CreditFlow.FirstDecides` | crates/mb-printer-native/src/transports/ble.rs:40-63 | a waiting writer is served at the first credit or overwhelmed at the first response too many, whichever comes first |
| `BleTransport.Transport.TryObserve` | crates/mb-printer-native/src/transports/ble.rs:22-36 | control frames, and only those, are absorbed, as the abstract machine does |
| `BleTransport.Transport.ReceiveForCredit` | crates/mb-printer-native/src/transports/ble.rs:40-63 | processes arrivals in order, stops at the first credit and takes it; takes one exactly when one is held or arrives before the queue of 32 overflows; gives up only while no credit is held; what it did is a run of the abstract machine |
| `BleTransport.Transport.Write` | crates/mb-printer-native/src/transports/ble.rs:460-494 | each outcome exactly: not subscribed, too long, sent when a credit is held or arrives in time and the payload fits the limit advertised then, over that limit, queue full, closed or abandoned; one payload for one consumed credit |
| `BleTransport.Transport.Wait` | crates/mb-printer-native/src/transports/ble.rs:495-521 | hands over the oldest response not yet handed over, and exactly if there is one in the queue or among the arrivals; otherwise the stream ended or the time is up |
| `BleTransport.Transport.HandedInArrivalOrder` | crates/mb-printer-native/src/transports/ble.rs:65-90 | in every reachable state the frames handed to callers are the responses in arrival order, each once |
| `BleTransport.Transport.WritesWithinGrants` | crates/mb-printer-native/src/transports/ble.rs:460-494 | in every reachable state, no more payloads were written than credits granted |
| `BleTransport.Transport.PayloadLimitNow` | crates/mb-printer-native/src/transports/ble.rs:542-549 | the smaller of the configured and the advertised limit |
| `BrowserBluetooth.Transport.GrantCredits` | crates/mb-printer-wasm/browser-adapters.ts:136-142 | waiting writers are served first and oldest first, the rest is held; held credits and waiters never coexist |
| `BrowserBluetooth.Transport.ReceiveNotification` | crates/mb-printer-wasm/browser-adapters.ts:143-157 | control frames never reach a listener; a response goes to the oldest listener or the end of the queue |
| `BrowserBluetooth.Transport.BeginWrite` | crates/mb-printer-wasm/browser-adapters.ts:193-198 | a write that is too long or unsubscribed touches no credit; otherwise it takes one or waits |
| `BrowserBluetooth.Transport.TakeCredit` | crates/mb-printer-wasm/browser-adapters.ts:158-176 | takes a held credit or joins the waiters |
| `BrowserBluetooth.Transport.Proceed` | crates/mb-printer-wasm/browser-adapters.ts:198-205 | a writer with a credit writes unless the limit shrank below its payload |
| `BrowserBluetooth.Transport.WaitForResponse` | crates/mb-printer-wasm/browser-adapters.ts:206-221 | hands over the oldest reply or joins the listeners |
| `BrowserBluetooth.Transport.HandedInArrivalOrder` | crates/mb-printer-wasm/browser-adapters.ts:143-157 | in every reachable state the frames handed over are the responses in arrival order, each once |
| `BrowserBluetooth.Transport.Disconnect` | crates/mb-printer-wasm/browser-adapters.ts:222-226 | discards held credits and the advertised limit |
| `BrowserBluetooth.Transport.WritesWithinGrants` | crates/mb-printer-wasm/browser-adapters.ts:193-205 | writes and credits in hand never exceed credits granted |
| `Administration.FindsFirst` | crates/mb-printer-core/src/administration.rs:368-374 | finding an attribute gives the first of its name over all groups, or none exactly when there is none |
| `Utf8Text.ValidIffEncoded` | crates/mb-printer-core/src/administration.rs:384-401 | the UTF-8 check accepts exactly the encodings of strings |
| `Utf8Text.CharOctets` | crates/mb-printer-core/src/administration.rs:384-401 | the octets of a character spell its number, six bits in each that follows the first, and are as few as hold it |
| `Administration.SettableExact` | crates/mb-printer-core/src/administration.rs:384-401 | the settable names exist exactly when the first such attribute has only non-empty UTF-8 keywords, and at least one, and are then exactly those |
| `Administration.ParseSupportedExact` | crates/mb-printer-core/src/administration.rs:82-108 | an answer is accepted exactly when it succeeded with proper names; it lists exactly the unsupported names and maps a name to the values of its last printer attribute |
| `Administration.RangeMatchesAllIntegers` | crates/mb-printer-core/src/administration.rs:221-258 | a requested range is admitted by an advertised one exactly when every integer in it is; an inverted one is compared by its ends |
| `SettingValues.NormalizesAlike` | crates/mb-printer-core/src/administration.rs:414-444 | two values normalize alike exactly when they ask for the same setting: integers and enumerations by number, ranges by both ends, booleans, keywords, texts and names by their octets, resolutions by their three numbers, everything else by its octets |
| `SettingValues.AppliedReadsBack` | crates/mb-printer-core/src/administration.rs:360-366 | a change counts as applied exactly when the printer reports one value and it asks for the same setting as the value requested |
| `SettingValues.MatchesExact` | crates/mb-printer-core/src/administration.rs:221-258 | an allowed value admits a requested one exactly when it leaves names to the administrator, allows anything, is a range around it, is the scheme of the requested URI in any case, or is that very value |
| `SettingValues.CompatibleExact` | crates/mb-printer-core/src/administration.rs:403-412 | a value may replace another exactly when they have the same syntax without regard to language |
| `Observations.PlannedExactly` | crates/mb-printer-core/src/administration.rs:128-176 | a plan is made exactly when the printer can set attributes, lists this one as settable, its current value may be replaced, and the value lies within its constraints; the plan says exactly what was requested |
| `Observations.RefusedForReason` | crates/mb-printer-core/src/administration.rs:297-338 | each error of the validation is a fact about the observation, the binding or the plan |
| `Observations.AdvertisesExact` | crates/mb-printer-core/src/administration.rs:376-382 | the operations looked for are 0x13 and 0x15 among the values of operations-supported |
| `Observations.KeywordExact` | crates/mb-printer-core/src/administration.rs:384-401 | a settable name is a non-empty text under the keyword tag |
| `Observations.AcceptableExact` | crates/mb-printer-core/src/administration.rs:82-119 | names of a supported-values answer are UTF-8, those in the printer group (tag 4) end in -supported, those in the unsupported group (tag 5) are unsupported |
| `Observations.InGroupOrder` | crates/mb-printer-core/src/administration.rs:368-374 | attributes are looked for in all groups, one after another |
| `Observations.BaseExact` | crates/mb-printer-core/src/administration.rs:203-211 | the constraints of xxx-default are those of xxx-supported |
| `Observations.AsciiOctets` | crates/mb-printer-core/src/administration.rs:368-374 | names are compared by their ASCII octets |
| `Observations.MatchesAnyExact` | crates/mb-printer-core/src/administration.rs:215-219 | one admitting value among the allowed ones is enough |
| `Administration.ConstraintsFromAnswer` | crates/mb-printer-core/src/administration.rs:178-213 | an xxx-supported setting passes exactly when the last printer attribute of that name in the answer admits the value and the name is not listed as unsupported |
| `Administration.ValidationExact` | crates/mb-printer-core/src/administration.rs:297-338 | validation accepts exactly the confirmed observations: same bindings, not expired, settable, same old-value hash, within constraints |
| `Administration.ConfirmedReads` | crates/mb-printer-core/src/administration.rs:297-338 | a licensing observation lists the setting among well-formed settable keywords |
| `Administration.FreshPlanValidates` | crates/mb-printer-core/src/administration.rs:128-176 | a fresh plan validates on the observation it was made from, for exactly its own bindings before it expires |
| `Administration.ConfirmationRebuildsPlan` | crates/mb-printer-core/src/administration.rs:263-285 | the plan rebuilt from a confirmation is the plan that was confirmed |
| `ConfirmedChange.ApplyConfirmedChange` | crates/mb-printer-native/src/transports/ipp.rs:440-525 | against any printer: succeeds exactly when the reads license the write, and each error says why not; then the exchanges are the reads, one write of exactly the confirmed value, and the read that verifies it; the outcome is what the replies say, and a consistent plan is verified exactly when the printer reads back one value that asks for the same setting |
| `ConfirmedChange.PlanRemotely` | crates/mb-printer-native/src/transports/ipp.rs:397-434 | planning only reads; it succeeds exactly when all reads do and the plan is allowed, and returns that plan; each error says which read or check failed |
| `ConfirmedChange.ReadsSupportedExact` | crates/mb-printer-native/src/transports/ipp.rs:397-434 | the supported values are read exactly for settings whose name ends in -supported |
| `SettingValues.PlansAreConsistent` | crates/mb-printer-core/src/administration.rs:263-287 | the setting value of every plan, made from an observation or rebuilt from a confirmation, is that of the value it sends |
| `ConfirmedChange.UnchangedPrinterLicenses` | crates/mb-printer-native/src/transports/ipp.rs:440-525 | a printer that still answers the same licenses the write for exactly the plan's bindings |
| `ChangeAgent.Agent.ExecuteGuardedChange` | crates/mb-printer-agent/src/administration_execution.rs:23-143 | one whole call: a request that is not admissible is refused and sends nothing; an admitted one is cancelled, refused for want of limits, found invalid, planned or applied exactly as it says, and its apply consumes its identifier |
| `ChangeAgent.Agent.Admit` | crates/mb-printer-agent/src/administration_execution.rs:30-101 | exactly the admissible requests pass, and an apply consumes its identifier; kept however calls interleave: no identifier causes more than one write |
| `ChangeAgent.Agent.Perform` | crates/mb-printer-agent/src/administration_execution.rs:102-300 | what follows admission, exactly: cancelled, without limits, invalid, the plan of this very request, or the apply of this very confirmation with all that an apply ensures; at most one write, and only for the apply that was admitted, keeping the same invariant |
| `ChangeAgent.VerifiedReadsBack` | crates/mb-printer-agent/src/administration_execution.rs:223-300 | a verified apply wrote exactly the confirmed value on a licensing observation, and the printer then reads back that setting |
| `ChangeAgent.LicensedByPrinter` | crates/mb-printer-agent/src/administration_execution.rs:223-300 | for a confirmation, the licence depends only on its expiry and on what the printer answers |
| `Forest.Cyclic` | crates/mb-printer-core/src/document.rs:624-638 | the check with a set of seen names reports a cycle exactly when the chain of parents is infinite |
| `Forest.ShortWalk` | crates/mb-printer-core/src/render.rs:407-451 | a finite chain is no longer than the list of nodes |
| `Forest.FirstHit` | crates/mb-printer-core/src/render.rs:964-982 | the first hit of a walk comes before it repeats itself, even on a cycle |
| `Documents.CheckZones` | crates/mb-printer-core/src/document.rs:454-494 | no error exactly when zones are named apart, clone existing zones and clone in finite chains |
| `Documents.CheckChildren` | crates/mb-printer-core/src/document.rs:596-620 | no error exactly when the children of a group are other existing elements, each once, that name it |
| `Documents.CheckElements` | crates/mb-printer-core/src/document.rs:495-623 | no error exactly when every element is well formed |
| `Documents.Validate` | crates/mb-printer-core/src/document.rs:454-638 | the structural part of validation accepts exactly the well-formed documents |
| `Documents.ChildrenMirrorParents` | crates/mb-printer-core/src/document.rs:527-620 | in a valid document, children and group references are mutually inverse |
| `Documents.HierarchyIsForest` | crates/mb-printer-core/src/document.rs:624-638 | in a valid document no element is above itself, and chains are shorter than the document |
| `Documents.ClonesAreForest` | crates/mb-printer-core/src/document.rs:479-494 | the same for cloned zones |
| `RenderWalks.EffectivelyVisible` | crates/mb-printer-core/src/render.rs:407-424 | on any document the bounded loop says whether the element and all groups up to a root exist and are visible |
| `RenderWalks.VisibleInValidDocument` | crates/mb-printer-core/src/render.rs:407-424 | in a valid document that is: it and everything above it are visible |
| `RenderWalks.EffectiveZone` | crates/mb-printer-core/src/render.rs:433-451 | on any document the bounded loop gives the zone of the nearest self-or-ancestor that has one |
| `RenderWalks.ZoneClones` | crates/mb-printer-core/src/render.rs:964-982 | on any list of zones the bounded loop decides reachability along clone links |
| `ZoneBatch.SelectedZones` | crates/mb-printer-core/src/materialize.rs:351-369 | accepts exactly selections of existing zones, each once |
| `ZoneBatch.PlanZoneBatch` | crates/mb-printer-core/src/materialize.rs:121-169 | succeeds exactly when the batch can be planned, 32-bit page arithmetic included; record r goes to page r / k, zone r mod k |
| `ZoneBatch.PageCountExact` | crates/mb-printer-core/src/materialize.rs:143-150 | exactly enough pages for the records |
| `ZoneBatch.PlacedInOrder` | crates/mb-printer-core/src/materialize.rs:143-163 | record n goes to that zone of that page before which there are n zones, page by page |
| `ZoneBatch.ZOrderRange` | crates/mb-printer-core/src/materialize.rs:238-246 | elements are numbered within 31 bits |
| `ZoneBatch.RewriteElements` | crates/mb-printer-core/src/materialize.rs:371-415 | renames elements and references together; fails exactly on unknown references or names over the byte limit |
| `ZoneBatch.MaterializeUnchecked` | crates/mb-printer-core/src/materialize.rs:282-315 | only template texts change; fails exactly when one cannot be evaluated or they exceed the byte limit |
| `ZoneBatch.MaterializeZoneBatch` | crates/mb-printer-core/src/materialize.rs:186-255 | succeeds exactly when the batch can be planned, fits and every record can be placed; page q holds exactly the records q*k to q*k+k-1, each renamed into its zone, in order |
| `ZoneBatchProofs.PagesAreValid` | crates/mb-printer-core/src/materialize.rs:226-247 | a page is again structurally valid if and only if no two of its elements clash, and passes validation if and only if, besides, no renamed identifier is that of a resource |
| `ZoneBatchProofs.DistinctIffNoClash` | crates/mb-printer-core/src/materialize.rs:371-389 | identifiers of a page are distinct if and only if no zone identifier hides the suffix of another slot while one element identifier continues another accordingly |
| `RenameClash.RenamedMeet` | crates/mb-printer-core/src/materialize.rs:379-382 | two renamed identifiers of different places, on one page or on two, are equal exactly in that case |
| `RenameClash.ColonFreeNames` | crates/mb-printer-core/src/materialize.rs:379-382 | without colons in the zones, a renamed identifier tells its element, its record and its zone, across all pages |
| `ZoneBatchProofs.ColonFreeZones` | crates/mb-printer-core/src/materialize.rs:379-382 | zone identifiers without colons never clash |
| `ZoneBatchProofs.ValidBatchInvalidPage` | crates/mb-printer-core/src/materialize.rs:379-382 | a valid document and selection whose page does not pass validation |
| `ZoneBatchProofs.ZOrderIsPosition` | crates/mb-printer-core/src/materialize.rs:242-246 | z-order on a page is strictly increasing |
| `ZoneBatchProofs.PlacementElements` | crates/mb-printer-core/src/materialize.rs:371-415 | an element carries the suffix of a placement exactly when it is its own or is confusable with it |
| `ZoneBatchProofs.ColonFreePlacements` | crates/mb-printer-core/src/materialize.rs:371-415 | with colon-free zone identifiers, the elements of a placement are exactly those that carry its suffix |
| `ZoneBatchProofs.PlacementRestores` | crates/mb-printer-core/src/materialize.rs:371-415 | undoing the rename gives back the materialized element, up to zone and z-order |
| `Dither.Diffuse` | crates/mb-printer-core/src/raster.rs:116-161 | every pixel satisfies the recurrence of error diffusion for the errors the run made; after every single store the buffer is what the recurrence says, and no cell leaves the range |
| `Dither.FloydSteinberg` | crates/mb-printer-core/src/raster.rs:116-141 | the same for Floyd-Steinberg, every cell of every recorded buffer within [-2032, 6124] |
| `Dither.Atkinson` | crates/mb-printer-core/src/raster.rs:142-161 | the same for Atkinson, every cell of every recorded buffer within [-762, 2802] |
| `DitherStencils.FloydSteinbergDecides` | crates/mb-printer-core/src/raster.rs:116-141 | a pixel is decided on 16 times its value and the truncated 7, 3, 5 and 1 sixteenths of the errors of its left, upper right, upper and upper left neighbours: black below 2048, the rest is its error |
| `DitherStencils.AtkinsonDecides` | crates/mb-printer-core/src/raster.rs:142-161 | on 8 times its value and an eighth of the errors of six neighbours: black below 1024 |
| `Dither.OutputDetermined` | crates/mb-printer-core/src/raster.rs:116-161 | the recurrence has one solution, so the image determines the output |
| `Dither.BlackAndWhiteKept` | crates/mb-printer-core/src/raster.rs:116-161 | an image of only black and white pixels is reproduced exactly |
| `Ber.Cursor.Length` | crates/mb-printer-core/src/snmp.rs:701-723 | reads a length, advancing past it, exactly as `LengthAt` says |
| `Ber.Cursor.Any` | crates/mb-printer-core/src/snmp.rs:669-686 | reads a tagged value, advancing past it, exactly as `AnyAt` says |
| `Ber.TlvReads` | crates/mb-printer-core/src/snmp.rs:550-565 | reading gives back tag and value of what was written, for every length, and stops right after it |
| `BerValues.IntegerOctets` | crates/mb-printer-core/src/snmp.rs:538-548 | the loop drops exactly the redundant sign octets |
| `BerValues.IntegerRoundTrip` | crates/mb-printer-core/src/snmp.rs:631-642 | decoding undoes encoding for every 64-bit integer |
| `BerValues.IntegerShortest` | crates/mb-printer-core/src/snmp.rs:538-548 | no shorter string of octets decodes to the same integer |
| `BerValues.EncodeBase128` | crates/mb-printer-core/src/snmp.rs:579-596 | the five-octet buffer ends as the base-128 digits with their continuation bits |
| `BerValues.ReadBase128` | crates/mb-printer-core/src/snmp.rs:598-617 | reading a sub-identifier gives back what was written and stops right after it |
| `Snmp.EncodeOid` | crates/mb-printer-core/src/snmp.rs:567-577 | succeeds exactly on well-formed identifiers |
| `Snmp.DecodeOidOctets` | crates/mb-printer-core/src/snmp.rs:598-629 | the loops compute `DecodeOid` |
| `Snmp.OidRoundTrip` | crates/mb-printer-core/src/snmp.rs:567-629 | an identifier is decoded back if and only if its first sub-identifier fits 32 bits |
| `Snmp.OidWraps` | crates/mb-printer-core/src/snmp.rs:567-577 | 2.4294967216 wraps and is decoded as 0.0 |
| `Snmp.EncodeRequest` | crates/mb-printer-core/src/snmp.rs:356-384 | when a request can be encoded and what its octets are |
| `Snmp.RequestRoundTrip` | crates/mb-printer-core/src/snmp.rs:356-437 | reading a request gives back community, request identifier and object identifier |
| `Snmp.SanitizeMessage` | crates/mb-printer-core/src/snmp.rs:441-460 | as many octets as the community has are overwritten, at the place the source computes |
| `Snmp.ElidesIffSpanning` | crates/mb-printer-core/src/snmp.rs:441-460 | those octets are exactly the community's if and only if the outer sequence spans the message or the community is empty |
| `Snmp.SpanningElides` | crates/mb-printer-core/src/snmp.rs:441-460 | then only the community changes and all of it does |
| `Snmp.TrailingOctetShiftsMask` | crates/mb-printer-core/src/snmp.rs:386-460 | a response that decodes, with one octet after its outer sequence, keeps the first octet of its community |
| `Decimal.Increment` | crates/mb-printer-core/src/template.rs:202-210 | adding one carries in place through any run of nines |
| `Decimal.KeptIsRounded` | crates/mb-printer-core/src/template.rs:191-216 | keeping digits and looking at the next one is rounding half away from zero |
| `Decimal.FormatDecimal` | crates/mb-printer-core/src/template.rs:176-232 | white space removed, accepts exactly the numerals within 128 bits and prints the rounded value |
| `NumeralGrammar.ParsesExactly` | crates/mb-printer-core/src/template.rs:177-190 | a text is a numeral exactly when it spells one: sign, digits, and a point or comma before a fraction that may be empty |
| `NumeralGrammar.TrimExact` | crates/mb-printer-core/src/template.rs:177 | trimming takes away all white space at both ends and nothing else |
| `NumeralGrammar.WhiteExact` | crates/mb-printer-core/src/template.rs:177 | white space is what Unicode calls so |
| `NumeralGrammar.LargestWhole` | crates/mb-printer-core/src/template.rs:188-190 | the whole part may be at most 2 to the 128th less one |
| `DecimalText.PrintedReads` | crates/mb-printer-core/src/template.rs:217-231 | the text reads as exactly the rounded value, with its sign and never as negative zero |
| `DecimalText.FormattingIsIdempotent` | crates/mb-printer-core/src/template.rs:176-232 | formatting what was formatted changes nothing |
| `DecimalText.FormatNumber` | crates/mb-printer-core/src/template.rs:79-89 | the `number:` text is the formatted number, with a comma in French |
| `DecimalText.LocalizedReads` | crates/mb-printer-core/src/template.rs:85-87 | the French form has no point and reads as the same number; otherwise the text is unchanged |
| `DecimalText.FormatTrimmed` | crates/mb-printer-core/src/template.rs:90-109 | the `decimals:` text is the formatted number without trailing zeros, with a comma in French |
| `DecimalText.TrimmedReads` | crates/mb-printer-core/src/template.rs:98-104 | trimming keeps the value and leaves no trailing zero or bare point |
| `Sheet.ValidateLayout` | crates/mb-printer-core/src/sheet.rs:283-329 | accepts exactly the valid layouts; names a really overlapping pair or an outside slot |
| `Sheet.OverlapIsSharing` | crates/mb-printer-core/src/sheet.rs:331-352 | slots overlap exactly when they share interior points |
| `Sheet.OnPaperExact` | crates/mb-printer-core/src/sheet.rs:303-322 | a slot on the paper has some area and no point off the paper |
| `Sheet.GridExactly` | crates/mb-printer-core/src/sheet.rs:207-218 | a grid has rows, columns and labels with some area, neither margins nor gaps point backwards, and identifiers have 1 to 128 octets |
| `Sheet.FillSlots` | crates/mb-printer-core/src/sheet.rs:225-266 | slots come in the declared fill order |
| `Sheet.NormalizeGrid` | crates/mb-printer-core/src/sheet.rs:207-275 | a grid is accepted exactly when it is sensible, small enough and its last label fits; it never reports an overlap |
| `Sheet.NormalizeLayout` | crates/mb-printer-core/src/sheet.rs:198-277 | a definition gives a layout exactly when it is normal, and then its own |
| `Sheet.PlanSheet` | crates/mb-printer-core/src/sheet.rs:354-428 | a plan exists exactly when layout, first slot, page and pixel limits and label sizes allow it, dots being counted as the source converts them; items fill consecutive places from the first slot on, on exactly ceil((first + n) / slots) pages |
| `Sheet.CeilDivExact` | crates/mb-printer-core/src/sheet.rs:385-402 | the page count is just enough times the slots |
| `Sheet.PlacementsAreExact` | crates/mb-printer-core/src/sheet.rs:403-422 | page and slot determine the item, and every place between first and last is used |
| `Sheet.LabelsDisjoint` | crates/mb-printer-core/src/sheet.rs:354-428 | labels of one page lie on the paper and are disjoint |
| `Sheet.DotsRounded` | crates/mb-printer-core/src/render.rs:91-98 | before any wrap, the number of dots is the nearest whole number, halves away from zero |
| `Sheet.DotsNeverWrap` | crates/mb-printer-core/src/render.rs:91-98 | no 64-bit length wraps in its conversion to dots if and only if the resolution is at most 25400 dots per inch |
| `Sheet.DotsWrap` | crates/mb-printer-core/src/render.rs:91-98 | at 65535 dots per inch, a length of 2^64 + 1003 dots counts as 1003 |
| `Sheet.LengthsMisread` | crates/mb-printer-core/src/sheet.rs:668-671 | some length passes for a 32-bit number of dots that it does not have if and only if the resolution is above 50800 dots per inch |
| `Sheet.IntrusionAtMostOneDot` | crates/mb-printer-core/src/render.rs:91-98 | converted to dots, adjacent labels intrude by at most one dot, for all lengths if and only if the resolution is at most 25400 dots per inch |
| `Sheet.IntrusionHappens` | crates/mb-printer-core/src/render.rs:91-98 | and one dot does occur |

## Left out

- IppEncode.EncodeMessage: of several faults, which one is reported is not specified, only that a reported limit is exceeded.
- IppDecode.DecodeMessage: Rust's integer overflow checks on offsets are not modelled, since offsets never pass the input length.
- Executor.Executor.Execute: elapsed time is an arbitrary verdict before each read, so nothing is said about how long a run takes; tracing is left out.
- BrotherLines.BrotherRasterLines: a row width of zero, on which the source panics, is excluded.
- BrotherPlan.PlanInner: only the Brother protocol's arm is modelled; the other protocols' command lists would add only easy members.
- LineDrawing.GrayRaster.Line: what it paints is stated over unbounded coordinates; `LineDrawing.LineFitsExactly` says for which lines the doubling fits and `LineDrawing.ArithmeticFits` for which every value does; what a build paints after an overflow is not modelled.
- BleTransport.Transport.Wait: transports without credit flow control, characteristic selection and the forwarding of notifications are not modelled.
- BrowserBluetooth.Transport.ReceiveNotification: only the credit flow mode is modelled; promises are numbered tickets.
- ChangeAgent.Agent.ExecuteGuardedChange: the contract checks made before anything else are one verdict, and the exchanges of one call are recorded together; result texts are left out.
- Documents.Validate: geometry, resources, fonts and limits are left out; they concern single elements.
- ZoneBatch.MaterializeZoneBatch: sizes of serialized documents and records are verdicts handed in.
- Dither.Diffuse: one loop over taps stands for the unrolled and the looped form of the source; ordered and threshold dithering are left out as easy.
- Snmp.RequestRoundTrip: limited to object identifiers of at most 256 octets, the most a reader accepts.
- Snmp.SanitizeMessage: the decoding of typed variable bindings and the evidence hash are left out.
- Sheet.PlanSheet: rendering, blitting and cut marks are left out.
- Native device access, WASM bindings, JSON wrappers, discovery, image, font and barcode code, text shaping, rotation, PDF and PNG export, command-line tools.
- Group placement beyond 32 levels of nesting, and how a batch's z-order relates to the source's z-order.
