# Verified models of a streaming server repository

Dafny models of the algorithms inside a collection of small C and C++ servers,
with proofs of what those algorithms promise. `dafny verify dfyconfig.toml`
checks everything; Dafny 4.11 is assumed.

## What is modelled

| files | part of the system |
|---|---|
| `CStrings`, `Utf8`, `JsonStrings`, `JsonValues`, `JsonObjects`, `JsonSerializer`, `JsonParser`, `JsonEscapes`, `JsonLayout`, `JsonRoundTrip`, `JsonGrammar`, `JsonNumbers`, `JsonDocuments`, `JsonControlCharacters`, `JsonTerminators`, `JsonEquality`, `JsonTolerance`, `JsonPaths` | the JSON library: strings and escapes, containers with growing blocks, printer, size calculator, parser, equality, deep copy, dotted paths |
| `ViewerQueues`, `Viewers`, `FlvStreams`, `FlvTags`, `Cameras` | the live FLV relay: reassembly of a camera's stream from reads of any size, and each viewer's ring of 79 tags |
| `SortOrder`, `QuickSort`, `HeapSort`, `MergeSort`, `ShellSort` | the in-place sorts |
| `Base64`, `Base64Bits`, `Base64RoundTrip` | the base64 codec |
| `RequestLine`, `RequestRoundTrip`, `RequestExact` | the parser of HTTP request lines |
| `SpeechPools`, `SpeechMerge` | the speech server: the pool of packets, the round-by-round mix, the merge by time |
| `FreeListPool`, `BytePool` | the two memory pools |
| `BufferedLog` | the buffered logger |
| `HlsPlaylist` | the sliding playlist of the HLS server, and its channels going on- and offline |
| `RoundRobin` | the choice of a child in the process pool |
| `Basics` | options and bytes, which the others share |

Code that changes objects step by step is modelled by classes and methods with
loops. Each of them is proved equal to a function of its inputs or of the old
state, and the properties are proved about those functions. Recursive code that
only computes is modelled by functions. Bytes of text are characters below 256
and bytes of streams are integers below 256. C strings are sequences without
their terminator. Masks and shifts are written as quotients and remainders.

## What the proofs found

- `json_array_remove` (parson.cpp:1224-1235) lowers the count before it fetches
  the last item, so it stores NULL in the gap. The other items survive if and only
  if the last one is removed (`RemoveItemKeepsOthers`), and exactly then the array
  can still be printed (`RemovedPrintable`) and copied (`RemovedCopied`).
- The JSON printer does not escape control characters other than the five with
  short escapes, and the parser refuses them bare. `RoundTrip` and `Reparse` give
  the exact condition. Only a `\u` escape can bring such a character into a parsed
  tree (`PlainTextReparses`), and it can: `["\u0001"]` is parsed and does not come
  back from its print (`ControlCharacterParses`).
- Strings are C strings, so the escape `\u0000` cuts one short (`TerminatorCuts`).
  What the parser keeps of a string is all of what it means if and only if that
  escape is not in it (`QuotedExactly`, and `QuotedMeaning` in code points).
- Number equality uses a tolerance of 0.000001. On the trees whose numbers are
  among an ascending list, `json_value_equals` is an equivalence if and only if every
  run of neighbours less than 0.000001 apart spans less than 0.000001
  (`EquivalenceExactly`). Whole numbers always meet this (`EqualsIsEquivalence`),
  the numbers 0, 0.0000009 and 0.0000018 do not (`CloseIsNotTransitive`).
- The quicksort keeps the pivot in its left call and moves the hole only over
  elements that differ from the key. It ends if and only if no element of its
  range repeats (`QuickEndsOnDistinct`).
- `viewer_queue_delete` on a queue of one tag leaves `empty` false, so the queue
  looks full and its front is NULL (`ViewerQueue.Delete`). `drop_frame` reaches this
  on a single tag that is no key frame (`ViewerQueue.DropFrame`). The relay drops
  from full queues only.
- A drop can take the front tag although part of it was sent; `DroppedHead` says
  exactly when it does not.
- The drain loop of the speech mixer counts before it compares, so it ends as it
  should if and only if some queue in the pool holds a packet (`DrainLength`);
  `ReceivedKeeps` shows that every queue in a pool does. While one speaker's
  packets drain alone, all but the last are sent back to their sender
  (`OnlyLastIsKeptBack`).
- A packet of a speaker with a time the pool already holds is refused by `insert`
  (`InsertPacketTakes`), and the code that received it (transfer.cpp:475) neither
  looks at the outcome nor frees it: the packet is lost to the program.
- The decoder of base64 writes one zero byte too many behind an incomplete
  group (`Base64RoundTrip.RoundTrip`).
- The decoder of base64 declares `need[3]` and clears four bytes of it for every
  group (base64.cpp:94, 136), one byte past its end. That happens whenever there is
  a group to decode: for texts of three or more characters, for every one but
  `===` (`GroupLoopRuns`). `Base64.Decode` is about the returned buffer alone.
- The logger's second append, behind the flush, never runs
  (`LateAppendNeverNeeded`).
- The HLS server keeps one playlist, one sequence number and one clock for all its
  channels; only the list of segments belongs to a channel, and is empty again when
  it comes back online. Then the playlist grows past three segments, or skips the
  first (`BackOnlineBreaks`), and is well formed again from the fourth rotation on
  (`BackOnlineExactly`). Two live channels list their segments in the same playlist,
  each dropping what is not its own when its list is full; taking turns, they never
  leave it well formed from the fourth segment on (`TakingTurns`). `EveryRotation`
  gives the exact condition for every run.
- The parser takes a number, a string or a name for what its scan of it reads, and
  everything around them by the grammar (`DocumentExactly`). It does not look at
  the character in front of a name: `{xa":1}` is read like `{"a":1}`
  (`FrontIgnored`).
- A request whose parts hold delimiters does not come back from its line;
  `RoundTripExactly` lists which ones matter where, for example that a line
  without arguments must not hold a '=' even in its version.
- A request line of exactly 1024 characters, its line end included, fills its
  buffer and leaves no terminator. The parser's result is then not defined by the
  code, and the model answers `Unterminated`.
- bytememorypool.cpp adds to a `void *` and reads a member `next` that its class
  does not have, and memorypool.cpp:73 and 78 cast `char *` with `static_cast` to an
  unrelated pointer type. Neither compiles as it stands; the models take them as
  meant.

## Model

| member | source | states |
|---|---|---|
| `Utf8.IsValidUtf8` | projects/streamer/src/parson.cpp:218-228 | the loop over verify_utf8_sequence accepts a text if and only if it is the concatenated encodings of some Unicode scalar values: no overlong form, no surrogate half, nothing past 0x10FFFF (RFC 3629, section 3) |
| `Utf8.FirstScalarIsEncoded` | projects/streamer/src/parson.cpp:161-216 | what is accepted as one character is the encoding of the scalar value read from it, so it has no longer form |
| `Utf8.DecodeInverse` | projects/streamer/src/parson.cpp:161-228 | decoding and encoding are inverse in both directions: a text decodes to these values if and only if they are scalar values and the text is their encodings |
| `Utf8.EncodeFirst` | projects/streamer/src/parson.cpp:176-216 | the bytes written for a Unicode scalar value are verified as that value with that length, whatever follows them |
| `Utf8.EncodeIsRead` | projects/streamer/src/parson.cpp:446-486 | writing a scalar value and decoding gives it back in front of the rest |
| `JsonStrings.SkipQuotes` | projects/streamer/src/parson.cpp:431-444 | the scan stops behind the first quote that no backslash hides, or at the end of the text |
| `JsonStrings.UnicodeEscape` | projects/streamer/src/parson.cpp:446-486 | an accepted escape or surrogate pair denotes a scalar value, spends 6 or 12 characters, and is never shorter than the bytes written for it |
| `JsonStrings.ParseUtf16` | projects/streamer/src/parson.cpp:446-486 | appends exactly the UTF-8 bytes of the escape's code point, moves both pointers onto the last character handled, and fails exactly on the refused escapes |
| `JsonStrings.ProcessOne` | projects/streamer/src/parson.cpp:492-519 | one round of the loop appends one piece and stays inside the buffer |
| `JsonStrings.ProcessString` | projects/streamer/src/parson.cpp:488-526 | gives the unescaped text or NULL; every write falls inside the buffer of the input's length plus one |
| `JsonStrings.Unescape` | projects/streamer/src/parson.cpp:488-526 | the output is never longer than the input |
| `JsonStrings.UnescapeMeaning` | projects/streamer/src/parson.cpp:446-526 | on valid UTF-8, unescaping bytes is unescaping code points as RFC 8259, section 7 describes it: the same inputs are refused, the output is valid UTF-8, and each escape or surrogate pair decodes to its one code point |
| `JsonEscapes.EscapeIsRead` | projects/streamer/src/parson.cpp:446-486 | the four digits written for any n below 0x10000 that is no surrogate, in either case, are read as n with six characters |
| `JsonEscapes.PairIsRead` | projects/streamer/src/parson.cpp:446-486 | the two escapes RFC 8259, section 7, writes for any code point from 0x10000 to 0x10FFFF are read as it with twelve characters |
| `JsonEscapes.LoneSurrogateRefused` | projects/streamer/src/parson.cpp:446-486 | a trailing surrogate alone is refused, and a leading one with no escape behind it |
| `JsonEscapes.UnpairedRefused` | projects/streamer/src/parson.cpp:446-486 | a leading surrogate in front of the escape of anything but a trailing one is refused |
| `JsonEscapes.BadDigitRefused` | projects/streamer/src/parson.cpp:446-486 | an escape with anything but a hexadecimal digit among its four characters is refused |
| `JsonEscapes.ShortEscapes` | projects/streamer/src/parson.cpp:492-519 | each of the eight short escapes, \/ included, is read as its character, and any other character behind a backslash but u is refused |
| `JsonEscapes.EscapeInString` | projects/streamer/src/parson.cpp:488-526 | in a string an escape is the UTF-8 bytes of its code point |
| `JsonEscapes.PairInString` | projects/streamer/src/parson.cpp:488-526 | and a pair of escapes those of the code point it stands for |
| `JsonStrings.UnescapeEscaped` | projects/streamer/src/parson.cpp:488-526 | reading a printed string gives it back if and only if it holds no control character other than the five with escapes; else it is refused |
| `JsonStrings.CloseQuoteEscaped` | projects/streamer/src/parson.cpp:818-838 | the closing quote found behind a printed string is the one that was printed |
| `JsonStrings.SerializationStrlen` | projects/streamer/src/parson.cpp:241-251 | counts exactly the characters the string printer writes |
| `JsonObjects.JsonObject.GetValue` | projects/streamer/src/parson.cpp:360-370 | the scan finds the value bound to the name, or NULL |
| `JsonObjects.JsonObject.Resize` | projects/streamer/src/parson.cpp:351-358 | moving to new blocks keeps every pair in its place; capacity 0 is refused |
| `JsonObjects.JsonObject.Add` | projects/streamer/src/parson.cpp:328-349 | grows first, then appends a new name or refuses a present one; names stay distinct and count <= capacity <= 960 |
| `JsonObjects.JsonObject.SetValue` | projects/streamer/src/parson.cpp:1351-1368 | overwrites the pair of a present name in place, else adds at the end |
| `JsonObjects.JsonObject.Remove` | projects/streamer/src/parson.cpp:1461-1479 | the pair is gone, the last pair stands in its place, all else is where it was |
| `JsonObjects.AddExactly` | projects/streamer/src/parson.cpp:328-349 | a name is added if and only if it is new and there is room up to 960; a full block doubles, from 15 on, even when the name is then refused |
| `JsonObjects.SetExactly` | projects/streamer/src/parson.cpp:1351-1368 | setting a present name changes the pair in its place, no other pair and no capacity |
| `JsonObjects.RemoveExactly` | projects/streamer/src/parson.cpp:1461-1479 | pair by pair: the last one takes the place of the removed one, and no other moves |
| `JsonObjects.JsonArray.Add` | projects/streamer/src/parson.cpp:393-404 | appends, with capacities doubling from 15 up to 122880 |
| `JsonObjects.JsonArray.Remove` | projects/streamer/src/parson.cpp:1224-1235 | what is left in the array, item by item: one less, NULL in the place of an inner one, all others where they were |
| `JsonObjects.RemoveItemKeepsOthers` | projects/streamer/src/parson.cpp:1224-1235 | removal keeps the other items if and only if the last one is removed; else the last item is lost and a NULL pointer stays in the array |
| `JsonSerializer.SizeIsLength` | projects/streamer/src/parson.cpp:694-742 | for every tree the size calculation counts exactly the characters the printer writes |
| `JsonSerializer.SerializeToBufferR` | projects/streamer/src/parson.cpp:744-816 | appends the text behind what the buffer holds, terminated, and fails exactly when a NULL pointer is reached |
| `JsonSerializer.SerializeToBuffer` | projects/streamer/src/parson.cpp:1174-1184 | succeeds if and only if the tree has no NULL pointer and the text with its terminator fits; a buffer that is too small is not touched |
| `JsonSerializer.SerializeToString` | projects/streamer/src/parson.cpp:1206-1218 | the calculated size always suffices |
| `JsonSerializer.RemovedPrintable` | projects/streamer/src/parson.cpp:1224-1235 | after a removal an array of printable items can be printed if and only if the item was the last |
| `JsonSerializer.WellFormedPrintable` | projects/streamer/src/parson.cpp:744-816 | a tree that keeps the invariant can be printed: looking every name up reaches a value |
| `JsonNumbers.DigitsExactly` | projects/streamer/src/parson.cpp:800-807 | the digit printed at the k-th place from the right is the k-th decimal digit of the number, and there is no place too many |
| `JsonNumbers.FixedExactly` | projects/streamer/src/parson.cpp:800-807 | a printed fraction has a minus sign exactly below zero and six digits behind the point, and all its digits together are the whole number of millionths nearest to it, the even one of two: it is within half a millionth |
| `JsonNumbers.PointExactly` | projects/streamer/src/parson.cpp:800-807 | a 32-bit integer is printed without a point, and with one what is none |
| `JsonDocuments.ScalarTexts` | projects/streamer/src/parson.cpp:789-812 | the texts of null, the booleans, a negative number, the empty string and every string of one character |
| `JsonDocuments.TwoItems` | projects/streamer/src/parson.cpp:756-769 | the text of an array: brackets, and a comma between the items |
| `JsonDocuments.TwoMembers` | projects/streamer/src/parson.cpp:770-788 | the text of an object: braces, quoted names, colons, and a comma between the members |
| `JsonParser.GetQuotedString` | projects/streamer/src/parson.cpp:530-538 | the C string between the quotes and the position behind them |
| `JsonParser.ParseValue` | projects/streamer/src/parson.cpp:540-562 | the branches of parse_value, with the nesting limit of 19 |
| `JsonParser.ParseArrayValue` | projects/streamer/src/parson.cpp:613-649 | the loop over the items: at least one round, capacity trimmed to the count |
| `JsonParser.ParseObjectValue` | projects/streamer/src/parson.cpp:564-611 | the loop over the members, duplicates refused |
| `JsonParser.JsonParseString` | projects/streamer/src/parson.cpp:860-867 | only an object or an array is a document; what follows it is not read |
| `JsonGrammar.DocumentExactly` | projects/streamer/src/parson.cpp:540-691 | the parser read as a grammar: for every text, tree and place, the tree is returned with that end if and only if the text begins, behind spaces, with an array or object that stands there as that tree, with brackets, commas, colons and spaces between its parts, distinct names, at most 122880 items or 960 members in one container and 19 levels below it |
| `JsonGrammar.ReadExactly` | projects/streamer/src/parson.cpp:540-562 | the same for a value at any place of a text and at any nesting |
| `JsonGrammar.FrontIgnored` | projects/streamer/src/parson.cpp:530-538 | whatever stands where the quote in front of a name should be, the name read is the same |
| `JsonLayout.SpacesExactly` | projects/streamer/src/parson.cpp:43 | the characters skipped between tokens are exactly the six that isspace knows |
| `JsonLayout.NumberParsesBack` | projects/streamer/src/parson.cpp:671-682 | every 32-bit integer printed by %d is read back |
| `JsonLayout.QuotedParsesBack` | projects/streamer/src/parson.cpp:530-538 | a printed string at any place of a text is read back, or refused, by the same condition |
| `JsonLayout.SpelledIsRead` | projects/streamer/src/parson.cpp:540-649 | with any spaces between its tokens, a well-formed value at any place and nesting is read, or refused, exactly by the two conditions on depth and control characters |
| `JsonLayout.DocumentIsRead` | projects/streamer/src/parson.cpp:860-867 | so is a document, with spaces in front and anything behind it; the depth is 19 |
| `JsonLayout.SpacesDoNotMatter` | projects/streamer/src/parson.cpp:540-649 | two texts that differ in the spaces between tokens are both refused, or give the same tree |
| `JsonDocuments.NumberExactly` | projects/streamer/src/parson.cpp:671-682 | digits are read with their value in base ten, unless a zero stands in front of others: then they are refused |
| `JsonDocuments.NegativeExactly` | projects/streamer/src/parson.cpp:671-682 | the same behind a minus sign |
| `JsonDocuments.NestingExactly` | projects/streamer/src/parson.cpp:540-562 | n brackets inside each other are parsed if and only if n is at most 20, which is nesting 19 |
| `JsonRoundTrip.ParsesBack` | projects/streamer/src/parson.cpp:540-562 | the printed text of any well-formed value, inside any text and at any nesting, reads back or is refused exactly by the two conditions |
| `JsonRoundTrip.RoundTrip` | projects/streamer/src/parson.cpp:564-691 | printing a well-formed object or array of 32-bit integers and parsing the text gives the same tree in the same order if and only if nothing is nested deeper than 19 and no string or name holds a control character without an escape; otherwise the parser returns NULL |
| `JsonRoundTrip.Reparse` | projects/streamer/src/parson.cpp:860-867 | every tree the parser returns keeps the library's invariant and the nesting limit, holds 32-bit integers for numbers, and its printed text parses to the same tree if and only if no string or name in it holds a control character without an escape |
| `JsonControlCharacters.PlainTextReparses` | projects/streamer/src/parson.cpp:488-526 | a text without a \u escape never brings one in, at any nesting: what is parsed from it comes back from its print |
| `JsonControlCharacters.ControlCharacterParses` | projects/streamer/src/parson.cpp:488-526 | one text with a \u escape that is parsed and whose print is refused |
| `JsonTerminators.CutExactly` | projects/streamer/src/parson.cpp:488-526 | the C string kept of a string is all that was read if and only if \u0000 is not among its escapes, which one scan from escape to escape decides |
| `JsonTerminators.QuotedExactly` | projects/streamer/src/parson.cpp:530-538 | the same for every string and name get_quoted_string returns, at any place of a text |
| `JsonTerminators.QuotedMeaning` | projects/streamer/src/parson.cpp:488-538 | in code points: what is kept of a string is what it means by RFC 8259, section 7, up to the first zero, which is all of it if and only if \u0000 is not among its escapes |
| `JsonTerminators.TerminatorCuts` | projects/streamer/src/parson.cpp:488-538 | behind any readable text the escape \u0000 ends what is kept, whatever readable text follows |
| `JsonEquality.EqualsSame` | projects/streamer/src/parson.cpp:1566-1625 | on trees with distinct names json_value_equals decides sameness of meaning, where objects denote maps and numbers may be 0.000001 apart; fractions and NULL array items included |
| `JsonEquality.EqualsMeaning` | projects/streamer/src/parson.cpp:1566-1625 | on whole numbers it decides equality of meaning |
| `JsonEquality.ObjectsEqualMeaning` | projects/streamer/src/parson.cpp:1594-1609 | comparing counts and looking up the names of one side decides sameness of the two maps |
| `JsonEquality.SameNames` | projects/streamer/src/parson.cpp:1594-1609 | equal counts, and every name of one side bound on the other, make the names the same: the pigeonhole |
| `JsonEquality.SameSymmetric` | projects/streamer/src/parson.cpp:1594-1609 | so looking up the names of one side alone is symmetric, at any nesting |
| `JsonEquality.EqualsIsEquivalence` | projects/streamer/src/parson.cpp:1566-1625 | it is reflexive and symmetric on all trees with distinct names, and on whole numbers transitive |
| `JsonEquality.EqualsIgnoresOrder` | projects/streamer/src/parson.cpp:1594-1609 | objects with the same members in any order are equal |
| `JsonEquality.DuplicateNamesBreakSymmetry` | projects/streamer/src/parson.cpp:1594-1609 | without distinct names it is not symmetric: two concrete objects |
| `JsonTolerance.EquivalenceExactly` | projects/streamer/src/parson.cpp:1566-1625 | on the trees whose numbers are among an ascending list of reals, json_value_equals is an equivalence if and only if every run of neighbours less than 0.000001 apart spans less than 0.000001 |
| `JsonTolerance.CloseTransitiveExactly` | projects/streamer/src/parson.cpp:1616-1617 | the same condition decides when the comparison of two numbers is transitive on the list |
| `JsonTolerance.CloseIsNotTransitive` | projects/streamer/src/parson.cpp:1616-1617 | three numbers on which it is not transitive, so that it is no equivalence on trees with them |
| `JsonEquality.DeepCopyEquals` | projects/streamer/src/parson.cpp:1098-1167 | a well-formed tree is always copied, no capacity limit is met, the copy is well-formed, has the same members in the same order and is equal |
| `JsonEquality.RemovedCopied` | projects/streamer/src/parson.cpp:1098-1167 | after a removal from a well-formed array it can be copied if and only if the item was the last |
| `JsonEquality.JsonValueDeepCopy` | projects/streamer/src/parson.cpp:1098-1167 | the copying loops fill new containers to exactly that copy, or give NULL |
| `JsonPaths.DotGetFollows` | projects/streamer/src/parson.cpp:917-923 | reading a dotted path is following its names one by one |
| `JsonPaths.ComponentsJoined` | projects/streamer/src/parson.cpp:917-923 | the names of a path, joined with dots, are the path, and hold no dot |
| `JsonPaths.JoinedComponents` | projects/streamer/src/parson.cpp:917-923 | names without dots are what their path is taken apart to |
| `JsonPaths.DotSetThenGet` | projects/streamer/src/parson.cpp:1386-1415 | after a successful set the path reads the value, longer paths read inside it, and every path that is neither a prefix nor an extension reads as before; a failed set changes no entry |
| `JsonPaths.DotSetSucceeds` | projects/streamer/src/parson.cpp:1386-1415 | a set succeeds if and only if the first missing name meets an object with room, or is the last name; a bound path can always be set |
| `JsonPaths.DotSetKeepsInvariant` | projects/streamer/src/parson.cpp:1386-1415 | names stay distinct and counts stay below capacities below limits |
| `JsonPaths.DotRemoveThenGet` | projects/streamer/src/parson.cpp:1481-1497 | removal succeeds if and only if the path is bound, deletes that entry and those below it, and leaves every unrelated path as it was, although the last member changes place |
| `JsonPaths.SetPathFollow` | projects/streamer/src/parson.cpp:1386-1415 | the same for setting, along lists of names of any length: extensions, prefixes and all other lists |
| `JsonPaths.RemovePathFollow` | projects/streamer/src/parson.cpp:1481-1497 | the same for removing, with success exactly on bound lists and the invariant kept |
| `JsonPaths.RemoveMemberLookup` | projects/streamer/src/parson.cpp:1461-1479 | in one object: one binding less, all others unchanged |
| `FlvStreams.PacketsConserve` | projects/streamer/src/streamer.cpp:1114-1191 | splitting a stream into packets loses no byte, and the rest holds no whole packet |
| `FlvStreams.PacketsContinue` | projects/streamer/src/streamer.cpp:1114-1191 | what comes later only continues where the rest stopped |
| `FlvStreams.ChunksDoNotMatter` | projects/streamer/src/streamer.cpp:1114-1191 | packets taken off after every chunk are the packets of the whole stream, for every way of cutting it |
| `FlvTags.TagsArePackets` | projects/streamer/src/streamer.cpp:1114-1191 | any tags, written as Annex E of the FLV specification lays them out, with a part of another behind them: the packets are exactly those tags, and the part is the rest |
| `FlvTags.PacketIsTag` | projects/streamer/src/streamer.cpp:1114-1191 | and every packet of any stream is such a tag with the bytes of its size field behind it |
| `FlvTags.VideoTags` | projects/streamer/src/streamer.cpp:1193-1290 | a video tag is a sequence header if codec 7 and packet type 0 say so, else a frame, and a key frame if and only if its frame type is 1 |
| `FlvTags.AudioTags` | projects/streamer/src/streamer.cpp:1193-1290 | an audio tag is a sequence header if sound format 10 and packet type 0 say so, else a frame that is no key frame |
| `FlvTags.OtherTags` | projects/streamer/src/streamer.cpp:1193-1290 | a tag of type 18 is a script tag, and one of any other type is a frame that is no key frame |
| `FlvTags.FrameHoldsTag` | projects/streamer/src/streamer.cpp:1299-1366 | the tag viewers get holds all bytes of the tag in the stream, and its frame type |
| `Cameras.Camera.ReceiveFlvHeader` | projects/streamer/src/streamer.cpp:1075-1110 | the first 13 bytes are collected over any number of reads |
| `Cameras.Camera.ReceiveTagHeader` | projects/streamer/src/streamer.cpp:1114-1149 | the 11 bytes of a tag header are collected over any number of reads, and the data size is computed from them |
| `Cameras.Camera.ReceiveTagData` | projects/streamer/src/streamer.cpp:1152-1191 | the data is collected over any number of reads; with its last byte exactly the next packet of the stream is put together |
| `Cameras.Camera.Handle` | projects/streamer/src/streamer.cpp:1193-1366 | sequence headers and script tags are kept, every other packet is offered to every viewer |
| `Cameras.Camera.AwaitNext` | projects/streamer/src/streamer.cpp:1368-1374 | the state is ready for the next tag header |
| `Cameras.Camera.ReceiveStreamCb` | projects/streamer/src/streamer.cpp:1022-1375 | one wake-up: bytes read and bytes to come are conserved, emitted packets are the packets of the bytes received, every viewer is offered exactly the frames among the new ones |
| `Cameras.Camera.BytesConserved` | projects/streamer/src/streamer.cpp:1075-1191 | file header, emitted packets and partial buffer are the bytes received so far |
| `Cameras.ChunkingIsInvisible` | projects/streamer/src/streamer.cpp:1075-1191 | two receivers of the same bytes have emitted the same packets and hold the same partial packet |
| `Cameras.TagsArrive` | projects/streamer/src/streamer.cpp:1075-1191 | a camera that has received a header of 13 bytes, any tags and a part of another has emitted exactly those tags |
| `Cameras.WatchingContinues` | projects/streamer/src/streamer.cpp:1299-1366 | what a viewer was offered stays the frames since it joined |
| `Cameras.Join` | projects/streamer/src/streamer.cpp:370-409 | a new viewer has been offered exactly the frames since it joined: none |
| `Cameras.Readable` | projects/streamer/src/streamer.cpp:1022-1375 | a wake-up of the camera keeps this for all its viewers at once, each with its own time of joining |
| `Cameras.Writable` | projects/streamer/src/streamer.cpp:1607-1665 | a wake-up of a viewer keeps it, unless the viewer is closed |
| `Cameras.DeliveredFromStream` | projects/streamer/src/streamer.cpp:1427-1665 | end to end: what a viewer was sent in full is an in-order subsequence of the frames in the bytes received since it joined, begins with a key frame, and at most 79 tags wait |
| `ViewerQueues.ViewerQueue.FullCount` | projects/streamer/src/streamer.cpp:580-589 | the full and empty flags say that 79 or 0 tags wait |
| `ViewerQueues.ViewerQueue.Push` | projects/streamer/src/streamer.cpp:649-677 | appends to the sequence of waiting tags |
| `ViewerQueues.ViewerQueue.Pop` | projects/streamer/src/streamer.cpp:600-614 | takes the head off, and does nothing on an empty queue |
| `ViewerQueues.ViewerQueue.Top` | projects/streamer/src/streamer.cpp:622-627 | reads the head |
| `ViewerQueues.Shift` | projects/streamer/src/streamer.cpp:855-861 | the loop moves every tag behind the deleted one by one slot, around the end of the ring |
| `ViewerQueues.ViewerQueue.Delete` | projects/streamer/src/streamer.cpp:842-872 | of two or more tags exactly the chosen one is removed; deleting the only tag leaves a queue that looks full over an empty slot |
| `ViewerQueues.ViewerQueue.DropFrame` | projects/streamer/src/streamer.cpp:880-905 | removes the first tag that is no key frame, or the head when all are, and nothing from an empty queue; a single tag that is no key frame leaves a queue that looks full over an empty slot |
| `ViewerQueues.DroppedPolicy` | projects/streamer/src/streamer.cpp:880-905 | one tag is lost, and no key frame while any other tag waits |
| `ViewerQueues.DroppedAt` | projects/streamer/src/streamer.cpp:880-905 | the tag that is lost is the first that is no key frame, or the head when all are |
| `ViewerQueues.DroppedHead` | projects/streamer/src/streamer.cpp:880-905 | the head, which may be partly sent, survives a drop if and only if it is a key frame and another tag is not |
| `Viewers.Viewer.Offer` | projects/streamer/src/streamer.cpp:1324-1352 | a full queue makes room by the policy, then the tag is appended and the watcher runs |
| `Viewers.Viewer.SendTags` | projects/streamer/src/streamer.cpp:1607-1665 | each outcome of a write: wait, skip up to the first key frame, close, advance within the head, or deliver it |
| `Viewers.DropKeepsOrder` | projects/streamer/src/streamer.cpp:880-905 | sent and waiting tags stay an in-order subsequence of those offered |
| `SortOrder.SortedPermutationUnique` | study/DS/include/sorts.cpp:1-385 | there is only one sorted permutation, so the sorts of the file can only agree |
| `QuickSort.PassInPlace` | study/DS/include/sorts.cpp:102-125 | one round of the two scans, in place |
| `QuickSort.ObtainMiddleKeyPos` | study/DS/include/sorts.cpp:95-130 | a range that is none is refused with -1; on any other the rounds end with the key in its place |
| `QuickSort.PartitionHalts` | study/DS/include/sorts.cpp:95-130 | when the key occurs once, the rounds end within the length of the range and split it around the key, permuting nothing outside |
| `QuickSort.PartitionHangs` | study/DS/include/sorts.cpp:102-125 | a second occurrence of the key survives every round, so the rounds never end |
| `QuickSort.LeftMeasure` | study/DS/include/sorts.cpp:135-145 | the left call may keep the whole range, but then its last element has become the last in order, which the measure counts |
| `QuickSort.QuickHalts` | study/DS/include/sorts.cpp:135-145 | on distinct elements the recursion ends within the measure and sorts exactly its range |
| `QuickSort.QuickHangs` | study/DS/include/sorts.cpp:135-145 | on a range with a repeated element it never ends |
| `QuickSort.QuickEndsOnDistinct` | study/DS/include/sorts.cpp:135-145 | the sort ends if and only if no element of the range repeats, and then the range is a sorted permutation |
| `QuickSort.Quick` | study/DS/include/sorts.cpp:135-145 | in place on distinct elements: a permutation of the range, never falling or, for the other direction, never rising, nothing else touched |
| `HeapSort.CreateHeap` | study/DS/include/sorts.cpp:247-286 | from heaps below a root, a heap at the root; a permutation of the places from the root on |
| `HeapSort.RootIsLast` | study/DS/include/sorts.cpp:247-286 | the root of a heap belongs behind every element of it |
| `HeapSort.Heap` | study/DS/include/sorts.cpp:291-307 | a permutation for every size from 1 on, never falling or, for the other direction, never rising |
| `MergeSort.MergedSorted` | study/DS/include/sorts.cpp:311-361 | merging sorted sequences gives their sorted permutation |
| `MergeSort.MergeArray` | study/DS/include/sorts.cpp:311-361 | the range becomes the merge of its halves, nothing else changes |
| `MergeSort.SortRange` | study/DS/include/sorts.cpp:365-374 | a sorted permutation of the range, nothing else changes |
| `MergeSort.Merge` | study/DS/include/sorts.cpp:377-384 | a permutation in order, either direction, for every size, the empty one included |
| `ShellSort.InsertOne` | study/DS/include/sorts.cpp:185-207 | inserting one element extends the order at its distance by one place and permutes the elements |
| `ShellSort.Shell` | study/DS/include/sorts.cpp:180-210 | a permutation in order, either direction, for every size: the last distance is 1 whenever there are two elements |
| `Base64.EncodedShape` | projects/webchat/src/base64.cpp:14-78 | four symbols for every three bytes begun, all from the 64-symbol alphabet but the padding, which is exactly as long as bytes are missing |
| `Base64.Encode` | projects/webchat/src/base64.cpp:14-78 | writes exactly the symbols and the terminator, filling the allocated buffer |
| `Base64Bits.SymbolsAreBits` | projects/webchat/src/base64.cpp:14-78 | the i-th symbol is the entry of the alphabet of RFC 4648, section 4, at the number that bits 6i to 6i + 5 of the input make, zero bits added |
| `Base64Bits.DecodedToPlace` | projects/webchat/src/base64.cpp:86-160 | each character of that alphabet is decoded to its place in it |
| `Base64.Decode` | projects/webchat/src/base64.cpp:86-160 | the result: what the symbols decode to, inside the allocated buffer `ret`, and zeros behind it, for every text over the table; the scratch array `need` is cleared past its end for every text but three signs of padding |
| `Base64.GroupLoopRuns` | projects/webchat/src/base64.cpp:97-132 | from three characters on, the loop over the groups, which clears four bytes of `need[3]`, runs for every text but three signs of padding |
| `Base64.DecodedLength` | projects/webchat/src/base64.cpp:132-157 | how many bytes are written for any number of symbols |
| `Base64RoundTrip.RoundTrip` | projects/webchat/src/base64.cpp:86-160 | for every non-empty input, decoding the encoding gives it back, followed by exactly one zero byte when its length is no multiple of 3 |
| `Base64RoundTrip.EncodedInjective` | projects/webchat/src/base64.cpp:14-78 | no two inputs have the same encoding |
| `RequestLine.SimpleRosehttpHeader.Parse` | projects/streamer/src/rosehttp.cpp:112-237 | which fields are filled in, and with what, on every path through the parser, the error paths included |
| `RequestLine.SimpleRosehttpHeader.TakeArgs` | projects/streamer/src/rosehttp.cpp:165-210 | the argument loop, its first and its last argument and the errors included |
| `RequestRoundTrip.ArgsRead` | projects/streamer/src/rosehttp.cpp:165-210 | a written argument list is read back in order up to the space behind it |
| `RequestRoundTrip.FirstValueStays` | projects/streamer/src/rosehttp.cpp:201 | for every list of arguments: a key that is there keeps its value, any other key has the value of the first argument with it, and there are no more keys |
| `RequestRoundTrip.SpacedArgRead` | projects/streamer/src/rosehttp.cpp:165-210 | a key and its value may stand apart by spaces instead of the '=' |
| `RequestRoundTrip.UnfinishedArg` | projects/streamer/src/rosehttp.cpp:165-210 | a key that nothing ends, or a value that nothing ends, is an error |
| `RequestRoundTrip.NoLowerCase` | projects/streamer/src/rosehttp.cpp:213-217 | the search for the other spelling of the protocol finds nothing in a readable line |
| `RequestRoundTrip.RoundTrip` | projects/streamer/src/rosehttp.cpp:112-237 | a readable request written as a line under 1024 characters, with anything behind it, is parsed to its method, arguments and version, and to its path with one space in front |
| `RequestExact.ParsedArgsOk` | projects/streamer/src/rosehttp.cpp:165-210 | whatever the line, arguments that are taken have no delimiter inside key or value, and at least one is taken |
| `RequestExact.ParsedTargetOk` | projects/streamer/src/rosehttp.cpp:143-236 | whatever the line, an accepted path, version and argument list are free of the delimiters that end them |
| `RequestExact.RoundTripExactly` | projects/streamer/src/rosehttp.cpp:112-237 | with an empty header a written request comes back, of every key the first value, if and only if no delimiter stands inside its parts and it makes one line under 1024 characters; repeated keys included, where the values that are not kept hold no delimiter |
| `RequestExact.LostValueMayHide` | projects/streamer/src/rosehttp.cpp:165-210 | a value that is not kept may hold what reads as one more argument, and the request comes back all the same |
| `RequestExact.CodesExactly` | projects/streamer/src/rosehttp.cpp:112-160 | when each error is returned, and that a line of exactly 1024 characters leaves no terminator |
| `RequestRoundTrip.DistinctArgsComeBack` | projects/streamer/src/rosehttp.cpp:201 | distinct keys come back with their values, and no other keys with them |
| `SpeechPools.ReceivedKeeps` | projects/speech-transfer/src/transfer.cpp:464-476 | in every pool reached by receiving packets each speaker has a packet, in the order of time |
| `SpeechPools.ReceivedExactly` | projects/speech-transfer/src/transfer.cpp:464-476 | every other speaker keeps its queue; the speaker's has its old packets, and the new one with them if and only if none has its time |
| `SpeechPools.PoolGrows` | projects/speech-transfer/src/transfer.cpp:464-476 | the packets of the pool grow by the new one if and only if no packet of its speaker has its time |
| `SpeechPools.InsertPacketTakes` | projects/speech-transfer/src/transfer.cpp:464-476 | the pool keeps its packets, and takes a new one if and only if it has none of the same time |
| `SpeechPools.RoundIsNth` | projects/speech-transfer/src/transfer.cpp:1163-1179 | round r takes the r-th earliest packet of each speaker that has so many |
| `SpeechPools.RoundsTakeAll` | projects/speech-transfer/src/transfer.cpp:1162-1260 | as many rounds as the longest queue is long take every packet once |
| `SpeechPools.RoundNotEmpty` | projects/speech-transfer/src/transfer.cpp:1182-1256 | none of these rounds is empty |
| `SpeechPools.ReceivedNoneTwice` | projects/speech-transfer/src/transfer.cpp:464-476 | receiving a packet in a new buffer leaves no buffer in the pool twice |
| `SpeechPools.FreedOnce` | projects/speech-transfer/src/transfer.cpp:1088-1264 | every packet of the pool is freed as often as it is in the pool, alone or drained: exactly once, as no buffer is in it twice |
| `SpeechPools.OnlyLastIsKeptBack` | projects/speech-transfer/src/transfer.cpp:1165-1192 | of the packets one speaker has left when all others have none, only the last is kept from its sender |
| `SpeechPools.SpeakerSeenIs` | projects/speech-transfer/src/transfer.cpp:1164-1179 | the speaker a message is kept from is the last in the pool's order who gives the last packet, if there is one |
| `SpeechPools.MessageCarries` | projects/speech-transfer/src/transfer.cpp:1182-1256 | a round's message carries all its packets: one as it is, several as a mix |
| `SpeechPools.SentIsFreed` | projects/speech-transfer/src/transfer.cpp:1088-1264 | the packets all messages carry are the packets of the pool, in the order in which they are freed |
| `SpeechPools.SpeechPool.TakeRound` | projects/speech-transfer/src/transfer.cpp:1164-1179 | one round in place: what is taken, which speaker is seen last, what is left |
| `SpeechPools.SpeechPool.Drain` | projects/speech-transfer/src/transfer.cpp:1149-1261 | the loop ends after exactly as many rounds as the longest queue is long |
| `SpeechPools.DrainLength` | projects/speech-transfer/src/transfer.cpp:1149-1261 | counting before comparing, the loop makes as many rounds as the longest queue is long if and only if some queue holds a packet; else it counts once around its 64-bit type |
| `SpeechPools.SpeechPool.MixAndBroadcast` | projects/speech-transfer/src/transfer.cpp:1088-1264 | what is sent and freed for a pool, each packet once; the pool is empty afterwards |
| `SpeechMerge.MergedAllMeaning` | projects/speech-transfer/src/transfer.cpp:841-941 | the merge of all queues is a permutation of all packets, sorted by time, and keeps every speaker's order |
| `SpeechMerge.MergedByTime` | projects/speech-transfer/src/transfer.cpp:855-893 | merging two queues sorted by time gives a queue sorted by time |
| `SpeechMerge.MergedOfSpeaker` | projects/speech-transfer/src/transfer.cpp:855-941 | merging with packets of others leaves a speaker's packets in order |
| `SpeechMerge.MergedOfTime` | projects/speech-transfer/src/transfer.cpp:855-893 | of equal times the packets of the first queue go first |
| `SpeechMerge.MergedAllOfTime` | projects/speech-transfer/src/transfer.cpp:841-941 | of packets of one time those of the third speaker and later ones go first, the last speaker's before all, then the first speaker's and the second's |
| `SpeechMerge.MergeTwo` | projects/speech-transfer/src/transfer.cpp:855-893 | the three loops over two queues, ties to the first |
| `SpeechMerge.MergeAll` | projects/speech-transfer/src/transfer.cpp:841-941 | two queues first, the others one by one, ties to the later queue |
| `FreeListPool.MemoryPool.ExpandTheFreeList` | study/C++/mempool/memorypool.cpp:70-83 | a new chain of one block more than asked for, without repeats and ending in 0 |
| `FreeListPool.MemoryPool.Alloc` | study/C++/mempool/memorypool.cpp:47-57 | hands out the first free block, never one in use; an empty pool makes 33 blocks and keeps 32 |
| `FreeListPool.MemoryPool.Free` | study/C++/mempool/memorypool.cpp:61-66 | the block becomes the first of the chain; blocks in use stay apart from it |
| `FreeListPool.Conservation` | study/C++/mempool/memorypool.cpp:46-83 | free and live blocks together are all blocks ever made, none twice |
| `FreeListPool.Overwrite` | study/C++/mempool/memorypool.cpp:61-66 | what users write over the link of a block in use does not matter to the pool |
| `FreeListPool.FreeThenAlloc` | study/C++/mempool/memorypool.cpp:46-66 | a freed block is the next one handed out, and the chain is as before |
| `BytePool.ByteMemoryPool.Alloc` | study/C++/mempool/bytememorypool.cpp:104-112 | each range has the requested size, lies inside its chunk behind all of it that is used, and overlaps no range handed out before, for requests of any size |
| `BytePool.ByteMemoryPool.ExpandStorage` | study/C++/mempool/bytememorypool.cpp:120-123 | a chunk in front of the others, of 4096 bytes or as large as the request |
| `BufferedLog.Nana.Say` | projects/fileLiveServer/src/nana.cpp:92-141 | file and buffer together grow by exactly the line and a newline, once |
| `BufferedLog.Nana.Shutup` | projects/fileLiveServer/src/nana.cpp:143-166 | when the buffer is flushed; nothing is lost, and less than 8 KB stay |
| `BufferedLog.Nana.Flush` | projects/fileLiveServer/src/nana.cpp:149-151 | a flush writes exactly the buffered prefix and zeroes the buffer |
| `BufferedLog.LateAppendNeverNeeded` | projects/fileLiveServer/src/nana.cpp:119-136 | with less than 8 KB in the buffer, which `Nana.Say` keeps, a line always fits before the flush, so the append behind it never runs |
| `HlsPlaylist.HlsServer.Rotate` | projects/happy-hls/src/happy_hls.cpp:271-298 | one rotation by one channel over the statics all channels share; on every state a run can reach, the playlist then lists at most three consecutive segments up to the current one under the number of the first, if and only if the channel is in step |
| `HlsPlaylist.HlsServer.AddTsUrl` | projects/happy-hls/src/m3u8.cpp:52-87 | the newest segment is appended, or, from four on, the oldest is dropped and the playlist rewritten |
| `HlsPlaylist.HlsServer.ReadHeader` | projects/happy-hls/src/happy_hls.cpp:206-264 | only the first header of the process lists a first segment |
| `HlsPlaylist.HlsServer.GoOnline` | projects/happy-hls/src/happy_hls.cpp:801-831 | a channel that is not online gets an empty list |
| `HlsPlaylist.HlsServer.GoOffline` | projects/happy-hls/src/happy_hls.cpp:774-799 | the channel's list is gone, and the statics stay |
| `HlsPlaylist.RunKeeps` | projects/happy-hls/src/happy_hls.cpp:165-298 | after any run of requests, headers and rotations lists hold up to three segments in order, no segment is in two lists, and nothing is dropped from the playlist before the fourth segment |
| `HlsPlaylist.EveryRotation` | projects/happy-hls/src/happy_hls.cpp:271-298 | the exact condition at every rotation of every run: a full list that ends with the two segments before, or no more than two segments made and the first one listed |
| `HlsPlaylist.FirstChannel` | projects/happy-hls/src/happy_hls.cpp:165-298 | the first channel of a process has a well-formed playlist after each of its rotations, as long as it stays online and no other channel rotates |
| `HlsPlaylist.BackOnlineExactly` | projects/happy-hls/src/happy_hls.cpp:271-298 | the k-th rotation after coming online with an empty list at segment n leaves a well-formed playlist if and only if k is at least 4, or n + k is at most 3 and the first segment is listed |
| `HlsPlaylist.BackOnlineBreaks` | projects/happy-hls/src/happy_hls.cpp:774-831 | offline and online again after three segments: the next rotation lists four |
| `HlsPlaylist.FourInARow` | projects/happy-hls/src/happy_hls.cpp:271-298 | four rotations in a row by one channel mend the playlist, whatever came before |
| `HlsPlaylist.TakingTurns` | projects/happy-hls/src/happy_hls.cpp:271-298 | of two channels online, from the fourth segment on, a rotation by the one that did not make the last segment leaves no well-formed playlist |
| `HlsPlaylist.NewSegment` | projects/happy-hls/src/m3u8.cpp:70-87 | the window with a new segment, before and after its oldest one is dropped |
| `RoundRobin.Select` | projects/lilyCGI/include/ppool.hpp:257-277 | picks the next living child: all between the counter and it are dead, and the counter moves behind it; nobody if and only if nobody is alive |
| `RoundRobin.TurnPasses` | projects/lilyCGI/include/ppool.hpp:257-277 | a selection moves the child to the end of the cyclic order |
| `RoundRobin.TurnsAreFair` | projects/lilyCGI/include/ppool.hpp:257-277 | the cyclic order lists every living child once and nobody else |
| `RoundRobin.PicksFollowTurns` | projects/lilyCGI/include/ppool.hpp:257-277 | m selections in a row, m at most the number of living children, pick the first m of the cyclic order |
| `RoundRobin.OneRoundIsFair` | projects/lilyCGI/include/ppool.hpp:257-277 | as many selections in a row as there are living children pick each of them exactly once |
| `RoundRobin.StaysPicked` | projects/lilyCGI/include/ppool.hpp:257-277 | while others die between the selections, a child that stays alive is picked within as many selections as children were alive at the start: at most one more than were ahead of it |

## Left out

- JSON numbers other than 32-bit integer literals: the parser model answers `OutOfModel` for fractions, exponents and larger literals, whose reading belongs to the C library. In trees they are reals: rounding of doubles, infinities and NaN are not modelled.
- JsonRoundTrip.RoundTrip: is about trees of 32-bit integers, because the parser model reads no others.
- JsonParser.ParseValue: is equal to the reference function also where that answers `OutOfModel`; nothing is claimed about such texts.
- Failing allocations, freeing of JSON values, and `realloc` moving blocks: a resize always succeeds unless the capacity is 0.
- The JSON file functions, comment removal, typed getters and setters, `json_array_replace_value` and the clear functions, which repeat what is modelled.
- `json_validate`: its array branch tests a status for 0, which is success, so it means the opposite of what it says.
- JsonPaths.DotSetThenGet: dotted sets and removals are modelled on values, not on objects in memory, so two trees that share an object are not captured.
- JsonEquality.EqualsIsEquivalence: transitivity is claimed for whole numbers; `JsonTolerance.EquivalenceExactly` says exactly when it holds for others.
- JsonObjects.JsonObject.SetValue: the old value is replaced, its release is not modelled.
- Viewers.Viewer.SendTags: the result of the write is a parameter; sending of file header, script tag and sequence headers at the start, with their byte counters shared between viewers, is not modelled.
- Cameras.Camera.ReceiveStreamCb: once a read gives nothing the camera is gone and nothing more is said about it; event loop, logging, backing sources and channel bookkeeping are not modelled.
- The delivery claims are about whole tags: a tag that was partly sent can still be dropped.
- Sorts on element types other than integers, the bubble, insertion and selection sorts, and overflow of `begin + end` and of indices.
- QuickSort.Quick: the method requires distinct elements, without which it does not end; `QuickHangs` is about the fuelled function.
- HeapSort.Heap: requires one element, because the code reads the first one also when there is none.
- Base64.Decode: requires three symbols of the table, because the code reads the last three and subtracts from a null pointer otherwise; the scratch array `need` is never read, and the model keeps of it only how many of its bytes are cleared.
- RequestLine.SimpleRosehttpHeader.Parse: reading the header from a socket is not modelled.
- RequestExact.RoundTripExactly: assumes an empty header, and that the values of repeated keys that are not kept hold no delimiter; `LostValueMayHide` shows that without this a request can come back although it is not readable.
- SpeechPools.SpeechPool.MixAndBroadcast: decoding, mixing of samples, encoding and sending are events in a list of messages; a mix that fails to encode is a message here.
- Speakers stand in the pool in the order of integer identifiers where the code orders strings; only the order matters.
- The broadcast phase behind the merge by time, which drops a last packet that was not mixed.
- FreeListPool.MemoryPool.Alloc: blocks are objects with a link, their size and their return to the heap are not modelled.
- BytePool.ByteMemoryPool.Alloc: addresses are a chunk and an offset, alignment is not modelled, and the chain ends in null where the constructor passes on a pointer it has not set.
- BufferedLog.Nana.Say: a line is what was formatted, shorter than 1024 bytes and without NUL and '%'; rotation of the file at 100 MB, locking and time stamps are not modelled.
- HlsPlaylist.HlsServer.Rotate: the playlist is a number and a list of segment numbers, not its text; the clock that decides when a channel rotates is left open, and writing the segments and the interleaving of audio and video by time are not modelled.
- HlsPlaylist.HlsServer.ReadHeader: of a later stream the code reads the HTTP reply and the header as if they were tags, which is not modelled; nor is a stream that ends by itself, which also closes the segment file.
- RoundRobin.Select: who is alive is given for each selection; that the signal handler never marks a dead child is not modelled.
- Sockets, threads, signals, configuration, Opus, AES, Redis and RTP: no part of the models.
- The RTMP, AMF, MP4 and TS parsers, the binary search tree and the number puzzles in study/DS.
