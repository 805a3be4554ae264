# Smart OS: proved models of its hard parts

Smart OS is an operating system with its own applications, written in Rust. This project models the parts of it whose
correctness is not visible from one function, and proves what they are for. Every claim below is a Dafny contract;
`dafny verify dfyconfig.toml` checks them all. Nothing here executes the original.

| component | files | what is proved |
|---|---|---|
| image decoder | Bits, Huffman, HuffTree, Inflate, InflateWraps, InflateRoundTrip, InflateStreams, InflateFormat, InflateCut, PngFilter | the table-driven, prefetching inflate equals a pure decoder over the bit list on every input; canonical codes and lookup table, exactly; the tables and fixed codes of the standard; round trip of every stream of blocks, and no cut stream accepted; output bound; PNG filters undone |
| BMP | Bmp, BmpRead, BmpForms | writing then reading gives the image back; files of every form; quarter turns |
| SmartPack | LittleEndian, Utf8, SmartPack, SmartPackLaws, SmartPackUnique, SmartPackForms, SmartPackCodec, Utf8Laws | round trip with the exact condition, unique parsing, shortest encoding, the byte layout, what is refused |
| SmartDb | SmartDb, SmartDbLookup | the live index equals a rescan over every run of puts and reopens, with the exact condition; it finds the last document of every identifier; cut files |
| text | UnicodeTable, Unicode, UnicodeLaws | the laws of the composed and decomposed forms over all texts; Hangul, case and counts |
| word processor | Spans, SpanLaws, GapBuffer, DocxText, DocxRoundTrip, DocxMarkup, DocxCode, ZipFormat, DocxZip | saving and reopening, with the exact failure condition; well nested markup, readable archives, documents of other writers; span edits against the style looked up and the style drawn, over runs of edits; gap buffer refinement |
| browser | BrowserIpc, BrowserSandbox, BrowserProtocol, BrowserRuns, BrowserPages, LineBreak, LineFlow, LinePaint, LineFlush | safety of the chrome and renderer protocol over every interleaving, losses counted, every load answered; the line breaker and what it draws |
| calculator | Calculator | an invariant over every key sequence; what every chain of keys shows |

Each component has a specification written as functions on values, lemmas about that specification, and the code itself as
methods and classes proved against it (`Basics` holds what all share). Loops, in-place arrays and mutable objects appear
where the source has them.

The models follow the code where a standard is stricter: inflate accepts over-subscribed lengths, the last symbol winning
(`HuffTree.FromLengths` says so for every list), and a repeat code with nothing before it repeats zero; normalisation does
not reorder marks. The bit count of inflate and the font
sizes of a document can overflow: there both a build with overflow checks and one without are described.

Where the code does not meet what one would expect of it, a lemma shows an input, or all of them, and a lemma gives the exact condition:

- A deflate stream that ends inside a Huffman code can match the zero padding, and the bit count then underflows: one build
  stops, the other reads on from almost 2 to the 32 zero bits (`InflateRoundTrip.CutExample`; `HuffTree.BitReader.Decode`
  and `Inflate.DeflateDecompress` say exactly when and with what result).
- A saved document with a run that ends in `<` or `>` cannot be reopened: the look-ahead for `&amp;` reads one byte past the
  run (`DocxRoundTrip.AngleExample`, `DocxRoundTrip.SaveThenOpen`).
- Font sizes from 32768 lose their top bit, or stop a checked build (`DocxRoundTrip.TallExample`,
  `DocxRoundTrip.StylesSurvive`, `DocxRoundTrip.LargeExactly`).
- An insert that splits a span does not move the spans behind it (`Spans.InsertExample`, `Spans.InsertExactly`), and two
  spans can both take in the new text (`SpanLaws.InsertOverlaps`, `SpanLaws.InsertKeepsDisjoint`).
- Text without a span is drawn in the style carried from before it, so a delete can change its look
  (`SpanLaws.DeleteExample`, `SpanLaws.DeleteKeepsDrawn`).
- The quick composition check does not see Hangul (`Unicode.QuickCheckMissesHangul`, `Unicode.FixedByNfc`).
- Flushing inline text never ends when the width is less than one character (`LineFlow.NarrowExample`,
  `LineFlow.BreakEndsExactly`, `LineFlush.Layout.FlushInline`).
- The index of the store drifts from the file after a put whose document has an own string "_id", an extension or too
  deep a nesting (`SmartDb.OwnIdExample`, `SmartDb.PutKeepsConsistent`).
- A store whose file was cut off in a document records the next one past the end of the file
  (`SmartDbLookup.TornDocumentCounts`); one cut off in a length does not (`SmartDbLookup.TornLengthIsIgnored`).
- U+0178 is missing from the decomposition table, though its lower case U+00FF is there (`UnicodeLaws.LowerExample`,
  `UnicodeLaws.LowerCommutes`).
- Text of other writers with an ampersand third or fourth from its end cannot be opened
  (`DocxMarkup.AmpersandExample`, `DocxMarkup.LoneAmpersands`).
- The least 64-bit integer is read back from the calculator's display one greater (`Calculator.LeastByKeys`,
  `Calculator.ContinuesExactly`).

## Model

| member | source | states |
|---|---|---|
| `Huffman.CodesFit` | apps/image_viewer/src/decoder.rs:186-191 | the assigned codes fit their lengths if and only if the lengths are not over-subscribed (Kraft sum at most one) |
| `Huffman.CodesAscend` | apps/image_viewer/src/decoder.rs:188-205 | codes of earlier symbols, in order of length then index, own earlier disjoint ranges of the code space, as section 3.2.2 of RFC 1951 asks |
| `Huffman.NoPrefix` | apps/image_viewer/src/decoder.rs:178-207 | no code of a list that is not over-subscribed is a prefix of another |
| `Huffman.PrefixFreeIffFits` | apps/image_viewer/src/decoder.rs:178-207 | the assigned codes are prefix free if and only if the lengths are not over-subscribed |
| `Huffman.Overflow` | apps/image_viewer/src/decoder.rs:178-207 | an over-subscribed list has a code that no longer fits its length, and a zero code no longer than it |
| `Huffman.MatchIsWord` | apps/image_viewer/src/decoder.rs:201-204 | on lengths that fit, last-symbol-wins lookup finds a symbol exactly when its code starts the bits |
| `HuffTree.ReverseBits` | apps/image_viewer/src/decoder.rs:166-170 | the low n bits of the result are the low n bits of the argument in opposite order |
| `HuffTree.FirstCodes` | apps/image_viewer/src/decoder.rs:186-191 | the running doubling computes the first canonical code of every length |
| `HuffTree.FillStride` | apps/image_viewer/src/decoder.rs:198-204 | writing one entry per stride adds exactly the indices whose low bits are the reversed code |
| `HuffTree.AssignCodes` | apps/image_viewer/src/decoder.rs:193-205 | the symbol loop hands out the canonical codes and completes the table |
| `HuffTree.FromLengths` | apps/image_viewer/src/decoder.rs:178-207 | the table built from any lengths up to 15 holds, at every index, the last symbol whose reversed code the index ends in, or the empty mark |
| `HuffTree.TableHoldsSymbol` | apps/image_viewer/src/decoder.rs:193-206 | an entry is symbol s with its length if and only if the low bits of the index are the reversed code of s |
| `HuffTree.TableEmptyEntries` | apps/image_viewer/src/decoder.rs:182-206 | an entry is 0xFFFF if and only if no code matches the index |
| `HuffTree.SymbolRoundTrip` | apps/image_viewer/src/decoder.rs:209-220 | decoding a code followed by any bits gives its symbol and those bits |
| `HuffTree.BitReader.Fill` | apps/image_viewer/src/decoder.rs:121-127 | prefetching leaves the unread bits as they were |
| `HuffTree.BitReader.ReadBits` | apps/image_viewer/src/decoder.rs:129-137 | takes the next n bits, least significant first, or fails when fewer are left |
| `HuffTree.BitReader.Align` | apps/image_viewer/src/decoder.rs:144-148 | drops the unread bits up to the next byte boundary |
| `HuffTree.BitReader.ReadByte` | apps/image_viewer/src/decoder.rs:150-157 | takes the next eight bits or fails |
| `HuffTree.BitReader.Decode` | apps/image_viewer/src/decoder.rs:209-220 | the table lookup takes the symbol the bit list starts with, and no symbol is a data error; when the code is longer than what is left, a build with overflow checks stops and one without goes on with the wrapped bit count |
| `HuffTree.BitReader.Underflow` | apps/image_viewer/src/decoder.rs:217-218 | after taking more bits than there are, the reader has 2 to the 32 less the shortage of zero bits left |
| `Inflate.CopyIsPeriodic` | apps/image_viewer/src/decoder.rs:299-300 | the one-byte-at-a-time overlapping copy repeats the last dist bytes |
| `Inflate.CopyMatch` | apps/image_viewer/src/decoder.rs:299-300 | indexing start + i mod dist gives that copy, for every output, length and distance within it |
| `Inflate.ReadMatch` | apps/image_viewer/src/decoder.rs:288-301 | length and distance with their extra bits, and the copy, agree with the bit-list reading, errors included |
| `InflateFormat.LengthTable` | apps/image_viewer/src/decoder.rs:270-275 | the length table of section 3.2.5 of RFC 1951: bases from 3 on that follow one another by their extra bits, one more bit every four symbols, and 258 on its own |
| `InflateFormat.DistanceTable` | apps/image_viewer/src/decoder.rs:276-281 | the distance table: bases from 1 to 32768 that follow one another, one more bit every two symbols |
| `InflateFormat.EveryMatchHasToken` | apps/image_viewer/src/decoder.rs:270-297 | every match of 3 to 258 bytes from 1 to 32768 back can be written |
| `InflateFormat.OneTokenPerMatch` | apps/image_viewer/src/decoder.rs:270-297 | and in one way only, but for the symbol of 258 |
| `Inflate.DeflateBlock` | apps/image_viewer/src/decoder.rs:264-306 | the symbol loop agrees with the recursive bit-list decoder and leaves the same unread bits |
| `InflateFormat.ReservedSymbolRefused` | apps/image_viewer/src/decoder.rs:302-302 | literal symbols above 285 are refused, for every code and whatever follows |
| `InflateFormat.ReservedDistanceRefused` | apps/image_viewer/src/decoder.rs:294-295 | distance symbols above 29 are refused |
| `Inflate.ReadStored` | apps/image_viewer/src/decoder.rs:87-95 | a stored block: alignment, length and complement check, bytes |
| `InflateFormat.WrongComplementRefused` | apps/image_viewer/src/decoder.rs:89-91 | every stored block whose second number is not the complement of its length is refused |
| `Inflate.FixedTrees` | apps/image_viewer/src/decoder.rs:223-231 | the fixed trees are the tables of the fixed lengths |
| `InflateFormat.FixedCodes` | apps/image_viewer/src/decoder.rs:223-228 | the fixed code of every literal and length symbol, as section 3.2.6 of RFC 1951 lists them |
| `InflateFormat.FixedDistanceCodes` | apps/image_viewer/src/decoder.rs:229-229 | the fixed code of a distance symbol is its number in five bits |
| `Inflate.ReadCodeLengths` | apps/image_viewer/src/decoder.rs:243-258 | run-length coded lengths, including repeats past the requested total |
| `InflateFormat.ReservedRunRefused` | apps/image_viewer/src/decoder.rs:257-257 | code length symbols above 18 are refused |
| `InflateFormat.OrderGoesOutwards` | apps/image_viewer/src/decoder.rs:238-240 | the order of the code length lengths: repeats and zero, then from 8 outwards |
| `Inflate.ReadDynamicLengths` | apps/image_viewer/src/decoder.rs:233-262 | the dynamic header gives the two length lists of the bit-list reading |
| `Inflate.DeflateDecompress` | apps/image_viewer/src/decoder.rs:79-109 | on every input, in builds with and without overflow checks, the decoder returns what the pure bit-list decoder returns: the same bytes, a data error, or the overflow once more codes are cut off than counts may wrap; at most 1032 output bytes per input byte, and 129 per wrapped bit |
| `Inflate.BlockBound` | apps/image_viewer/src/decoder.rs:283-304 | at most 129 output bytes per bit consumed by a block |
| `Inflate.DecompressBound` | apps/image_viewer/src/decoder.rs:79-109 | the same bound for whole streams |
| `InflateFormat.ReservedKindRefused` | apps/image_viewer/src/decoder.rs:104-104 | a block of the reserved kind is refused, whatever follows |
| `InflateWraps.DecompressMore` | apps/image_viewer/src/decoder.rs:209-220 | a stream that ends within some number of wraps ends the same with more: a build without checks has one result, the checked one wherever that does not stop |
| `InflateRoundTrip.BlockRoundTrip` | apps/image_viewer/src/decoder.rs:264-306 | writing any list of literals and matches with codes that fit, then decoding, gives exactly what the list expands to, or a data error where a distance reaches back too far |
| `InflateRoundTrip.FixedCodesComplete` | apps/image_viewer/src/decoder.rs:223-231 | both fixed codes fill the code space exactly |
| `InflateStreams.RunsRoundTrip` | apps/image_viewer/src/decoder.rs:243-258 | run-length coded lengths read back as what the runs unroll to, with repeats across the two lists and past the total |
| `InflateStreams.HeaderRoundTrip` | apps/image_viewer/src/decoder.rs:233-262 | a dynamic header reads back as its two length lists, and the bits behind it stay |
| `InflateStreams.StoredRoundTrip` | apps/image_viewer/src/decoder.rs:87-95 | a stored block at any bit position, with any padding, reads back as its bytes |
| `InflateStreams.StreamRoundTrip` | apps/image_viewer/src/decoder.rs:79-109 | any list of stored, fixed and dynamic blocks reads back as what the blocks stand for, or is refused exactly when some match reaches back too far; the bits behind it stay |
| `InflateCut.TruncatedIsRefused` | apps/image_viewer/src/decoder.rs:79-109 | no stream that was written by any list of blocks is accepted when its last byte, or more, is missing |
| `InflateRoundTrip.CutExample` | apps/image_viewer/src/decoder.rs:209-220 | one byte with the end mark cut off: with overflow checks the decoder stops, without them it returns no bytes and holds almost 2 to the 32 bits |
| `PngFilter.Paeth` | apps/image_viewer/src/decoder.rs:438-447 | one of the three neighbours, nearest to a + b - c, the earlier on ties |
| `PngFilter.UndoesIffFiltered` | apps/image_viewer/src/decoder.rs:401-436 | a row undoes a filtered row if and only if the forward filter of section 6 of RFC 2083 takes it there |
| `PngFilter.UndoneIsUnique` | apps/image_viewer/src/decoder.rs:401-436 | only one row undoes a filtered row |
| `PngFilter.FiltersAreStandard` | apps/image_viewer/src/decoder.rs:401-447 | each byte, filter type by filter type, against its left, upper and upper left neighbours as section 6 of RFC 2083 has it |
| `PngFilter.ApplyPngFilter` | apps/image_viewer/src/decoder.rs:401-436 | the in-place loops undo each of the five filters; other types are refused |
| `PngFilter.UnfilterRows` | apps/image_viewer/src/decoder.rs:376-387 | the row loop succeeds exactly when the data is long enough and every filter type is known, and undoes each row with the one above it |
| `PngFilter.UnpacksPacked` | apps/image_viewer/src/decoder.rs:379-387 | whatever rows come out for a filtered image, they are its rows |
| `PngFilter.PackedIsAccepted` | apps/image_viewer/src/decoder.rs:376-387 | a filtered image of equal rows has the length and types the decoder asks for |
| `Bmp.EncodeBmp24` | apps/image_viewer/src/main.rs:334-372 | headers, colours bottom-up in blue-green-red order and zero padding, all writes in bounds, for every image |
| `BmpRead.DecodeBmp` | apps/image_viewer/src/decoder.rs:868-899 | refused exactly for a short file, a side of 0 or over 8192, a compression or depth it does not know; else every pixel of the file, and transparent black past its end |
| `BmpRead.ReadsWhatWasWritten` | apps/image_viewer/src/decoder.rs:868-899 | reading a written image with sides 1 to 8192 gives its size and colours, all opaque |
| `BmpForms.WrittenFields` | apps/image_viewer/src/main.rs:334-356 | the header of a written file says its signature, length, pixel offset and size, planes, depth and packing |
| `BmpForms.RefusedExactly` | apps/image_viewer/src/decoder.rs:868-880 | which files are refused and why, by the fields of the header alone |
| `BmpForms.FormsAreRead` | apps/image_viewer/src/decoder.rs:868-899 | files of every form, rows from the bottom or the top, three or four bytes a pixel, are read as their image |
| `BmpRead.Picture.Rotate` | apps/image_viewer/src/main.rs:273-289 | every pixel moves to its place in the clockwise quarter turn |
| `BmpRead.FourTurns` | apps/image_viewer/src/main.rs:273-289 | four quarter turns give back every pixel |
| `SmartPackCodec.Encoder.EncodeUint` | smartpack/src/encode.rs:56-72 | appends the shortest form of the number |
| `SmartPackCodec.Encoder.EncodeInt` | smartpack/src/encode.rs:83-103 | appends the shortest signed form of the number |
| `SmartPackCodec.Encoder.EncodeHeader` | smartpack/src/encode.rs:155-189 | appends the shortest length header, or fails above 32 bits leaving the buffer |
| `SmartPackCodec.Encoder.EncodeValue` | smartpack/src/encode.rs:201-247 | appends the encoding of any value, or fails exactly when some length does not fit |
| `SmartPackCodec.Decoder.DecodeValue` | smartpack/src/decode.rs:131-278 | consumes exactly what the recursive reading consumes, with the same value or error, and restores the depth on success |
| `SmartPackCodec.Decoder.DecodeArrayValues` | smartpack/src/decode.rs:280-289 | reads that many values one level deeper; refused beyond level 128 |
| `SmartPackCodec.Decoder.DecodeMapValues` | smartpack/src/decode.rs:291-302 | reads that many pairs one level deeper; refused beyond level 128 |
| `SmartPackCodec.DecodeBytes` | smartpack/src/decode.rs:305-308 | the whole-slice reading |
| `SmartPackCodec.EncodeBytes` | smartpack/src/encode.rs:255-259 | the whole encoding |
| `SmartPackLaws.RoundTrip` | smartpack/src/decode.rs:131-302 | decoding an encoding followed by any bytes, at any depth, gives the narrowed value or the exact error, and stops at those bytes |
| `SmartPackLaws.RereadExactly` | smartpack/src/decode.rs:88-93 | an encoding is readable if and only if it holds no extension and nests within the limit; the result is the value with integers narrowed |
| `SmartPackLaws.DecodeOfEncode` | smartpack/src/decode.rs:305-308 | the same at top level |
| `SmartPackUnique.UniqueParse` | smartpack/src/encode.rs:201-247 | two encodings followed by anything that agree as bytes are of values equal up to integer width, with the same rest; for all encodable values, any nesting and extensions of any 64-bit length included |
| `SmartPackLaws.EncodeOfNarrow` | smartpack/src/encode.rs:201-247 | narrowing integers does not change the encoding, so encode after decode after encode is encode |
| `SmartPackLaws.Shortest` | smartpack/src/encode.rs:56-246 | whatever bytes the decoder accepts, re-encoding the result takes no more bytes than it consumed |
| `SmartPackForms.FirstByte` | smartpack/src/encode.rs:48-246 | the first byte of every encoding, by the table of tags |
| `SmartPackForms.NegativePayload` | smartpack/src/encode.rs:83-103 | negative numbers follow their tag as two's complement in the fewest bytes |
| `SmartPackForms.AnyWidth` | smartpack/src/decode.rs:131-170 | unsigned numbers are accepted in every width that holds them |
| `SmartPackForms.AnySignedWidth` | smartpack/src/decode.rs:170-200 | signed numbers are accepted in every width that holds them |
| `SmartPackForms.UnreadExactly` | smartpack/src/decode.rs:131-278 | which first bytes are refused whatever follows, and that with others only missing bytes or bad text can be at fault |
| `SmartPackForms.DecodeExtends` | smartpack/src/decode.rs:131-302 | what is read does not depend on the bytes behind it |
| `SmartPackForms.TruncatedIsRefused` | smartpack/src/decode.rs:43-60 | no readable encoding is accepted when its end is missing |
| `SmartPackForms.NestingLimit` | smartpack/src/decode.rs:88-93 | arrays can be nested 128 deep and no deeper |
| `Utf8Laws.WellFormedExactly` | smartpack/src/decode.rs:97-111 | text bytes are accepted if and only if they are the UTF-8 encoding of some scalar values |
| `LittleEndian.LeDigits` | smartpack/src/encode.rs:56-72 | numbers are written least significant byte first |
| `SmartDb.Store.RebuildIndex` | smartsdk/src/db.rs:46-99 | the scan loop computes the index and next offset of the recursive scan for every file, torn tails included |
| `SmartDb.Store.IndexDocument` | smartsdk/src/db.rs:81-92 | every string "_id" of a decoded document is recorded at its offset |
| `SmartDb.Store.Put` | smartsdk/src/db.rs:102-121 | appends one length-prefixed document and records its id, or changes nothing when encoding fails |
| `SmartDb.ScanOfAppend` | smartsdk/src/db.rs:46-99 | scanning a well-framed file with one more document is scanning the file and then the document |
| `SmartDb.PutKeepsConsistent` | smartsdk/src/db.rs:102-121 | after a put the live index equals a rescan if and only if the document is readable and brings no other string "_id" |
| `SmartDb.OwnIdExample` | smartsdk/src/db.rs:102-121 | a document with an "_id" of its own, put under another one, makes the live index differ from a rescan |
| `SmartDb.RunsStayConsistent` | smartsdk/src/db.rs:46-121 | so does every sequence of such puts and reopens |
| `SmartDbLookup.IndexFindsDocuments` | smartsdk/src/db.rs:46-121 | over every sequence of puts and reopens whose documents can be read back, the index has exactly the identifiers put, each with the place where its last document stands |
| `SmartDbLookup.FoundDocumentReads` | smartsdk/src/db.rs:102-121 | reading at such a place gives the document, with "_id" as its last pair |
| `SmartDbLookup.TornLengthIsIgnored` | smartsdk/src/db.rs:58-81 | a file cut off in a length, or right behind it, opens as if that document were not there |
| `SmartDbLookup.TornDocumentCounts` | smartsdk/src/db.rs:58-98 | a file cut off in a document counts it with its full length: the next one would be recorded past the end |
| `UnicodeTable.TableIsSorted` | kernel/src/unicode.rs:27-138 | the decomposition table is strictly sorted, its keys, bases and marks in separate ranges |
| `UnicodeTable.PairsAreDistinct` | kernel/src/unicode.rs:27-138 | no base and mark occur twice in the table |
| `UnicodeLaws.LowerCommutes` | kernel/src/unicode.rs:27-138 | decomposing commutes with lower-casing for exactly the texts without U+0178 |
| `UnicodeLaws.LowerExample` | kernel/src/unicode.rs:27-138 | U+0178 itself |
| `Unicode.SyllableParts` | kernel/src/unicode.rs:254-285 | dividing a Hangul syllable gives jamo that compose back to it |
| `UnicodeLaws.HangulIsStandard` | kernel/src/unicode.rs:13-21 | syllables and their parts are those of section 3.12 of the Unicode Standard |
| `Unicode.NormalizeNfd` | kernel/src/unicode.rs:254-285 | the loop with its binary search computes the decomposition of every text |
| `Unicode.NormalizeNfc` | kernel/src/unicode.rs:289-360 | the ASCII shortcut and the composing loop compute the composition of the decomposition |
| `Unicode.NfdIdempotent` | kernel/src/unicode.rs:254-285 | decomposing twice is decomposing once |
| `Unicode.NfdOfNfc` | kernel/src/unicode.rs:289-360 | decomposing the composed form gives the decomposed form |
| `Unicode.NfcIdempotent` | kernel/src/unicode.rs:289-360 | composing twice is composing once |
| `Unicode.NfcOfNfd` | kernel/src/unicode.rs:289-360 | composing the decomposed form gives the composed form |
| `Unicode.SameNormalForms` | kernel/src/unicode.rs:254-360 | two texts have one composed form if and only if they have one decomposed form |
| `Unicode.IsLikelyNfc` | kernel/src/unicode.rs:398-412 | true exactly when no neighbours are a pair of the table |
| `Unicode.FixedByNfc` | kernel/src/unicode.rs:398-412 | a text is its own composed form if and only if the quick check passes and no Hangul neighbours compose; every composed form passes |
| `Unicode.QuickCheckMissesHangul` | kernel/src/unicode.rs:398-412 | two jamo pass the quick check and still compose |
| `Unicode.GraphemeClusters` | kernel/src/unicode.rs:369-383 | clusters join to the text, each is one character and its marks, and there is one per base character |
| `UnicodeLaws.CombiningExactly` | kernel/src/unicode.rs:145-157 | the combining characters, range by range |
| `UnicodeLaws.CountOfNfd` | kernel/src/unicode.rs:364-366 | decomposing keeps the number of user-perceived characters if and only if there is no Hangul syllable |
| `Spans.DeleteKeepsStyles` | apps/office/src/font.rs:188-237 | after a delete every surviving position has the style, or none, that the spans gave it |
| `Spans.AdjustForDelete` | apps/office/src/font.rs:188-237 | the in-place shrinking and compaction compute that span list |
| `Spans.NoSplitExact` | apps/office/src/font.rs:128-185 | without a split, an insert keeps every style and gives the new text the typing style if and only if a span takes the new text |
| `Spans.SplitKeepsStyles` | apps/office/src/font.rs:128-185 | with a split it does when two slots are free and no later slot reaches past the cursor |
| `Spans.SplitExact` | apps/office/src/font.rs:128-185 | for disjoint spans, only then |
| `Spans.InsertExact` | apps/office/src/font.rs:128-185 | both cases as one condition on the slots: enough for all span lists, exact for disjoint ones |
| `Spans.SplitExactly` | apps/office/src/font.rs:128-185 | with a split, for all span lists: the styles are kept if and only if, position by position, what the later slots show in place of the new and moved text has the same style |
| `Spans.InsertExactly` | apps/office/src/font.rs:128-185 | the exact condition on the spans before an insert, overlapping ones included |
| `Spans.InsertExample` | apps/office/src/font.rs:128-185 | typing plain text into the first of two spans leaves the second span where it was |
| `Spans.AdjustForInsert` | apps/office/src/font.rs:128-185 | the in-place loop with its early exit computes the inserted span list, and one span over everything when there was none |
| `SpanLaws.DrawStyles` | apps/office/src/font.rs:75-95 | the drawing loop draws every position in its own style, or in the one carried from the position before |
| `SpanLaws.EnterSpan` | apps/office/src/font.rs:89-95 | the search takes the first span that has the position, and else keeps the style |
| `SpanLaws.DrawnIsCarried` | apps/office/src/font.rs:75-95 | the drawn style is that of the nearest position at or before that has one, or of the first span |
| `SpanLaws.NoSpansDrawnPlain` | apps/office/src/font.rs:75-95 | without spans everything is drawn plain, at size 16 |
| `SpanLaws.DrawnAfterDelete` | apps/office/src/font.rs:188-237 | what each position is drawn in after a delete, for all span lists, in terms of the spans before it |
| `SpanLaws.DeleteKeepsDrawn` | apps/office/src/font.rs:188-237 | a surviving position keeps the style it is drawn in if and only if the position it has that from survives, or the style carried over the deletion is the same |
| `SpanLaws.DeleteKeepsCovered` | apps/office/src/font.rs:188-237 | so every position with a style of its own does |
| `SpanLaws.DeleteExample` | apps/office/src/font.rs:89-95 | deleting the one plain character before text without a span turns that text bold |
| `SpanLaws.InsertKeepsDrawn` | apps/office/src/font.rs:128-185 | after an insert that keeps the styles, the new text is drawn in the typing style, all before as before, and what follows keeps its look if and only if a style comes in between or it had the typing style |
| `SpanLaws.DeleteKeepsDisjoint` | apps/office/src/font.rs:188-237 | deleting keeps spans disjoint |
| `SpanLaws.InsertKeepsDisjoint` | apps/office/src/font.rs:128-185 | a good insert keeps spans disjoint if and only if at most one takes in the new text |
| `SpanLaws.InsertOverlaps` | apps/office/src/font.rs:144-185 | two spans of the typing style that meet at the cursor both take it in |
| `SpanLaws.RunKeepsStyles` | apps/office/src/font.rs:128-237 | over every run of deletes and inserts that meet the condition, each position has the style it was typed in or started with |
| `GapBuffer.Buffer.InsertChar` | apps/office/src/gap_buffer.rs:27-35 | inserts at the cursor, or nothing when 65536 bytes are held |
| `GapBuffer.Buffer.DeleteBeforeCursor` | apps/office/src/gap_buffer.rs:37-41 | removes the byte before the cursor, if any |
| `GapBuffer.Buffer.DeleteAfterCursor` | apps/office/src/gap_buffer.rs:43-47 | removes the byte after the cursor, if any |
| `GapBuffer.Buffer.MoveCursorLeft` | apps/office/src/gap_buffer.rs:49-55 | moves the cursor and keeps the text |
| `GapBuffer.Buffer.MoveCursorRight` | apps/office/src/gap_buffer.rs:57-64 | moves the cursor and keeps the text |
| `GapBuffer.Buffer.Perform` | apps/office/src/gap_buffer.rs:27-64 | every run of edits refines the same edits on a text with a cursor |
| `GapBuffer.Buffer.CopyToSlice` | apps/office/src/gap_buffer.rs:66-80 | writes the longest prefix that fits and nothing else |
| `GapBuffer.TypingInserts` | apps/office/src/gap_buffer.rs:27-35 | typing a word inserts it at the cursor |
| `GapBuffer.TypeThenErase` | apps/office/src/gap_buffer.rs:27-41 | erasing as many characters undoes it |
| `GapBuffer.MovesAndDeletes` | apps/office/src/gap_buffer.rs:27-64 | moves undo each other, deleting forwards is moving and deleting backwards, and the ends and the capacity of 65536 stop them |
| `DocxCode.U16ToStr` | apps/office/src/docx.rs:211-223 | the decimal digits of the number |
| `DocxCode.GenerateXml` | apps/office/src/docx.rs:125-205 | the nested loops write the document of the text and its runs; a build with overflow checks stops exactly when a size cannot be doubled |
| `DocxMarkup.DocumentNests` | apps/office/src/docx.rs:125-205 | every saved document is well nested, each element where the format has it, with text in text elements only |
| `DocxMarkup.EscapedIsSafe` | apps/office/src/docx.rs:183-191 | escaped text has no angle brackets |
| `DocxMarkup.HeaderIs` | apps/office/src/docx.rs:126-128 | the opening of every document |
| `DocxMarkup.RunIs` | apps/office/src/docx.rs:156-194 | the markup of a run, its white space to be kept |
| `DocxMarkup.PropsAre` | apps/office/src/docx.rs:158-178 | the properties of a run: those that are not as by default |
| `DocxMarkup.UnstyledRun` | apps/office/src/docx.rs:140-156 | text that no span has is written as one run without properties |
| `DocxCode.UnescapeText` | apps/office/src/docx.rs:317-338 | the unescaping loop, with the out-of-range look-ahead as an outcome |
| `DocxCode.ReadSizeValue` | apps/office/src/docx.rs:289-304 | the first w:val of the tag, if it is a 16-bit number |
| `DocxCode.ParseXml` | apps/office/src/docx.rs:259-359 | the tag loop computes the recursive reading on every input |
| `DocxMarkup.OutsideIsSkipped` | apps/office/src/docx.rs:354-358 | bytes outside tags and text elements are skipped |
| `DocxMarkup.UnknownIsSkipped` | apps/office/src/docx.rs:276-356 | every other tag is skipped |
| `DocxMarkup.MarksMayHaveAttributes` | apps/office/src/docx.rs:283-286 | bold and italic tags are read with any attributes |
| `DocxMarkup.SizesAreHalved` | apps/office/src/docx.rs:287-310 | a size is half the number of its attribute, and one that does not fit 16 bits is ignored |
| `DocxMarkup.TextElements` | apps/office/src/docx.rs:311-353 | every tag that starts as a text tag opens text up to its end, added with a span in the styles set so far |
| `DocxMarkup.PlainByDefault` | apps/office/src/docx.rs:259-263 | text in no run is plain, at size 16 |
| `DocxMarkup.UnclosedText` | apps/office/src/docx.rs:311-318 | text that is not closed runs out of range, unless fewer than five bytes follow |
| `DocxMarkup.LoneAmpersands` | apps/office/src/docx.rs:317-338 | text without entities is kept, or runs out of range exactly when an ampersand stands third or fourth from its end |
| `DocxMarkup.AmpersandExample` | apps/office/src/docx.rs:317-338 | three short texts, one of which cannot be opened |
| `DocxRoundTrip.UnescapeOfEscape` | apps/office/src/docx.rs:183-191 | unescaping an escaped run gives it back if and only if it does not end in < or >; else the look-ahead leaves the slice |
| `DocxRoundTrip.SizeRoundTrip` | apps/office/src/docx.rs:289-304 | a written size tag is read back |
| `DocxRoundTrip.SaveThenOpen` | apps/office/src/docx.rs:105-360 | opening a saved document gives the text and one newline, unless some run ends in an angle bracket, and then always runs out of range |
| `DocxRoundTrip.AngleExample` | apps/office/src/docx.rs:321-321 | the text a< cannot be reopened |
| `DocxRoundTrip.OpenedStyle` | apps/office/src/docx.rs:340-349 | the style every reopened character looks up, for all span lists |
| `DocxRoundTrip.StylesSurvive` | apps/office/src/docx.rs:340-349 | with disjoint spans over the text a character keeps its style if and only if its size is below 32768 |
| `DocxRoundTrip.TallExample` | apps/office/src/docx.rs:167-173 | a size of 32768 comes back as 0 |
| `DocxRoundTrip.LargeExactly` | apps/office/src/docx.rs:167-173 | a build with overflow checks stops exactly when some character of the text has a size from 32768, that is when a style would not survive |
| `DocxZip.ZipWriter.AddFile` | apps/office/src/docx.rs:29-79 | adds a file: the output holds all files one after the other, and the directory a record of each with its place |
| `DocxZip.ZipWriter.Finish` | apps/office/src/docx.rs:81-101 | the output is the archive of the files added |
| `ZipFormat.ArchiveReads` | apps/office/src/docx.rs:29-101 | a reader that starts from the end record, follows the directory and checks every local header against it finds exactly the files written, for every list of files within the 16- and 32-bit limits |
| `DocxZip.GenerateDocx` | apps/office/src/docx.rs:105-209 | the output buffer holds the three-part archive; a build with overflow checks stops exactly when a size cannot be doubled |
| `DocxZip.FindXmlInZip` | apps/office/src/docx.rs:226-249 | the header-hopping search computes the recursive one on every input |
| `ZipFormat.FindInAny` | apps/office/src/docx.rs:226-249 | a file of any archive, whatever else is in its header or extra field, is found if it has the name and skipped if not |
| `ZipFormat.FindSkips` | apps/office/src/docx.rs:226-249 | bytes between files are skipped up to the next signature |
| `ZipFormat.FindNothingCut` | apps/office/src/docx.rs:226-249 | a file whose data is cut off is not returned, nor anything behind it |
| `ZipFormat.FindInArchive` | apps/office/src/docx.rs:226-249 | in an archive that has the document, the search and the directory find the same |
| `DocxZip.FindInDocx` | apps/office/src/docx.rs:226-249 | in a generated archive the search finds the document part, and a reader of archives finds the three parts by name |
| `DocxZip.SavedDocumentOpens` | apps/office/src/docx.rs:105-360 | the whole save and open through the archive, both outcomes |
| `DocxZip.ParseDocx` | apps/office/src/docx.rs:252-360 | search and reading together |
| `BrowserIpc.Ipc.PushCmd` | kernel/src/apps/browser_ipc.rs:167-173 | appends, dropping the oldest of 32; nothing for a tab that does not exist |
| `BrowserIpc.Ipc.PopCmd` | kernel/src/apps/browser_ipc.rs:175-178 | removes the oldest |
| `BrowserIpc.Ipc.PushEvent` | kernel/src/apps/browser_ipc.rs:181-187 | as for commands |
| `BrowserIpc.Ipc.PopEvent` | kernel/src/apps/browser_ipc.rs:189-192 | as for commands |
| `BrowserIpc.Ipc.DrainEvents` | kernel/src/apps/browser_ipc.rs:194-201 | returns all waiting events in order and empties the queue |
| `BrowserIpc.Ipc.StoreResponse` | kernel/src/apps/browser_ipc.rs:205-209 | replaces the body of its tab |
| `BrowserIpc.Ipc.TakeResponse` | kernel/src/apps/browser_ipc.rs:212-215 | returns the body and empties the slot |
| `BrowserSandbox.OriginIsPrefix` | kernel/src/apps/browser_sandbox.rs:99-106 | the origin of a web address is a prefix of it that ends at the end or before a slash |
| `BrowserSandbox.AllowedIsFetchable` | kernel/src/apps/browser_sandbox.rs:72-97 | an address the check lets through to a fetch is a web address, encrypted where the policy says so, and under a listed origin where there is a list |
| `BrowserSandbox.AllowedExactly` | kernel/src/apps/browser_sandbox.rs:72-97 | the check, both ways: exactly the browser's own pages and the web addresses that meet the policy and are under a listed origin are let through |
| `BrowserSandbox.OriginIsOnly` | kernel/src/apps/browser_sandbox.rs:99-106 | a web address has one origin: its scheme and what follows up to the first slash |
| `BrowserSandbox.DefaultAllowsWeb` | kernel/src/apps/browser_sandbox.rs:40-58 | a new tab may load every web address |
| `BrowserSandbox.CappedIsLongestPrefix` | kernel/src/apps/browser_sandbox.rs:196-204 | what is kept of a page is all of it, or as much as the cap allows |
| `BrowserSandbox.DefaultKeeps` | kernel/src/apps/browser_sandbox.rs:40-49 | a new tab keeps eight mebibytes of a page |
| `BrowserSandbox.TabRenderer.HandleCmd` | kernel/src/apps/browser_sandbox.rs:126-146 | the calls a command makes on the bus are those of its plan, in order |
| `BrowserSandbox.TabRenderer.NavigateTo` | kernel/src/apps/browser_sandbox.rs:148-178 | so for navigation, blocked and local addresses included |
| `BrowserSandbox.TabRenderer.FetchAndStore` | kernel/src/apps/browser_sandbox.rs:180-236 | so for a fetch, whatever the network gives |
| `BrowserRuns.StepActsOnOneTab` | kernel/src/apps/browser_ipc.rs:167-215 | a step changes only the tab it names |
| `BrowserRuns.NoOtherTabs` | kernel/src/apps/browser_ipc.rs:167-215 | there are eight tabs, and a step for another does nothing |
| `BrowserRuns.TabsAreIsolated` | kernel/src/apps/browser_ipc.rs:167-215 | over every run, removing the steps of other tabs changes nothing for a tab |
| `BrowserProtocol.PlanKeepsProtocol` | kernel/src/apps/browser_sandbox.rs:126-236 | every plan announces an address, starts, reports rising progress and the security of that address, stores one proper body for it, and ends with its status at 100 percent, or with its error told; or loads nothing |
| `BrowserRuns.EveryRunIsSound` | kernel/src/apps/browser_sandbox.rs:240-253 | over every interleaving: a queue holds at most 32 entries and has lost, always the oldest, exactly as many as were pushed onto it when full; each side receives in order and nothing twice; bodies are lost only by being overwritten; the calls made are those of the commands obeyed, none after a shutdown; the loading protocol is never broken |
| `BrowserRuns.CalmRunsLoseNothing` | kernel/src/apps/browser_ipc.rs:167-215 | in a run that never pushes onto a full queue nor overwrites a body, every command, event and body was received in order or is still waiting |
| `BrowserRuns.EveryStoredBodyIsProper` | kernel/src/apps/browser_sandbox.rs:180-236 | over every interleaving: each stored body is for an allowed address of its own tab and within the size cap |
| `BrowserPages.EveryLoadIsAnswered` | kernel/src/apps/browser_sandbox.rs:126-236 | over every interleaving: each allowed load that a command asked for is announced, in order, answered with the status and the longest fitting part of the body that the network gave for it, or with its error, and concluded; so is each stop |
| `BrowserPages.EveryBodyAnswers` | kernel/src/apps/browser_sandbox.rs:180-236 | so every stored body answers such a load |
| `BrowserPages.BlockedSaysWhy` | kernel/src/apps/browser_sandbox.rs:148-160 | a blocked command only says so, with a reason |
| `BrowserProtocol.StoredBeforeDone` | kernel/src/apps/browser_sandbox.rs:180-236 | the first completion after a fetched address was announced carries the status of a body of that address stored in between |
| `LineFlush.SplitWords` | kernel/src/apps/browser_render.rs:1287-1308 | the byte loop cuts the text into words with every separator on its own |
| `LineBreak.WordsJoin` | kernel/src/apps/browser_render.rs:1287-1308 | the words join to the text and none is empty |
| `LinePaint.WordsAreWords` | kernel/src/apps/browser_render.rs:1287-1308 | every word is one separator or free of them, and no two words without a separator are neighbours |
| `LinePaint.WordsAreUnique` | kernel/src/apps/browser_render.rs:1287-1308 | no other words join to the text |
| `LinePaint.WhiteExactly` | kernel/src/apps/browser_render.rs:926-929 | what is trimmed is exactly the white space of the Unicode Standard |
| `LineFlow.NarrowNeverEnds` | kernel/src/apps/browser_render.rs:890-896 | with less than a character of width, the loop that breaks a word never shortens it |
| `LineFlow.NarrowExample` | kernel/src/apps/browser_render.rs:890-896 | one letter on a line seven pixels wide |
| `LineFlow.WideEnds` | kernel/src/apps/browser_render.rs:890-911 | otherwise it ends within one turn per character |
| `LineFlow.BreakEndsExactly` | kernel/src/apps/browser_render.rs:888-911 | on a word that is too wide, some number of turns ends the breaking loop if and only if the width holds a character |
| `LineFlow.RoomExactly` | kernel/src/apps/browser_render.rs:851-921 | the breaking loop ends on every word of the runs that gets to it if and only if the width holds a character of every run that has text |
| `LineFlush.Layout.EmitLine` | kernel/src/apps/browser_render.rs:923-948 | paints the pieces from the indent on, trimming white space while nothing is painted, bold twice, and moves down by the height |
| `LineFlush.Layout.ChopWord` | kernel/src/apps/browser_render.rs:888-911 | fills one line with each part of a word that is too wide; fails exactly when no number of turns of the breaking loop ends it |
| `LineFlush.Layout.PlaceRun` | kernel/src/apps/browser_render.rs:874-917 | puts the words of a run onto the lines as the flow of the run says; fails exactly when the breaking loop does not end on one of them |
| `LineFlush.Layout.FlushInline` | kernel/src/apps/browser_render.rs:851-921 | ends if and only if the runs are blank or the breaking loop ends on all their words; then the new commands are those of the lines of the runs: they show the visible characters of the runs, in order and in their styles, within the width (and a pixel for bold) and on lines below one another |
| `LineFlow.LinesAreLayout` | kernel/src/apps/browser_render.rs:874-917 | those lines hold the pieces of the runs in order, within the width, each as full as it can be and high enough |
| `LineFlow.HeightsAreNatural` | kernel/src/apps/browser_render.rs:872-886 | every line is as high as a piece on it, as the piece that did not fit on it any more, or as a run without text; only the first may be 16 pixels high for none of these |
| `LineBreak.LayoutIsUnique` | kernel/src/apps/browser_render.rs:874-917 | no other lines of pieces are within the width, greedy and complete |
| `LineBreak.PaintingKeepsText` | kernel/src/apps/browser_render.rs:851-948 | the visible characters painted are those of the runs, in order and with their styles |
| `LineBreak.PaintingFits` | kernel/src/apps/browser_render.rs:851-948 | every stroke stays within the width, and lines do not overlap |
| `LinePaint.CommandsShow` | kernel/src/apps/browser_render.rs:931-945 | from the commands alone the strokes can be told: one command each, at its place with its text, colour and scale, and one more a pixel to the right exactly for bold |
| `LinePaint.LineShowsText` | kernel/src/apps/browser_render.rs:923-948 | a line shows the whole text of its pieces from the indent on and without a gap, but for the white space at its start |
| `LinePaint.FlushDraws` | kernel/src/apps/browser_render.rs:851-948 | the commands of the lines of runs show the visible characters of the runs and stay within the page |
| `Calculator.ParseOfShow` | kernel/src/apps/calculator.rs:194-206 | reading a shown number gives it back, except that the least comes back one greater |
| `Calculator.QuotientRoundsToZero` | kernel/src/apps/calculator.rs:180-182 | the remainder of a division is smaller than the divisor and has the sign of the dividend |
| `Calculator.QuotientIsUnique` | kernel/src/apps/calculator.rs:180-182 | no other quotient does that |
| `Calculator.ApplyMeans` | kernel/src/apps/calculator.rs:176-184 | each operator: the exact result where it fits 64 bits, else the nearer bound; division rounded to zero, and zero by zero |
| `Calculator.TypingDigits` | kernel/src/apps/calculator.rs:135-153 | whatever digits are typed, the display shows the first fifteen without leading zeros |
| `Calculator.PressKeepsSound` | kernel/src/apps/calculator.rs:134-170 | every key keeps: a display that reads -1 means the accumulator is -1 |
| `Calculator.NoRunOverflows` | kernel/src/apps/calculator.rs:173-191 | over every key sequence the least integer is never divided by -1 |
| `Calculator.ChainShowsFold` | kernel/src/apps/calculator.rs:134-206 | typing n1 op n2 ... nk = shows the left-to-right result; numbers may be of any length, and an operator without a number applies to the number shown |
| `Calculator.ClearedShowsFold` | kernel/src/apps/calculator.rs:134-206 | so it is after the clear key, from every state |
| `Calculator.ClearShowsZero` | kernel/src/apps/calculator.rs:162-167 | the clear key shows zero, from every state |
| `Calculator.OtherKeysDoNothing` | kernel/src/apps/calculator.rs:168-168 | keys other than the sixteen do nothing in any sequence |
| `Calculator.ContinueShowsFold` | kernel/src/apps/calculator.rs:134-206 | going on after = calculates from the number shown, as it is read back |
| `Calculator.ContinuesExactly` | kernel/src/apps/calculator.rs:134-206 | every continuation calculates from the result itself if and only if that is not the least integer |
| `Calculator.LeastByKeys` | kernel/src/apps/calculator.rs:134-206 | keys that reach the least integer, and +0= then showing one more |
| `Calculator.Calc.HandleButton` | kernel/src/apps/calculator.rs:134-170 | a key press does what the machine does |
| `Calculator.Calc.EvaluatePending` | kernel/src/apps/calculator.rs:173-191 | the pending operation, with its one overflowing division shown unreachable |
| `Calculator.ParseDisplay` | kernel/src/apps/calculator.rs:194-206 | the saturating digit loop |

## Left out

- JPEG decoding and PNG sample extraction: fixed-point approximations and simplified addressing without a specification to meet.
- The PNG chunk loop and the zlib wrapper around inflate: they pick out slices by length fields and check a two-byte header, one branch each; the laws of the data inside do not depend on them.
- The rest of the image viewer beyond the quarter turn (scaling, cropping, grey, inversion): each is one formula per pixel, with no law that spans operations.
- Inflate.DeflateDecompress: follows a build without overflow checks through a given number of wrapped bit counts, because such a build could wrap again and again without end; `InflateWraps.DecompressMore` says that the number does not matter once the stream ends.
- HuffTree.BitReader.Decode: speaks of lists of at most 4095 lengths, because a larger symbol index does not fit the 16-bit table entry; the decoder builds no larger list.
- HuffTree.FromLengths: lengths are at most 15, as every list the decoder builds is; the 32-bit code counter of the source cannot overflow there.
- SmartPack floats are carried as their bit patterns, and strings as bytes with UTF-8 validity as the standard states it.
- The borrowed readers decode_str_ref and decode_bin_ref: the same headers and slices as decode_value.
- SmartDb::get, file descriptors and I/O errors: the database file is a byte sequence; a write is taken to be whole.
- Unicode: the source does no canonical reordering, so the laws are those of its own two forms, for its own table of 107 rows.
- DocxZip.GenerateDocx: the two fixed parts of the archive are parameters, since only their lengths matter to the search; the output buffer must be large enough, as the slice copies demand.
- Bytes of documents are modelled as characters up to U+00FF, so that tags can be written as text.
- The browser's permission table, the scheduler, serial output and the HTTP client: the result of a fetch is an arbitrary value.
- BrowserRuns.EveryRunIsSound: the renderer loop runs for ever in the source; it is modelled by its steps, so nothing is said about when a step happens.
- LineFlush.Layout.FlushInline: coordinates and widths are unbounded integers, because 32-bit overflow needs texts of hundreds of millions of characters; words are cut by characters where the source cuts by bytes at ASCII separators, which is the same.
- The rest of the page renderer (blocks, flex, grid, positioning, images): floating-point layout over a document tree that is not part of this model.
- The calculator's window, its redraw flag and button geometry.
- Windows, drawing, file system, network stack, scheduler, allocators, AI heuristics, spreadsheet, package wrapper, locale and cookie code.
