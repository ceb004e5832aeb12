# Verified models of the PDF codecs, ciphers and graph structures

A Dafny model of the hand-written core of a PDF analysis library: its byte codecs, the password checks of the
standard security handler, two binary container walkers, and its document graph, query and XFA tree code.
Every modelled loop of the source is a Dafny loop proved equal to a specification function; the theorems are about those
functions. Paths below are relative to the root of the library.

| file | models |
|---|---|
| `RunLength.dfy` | RunLength encoder and decoder |
| `Lzw.dfy` | LZW encoder, its codes against the decoder of ISO 32000-1 |
| `LzwWidths.dfy` | its code widths as written, against the standard's, and read back from packed bits |
| `Ascii85.dfy` | ASCII85 decoder against the encoding of ISO 32000-1 |
| `Base64.dfy` | the encoder of one file against the decoder of another |
| `Predictor.dfy` | PNG and TIFF predictors against the filters of RFC 2083 |
| `Pipeline.dfy` | chains of filters under output and expansion limits |
| `Rc4.dfy`, `Password.dfy` | both RC4 implementations, the O and U entries, both password validators |
| `TiffComponents.dfy` | differences of components, as TIFF 6.0 defines them, under the bytewise decoder |
| `CcittBits.dfy`, `CcittCodes.dfy`, `CcittRuns.dfy` | the CCITT bit reader as one position in a bit stream, and the mode and run codes read through it, with their tables |
| `CcittRows.dfy` | row painting, changing elements, what a list of modes paints |
| `CcittScan.dfy`, `CcittLines.dfy` | two- and one-dimensional rows read from the data |
| `CcittCoding.dfy` | the coding procedure of ITU-T T.6, and the elements the decoder finds |
| `CcittModes.dfy`, `CcittExact.dfy`, `CcittAhead.dfy`, `CcittExamples.dfy` | which coded rows come back: sufficiency, necessity in two cases, inputs |
| `CcittPage.dfy`, `CcittEnds.dfy` | Group 4 pages from the data to the bytes, and where a page ends |
| `Jbig2Segments.dfy` | the JBIG2 segment walk against the layout of ITU-T T.88 |
| `BitmapSink.dfy` | the packed bitmap sink |
| `Jp2Boxes.dfy` | the JP2 box walker against the layout of ISO/IEC 15444-1 |
| `XfaTree.dfy` | the XML stack machine and the script count |
| `AstGraph.dfy`, `Query.dfy` | the document graph with its indexes and cached lists, and the set-forming selectors |
| `Bits.dfy` | bytes, results, binary digits |

Three shapes of proof recur. A codec's decoder is shown to invert an encoder written from the standard (or found in
the library), and where possible to accept nothing else. A parser is specified by its writer: reading returns an item
if and only if the bytes are that item written, so "accepted" means "is a serialisation". A mutable structure is
specified by the value it stands for (a bit position, a string of pixels, a graph), and each method states the new value.

Bytes are integers 0 to 255, machine words are integers with explicit bounds, and `|`, `^` and bit tests are defined on
binary digits. Errors are kept by kind, without their messages. MD5 is any function to 16 bytes, the filters decoded by
external crates are a parameter, and the XML reader is replaced by the events it delivers. Where a bounds check of the
source's own would stop the program, the model returns the result `Panic`, so that its exact condition can be stated.

## Where the code departs from what one would expect

Each is stated as an exact condition, most together with an input that shows it.

- The row loop of the two-dimensional CCITT decoder looks for any change of colour right of a0 where ITU-T T.6 wants a
  change to the colour opposite to a0's, and misses a change at pixel 0, so a row coded by T.6 comes back under an exact
  condition only (`CcittCoding.FindsExactly`, `CcittAhead.RowExactly`, `CcittExamples.WrongColourLost`, `CcittRows.CopyExactly`).
- Its pass arm moves on without painting, so black pixels under a pass mode are lost
  (`CcittAhead.RowExactly`, `CcittExamples.BlackPassLost`).
- A Group 4 page without a row count almost never ends where it should. Every lookup claims its whole window of bits, so
  the reader reports the end after a page only if the data end exactly with a code word of seven bits; otherwise the
  loop goes on and appends rows, white ones where the data are padded with zeros (`CcittEnds.DecodeCodedPage`,
  `CcittEnds.EndExactly`, `CcittEnds.DecodePaddedPage`, `CcittExamples.RowAppended`).
- With end-of-line codes in use a CCITT row that starts black is taken for an end marker and comes out white
  (`CcittLines.LineExactly`).
- Aligning the CCITT bit reader after a peek past the end can leave it inside a byte
  (`CcittBits.BitReader.AlignByte`, `CcittBits.AlignInsideByte`).
- The LZW encoder widens its codes two entries before the standard does
  (`LzwWidths.StandardWidthsExactly`, `LzwWidths.AscendingNotStandard`), and when the last code just fills a width it writes
  the End code one bit narrower than its own rule has it (`LzwWidths.ReadBackExactly`).
- The RunLength decoder accepts an input without an end byte if its last byte, which may be data, is 128
  (`RunLength.DecodeExactly`).
- The TIFF predictor indexes past a row that is not whole pixels (`Predictor.DecodeTiffPredictor`, `Predictor.TiffPanic`).
- It adds bytes where a TIFF coder subtracts components: sixteen-bit components come back only if no difference borrows
  from its high byte, and smaller ones than a byte do not (`TiffComponents.WideExactly`, `TiffComponents.HalvesLost`).
- Entity and character references in XFA text are dropped, and the blanks next to them trimmed
  (`XfaTree.ReferencesLost`, `XfaTree.AmpersandLost`).
- JBIG2 validation slices past a sequential file that is cut off in its page count
  (`Jbig2Segments.PanicsExactly`, `Jbig2Segments.CutFilePanics`).
- From revision 3 on a key of 136 bits or more makes the password validators slice past the 16-byte digest
  (`Password.ValidateUserPassword`, `Password.OwnerPanics`, `Password.LongKeyPanics`).
- A password of 1 to 31 bytes is padded with the wrong end of the padding string (`Password.PadExactly`).
- `rc4_encrypt` divides by zero on an empty key, where `rc4_cipher` reports an error (`Rc4.Rc4Encrypt`, `Rc4.Rc4Cipher`).
- The ASCII85 decoder takes `z` inside a group, ahead of the digits before it, and a lone last digit
  (`Ascii85.ZeroOvertakes`, `Ascii85.LoneDigit`).
- A bitmap chunk of 2^29 bytes or more that starts off a byte boundary is cut short (`BitmapSink.ChunkExactly`).
- `add_node` with a known id or with cached links breaks the agreement of index, edges and caches
  (`AstGraph.AddNodeExactly`).
- The complement of an empty union selects every node, the intersection of no complements none (`Query.DeMorgan`).

## Model

| member | source | states |
|---|---|---|
| CcittAhead.RowExactly | src/filters/ccitt.rs:320-379 | row theorem: a row coded by ITU-T T.6 against any reference row comes back from its own modes alone, painted exactly and with no mode left over, if and only if the decoder can follow the coder (it finds b1 and b2 at every pass and vertical mode, and meets no pass mode in black), or the row is white and the reference row starts and ends black |
| CcittModes.FollowedDecodes | src/filters/ccitt.rs:328-376 | the first half, from any pixel of the row: a decoder that can follow the coder paints exactly the rest of the row and uses up its modes |
| CcittExact.Forced | src/filters/ccitt.rs:328-376 | the converse, for a decoder not ahead of the coder: if it gets the rest of the row right it is in step with the coder, or in white with no change between them, and follows it to the end |
| CcittAhead.NeverBack | src/filters/ccitt.rs:328-376 | a decoder already beyond the first black pixel can still paint it only if its later intervals are two fewer than the runs the coder has left |
| CcittAhead.FewSpans | src/filters/ccitt.rs:328-376 | from wherever the decoder stands, the modes of the rest of a row paint no more intervals than the rest has runs |
| CcittAhead.ManySpans | src/filters/ccitt.rs:328-376 | painting all later runs of a row and nothing white takes as many intervals as there are runs |
| CcittAhead.StartAhead | src/filters/ccitt.rs:328-376 | against a reference row that starts black, a row with a black pixel whose first mode is pass or vertical never comes back |
| CcittAhead.WhiteStart | src/filters/ccitt.rs:328-376 | a white row against a reference row that starts black comes out white, and without a mode left over exactly when the reference row also ends black |
| CcittCoding.FindsExactly | src/filters/ccitt.rs:656-664 | `next_b1_b2` finds the b1 and b2 of T.6 if and only if its b1 is the end of the row or has the colour opposite to a0's, and at the start of the row if and only if the reference row starts white |
| CcittCoding.StandardElements | src/filters/ccitt.rs:656-664 | the b1 and b2 compared with are those of T.6: the least change to the opposite colour right of a0, with an imaginary white pixel before the first, and the next change after it |
| CcittCoding.DecoderElements | src/filters/ccitt.rs:632-664 | what the decoder finds instead: the next two changes of colour beyond a0, whatever their colour |
| CcittExamples.WrongColourLost | src/filters/ccitt.rs:656-664 | a row that fails by colour: 0111 0000 against 0011 0000 is coded VL1, V0, V0 with no pass mode; one pixel is painted and the row is not finished |
| CcittExamples.BlackPassLost | src/filters/ccitt.rs:333-335 | a row that fails by a pass: 0111 1111 against 0110 0110 is coded V0, pass, VR1; every b1 and b2 is found, and four of seven black pixels are lost |
| CcittPage.PageExactly | src/filters/ccitt.rs:422-469 | page theorem, from the data on: data that starts with a page coded row by row by T.6, whatever follows, is decoded row by row, each from its own codes to its own bytes, if and only if every row meets the condition of the row theorem; the page then comes first and undamaged, and it is all there is if and only if the row count is given or the reader reports the end right after its codes |
| CcittEnds.DecodeCodedPage | src/filters/ccitt.rs:422-469 | end to end, bytes to bytes: such a page, with anything after its codes and whatever damage is tolerated, is returned if and only if it fits the limit and either the row count is given or its codes end with the data; what is returned then shows every pixel of every row at its place, a set bit standing for black or for white as asked |
| CcittEnds.EndExactly | src/filters/ccitt.rs:717-743 | the reader reports the end after the page if and only if the codes end with the data and no lookup has reached beyond it, which takes a last code word of seven bits |
| CcittEnds.DecodePaddedPage | src/filters/ccitt.rs:422-469 | without a row count, a page followed by nothing but zeros is returned with white rows below it, exactly one for every seven bits, or part of seven, that the reader has claimed and not used; every pixel of both is shown at its place |
| CcittEnds.PaddingSteps | src/filters/ccitt.rs:422-469 | after the page each row of zeros is an end-of-line code of seven bits, a white row and no damage |
| CcittExamples.RowAppended | src/filters/ccitt.rs:422-469 | the byte 1000 0000, one row of eight white pixels, comes back without a row count as two rows |
| CcittExamples.RowsAlone | src/filters/ccitt.rs:422-469 | three rows whose codes fill two bytes and end in a code word of seven bits come back without a row count |
| CcittEnds.WhitePage | src/filters/ccitt.rs:422-469 | white pages of any size meet the condition of the row theorem, at one V0 code a row |
| CcittPage.KeptSoFar | src/filters/ccitt.rs:422-469 | before such a page is through nothing is damaged, and the next row decodes |
| CcittPage.StepsExactly | src/filters/ccitt.rs:422-469 | the first rows of a page are decoded from their own codes if and only if they are kept; the reader then stands where their codes end, having looked at their windows |
| CcittPage.RowInData | src/filters/ccitt.rs:439-444 | a row decoded from data that holds its codes takes just its codes and gives its own bytes if and only if it comes back from its modes alone |
| CcittPage.DecodePage | src/filters/ccitt.rs:422-469 | the page loop on the bit reader, with row count, end of data, damaged-row tolerance, output limit and inversion: a result means every row decoded against the one before it from where that one stopped, at most the tolerated number damaged, the page within the limit, and every pixel of row k at bit 7 - p % 8 of byte k * width + p / 8, opposite if black is 0; no result means that the next row breaks one of the two bounds |
| CcittPage.RowUsesUp | src/filters/ccitt.rs:439-466 | the page loop ends: a row uses up data, or bits that the reader has claimed beyond it |
| CcittPage.DecodePageRow | src/filters/ccitt.rs:439-444 | one row on a white buffer: what it paints, whether it decodes, and where the reader is left |
| CcittPage.EqualRows | src/filters/ccitt.rs:622-630 | the pixels of a row determine its bytes |
| CcittPage.InvertBits | src/filters/ccitt.rs:616-620 | every pixel of every byte changes its colour, and their number stays |
| CcittPage.ShownDisplays | src/filters/ccitt.rs:464-468 | the rows are returned in order, each at its own bytes, pixel for pixel as they are or all of them opposite |
| CcittScan.RowReads | src/filters/ccitt.rs:471-529 | coded modes that stand in the data are read as themselves, whatever follows: if they finish the row, it paints what they say and the reader moves just past their bits; if not, the row fails or reads beyond them |
| CcittScan.DecodeRow | src/filters/ccitt.rs:320-379 | the row loop on the bit reader, arm by arm, paints exactly the intervals that the codes stand for, leaves every other pixel alone, fails exactly when they do, and leaves the reader where they end |
| CcittScan.RowForward | src/filters/ccitt.rs:471-529 | on any data a row moves the reader forward, and a row that is not finished moves it on if it can |
| CcittScan.CodeAdvances | src/filters/ccitt.rs:542-558 | past the end of the data there are only end-of-line codes, so every other code uses up data and the row loop ends |
| CcittScan.ModeReads | src/filters/ccitt.rs:542-566 | a mode code and the two runs of a horizontal mode are read back from the data that holds them |
| CcittScan.ModesLeaveBits | src/filters/ccitt.rs:717-743 | reading the codes of a row leaves bits that were looked at and not used, unless the last code word has seven bits |
| CcittRuns.WordsSpelled | src/filters/ccitt_tables.rs:652-62096 | the two run tables hold every terminating and make-up code of tables 2 and 3 of T.4: its bits lead to its run, and a terminating code is shorter than the lookup |
| CcittRuns.WordsOneWay | src/filters/ccitt_tables.rs:652-62096 | no code word of a table begins another |
| CcittRuns.TableIsFront | src/filters/ccitt.rs:598-614 | indexing a table by the value of some bits finds the code word at their front, whatever follows it |
| CcittRuns.RunReads | src/filters/ccitt.rs:568-596 | round trip: a run of any length coded by T.4, with its make-up codes, is read back from the data that holds it, whatever follows |
| CcittRuns.DecodeRun | src/filters/ccitt.rs:568-596 | through the bit reader: make-up codes add up until a terminating code, anything else is an error, and the loop ends because a make-up code uses up data |
| CcittRuns.LookUpEntry | src/filters/ccitt.rs:598-614 | the entry for the next 12 or 13 bits, and the reader moves past the bits of its code word only |
| CcittRuns.RunLeavesBits | src/filters/ccitt.rs:598-614 | after a run the reader has looked at bits that it has not used |
| CcittLines.LineExactly | src/filters/ccitt.rs:294-318 | a row coded one-dimensionally by T.4, with anything after its codes, comes back byte for byte if and only if end-of-line codes are not in use or its first pixel is white; otherwise it comes back white with all but the empty run at its front unread |
| CcittLines.LineReads | src/filters/ccitt.rs:294-318 | the runs of such a row are read back, each in its colour, and the reader moves just past them |
| CcittLines.DecodeRow1d | src/filters/ccitt.rs:294-318 | the row loop on the bit reader, on any data: exactly the black runs read are painted, clipped to `columns`; it fails exactly when a run cannot be read, and an empty first run ends the row when end-of-line codes are in use |
| CcittBits.AtEndExactly | src/filters/ccitt.rs:741-743 | the reader reports the end exactly when its position is the end it has come to believe in: behind the data, or behind the last bit claimed beyond it |
| CcittCodes.TableExactly | src/filters/ccitt_tables.rs:9-650 | the table is right for all 128 values of seven bits: an entry names a mode, with its width, if and only if the bits start with the code word of that mode |
| CcittCodes.ReadMode | src/filters/ccitt.rs:542-558 | through the bit reader: returns the mode whose code word stands at the position and moves just past it, or reports the end of the data; after a code of fewer than seven bits the reader does not report the end |
| CcittCodes.ReadOneWay | src/filters/ccitt.rs:542-558 | two code words that stand at one place of the data are the same |
| CcittCodes.ReadModes | src/filters/ccitt.rs:542-558 | round trip: mode codes written one after the other, at any bit position, are read back as written |
| CcittRows.SpansInside | src/filters/ccitt.rs:341-376 | no mode list, however malformed, paints at or past `columns` |
| CcittRows.CopyExactly | src/filters/ccitt.rs:632-664 | a row of V0 modes is a copy of the reference row if and only if that row starts white; otherwise every pixel is exchanged, because the change at pixel 0 is not seen |
| CcittRows.PaintHorizontal | src/filters/ccitt.rs:336-358 | the horizontal arm blackens exactly the one of its two clipped runs that is black |
| CcittRows.SetBits | src/filters/ccitt.rs:622-630 | exactly the pixels of the interval that the row has become black; every other pixel keeps its colour |
| CcittRows.CollectChanges | src/filters/ccitt.rs:632-654 | returns the colour boundaries of the reference row, in order, and then `columns` |
| CcittRows.CollectedExactly | src/filters/ccitt.rs:632-654 | that list is strictly increasing, ends in `columns`, and contains exactly `columns` and the interior positions where a pixel differs from the one before |
| CcittRows.ChangesExactly | src/filters/ccitt.rs:632-654 | the boundaries below any position: strictly increasing, and exactly the places where the colour changes |
| CcittRows.ChangesDetermineRow | src/filters/ccitt.rs:632-654 | two rows with the same first pixel and the same boundaries have the same pixels |
| CcittRows.NextB1B2 | src/filters/ccitt.rs:656-664 | returns the first change beyond a0 and its successor, with a0 and b1 as fallbacks |
| CcittRows.NextExactly | src/filters/ccitt.rs:656-664 | for a0 before the end of the row: b1 is the least change beyond a0, b2 the next one or b1 itself at the end, and a0 < b1 <= b2 <= columns, so pass mode always advances |
| CcittBits.BitReader.constructor | src/filters/ccitt.rs:682-689 | a new reader stands at bit 0 |
| CcittBits.BitReader.EnsureBits | src/filters/ccitt.rs:717-732 | loading never moves the bit position and fails only at the end of the data; it leaves either no surplus and less than a byte too many, or exactly the claimed bits at the end of the data |
| CcittBits.BitReader.PeekBits | src/filters/ccitt.rs:702-710 | the value of the next bits of the stream, first bit lowest, zeros past the end; the position does not move |
| CcittBits.BitReader.ConsumeBits | src/filters/ccitt.rs:712-715 | moves the position past the bits that were available |
| CcittBits.BitReader.ReadBits | src/filters/ccitt.rs:696-700 | returns the next bits and moves exactly past them, or reports the end of the data and moves nowhere |
| CcittBits.BitReader.AlignByte | src/filters/ccitt.rs:734-739 | lands on a byte boundary if and only if the bits claimed beyond the data are whole bytes |
| CcittBits.AlignInsideByte | src/filters/ccitt.rs:717-739 | a run where it does not: after a peek past the end, aligning stops inside the only byte, and the next bit read is its bit 4 |
| CcittBits.LoadByte | src/filters/ccitt.rs:726-729 | or-ing a reversed byte above the available bits extends the value of the bit string by that byte |
| CcittBits.AccSplit | src/filters/ccitt.rs:702-715 | masking keeps the first bits of the accumulator, shifting drops them |
| CcittBits.ReadsCompose | src/filters/ccitt.rs:696-700 | reading in two pieces reads the same bits as reading at once |
| CcittBits.SyncToEol | src/filters/ccitt.rs:381-397 | stops right after the first end-of-line code (eleven or more zeros and a one) after the start, or at the end of the data if there is none |
| Lzw.EncodeLzw | src/compression/mod.rs:431-512 | the loop writes exactly the codes and widths of the specification run, whose every write is given by its place in `LzwWidths.WritesExactly`; the branch for an empty phrase and the missing-code errors are never taken |
| Lzw.FreshDictionary | src/compression/mod.rs:444-447 | the 256 single bytes, each under its own value |
| Lzw.RoundTrip | src/compression/mod.rs:453-505 | for every byte string the codes written decode to exactly that string by a decoder that rebuilds its table from the codes alone, with the code that is not yet in its table and the Clear of a full table |
| Lzw.RunInStep | src/compression/mod.rs:453-497 | after any prefix of the input, encoder and decoder are in step: the decoder knows every entry but the newest, and has output all but the current phrase |
| Lzw.StepKeeps | src/compression/mod.rs:453-497 | one byte keeps them in step |
| Lzw.PhraseDecodes | src/compression/mod.rs:461-466 | the code of the current phrase, known or one ahead of the decoder's table, decodes to that phrase |
| Lzw.DictionaryInvariant | src/compression/mod.rs:472-493 | after any input all codes are distinct, below `next_code`, and neither Clear nor End, and every prefix of a phrase is a phrase |
| Lzw.Greedy | src/compression/mod.rs:453-497 | a code is written exactly when phrase and next byte are not in the table: the code of the phrase, which the table then holds, extended, under the next free code, every other phrase staying; a full table is emptied to single bytes behind a Clear code |
| LzwWidths.WritesExactly | src/compression/mod.rs:449-505 | every write by its place: a Clear code every 3840 writes and nowhere else, each code in the width that the number of codes since the last Clear determines, and one End code, last, in the width of the code before it |
| LzwWidths.CodesFit | src/compression/mod.rs:449-505 | every code written, Clear and End included, fits the width it is written with, 9 to 12 bits |
| LzwWidths.ReadBackExactly | src/compression/mod.rs:431-512 | the writes packed into bits, most significant first, with anything after them: a reader that sets the width of each code by the number of codes since the last Clear gets the codes back, and from them the data, if and only if the End code is not one bit too narrow, which depends on the number of writes alone |
| LzwWidths.StandardWidthsExactly | src/compression/mod.rs:475-479 | every code written, Clear and End included, has the width in which a decoder of section 7.4.4.2 of ISO 32000-1 reads it if and only if at most 254 codes are written (255 without early change): the encoder widens two entries too soon |
| LzwWidths.ShortDataStandard | src/compression/mod.rs:475-479 | so data of at most 252 (253) bytes is written with the standard's widths |
| LzwWidths.AscendingNotStandard | src/compression/mod.rs:475-479 | and one byte more can be too much: the bytes 0, 1, 2, ... in order |
| LzwWidths.TwoBytesWritten | src/compression/mod.rs:449-505 | the bytes 65, 66 are written as Clear, 65, 66 and End, in nine bits each |
| RunLength.CompressRunLength | src/compression/mod.rs:283-333 | the nested loops emit exactly the specified chunks; the repeat branch of the literal loop (311-320) is unreachable, and the loops end |
| RunLength.DecodeRunLength | src/filters/mod.rs:437-487 | returns what the specified walk over chunks returns, with the same error in every failing case |
| RunLength.RoundTrip | src/filters/mod.rs:437-487 | decoding an encoded byte string returns it, whatever follows the end byte, if and only if the limit is at least its length; otherwise the limit error |
| RunLength.DecodeExactly | src/filters/mod.rs:437-487 | an input decodes to `out` if and only if it is a list of chunks meaning `out`, within the limit, up to an end byte or to the end of an input whose last byte is 128 |
| RunLength.DecodeChunks | src/filters/mod.rs:442-478 | decoding any chunk list, not only the encoder's, yields its meaning and goes on after it |
| RunLength.EncodedSizeBound | src/compression/mod.rs:287-333 | encoded length is at most n + (n + 2) / 3 + 1 |
| RunLength.CostBound | src/compression/mod.rs:287-330 | the same bound from any position the encoder reaches |
| RunLength.ShortLiteral | src/compression/mod.rs:303-325 | a literal shorter than 128 bytes ends the data or is followed by a run |
| RunLength.ChunkExactly | src/compression/mod.rs:287-330 | the chunk emitted at any position, in the data alone: a run if and only if the next two bytes are equal, up to the first other byte or 128; otherwise a literal with no two equal neighbours, up to the next two equal bytes or 128 |
| RunLength.DecodedSizeBound | src/filters/mod.rs:442-478 | decoded length is at most 64 times the input, and at most the limit |
| Rc4.Rc4Cipher | src/crypto/encryption.rs:611-643 | array indices modulo 256: an error exactly for the empty key, else the cipher function |
| Rc4.Rc4Encrypt | src/crypto/encryption.rs:990-1019 | wrapping byte arithmetic: the same cipher function for every key but the empty one, on which it stops with a division by zero |
| Rc4.CipherTwice | src/crypto/encryption.rs:989-1019 | applying the cipher twice with one key is the identity |
| Rc4.SchedulePermutes | src/crypto/encryption.rs:622-627 | the state is a permutation of 0..255 at every step of the key schedule |
| Rc4.GeneratedPermutes | src/crypto/encryption.rs:634-638 | and after every byte of output |
| Rc4.PermutationCovers | src/crypto/encryption.rs:616-638 | such a state holds every byte value at exactly one place |
| Rc4.KeystreamStep | src/crypto/encryption.rs:629-643 | the keystream byte by byte: which indices are reached, which two bytes of the permutation are exchanged, all others staying, and which byte comes out |
| Rc4.ScheduleExactly | src/crypto/encryption.rs:616-627 | the key schedule byte by byte: from the identity, where each key byte moves the index and which two bytes are exchanged, all others staying |
| Rc4.CipherBits | src/crypto/encryption.rs:639 | each bit of the data is flipped exactly where the keystream has a one |
| Password.FreshEntriesValidate | src/crypto/encryption.rs:757-846 | password theorem, for revisions 2 to 4 and any passwords: whenever O and then U can be computed, the user password validates as user and the owner password as owner, and so does any password that pads to the same 32 bytes |
| Password.BuiltExactly | src/crypto/encryption.rs:403-501 | O and U can be computed if and only if the key has at least 8 bits and, from revision 3 on, fewer than 136 |
| Password.OwnerPanics | src/crypto/encryption.rs:783-846 | validating an owner password stops on a slice if and only if the revision is 3 or 4, the key has 136 bits or more, and O has at least 32 bytes |
| Password.LongKeyPanics | src/crypto/encryption.rs:422-427 | such an input: revision 3 and a key of 256 bits |
| Password.FileKeyIgnoresUserKey | src/crypto/encryption.rs:403-433 | the file key does not depend on the U entry, so filling in U leaves it as it was |
| Password.ComputeKeyStandardWithPadded | src/crypto/encryption.rs:403-433 | the file key in bytes: MD5 of padding, O, four bytes that give the permissions with the least significant first, and file id, then from revision 3 on fifty digests of the first keyLength / 8 bytes, and the first keyLength / 8 bytes of the last, at most 16; it exists if and only if the revision is below 3 or the key below 136 bits |
| Password.ComputeKeyStandard | src/crypto/encryption.rs:392-401 | the file key of a user password, in bytes and on the same terms |
| Password.ValidateUserPassword | src/crypto/encryption.rs:757-780 | true if and only if the revision is 2 to 4, the key has 8 bits and from revision 3 on fewer than 136, and U is the recomputed entry (from revision 3 on, its first 16 bytes); stops on a slice if and only if the revision is 3 or 4 and the key has 136 bits or more |
| Password.ValidateOwnerPassword | src/crypto/encryption.rs:783-846 | true if and only if the same holds of the first 32 bytes recovered from O, of which there must be as many, on every input |
| Password.OwnerRecoversUser | src/crypto/encryption.rs:788-822 | decrypting O with the owner password, in one layer or twenty, yields the padded user password |
| Password.PeelUndoesLayers | src/crypto/encryption.rs:806-816 | any number of reversed RC4 layers undoes the forward ones |
| Password.PadIdempotent | src/crypto/encryption.rs:13-18 | padding a padded password changes nothing, and only the first 32 bytes of a password count |
| Password.ComputeOwnerKeyStandard | src/crypto/encryption.rs:436-468 | the O entry: one RC4 layer in revision 2, else twenty, and an error exactly when the key is empty |
| Password.ComputeUserKeyStandard | src/crypto/encryption.rs:470-501 | the U entry, in either form, with 16 zero bytes after the layered hash |
| Password.OwnerKeyIs | src/crypto/encryption.rs:436-452 | the key of the owner password: MD5 of its padding, from revision 3 on followed by fifty digests of whole digests, cut to the key length |
| Password.OwnerLayersAre | src/crypto/encryption.rs:453-468 | the O entry is the padded user password through one RC4 layer, or through twenty whose keys are the owner's with each byte exclusive-ored with 0 to 19; recovering goes through the same keys from 19 down |
| Password.UserEntryIs | src/crypto/encryption.rs:470-501 | the U entry: the padded password through one layer, or the digest of the padding string and file id through twenty, followed by 16 zeros |
| Password.MatchesExactly | src/crypto/encryption.rs:772-779 | the comparison both validators end with: all bytes in revision 2, the first 16 from revision 3 on |
| Password.PadExactly | src/crypto/encryption.rs:13-18 | byte by byte; it is the padding of section 7.6.3.3 of ISO 32000-1, which continues from the beginning of the padding string, if and only if the password is empty or has at least 32 bytes |
| Predictor.PngDecodesExactly | src/filters/predictor.rs:82-174 | the decoder returns `raw` if and only if the data is a filtering of `raw`, by section 6 of RFC 2083, with some known filter chosen for each row |
| Predictor.PngInverse | src/filters/predictor.rs:99-171 | for any rows, any filter per row and any row before them, decoding the filtered rows gives the rows back |
| Predictor.PngInverseBack | src/filters/predictor.rs:99-171 | decoding succeeds exactly when every tag is known, and filtering the result with the same tags gives the data back |
| Predictor.UnfilterFilter | src/filters/predictor.rs:104-158 | one row: decoding inverts filtering, for None, Sub, Up, Average and Paeth |
| Predictor.FilterUnfilter | src/filters/predictor.rs:104-158 | one row: filtering inverts decoding |
| Predictor.FilteredByte | src/filters/predictor.rs:104-158 | what each filter takes off a byte: nothing, the left one, the one above, half their sum rounded down, or the nearest of three to left plus above minus upper left |
| Predictor.FilteredRow | src/filters/predictor.rs:99-171 | row by row: the tag byte of row r and its filtered bytes stand at r * (n + 1), against row r - 1 |
| Predictor.TiffDecodesExactly | src/filters/predictor.rs:49-80 | the decoder returns `raw` if and only if no row is cut inside a pixel and the data is the row-wise, bytewise differences of `raw` |
| TiffComponents.WideExactly | src/filters/predictor.rs:49-80 | components of sixteen bits: rows differenced component by component, as TIFF 6.0 has it, are decoded back if and only if no difference borrows from its high byte |
| TiffComponents.WordsExactly | src/filters/predictor.rs:61-77 | the same for one row |
| TiffComponents.BytesExactly | src/filters/predictor.rs:61-77 | components of eight bits: the differences of TIFF 6.0 are the bytewise ones, and every row comes back |
| TiffComponents.WideLost | src/filters/predictor.rs:68-73 | a row of two sixteen-bit pixels that does not come back: 255 and 256 |
| TiffComponents.HalvesLost | src/filters/predictor.rs:61-77 | components of less than a byte: the four-bit pixels 1, 2, 3, 4 come back as 1, 1, 2, 2 |
| Predictor.TiffInverse | src/filters/predictor.rs:61-77 | decoding bytewise differenced rows of whole pixels gives the rows back |
| Predictor.TiffInverseBack | src/filters/predictor.rs:61-77 | bytewise differencing of decoded rows of whole pixels gives the data back |
| Predictor.WholePixels | src/filters/predictor.rs:49-80 | pixels of whole bytes, and pixels within one byte, never make the decoder index past a row |
| Predictor.TiffPanic | src/filters/predictor.rs:68-73 | an input on which the source indexes past a row: three components of four bits, three columns, five bytes |
| Predictor.DecodeTiffPixel | src/filters/predictor.rs:69-73 | one pixel: each byte plus the byte one pixel before; the index leaves the row exactly when the pixel does |
| Predictor.DecodeTiffRow | src/filters/predictor.rs:61-74 | one row equals unfiltering with Sub; the index leaves the row exactly when the row is not whole pixels |
| Predictor.DecodeTiffPredictor | src/filters/predictor.rs:49-80 | the row loop with every error; the source stops on an index exactly when there is a row and rows are not whole pixels |
| Predictor.DecodedLength | src/filters/predictor.rs:41-47 | accepted data keeps its length without a predictor or with TIFF, and loses one byte per row with PNG |
| Predictor.PaethNearest | src/filters/predictor.rs:215-228 | the predictor is the neighbour nearest to a + b - c, ties broken in the order a, b, c |
| Predictor.RowDimensions | src/filters/predictor.rs:176-212 | succeeds if and only if colours, bits and columns are all positive, and then a pixel is at least one byte and no longer than a row |
| Predictor.DimensionsExactly | src/filters/predictor.rs:176-212 | a pixel and a row take as many bytes as their bits need, and no more |
| Predictor.DecodeRow | src/filters/predictor.rs:104-167 | each arm, in place, computes the row that the one specification of unfiltering gives |
| Predictor.DecodePngPredictor | src/filters/predictor.rs:82-174 | the row loop over tag bytes and carried previous row, with every error case |
| Predictor.Decode | src/filters/predictor.rs:41-47 | the dispatch on the predictor type |
| Ascii85.RoundTrip | src/filters/mod.rs:168-225 | decoding the encoding of section 7.4.3 of ISO 32000-1 of any byte string, followed by the end mark and anything or by nothing, returns it when the limit has room and is refused with the limit error when not |
| Ascii85.RoundTripFrom | src/filters/mod.rs:172-222 | the same with any output already produced |
| Ascii85.DecodePartial | src/filters/mod.rs:212-222 | a final group of one to three bytes comes back exactly |
| Ascii85.DecodesExactly | src/filters/mod.rs:168-225 | an input is accepted if and only if, before the end mark and but for whitespace, it is digits and `z`, the digits five by five make 32-bit words (the last ones completed with 84), and the output fits the limit; and the exact size of that output |
| Ascii85.ZeroOvertakes | src/filters/mod.rs:181-189 | `z` inside a group is accepted, and its four zeros come out before the bytes of the group it interrupts |
| Ascii85.LoneDigit | src/filters/mod.rs:212-222 | a lone digit decodes to nothing, and is refused exactly from 82 on |
| Ascii85.TupleToU32 | src/filters/mod.rs:227-236 | returns the 32-bit word that has the five digits, and refuses exactly when there is none |
| Ascii85.PaddedSum | src/filters/mod.rs:214-215 | padding a final group with the digit 84 raises the word by less than one kept byte |
| Ascii85.KeptBytes | src/filters/mod.rs:216-222 | such a raise neither overflows 32 bits nor changes the kept bytes |
| Ascii85.WhitespaceIgnored | src/filters/mod.rs:172-175 | inputs that differ in whitespace only, valid or not, give the same result or the same error |
| Ascii85.WhitespaceIgnoredFrom | src/filters/mod.rs:172-175 | the same from any state of the loop |
| Ascii85.DecodeAscii85 | src/filters/mod.rs:168-225 | the loop and the final flush, with the same error in every failing case |
| Ascii85.ByteExactly | src/filters/mod.rs:172-209 | each of the 256 bytes: white space is skipped, `~` ends the data, `z` is four zeros, `!` to `u` are digits, the fifth of which makes a word, and any other byte is refused |
| Base64.RoundTrip | src/crypto/certificates.rs:1138-1169 | the decoder returns exactly what the encoder was given, over full groups and both remainders |
| Base64.DecodesExactly | src/crypto/certificates.rs:1138-1169 | text is accepted if and only if every character is `=` or in the alphabet, wherever it stands; then bit k of the output is bit k of the concatenated sextets of the other characters, as many whole bytes as they fill |
| Base64.GroupInverse | src/crypto/certificates.rs:1158-1166 | the three 8-bit shift expressions undo the four 6-bit ones, in full and short groups |
| Base64.PositionFindsLetter | src/crypto/certificates.rs:1149-1156 | the table search finds a letter at its one place and nothing else |
| Base64.Base64Encode | src/bin/pdf-ast.rs:1651-1690 | the chunk loop and the remainder produce the encoding of section 4 of RFC 4648 |
| Base64.DecodeBase64 | src/crypto/certificates.rs:1138-1169 | the chunk loop over the text without `=`, with the error for a foreign character |
| Base64.LettersAre | src/bin/pdf-ast.rs:1652 | the alphabet letter by letter |
| Base64.EncodedShape | src/bin/pdf-ast.rs:1656-1690 | four characters for every three bytes or part of three, and equals signs exactly behind the sextets that hold data |
| Jbig2Segments.WalkExactly | src/filters/jbig2.rs:83-187 | an input is accepted if and only if it is a list of well-formed segments, at most 65536, every page and region bitmap within the limit, end-of-file last if present, and page information among them if required |
| Jbig2Segments.ValidatedExactly | src/filters/jbig2.rs:48-81 | a whole input, in literal header bytes: a file is accepted if and only if it is sequential, no reserved flag is set, and what follows its flags, and a page count if there is one, is such a list; an embedded stream if and only if its globals and the stream both are |
| Jbig2Segments.PanicsExactly | src/filters/jbig2.rs:48-81 | validation stops on a slice if and only if the input is a sequential file cut off in its page count; no segment, however malformed, makes it stop |
| Jbig2Segments.CutFilePanics | src/filters/jbig2.rs:69-74 | such a file: the header, a flags byte, and nothing more |
| Jbig2Segments.ValidateJbig2Input | src/filters/jbig2.rs:48-81 | the dispatch on the file header, its flags and the page count, on every input |
| Jbig2Segments.SegmentExactly | src/filters/jbig2.rs:101-157 | parsing a segment returns `g` and `rest` if and only if the bytes are `g` written by section 7.2 of ITU-T T.88, followed by `rest` |
| Jbig2Segments.ReferencesExactly | src/filters/jbig2.rs:105-147 | the same for the count field, retention flags and references of 1, 2 or 4 bytes, in short and long form |
| Jbig2Segments.LayoutExactly | src/filters/jbig2.rs:101-157 | the layout in numbers, without a writer: a segment is read if and only if its count is sound and its length known and in the data; the page stands behind count references of 1, 2 or 4 bytes for segment numbers up to 256, up to 65536 and above, takes 4 bytes if bit 6 of the flags is set and else 1, and the length and payload follow it |
| Jbig2Segments.OneReference | src/filters/jbig2.rs:101-157 | the offsets of a literal segment that refers to one other |
| Jbig2Segments.CheckedExactly | src/filters/jbig2.rs:158-227 | exactly page information (48) and the twelve kinds of region, by their type numbers, must have a known height and a packed size within the limit |
| Jbig2Segments.AllowedExactly | src/filters/jbig2.rs:83-187 | what makes a list of segments allowed, by position: at most 65536, end-of-file (51) nowhere but last, nothing left over without it, and each one checked |
| Jbig2Segments.HasPageExactly | src/filters/jbig2.rs:158-187 | page information is found if and only if some segment has type 48 |
| Jbig2Segments.AllowedBitmapsFit | src/filters/jbig2.rs:189-227 | in an accepted list every page and region bitmap has a known height and a packed size within the limit |
| Jbig2Segments.SegmentProgress | src/filters/jbig2.rs:101-176 | a segment takes at least eleven bytes, so the no-progress error is unreachable |
| Jbig2Segments.ValidateSegmentSequence | src/filters/jbig2.rs:83-187 | the cursor loop returns what the walk returns, with the same error kind; that the cursor moved is asserted where the source tests it |
| Jbig2Segments.ReadSegment | src/filters/jbig2.rs:101-157 | reads exactly the segment at the cursor and stops right after it, or fails as parsing does |
| Jbig2Segments.ReadReferences | src/filters/jbig2.rs:105-146 | reads exactly the references at the cursor and stops right after them |
| Jbig2Segments.ReadByte | src/filters/jbig2.rs:229-235 | the next byte, or an error with the cursor left alone |
| Jbig2Segments.ReadU32 | src/filters/jbig2.rs:237-251 | the next big-endian word, or an error with the cursor left alone |
| Jbig2Segments.SkipBytes | src/filters/jbig2.rs:253-264 | moves past exactly `count` bytes if there are so many |
| BitmapSink.BitmapPacked | src/filters/jbig2.rs:272-305 | drawing h lines of w pixels gives h * ceil(w / 8) bytes, pixel x of line y being bit 7 - x % 8 of byte y * ceil(w / 8) + x / 8 |
| BitmapSink.ChunkExactly | src/filters/jbig2.rs:285-296 | a chunk draws what its pixels pushed singly draw if and only if it starts on a byte boundary or counts fewer than 2^29 bytes |
| BitmapSink.SinglySame | src/filters/jbig2.rs:272-305 | any interleaving of pixels, chunks below 2^29 and line ends draws what pushing every pixel singly draws |
| BitmapSink.PackedBits | src/filters/jbig2.rs:274-276 | packing is most significant bit first |
| BitmapSink.BitmapLength | src/filters/jbig2.rs:298-304 | h lines of w pixels take exactly h * ceil(w / 8) bytes |
| BitmapSink.EqualPixels | src/filters/jbig2.rs:287-290 | eight equal pixels pushed singly make the byte that a chunk stores at once, 255 or 0 |
| BitmapSink.PackedBitmapSink.constructor | src/filters/jbig2.rs:266-270 | an empty sink |
| BitmapSink.PackedBitmapSink.PushPixel | src/filters/jbig2.rs:273-283 | appends one pixel to the pixels drawn |
| BitmapSink.PackedBitmapSink.PushPixelChunk | src/filters/jbig2.rs:285-296 | appends eight pixels per chunk byte, or a number that saturates at 2^32 - 1 off a byte boundary |
| BitmapSink.PackedBitmapSink.NextLine | src/filters/jbig2.rs:298-304 | pads the line to whole bytes with white |
| BitmapSink.Apply | src/filters/jbig2.rs:272-305 | one command on a sink |
| BitmapSink.Replay | src/filters/jbig2.rs:272-305 | any run of commands from a new sink leaves the packed form of the pixels drawn |
| Jp2Boxes.DecodesExactly | src/filters/jpx.rs:10-137 | a raw codestream within the limit comes back as it is; of any other data the walker returns `out` if and only if it is a list of boxes with a valid signature box and at least one `jp2c` box, whose `jp2c` payloads concatenate to `out` within the limit, and fewer than eight bytes are left over |
| Jp2Boxes.ContainerDecodes | src/filters/jpx.rs:35-136 | any such list that starts with the signature box, in any mix of 32-bit, extended and to-the-end lengths, decodes to its codestreams in order, or is refused for the limit alone |
| Jp2Boxes.WalkComplete | src/filters/jpx.rs:40-134 | the same from any state of the loop, with every error |
| Jp2Boxes.WalkSound | src/filters/jpx.rs:40-134 | accepted data splits into boxes |
| Jp2Boxes.ParseWritten | src/filters/jpx.rs:41-95 | reading the box layout of Annex I.4 of ISO/IEC 15444-1 inverts writing it |
| Jp2Boxes.WrittenParse | src/filters/jpx.rs:41-95 | writing inverts reading |
| Jp2Boxes.ReadBox | src/filters/jpx.rs:41-95 | reads exactly the box at the cursor and moves at least eight bytes, to its end |
| Jp2Boxes.BoxExactly | src/filters/jpx.rs:41-95 | one box in numbers: its length in the first four bytes, in the next eight if that is 1, to the end of the data if 0, at least the header; its type at offset 4, its payload behind 8 or 16 bytes |
| Jp2Boxes.NamesAre | src/filters/jpx.rs:97-130 | the two box types in their letters and the four bytes of the signature box |
| Jp2Boxes.DecodeJpxToCodestream | src/filters/jpx.rs:10-137 | the loop and the raw-codestream shortcut, with the same error kind in every failing case |
| XfaTree.DocumentRebuilt | src/forms/xfa.rs:153-233 | the stack machine run on the events of any document, with text pieces, references, sections, comments and short elements anywhere, returns the document's tree without its references |
| XfaTree.ContentRead | src/forms/xfa.rs:161-228 | inside any stack, the events of an element's content fill the node on top and touch nothing below it |
| XfaTree.ElementRead | src/forms/xfa.rs:161-228 | the events of an element add its tree as the last child of the node on top |
| XfaTree.RootRead | src/forms/xfa.rs:161-228 | the events of the outermost element make its tree the root |
| XfaTree.ParseXmlRoot | src/forms/xfa.rs:153-233 | the event loop, for any event list, well nested or not |
| XfaTree.ReferencesLost | src/forms/xfa.rs:182-227 | the text of an element is what its pieces and references make up if and only if every reference in it stands for nothing: references are events of their own, which the loop drops |
| XfaTree.AmpersandLost | src/forms/xfa.rs:182-227 | the text `x &amp; y` is rebuilt as `xy` |
| XfaTree.ScriptsCounted | src/forms/xfa.rs:251-288 | the script nodes of the rebuilt tree are exactly the start events that satisfy the script test, in order |
| XfaTree.ElementScripts | src/forms/xfa.rs:251-259 | the same for any element inside a longer event list |
| XfaTree.CountScripts | src/forms/xfa.rs:251-259 | the accumulators grow by the number and the names of the tree's script nodes, parents before children |
| XfaTree.ScriptExactly | src/forms/xfa.rs:262-288 | the script test: one of eleven element names, or a `runAt` or `script` attribute that is not empty |
| XfaTree.TrimmedExactly | src/forms/xfa.rs:182-227 | trimming takes the white space off both ends of a text, all of it and nothing else |
| AstGraph.RunsConsistent | src/ast/graph.rs:114-132 | after any run of create_node, add_node with a new id and no cached links, and add_edge: node_map is a bijection between ids and stored nodes, every id is below next_node_id, every object entry names a node of that object, and cached children and references equal what the edges say, as multisets |
| AstGraph.RunLinksExactly | src/ast/graph.rs:414-436 | after any such run a node leads to another by a type of edge if and only if some operation added that edge at a time when both ends were known |
| AstGraph.AddNodeExactly | src/ast/graph.rs:244-258 | add_node keeps that invariant if and only if the id is new and the node brings no cached links |
| AstGraph.CreateKeeps | src/ast/graph.rs:114-132 | create_node keeps it and hands out an id never used before |
| AstGraph.EdgeKeeps | src/ast/graph.rs:414-436 | add_edge of any type between any ids keeps it, self-loops and repeated edges included |
| AstGraph.EdgeMeans | src/ast/graph.rs:414-436 | what an edge does to edges, caches and queries: both ends known, one edge and one cached target more; otherwise nothing |
| AstGraph.NodeMeans | src/ast/graph.rs:244-258 | what a node does to the stored nodes and both indexes |
| AstGraph.CachesAnswerQueries | src/ast/graph.rs:468-510 | a known id finds its node, and the node's cached lists are what the edge queries return, up to order |
| AstGraph.ObjectLookup | src/ast/graph.rs:293-297 | after add_node an object lookup finds the node added last for that object, and other lookups are unchanged |
| AstGraph.ParentsAndChildren | src/ast/graph.rs:628-642 | a node has a parent exactly when it is some node's child, and it is a child of the parent it reports |
| AstGraph.ParentExactly | src/ast/graph.rs:628-642 | the parent of a node is the source of its newest child edge from a stored node |
| AstGraph.TargetsExactly | src/ast/graph.rs:468-510 | a query lists exactly the targets of the edges of its type that leave the node |
| AstGraph.PdfAstGraph.constructor | src/ast/graph.rs:46-56 | a new graph is empty and consistent |
| AstGraph.PdfAstGraph.CreateNode | src/ast/graph.rs:114-132 | the node is stored last, found under its id and its object, and nothing else changes; consistency is kept and the id is new |
| AstGraph.PdfAstGraph.AddNode | src/ast/graph.rs:244-258 | the same for a node from outside; a consistent graph stays so exactly under the condition above |
| AstGraph.PdfAstGraph.AddEdge | src/ast/graph.rs:414-436 | true exactly when both ends are known, and nothing changes otherwise; the edge is stored last, the source node caches its target under Child or Reference, and nothing else changes; in a consistent graph the links are those from before and the new one, children or references of the source grow by exactly the target, and those of every other node and type stay |
| AstGraph.PdfAstGraph.GetChildren | src/ast/graph.rs:468-483 | lists exactly the targets of the node's child edges, and in a consistent graph as often as the node caches them |
| AstGraph.PdfAstGraph.GetReferences | src/ast/graph.rs:492-507 | lists exactly the targets of the node's reference edges, and in a consistent graph as often as the node caches them |
| AstGraph.PdfAstGraph.GetParent | src/ast/graph.rs:628-642 | the source of the newest child edge into the node from a stored node, and of no other, or nothing exactly when there is none |
| Query.GetAllDescendants | src/api/mod.rs:349-363 | on every graph, cyclic ones included, the worklist ends and returns exactly the nodes reachable by one or more child edges; it lists the children of each node it reaches once |
| Query.EvaluateSelector | src/api/mod.rs:51-163 | for type, object id, child, descendant, parent, sibling, and, or, not: the ids returned are exactly those the selector stands for, defined by edges, reachability and set algebra |
| Query.EvaluateParent | src/api/mod.rs:89-102 | exactly the parents of the selected nodes, each once |
| Query.EvaluateSibling | src/api/mod.rs:115-127 | exactly the other children of the parents of the selected nodes, each once |
| Query.FindByType | src/api/mod.rs:234-245 | exactly the nodes of the type, each once |
| Query.EvaluateChild | src/api/mod.rs:61-74 | exactly the selected nodes that are a child of a selected parent |
| Query.EvaluateDescendant | src/api/mod.rs:75-88 | exactly the selected nodes that some selected ancestor reaches by child edges |
| Query.EvaluateAnd | src/api/mod.rs:136-150 | exactly the nodes all selectors select; none for an empty list |
| Query.EvaluateOr | src/api/mod.rs:151-157 | exactly the nodes some selector selects |
| Query.TypesExactly | src/api/mod.rs:53-60 | selecting by type and by object, in stored nodes |
| Query.ChildExactly | src/api/mod.rs:61-74 | the child selector, in edges |
| Query.ParentsExactly | src/api/mod.rs:89-102 | the parent selector, in edges: the source of the newest child edge |
| Query.SiblingsExactly | src/api/mod.rs:115-127 | the sibling selector, in edges |
| Query.ReachesExactly | src/api/mod.rs:75-88 | a descendant is the end of a path of one or more child edges |
| Query.SelectedAreNodes | src/api/mod.rs:51-163 | in a consistent graph every selected id is a node of the graph |
| Query.DoubleNegation | src/api/mod.rs:158-163 | the complement of the complement selects the same nodes |
| Query.DeMorgan | src/api/mod.rs:136-163 | the complement of a union is the intersection of the complements if and only if the list is not empty or the graph has no nodes |
| Pipeline.PipelineInverse | src/filters/mod.rs:76-113 | data encoded through any chain of RunLength and ASCII85 decodes to itself if and only if every intermediate result fits both limits; otherwise the limit error |
| Pipeline.ChainInverse | src/filters/mod.rs:92-110 | the same with any input length to measure expansion against |
| Pipeline.SingleInverse | src/filters/mod.rs:115-138 | each modelled filter undoes its encoder within the limit |
| Pipeline.OutputWithinLimits | src/filters/mod.rs:76-113 | whatever the filters do, foreign ones included, a returned result is within the output limit and, as soon as there is a filter, within the expansion limit |
| Pipeline.DecodesExactly | src/filters/mod.rs:76-113 | the result is `out` if and only if there are intermediate results, one per filter, each what its filter makes of the one before and within both limits, the last of them `out` |
| Pipeline.DecodeStreamWithLimits | src/filters/mod.rs:76-138 | the filter loop: first error wins, both limits apply after every stage |

## Left out

- Lzw.EncodeLzw: codes and widths; that they are packed most significant bit first is the bit writer's, whose code is not part of this model, and the decoder the library uses is not either.
- CcittRuns.LookUpEntry: the arrays of 4096 and 8192 entries are held as the prefix trees they unroll; the entry at an index is what its bits lead to in the tree.
- CcittBits.BitReader.PeekBits: reads of at most 25 bits (the decoder reads at most 13); a wider read could shift bits out of the 32-bit accumulator.
- CcittPage.DecodePage: a page without columns and without a row count, on which the source loops for ever, is excluded unless the data is empty; the filter in front of the decoder refuses zero columns.
- CcittPage.PageExactly: says when every row is decoded from its own codes; rows that go out of step can still yield the bytes of some page by chance.
- Password.ValidateUserPassword: that a wrong password is refused depends on MD5, which is any function here.
- AstGraph.CachesAnswerQueries: says nothing of sibling order; the graph library's edge order is not modelled.
- Query.EvaluateSelector: the order of results, type names, paths, properties, ancestors and positions are left out. Ancestor selectors climb without a visited set and need not end on cyclic graphs.
- Pipeline.DecodeStreamWithLimits: every filter but RunLength and ASCII85 is an arbitrary function, and its output with it.
- XfaTree.ParseXmlRoot: turning text into events, with the reader's own trimming and the references it splits off, is the XML reader's; `unique_names` is left out.
- TiffComponents.HalvesLost: components of less than a byte are shown to fail by an input; for which of their rows the decoder happens to be right is not characterised.
- Overflow checks on 64-bit positions and sizes: positions are unbounded naturals, and the errors of those checks are of the same kind as their neighbours'.
- Error messages, tracing, statistics, processing times and floating-point ratios.
- ASCIIHex, Flate and DCT decoding, JBIG2 and JPEG 2000 pixels, the checks on predictor parameters and the mapping of predictor numbers before decoding.
- Group 3 pages (`decode_1d`, `decode_2d`): their loops differ from the Group 4 one in end-of-line synchronisation and in mixing row kinds.
- AES and revision 5 and later, crypt filters, encryption dictionaries, certificates, signatures and timestamps.
- Deterministic node ids, removal of nodes and edges, node values and metadata, traversals and visitors.
- Command line, language bindings, reports and threat rules.
