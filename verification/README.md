# Verified core of whisper.cpp's decoders and helpers

A Dafny model of the self-contained algorithms that whisper.cpp carries: the Vorbis codebooks, bit reader,
floor curves, Ogg paging, checksum and seeking of `stb_vorbis.c`; the FFT, windowed attention, token-and-duration
decoding and tokenizer of `parakeet.cpp`; the grammar compiler; and the edit distance, the audio ring and the token
merge of the examples. Check the whole project with `dafny verify dfyconfig.toml`.

Code that changes state step by step is modelled by classes and methods with loops over arrays, each proved against a
specification; code made of expressions, such as the strides of the attention graph, is modelled by functions.

* **Codebooks** (`Bits`, `CodeTree`, `FreeNodes`, `CodeMap`, `Codebook`, `CodebookTables`, `DistinctSort`,
  `SortedTable`, `FastTable`, `CodebookSetup`). A node of depth z is an interval of 2^(32-z) left-aligned words. The
  reference is section 3.2.1 of the Vorbis I specification: each length in turn gets the lowest free node.
* **Packets** (`OggWalk`, `OggReader`, `OggLookahead`, `BitString`, `BitReader`, `HuffmanLookup`, `HuffmanDecode`,
  `DecodeStream`). The reference reads segments straight from the bytes of the pages; the bits of a packet are one
  string, and coding is concatenation of codewords and numbers.
* **Floor** (`FloorLine`, `FloorSetup`, `FloorUnwrap`, `FloorCurve`, `FloorDecode`). The reference is a curve given
  column by column through the corners on either side.
* **Pages** (`PageSeek`, `Crc`, `CrcDivision`, `PageScan`, `PageFind`). The reference for the checksum is the remainder
  of polynomial division over the two-element field.
* **FFT** (`Trig`, `Fft`) over the reals, with tables that obey the angle-addition law.
* **Attention** (`Tensor`, `LocalAttention`, `AttentionOutput`, `AttentionPositions`). Tensors are flat memory with
  sizes and strides; every view, pad, reshape and roll of the graph is an index map on them.
* **Decoding and text** (`TdtDecode`, `SentencePiece`, `SentenceCodepoints`, `Codepoints`, `TokenMerge`). Valid text
  is a concatenation of code points as RFC 3629 spells them.
* **Grammar compiler** (`GrammarText`, `GrammarUtf8`, `GrammarWriting`, `GrammarForm`, `GrammarLanguage`,
  `GrammarMeaning`, `GrammarEquivalence`, `GrammarSpelling`, `GrammarReading`, `GrammarUnique`, `GrammarState`,
  `GrammarPieces`, `GrammarParser`, `GrammarProgram`, `GrammarCheck`). The reference is an abstract syntax whose relation to the text
  (`GrammarSpelling`) and whose meaning (`GrammarMeaning`) do not mention rules; rule languages are least ones by depth
  of derivation. `GrammarReading` shows that the spelling leaves no choice, which settles what the compiler refuses.
* **Helpers** (`EditDistance`, `AudioRing`).

Where the code and what one expects of it part, the code is kept and the difference is stated exactly:

* An empty class `[]` or `[^]` in a grammar compiles to nothing and so matches the empty word
  (`GrammarEquivalence.ClassMeaning`); meaning is preserved when no class is empty.
* A repeated empty literal or class, as in `a::=""*`, is refused although it is spelled like any other item
  (`GrammarUnique.EmptyRepeatRefused`); every other spelled grammar is compiled (`GrammarProgram.Parse`).
* A name defined twice means its last definition; no generated rule is disturbed.
* A name referenced but never defined makes printing fail only if its number lies among the rules
  (`GrammarCheck.PrintGrammar`).
* The search for a page gives up on a capture byte before offset 24, where an unsigned difference wraps, and at a
  candidate whose segment table runs off the stream (`PageFind.FindPage`, `PageFind.EarlyByteHidesPage`). Bytes past
  the end count as zeros in a candidate's checksum.
* A page header that the end of the stream cuts short passes for a page without segments (`OggReader.Vorb.StartPage`).
* A codeword asked for after a read past the end of the packet resets the mark that this read left
  (`HuffmanDecode.DecodeRaw`); reads still deliver zeros, as no byte is left.
* In a sparse book without any used codeword the source looks -1 up in a table that is not there; decoding asks for a
  used codeword there (`DecodeStream.CanDecodeUsed`).
* The attention mask goes by its shape alone, and is wrong for a sequence exactly as long as the local window; the
  threshold of the local path keeps clear of that length (`AttentionPositions.LocalMaskRight`).
* The look-ahead passes over pages without segments, the reader does not: they agree exactly when no such page is on
  the way (`OggLookahead.LookAgrees`).
* The position-shift view between the reshape and the final view exceeds its memory for two frames or more, but only
  in rows that no query reads (`AttentionPositions.ShiftViewInBounds`).
* The similarity of two empty strings is a division of zero by zero (`EditDistance.Similarity`).

## Model

| member | source | states |
|---|---|---|
| `Bits.BitReverseCorrect` | whisper.cpp/examples/stb_vorbis.c:1010-1017 | the five masked swaps reverse the order of all 32 bits of any word |
| `CodeTree.AssignmentUnique` | whisper.cpp/examples/stb_vorbis.c:1110-1115 | giving each length in turn the lowest free node of that depth, as section 3.2.1 of the Vorbis I specification asks, leaves no choice |
| `CodeTree.AssignmentPrefixFree` | whisper.cpp/examples/stb_vorbis.c:1086-1130 | codewords given out that way are pairwise disjoint intervals of the code space |
| `CodeTree.KraftInequality` | whisper.cpp/examples/stb_vorbis.c:1086-1130 | prefix-free nodes cover at most the 2^32 words, and all of them exactly when their sizes add up to 2^32 |
| `FreeNodes.FirstPartition` | whisper.cpp/examples/stb_vorbis.c:1097-1100 | after the first codeword, it and the free nodes partition the code space |
| `FreeNodes.OnlyDeepNodes` | whisper.cpp/examples/stb_vorbis.c:1110-1117 | when no free node of the wanted depth or above is left, what is free is too small for the length: a failure is a real lack of room |
| `FreeNodes.DeepestIsLowest` | whisper.cpp/examples/stb_vorbis.c:1110-1116 | the deepest free node not below the wanted depth starts at the lowest-valued free codeword of that length: what the source calls not totally trivial to prove |
| `FreeNodes.TakeNodeLadder` | whisper.cpp/examples/stb_vorbis.c:1117-1127 | taking a node and handing back the rest keeps at most one free node per level, higher levels at higher values |
| `FreeNodes.TakeNodeFree` | whisper.cpp/examples/stb_vorbis.c:1117-1127 | a word is free afterwards exactly when it was free and the new codeword does not cover it |
| `FreeNodes.TakeNodePartition` | whisper.cpp/examples/stb_vorbis.c:1116-1127 | each step keeps the partition: every word is covered by exactly the assigned codewords or by a free node |
| `Codebooks.FindLevel` | whisper.cpp/examples/stb_vorbis.c:1116-1117 | the downward search stops at the deepest non-empty level not below the wanted one, or at 0 |
| `Codebooks.HandBack` | whisper.cpp/examples/stb_vorbis.c:1121-1127 | the propagation loop leaves exactly the free nodes of the value-level step |
| `Codebooks.InitialNodes` | whisper.cpp/examples/stb_vorbis.c:1098-1100 | the free nodes right after the first codeword, level by level |
| `Codebooks.NoRoom` | whisper.cpp/examples/stb_vorbis.c:1117 | no level with a free node means that the Kraft sum exceeds 1 |
| `Codebooks.Codebook.AddEntry` | whisper.cpp/examples/stb_vorbis.c:1075-1084 | stores a codeword by symbol in a dense book, by count with length and symbol in a sparse one, and keeps all entries stored before |
| `Codebooks.Codebook.AssignFirst` | whisper.cpp/examples/stb_vorbis.c:1095-1100 | the first codeword is all zeros and the partition invariant is established |
| `Codebooks.Codebook.AssignNode` | whisper.cpp/examples/stb_vorbis.c:1116-1127 | one entry: fails only for want of room, else extends the assignment by the lowest free node |
| `Codebooks.Codebook.ComputeCodewords` | whisper.cpp/examples/stb_vorbis.c:1086-1130 | for any lengths in 1..31 or NO_CODE it succeeds exactly when the Kraft sum is at most 1, and then stores, bit reversed, the assignment of the specification |
| `Codebooks.CodeOfValid` | whisper.cpp/examples/stb_vorbis.c:1086-1130 | the stored assignment, by symbol, is a valid prefix code with the given lengths |
| `Codebooks.CodeOfComplete` | whisper.cpp/examples/stb_vorbis.c:1086-1130 | with Kraft sum 1 every 32-bit accumulator starts with some codeword |
| `CodeMap.MatchIsContainment` | whisper.cpp/examples/stb_vorbis.c:1697-1699 | the low bits of an accumulator equal a stored codeword exactly when the bit-reversed accumulator lies in the codeword's interval |
| `CodeMap.HitUnique` | whisper.cpp/examples/stb_vorbis.c:1656-1713 | at most one codeword matches an accumulator |
| `SortedTable.SearchSorted` | whisper.cpp/examples/stb_vorbis.c:1210-1220 | the halving search ends at the last sorted codeword not above the searched one, or at 0 |
| `SortedTable.ComputeSortedHuffman` | whisper.cpp/examples/stb_vorbis.c:1179-1230 | collects exactly the entries to sort (the count assertion), finds each again (the search assertion), and leaves sorted codewords, symbols and moved lengths that belong together |
| `FastTables.FillStride` | whisper.cpp/examples/stb_vorbis.c:1147-1151 | the doubling loop writes exactly the slots whose low bits are the codeword |
| `FastTables.ComputeAcceleratedHuffman` | whisper.cpp/examples/stb_vorbis.c:1134-1154 | a slot names an entry exactly when its bits start with that entry's codeword of at most ten bits, for the entries that fit the table, else -1 |
| `CodebookSetup.AssignCodewords` | whisper.cpp/examples/stb_vorbis.c:3785-3822 | allocates the tables for a dense or a sparse book and assigns codewords, or fails for an overfull code |
| `CodebookSetup.Build` | whisper.cpp/examples/stb_vorbis.c:3772-3844 | from the lengths, a book ready for decoding or, exactly for overfull lengths, an error; sparse books with a quarter of their entries used become dense; complete lengths give a complete code |
| `HuffmanLookup.LookupFast` | whisper.cpp/examples/stb_vorbis.c:1720-1722 | an answer of the fast table is the symbol that matches; no answer means that no short codeword matches |
| `HuffmanLookup.SearchBook` | whisper.cpp/examples/stb_vorbis.c:1666-1683 | when no short codeword matches, the binary search over bit-reversed codewords finds the entry that matches, if any does |
| `HuffmanLookup.ScanBook` | whisper.cpp/examples/stb_vorbis.c:1695-1707 | the linear scan finds the entry that matches, or reports that none does |
| `HuffmanLookup.SortedSearchFinds` | whisper.cpp/examples/stb_vorbis.c:1666-1683 | the last sorted codeword not above the reversed accumulator is the one whose interval holds it, when one does |
| `BitString.PackRoundTrip` | whisper.cpp/examples/stb_vorbis.c:1597-1628 | packing bits least significant first into bytes (section 2 of the Vorbis I specification) and unpacking gives them back, then zeros |
| `BitString.ShownMatch` | whisper.cpp/examples/stb_vorbis.c:1666-1709 | a codeword that fits into the held bits matches the accumulator exactly when it matches the bits of the packet |
| `BitString.LongRead` | whisper.cpp/examples/stb_vorbis.c:1605-1609 | reading 24 bits and then the rest, shifted, is reading them all |
| `BitReader.PrepHuffman` | whisper.cpp/examples/stb_vorbis.c:1634-1647 | refills to more than 24 bits or to the end of the packet, leaving the unread bits of the packet the same string; after a read past the end it does nothing |
| `BitReader.GetBits` | whisper.cpp/examples/stb_vorbis.c:1599-1628 | delivers the next bits as a number and leaves the rest of the same bit string; past the end it delivers zero and leaves the mark, and every later read delivers zero too; the accumulator stays below 2^valid_bits |
| `BitReader.GetManyBits` | whisper.cpp/examples/stb_vorbis.c:1605-1609 | the same for reads of more than 24 bits |
| `HuffmanDecode.DecodeScalarRaw` | whisper.cpp/examples/stb_vorbis.c:1656-1713 | when the fast table cannot answer: the entry whose codeword comes next, which is consumed, or -1 when the packet ends first |
| `HuffmanDecode.DecodeFast` | whisper.cpp/examples/stb_vorbis.c:1720-1726 | the fast table's answer, taken only if all its bits are there |
| `HuffmanDecode.DecodeRaw` | whisper.cpp/examples/stb_vorbis.c:1717-1729 | fast table or slow path, the outcome is the next codeword of the packet's bit string; after a read past the end it is -1, and the mark of that read is lost exactly when the book stores a codeword |
| `DecodeStream.Decode` | whisper.cpp/examples/stb_vorbis.c:1754-1756 | decodes the symbol whose codeword the remaining bits start with, in dense and sparse books; after a read past the end -1, with no valid bits |
| `DecodeStream.CanDecodeUsed` | whisper.cpp/examples/stb_vorbis.c:1754-1756 | the sorted values that a sparse book looks -1 up in are there exactly when some codeword is used |
| `DecodeStream.ReadField` | whisper.cpp/examples/stb_vorbis.c:1599-1756 | one coded symbol or number is read back and exactly its bits are consumed |
| `DecodeStream.ReadFields` | whisper.cpp/examples/stb_vorbis.c:1599-1756 | decoding undoes coding: any interleaving of symbols and numbers is returned in order, across segments and pages, and what follows stays unread |
| `DecodeStream.PackedPacket` | whisper.cpp/examples/stb_vorbis.c:1503-1573 | a packet whose bytes were packed from fields presents just those bits, then less than a byte of padding |
| `OggWalk.WalkYieldsPacket` | whisper.cpp/examples/stb_vorbis.c:1539-1573 | on any stream laid out in pages (RFC 3533, section 6) following the lacing values byte by byte yields the packet that the pages' segments make up |
| `OggWalk.HeaderReadsBack` | whisper.cpp/examples/stb_vorbis.c:1444-1468 | a written page header is recognised with its flag and its segment table |
| `OggReader.Vorb.CapturePattern` | whisper.cpp/examples/stb_vorbis.c:1431-1438 | succeeds exactly on the capture pattern, and stands behind it |
| `OggReader.Vorb.StartPage` | whisper.cpp/examples/stb_vorbis.c:1497-1501 | succeeds exactly on a header of version 0 whose table is in the stream, or on one that the end of the stream cuts short; a whole one loads its flag and segment table and leaves the reader at the body |
| `OggReader.Vorb.StartPageNoCapture` | whisper.cpp/examples/stb_vorbis.c:1444-1495 | the same from behind the capture pattern |
| `OggReader.Vorb.NextSegment` | whisper.cpp/examples/stb_vorbis.c:1539-1558 | moves to the next segment, onto a continued page if need be, without changing what is left of the packet |
| `OggReader.Vorb.Get8PacketRaw` | whisper.cpp/examples/stb_vorbis.c:1563-1573 | delivers the next payload byte of the packet wherever its segments lie, or EOP exactly at its end |
| `OggReader.Vorb.StartPacket` | whisper.cpp/examples/stb_vorbis.c:1503-1516 | faces the packet that starts at the next segment or page |
| `OggReader.Vorb.MaybeStartPacket` | whisper.cpp/examples/stb_vorbis.c:1518-1537 | faces the next packet; the end of the stream at a page boundary is no error; a continued page is reported, but its packet is faced |
| `OggReader.Vorb.FlushPacket` | whisper.cpp/examples/stb_vorbis.c:1592-1595 | successive reads deliver exactly the payload, in order, and stop at its end without touching eof |
| `OggLookahead.LookAgrees` | whisper.cpp/examples/stb_vorbis.c:3544-3575 | the look-ahead finds a packet end over pages with segments exactly when the reader can read the packet, and then the same end |
| `OggLookahead.LookFromAgrees` | whisper.cpp/examples/stb_vorbis.c:3529-3577 | the same for any decoder between packets, one that comes in on a continued page included |
| `OggLookahead.IsWholePacketPresent` | whisper.cpp/examples/stb_vorbis.c:3519-3577 | returns TRUE exactly when the look-ahead reaches the packet's end, with the pointer there |
| `OggLookahead.ReadPresentPacket` | whisper.cpp/examples/stb_vorbis.c:4466-4492 | when the check returns TRUE, reading the packet, or draining it when the decoder resynchronises on a continued page, delivers it without setting eof and stops exactly at the look-ahead pointer, exactly when no page on the way lacks segments; otherwise nothing is read |
| `FloorLine.OffsetUnique` | whisper.cpp/examples/stb_vorbis.c:1935-1943 | the rounded offset of the closed form is the only quotient with a remainder below the width |
| `FloorLine.PredictRounds` | whisper.cpp/examples/stb_vorbis.c:1935-1943 | the predicted height is the line through the two points, rounded towards the first point |
| `FloorLine.PredictBetween` | whisper.cpp/examples/stb_vorbis.c:1935-1943 | between two points the predicted height lies between theirs |
| `FloorLine.OnLineNext` | whisper.cpp/examples/stb_vorbis.c:2064-2078 | one step of the error accumulation moves from the closed form at a column to the closed form at the next, in both slopes' directions |
| `FloorLine.OnLineHeight` | whisper.cpp/examples/stb_vorbis.c:1935-1943 | the incremental height at a column is the one predict_point gives there, and below 256 |
| `FloorLine.DrawLine` | whisper.cpp/examples/stb_vorbis.c:2034-2081 | each column from x0 up to the line's end or n is scaled once, by the table at the closed form's height; every other entry stays |
| `FloorSetup.SortPoints` | whisper.cpp/examples/stb_vorbis.c:3987-3992 | the order lists every point once, by column |
| `FloorSetup.FindNeighbours` | whisper.cpp/examples/stb_vorbis.c:1303-1312 | the two points found are the closest on either side among the earlier ones, exactly when there are points on both sides |
| `FloorSetup.Finish` | whisper.cpp/examples/stb_vorbis.c:3987-4004 | refuses exactly the curves with two points in one column; otherwise leaves the order by column and every point's neighbours |
| `FloorUnwrap.UnwrapThenWrap` | whisper.cpp/examples/stb_vorbis.c:3246-3265 | the unwrap of a residual below range stays in range and determines the residual |
| `FloorUnwrap.WrapThenUnwrap` | whisper.cpp/examples/stb_vorbis.c:3246-3265 | every height in range is the unwrap of a residual in range: a bijection, for any prediction in range |
| `FloorUnwrap.UnwrapOrder` | whisper.cpp/examples/stb_vorbis.c:3246-3265 | residuals stand for heights in the order of their distance from the prediction, the lower of two first |
| `FloorUnwrap.PredictionInRange` | whisper.cpp/examples/stb_vorbis.c:3244 | predictions from heights in range are in range |
| `FloorUnwrap.HeightsUnique` | whisper.cpp/examples/stb_vorbis.c:3239-3269 | the residuals determine all heights |
| `FloorUnwrap.ResidualsInRange` | whisper.cpp/examples/stb_vorbis.c:3239-3269 | every list of heights in range is coded by residuals in range |
| `FloorUnwrap.UnwrapHeights` | whisper.cpp/examples/stb_vorbis.c:3238-3269 | in place, the heights whose residuals the input was, all in range, and the flag of exactly the points that have a residual or bound one that has |
| `FloorUnwrap.DropUnused` | whisper.cpp/examples/stb_vorbis.c:3274-3278 | marks exactly the unflagged points |
| `FloorCurve.LevelBound` | whisper.cpp/examples/stb_vorbis.c:3082-3092 | heights in range times the multiplier index the 256-entry table, and no smaller range would do |
| `FloorCurve.CurveUnique` | whisper.cpp/examples/stb_vorbis.c:3080-3105 | the curve has one level at each column |
| `FloorCurve.LineIsCurve` | whisper.cpp/examples/stb_vorbis.c:3083-3098 | from one corner to the next the drawn line is the curve |
| `FloorCurve.TailIsCurve` | whisper.cpp/examples/stb_vorbis.c:3099-3104 | after the last corner the curve is flat |
| `FloorCurve.RenderFloor` | whisper.cpp/examples/stb_vorbis.c:3080-3105 | each of the first n columns is scaled exactly once: at a used point by the table's entry for height times multiplier, between neighbouring used points by the entry on the line between those, after the last by its entry; no other column changes |
| `FloorDecode.DecodeFloor` | whisper.cpp/examples/stb_vorbis.c:3238-3278 | from residuals to the scaled spectrum: the heights that the residuals code, the points that stay, and the columns scaled as those points say |
| `PageSeek.FindPageIsSearch` | whisper.cpp/examples/stb_vorbis.c:4777 | where the byte-level search accepts exactly the page starts and nothing stops it, the page it finds from byte 24 on is the one the seek counts on, and it fails exactly when there is none |
| `PageSeek.WholePagesArePaged` | whisper.cpp/examples/stb_vorbis.c:4561-4630 | which is so when no candidate is cut off by the end of the stream |
| `PageSeek.ProbesAreSearches` | whisper.cpp/examples/stb_vorbis.c:4742-4779 | every probe of a seek, in whichever way its offset was chosen, makes the byte-level search come to a page after the left one and not beyond the right one |
| `PageSeek.ProbeLandsBetween` | whisper.cpp/examples/stb_vorbis.c:4764-4777 | from any offset at least a page length before the right page and not before the left page's end, the page search stops strictly between them |
| `PageSeek.Clamp` | whisper.cpp/examples/stb_vorbis.c:4764-4768 | an offset, however wrong, is brought into the range where that holds |
| `PageSeek.Probe` | whisper.cpp/examples/stb_vorbis.c:4745-4777 | every probe starts where a page between the two can be found: the 64K and 32K margins suffice |
| `PageSeek.SkipUnknown` | whisper.cpp/examples/stb_vorbis.c:4780-4786 | pages on which no frame ends are passed over, not beyond the right page |
| `PageSeek.Search` | whisper.cpp/examples/stb_vorbis.c:4742-4801 | the search ends; it keeps left position <= limit <= right position; it ends with adjacent pages or with only position-less pages before the right one |
| `PageSeek.TightWhenKnown` | whisper.cpp/examples/stb_vorbis.c:4742-4801 | with all positions known the pages found are adjacent |
| `PageSeek.SeekCoarse` | whisper.cpp/examples/stb_vorbis.c:4700-4801 | which error, start or bracket comes out, each exactly when: the start for a sample not beyond the first known page's position plus the padding; else two pages whose positions plus padding, and plain, enclose the sample |
| `PageSeek.PageFits` | whisper.cpp/examples/stb_vorbis.c:4764-4768 | no page is longer than the 65307 bytes that the margins allow for |
| `Crc.RoundsXor` | whisper.cpp/examples/stb_vorbis.c:996-998 | rounds of division are linear |
| `Crc.Crc32Init` | whisper.cpp/examples/stb_vorbis.c:992-1001 | the table holds eight rounds of division for each byte |
| `Crc.UpdateIsSerial` | whisper.cpp/examples/stb_vorbis.c:1003-1006 | one table step equals eight single-bit division steps |
| `Crc.CrcIsSerial` | whisper.cpp/examples/stb_vorbis.c:1003-1006 | folding the table step over any bytes equals dividing bit by bit |
| `CrcDivision.SerialDivides` | whisper.cpp/examples/stb_vorbis.c:989-1006 | bit-by-bit division computes quotient and remainder of the message times x^32 by the generator 0x04c11db7 over the two-element field |
| `CrcDivision.GeneratorTerms` | whisper.cpp/examples/stb_vorbis.c:989-998 | the generator is x^32 + x^26 + x^23 + x^22 + x^16 + x^12 + x^11 + x^10 + x^8 + x^7 + x^5 + x^4 + x^2 + x + 1 |
| `CrcDivision.RemainderUnique` | whisper.cpp/examples/stb_vorbis.c:989-1006 | quotient and remainder are unique |
| `CrcDivision.CrcIsRemainder` | whisper.cpp/examples/stb_vorbis.c:989-1006 | the table-driven checksum is the remainder of the message, and nothing else is |
| `PageScan.PageBytes` | whisper.cpp/examples/stb_vorbis.c:4589-4603 | a candidate is a page exactly when the checksum of its own bytes with the checksum field zeroed is the stored one (RFC 3533, section 6) |
| `PageScan.ChecksumBytes` | whisper.cpp/examples/stb_vorbis.c:4595-4603 | reads bytes into the checksum and adds them up |
| `PageFind.MatchCapture` | whisper.cpp/examples/stb_vorbis.c:4573-4577 | the capture pattern is recognised exactly, short of the end of the stream |
| `PageFind.CheckCandidate` | whisper.cpp/examples/stb_vorbis.c:4578-4622 | accepts exactly the candidates whose version is 0 and whose checksum fits; gives up exactly when the header or, in front of a body, the table is cut off |
| `PageFind.TryCandidate` | whisper.cpp/examples/stb_vorbis.c:4566-4627 | the same from the first byte on; goes on only where nothing stops the search, and where it stands afterwards |
| `PageFind.FindPage` | whisper.cpp/examples/stb_vorbis.c:4561-4630 | succeeds exactly when some acceptable position has nothing at or before it that stops the search, and then stands at the first acceptable position, with its end and last-page flag |
| `PageFind.EarlyByteHidesPage` | whisper.cpp/examples/stb_vorbis.c:4566-4571 | one capture byte at offset 0 and a page at offset 24: the page is there, and the search does not find it |
| `PageFind.FindsPages` | whisper.cpp/examples/stb_vorbis.c:4561-4630 | from offset 24 on, with no candidate cut off by the end of the stream, acceptable positions are exactly the pages and nothing makes the search give up |
| `Trig.SplitSums` | whisper.cpp/src/parakeet.cpp:2664-2706 | the direct sums over a sequence split into those over its even and odd samples |
| `Fft.Butterfly` | whisper.cpp/src/parakeet.cpp:2692-2705 | the combination of both halves gives coefficient k and k + N/2 of the direct transform |
| `Fft.Dft` | whisper.cpp/src/parakeet.cpp:2642-2659 | every coefficient of the direct transform, and nothing else, is written |
| `Fft.Gather` | whisper.cpp/src/parakeet.cpp:2675-2683 | the even or the odd samples in order, in the scratch behind the samples |
| `Fft.Combine` | whisper.cpp/src/parakeet.cpp:2689-2705 | all coefficients from the two halves |
| `Fft.FftRecursive` | whisper.cpp/src/parakeet.cpp:2664-2706 | for every N dividing n_fft the recursive transform with reused scratch is the direct one, leaves its samples as they were, and touches only the 2N input and 6N output slots |
| `Tensors.BuildAt` | whisper.cpp/src/parakeet.cpp:1706-1800 | an element of a contiguous copy is found at its indices |
| `Tensors.ContiguousInBounds` | whisper.cpp/src/parakeet.cpp:1706-1800 | contiguous tensors lie within their memory |
| `Tensors.SumWindow` | whisper.cpp/src/parakeet.cpp:1805 | a sum whose terms vanish outside a window is the sum over the window |
| `LocalAttention.PadKeysAt` | whisper.cpp/src/parakeet.cpp:1719-1724 | padded keys are the frames half a window earlier, zero outside the sequence |
| `LocalAttention.KeyViewAt` | whisper.cpp/src/parakeet.cpp:1726-1736 | the overlapping view shows chunk g from g chunk lengths on |
| `LocalAttention.KeyViewInBounds` | whisper.cpp/src/parakeet.cpp:1726-1736 | the overlapping view stays within its memory |
| `LocalAttention.SkewViewAt` | whisper.cpp/src/parakeet.cpp:1741-1750 | the skewed view shows, for each next query, the scores of keys from one further along |
| `LocalAttention.SkewViewInBounds` | whisper.cpp/src/parakeet.cpp:1741-1750 | the skewed view stays within its memory |
| `LocalAttention.ContentScoreAt` | whisper.cpp/src/parakeet.cpp:1693-1762 | for any sequence length and half window W, score w of query q is the inner product with the key of frame q - W + w, zero outside the sequence |
| `LocalAttention.AffinityInFull` | whisper.cpp/src/parakeet.cpp:1738-1740 | that inner product is the total of the products along the head's dimension |
| `AttentionOutput.UnskewViewAt` | whisper.cpp/src/parakeet.cpp:1777-1784 | the view of the padded probabilities shows them one place further along for each next query |
| `AttentionOutput.UnskewInBounds` | whisper.cpp/src/parakeet.cpp:1777-1784 | that view stays within its memory |
| `AttentionOutput.WeightAt` | whisper.cpp/src/parakeet.cpp:1772-1785 | masked, key k of a chunk has the probability of its place in the query's window or nothing |
| `AttentionOutput.ValueViewAt` | whisper.cpp/src/parakeet.cpp:1787-1803 | the transposed overlapping view of the values |
| `AttentionOutput.OutputAt` | whisper.cpp/src/parakeet.cpp:1693-1813 | the output for query q is exactly the sum over frames q - W to q + W of value times probability |
| `AttentionOutput.OutputInFull` | whisper.cpp/src/parakeet.cpp:1693-1813 | that sum is the total of its 2W + 1 terms, each written out |
| `AttentionPositions.FillAttnMask` | whisper.cpp/src/parakeet.cpp:2015-2043 | the whole matrix is filled, cell by cell, by the branch that its shape selects |
| `AttentionPositions.LocalMaskRight` | whisper.cpp/src/parakeet.cpp:2033-2040 | over a window, that mask lets through exactly the slots of real frames, if and only if the sequence is not as long as the window (or holds no real frame): at that length the branch is the wrong one |
| `AttentionPositions.LocalMaskedAt` | whisper.cpp/src/parakeet.cpp:1693-1770 | beyond the threshold of the local path, masked scores are those of the real frames within the window, each with the position embedding for query minus key; every other slot is masked |
| `AttentionPositions.FullMaskedAt` | whisper.cpp/src/parakeet.cpp:1871-1875 | in the full path exactly the keys past the real sequence are masked |
| `AttentionPositions.MaskedLies` | whisper.cpp/src/parakeet.cpp:2025 | a masked score lies below every score let through that is not smaller by 10^30 or more |
| `AttentionPositions.FillLocalMask` | whisper.cpp/src/parakeet.cpp:2045-2062 | the local mask is 1 exactly on the band of window width |
| `AttentionPositions.FillPositions` | whisper.cpp/src/parakeet.cpp:2074-2090 | either branch counts down from half the window through zero |
| `AttentionPositions.LocalScoreAt` | whisper.cpp/src/parakeet.cpp:1693-1768 | in the local path the position score added for (query, key) is that of the embedding for query minus key |
| `AttentionPositions.ShiftedAt` | whisper.cpp/src/parakeet.cpp:1837-1868 | pad, roll, reshape and view pick slot n - 1 + key - query |
| `AttentionPositions.FullPosition` | whisper.cpp/src/parakeet.cpp:1837-1868 | in the full path that slot, too, is the one for query minus key |
| `AttentionPositions.ShiftedInBounds` | whisper.cpp/src/parakeet.cpp:1860-1867 | the final view stays within its memory |
| `AttentionPositions.ShiftViewInBounds` | whisper.cpp/src/parakeet.cpp:1848-1856 | the view in between stays within its memory for a single frame only; its further rows are never read |
| `TdtDecode.PickBest` | whisper.cpp/src/parakeet.cpp:2557-2575 | the first largest score, also when all are negative; 0 when none is above -10^10 |
| `TdtDecode.BestMeans` | whisper.cpp/src/parakeet.cpp:2557-2575 | the best above the floor is just that |
| `TdtDecode.BestUnique` | whisper.cpp/src/parakeet.cpp:2557-2575 | which is one index |
| `TdtDecode.State.Decode` | whisper.cpp/src/parakeet.cpp:2496-2632 | for any network and durations >= 0: at most n_frames * max(1, n_max) calls; tokens and data in step, never blank, at most max(1, n_max) in a frame, each with its duration the first largest of its call and its times in plain numbers; each call moves on by its duration, or by one frame after a blank without one or in a full frame; it succeeds exactly when every prediction asked for and every joint call succeeded, and then no frame is left |
| `TdtDecode.TraceUnique` | whisper.cpp/src/parakeet.cpp:2536-2632 | the network's answers determine the run |
| `TdtDecode.EmittedInOrder` | whisper.cpp/src/parakeet.cpp:2489-2490 | intervals satisfy t0 <= t1 <= next t0 |
| `TdtDecode.RefineTimestamps` | whisper.cpp/src/parakeet.cpp:2447-2464 | punctuation after a word shrinks to the moment that word ends, all else stays, and the intervals stay in order |
| `SentencePiece.Normalize` | whisper.cpp/src/parakeet.cpp:550-564 | a mark first, and one for each white-space byte |
| `SentencePiece.LoadVocab` | whisper.cpp/src/parakeet.cpp:1150-1180 | numbers lead back to pieces, the blank piece has the number after the last, the unknown token is that of its piece or 0, and no piece but a control one exceeds max_token_length |
| `SentencePiece.LongestOfAll` | whisper.cpp/src/parakeet.cpp:2909-2919 | the cap on lengths hides no longer piece |
| `SentencePiece.FindLongest` | whisper.cpp/src/parakeet.cpp:2911-2925 | the longest non-control piece at a position |
| `SentencePiece.Tokenize` | whisper.cpp/src/parakeet.cpp:2905-2936 | longest piece each time, the unknown token for a code point that starts none |
| `SentencePiece.PiecesOfTokens` | whisper.cpp/src/parakeet.cpp:2905-2936 | without the fallback the pieces are the normalized text, cut |
| `SentencePiece.PieceToText` | whisper.cpp/src/parakeet.cpp:566-589 | marks become spaces; those before the first text are dropped; control pieces vanish |
| `SentencePiece.Detokenize` | whisper.cpp/src/parakeet.cpp:3645-3650 | the texts of the pieces, one after another |
| `SentencePiece.JoinIsUnmark` | whisper.cpp/src/parakeet.cpp:3645-3650 | joining piece by piece is replacing marks in the joined bytes, as no mark is split between pieces of whole code points |
| `SentencePiece.RoundTrip` | whisper.cpp/src/parakeet.cpp:2905-2936 | tokenizing and joining gives the text without leading white space, every other white-space byte and U+2581 a space |
| `SentenceCodepoints.LengthMasks` | whisper.cpp/src/parakeet.cpp:538-544 | the length that a first byte announces, by the masks |
| `SentenceCodepoints.NormalizedCodepoints` | whisper.cpp/src/parakeet.cpp:550-564 | for valid text: U+2581 and then the code points with white space replaced by it |
| `SentenceCodepoints.TokenizeIsGreedy` | whisper.cpp/src/parakeet.cpp:2905-2936 | for valid text: the longest piece of the vocabulary each time, or the unknown token for one whole code point |
| `SentenceCodepoints.PieceTextCodepoints` | whisper.cpp/src/parakeet.cpp:566-589 | for valid pieces: code point by code point, U+2581 shown as a space but dropped before the first text |
| `SentenceCodepoints.SinglesCover` | whisper.cpp/src/parakeet.cpp:2905-2936 | a vocabulary of valid pieces that has every code point of the text leaves nothing to the unknown token |
| `SentenceCodepoints.RoundTripCodepoints` | whisper.cpp/src/parakeet.cpp:2905-2936 | for valid text: tokenizing and joining gives its code points from the first one on that is neither white space nor U+2581, each of these shown as a space |
| `Codepoints.WholeConcat` | whisper.cpp/examples/common-whisper.cpp:212-227 | after whole code points, text is whole exactly when the rest is |
| `Codepoints.LeadMasks` | whisper.cpp/examples/common-whisper.cpp:204-222 | the length that a first byte announces, and what a continuation is, by the masks |
| `Codepoints.EncodedIsValid` | whisper.cpp/examples/common-whisper.cpp:212-222 | the UTF-8 (RFC 3629) of every code point that is no surrogate is valid text |
| `Codepoints.ValidIsEncoded` | whisper.cpp/examples/common-whisper.cpp:212-222 | and every valid code point is the UTF-8 of one |
| `Codepoints.ValidShape` | whisper.cpp/examples/common-whisper.cpp:204-222 | its first byte announces its length, and the others are continuations |
| `Codepoints.ValidParts` | whisper.cpp/examples/cli/cli.cpp:767-780 | valid UTF-8 cut where a code point ends is valid on both sides |
| `TokenMerge.TrailingBytesNeeded` | whisper.cpp/examples/common-whisper.cpp:201-227 | how many bytes the last code point lacks |
| `TokenMerge.NothingLacking` | whisper.cpp/examples/common-whisper.cpp:201-227 | at the start of valid text nothing is lacking exactly where a code point ends |
| `TokenMerge.MergePiece` | whisper.cpp/examples/cli/cli.cpp:767-779 | one merged token: its text, first token's data and last end time; whole, and at no earlier token boundary already whole |
| `TokenMerge.Merge` | whisper.cpp/examples/cli/cli.cpp:767-780 | the bytes are conserved and in order; on whole code points every merged piece is whole and as short as possible; on any concatenation of valid code points (RFC 3629) every piece is valid on its own and no shorter run of its tokens is; its end is that of its last token that has one |
| `GrammarText.ParseSpace` | whisper.cpp/examples/grammar-parser.cpp:76-89 | blanks and comments, across lines only where allowed |
| `GrammarText.ParseName` | whisper.cpp/examples/grammar-parser.cpp:91-100 | the longest run of name characters, an error if there is none |
| `GrammarText.ParseHex` | whisper.cpp/examples/grammar-parser.cpp:53-74 | exactly that many hexadecimal digits, or an error |
| `GrammarText.DecodeUtf8` | whisper.cpp/examples/grammar-parser.cpp:12-25 | up to the announced number of bytes, cut short by the end of the text |
| `GrammarUtf8.DecodeEncoded` | whisper.cpp/examples/grammar-parser.cpp:12-25 | every code point but zero written in UTF-8 (RFC 3629) is read back, with its length |
| `GrammarUtf8.EncodedReadsBack` | whisper.cpp/examples/grammar-parser.cpp:102-123 | so is every character of a literal or class that stands for itself: all but zero and the backslash |
| `GrammarUtf8.FirstByteBits` | whisper.cpp/examples/grammar-parser.cpp:12-25 | the length and payload of any first byte, well formed or not, by its bits |
| `GrammarUtf8.NamedReadsBack` | whisper.cpp/examples/grammar-parser.cpp:109-116 | every escape by name is read back: tab, return, newline, backslash, quote and brackets |
| `GrammarUtf8.EscapeReadsBack` | whisper.cpp/examples/grammar-parser.cpp:106-108 | and every number of two, four or eight hexadecimal digits in either case |
| `GrammarUtf8.WrittenReadsBack` | whisper.cpp/examples/grammar-parser.cpp:102-123 | in whichever of these ways a code point is written, it is read back |
| `GrammarUtf8.EscapeIsWritten` | whisper.cpp/examples/grammar-parser.cpp:102-123 | and every escape that is read is one of them |
| `GrammarWriting.SpaceIsLayout` | whisper.cpp/examples/grammar-parser.cpp:76-89 | what is skipped is blanks, comments and, where allowed, line ends, and it ends before something else |
| `GrammarWriting.LayoutIsSkipped` | whisper.cpp/examples/grammar-parser.cpp:76-89 | all of them in front of something else are skipped |
| `GrammarWriting.NameIsRead` | whisper.cpp/examples/grammar-parser.cpp:91-100 | a run of letters, digits and hyphens in front of anything else is read as a name |
| `GrammarWriting.WordReadsBack` | whisper.cpp/examples/grammar-parser.cpp:141-149 | however a word is written, character by character and with escapes in between, its spelling is that word |
| `GrammarWriting.LiteralReadsBack` | whisper.cpp/examples/grammar-parser.cpp:141-149 | a quoted word is a literal for it |
| `GrammarForm.DecodeRule` | whisper.cpp/include/whisper.h:163-185 | the flat encoding of a rule determines its alternatives, symbols and character sets |
| `GrammarLanguage.ConcatMatch` | whisper.cpp/include/whisper.h:163-185 | words of two symbol sequences, joined, belong to the joined sequence |
| `GrammarLanguage.SplitMatch` | whisper.cpp/include/whisper.h:163-185 | and every word of the joined sequence falls into such two |
| `GrammarLanguage.ClassMatches` | whisper.cpp/include/whisper.h:163-185 | a class matches one character: one named or between joined bounds, all others when negated |
| `GrammarEquivalence.DerivedTimesMeant` | whisper.cpp/examples/grammar-parser.cpp:196-219 | what the rule made for *, + or ? derives is a permitted number of repetitions |
| `GrammarEquivalence.MeantTimesDerived` | whisper.cpp/examples/grammar-parser.cpp:196-219 | and every permitted number of repetitions is derived from it |
| `GrammarEquivalence.DerivedAltsMeant` | whisper.cpp/examples/grammar-parser.cpp:132-248 | every word derived from emitted rules is meant by their source |
| `GrammarEquivalence.MeantAltsDerived` | whisper.cpp/examples/grammar-parser.cpp:132-248 | every word that the source means is derived from the emitted rules |
| `GrammarEquivalence.CompilingPreservesMeaning` | whisper.cpp/examples/grammar-parser.cpp:132-272 | for each name, with literals, classes, groups, alternation and repetitions at any nesting, the least language of the rules is that of the source |
| `GrammarMeaning.AltsProperMeans` | whisper.cpp/examples/grammar-parser.cpp:150-172 | meaning is asked for where neither [] nor [^] is in a definition, at any depth |
| `GrammarEquivalence.ClassMeaning` | whisper.cpp/examples/grammar-parser.cpp:150-172 | what is emitted for a class means the class exactly when it names a character: an empty one matches the empty word |
| `GrammarState.DecimalUnique` | whisper.cpp/examples/grammar-parser.cpp:35 | decimal numerals are unique |
| `GrammarState.DecimalValue` | whisper.cpp/examples/grammar-parser.cpp:35 | and have the value of their number |
| `GrammarReading.ItemRead` | whisper.cpp/examples/grammar-parser.cpp:132-230 | a spelled item is what the reading comes to at its place, whatever was read before |
| `GrammarReading.AltsRead` | whisper.cpp/examples/grammar-parser.cpp:232-248 | so are spelled alternatives, up to their end |
| `GrammarReading.GrammarRead` | whisper.cpp/examples/grammar-parser.cpp:250-286 | and whole grammars |
| `GrammarReading.SpelledUnique` | whisper.cpp/examples/grammar-parser.cpp:274-286 | a text spells at most one grammar without repeated empty items, but for the numbers of generated rules |
| `GrammarReading.RefusedIsNotSpelled` | whisper.cpp/examples/grammar-parser.cpp:274-286 | where the reading refuses, the text spells no such grammar |
| `GrammarUnique.MeaningUnique` | whisper.cpp/examples/grammar-parser.cpp:274-286 | so the text determines the language of every name |
| `GrammarUnique.EmptyRepeatRefused` | whisper.cpp/examples/grammar-parser.cpp:192-194 | a repeated empty literal is a grammar by its spelling, but is refused |
| `GrammarState.MadeNameFresh` | whisper.cpp/examples/grammar-parser.cpp:33-37 | a generated name is never taken, because no name character is an underscore |
| `GrammarState.AddId` | whisper.cpp/examples/grammar-parser.cpp:27-37 | giving out the next number keeps names and numbers a bijection onto 0..size-1 |
| `GrammarState.AltsStay` | whisper.cpp/examples/grammar-parser.cpp:39-47 | storing further rules leaves what was emitted for an item intact |
| `GrammarPieces.ParseLiteral` | whisper.cpp/examples/grammar-parser.cpp:141-149 | the elements and the spelling of a literal; refused exactly where the reading of one is |
| `GrammarPieces.ParseRange` | whisper.cpp/examples/grammar-parser.cpp:159-170 | one character or span of a class; refused exactly where the reading of one is |
| `GrammarPieces.ParseClass` | whisper.cpp/examples/grammar-parser.cpp:150-172 | the elements and the spelling of a class; refused exactly where the reading of one is |
| `GrammarPieces.EmitsElements` | whisper.cpp/examples/grammar-parser.cpp:192-194 | an item put elements out, so that a sign may follow, unless it is an empty literal or class |
| `GrammarPieces.RepeatElementsForm` | whisper.cpp/examples/grammar-parser.cpp:196-217 | the elements pushed for a repetition encode S S' or nothing, S S' or S, S or nothing |
| `GrammarParser.ParseState.GetSymbolId` | whisper.cpp/examples/grammar-parser.cpp:27-31 | the number of a name, a new one exactly when it is new |
| `GrammarParser.ParseState.GenerateSymbolId` | whisper.cpp/examples/grammar-parser.cpp:33-37 | the next number under a fresh name, without a rule yet |
| `GrammarParser.ParseState.AddRule` | whisper.cpp/examples/grammar-parser.cpp:39-47 | that rule is stored, no other changes |
| `GrammarParser.ParseState.ParseReference` | whisper.cpp/examples/grammar-parser.cpp:173-178 | a reference and its spelling |
| `GrammarParser.ParseState.ParseGroup` | whisper.cpp/examples/grammar-parser.cpp:179-190 | a group's rule is made and referred to; refused exactly where the reading of one is |
| `GrammarParser.ParseState.ParseRepetition` | whisper.cpp/examples/grammar-parser.cpp:191-224 | the last item moves into a rule of its own |
| `GrammarParser.SignRefused` | whisper.cpp/examples/grammar-parser.cpp:192-194 | a sign is refused exactly where the last item, if there is one, put nothing out |
| `GrammarParser.ParseState.ParseItem` | whisper.cpp/examples/grammar-parser.cpp:141-190 | each kind of item; refused exactly where the reading of one is |
| `GrammarParser.ParseState.ParseSequence` | whisper.cpp/examples/grammar-parser.cpp:132-230 | the items that the text spells, their elements, and all rules made for them; refused exactly where the reading is |
| `GrammarParser.ParseState.ParseAlternates` | whisper.cpp/examples/grammar-parser.cpp:232-248 | alternatives, and their rule stored under the given number; refused exactly where the reading is |
| `GrammarProgram.ParseRule` | whisper.cpp/examples/grammar-parser.cpp:250-272 | a definition that the text spells becomes the meaning of its name, all others keep theirs; refused exactly where the reading is |
| `GrammarProgram.Parse` | whisper.cpp/examples/grammar-parser.cpp:274-286 | succeeds exactly when the text spells a grammar in which no empty literal or class is repeated, else leaves an empty state; on success, if no class is empty, the rules derive for every name exactly the language of its last definition in the text; rules are well formed with references below the number of symbols, and missing exactly for names never defined |
| `GrammarProgram.MissingRules` | whisper.cpp/examples/grammar-parser.cpp:337-345 | a number has no rule exactly when its name is in the text and is never defined; generated names always have theirs |
| `GrammarCheck.RuleSound` | whisper.cpp/examples/grammar-parser.cpp:337-397 | a compiled rule has END only at its end, modifiers only after characters, references only to named symbols |
| `GrammarCheck.NamesByNumber` | whisper.cpp/examples/grammar-parser.cpp:401-404 | every number below the size leads back to its one name |
| `GrammarCheck.PrintRule` | whisper.cpp/examples/grammar-parser.cpp:337-397 | printing fails exactly when the rule does not end with its only END, a modifier follows no character, or a number has no name |
| `GrammarCheck.PrintGrammar` | whisper.cpp/examples/grammar-parser.cpp:399-415 | rules are printed in order up to the first number of a name that was referenced but never defined, and all of them exactly when there is none among the rules |
| `EditDistance.NoShorter` | whisper.cpp/examples/common.cpp:659-665 | no script of insertions, deletions and replacements is shorter than the recurrence says |
| `EditDistance.DistanceIsShortest` | whisper.cpp/examples/common.cpp:659-665 | and some script is that short |
| `EditDistance.Symmetric` | whisper.cpp/examples/common.cpp:648-670 | the distance is symmetric |
| `EditDistance.ZeroOnlyForEqual` | whisper.cpp/examples/common.cpp:648-670 | zero only for equal strings |
| `EditDistance.AtMostLonger` | whisper.cpp/examples/common.cpp:648-670 | at most the longer length |
| `EditDistance.ComposeWorks` | whisper.cpp/examples/common.cpp:648-670 | scripts compose without getting longer than both |
| `EditDistance.Triangle` | whisper.cpp/examples/common.cpp:648-670 | the distance obeys the triangle inequality |
| `EditDistance.NextEntry` | whisper.cpp/examples/common.cpp:659-665 | an entry from its three neighbours, in row 0 as well |
| `EditDistance.FillRow` | whisper.cpp/examples/common.cpp:660-663 | a row from the one above |
| `EditDistance.Similarity` | whisper.cpp/examples/common.cpp:648-670 | 1 minus the distance over the longer length from two swapped rows; not a number exactly for two empty strings |
| `EditDistance.ScoreRange` | whisper.cpp/examples/common.cpp:667-669 | the score lies in [0, 1] and is 1 only for equal strings |
| `AudioRing.AudioAsync.constructor` | whisper.cpp/examples/common-sdl.cpp:5-9 | no device, not running, an empty history |
| `AudioRing.AudioAsync.Init` | whisper.cpp/examples/common-sdl.cpp:17-79 | with a device, the buffer has room for the whole length at the sample rate obtained; without, nothing changes |
| `AudioRing.AudioAsync.Resume` | whisper.cpp/examples/common-sdl.cpp:81-97 | starts a device that is there and not running |
| `AudioRing.AudioAsync.Pause` | whisper.cpp/examples/common-sdl.cpp:99-115 | stops one that is running |
| `AudioRing.AudioAsync.Clear` | whisper.cpp/examples/common-sdl.cpp:117-136 | forgets the history, exactly while running |
| `AudioRing.AudioAsync.Callback` | whisper.cpp/examples/common-sdl.cpp:139-168 | while running adds the block to the history, also one longer than the ring |
| `AudioRing.AudioAsync.Get` | whisper.cpp/examples/common-sdl.cpp:170-215 | the last min(rate * milliseconds / 1000, received, capacity) samples since the last clear, in order; the whole length for zero or less |
| `AudioRing.WrittenHolds` | whisper.cpp/examples/common-sdl.cpp:153-167 | writing around the end keeps the ring the end of the history |

## Left out

- CodebookSetup.Build: starts from the lengths; reading them from the header bits, the multiplicand tables and failed allocations are not modelled. qsort is a function that sorts distinct keys.
- HuffmanDecode.DecodeRaw: asks that dense books with more than 32767 entries have no short codeword among the later ones, as the fast table leaves those out.
- DecodeStream.Decode: the slot in front of sorted_values is the constant -1.
- HuffmanDecode.DecodeScalarRaw: says which codeword comes out only where no codeword of at most ten bits comes next in a dense book, as its sorted table holds none of those.
- HuffmanLookup.SearchBook: with an underfull code it may name an entry that does not match, as the search does not check; the contract then promises an entry only.
- BitReader.GetBits: asks for at most 30 bits, or 32 when fewer are held, the widths at which the shifts in C are defined.
- DecodeStream.ReadFields: codewords of at most 25 bits and numbers of at most 24; longer ones may exceed what a refill shows, and DecodeStream.Decode states exactly how far that is.
- OggReader.Vorb.StartPage: reads memory streams only, and leaves out granule positions and the bookkeeping of known segments.
- OggLookahead.ReadPresentPacket: stands for decoding by reading the packet to its end.
- BitReader.PrepHuffman: after a read past the end it asks that no byte is left, as at the end of a whole packet; otherwise the source shifts by a negative amount.
- FloorDecode.DecodeFloor: asks for residuals below the range, as a conforming stream has; the residue vectors and the channels are not modelled, and the spectrum is real.
- PageSeek.SeekCoarse: a file is its list of back-to-back pages, which PageSeek.FindPageIsSearch ties to the bytes; interpolated offsets are exact reals and any offset is admitted by the clamp; decoding the first frames afterwards is not modelled.
- PageFind.FindPage: memory streams only.
- Fft.FftRecursive: exact reals instead of floats, tables that obey the angle-addition law.
- AttentionOutput.OutputAt: exact reals; the probabilities are arbitrary, the softmax and the projections are not modelled.
- TdtDecode.State.CreateTokenData: leaves out the probability and the word-start flag.
- TdtDecode.State.Decode: the networks are arbitrary answers by call number; the token probability, callbacks and timing are left out.
- TdtDecode.RefineTimestamps: which tokens are punctuation is a parameter.
- SentencePiece.RoundTrip: for a fresh result; a zero byte, which would end a C string, is not treated specially.
- GrammarProgram.Parse: characters stand for bytes and code points are unbounded numbers; messages of errors are left out.
- GrammarCheck.PrintGrammar: the printed text is not modelled.
- EditDistance.Similarity: exact reals instead of floats.
- AudioRing.AudioAsync.Init: one device per object.
- AudioRing.AudioAsync.Callback: asks for a buffer with room once running, as the source takes a remainder by its size.
- AudioRing.AudioAsync.Get: whole samples, and no overflow of sample rate times milliseconds; each method runs under the lock and is one step.
- Inverse MDCT, windows, residues, sample conversion: floating-point kernels in which rounding is the point.
- Model loading, the tensor library, softmax, LSTM numerics and GPU selection.
- Audio devices, files, command lines, output writers other than the token merge, language bindings.
- The push-mode page search of stb_vorbis.c, whose running checksum need not hold when the scan is cut short.
