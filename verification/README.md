# Piece tables of a terminal text editor

This project models the core of a small Go text editor:

- the doubly linked list that holds its pieces;
- the rune piece table, which indexes documents by codepoint over `[]rune` buffers;
- the byte piece table, which keeps UTF-8 bytes in its buffers and indexes them both by codepoint and by byte.

A piece table keeps the text it was opened with in an *original buffer*. Everything typed later is appended to an *add buffer*. The document is the concatenation of the *pieces*, where each piece is a slice of one of the two buffers. Insertion appends text to the add buffer and splices a new piece into the list. Deletion shortens, splits or removes pieces. Neither buffer is ever rewritten.

Modules:

- `LinkedList` (linked_list.dfy) is the list as a class over `Node` objects. Each method is proved against the ghost sequence of the list's values and keeps the invariant that the `next`/`previous` links, `first`, `last` and `Length` agree.
- `Spans` (spans.dfy) holds what both tables share. A piece is a slice of a buffer and the document is the concatenation of the pieces' slices. It also gives piece starts and the list insertions and removals the tables perform, as functions on sequences.
- `RunePieceTable` (rune_piece_table.dfy) is the rune table: a class whose fields are the buffers, the pieces and `Length`. Its searches and edits are methods on values, proved against the document `Text()`.
- `Utf8` (utf8.dfy) is UTF-8 as defined in sections 3 and 4 of RFC 3629, together with the decoding conventions of Go's `unicode/utf8`. It covers decoding one codepoint, counting codepoints, codepoint offsets, and encoding with its round trip.
- `BytePieces`, `ByteSearch`, `ByteEdit`, `ByteDelete` and `ByteRead` hold the byte table's piece arithmetic, its searches (`GetBytePosition`, `FindPiece`, `FindPieces`), its insertion, its deletion and its copying loop (`GetSequence`).
- `BytePieceTable` (byte_piece_table.dfy) is the byte table class. Its operations are proved against the document `Document()` and its decoding.
- `Decimal` is `strconv.Itoa` on naturals, and `UintMath` is the tables' `Pow` over 64-bit `uint`.
- `Outcomes` holds the error values the Go functions return.

A Go `error` is modelled as an `Err`/`Fail` value that names its kind (`InvalidArgument`, `OutOfRange`, `Inconsistent`). The tables' `Collection` interface is modelled as the concrete list it always holds, as a sequence of pieces. A Go `*Piece` that `Delete` or `Insert` writes through becomes a fresh piece value that replaces the old one in the sequence.

## Model

| member | source | states |
|---|---|---|
| LinkedList.Node.constructor | linked_list.go:8-12 | a node holds its value and is unlinked |
| LinkedList.LinkedList.constructor | linked_list.go:20-27 | a new list holds exactly the given value, with length 1 and first == last, and its links are consistent |
| LinkedList.LinkedList.Size | linked_list.go:45-47 | the size is the number of values in the list, never below one |
| LinkedList.LinkedList.GetNodeAt | linked_list.go:29-43 | the node at an element index; nil at index == Length; an out-of-range error past that |
| LinkedList.LinkedList.Append | linked_list.go:49-55 | the value becomes the last element and Length grows by one, with links kept consistent |
| LinkedList.LinkedList.InsertAt | linked_list.go:57-86 | at an index up to Length, the value is spliced in at that index and Length grows by one; past Length, an error and nothing changes |
| LinkedList.LinkedList.LinkFirst | linked_list.go:62-67 | the value becomes the first element |
| LinkedList.LinkedList.LinkBefore | linked_list.go:68-79 | the value is spliced in just before the node at an interior index |
| LinkedList.LinkedList.Pop | linked_list.go:88-92 | the last element is removed and Length drops by one |
| LinkedList.LinkedList.DeleteAt | linked_list.go:94-120 | removing element i closes the gap, leaves the other elements in order and lowers Length by one; an index that is not an element's index is refused with nothing changed (see Findings) |
| LinkedList.LinkedList.UnlinkFirst | linked_list.go:100-103 | the first element is removed |
| LinkedList.LinkedList.Unlink | linked_list.go:104-113 | an interior element is removed and its neighbours are linked to each other |
| LinkedList.LinkedList.GetAt | linked_list.go:122-131 | the value of element i; past Length, an out-of-range error |
| LinkedList.LinkedList.Forward | linked_list.go:133-143 | yields every (index, value) pair from front to back |
| LinkedList.LinkedList.Backward | linked_list.go:145-155 | yields every (index, value) pair from back to front, indices counting down from Length-1 |
| LinkedList.LinkedList.Print | linked_list.go:157-165 | the values of the list in order |
| LinkedList.DeleteAtAsWritten | linked_list.go:94-120 | Go's effect on (values, Length): refusal past Length and removal of element i below Length |
| LinkedList.DeleteAtPastEndDesynchronises | linked_list.go:96-118 | DeleteAt(Length) keeps every node yet lowers Length, so Length stops counting the nodes |
| Spans.DeleteAt | linked_list.go:94-120 | removing a list slot shortens the list by one, keeps what is before and after the slot in order, and never empties a non-empty list |
| RunePieceTable.SearchForward | piece_table.go:225-244 | the front-to-back search returns a contiguous run of pieces: the first ends after the position, the last starts at or before the span's end, and the next starts after it |
| RunePieceTable.SearchBackward | piece_table.go:245-268 | the back-to-front search returns the run from the last piece starting before the position to the last piece starting before the span's end |
| RunePieceTable.RunBounds | piece_table.go:191-270 | both searches return a run that reaches the span's end or the end of the document, and is non-empty whenever the document and the span are |
| RunePieceTable.RunWindow | piece_table.go:88-106 | the runes of the run found hold the requested window of the document at the run's start position |
| RunePieceTable.Gather | piece_table.go:95-103 | copying each piece's slice of its buffer gives the concatenation of the pieces |
| RunePieceTable.PieceRunes | piece_table.go:96-102 | a piece's runes are its slice of the buffer it names |
| RunePieceTable.Place | piece_table.go:298-346 | inserting at a position splices the piece's text into the document at exactly that position, and the list takes the shape of `Placed`: the piece goes at the front, at the back, before the found piece, or between two halves of it |
| RunePieceTable.PlaceWithin | piece_table.go:306-345 | inside the document, the piece goes before the found piece when the position is that piece's start, and between its halves otherwise |
| RunePieceTable.PlaceText | piece_table.go:284-346 | the new piece over the text appended to the add buffer lands at the position, and the document gains exactly the text there |
| RunePieceTable.PutPiece | piece_table.go:300-313 | inserting a piece at a list slot where the document reaches the position puts its text at that position |
| RunePieceTable.SplitPiece | piece_table.go:335-344 | the found piece keeps its start and the length up to the position; the new piece follows it; a third piece starts where the first half ends with the rest of the length and the same buffer; the text is spliced in at the position |
| RunePieceTable.PlacedSplit | piece_table.go:335-344 | a split strictly inside the found piece is the `Placed` shape |
| RunePieceTable.DeleteCheck | piece_table.go:361-374 | Delete as written passes exactly when 0 < position and position+len <= Length; position 0 draws the zero-length error |
| RunePieceTable.DeleteCheckIntended | piece_table.go:361-374 | the intended check passes exactly when 0 < len and position+len <= Length; only len == 0 draws the zero-length error |
| RunePieceTable.DeleteCheckRefusesStart | piece_table.go:361-362 | deleting the first rune is refused as written but accepted as intended, and a zero-length deletion the other way round |
| RunePieceTable.ShrinkAsWritten | piece_table.go:437-440 | the one-piece deletion as written leaves a piece of length len (the span's length) inside the old one |
| RunePieceTable.ShrinkAsWrittenText | piece_table.go:437-440 | as written, the one piece keeps the last len runes when the span starts at it and the first len runes otherwise |
| RunePieceTable.ShrinkAsWrittenKeepsDeleted | piece_table.go:437-440 | deleting "b" from "abc" leaves "a" as written, where "ac" is meant |
| RunePieceTable.Follow | piece_table.go:352-356 | where a piece Delete still points to sits once DeleteIfEmpty removes a slot: it does not move when it is before the slot, is gone when it is the slot, and moves down by one after it |
| RunePieceTable.DropIfEmpty | piece_table.go:352-356 | an empty piece's slot is removed and nothing else changes; a piece with runes leaves the list as it was |
| RunePieceTable.DropTracked | piece_table.go:352-356 | one DeleteIfEmpty as Delete calls it: the list drops the slot when the piece is empty, the tracked slot follows, and the slots before the search's run are kept |
| RunePieceTable.DeleteInOne | piece_table.go:435-441 | Delete on one piece keeps every piece before the run and never empties the list |
| RunePieceTable.DeleteInTwo | piece_table.go:442-473 | Delete on two pieces keeps every piece before the run and never empties the list |
| RunePieceTable.DeleteInMany | piece_table.go:474-491 | Delete on three or more pieces keeps every piece before the run and never empties the list; when no piece of the run empties, the result is `ManyAsWritten`: the middle pieces stay (see Findings) |
| RunePieceTable.DropMiddle | piece_table.go:481-485 | the middle pieces' DeleteIfEmpty calls keep the prefix, and the running start ends at the last piece's start; when no middle piece is empty, the list and the last piece's slot are unchanged |
| RunePieceTable.ManyAsWritten | piece_table.go:474-491 | the list Delete leaves from a run of three or more pieces none of which empties: same length, the first piece cut to its head, the last to its rest, and every piece between kept as it was |
| RunePieceTable.ManyAsWrittenKeepsMiddle | piece_table.go:481-485 | "ab" \| "cd" \| "ef", Delete(1, 4) keeps the middle piece: the text becomes "acdf" while the length drops to 2, where the deletion means "af" |
| RunePieceTable.DeleteInRun | piece_table.go:435-491 | Delete as written keeps every piece that starts before the position and never empties the list |
| RunePieceTable.DeleteBySize | piece_table.go:435-491 | dispatch on the run's size, with the prefix kept |
| RunePieceTable.CutFound | piece_table.go:435-491 | the intended deletion removes exactly the span: the document becomes the text before the position followed by the text after the span, and the total drops by len |
| RunePieceTable.PieceTable.constructor | piece_table.go:58-72 | a new table holds exactly the content as one original piece, with an empty add buffer and Length = len(content) |
| RunePieceTable.PieceTable.Text | piece_table.go:74-86 | the document's length is the sum of the piece lengths |
| RunePieceTable.PieceTable.ToString | piece_table.go:74-86 | the string is well-formed UTF-8 that decodes back to the document, codepoint for codepoint |
| RunePieceTable.PieceTable.PiecesAmount | piece_table.go:150-152 | the number of pieces, never zero |
| RunePieceTable.PieceTable.FindPiece | piece_table.go:156-189 | returns the piece holding the position with its start, end and index; the search runs from the front in the first half and from the back otherwise; past Length, an out-of-range error |
| RunePieceTable.PieceTable.FindPieces | piece_table.go:191-270 | returns the run of pieces covering the span, as the forward or backward search defines it by which half the position is in; past Length, an error |
| RunePieceTable.PieceTable.Insert | piece_table.go:273-350 | empty text and a position past Length are refused with nothing changed; otherwise the add buffer gains the text, Length grows by its length, the document becomes text-before + text + text-after, and the pieces take the `Placed` shape for a piece `k` that holds the position strictly before its end, so at a boundary between two pieces the text goes before the second one, never into an empty right half of the first |
| RunePieceTable.PieceTable.DeleteIfEmpty | piece_table.go:352-356 | the list loses the slot exactly when the piece is empty, and the buffers and Length are untouched |
| RunePieceTable.PieceTable.Delete | piece_table.go:358-495 | the result is DeleteCheck's; a refusal changes nothing; a pass lowers Length by len, never adds pieces and keeps every piece that starts before the position |
| RunePieceTable.PieceTable.DeleteCorrected | piece_table.go:358-495 | the intended Delete: DeleteCheckIntended's verdict, and on a pass the document loses exactly the span |
| RunePieceTable.PieceTable.GetSequence | piece_table.go:88-106 | past Length, an error; otherwise the runes of the run found, which hold the window from the position at the run's start position returned alongside |
| RunePieceTable.PieceTable.GetAt | piece_table.go:108-129 | the rune at the position; at Length, the last rune (the walk runs off the run's end); past Length or in an empty document, an error |
| RunePieceTable.PieceTable.PrintPosition | piece_table.go:132-148 | past Length, an error; otherwise the document between newlines, then a caret line with '^' under the position and spaces elsewhere, then the "Position: " label |
| RunePieceTable.Caret | piece_table.go:137-145 | the caret line has one mark per byte of the framed document but the last, with '^' exactly at the position |
| RunePieceTable.CaretThenLabel | piece_table.go:137-146 | appending the label keeps the document and the caret line in front of it |
| Utf8.DecodeRune | piece-table/piece_table.go:84 | decoding takes the bytes of one valid sequence, or one byte of RuneError where none starts, and none at the end |
| Utf8.EncodeRune | piece_table.go:85 | a scalar value encodes to one to four bytes, one exactly for ASCII |
| Utf8.EncodeLength | piece_table.go:137-139 | a codepoint string is at least as long in bytes as in codepoints, and equally long when all are ASCII |
| Utf8.DecodeEncodeRune | piece_table.go:85 | decoding the encoding of one scalar value gives it back with its full width, whatever follows |
| Utf8.EncodeDecode | piece_table.go:74-86 | an encoded codepoint string is well-formed UTF-8, decodes back to itself and counts as many codepoints |
| Utf8.DecodeInsert | piece-table/piece_table.go:431-523 | putting well-formed text at the offset of codepoint p inserts its codepoints at p in the decoding |
| Utf8.DecodeCut | piece-table/piece_table.go:533-613 | cutting the bytes of codepoints p to q removes exactly those codepoints from the decoding |
| Decimal.Itoa | piece_table.go:146 | the decimal digits of a natural, with no leading zero |
| Decimal.ValueItoa | piece_table.go:146 | reading Itoa's digits back gives the number |
| Decimal.ItoaInjective | piece_table.go:146 | distinct numbers print differently |
| UintMath.Pow | piece_table.go:499-514 | the loop computes x^y modulo 2^64 |
| BytePieceTable.RuneForward | piece-table/piece_table.go:79-92 | the codepoints yielded are the decoding of the sequence, and there are RuneCount of them |
| BytePieceTable.PieceTable.constructor | piece-table/piece_table.go:103-121 | the document is the content as one original piece, with byte and rune lengths len(content) and RuneCount(content) |
| BytePieceTable.PieceTable.ToString | piece-table/piece_table.go:180-192 | the string is the document, well-formed, with ByteLength bytes and RuneLength codepoints |
| BytePieces.Join | piece-table/piece_table.go:182-190 | copying each piece's bytes from the buffer it points into, front to back, gives exactly the text the pieces stand for |
| BytePieceTable.PieceTable.Runes | piece-table/piece_table.go:131-145 | yields the document's decoding, RuneLength codepoints |
| BytePieceTable.PieceTable.PiecesAmount | piece-table/piece_table.go:194-196 | the number of pieces; a table without pieces holds no text |
| BytePieceTable.PieceTable.Empty | piece-table/piece_table.go:615-617 | true exactly when the document is empty |
| BytePieceTable.PieceTable.FindPiece | piece-table/piece_table.go:264-320 | past RuneLength, an error; otherwise the piece holding the position with its rune and byte starts and ends, and the byte offset and width of the codepoint there; nothing at position 0 of a document shorter than two codepoints |
| BytePieceTable.PieceTable.FindPieces | piece-table/piece_table.go:325-428 | past RuneLength, an error; otherwise no pieces exactly when the list is empty or the backward search runs at 0 with nothing to cover; otherwise the covering run with the span's byte position and byte length; a forward search past the end reports every piece from the position's on with byte length 0 |
| BytePieceTable.PieceTable.GetSequence | piece-table/piece_table.go:201-236 | the bytes of codepoints position to position+len, decoding to that slice of the document, with the start of the piece where the copy stopped; an error exactly when FindPieces finds nothing; a forward request past the end yields no bytes (see Findings) |
| BytePieceTable.PieceTable.GetSequenceCorrected | piece-table/piece_table.go:201-236 | clipped to the end of the document, the sequence decodes to the document's codepoints from the position on in both search directions |
| BytePieceTable.PieceTable.GetAt | piece-table/piece_table.go:238-259 | the codepoint at the position; an error at or past RuneLength |
| BytePieceTable.PieceTable.Insert | piece-table/piece_table.go:431-523 | empty text and a position past RuneLength are refused with nothing changed; otherwise the text's codepoint count is returned, the add buffer and both totals grow by the text, the document becomes bytes-before + text + bytes-after at the position's byte offset, its decoding gains the text's codepoints at the position, and the pieces take the `Placement` shape for a piece `k` that starts before the position, so at a boundary the text is merged into or put after the piece ending there, as the search reports it |
| BytePieceTable.PieceTable.InsertCorrected | piece-table/piece_table.go:431-523 | the same promises with no restriction at position 0, so an empty document takes text too |
| BytePieceTable.PieceTable.Put | piece-table/piece_table.go:450-522 | the new piece starts at the add buffer's old byte and codepoint lengths, goes where `Placement` says, and the document gains exactly the text |
| BytePieceTable.PieceTable.DeleteIfEmpty | piece-table/piece_table.go:525-531 | reports true exactly when the piece holds no bytes, and then removes its slot; buffers and totals are untouched, and when the slot holds that empty piece the document stays the same |
| BytePieceTable.PieceTable.Delete | piece-table/piece_table.go:533-613 | zero length and a span past RuneLength are refused with nothing changed; a pass lowers RuneLength by len and ByteLength by the span's bytes; unless the span lies strictly inside one piece, the document loses exactly the span's bytes and the list is the head and tail of the run the span touches (its first piece holds the span's first codepoint, its last piece the span's last), each kept only when non-empty (`TrimmedRun`); inside one piece, the list grows by one (see Findings) |
| BytePieceTable.PieceTable.DeleteCorrected | piece-table/piece_table.go:533-613 | the intended Delete: in every case the document loses exactly the span and the list is `TrimmedRun` on the run the span touches |
| BytePieceTable.PieceTable.Remove | piece-table/piece_table.go:533-613 | the checks and edit of Delete with the interior tail as written or as intended; the list is `TrimmedRun` on the run the span touches whenever the document loses exactly the span |
| ByteDelete.TouchedUnique | piece-table/piece_table.go:547-550 | at most one run of pieces holds both the span's first codepoint in its first piece and its last codepoint in its last piece, so `TrimmedRun` names a single list |
| BytePieceTable.PieceTable.Cut | piece-table/piece_table.go:547-611 | the edit after the checks: totals drop by the span and the pieces are trimmed |
| BytePieceTable.Excise | piece-table/piece_table.go:547-611 | the same edit on values: codepoint and byte totals drop by the span, and the pieces are `TrimmedRun` unless the tail is computed as written |
| BytePieceTable.SpanDecode | piece-table/piece_table.go:201-236 | the bytes between two codepoint offsets decode to those codepoints, clipped at the document's end |
| ByteSearch.WalkPiece | piece-table/piece_table.go:163-174 | the walk over one piece stops at the position, at its byte offset, with the offset of the codepoint before it; otherwise it passes the whole piece |
| ByteSearch.GetBytePosition | piece-table/piece_table.go:147-177 | the byte position is the start plus the byte offset of the codepoint in the pieces' text, or the end of the text when the position is passed; on one piece the index is where the codepoint before the position starts |
| ByteSearch.Report | piece-table/piece_table.go:275-315 | the report for the piece holding the position, as `Located` defines it |
| ByteSearch.LocateForward | piece-table/piece_table.go:271-292 | the front-to-back FindPiece finds the first piece ending at or after the position |
| ByteSearch.LocateBackward | piece-table/piece_table.go:293-319 | the back-to-front FindPiece finds the last piece starting before the position, and nothing at position 0 |
| ByteSearch.LocatedUnique | piece-table/piece_table.go:264-320 | two reports that locate a position inside their piece (starting before it) are the same report: only one piece holds it |
| ByteSearch.SearchForward | piece-table/piece_table.go:356-388 | within the document, the run covering the span with its byte position and length (`Covers`); past the end, every piece from the position's on with byte length 0 |
| ByteSearch.SearchBackward | piece-table/piece_table.go:389-426 | the run covering the span, or nothing for an empty list or an empty span at 0 |
| ByteSearch.Measure | piece-table/piece_table.go:372-386 | the GetBytePosition calls on the run give the span's byte offset and byte length |
| ByteSearch.MeasureForward | piece-table/piece_table.go:372-386 | the forward report covers the span and ends with the run's last piece |
| ByteSearch.MeasureBackward | piece-table/piece_table.go:404-424 | the backward report covers the span and ends with the first piece of the run |
| ByteEdit.Place | piece-table/piece_table.go:458-516 | the document gains the text at the position's byte offset, and the list takes the `Placement` shape |
| ByteEdit.PlaceAfter | piece-table/piece_table.go:468-482 | at the found piece's end: it is lengthened exactly when `Merges` holds, otherwise the piece goes after it |
| ByteEdit.PlaceInside | piece-table/piece_table.go:483-516 | strictly inside the found piece: the left half keeps its starts and ends at the position; the new piece follows; the right half starts where the left ends, with the rest of both lengths and the same buffer |
| ByteEdit.PlacedBefore | piece-table/piece_table.go:462-467 | inserting at the found piece's start is the `Placement` shape |
| ByteEdit.PlacedAfter | piece-table/piece_table.go:468-482 | the merge or the insertion after the piece is the `Placement` shape |
| ByteEdit.PlacedInside | piece-table/piece_table.go:504-516 | the three-way split is the `Placement` shape |
| ByteEdit.InsertedTotals | piece-table/piece_table.go:519-521 | insertion adds the text's codepoints and bytes to the totals |
| ByteDelete.CutInside | piece-table/piece_table.go:554-567 | a span strictly inside one piece: the head stays and the tail follows, computed as intended or as written |
| ByteDelete.CutSide | piece-table/piece_table.go:568-576 | a span at one end of a piece: what is left of the piece stays when it holds bytes, and the document loses the span |
| ByteDelete.DeleteInOne | piece-table/piece_table.go:552-576 | a run of one piece becomes the run's head and tail, each kept only when non-empty (except the interior tail as written) |
| ByteDelete.DeleteInMany | piece-table/piece_table.go:577-608 | a run of several pieces becomes the first piece's head and the last piece's rest, each kept only when non-empty, with every piece between removed |
| ByteDelete.CutMany | piece-table/piece_table.go:577-608 | the loop sequence of removals and trims gives the `CutRun` shape |
| ByteDelete.KeepFirst | piece-table/piece_table.go:580-595 | the first piece keeps its head when the span starts inside it, and the walk goes on from the next slot |
| ByteDelete.DropRun | piece-table/piece_table.go:596-601 | each middle piece is removed from the same slot, and the running starts reach the last piece's |
| ByteDelete.CutLast | piece-table/piece_table.go:603-607 | the last piece loses the span's part of it and goes when empty |
| ByteDelete.DeleteFound | piece-table/piece_table.go:552-608 | the edit on the reported run: the document loses the span except for the interior tail as written |
| ByteDelete.InteriorFound | piece-table/piece_table.go:554 | the "deletion in the middle" test on a one-piece report holds exactly when the span lies strictly inside one piece |
| ByteDelete.EmptiesExactly | piece-table/piece_table.go:577-608 | a deletion would empty the list exactly when the reported run is every piece and the span runs from its first piece's start to the document's end |
| ByteDelete.DeletedTotals | piece-table/piece_table.go:610-611 | deletion lowers the codepoint total by len and the byte total by the span's bytes, and removes exactly the span from the decoding |
| ByteDelete.TailAsWrittenKeepsText | piece-table/piece_table.go:558-564 | deleting "b" from "aébc" as written leaves "aébc" with an inconsistent piece; the intended tail gives "aéc" |
| ByteDelete.SampleHalves | piece-table/piece_table.go:558-564 | the written tail is not a whole-codepoint slice, and the intended one is |
| ByteRead.WholePiece | piece-table/piece_table.go:123-129 | copying a piece's full byte range gives its text, well-formed with runeLength codepoints |
| ByteRead.Take | piece-table/piece_table.go:209-224 | one round copies the bytes that follow those already copied in the document, and stops within the piece |
| ByteRead.CopyRound | piece-table/piece_table.go:209-229 | one round of the copy loop: either it has copied the whole span and stops at the current piece, or it keeps the loop invariant `Copying` for the next piece |
| ByteRead.Collect | piece-table/piece_table.go:201-236 | given a covering run, the copy yields exactly the span's bytes of the document and the start of the piece where it stopped; an empty report is an error |
| ByteRead.StopsOnce | piece-table/piece_table.go:225-228 | the piece where the copy stops is unique |
| ByteRead.StopsWithin | piece-table/piece_table.go:225-228 | that piece starts at or before the span's end and holds its byte offset |
| ByteRead.CollectPast | piece-table/piece_table.go:208-227 | on the forward report past the end, the first round copies nothing and returns the empty sequence with the piece's start |
| ByteRead.RestNotEmpty | piece-table/piece_table.go:201-236 | the document from any codepoint before the end is not empty, so the empty result past the end loses text |

## Left out

- Invalid UTF-8 in the byte table: the buffers and inserted text are required to be well-formed UTF-8. The decoder models Go's RuneError for bad bytes, but the tables' proofs assume well-formed text.
- The early stop of the Go iterators (`yield` returning false): `Forward`, `Backward`, `Runes` and `RuneForward` yield their whole sequence at once. Nor is the counter that `Forward` and `Backward` declare outside the closure they return (linked_list.go:134, 146): ranging twice over one iterator continues the count from where the first pass left it, while the model numbers every pass from the start.
- `Piece.Hash` (both tables) and the `Collection` interface's other implementations: the hash is unused by the tables' operations.
- The logger calls (piece_table.go:109, piece-table/piece_table.go:231-233): they only write to a log.
- Negative `int` indices of the list: indices are `nat`. Go refuses none of them. `InsertAt` at a negative index only runs `Length++` (linked_list.go:84) and `DeleteAt` only runs `Length--` (linked_list.go:118), so both desynchronise `Length` from the nodes without touching them. `GetNodeAt` walks to the end and returns nil, and `GetAt` then dereferences it.
- LinkedList.LinkedList.GetAt: requires index != Length. Go reads the value of the nil node GetNodeAt returns there and panics.
- LinkedList.LinkedList.DeleteAt: requires Length >= 2 when deleting an element, because Go dereferences nil when removing the only node. Also, index == Length is modelled as a refusal. Go lowers Length there and keeps every node; that behaviour is `DeleteAtAsWritten` (see Findings).
- LinkedList.LinkedList.Pop: requires Length >= 2, because Go dereferences nil on a one-node list.
- Spans.DeleteAt: returns the list unchanged at index == |list|, where Go's `DeleteAt` also lowers the list's `Length`. So `DeleteIfEmpty` on both tables with that index does not model the desynchronised node counter.
- RunePieceTable.PieceTable.Delete: requires 0 < len when the table has one piece. A zero-length deletion there sets the piece's length to 0, and `DeleteIfEmpty` then removes the list's only node, where Go panics. Its contract states the check, the Length arithmetic, no growth of the list and the kept prefix. It does not state the document in general: as written, the one-piece case keeps the wrong runes, the case of three or more pieces keeps the pieces between the first and the last (both in Findings), and the stale slot indices of later `DeleteIfEmpty` calls move other pieces. The result is stated for three or more pieces none of which empties (`RunePieceTable.DeleteInMany`).
- BytePieceTable.PieceTable.Insert: requires 2 <= RuneLength for an insertion at position 0, because Go reads `Pieces[0]` of an empty report there and panics (see Findings).
- BytePieceTable.PieceTable.Delete: requires `!EmptiesList`. Deleting the whole of a document whose end pieces hold text would remove the list's only node, where Go panics. For a span strictly inside one piece, only the count of pieces is stated, because the tail as written is not a slice of whole codepoints.
- BytePieceTable.PieceTable.GetSequence: requires `FitsBuffer` for a forward request past the end. There Go subtracts the piece's document byte start from 0 as a `uint`, and when the piece's buffer offset is smaller the slice bounds wrap and Go panics. Its second result is stated as the start of "a piece holding the end byte offset" (`EndPiece`). `ByteRead.Collect` states it exactly, via `StopsAt`.
- UintMath.Pow: requires y < 2^64 - 1. Go's loop counter wraps and the loop never ends at y == MaxUint.
- The editor, terminal handling and `main` programs that call the tables are not part of this model.

## Findings

| source | as written | input that shows it | evidently intended | confidence | as-written member | corrected member |
|---|---|---|---|---|---|---|
| linked_list.go:96-118 | `index > Length` is the only refusal; at index == Length no branch removes a node, yet `Length--` runs | list [1, 2], DeleteAt(2): nodes stay [1, 2], Length becomes 1 | index == Length refused like any index that names no element | high, not executed | LinkedList.DeleteAtPastEndDesynchronises | LinkedList.LinkedList.DeleteAt |
| piece_table.go:361-362 | Delete refuses position == 0 with the error for a deletion of length 0, and lets length 0 through | "a", Delete(0, 1) refused; Delete(1, 0) accepted | refuse len == 0, accept position 0 | high, not executed | RunePieceTable.DeleteCheckRefusesStart | RunePieceTable.DeleteCheckIntended |
| piece_table.go:437-440 | one-piece deletion sets the piece's length to the deletion's length (`Length -= Length - length`) | "abc", Delete(1, 1) leaves "a" | the piece loses the span, giving "ac" | high, not executed | RunePieceTable.ShrinkAsWrittenKeepsDeleted | RunePieceTable.PieceTable.DeleteCorrected |
| piece-table/piece_table.go:558-564 | the piece after an interior span takes its byte start from a codepoint position, its codepoint length from position+1 and its byte length from a codepoint position | "aébc" (one original piece), Delete(2, 1) leaves "aébc" with an inconsistent piece | the tail starts at the span's end byte and keeps the rest of the piece, giving "aéc" | high, not executed | ByteDelete.TailAsWrittenKeepsText | BytePieceTable.PieceTable.DeleteCorrected |
| piece-table/piece_table.go:443-447 | Insert reads `Pieces[0]` of FindPiece's report before the error check and unused, and that report is empty at position 0 when RuneLength < 2 | empty document, Insert(0, "a") panics | read the piece only where it is used; an empty document takes text | high, not executed | BytePieceTable.PieceTable.Insert | BytePieceTable.PieceTable.InsertCorrected |
| piece-table/piece_table.go:201-236, 356-388 | a forward search for a span reaching past the end reports byte length 0, so GetSequence returns after copying nothing | "abc" (one original piece), GetSequence(0, 10) returns an empty sequence | the document from the position to its end, as the backward search gives | medium, not executed | BytePieceTable.PieceTable.GetSequence, ByteRead.RestNotEmpty | BytePieceTable.PieceTable.GetSequenceCorrected |
| piece_table.go:481-485 | for a run of three or more pieces, the loop over the middle pieces calls DeleteIfEmpty on them without emptying them first, so they stay in the list | "ab" (original) \| "cd" (add) \| "ef" (original), Delete(1, 4) leaves "acdf" with Length 2 | every middle piece is removed, giving "af" | high, not executed | RunePieceTable.ManyAsWrittenKeepsMiddle | RunePieceTable.PieceTable.DeleteCorrected, RunePieceTable.CutFound |
