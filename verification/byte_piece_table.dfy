/** The piece table of the `piecetable` package, over bytes. The document
    is the concatenation of pieces, each a slice of one of two buffers: the
    original content, never changed, and the add buffer, to which every
    inserted text is appended. Positions and lengths given by the editor
    count codepoints; the pieces record both codepoints and bytes, and the
    table keeps both totals. */
module BytePieceTable {
  import opened Outcomes
  import opened Utf8
  import Spans
  import opened BytePieces
  import opened ByteSearch
  import opened ByteRead
  import opened ByteEdit
  import opened ByteDelete

  /** A table over buffers `original` and `add` with pieces `ps` and the
      given counts is consistent: both buffers hold well-formed UTF-8, the
      add buffer has `addRunes` codepoints, every piece covers whole
      codepoints of its buffer, and the totals are those of the pieces,
      hence of the document. */
  ghost predicate Table(original: seq<byte>, add: seq<byte>, addRunes: nat, ps: seq<Piece>,
                        byteLength: nat, runeLength: nat) {
    && WellFormed(original) && WellFormed(add) && addRunes == RuneCount(add)
    && AllConsistent(ps, original, add)
    && runeLength == RuneTotal(ps) && byteLength == ByteTotal(ps)
    && WellFormed(Text(ps, original, add))
    && RuneCount(Text(ps, original, add)) == runeLength && |Text(ps, original, add)| == byteLength
  }

  /** The document `t` with `text` put at the byte offset of codepoint
      `position`. */
  ghost function AfterInsert(t: seq<byte>, position: nat, text: seq<byte>): seq<byte> {
    t[..Offset(t, position)] + text + t[Offset(t, position)..]
  }

  /** The document `t` without the bytes of codepoints `position ..
      position + len`. */
  ghost function AfterDelete(t: seq<byte>, position: nat, len: nat): seq<byte> {
    t[..Offset(t, position)] + t[Offset(t, position + len)..]
  }

  /** The codepoints of `s` one after the other, front to back, as the loop
      of `Sequence.RuneForward` yields them: a byte that starts no valid
      sequence gives `RuneError` and a step of one byte. */
  method RuneForward(s: seq<byte>) returns (rs: seq<Rune>)
    ensures rs == Decode(s) && |rs| == RuneCount(s)
  {
    rs := [];
    var j := 0;
    while j < |s|
      invariant j <= |s|
      invariant rs + Decode(s[j..]) == Decode(s)
    {
      var d := DecodeRune(s[j..]);
      DecodeStep(s, j, d);
      rs := rs + [d.rune];
      j := j + d.size;
    }
    assert s[j..] == [];
  }

  class PieceTable {
    const originalBuffer: seq<byte>
    var addBuffer: seq<byte>
    var addBufferRuneLength: nat
    var pieces: seq<Piece>
    var byteLength: nat
    var runeLength: nat

    /** Both buffers hold well-formed UTF-8, the add buffer's codepoint
        count is kept alongside it, every piece covers whole codepoints of
        its buffer, and the totals are those of the pieces. */
    ghost predicate Valid()
      reads this
    {
      Table(originalBuffer, addBuffer, addBufferRuneLength, pieces, byteLength, runeLength)
    }

    /** The document. */
    ghost function Document(): seq<byte>
      reads this
    {
      Text(pieces, originalBuffer, addBuffer)
    }

    /** A table holding `content` as one piece of the original buffer, with
        an empty add buffer. */
    constructor (content: seq<byte>)
      requires WellFormed(content)
      ensures Valid() && Document() == content
      ensures originalBuffer == content && addBuffer == [] && addBufferRuneLength == 0
      ensures pieces == [Piece(0, 0, |content|, RuneCount(content), true)]
      ensures byteLength == |content| && runeLength == RuneCount(content)
    {
      var piece := Piece(0, 0, |content|, RuneCount(content), true);
      originalBuffer := content;
      addBuffer := [];
      addBufferRuneLength := 0;
      pieces := [piece];
      byteLength := |content|;
      runeLength := RuneCount(content);
      new;
      OffsetEnd(content, RuneCount(content));
      assert Consistent(pieces[0], originalBuffer, addBuffer);
      RunesStep(pieces, 0, 1);
      BytesStep(pieces, 0, 1);
      TextSingle(piece, originalBuffer, addBuffer);
      Spans.SliceBuffer(Bytes(piece), originalBuffer, addBuffer);
      assert content[0..|content|] == content;
    }

    /** The document as a Go string: the bytes of every piece, front to
        back, each taken from the buffer the piece points into. They are
        well-formed UTF-8 with as many codepoints and bytes as the totals
        say. */
    method ToString() returns (s: seq<byte>)
      requires Valid()
      ensures s == Document()
      ensures WellFormed(s) && RuneCount(s) == runeLength && |s| == byteLength
    {
      TextFacts(pieces, originalBuffer, addBuffer);
      s := Join(pieces, originalBuffer, addBuffer);
    }

    /** The codepoints of the document, piece by piece, as `Runes` yields
        them: one for each of the `runeLength` codepoints. */
    method Runes() returns (rs: seq<Rune>)
      requires Valid()
      ensures rs == Decode(Document()) && |rs| == runeLength
    {
      rs := [];
      var i := 0;
      while i < |pieces|
        invariant i <= |pieces| && rs == Decode(Text(pieces[..i], originalBuffer, addBuffer))
      {
        var piece := pieces[i];
        WholePiece(piece, originalBuffer, addBuffer);
        var sequence := PieceSequence(piece, piece.byteStart, piece.byteStart + piece.byteLength, originalBuffer, addBuffer);
        var runes := RuneForward(sequence);
        PrefixFacts(pieces, i, originalBuffer, addBuffer);
        PrefixStep(pieces, i, i + 1, originalBuffer, addBuffer);
        DecodeAppend(Text(pieces[..i], originalBuffer, addBuffer), PieceText(piece, originalBuffer, addBuffer));
        rs := rs + runes;
        i := i + 1;
      }
      assert pieces[..i] == pieces;
      TextFacts(pieces, originalBuffer, addBuffer);
    }

    /** The number of pieces; a table without pieces holds no text. */
    function PiecesAmount(): (n: nat)
      reads this
      requires Valid()
      ensures n == |pieces|
      ensures n == 0 ==> Document() == [] && runeLength == 0 && byteLength == 0
    {
      |pieces|
    }

    /** Whether the document is empty. */
    function Empty(): (b: bool)
      reads this
      requires Valid()
      ensures b <==> Document() == []
    {
      TextFacts(pieces, originalBuffer, addBuffer);
      runeLength == 0 && byteLength == 0
    }

    /** The piece holding codepoint `position`, searched from the front when
        the position lies in the first half of the document and from the
        back otherwise: the last piece starting before the position, or the
        first piece at position 0. The back-to-front search finds nothing
        at position 0, which is where it runs when the document has fewer
        than two codepoints. */
    method FindPiece(position: nat) returns (r: Result<Found>)
      requires Valid()
      ensures position > runeLength ==> r == Err(OutOfRange)
      ensures position <= runeLength ==> r.Ok?
      ensures position <= runeLength && (0 < position || 2 <= runeLength) ==>
        && Located(pieces, r.value, position, originalBuffer, addBuffer)
        && (r.value.index == 0 || r.value.runeStart < position)
      ensures position == 0 && runeLength < 2 ==> r == Ok(Nothing)
    {
      if position > runeLength {
        return Err(OutOfRange);
      }
      var f: Found;
      if position < runeLength / 2 {
        f := LocateForward(pieces, position, originalBuffer, addBuffer);
      } else {
        f := LocateBackward(pieces, position, runeLength, byteLength, originalBuffer, addBuffer);
      }
      return Ok(f);
    }

    /** The run of pieces the span of `len` codepoints at `position`
        touches, with the span's byte offset and byte length. Nothing is
        found in a table without pieces, nor for an empty span at position
        0 of a document of fewer than two codepoints. A span running past
        the end of the document and searched from the front reports every
        piece from the one holding `position` on, with byte offset and
        length 0. */
    method FindPieces(position: nat, len: nat) returns (r: Result<Found>)
      requires Valid()
      ensures position > runeLength ==> r == Err(OutOfRange)
      ensures position <= runeLength ==> r.Ok?
      ensures r.Ok? ==> (r.value.pieces == [] <==> |pieces| == 0 || (position + len == 0 && runeLength < 2))
      ensures r.Ok? && r.value.pieces != [] && !(position < runeLength / 2 && runeLength < position + len) ==>
        && Covers(pieces, r.value, position, len, originalBuffer, addBuffer)
        && (|r.value.pieces| == 1 ==>
              r.value.runeEnd == BytePieces.Runes(pieces, r.value.index + 1) && r.value.byteEnd == ByteStart(pieces, r.value.index + 1))
      ensures r.Ok? && position < runeLength / 2 && runeLength < position + len ==>
        && r.value.index < |pieces| && r.value.pieces == pieces[r.value.index..]
        && BytePieces.Runes(pieces, r.value.index) <= position < BytePieces.Runes(pieces, r.value.index + 1)
        && r.value.runeStart == BytePieces.Runes(pieces, r.value.index) && r.value.byteStart == ByteStart(pieces, r.value.index)
        && r.value.bytePosition == 0 && r.value.byteLength == 0
    {
      if position > runeLength {
        return Err(OutOfRange);
      }
      var f: Found;
      if position < runeLength / 2 {
        f := SearchForward(pieces, position, len, originalBuffer, addBuffer);
      } else {
        f := SearchBackward(pieces, position, len, runeLength, byteLength, originalBuffer, addBuffer);
      }
      return Ok(f);
    }

    /** The bytes of the span of `len` codepoints at `position`, and the
        codepoint position where the piece the copy stops in starts: one
        holding the byte offset where the span ends. A span running past the
        end and searched from the back gives the rest of the document; one
        searched from the front gives no bytes and the start of the piece
        holding `position`, the first round of the copy loop being cut to
        the byte length 0 that search reports (`CollectPast`), and Go's
        unsigned arithmetic only stays inside the buffer when that piece
        starts at least as far into its buffer as into the document.
        Where `FindPieces` finds nothing the copy loop fails. */
    method GetSequence(position: nat, len: nat) returns (r: Result<(seq<byte>, nat)>)
      requires Valid()
      requires position < runeLength / 2 && runeLength < position + len ==> FitsBuffer(pieces, position)
      ensures position > runeLength ==> r == Err(OutOfRange)
      ensures position <= runeLength ==>
        (r.Err? <==> |pieces| == 0 || (position + len == 0 && runeLength < 2))
      ensures position <= runeLength && r.Err? ==> r.error == Inconsistent
      ensures r.Ok? && position < runeLength / 2 && runeLength < position + len ==>
        && r.value.0 == []
        && exists i {:trigger PieceFrom(pieces, i, r.value.1, position)} :: PieceFrom(pieces, i, r.value.1, position)
      ensures r.Ok? && !(position < runeLength / 2 && runeLength < position + len) ==>
        && Offset(Document(), position) <= Offset(Document(), position + len)
        && r.value.0 == Document()[Offset(Document(), position) .. Offset(Document(), position + len)]
        && exists i {:trigger EndPiece(pieces, i, r.value.1, position + len, Offset(Document(), position + len))} ::
             EndPiece(pieces, i, r.value.1, position + len, Offset(Document(), position + len))
      ensures r.Ok? && position + len <= runeLength ==> Decode(r.value.0) == Decode(Document())[position .. position + len]
      ensures r.Ok? && runeLength < position + len && runeLength / 2 <= position ==>
        Decode(r.value.0) == Decode(Document())[position..]
    {
      var found := FindPieces(position, len);
      if found.Err? {
        return Err(found.error);
      }
      var f := found.value;
      if position < runeLength / 2 && runeLength < position + len {
        r := CollectPast(pieces, f, originalBuffer, addBuffer);
        assert PieceFrom(pieces, f.index, r.value.1, position);
        return;
      }
      var sequence := Collect(pieces, f, position, len, originalBuffer, addBuffer);
      if sequence.Err? {
        return Err(sequence.error);
      }
      ghost var i :| StopsAt(pieces, f, i) && sequence.value.1 == BytePieces.Runes(pieces, i);
      StopsWithin(pieces, f, i, position, len, originalBuffer, addBuffer);
      assert EndPiece(pieces, i, sequence.value.1, position + len, Offset(Document(), position + len));
      SpanDecode(Document(), position, len);
      return sequence;
    }

    /** `GetSequence` as evidently intended for a span running past the end
        of the document: cut at the end, it gives the rest of the document
        whichever way it is searched. */
    method GetSequenceCorrected(position: nat, len: nat) returns (r: Result<(seq<byte>, nat)>)
      requires Valid()
      ensures position > runeLength ==> r == Err(OutOfRange)
      ensures position <= runeLength ==>
        (r.Err? <==> |pieces| == 0 || (position == 0 && (len == 0 || runeLength == 0) && runeLength < 2))
      ensures r.Ok? && position + len <= runeLength ==> Decode(r.value.0) == Decode(Document())[position .. position + len]
      ensures r.Ok? && runeLength < position + len ==> Decode(r.value.0) == Decode(Document())[position..]
    {
      var cut := len;
      if runeLength < position + len && position <= runeLength {
        cut := runeLength - position;
      }
      r := GetSequence(position, cut);
      if r.Ok? && runeLength < position + len {
        TextFacts(pieces, originalBuffer, addBuffer);
      }
    }

    /** The codepoint at `position`: the decoding of the first bytes of the
        one-codepoint span there. At the end of the document, which the
        range check lets through, the span has no bytes and there is none. */
    method GetAt(position: nat) returns (r: Result<Rune>)
      requires Valid()
      ensures position > runeLength ==> r == Err(OutOfRange)
      ensures position < runeLength ==> r == Ok(Decode(Document())[position])
      ensures position == runeLength ==> r.Err?
    {
      if position > runeLength {
        return Err(OutOfRange);
      }
      var got := GetSequence(position, 1);
      if got.Err? {
        return Err(got.error);
      }
      var sequence := got.value.0;
      ghost var t := Document();
      TextFacts(pieces, originalBuffer, addBuffer);
      if position < runeLength {
        DecodeAt(t, position);
      } else {
        OffsetEnd(t, position);
        OffsetEnd(t, position + 1);
      }
      if |sequence| < 1 {
        return Err(OutOfRange);
      }
      return Ok(DecodeRune(sequence).rune);
    }

    /** Inserts `text` at codepoint `position`, as written: the piece the
        position falls in is read before the search result is checked,
        which at position 0 of a document of fewer than two codepoints
        indexes an empty list (hence the precondition). Empty text and a
        position past the end are refused. Otherwise the text is appended
        to the add buffer, lands at the byte offset of the position, and the
        call returns its codepoint count. */
    method Insert(position: nat, text: seq<byte>) returns (r: Result<nat>)
      requires Valid() && WellFormed(text)
      requires 0 < |text| && position == 0 ==> 2 <= runeLength
      modifies this
      ensures |text| == 0 ==> r == Err(InvalidArgument)
      ensures 0 < |text| && old(runeLength) < position ==> r == Err(OutOfRange)
      ensures r.Err? ==> unchanged(this)
      ensures 0 < |text| && position <= old(runeLength) ==> r == Ok(RuneCount(text))
      ensures r.Ok? ==>
        && Valid()
        && addBuffer == old(addBuffer) + text && addBufferRuneLength == old(addBufferRuneLength) + RuneCount(text)
        && byteLength == old(byteLength) + |text| && runeLength == old(runeLength) + RuneCount(text)
        && Document() == AfterInsert(old(Document()), position, text)
        && Decode(Document()) == Decode(old(Document()))[..position] + Decode(text) + Decode(old(Document()))[position..]
      ensures r.Ok? ==> exists k: nat :: (position == 0 || (k < |old(pieces)| && BytePieces.Runes(old(pieces), k) < position))
                                    && Placement(old(pieces), pieces, k, position, Offset(old(Document()), position),
                                                 Piece(|old(addBuffer)|, old(addBufferRuneLength), |text|, RuneCount(text), false))
    {
      if |text| == 0 {
        return Err(InvalidArgument);
      }
      if position > runeLength {
        return Err(OutOfRange);
      }
      var found := FindPiece(position);
      var foundPiece := found.value.pieces[0];
      var count := Put(position, text, found.value);
      assert Placement(old(pieces), pieces, found.value.index, position, Offset(old(Document()), position),
                       Piece(|old(addBuffer)|, old(addBufferRuneLength), |text|, RuneCount(text), false));
      return Ok(count);
    }

    /** `Insert` as its authors evidently mean it: the piece found is only
        read where it is used, so text can be inserted at the front of any
        document, an empty one included. */
    method InsertCorrected(position: nat, text: seq<byte>) returns (r: Result<nat>)
      requires Valid() && WellFormed(text)
      modifies this
      ensures |text| == 0 ==> r == Err(InvalidArgument)
      ensures 0 < |text| && old(runeLength) < position ==> r == Err(OutOfRange)
      ensures r.Err? ==> unchanged(this)
      ensures 0 < |text| && position <= old(runeLength) ==> r == Ok(RuneCount(text))
      ensures r.Ok? ==>
        && Valid()
        && addBuffer == old(addBuffer) + text && addBufferRuneLength == old(addBufferRuneLength) + RuneCount(text)
        && byteLength == old(byteLength) + |text| && runeLength == old(runeLength) + RuneCount(text)
        && Document() == AfterInsert(old(Document()), position, text)
        && Decode(Document()) == Decode(old(Document()))[..position] + Decode(text) + Decode(old(Document()))[position..]
      ensures r.Ok? ==> exists k: nat :: (position == 0 || (k < |old(pieces)| && BytePieces.Runes(old(pieces), k) < position))
                                    && Placement(old(pieces), pieces, k, position, Offset(old(Document()), position),
                                                 Piece(|old(addBuffer)|, old(addBufferRuneLength), |text|, RuneCount(text), false))
    {
      if |text| == 0 {
        return Err(InvalidArgument);
      }
      if position > runeLength {
        return Err(OutOfRange);
      }
      var found := FindPiece(position);
      var count := Put(position, text, found.value);
      assert Placement(old(pieces), pieces, found.value.index, position, Offset(old(Document()), position),
                       Piece(|old(addBuffer)|, old(addBufferRuneLength), |text|, RuneCount(text), false));
      return Ok(count);
    }

    /** The part of `Insert` after the search: appends `text` to the add
        buffer, places a piece for it by what the search reported, and
        grows the totals. */
    method Put(position: nat, text: seq<byte>, f: Found) returns (count: nat)
      requires Valid() && WellFormed(text) && position <= runeLength
      requires 0 < position < runeLength ==> Located(pieces, f, position, originalBuffer, addBuffer)
      modifies this
      ensures count == RuneCount(text)
      ensures Valid()
      ensures addBuffer == old(addBuffer) + text && addBufferRuneLength == old(addBufferRuneLength) + RuneCount(text)
      ensures byteLength == old(byteLength) + |text| && runeLength == old(runeLength) + RuneCount(text)
      ensures Document() == AfterInsert(old(Document()), position, text)
      ensures Decode(Document()) == Decode(old(Document()))[..position] + Decode(text) + Decode(old(Document()))[position..]
      ensures Placement(old(pieces), pieces, f.index, position, Offset(old(Document()), position),
                  Piece(|old(addBuffer)|, old(addBufferRuneLength), |text|, RuneCount(text), false))
    {
      count := RuneCount(text);
      var piece := Piece(|addBuffer|, addBufferRuneLength, |text|, count, false);
      var r := Place(pieces, f, position, piece, originalBuffer, addBuffer, text);
      var add, addRunes, bytes, runes := addBuffer + text, addBufferRuneLength + count, byteLength + |text|, runeLength + count;
      PlacedTable(pieces, r, position, originalBuffer, addBuffer, addBufferRuneLength, byteLength, runeLength, text,
                  add, addRunes, bytes, runes);
      addBuffer, pieces, byteLength, runeLength, addBufferRuneLength := add, r, bytes, runes, addRunes;
    }

    /** Removes list slot `index` when `piece`, the caller's copy of the
        piece meant to be there, holds no bytes, and says whether it did.
        Removing a slot whose piece holds no bytes leaves the document and
        the totals as they were. */
    method DeleteIfEmpty(piece: Piece, index: nat) returns (deleted: bool)
      requires piece.byteLength == 0 && index < |pieces| ==> 0 < index || 2 <= |pieces|
      modifies this
      ensures deleted <==> piece.byteLength == 0
      ensures pieces == Discard(old(pieces), piece, index)
      ensures addBuffer == old(addBuffer) && addBufferRuneLength == old(addBufferRuneLength)
      ensures byteLength == old(byteLength) && runeLength == old(runeLength)
      ensures old(Valid()) && (piece.byteLength == 0 && index < |old(pieces)| ==> old(pieces)[index].byteLength == 0) ==>
        Valid() && Document() == old(Document())
    {
      if piece.byteLength == 0 {
        if Valid() && index < |pieces| && pieces[index].byteLength == 0 {
          DiscardEmpty(pieces, index, originalBuffer, addBuffer);
        }
        pieces := Spans.DeleteAt(pieces, index);
        return true;
      }
      return false;
    }

    /** Deletes the `len` codepoints at `position`, as written. A deletion
        of nothing and a span past the end are refused. Otherwise the
        totals drop by the span's codepoints and bytes, and the bytes of the
        span leave the document, except where the span lies strictly inside
        one piece: there the piece written after the kept head is computed
        wrongly (see `ByteDelete.TailAsWritten`) and only the number of
        pieces is stated. A deletion of the whole of a document whose first
        and last pieces hold text would remove the list's only node. */
    method Delete(position: nat, len: nat) returns (res: Outcome)
      requires Valid()
      requires !(0 < len && position + len <= runeLength && EmptiesList(pieces, position, len))
      modifies this
      ensures len == 0 ==> res == Fail(InvalidArgument)
      ensures 0 < len && old(runeLength) < position + len ==> res == Fail(OutOfRange)
      ensures 0 < len && position + len <= old(runeLength) ==> res == Pass
      ensures res.Fail? ==> unchanged(this)
      ensures res.Pass? ==>
        && addBuffer == old(addBuffer) && addBufferRuneLength == old(addBufferRuneLength)
        && runeLength + len == old(runeLength)
        && byteLength + (Offset(old(Document()), position + len) - Offset(old(Document()), position)) == old(byteLength)
      ensures res.Pass? && !Interior(old(pieces), position, len) ==>
        && Valid()
        && Document() == AfterDelete(old(Document()), position, len)
        && Decode(Document()) == Decode(old(Document()))[..position] + Decode(old(Document()))[position + len..]
      ensures res.Pass? && Interior(old(pieces), position, len) ==> |pieces| == |old(pieces)| + 1
      ensures res.Pass? && !Interior(old(pieces), position, len) ==>
        TrimmedRun(old(pieces), pieces, position, len, Offset(old(Document()), position), Offset(old(Document()), position + len))
    {
      res := Remove(position, len, false);
    }

    /** `Delete` as its authors evidently mean it: the piece after a span
        lying strictly inside one piece starts where the span ends, so the
        bytes of the span leave the document in every case. */
    method DeleteCorrected(position: nat, len: nat) returns (res: Outcome)
      requires Valid()
      requires !(0 < len && position + len <= runeLength && EmptiesList(pieces, position, len))
      modifies this
      ensures len == 0 ==> res == Fail(InvalidArgument)
      ensures 0 < len && old(runeLength) < position + len ==> res == Fail(OutOfRange)
      ensures 0 < len && position + len <= old(runeLength) ==> res == Pass
      ensures res.Fail? ==> unchanged(this)
      ensures res.Pass? ==>
        && Valid()
        && addBuffer == old(addBuffer) && addBufferRuneLength == old(addBufferRuneLength)
        && runeLength + len == old(runeLength)
        && byteLength + (Offset(old(Document()), position + len) - Offset(old(Document()), position)) == old(byteLength)
        && Document() == AfterDelete(old(Document()), position, len)
        && Decode(Document()) == Decode(old(Document()))[..position] + Decode(old(Document()))[position + len..]
      ensures res.Pass? ==>
        TrimmedRun(old(pieces), pieces, position, len, Offset(old(Document()), position), Offset(old(Document()), position + len))
    {
      res := Remove(position, len, true);
    }

    /** The checks and the edit of `Delete`, with the computation of the
        piece after an interior span as written or as intended. */
    method Remove(position: nat, len: nat, corrected: bool) returns (res: Outcome)
      requires Valid()
      requires !(0 < len && position + len <= runeLength && EmptiesList(pieces, position, len))
      modifies this
      ensures len == 0 ==> res == Fail(InvalidArgument)
      ensures 0 < len && old(runeLength) < position + len ==> res == Fail(OutOfRange)
      ensures 0 < len && position + len <= old(runeLength) ==> res == Pass
      ensures res.Fail? ==> unchanged(this)
      ensures res.Pass? ==>
        && addBuffer == old(addBuffer) && addBufferRuneLength == old(addBufferRuneLength)
        && runeLength + len == old(runeLength)
        && byteLength + (Offset(old(Document()), position + len) - Offset(old(Document()), position)) == old(byteLength)
      ensures res.Pass? && (corrected || !Interior(old(pieces), position, len)) ==>
        && Valid()
        && Document() == AfterDelete(old(Document()), position, len)
        && Decode(Document()) == Decode(old(Document()))[..position] + Decode(old(Document()))[position + len..]
      ensures res.Pass? && !corrected && Interior(old(pieces), position, len) ==> |pieces| == |old(pieces)| + 1
      ensures res.Pass? && (corrected || !Interior(old(pieces), position, len)) ==>
        TrimmedRun(old(pieces), pieces, position, len, Offset(old(Document()), position), Offset(old(Document()), position + len))
    {
      if len == 0 {
        return Fail(InvalidArgument);
      }
      if position > runeLength {
        return Fail(OutOfRange);
      }
      if position + len > runeLength {
        return Fail(OutOfRange);
      }
      var found := FindPieces(position, len);
      Cut(position, len, corrected, found.value);
      if corrected || !Interior(old(pieces), position, len) {
        assert Touched(old(pieces), found.value.index, |found.value.pieces|, position, len);
        assert Trimmed(old(pieces), pieces, found.value.index, |found.value.pieces|, position, len,
                       Offset(old(Document()), position), Offset(old(Document()), position + len));
      }
      return Pass;
    }

    /** The edit of `Delete` once its checks have passed and the run of
        pieces `f` the span touches is known: replaces the pieces and lowers
        the totals by the span's codepoints and bytes. */
    method Cut(position: nat, len: nat, corrected: bool, f: Found)
      requires Valid()
      requires 0 < len && position + len <= runeLength && !EmptiesList(pieces, position, len)
      requires Covers(pieces, f, position, len, originalBuffer, addBuffer)
      requires |f.pieces| == 1 ==> f.runeEnd == BytePieces.Runes(pieces, f.index + 1) && f.byteEnd == ByteStart(pieces, f.index + 1)
      modifies this
      ensures addBuffer == old(addBuffer) && addBufferRuneLength == old(addBufferRuneLength)
      ensures runeLength + len == old(runeLength)
      ensures byteLength + (Offset(old(Document()), position + len) - Offset(old(Document()), position)) == old(byteLength)
      ensures corrected || !Interior(old(pieces), position, len) ==>
        && Valid()
        && Document() == AfterDelete(old(Document()), position, len)
        && Decode(Document()) == Decode(old(Document()))[..position] + Decode(old(Document()))[position + len..]
      ensures !corrected && Interior(old(pieces), position, len) ==> |pieces| == |old(pieces)| + 1
      ensures corrected || !Interior(old(pieces), position, len) ==>
        Trimmed(old(pieces), pieces, f.index, |f.pieces|, position, len,
                Offset(old(Document()), position), Offset(old(Document()), position + len))
    {
      var r, bytes, runes := Excise(originalBuffer, addBuffer, addBufferRuneLength, pieces, byteLength, runeLength,
                                    f, position, len, corrected);
      pieces, runeLength, byteLength := r, runes, bytes;
    }
  }

  /** The edit of `Delete` on the table's values, once the run of pieces
      `f` the span touches is known: the new pieces and the totals smaller
      by the span's codepoints and bytes. */
  method Excise(original: seq<byte>, add: seq<byte>, addRunes: nat, ps: seq<Piece>, byteLength: nat, runeLength: nat,
                f: Found, position: nat, len: nat, corrected: bool) returns (r: seq<Piece>, bytes: nat, runes: nat)
    requires Table(original, add, addRunes, ps, byteLength, runeLength)
    requires 0 < len && position + len <= runeLength && !EmptiesList(ps, position, len)
    requires Covers(ps, f, position, len, original, add)
    requires |f.pieces| == 1 ==> f.runeEnd == Runes(ps, f.index + 1) && f.byteEnd == ByteStart(ps, f.index + 1)
    ensures bytes + (Offset(Text(ps, original, add), position + len) - Offset(Text(ps, original, add), position)) == byteLength
    ensures runes + len == runeLength
    ensures corrected || !Interior(ps, position, len) ==>
      && Table(original, add, addRunes, r, bytes, runes)
      && Text(r, original, add) == AfterDelete(Text(ps, original, add), position, len)
      && Decode(Text(r, original, add))
         == Decode(Text(ps, original, add))[..position] + Decode(Text(ps, original, add))[position + len..]
    ensures !corrected && Interior(ps, position, len) ==> |r| == |ps| + 1
    ensures corrected || !Interior(ps, position, len) ==>
      Trimmed(ps, r, f.index, |f.pieces|, position, len,
              Offset(Text(ps, original, add), position), Offset(Text(ps, original, add), position + len))
  {
    r := DeleteFound(ps, f, position, len, corrected, original, add);
    OffsetMonotone(Text(ps, original, add), position, position + len);
    bytes, runes := byteLength - f.byteLength, runeLength - len;
    if corrected || !Interior(ps, position, len) {
      RemovedTable(ps, r, position, len, original, add, addRunes, byteLength, runeLength, bytes, runes);
    }
  }

  /** The span of `len` codepoints at `position` of a well-formed
      document decodes to those codepoints, or to all from `position` on
      when it runs past the end. */
  lemma {:induction false} SpanDecode(t: seq<byte>, position: nat, len: nat)
    requires WellFormed(t) && position <= RuneCount(t)
    ensures Offset(t, position) <= Offset(t, position + len)
    ensures position + len <= RuneCount(t) ==>
      Decode(t[Offset(t, position) .. Offset(t, position + len)]) == Decode(t)[position .. position + len]
    ensures RuneCount(t) < position + len ==>
      Decode(t[Offset(t, position) .. Offset(t, position + len)]) == Decode(t)[position..]
  {
    SpanTo(t, position, len, position + len);
  }

  /** `SpanDecode` with the end of the span given. */
  lemma {:induction false} SpanTo(t: seq<byte>, position: nat, len: nat, end: nat)
    requires WellFormed(t) && position <= RuneCount(t) && end == position + len
    ensures Offset(t, position) <= Offset(t, end)
    ensures end <= RuneCount(t) ==> Decode(t[Offset(t, position) .. Offset(t, end)]) == Decode(t)[position .. end]
    ensures RuneCount(t) < end ==> Decode(t[Offset(t, position) .. Offset(t, end)]) == Decode(t)[position..]
  {
    if end <= RuneCount(t) {
      DecodeSlice(t, position, end);
    } else {
      SpanPast(t, position, end);
    }
  }

  /** A span from codepoint `position` to `end`, past the end of the
      document, decodes to the codepoints from `position` on. */
  lemma {:induction false} SpanPast(t: seq<byte>, position: nat, end: nat)
    requires WellFormed(t) && position <= RuneCount(t) < end
    ensures Offset(t, end) == |t|
    ensures Decode(t[Offset(t, position) .. Offset(t, end)]) == Decode(t)[position..]
  {
    OffsetEnd(t, end);
    DecodeSplit(t, position);
    assert t[Offset(t, position) .. Offset(t, end)] == t[Offset(t, position)..];
  }

  /** Placing a piece for `text`, appended to the add buffer, at codepoint
      `position` keeps the table consistent: both buffers, the add
      buffer's codepoint count and both totals grow by the text. */
  lemma {:induction false} PlacedTable(ps: seq<Piece>, r: seq<Piece>, position: nat, original: seq<byte>, add: seq<byte>,
                                       addRunes: nat, byteLength: nat, runeLength: nat, text: seq<byte>,
                                       add2: seq<byte>, addRunes2: nat, byteLength2: nat, runeLength2: nat)
    requires Table(original, add, addRunes, ps, byteLength, runeLength) && WellFormed(text) && position <= runeLength
    requires add2 == add + text && addRunes2 == addRunes + RuneCount(text)
    requires byteLength2 == byteLength + |text| && runeLength2 == runeLength + RuneCount(text)
    requires AllConsistent(r, original, add2)
    requires Text(r, original, add2) == AfterInsert(Text(ps, original, add), position, text)
    ensures Table(original, add2, addRunes2, r, byteLength2, runeLength2)
    ensures Decode(Text(r, original, add2))
         == Decode(Text(ps, original, add))[..position] + Decode(text) + Decode(Text(ps, original, add))[position..]
  {
    AppendWellFormed(add, text);
    DecodeInsert(Text(ps, original, add), text, position);
    TextFacts(r, original, add2);
  }

  /** Removing the span of `len` codepoints at `position` from the
      document keeps the table consistent, with totals smaller by the
      span's codepoints and bytes. */
  lemma {:induction false} RemovedTable(ps: seq<Piece>, r: seq<Piece>, position: nat, len: nat, original: seq<byte>, add: seq<byte>,
                                        addRunes: nat, byteLength: nat, runeLength: nat, byteLength2: nat, runeLength2: nat)
    requires Table(original, add, addRunes, ps, byteLength, runeLength) && position + len <= runeLength
    requires AllConsistent(r, original, add)
    requires Text(r, original, add) == AfterDelete(Text(ps, original, add), position, len)
    requires byteLength2 + (Offset(Text(ps, original, add), position + len) - Offset(Text(ps, original, add), position)) == byteLength
    requires runeLength2 + len == runeLength
    ensures Table(original, add, addRunes, r, byteLength2, runeLength2)
    ensures Decode(Text(r, original, add))
         == Decode(Text(ps, original, add))[..position] + Decode(Text(ps, original, add))[position + len..]
  {
    DeletedTotals(ps, r, position, len, original, add);
    TextFacts(r, original, add);
  }

  /** Dropping a piece that holds no bytes from a consistent table keeps
      it consistent, with the same document and totals. */
  lemma {:induction false} DiscardEmpty(ps: seq<Piece>, index: nat, original: seq<byte>, add: seq<byte>)
    requires WellFormed(original) && WellFormed(add) && AllConsistent(ps, original, add)
    requires index < |ps| && ps[index].byteLength == 0
    ensures AllConsistent(ps[..index] + ps[index + 1..], original, add)
    ensures Text(ps[..index] + ps[index + 1..], original, add) == Text(ps, original, add)
    ensures RuneTotal(ps[..index] + ps[index + 1..]) == RuneTotal(ps)
    ensures ByteTotal(ps[..index] + ps[index + 1..]) == ByteTotal(ps)
  {
    var x, y := ps[..index], ps[index + 1..];
    DiscardText(ps, index, x, y, ps[index], original, add);
    DiscardConsistent(ps, index, x, y, original, add);
    TextFacts(ps, original, add);
    TextFacts(x + y, original, add);
  }

  /** The text of a table with an empty piece `p` between `x` and `y` is
      the text of `x` and `y` alone. */
  lemma {:induction false} DiscardText(ps: seq<Piece>, index: nat, x: seq<Piece>, y: seq<Piece>, p: Piece,
                                       original: seq<byte>, add: seq<byte>)
    requires index < |ps| && x == ps[..index] && y == ps[index + 1..] && p == ps[index]
    requires Consistent(p, original, add) && p.byteLength == 0
    ensures Text(x + y, original, add) == Text(ps, original, add)
  {
    var xp := x + [p];
    assert ps == xp + y;
    EmptyPieceText(x, p, xp, original, add);
    TextAppend(xp, y, original, add);
    TextAppend(x, y, original, add);
  }

  /** A piece holding no bytes adds nothing to the text. */
  lemma {:induction false} EmptyPieceText(x: seq<Piece>, p: Piece, xp: seq<Piece>, original: seq<byte>, add: seq<byte>)
    requires Consistent(p, original, add) && p.byteLength == 0 && xp == x + [p]
    ensures Text(xp, original, add) == Text(x, original, add)
  {
    TextAppend(x, [p], original, add);
    TextSingle(p, original, add);
    ConsistentInBuffer(p, original, add);
  }

  /** The pieces around slot `index` of a consistent table are consistent. */
  lemma {:induction false} DiscardConsistent(ps: seq<Piece>, index: nat, x: seq<Piece>, y: seq<Piece>,
                                             original: seq<byte>, add: seq<byte>)
    requires AllConsistent(ps, original, add)
    requires index < |ps| && x == ps[..index] && y == ps[index + 1..]
    ensures AllConsistent(x + y, original, add)
  {
    forall i | 0 <= i < |x + y|
      ensures Consistent((x + y)[i], original, add)
    {
      if i < |x| {
        assert (x + y)[i] == ps[i];
      } else {
        assert (x + y)[i] == ps[i + 1];
      }
    }
  }
}
