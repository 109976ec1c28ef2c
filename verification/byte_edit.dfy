/** The edits of the byte table on its list of pieces: where `Insert` puts
    the piece for new text, and what `Delete` leaves of the run of pieces a
    span touches. The table's methods run these on its fields. */
module ByteEdit {
  import opened Utf8
  import Spans
  import opened BytePieces
  import opened ByteSearch
  import opened UintMath

  /** The piece `Insert` builds for `text` appended to the add buffer `add`:
      it starts where the buffer ended, in bytes and in codepoints. */
  function NewPiece(add: seq<byte>, text: seq<byte>): Piece {
    Piece(|add|, RuneCount(add), |text|, RuneCount(text), false)
  }

  lemma {:induction false} ConsistentInsert(ps: seq<Piece>, i: nat, p: Piece, original: seq<byte>, add: seq<byte>)
    requires i <= |ps| && AllConsistent(ps, original, add) && Consistent(p, original, add)
    ensures AllConsistent(Spans.InsertAt(ps, i, p), original, add)
  {
    var r := Spans.InsertAt(ps, i, p);
    forall j | 0 <= j < |r|
      ensures Consistent(r[j], original, add)
    {
      if j < i {
        assert r[j] == ps[j];
      } else if i < j {
        assert r[j] == ps[j - 1];
      }
    }
  }

  lemma {:induction false} ConsistentUpdate(ps: seq<Piece>, i: nat, p: Piece, original: seq<byte>, add: seq<byte>)
    requires i < |ps| && AllConsistent(ps, original, add) && Consistent(p, original, add)
    ensures AllConsistent(ps[i := p], original, add)
  {
    var r := ps[i := p];
    forall j | 0 <= j < |r|
      ensures Consistent(r[j], original, add)
    {
      if j != i {
        assert r[j] == ps[j];
      }
    }
  }

  /** Lengthening a piece that ends where the add buffer ends by text
      appended to the buffer gives a consistent piece holding its old bytes
      followed by the text. */
  lemma {:induction false} Grown(p: Piece, g: Piece, original: seq<byte>, add: seq<byte>, text: seq<byte>)
    requires WellFormed(add) && WellFormed(text) && Consistent(p, original, add)
    requires !p.isOriginal && p.runeStart + p.runeLength == RuneCount(add)
    requires g == p.(byteLength := p.byteLength + |text|, runeLength := p.runeLength + RuneCount(text))
    ensures Consistent(g, original, add + text)
    ensures PieceText(g, original, add + text) == PieceText(p, original, add) + text
  {
    GrownConsistent(p, g, original, add, text, add + text);
    GrownText(p, g, original, add, text, add + text);
  }

  lemma {:induction false} GrownConsistent(p: Piece, g: Piece, original: seq<byte>, add: seq<byte>, text: seq<byte>, b: seq<byte>)
    requires WellFormed(add) && WellFormed(text) && Consistent(p, original, add)
    requires !p.isOriginal && p.runeStart + p.runeLength == RuneCount(add) && b == add + text
    requires g == p.(byteLength := p.byteLength + |text|, runeLength := p.runeLength + RuneCount(text))
    ensures Consistent(g, original, b) && p.byteStart + p.byteLength == |add|
  {
    var n := p.runeStart + p.runeLength;
    var e := g.runeStart + g.runeLength;
    OffsetEnd(add, n);
    AppendBounds(add, text, n, e);
    OffsetAppendLeft(add, text, p.runeStart);
  }

  lemma {:induction false} GrownText(p: Piece, g: Piece, original: seq<byte>, add: seq<byte>, text: seq<byte>, b: seq<byte>)
    requires Consistent(p, original, add) && !p.isOriginal && p.byteStart + p.byteLength == |add| && b == add + text
    requires g == p.(byteLength := p.byteLength + |text|, runeLength := p.runeLength + RuneCount(text))
    ensures PieceText(g, original, b) == PieceText(p, original, add) + text
  {
    ConsistentInBuffer(p, original, add);
    Spans.SliceBuffer(Bytes(p), original, add);
    Spans.SliceBuffer(Bytes(g), original, b);
    assert PieceText(p, original, add) == add[p.byteStart..|add|];
    assert PieceText(g, original, b) == b[p.byteStart..|b|];
  }

  /** Inserting the new piece before piece `i` inserts its text at the byte
      offset where piece `i` starts. */
  lemma {:induction false} InsertPiece(ps: seq<Piece>, i: nat, position: nat, piece: Piece,
                                       original: seq<byte>, add: seq<byte>, text: seq<byte>)
    requires WellFormed(original) && WellFormed(add) && WellFormed(text) && AllConsistent(ps, original, add)
    requires i <= |ps| && position == Runes(ps, i) && piece == NewPiece(add, text)
    ensures AllConsistent(Spans.InsertAt(ps, i, piece), original, add + text)
    ensures Text(Spans.InsertAt(ps, i, piece), original, add + text)
         == Text(ps, original, add)[..Offset(Text(ps, original, add), position)] + text
          + Text(ps, original, add)[Offset(Text(ps, original, add), position)..]
  {
    BoundaryOffset(ps, i, original, add);
    TableGrow(ps, original, add, text);
    AppendWellFormed(add, text);
    Appended(add, text, original);
    ConsistentInBuffer(piece, original, add + text);
    TextFacts(ps, original, add + text);
    SpansInsert(ps, i, piece);
    Spans.InsertText(ByteSpans(ps), i, Bytes(piece), ByteStart(ps, i), original, add + text);
    ConsistentInsert(ps, i, piece, original, add + text);
  }

  /** Lengthening piece `k`, which ends at `position` and where the add
      buffer ended, by the appended text inserts the text at the byte
      offset of `position`. */
  lemma {:induction false} MergePiece(ps: seq<Piece>, k: nat, e: nat, position: nat, grown: Piece,
                                      original: seq<byte>, add: seq<byte>, text: seq<byte>)
    requires WellFormed(original) && WellFormed(add) && WellFormed(text) && AllConsistent(ps, original, add)
    requires k < |ps| && e == k + 1 && position == Runes(ps, e)
    requires !ps[k].isOriginal && ps[k].runeStart + ps[k].runeLength == RuneCount(add)
    requires grown == ps[k].(byteLength := ps[k].byteLength + |text|, runeLength := ps[k].runeLength + RuneCount(text))
    ensures AllConsistent(ps[k := grown], original, add + text)
    ensures Text(ps[k := grown], original, add + text)
         == Text(ps, original, add)[..Offset(Text(ps, original, add), position)] + text
          + Text(ps, original, add)[Offset(Text(ps, original, add), position)..]
  {
    var q := ps[k];
    assert Consistent(q, original, add);
    BoundaryOffset(ps, e, original, add);
    TableGrow(ps, original, add, text);
    AppendWellFormed(add, text);
    Grown(q, grown, original, add, text);
    ConsistentGrow(q, original, add, text);
    ConsistentInBuffer(grown, original, add + text);
    TextFacts(ps, original, add + text);
    SpansUpdate(ps, k, grown);
    assert ByteSpans(ps)[k] == Bytes(q);
    Spans.ExtendText(ByteSpans(ps), k, e, Bytes(grown), ByteStart(ps, e), text, original, add + text);
    ConsistentUpdate(ps, k, grown, original, add + text);
  }

  /** Where the position `FindPiece` reported lies inside the piece it
      found, in codepoints and in bytes. */
  lemma {:induction false} InsideFound(ps: seq<Piece>, f: Found, position: nat, original: seq<byte>, add: seq<byte>)
    requires WellFormed(original) && WellFormed(add) && AllConsistent(ps, original, add)
    requires Located(ps, f, position, original, add)
    ensures f.pieces[0] == ps[f.index]
    ensures f.runeEnd == f.runeStart + ps[f.index].runeLength
    ensures position - f.runeStart <= ps[f.index].runeLength
    ensures f.byteStart <= f.bytePosition
    ensures f.bytePosition - f.byteStart == Offset(PieceText(ps[f.index], original, add), position - f.runeStart)
    ensures f.bytePosition - f.byteStart <= ps[f.index].byteLength
  {
    var k := f.index;
    RunesStep(ps, k, k + 1);
    DocOffset(ps, k, position - f.runeStart, position, original, add);
    assert Consistent(ps[k], original, add);
    ConsistentInBuffer(ps[k], original, add);
  }

  /** Cutting piece `k` `m` codepoints and `d` bytes in, at `position`, and
      putting the new piece between the halves inserts the text at the
      byte offset of `position`. */
  lemma {:induction false} SplitPiece(ps: seq<Piece>, k: nat, m: nat, d: nat, position: nat, left: Piece, right: Piece,
                                      piece: Piece, original: seq<byte>, add: seq<byte>, text: seq<byte>)
    requires WellFormed(original) && WellFormed(add) && WellFormed(text) && AllConsistent(ps, original, add)
    requires k < |ps| && m <= ps[k].runeLength && d <= ps[k].byteLength && position == Runes(ps, k) + m
    requires d == Offset(PieceText(ps[k], original, add), m)
    requires left == HeadOf(ps[k], m, d) && right == RestOf(ps[k], m, d) && piece == NewPiece(add, text)
    ensures AllConsistent(Spans.InsertAt(Spans.InsertAt(ps[k := left], k + 1, piece), k + 2, right), original, add + text)
    ensures Text(Spans.InsertAt(Spans.InsertAt(ps[k := left], k + 1, piece), k + 2, right), original, add + text)
         == Text(ps, original, add)[..Offset(Text(ps, original, add), position)] + text
          + Text(ps, original, add)[Offset(Text(ps, original, add), position)..]
  {
    var q := ps[k];
    var b := add + text;
    assert Consistent(q, original, add);
    Halves(q, m, d, original, add);
    ConsistentGrow(left, original, add, text);
    ConsistentGrow(right, original, add, text);
    AppendWellFormed(add, text);
    Appended(add, text, original);
    TableGrow(ps, original, add, text);
    SplitConsistent(ps, k, left, piece, right, original, b);
    DocOffset(ps, k, m, position, original, add);
    SplitBytes(ps, k, d, Offset(Text(ps, original, add), position), left, right, piece, original, b, text);
  }

  lemma {:induction false} SplitConsistent(ps: seq<Piece>, k: nat, left: Piece, piece: Piece, right: Piece,
                                           original: seq<byte>, add: seq<byte>)
    requires k < |ps| && AllConsistent(ps, original, add)
    requires Consistent(left, original, add) && Consistent(piece, original, add) && Consistent(right, original, add)
    ensures AllConsistent(Spans.InsertAt(Spans.InsertAt(ps[k := left], k + 1, piece), k + 2, right), original, add)
  {
    var r1 := ps[k := left];
    var r2 := Spans.InsertAt(r1, k + 1, piece);
    ConsistentUpdate(ps, k, left, original, add);
    ConsistentInsert(r1, k + 1, piece, original, add);
    ConsistentInsert(r2, k + 2, right, original, add);
  }

  lemma {:induction false} SplitBytes(ps: seq<Piece>, k: nat, d: nat, at: nat, left: Piece, right: Piece, piece: Piece,
                                      original: seq<byte>, add: seq<byte>, text: seq<byte>)
    requires WellFormed(original) && WellFormed(add) && AllConsistent(ps, original, add)
    requires k < |ps| && d <= ps[k].byteLength && at == ByteStart(ps, k) + d
    requires Bytes(left) == Spans.Head(Bytes(ps[k]), d) && Bytes(right) == Spans.Rest(Bytes(ps[k]), d)
    requires Consistent(piece, original, add) && PieceText(piece, original, add) == text
    ensures at <= |Text(ps, original, add)|
    ensures Text(Spans.InsertAt(Spans.InsertAt(ps[k := left], k + 1, piece), k + 2, right), original, add)
         == Text(ps, original, add)[..at] + text + Text(ps, original, add)[at..]
  {
    ConsistentInBuffer(piece, original, add);
    TextFacts(ps, original, add);
    SpansSplit(ps, k, left, piece, right);
    assert ByteSpans(ps)[k] == Bytes(ps[k]);
    Spans.SplitText(ByteSpans(ps), k, d, Bytes(piece), Bytes(left), Bytes(right), at, original, add);
  }

  lemma {:induction false} SpansSplit(ps: seq<Piece>, k: nat, left: Piece, piece: Piece, right: Piece)
    requires k < |ps|
    ensures ByteSpans(Spans.InsertAt(Spans.InsertAt(ps[k := left], k + 1, piece), k + 2, right))
         == Spans.InsertAt(Spans.InsertAt(ByteSpans(ps)[k := Bytes(left)], k + 1, Bytes(piece)), k + 2, Bytes(right))
  {
    var r1 := ps[k := left];
    var r2 := Spans.InsertAt(r1, k + 1, piece);
    SpansUpdate(ps, k, left);
    SpansInsert(r1, k + 1, piece);
    SpansInsert(r2, k + 2, right);
  }

  /** `Insert` lengthens piece `k` rather than adding `piece` after it when
      `k` is the second-to-last piece, from the add buffer, and ends where
      `piece` starts in that buffer. */
  predicate Merges(ps: seq<Piece>, k: nat, piece: Piece)
    requires k < |ps|
  {
    k + 2 == |ps| && !ps[k].isOriginal && ps[k].runeStart + ps[k].runeLength == piece.runeStart
  }

  /** How `Insert` leaves the list `ps` with `piece` put at document
      position `position`, byte offset `o`, piece `k` being the one
      `FindPiece` located there: `piece` goes first at position 0, last at
      the end of the document, before piece `k` where that piece starts;
      where piece `k` ends, piece `k` is lengthened by `piece` when it
      `Merges` and `piece` goes after it otherwise; strictly inside piece
      `k`, `piece` goes between two halves of it, the first keeping its
      starts and ending at the position in codepoints and at `o` in bytes,
      the second starting where the first ends with the rest of both
      lengths and the same buffer. */
  ghost predicate Placement(ps: seq<Piece>, r: seq<Piece>, k: nat, position: nat, o: nat, piece: Piece) {
    if position == 0 then Spans.PutAt(ps, r, 0, piece)
    else if position == RuneTotal(ps) then Spans.PutAt(ps, r, |ps|, piece)
    else
      && k < |ps| && Runes(ps, k) <= position <= Runes(ps, k) + ps[k].runeLength
      && (position == Runes(ps, k) ==> Spans.PutAt(ps, r, k, piece))
      && (Runes(ps, k) < position == Runes(ps, k) + ps[k].runeLength ==>
            if Merges(ps, k, piece)
            then r == ps[k := ps[k].(byteLength := ps[k].byteLength + piece.byteLength,
                                     runeLength := ps[k].runeLength + piece.runeLength)]
            else Spans.PutAt(ps, r, k + 1, piece))
      && (Runes(ps, k) < position < Runes(ps, k) + ps[k].runeLength ==>
            && ByteStart(ps, k) <= o <= ByteStart(ps, k) + ps[k].byteLength
            && var left := ps[k].(byteLength := o - ByteStart(ps, k), runeLength := position - Runes(ps, k));
               Spans.SplitAt(ps, r, k, left, piece,
                             Piece(left.byteStart + left.byteLength, left.runeStart + left.runeLength,
                                   ps[k].byteLength - left.byteLength, ps[k].runeLength - left.runeLength,
                                   ps[k].isOriginal)))
  }

  /** Where `Insert` puts `piece`, the piece for `text` appended to the add
      buffer, among the pieces `ps` for document position `position`, given
      what `FindPiece` reported for it: at the front, at the back, before
      the piece found when the position is where that piece starts, after
      it when the position is where it ends (lengthening it instead when it
      is the second-to-last piece and ends where the add buffer ended), and
      otherwise between its two halves. The text lands at the byte offset of
      the position. */
  method Place(ps: seq<Piece>, f: Found, position: nat, piece: Piece,
               original: seq<byte>, add: seq<byte>, text: seq<byte>) returns (r: seq<Piece>)
    requires WellFormed(original) && WellFormed(add) && WellFormed(text) && AllConsistent(ps, original, add)
    requires position <= RuneTotal(ps) && piece == NewPiece(add, text)
    requires 0 < position < RuneTotal(ps) ==> Located(ps, f, position, original, add)
    ensures AllConsistent(r, original, add + text)
    ensures Text(r, original, add + text)
         == Text(ps, original, add)[..Offset(Text(ps, original, add), position)] + text
          + Text(ps, original, add)[Offset(Text(ps, original, add), position)..]
    ensures Placement(ps, r, f.index, position, Offset(Text(ps, original, add), position), piece)
  {
    if position == 0 {
      InsertPiece(ps, 0, position, piece, original, add, text);
      r := Spans.InsertAt(ps, 0, piece);
      Spans.InsertAtShape(ps, 0, piece);
    } else if position == RuneTotal(ps) {
      // the list's `Append`
      InsertPiece(ps, |ps|, position, piece, original, add, text);
      r := Spans.InsertAt(ps, |ps|, piece);
      Spans.InsertAtShape(ps, |ps|, piece);
    } else if position == f.runeStart {
      InsertPiece(ps, f.index, position, piece, original, add, text);
      r := Spans.InsertAt(ps, f.index, piece);
      PlacedBefore(ps, r, f, position, Offset(Text(ps, original, add), position), piece, original, add);
    } else if position == f.runeEnd {
      r := PlaceAfter(ps, f, position, piece, original, add, text);
    } else {
      r := PlaceInside(ps, f, position, piece, original, add, text);
    }
  }

  /** `Place` where the position is where the piece found ends. */
  method PlaceAfter(ps: seq<Piece>, f: Found, position: nat, piece: Piece,
                    original: seq<byte>, add: seq<byte>, text: seq<byte>) returns (r: seq<Piece>)
    requires WellFormed(original) && WellFormed(add) && WellFormed(text) && AllConsistent(ps, original, add)
    requires piece == NewPiece(add, text) && Located(ps, f, position, original, add) && position == f.runeEnd
    requires 0 < position < RuneTotal(ps) && f.runeStart < position
    ensures AllConsistent(r, original, add + text)
    ensures Text(r, original, add + text)
         == Text(ps, original, add)[..Offset(Text(ps, original, add), position)] + text
          + Text(ps, original, add)[Offset(Text(ps, original, add), position)..]
    ensures Placement(ps, r, f.index, position, Offset(Text(ps, original, add), position), piece)
  {
    var found := f.pieces[0];
    var k := f.index;
    var e := k + 1;
    InsideFound(ps, f, position, original, add);
    if Merges(ps, k, piece) {
      var grown := found.(byteLength := found.byteLength + piece.byteLength, runeLength := found.runeLength + piece.runeLength);
      MergePiece(ps, k, e, position, grown, original, add, text);
      r := ps[k := grown];
    } else {
      InsertPiece(ps, e, position, piece, original, add, text);
      r := Spans.InsertAt(ps, e, piece);
    }
    PlacedAfter(ps, r, k, position, Offset(Text(ps, original, add), position), piece);
  }

  /** `Placement` where the position is where piece `k` ends. */
  lemma {:induction false} PlacedAfter(ps: seq<Piece>, r: seq<Piece>, k: nat, position: nat, o: nat, piece: Piece)
    requires k < |ps| && 0 < position && position != RuneTotal(ps)
    requires Runes(ps, k) < position == Runes(ps, k) + ps[k].runeLength
    requires Merges(ps, k, piece) ==>
               r == ps[k := ps[k].(byteLength := ps[k].byteLength + piece.byteLength,
                                   runeLength := ps[k].runeLength + piece.runeLength)]
    requires !Merges(ps, k, piece) ==> r == Spans.InsertAt(ps, k + 1, piece)
    ensures Placement(ps, r, k, position, o, piece)
  {
    if !Merges(ps, k, piece) {
      Spans.InsertAtShape(ps, k + 1, piece);
    }
  }

  /** `Place` where the position lies strictly inside the piece found. */
  method PlaceInside(ps: seq<Piece>, f: Found, position: nat, piece: Piece,
                     original: seq<byte>, add: seq<byte>, text: seq<byte>) returns (r: seq<Piece>)
    requires WellFormed(original) && WellFormed(add) && WellFormed(text) && AllConsistent(ps, original, add)
    requires piece == NewPiece(add, text) && Located(ps, f, position, original, add)
    requires 0 < position < RuneTotal(ps) && f.runeStart < position < f.runeEnd
    ensures AllConsistent(r, original, add + text)
    ensures Text(r, original, add + text)
         == Text(ps, original, add)[..Offset(Text(ps, original, add), position)] + text
          + Text(ps, original, add)[Offset(Text(ps, original, add), position)..]
    ensures Placement(ps, r, f.index, position, Offset(Text(ps, original, add), position), piece)
  {
    InsideFound(ps, f, position, original, add);
    var found := f.pieces[0];
    var k := f.index;
    var m, d := position - f.runeStart, f.bytePosition - f.byteStart;
    var left := HeadOf(found, m, d);
    var right := RestOf(found, m, d);
    SplitPiece(ps, k, m, d, position, left, right, piece, original, add, text);
    r := Spans.InsertAt(Spans.InsertAt(ps[k := left], k + 1, piece), k + 2, right);
    PlacedInside(ps, r, k, position, Offset(Text(ps, original, add), position), piece, m, d);
  }

  /** `Placement` where the position lies `m` codepoints and `d` bytes
      inside piece `k`. */
  lemma {:induction false} PlacedInside(ps: seq<Piece>, r: seq<Piece>, k: nat, position: nat, o: nat, piece: Piece,
                                        m: nat, d: nat)
    requires k < |ps| && 0 < position && position != RuneTotal(ps)
    requires 0 < m < ps[k].runeLength && position == Runes(ps, k) + m
    requires d <= ps[k].byteLength && o == ByteStart(ps, k) + d
    requires r == Spans.InsertAt(Spans.InsertAt(ps[k := HeadOf(ps[k], m, d)], k + 1, piece), k + 2, RestOf(ps[k], m, d))
    ensures Placement(ps, r, k, position, o, piece)
  {
    Spans.SplitShape(ps, k, HeadOf(ps[k], m, d), piece, RestOf(ps[k], m, d));
  }

  /** `Placement` where the position is where the piece found starts. */
  lemma {:induction false} PlacedBefore(ps: seq<Piece>, r: seq<Piece>, f: Found, position: nat, o: nat, piece: Piece,
                                        original: seq<byte>, add: seq<byte>)
    requires WellFormed(original) && WellFormed(add) && AllConsistent(ps, original, add)
    requires 0 < position < RuneTotal(ps) && Located(ps, f, position, original, add) && position == f.runeStart
    requires r == Spans.InsertAt(ps, f.index, piece)
    ensures Placement(ps, r, f.index, position, o, piece)
  {
    InsideFound(ps, f, position, original, add);
    Spans.InsertAtShape(ps, f.index, piece);
  }

  /** An insertion of `text` at the byte offset of `position` adds its
      bytes and codepoints to the totals. */
  lemma {:induction false} InsertedTotals(ps: seq<Piece>, r: seq<Piece>, position: nat,
                                          original: seq<byte>, add: seq<byte>, text: seq<byte>)
    requires WellFormed(original) && WellFormed(add) && WellFormed(text)
    requires AllConsistent(ps, original, add) && AllConsistent(r, original, add + text)
    requires position <= RuneTotal(ps)
    requires Text(r, original, add + text)
          == Text(ps, original, add)[..Offset(Text(ps, original, add), position)] + text
           + Text(ps, original, add)[Offset(Text(ps, original, add), position)..]
    ensures RuneTotal(r) == RuneTotal(ps) + RuneCount(text)
    ensures ByteTotal(r) == ByteTotal(ps) + |text|
  {
    var t := Text(ps, original, add);
    var o := Offset(t, position);
    TextFacts(ps, original, add);
    AppendWellFormed(add, text);
    TextFacts(r, original, add + text);
    SplitAtOffset(t, position);
    AppendWellFormed(t[..o], text);
    AppendWellFormed(t[..o] + text, t[o..]);
  }
}
