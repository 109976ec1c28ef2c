/** Reading the byte table: `PieceSequence`, which slices a piece's buffer,
    and the copy loop of `GetSequence`, which gathers the bytes of a span
    from the run of pieces `FindPieces` reported for it. */
module ByteRead {
  import opened Utf8
  import Spans
  import opened BytePieces
  import opened ByteSearch
  import opened Outcomes

  /** Bytes `start .. end` of the buffer piece `p` points into (Go's
      `PieceSequence`). */
  function PieceSequence(p: Piece, start: nat, end: nat, original: seq<byte>, add: seq<byte>): seq<byte>
    requires start <= end <= |Spans.Buffer(Bytes(p), original, add)|
  {
    if p.isOriginal then original[start..end] else add[start..end]
  }

  /** Over the whole of a consistent piece, `PieceSequence` gives the
      piece's bytes: well-formed, with as many codepoints as the piece
      counts. */
  lemma {:induction false} WholePiece(p: Piece, original: seq<byte>, add: seq<byte>)
    requires WellFormed(original) && WellFormed(add) && Consistent(p, original, add)
    ensures p.byteStart + p.byteLength <= |Spans.Buffer(Bytes(p), original, add)|
    ensures PieceSequence(p, p.byteStart, p.byteStart + p.byteLength, original, add) == PieceText(p, original, add)
    ensures WellFormed(PieceText(p, original, add)) && RuneCount(PieceText(p, original, add)) == p.runeLength
  {
    PieceWellFormed(p, original, add);
    Spans.SliceBuffer(Bytes(p), original, add);
  }

  /** Part of piece `j`, `o` bytes in and `c` bytes long, is the same part
      of the document, `o` bytes after where the piece starts in it. */
  lemma {:induction false} PieceBytes(ps: seq<Piece>, j: nat, start: nat, end: nat, lo: nat, hi: nat,
                                      original: seq<byte>, add: seq<byte>)
    requires WellFormed(original) && WellFormed(add) && AllConsistent(ps, original, add)
    requires j < |ps| && ps[j].byteStart <= start <= end <= ps[j].byteStart + ps[j].byteLength
    requires lo == ByteStart(ps, j) + (start - ps[j].byteStart) && hi == lo + (end - start)
    ensures end <= |Spans.Buffer(Bytes(ps[j]), original, add)|
    ensures lo <= hi <= |Text(ps, original, add)|
    ensures PieceSequence(ps[j], start, end, original, add) == Text(ps, original, add)[lo .. hi]
  {
    var x, y, z := Around(ps, j, original, add);
    var o, c := start - ps[j].byteStart, end - start;
    PieceSlice(ps[j], start, end, o, c, original, add);
    MiddleSlice(Text(ps, original, add), x, y, z, o, c, lo, hi);
  }

  /** Part of a consistent piece, `o` bytes in and `c` bytes long. */
  lemma {:induction false} PieceSlice(p: Piece, start: nat, end: nat, o: nat, c: nat, original: seq<byte>, add: seq<byte>)
    requires Consistent(p, original, add) && o + c <= p.byteLength && start == p.byteStart + o && end == start + c
    ensures end <= |Spans.Buffer(Bytes(p), original, add)|
    ensures |PieceText(p, original, add)| == p.byteLength
    ensures PieceSequence(p, start, end, original, add) == PieceText(p, original, add)[o .. o + c]
  {
    ConsistentInBuffer(p, original, add);
    Spans.SliceBuffer(Bytes(p), original, add);
    Spans.SliceOfSlice(Spans.Buffer(Bytes(p), original, add), p.byteStart, p.byteLength, o, c);
  }

  /** Part of the middle of three strings side by side. */
  lemma {:induction false} MiddleSlice(s: seq<byte>, x: seq<byte>, y: seq<byte>, z: seq<byte>, o: nat, c: nat, lo: nat, hi: nat)
    requires s == x + (y + z) && lo == |x| + o && hi == lo + c && o + c <= |y|
    ensures lo <= hi <= |s| && s[lo .. hi] == y[o .. o + c]
  {
  }

  /** The run `f` that `FindPieces` reports for a span holds the span's
      bytes: its first piece starts at or before them and ends at or after
      where they start, and its last piece ends at or after them. */
  lemma {:induction false} RunBytes(ps: seq<Piece>, f: Found, position: nat, len: nat, k: nat, e: nat,
                                    original: seq<byte>, add: seq<byte>)
    requires WellFormed(original) && WellFormed(add) && AllConsistent(ps, original, add)
    requires Covers(ps, f, position, len, original, add) && k == f.index && e == k + |f.pieces|
    ensures ByteStart(ps, k) <= f.bytePosition <= ByteStart(ps, k + 1)
    ensures f.bytePosition + f.byteLength <= ByteStart(ps, e)
    ensures f.bytePosition + f.byteLength == Offset(Text(ps, original, add), position + len)
  {
    OffsetBetween(ps, k, f.runeStart, position, original, add);
    OffsetBetween(ps, k + 1, position, Runes(ps, k + 1), original, add);
    if e == |ps| {
      TextFacts(ps, original, add);
    } else {
      OffsetBetween(ps, e, position + len, Runes(ps, e), original, add);
    }
  }

  /** Offsets grow with positions, and piece `i` starts at the byte offset
      of its position. */
  lemma {:induction false} OffsetBetween(ps: seq<Piece>, i: nat, a: nat, b: nat, original: seq<byte>, add: seq<byte>)
    requires WellFormed(original) && WellFormed(add) && AllConsistent(ps, original, add)
    requires i <= |ps| && a <= b && (a == Runes(ps, i) || b == Runes(ps, i))
    ensures Offset(Text(ps, original, add), a) <= Offset(Text(ps, original, add), b)
    ensures Offset(Text(ps, original, add), Runes(ps, i)) == ByteStart(ps, i)
  {
    BoundaryOffset(ps, i, original, add);
    OffsetMonotone(Text(ps, original, add), a, b);
  }

  /** Every piece of the run after the first starts inside the span. */
  lemma {:induction false} InsideSpan(ps: seq<Piece>, f: Found, position: nat, len: nat, j: nat, i: nat,
                                      original: seq<byte>, add: seq<byte>)
    requires WellFormed(original) && WellFormed(add) && AllConsistent(ps, original, add)
    requires Covers(ps, f, position, len, original, add)
    requires 1 <= j < |f.pieces| && i == f.index + j
    ensures ByteStart(ps, i) <= f.bytePosition + f.byteLength
  {
    var t := Text(ps, original, add);
    RunesMonotone(ps, i, f.index + |f.pieces| - 1);
    BoundaryOffset(ps, i, original, add);
    OffsetMonotone(t, Runes(ps, i), position + len);
  }

  /** The bytes `start .. end` of piece `i`, at `upTo` in the document,
      extend the copy of the document from `from` to `upTo` up to `hi`. */
  lemma {:induction false} Copied(ps: seq<Piece>, t: seq<byte>, i: nat, piece: Piece, start: nat, end: nat,
                                  from: nat, upTo: nat, hi: nat, sequence: seq<byte>, more: seq<byte>,
                                  original: seq<byte>, add: seq<byte>)
    requires WellFormed(original) && WellFormed(add) && AllConsistent(ps, original, add) && t == Text(ps, original, add)
    requires i < |ps| && piece == ps[i] && piece.byteStart <= start <= end <= piece.byteStart + piece.byteLength
    requires upTo == ByteStart(ps, i) + (start - piece.byteStart) && hi == upTo + (end - start)
    requires from <= upTo <= |t| && sequence == t[from .. upTo]
    requires end <= |Spans.Buffer(Bytes(piece), original, add)| && more == PieceSequence(piece, start, end, original, add)
    ensures hi <= |t| && sequence + more == t[from .. hi]
  {
    PieceBytes(ps, i, start, end, upTo, hi, original, add);
    Adjacent(t, from, upTo, hi);
  }

  /** `Copied`, with the copy so far given element by element. */
  lemma {:induction false} CopiedSub(ps: seq<Piece>, t: seq<byte>, i: nat, piece: Piece, start: nat, end: nat,
                                     from: nat, upTo: nat, hi: nat, sequence: seq<byte>, more: seq<byte>,
                                     original: seq<byte>, add: seq<byte>)
    requires WellFormed(original) && WellFormed(add) && AllConsistent(ps, original, add) && t == Text(ps, original, add)
    requires i < |ps| && piece == ps[i] && piece.byteStart <= start <= end <= piece.byteStart + piece.byteLength
    requires upTo == ByteStart(ps, i) + (start - piece.byteStart) && hi == upTo + (end - start)
    requires from <= upTo <= |t| && sequence == Spans.Sub(t, from, upTo)
    requires end <= |Spans.Buffer(Bytes(piece), original, add)| && more == PieceSequence(piece, start, end, original, add)
    ensures hi <= |t| && sequence + more == Spans.Sub(t, from, hi)
  {
    Spans.SubSlice(t, from, upTo);
    Copied(ps, t, i, piece, start, end, from, upTo, hi, sequence, more, original, add);
    Spans.SubSlice(t, from, hi);
  }

  /** `CopiedSub` for the copy loop of `GetSequence`: bytes `start .. end`
      of the piece of round `idx`, taken where the copy so far ends,
      extend it. */
  lemma {:induction false} Extended(ps: seq<Piece>, t: seq<byte>, f: Found, idx: nat, runeStart: nat, track: nat,
                                    sequence: seq<byte>, piece: Piece, start: nat, end: nat, copied: nat,
                                    more: seq<byte>, original: seq<byte>, add: seq<byte>)
    requires WellFormed(original) && WellFormed(add) && AllConsistent(ps, original, add) && t == Text(ps, original, add)
    requires Copying(ps, t, f, idx, runeStart, track, sequence)
    requires f.index + idx < |ps| && piece == ps[f.index + idx]
    requires piece.byteStart <= start <= end <= piece.byteStart + piece.byteLength
    requires end <= |Spans.Buffer(Bytes(piece), original, add)|
    requires f.bytePosition + track == ByteStart(ps, f.index + idx) + (start - piece.byteStart)
    requires copied == end - start && more == PieceSequence(piece, start, end, original, add)
    ensures f.bytePosition + track + copied <= |t|
    ensures sequence + more == Spans.Sub(t, f.bytePosition, f.bytePosition + track + copied)
  {
    CopiedSub(ps, t, f.index + idx, piece, start, end, f.bytePosition, f.bytePosition + track,
              f.bytePosition + track + (end - start), sequence, more, original, add);
  }

  /** Two adjacent slices make one. */
  lemma {:induction false} Adjacent(s: seq<byte>, a: nat, b: nat, c: nat)
    requires a <= b <= c <= |s|
    ensures s[a..b] + s[b..c] == s[a..c]
  {
  }

  /** One round of the copy loop of `GetSequence`, on `piece`, the
      `idx`-th of the run and piece `i` of the table, after `track` bytes
      of the span were copied: the bytes `start .. end` of its buffer lie
      inside the piece and are the next bytes of the span; the span is
      complete after them, or the next piece starts where they end. */
  lemma {:induction false} Round(ps: seq<Piece>, f: Found, position: nat, len: nat, k: nat, e: nat, n: nat,
                                 idx: nat, i: nat, next: nat, piece: Piece, track: nat, upTo: nat,
                                 start: int, end0: int, end: int,
                                 original: seq<byte>, add: seq<byte>)
    requires WellFormed(original) && WellFormed(add) && AllConsistent(ps, original, add)
    requires Covers(ps, f, position, len, original, add) && k == f.index && n == |f.pieces| && e == k + n
    requires ByteStart(ps, k) <= f.bytePosition <= ByteStart(ps, k + 1) && f.bytePosition + f.byteLength <= ByteStart(ps, e)
    requires idx < n && i == k + idx && next == i + 1 && piece == f.pieces[idx] && track <= f.byteLength
    requires upTo == f.bytePosition + track
    requires idx == 0 ==> track == 0
    requires idx > 0 ==> upTo == ByteStart(ps, i) && track < f.byteLength
    requires start == piece.byteStart + (if idx == 0 then f.bytePosition - f.byteStart else 0)
    requires end0 == piece.byteStart + (if n > 1 && idx == n - 1 then f.byteLength - track else piece.byteLength)
    requires end == (if end0 - start > f.byteLength then start + (f.byteLength - track) else end0)
    ensures i < |ps| && piece == ps[i] && piece.byteStart <= start <= end <= piece.byteStart + piece.byteLength
    ensures track + (end - start) <= f.byteLength
    ensures upTo == ByteStart(ps, i) + (start - piece.byteStart)
    ensures upTo + (end - start) <= ByteStart(ps, next)
    ensures track + (end - start) < f.byteLength ==> upTo + (end - start) == ByteStart(ps, next)
    ensures ByteStart(ps, next) == ByteStart(ps, i) + piece.byteLength
    ensures Runes(ps, next) == Runes(ps, i) + piece.runeLength
    ensures Runes(ps, k) <= Runes(ps, i) <= position + len
    ensures end <= |Spans.Buffer(Bytes(piece), original, add)|
  {
    RoundPieces(ps, f, position, len, k, e, n, idx, i, next, piece, original, add);
    RoundBytes(piece.byteStart, piece.byteLength, f.byteStart, f.bytePosition, f.byteLength,
               ByteStart(ps, i), ByteStart(ps, next), idx, n, track, upTo, start, end0, end);
  }

  /** The piece of round `idx` is piece `i` of the table, its starts in
      codepoints and bytes are those of the table, and the span reaches
      past the start of the next piece unless this is the last round. */
  lemma {:induction false} RoundPieces(ps: seq<Piece>, f: Found, position: nat, len: nat, k: nat, e: nat, n: nat,
                                       idx: nat, i: nat, next: nat, piece: Piece, original: seq<byte>, add: seq<byte>)
    requires WellFormed(original) && WellFormed(add) && AllConsistent(ps, original, add)
    requires Covers(ps, f, position, len, original, add) && k == f.index && n == |f.pieces| && e == k + n
    requires idx < n && i == k + idx && next == i + 1 && piece == f.pieces[idx]
    ensures piece == ps[i] && next <= |ps|
    ensures ByteStart(ps, next) == ByteStart(ps, i) + piece.byteLength
    ensures Runes(ps, next) == Runes(ps, i) + piece.runeLength
    ensures idx == 0 ==> ByteStart(ps, i) == f.byteStart
    ensures idx + 1 < n ==> ByteStart(ps, next) <= f.bytePosition + f.byteLength
    ensures Runes(ps, k) <= Runes(ps, i) <= position + len
    ensures piece.byteStart + piece.byteLength <= |Spans.Buffer(Bytes(piece), original, add)|
  {
    Spans.RunIndex(ps, k, f.pieces, idx, i);
    ConsistentInBuffer(ps[i], original, add);
    BytesStep(ps, i, next);
    RunesStep(ps, i, next);
    RunesMonotone(ps, k, i);
    if idx + 1 < n {
      InsideSpan(ps, f, position, len, idx + 1, next, original, add);
    }
    if idx > 0 {
      RunesMonotone(ps, i, e - 1);
    }
  }

  /** The byte arithmetic of one round: with piece bytes `pStart ..
      pStart + pLength`, starting at `bi` in the document and ending at
      `bNext`, the bytes `start .. end` the round copies lie inside the
      piece, keep the copy within the span, and end at `bNext` unless the
      span is complete. */
  lemma {:induction false} RoundBytes(pStart: nat, pLength: nat, firstStart: nat, bytePosition: nat, byteLength: nat,
                                      bi: nat, bNext: nat, idx: nat, n: nat, track: nat, upTo: nat,
                                      start: int, end0: int, end: int)
    requires idx < n && bNext == bi + pLength && track <= byteLength && upTo == bytePosition + track
    requires idx == 0 ==> track == 0 && bi == firstStart && firstStart <= bytePosition <= bNext
    requires idx > 0 ==> upTo == bi && track < byteLength
    requires idx + 1 < n ==> bNext <= bytePosition + byteLength
    requires idx + 1 == n ==> bytePosition + byteLength <= bNext
    requires start == pStart + (if idx == 0 then bytePosition - firstStart else 0)
    requires end0 == pStart + (if n > 1 && idx == n - 1 then byteLength - track else pLength)
    requires end == (if end0 - start > byteLength then start + (byteLength - track) else end0)
    ensures pStart <= start <= end <= pStart + pLength
    ensures track + (end - start) <= byteLength
    ensures upTo == bi + (start - pStart)
    ensures upTo + (end - start) <= bNext
    ensures track + (end - start) < byteLength ==> upTo + (end - start) == bNext
  {
  }

  /** The bytes of its buffer one round of the copy loop of `GetSequence`
      takes from `piece`: from the span's byte position on in the first
      piece, what is left of the span's byte length in the last, the whole
      piece otherwise, and never more than is left of the span. */
  method RoundSpan(ps: seq<Piece>, ghost t: seq<byte>, f: Found, position: nat, len: nat, n: nat, idx: nat,
                   runeStart: nat, track: nat, ghost sequence: seq<byte>, piece: Piece,
                   original: seq<byte>, add: seq<byte>)
    returns (start: nat, end: nat)
    requires WellFormed(original) && WellFormed(add) && AllConsistent(ps, original, add) && t == Text(ps, original, add)
    requires Covers(ps, f, position, len, original, add) && n == |f.pieces| && idx < n && piece == f.pieces[idx]
    requires ByteStart(ps, f.index) <= f.bytePosition <= ByteStart(ps, f.index + 1)
    requires f.bytePosition + f.byteLength <= ByteStart(ps, f.index + n)
    requires Copying(ps, t, f, idx, runeStart, track, sequence)
    ensures f.index + idx < |ps| && piece == ps[f.index + idx]
    ensures piece.byteStart <= start <= end <= piece.byteStart + piece.byteLength
    ensures end <= |Spans.Buffer(Bytes(piece), original, add)|
    ensures track + (end - start) <= f.byteLength
    ensures f.bytePosition + track == ByteStart(ps, f.index + idx) + (start - piece.byteStart)
    ensures f.bytePosition + track + (end - start) <= ByteStart(ps, f.index + idx + 1)
    ensures track + (end - start) < f.byteLength ==> f.bytePosition + track + (end - start) == ByteStart(ps, f.index + idx + 1)
    ensures Runes(ps, f.index + idx + 1) == runeStart + piece.runeLength
  {
    var s: int, e: int := piece.byteStart, piece.byteStart + piece.byteLength;
    if idx == 0 {
      s := s + (f.bytePosition - f.byteStart);
    }
    if n > 1 && idx == n - 1 {
      e := piece.byteStart + (f.byteLength - track);
    }
    ghost var end0 := e;
    if e - s > f.byteLength {
      e := s + (f.byteLength - track);
    }
    Round(ps, f, position, len, f.index, f.index + n, n, idx, f.index + idx, f.index + idx + 1, piece, track,
          f.bytePosition + track, s, end0, e, original, add);
    start, end := s, e;
  }

  /** The state of the copy loop of `GetSequence` before round `idx`:
      `runeStart` is where piece `idx` of the run starts in codepoints, and
      `sequence` holds the `track` bytes of the span copied so far, which
      end where piece `idx` starts once the first round is done. */
  ghost predicate Copying(ps: seq<Piece>, t: seq<byte>, f: Found, idx: nat, runeStart: nat,
                          track: nat, sequence: seq<byte>)
  {
    && f.index + idx <= |ps| && runeStart == Runes(ps, f.index + idx)
    && track <= f.byteLength && f.bytePosition + track <= |t|
    && sequence == Spans.Sub(t, f.bytePosition, f.bytePosition + track)
    && (idx == 0 ==> track == 0)
    && (idx > 0 ==> f.bytePosition + track == ByteStart(ps, f.index + idx) && track < f.byteLength)
  }

  /** Piece `i` of the table is where the copy loop of `GetSequence` on
      the run `f` stops: the first piece of the run whose bytes reach the
      end of the span. */
  ghost predicate StopsAt(ps: seq<Piece>, f: Found, i: nat) {
    && f.index <= i < f.index + |f.pieces| <= |ps|
    && f.bytePosition + f.byteLength <= ByteStart(ps, i + 1)
    && (i == f.index || ByteStart(ps, i) < f.bytePosition + f.byteLength)
  }

  /** At most one piece of a run is where the copy stops. */
  lemma {:induction false} StopsOnce(ps: seq<Piece>, f: Found, i: nat, j: nat)
    requires StopsAt(ps, f, i) && StopsAt(ps, f, j)
    ensures i == j
  {
    if i < j {
      Spans.StartMonotone(ByteSpans(ps), i + 1, j);
    } else if j < i {
      Spans.StartMonotone(ByteSpans(ps), j + 1, i);
    }
  }

  /** The bytes one round of the copy loop of `GetSequence` takes from
      piece `idx` of the run, `copied` bytes long: they extend the copy of
      the span, and end where the next piece starts unless the span is
      complete, or in this piece. */
  method Take(ps: seq<Piece>, ghost t: seq<byte>, f: Found, position: nat, len: nat, n: nat, idx: nat,
              runeStart: nat, track: nat, sequence: seq<byte>,
              original: seq<byte>, add: seq<byte>)
    returns (more: seq<byte>, copied: nat)
    requires WellFormed(original) && WellFormed(add) && AllConsistent(ps, original, add) && t == Text(ps, original, add)
    requires Covers(ps, f, position, len, original, add) && n == |f.pieces| && idx < n
    requires ByteStart(ps, f.index) <= f.bytePosition <= ByteStart(ps, f.index + 1)
    requires f.bytePosition + f.byteLength <= ByteStart(ps, f.index + n)
    requires Copying(ps, t, f, idx, runeStart, track, sequence)
    ensures track + copied <= f.byteLength && f.bytePosition + track + copied <= |t|
    ensures sequence + more == Spans.Sub(t, f.bytePosition, f.bytePosition + track + copied)
    ensures f.bytePosition + track + copied <= ByteStart(ps, f.index + idx + 1)
    ensures track + copied < f.byteLength ==> f.bytePosition + track + copied == ByteStart(ps, f.index + idx + 1)
    ensures Runes(ps, f.index + idx + 1) == runeStart + f.pieces[idx].runeLength
  {
    var piece := f.pieces[idx];
    var start, end := RoundSpan(ps, t, f, position, len, n, idx, runeStart, track, sequence, piece, original, add);
    more := PieceSequence(piece, start, end, original, add);
    copied := end - start;
    Extended(ps, t, f, idx, runeStart, track, sequence, piece, start, end, copied, more, original, add);
  }

  /** One round of the copy loop of `GetSequence`: the bytes `Take` picks
      from piece `idx` of the run are added to the copy; the loop is
      `done` when the copy reaches the span's byte length, the piece
      being where it `StopsAt`, and otherwise goes on at the next piece,
      `runeStart` moving past this one. */
  method CopyRound(ps: seq<Piece>, ghost t: seq<byte>, f: Found, position: nat, len: nat, n: nat, idx: nat,
                   runeStart: nat, track: nat, sequence: seq<byte>,
                   original: seq<byte>, add: seq<byte>)
    returns (sequence': seq<byte>, track': nat, runeStart': nat, done: bool)
    requires WellFormed(original) && WellFormed(add) && AllConsistent(ps, original, add) && t == Text(ps, original, add)
    requires Covers(ps, f, position, len, original, add) && n == |f.pieces| && idx < n
    requires ByteStart(ps, f.index) <= f.bytePosition <= ByteStart(ps, f.index + 1)
    requires f.bytePosition + f.byteLength <= ByteStart(ps, f.index + n)
    requires Copying(ps, t, f, idx, runeStart, track, sequence)
    ensures !done ==> Copying(ps, t, f, idx + 1, runeStart', track', sequence')
    ensures done ==>
      && sequence' == Spans.Sub(t, f.bytePosition, f.bytePosition + f.byteLength)
      && runeStart' == Runes(ps, f.index + idx) && StopsAt(ps, f, f.index + idx)
  {
    var more, copied := Take(ps, t, f, position, len, n, idx, runeStart, track, sequence, original, add);
    sequence', track' := sequence + more, track + copied;
    if track' == f.byteLength {
      return sequence', track', runeStart, true;
    }
    runeStart' := runeStart + f.pieces[idx].runeLength;
    done := false;
  }

  /** The copy loop of `GetSequence`: takes from the first piece the bytes
      from the span's byte position on, whole pieces after it, and from the
      last piece what is left of the span's byte length, stopping as soon as
      that length is reached. It returns the bytes of the span and the
      codepoint position where the piece it stopped in starts; with no
      pieces it fails. */
  method Collect(ps: seq<Piece>, f: Found, position: nat, len: nat, original: seq<byte>, add: seq<byte>)
    returns (r: Result<(seq<byte>, nat)>)
    requires WellFormed(original) && WellFormed(add) && AllConsistent(ps, original, add)
    requires f.pieces == [] || Covers(ps, f, position, len, original, add)
    ensures f.pieces == [] ==> r == Err(Inconsistent)
    ensures f.pieces != [] ==>
      && r.Ok?
      && r.value.0 == Text(ps, original, add)[Offset(Text(ps, original, add), position) .. Offset(Text(ps, original, add), position + len)]
      && exists i :: StopsAt(ps, f, i) && r.value.1 == Runes(ps, i)
  {
    if f.pieces == [] {
      return Err(Inconsistent);
    }
    ghost var t := Text(ps, original, add);
    var n := |f.pieces|;
    RunBytes(ps, f, position, len, f.index, f.index + n, original, add);
    var sequence: seq<byte> := [];
    var track: nat := 0;
    var runeStart: nat := f.runeStart;
    var idx: nat := 0;
    while idx < n
      invariant idx <= n && Copying(ps, t, f, idx, runeStart, track, sequence)
    {
      var done;
      sequence, track, runeStart, done := CopyRound(ps, t, f, position, len, n, idx, runeStart, track, sequence, original, add);
      if done {
        Spans.SubSlice(t, f.bytePosition, f.bytePosition + f.byteLength);
        return Ok((sequence, runeStart));
      }
      idx := idx + 1;
    }
    assert false;
    return Err(Inconsistent);
  }

  /** Where the copy stops is a piece starting at or before the end of the
      span, in codepoints and in bytes, and ending at or after it in bytes. */
  lemma {:induction false} StopsWithin(ps: seq<Piece>, f: Found, i: nat, position: nat, len: nat,
                                       original: seq<byte>, add: seq<byte>)
    requires WellFormed(original) && WellFormed(add) && AllConsistent(ps, original, add)
    requires Covers(ps, f, position, len, original, add) && StopsAt(ps, f, i)
    ensures Runes(ps, i) <= position + len
    ensures ByteStart(ps, i) <= Offset(Text(ps, original, add), position + len) <= ByteStart(ps, i + 1)
  {
    RunBytes(ps, f, position, len, f.index, f.index + |f.pieces|, original, add);
    if i > f.index {
      RunesMonotone(ps, i, f.index + |f.pieces| - 1);
    }
  }

  /** Piece `i` starts at codepoint `s`, at or before codepoint `q`, and
      holds byte offset `o` of the document. */
  ghost predicate EndPiece(ps: seq<Piece>, i: nat, s: nat, q: nat, o: nat) {
    i < |ps| && s == Runes(ps, i) <= q && ByteStart(ps, i) <= o <= ByteStart(ps, i + 1)
  }

  /** Piece `i` holds codepoint `position` and starts at codepoint `s`. */
  ghost predicate PieceFrom(ps: seq<Piece>, i: nat, s: nat, position: nat) {
    i < |ps| && s == Runes(ps, i) <= position < Runes(ps, i + 1)
  }

  /** The piece holding codepoint `position` starts at least as far into
      its buffer as into the document. */
  ghost predicate FitsBuffer(ps: seq<Piece>, position: nat) {
    forall i :: 0 <= i < |ps| && Runes(ps, i) <= position < Runes(ps, i + 1) ==> ByteStart(ps, i) <= ps[i].byteStart
  }

  /** The copy loop of `GetSequence` on what the front-to-back search
      reports for a span running past the end of the document: every piece
      from the one holding the position on, with byte position and byte
      length 0. Go's unsigned arithmetic then starts the first round
      `byteStart` bytes before the piece's own start in its buffer, which
      requires the piece to start at least that far into its buffer (or
      the slice is out of range); the round is cut to the byte length 0,
      copies nothing, and so already completes the span: the call returns
      no bytes and the codepoint start of that piece. */
  method CollectPast(ps: seq<Piece>, f: Found, original: seq<byte>, add: seq<byte>)
    returns (r: Result<(seq<byte>, nat)>)
    requires WellFormed(original) && WellFormed(add) && AllConsistent(ps, original, add)
    requires f.index < |ps| && f.pieces == ps[f.index..] && f.bytePosition == 0 && f.byteLength == 0
    requires f.byteStart <= ps[f.index].byteStart
    ensures r == Ok(([], f.runeStart))
  {
    var piece := f.pieces[0];
    WholePiece(piece, original, add);
    var start := piece.byteStart - f.byteStart + f.bytePosition;
    var end := piece.byteStart + piece.byteLength;
    if end - start > f.byteLength {
      end := start + f.byteLength;
    }
    var sequence := PieceSequence(piece, start, end, original, add);
    if end - start == f.byteLength {
      assert |sequence| == 0;
      return Ok((sequence, f.runeStart));
    }
    assert false;
    return Err(Inconsistent);
  }

  /** What a span running past the end should have given from a position
      inside the document, the rest of it, is never empty. */
  lemma {:induction false} RestNotEmpty(t: seq<byte>, position: nat)
    requires position < RuneCount(t)
    ensures t[Offset(t, position)..] != []
  {
    OffsetEnd(t, position);
  }
}
