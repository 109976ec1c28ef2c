/** The searches of the byte table: `GetBytePosition`, which walks pieces
    codepoint by codepoint to turn a codepoint position into a byte
    position, and the loops of `FindPiece` and `FindPieces`, which walk the
    piece list from the front or from the back to find the pieces a
    position or a span falls in. They work on the piece list as a value;
    the table's methods call them with its fields. */
module ByteSearch {
  import opened Utf8
  import Spans
  import opened BytePieces

  /** What `FindPiece` and `FindPieces` report (Go's `FoundPieces`): the
      pieces found, the index of the first, the byte position of the
      codepoint position asked for and a byte length, and the codepoint
      and byte positions where the first piece starts and where the search
      stopped. */
  datatype Found = Found(pieces: seq<Piece>, index: nat, bytePosition: nat, byteLength: nat,
                         runeStart: nat, byteStart: nat, runeEnd: nat, byteEnd: nat)

  /** What the searches report when they find nothing. */
  const Nothing: Found := Found([], 0, 0, 0, 0, 0, 0, 0)

  /** The inner loop of `GetBytePosition`: walks the bytes `buffer` of one
      piece, whose first codepoint is codepoint `j0` of the document, one
      codepoint at a time, and stops when it reaches `position` or the end
      of the piece. `bytePosition` grows by the size of every codepoint
      passed and `byteIndex` is where the last of them starts. */
  method WalkPiece(buffer: seq<byte>, j0: nat, position: nat, bytePosition0: nat, byteIndex0: nat)
    returns (reached: bool, j: nat, bytePosition: nat, byteIndex: nat)
    requires WellFormed(buffer)
    ensures reached <==> j0 <= position < j0 + RuneCount(buffer)
    ensures reached ==> j == position && bytePosition == bytePosition0 + Offset(buffer, position - j0)
    ensures reached ==> byteIndex == if position == j0 then byteIndex0 else Offset(buffer, position - j0 - 1)
    ensures !reached ==> j == j0 + RuneCount(buffer) && bytePosition == bytePosition0 + |buffer|
    ensures !reached ==> byteIndex == if RuneCount(buffer) == 0 then byteIndex0 else Offset(buffer, RuneCount(buffer) - 1)
  {
    j, bytePosition, byteIndex := j0, bytePosition0, byteIndex0;
    var index := 0;
    ghost var r := 0;
    while index < |buffer|
      invariant r <= RuneCount(buffer) && index == Offset(buffer, r)
      invariant j == j0 + r && bytePosition == bytePosition0 + index
      invariant j0 <= position ==> j <= position
      invariant byteIndex == if r == 0 then byteIndex0 else Offset(buffer, r - 1)
    {
      OffsetEnd(buffer, r);
      if j == position {
        return true, j, bytePosition, byteIndex;
      }
      OffsetStep(buffer, r);
      var size := DecodeRune(buffer[index..]).size;
      byteIndex := index;
      index := index + size;
      bytePosition := bytePosition + size;
      j := j + 1;
      r := r + 1;
    }
    OffsetEnd(buffer, r);
    return false, j, bytePosition, byteIndex;
  }

  /** Walks `pieces`, whose first codepoint is at document position
      `runeStartPosition` and first byte at `byteStartPosition`, one
      codepoint at a time until it reaches `position`. Returns the byte
      position reached and where, inside the piece it stopped in, the
      codepoint before the position starts. A position before the start
      is never reached: the walk then runs to the end of the pieces. */
  method GetBytePosition(pieces: seq<Piece>, position: nat, runeStartPosition: nat, byteStartPosition: nat,
                         original: seq<byte>, add: seq<byte>)
    returns (bytePosition: nat, byteIndex: nat)
    requires WellFormed(original) && WellFormed(add) && AllConsistent(pieces, original, add)
    ensures runeStartPosition <= position ==>
      bytePosition == byteStartPosition + Offset(Text(pieces, original, add), position - runeStartPosition)
    ensures position < runeStartPosition ==> bytePosition == byteStartPosition + |Text(pieces, original, add)|
    ensures |pieces| == 1 && runeStartPosition <= position ==>
      byteIndex == LastRuneStart(PieceText(pieces[0], original, add), position - runeStartPosition)
  {
    var j := runeStartPosition;
    bytePosition := byteStartPosition;
    byteIndex := 0;
    var i := 0;
    while i < |pieces|
      invariant i <= |pieces|
      invariant j == runeStartPosition + Runes(pieces, i)
      invariant bytePosition == byteStartPosition + ByteStart(pieces, i)
      invariant runeStartPosition <= position ==> j <= position
      invariant i == 0 ==> byteIndex == 0
      invariant i == 1 && |pieces| == 1 ==>
        var last := RuneCount(PieceText(pieces[0], original, add));
        byteIndex == if last == 0 then 0 else Offset(PieceText(pieces[0], original, add), last - 1)
    {
      var buffer := PieceText(pieces[i], original, add);
      PieceWellFormed(pieces[i], original, add);
      ghost var j0 := j;
      var reached;
      reached, j, bytePosition, byteIndex := WalkPiece(buffer, j, position, bytePosition, byteIndex);
      if reached {
        Stopped(pieces, i, j0, runeStartPosition, byteStartPosition, position, bytePosition, byteIndex, original, add);
        return;
      }
      PrefixStep(pieces, i, i + 1, original, add);
      RunesStep(pieces, i, i + 1);
      i := i + 1;
    }
    if runeStartPosition <= position {
      Passed(pieces, position - runeStartPosition, original, add);
    } else {
      TextFacts(pieces, original, add);
    }
  }

  /** A walk that passed every piece without reaching codepoint `m` has
      passed every byte, and in a single piece saw its last codepoint
      last. */
  lemma {:induction false} Passed(pieces: seq<Piece>, m: nat, original: seq<byte>, add: seq<byte>)
    requires WellFormed(original) && WellFormed(add) && AllConsistent(pieces, original, add)
    requires RuneTotal(pieces) <= m
    ensures Offset(Text(pieces, original, add), m) == |Text(pieces, original, add)|
    ensures |Text(pieces, original, add)| == ByteTotal(pieces)
    ensures |pieces| == 1 ==>
      var last := RuneCount(PieceText(pieces[0], original, add));
      LastRuneStart(PieceText(pieces[0], original, add), m)
      == if last == 0 then 0 else Offset(PieceText(pieces[0], original, add), last - 1)
  {
    TextFacts(pieces, original, add);
    OffsetEnd(Text(pieces, original, add), m);
    if |pieces| == 1 {
      PassedOne(pieces, m, original, add);
      LastRuneStartAt(PieceText(pieces[0], original, add), RuneCount(PieceText(pieces[0], original, add)));
    }
  }

  lemma {:induction false} PassedOne(pieces: seq<Piece>, m: nat, original: seq<byte>, add: seq<byte>)
    requires WellFormed(original) && WellFormed(add) && AllConsistent(pieces, original, add)
    requires |pieces| == 1 && RuneTotal(pieces) <= m
    ensures RuneCount(PieceText(pieces[0], original, add)) <= m
  {
    PieceWellFormed(pieces[0], original, add);
    RunesStep(pieces, 0, 1);
    assert Runes(pieces, 0) == 0;
  }

  /** Where the codepoint before codepoint `m` starts, inside the string. */
  lemma {:induction false} LastRuneStartAt(s: seq<byte>, m: nat)
    requires m <= RuneCount(s)
    ensures LastRuneStart(s, m) == if m == 0 then 0 else Offset(s, m - 1)
  {
  }

  /** A walk stopping inside piece `i` at codepoint `position` of the
      document has passed the bytes before that codepoint; in a single
      piece the codepoint before it starts where the walk saw it last. */
  lemma {:induction false} Stopped(pieces: seq<Piece>, i: nat, j0: nat, runeStartPosition: nat, byteStartPosition: nat,
                                   position: nat, bytePosition: nat, byteIndex: nat, original: seq<byte>, add: seq<byte>)
    requires WellFormed(original) && WellFormed(add) && AllConsistent(pieces, original, add) && i < |pieces|
    requires j0 == runeStartPosition + Runes(pieces, i)
    requires j0 <= position < j0 + RuneCount(PieceText(pieces[i], original, add))
    requires bytePosition == byteStartPosition + ByteStart(pieces, i) + Offset(PieceText(pieces[i], original, add), position - j0)
    requires i == 0 ==> byteIndex == if position == j0 then 0 else Offset(PieceText(pieces[i], original, add), position - j0 - 1)
    ensures runeStartPosition <= position
    ensures bytePosition == byteStartPosition + Offset(Text(pieces, original, add), position - runeStartPosition)
    ensures |pieces| == 1 ==> byteIndex == LastRuneStart(PieceText(pieces[0], original, add), position - runeStartPosition)
  {
    Reached(pieces, i, position - j0, position - runeStartPosition, j0, runeStartPosition, position,
            byteStartPosition, bytePosition, original, add);
    if |pieces| == 1 {
      ReachedOne(pieces, j0, runeStartPosition, position, original, add);
    }
  }

  /** A walk stopping inside piece `i`, `m` codepoints into it, has
      passed the bytes before codepoint `p` of the text. */
  lemma {:induction false} Reached(pieces: seq<Piece>, i: nat, m: nat, p: nat, j0: nat, runeStartPosition: nat, position: nat,
                                   byteStartPosition: nat, bytePosition: nat, original: seq<byte>, add: seq<byte>)
    requires WellFormed(original) && WellFormed(add) && AllConsistent(pieces, original, add) && i < |pieces|
    requires j0 == runeStartPosition + Runes(pieces, i)
    requires j0 <= position < j0 + RuneCount(PieceText(pieces[i], original, add))
    requires m == position - j0 && p == position - runeStartPosition
    requires bytePosition == byteStartPosition + ByteStart(pieces, i) + Offset(PieceText(pieces[i], original, add), m)
    ensures bytePosition == byteStartPosition + Offset(Text(pieces, original, add), position - runeStartPosition)
  {
    PieceWellFormed(pieces[i], original, add);
    DocOffset(pieces, i, m, p, original, add);
    OffsetAt(Text(pieces, original, add), p, position, runeStartPosition);
  }

  /** `Offset` at a difference, from `Offset` at a variable holding it. */
  lemma {:induction false} OffsetAt(s: seq<byte>, p: nat, a: nat, b: nat)
    requires b <= a && p == a - b
    ensures Offset(s, p) == Offset(s, a - b)
  {
  }

  /** In a single piece, the codepoint before the one a walk stopped at
      starts where the walk saw it last. */
  lemma {:induction false} ReachedOne(pieces: seq<Piece>, j0: nat, runeStartPosition: nat, position: nat,
                                      original: seq<byte>, add: seq<byte>)
    requires |pieces| == 1 && j0 == runeStartPosition + Runes(pieces, 0)
    requires j0 <= position < j0 + RuneCount(PieceText(pieces[0], original, add))
    ensures position - j0 == position - runeStartPosition
    ensures LastRuneStart(PieceText(pieces[0], original, add), position - runeStartPosition)
         == if position == j0 then 0 else Offset(PieceText(pieces[0], original, add), position - j0 - 1)
  {
    assert Runes(pieces, 0) == 0;
    LastRuneStartAt(PieceText(pieces[0], original, add), position - runeStartPosition);
  }

  /** In a single piece, the codepoint before codepoint `a - b` starts
      where codepoint `m1`, one less, does, and is as wide as the gap
      between the offsets of `m1` and `a - b`. */
  lemma {:induction false} CodepointBefore(s: seq<byte>, m: nat, m1: nat, a: nat, b: nat)
    requires WellFormed(s) && b <= a && m == a - b && m1 + 1 == m <= RuneCount(s)
    ensures LastRuneStart(s, a - b) == Offset(s, m1)
    ensures Size(s[Offset(s, m1)..]) == Offset(s, m) - Offset(s, m1)
  {
    OffsetStep(s, m1);
  }

  /** `f` is what `FindPiece` reports for `position`: the piece at
      `f.index`, where it starts and ends in codepoints and in bytes, the
      byte offset of `position` in the document and, as `byteLength`, the
      width of the codepoint before `position` (of the piece's first
      codepoint when `position` is where the piece starts). */
  ghost predicate Located(ps: seq<Piece>, f: Found, position: nat, original: seq<byte>, add: seq<byte>) {
    && f.index < |ps| && f.pieces == [ps[f.index]]
    && f.runeStart == Runes(ps, f.index) && f.runeEnd == Runes(ps, f.index + 1)
    && f.byteStart == ByteStart(ps, f.index) && f.byteEnd == ByteStart(ps, f.index + 1)
    && f.runeStart <= position <= f.runeEnd
    && f.bytePosition == Offset(Text(ps, original, add), position)
    && (position == f.runeStart ==> f.byteLength == Size(PieceText(ps[f.index], original, add)))
    && (f.runeStart < position ==>
          f.byteLength == Offset(Text(ps, original, add), position) - Offset(Text(ps, original, add), position - 1))
  }

  /** The report of `FindPiece` once it has found piece `i`, which holds
      `position`: the walk of `GetBytePosition` over that piece gives the
      byte position, and the codepoint decoded where the walk last stepped
      gives the byte length. */
  method Report(ps: seq<Piece>, i: nat, position: nat, runeStart: nat, byteStart: nat, runeEnd: nat, byteEnd: nat,
                original: seq<byte>, add: seq<byte>)
    returns (f: Found)
    requires WellFormed(original) && WellFormed(add) && AllConsistent(ps, original, add) && i < |ps|
    requires runeStart == Runes(ps, i) && runeEnd == Runes(ps, i + 1)
    requires byteStart == ByteStart(ps, i) && byteEnd == ByteStart(ps, i + 1)
    requires runeStart <= position <= runeEnd
    ensures Located(ps, f, position, original, add) && f.index == i
  {
    var piece := ps[i];
    assert Consistent([piece][0], original, add);
    var bytePosition, byteIndex := GetBytePosition([piece], position, runeStart, byteStart, original, add);
    TextSingle(piece, original, add);
    var sequence := PieceText(piece, original, add);
    var size := DecodeRune(sequence[byteIndex..]).size;
    Reported(ps, i, position - runeStart, position, runeStart, byteStart, runeEnd, byteEnd, bytePosition, byteIndex, size,
             original, add);
    return Found([piece], i, bytePosition, size, runeStart, byteStart, runeEnd, byteEnd);
  }

  /** The fields `Report` fills in make up what `FindPiece` reports. */
  lemma {:induction false} Reported(ps: seq<Piece>, i: nat, m: nat, position: nat, runeStart: nat, byteStart: nat,
                                    runeEnd: nat, byteEnd: nat, bytePosition: nat, byteIndex: nat, size: nat,
                                    original: seq<byte>, add: seq<byte>)
    requires WellFormed(original) && WellFormed(add) && AllConsistent(ps, original, add) && i < |ps|
    requires runeStart == Runes(ps, i) && runeEnd == Runes(ps, i + 1)
    requires byteStart == ByteStart(ps, i) && byteEnd == ByteStart(ps, i + 1)
    requires runeStart <= position <= runeEnd && m == position - runeStart
    requires bytePosition == byteStart + Offset(PieceText(ps[i], original, add), position - runeStart)
    requires byteIndex == LastRuneStart(PieceText(ps[i], original, add), position - runeStart)
    requires size == Size(PieceText(ps[i], original, add)[byteIndex..])
    ensures Located(ps, Found([ps[i]], i, bytePosition, size, runeStart, byteStart, runeEnd, byteEnd), position, original, add)
  {
    FoundAt(ps, i, m, position, runeStart, byteStart, bytePosition, original, add);
    FoundWidth(ps, i, m, position, runeStart, byteIndex, size, original, add);
  }

  /** The walk over piece `k` ends at the byte offset of `position` in the
      document. */
  lemma {:induction false} FoundAt(ps: seq<Piece>, k: nat, m: nat, position: nat, runeStart: nat, byteStart: nat,
                                   bytePosition: nat, original: seq<byte>, add: seq<byte>)
    requires WellFormed(original) && WellFormed(add) && AllConsistent(ps, original, add) && k < |ps|
    requires runeStart == Runes(ps, k) <= position <= Runes(ps, k + 1) && m == position - runeStart
    requires byteStart == ByteStart(ps, k)
    requires bytePosition == byteStart + Offset(PieceText(ps[k], original, add), position - runeStart)
    ensures bytePosition == Offset(Text(ps, original, add), position)
  {
    RunesStep(ps, k, k + 1);
    OffsetAt(PieceText(ps[k], original, add), m, position, runeStart);
    DocOffset(ps, k, m, position, original, add);
  }

  /** The codepoint decoded where the walk over piece `k` last stepped is
      the piece's first codepoint when `position` is where the piece
      starts, and otherwise the codepoint before `position`. */
  lemma {:induction false} FoundWidth(ps: seq<Piece>, k: nat, m: nat, position: nat, runeStart: nat,
                                      byteIndex: nat, size: nat, original: seq<byte>, add: seq<byte>)
    requires WellFormed(original) && WellFormed(add) && AllConsistent(ps, original, add) && k < |ps|
    requires runeStart == Runes(ps, k) <= position <= Runes(ps, k + 1) && m == position - runeStart
    requires byteIndex == LastRuneStart(PieceText(ps[k], original, add), position - runeStart)
    requires size == Size(PieceText(ps[k], original, add)[byteIndex..])
    ensures position == runeStart ==> size == Size(PieceText(ps[k], original, add))
    ensures runeStart < position ==>
      size == Offset(Text(ps, original, add), position) - Offset(Text(ps, original, add), position - 1)
  {
    var s := PieceText(ps[k], original, add);
    if m == 0 {
      assert s[0..] == s;
    } else {
      var m1, p1 := m - 1, position - 1;
      RunesStep(ps, k, k + 1);
      PieceWellFormed(ps[k], original, add);
      CodepointBefore(s, m, m1, position, runeStart);
      DocOffset(ps, k, m, position, original, add);
      Before(ps, k, m1, p1, position, original, add);
    }
  }

  /** The offset in the document of the codepoint before `position`,
      which is codepoint `m1` of piece `k`. */
  lemma {:induction false} Before(ps: seq<Piece>, k: nat, m1: nat, p1: nat, position: nat, original: seq<byte>, add: seq<byte>)
    requires WellFormed(original) && WellFormed(add) && AllConsistent(ps, original, add) && k < |ps|
    requires m1 < ps[k].runeLength && p1 == Runes(ps, k) + m1 && p1 + 1 == position
    ensures Offset(Text(ps, original, add), position - 1) == ByteStart(ps, k) + Offset(PieceText(ps[k], original, add), m1)
  {
    DocOffset(ps, k, m1, p1, original, add);
    OffsetAt(Text(ps, original, add), p1, position, 1);
  }

  /** The front-to-back search of `FindPiece`: the first piece ending at or
      after `position`. */
  method LocateForward(ps: seq<Piece>, position: nat, original: seq<byte>, add: seq<byte>) returns (f: Found)
    requires WellFormed(original) && WellFormed(add) && AllConsistent(ps, original, add)
    requires position < RuneTotal(ps)
    ensures Located(ps, f, position, original, add)
    ensures f.index == 0 || f.runeStart < position
  {
    var runeStart, byteStart, runeEnd, byteEnd := 0, 0, 0, 0;
    var i: nat := 0;
    while i < |ps|
      invariant i <= |ps|
      invariant runeStart == runeEnd == Runes(ps, i) && byteStart == byteEnd == ByteStart(ps, i)
      invariant i == 0 || runeStart < position
    {
      RunesStep(ps, i, i + 1);
      BytesStep(ps, i, i + 1);
      runeEnd := runeEnd + ps[i].runeLength;
      byteEnd := byteEnd + ps[i].byteLength;
      if runeEnd >= position {
        f := Report(ps, i, position, runeStart, byteStart, runeEnd, byteEnd, original, add);
        return;
      }
      runeStart := runeEnd;
      byteStart := byteEnd;
      i := i + 1;
    }
    assert false;
    return Nothing;
  }

  /** The back-to-front search of `FindPiece`: the last piece starting
      before `position`; nothing when `position` is 0. */
  method LocateBackward(ps: seq<Piece>, position: nat, runeLength: nat, byteLength: nat,
                        original: seq<byte>, add: seq<byte>)
    returns (f: Found)
    requires WellFormed(original) && WellFormed(add) && AllConsistent(ps, original, add)
    requires runeLength == RuneTotal(ps) && byteLength == ByteTotal(ps) && position <= runeLength
    ensures position == 0 ==> f == Nothing
    ensures position > 0 ==> Located(ps, f, position, original, add) && f.runeStart < position
  {
    var runeStart, byteStart := runeLength, byteLength;
    var i: nat := |ps|;
    while i > 0
      invariant i <= |ps|
      invariant runeStart == Runes(ps, i) && byteStart == ByteStart(ps, i)
      invariant i < |ps| ==> position <= runeStart
    {
      i := i - 1;
      RunesStep(ps, i, i + 1);
      BytesStep(ps, i, i + 1);
      runeStart := runeStart - ps[i].runeLength;
      var runeEnd := runeStart + ps[i].runeLength;
      byteStart := byteStart - ps[i].byteLength;
      var byteEnd := byteStart + ps[i].byteLength;
      if runeStart < position {
        f := Report(ps, i, position, runeStart, byteStart, runeEnd, byteEnd, original, add);
        return;
      }
    }
    return Nothing;
  }

  /** Away from the start of the document, both searches find the same
      piece: only one piece starts before a position and ends at or after
      it. */
  lemma {:induction false} LocatedUnique(ps: seq<Piece>, f: Found, g: Found, position: nat, original: seq<byte>, add: seq<byte>)
    requires Located(ps, f, position, original, add) && f.runeStart < position
    requires Located(ps, g, position, original, add) && g.runeStart < position
    ensures f == g
  {
    if f.index < g.index {
      RunesMonotone(ps, f.index + 1, g.index);
    } else if g.index < f.index {
      RunesMonotone(ps, g.index + 1, f.index);
    }
  }

  lemma {:induction false} RunesMonotone(ps: seq<Piece>, i: nat, j: nat)
    requires i <= j <= |ps|
    ensures Runes(ps, i) <= Runes(ps, j)
  {
    Spans.StartMonotone(RuneSpans(ps), i, j);
  }

  /** `f` is what `FindPieces` reports for the span of `len` codepoints at
      `position`: a run of pieces starting with piece `f.index`, which holds
      `position`, and ending with the piece that holds the end of the span,
      or with the last piece; the byte offset of `position` in the document
      and the byte length of the span. */
  ghost predicate Covers(ps: seq<Piece>, f: Found, position: nat, len: nat, original: seq<byte>, add: seq<byte>) {
    && 1 <= |f.pieces| && f.index + |f.pieces| <= |ps| && Spans.IsRun(ps, f.index, f.pieces)
    && f.runeStart == Runes(ps, f.index) && f.byteStart == ByteStart(ps, f.index)
    && f.runeStart <= position <= Runes(ps, f.index + 1)
    && (f.index + 1 == |ps| || position < Runes(ps, f.index + 1) || len == 0)
    && (|f.pieces| >= 2 ==> Runes(ps, f.index + |f.pieces| - 1) < position + len)
    && (f.index + |f.pieces| == |ps| || position + len <= Runes(ps, f.index + |f.pieces|))
    && f.bytePosition == Offset(Text(ps, original, add), position)
    && f.byteLength == Offset(Text(ps, original, add), position + len) - Offset(Text(ps, original, add), position)
  }

  /** `Offset` at a sum, from `Offset` at a variable holding it. */
  lemma {:induction false} OffsetSum(s: seq<byte>, p: nat, a: nat, b: nat)
    requires p == a + b
    ensures Offset(s, p) == Offset(s, a + b)
  {
  }

  /** Where a run of pieces ends, from a variable holding its end. */
  lemma {:induction false} RunEndAt(ps: seq<Piece>, f: Found, e: nat)
    requires e == f.index + |f.pieces| <= |ps|
    ensures Runes(ps, e) == Runes(ps, f.index + |f.pieces|)
    ensures ByteStart(ps, e) == ByteStart(ps, f.index + |f.pieces|)
  {
  }

  /** A walk over the run of pieces `k` to `e` that stops at codepoint `q`
      of the document ends at the byte offset of `q`. */
  lemma {:induction false} RunAt(ps: seq<Piece>, k: nat, e: nat, found: seq<Piece>, q: nat, m: nat,
                                 runeStart: nat, byteStart: nat, b: nat, original: seq<byte>, add: seq<byte>)
    requires WellFormed(original) && WellFormed(add) && AllConsistent(ps, original, add)
    requires k <= e <= |ps| && Spans.IsRun(ps, k, found) && e == k + |found|
    requires runeStart == Runes(ps, k) <= q && m == q - runeStart && (q <= Runes(ps, e) || e == |ps|)
    requires byteStart == ByteStart(ps, k)
    requires b == byteStart + Offset(Text(found, original, add), q - runeStart)
    ensures b == Offset(Text(ps, original, add), q)
  {
    Spans.RunSlice(ps, k, found, e);
    OffsetAt(Text(found, original, add), m, q, runeStart);
    RunOffset(ps, k, e, m, q, original, add);
  }

  /** The run `found` of pieces `k` to `e`, with the byte offsets of the
      ends of the span, is what `FindPieces` reports. */
  lemma {:induction false} Covered(ps: seq<Piece>, k: nat, e: nat, found: seq<Piece>, position: nat, len: nat, spanEnd: nat,
                                   runeStart: nat, byteStart: nat, runeEnd: nat, byteEnd: nat,
                                   bytePosition: nat, bytesEnd: nat, original: seq<byte>, add: seq<byte>)
    requires k < e <= |ps| && Spans.IsRun(ps, k, found) && e == k + |found|
    requires runeStart == Runes(ps, k) && byteStart == ByteStart(ps, k)
    requires runeStart <= position <= Runes(ps, k + 1)
    requires k + 1 == |ps| || position < Runes(ps, k + 1) || len == 0
    requires e - k >= 2 ==> Runes(ps, e - 1) < position + len
    requires e == |ps| || position + len <= Runes(ps, e)
    requires spanEnd == position + len
    requires bytePosition == Offset(Text(ps, original, add), position)
    requires bytesEnd == Offset(Text(ps, original, add), spanEnd)
    ensures bytePosition <= bytesEnd
    ensures Covers(ps, Found(found, k, bytePosition, bytesEnd - bytePosition, runeStart, byteStart, runeEnd, byteEnd),
                   position, len, original, add)
  {
    OffsetMonotone(Text(ps, original, add), position, spanEnd);
    OffsetSum(Text(ps, original, add), spanEnd, position, len);
  }

  /** The front-to-back search of `FindPieces`: from the first piece ending
      after `position`, up to the first piece ending at or after `position
      + len`. When the span runs past the end of the document no piece
      ends there: the run then goes to the last piece and the byte
      position and length stay 0. */
  method SearchForward(ps: seq<Piece>, position: nat, len: nat, original: seq<byte>, add: seq<byte>) returns (f: Found)
    requires WellFormed(original) && WellFormed(add) && AllConsistent(ps, original, add)
    requires position < RuneTotal(ps)
    ensures position + len <= RuneTotal(ps) ==>
      && Covers(ps, f, position, len, original, add) && position < Runes(ps, f.index + 1)
      && f.runeEnd == Runes(ps, f.index + |f.pieces|) && f.byteEnd == ByteStart(ps, f.index + |f.pieces|)
    ensures RuneTotal(ps) < position + len ==>
      && f.index < |ps| && f.pieces == ps[f.index..]
      && Runes(ps, f.index) <= position < Runes(ps, f.index + 1)
      && f.runeStart == Runes(ps, f.index) && f.byteStart == ByteStart(ps, f.index)
      && f.bytePosition == 0 && f.byteLength == 0
      && f.runeEnd == RuneTotal(ps) && f.byteEnd == ByteTotal(ps)
  {
    var found: seq<Piece> := [];
    var first: nat := 0;
    var runeStart, byteStart, runeEnd, byteEnd := 0, 0, 0, 0;
    var runeBefore, byteBefore := 0, 0;
    var i: nat := 0;
    while i < |ps|
      invariant i <= |ps|
      invariant runeEnd == runeBefore == Runes(ps, i) && byteEnd == byteBefore == ByteStart(ps, i)
      invariant found == [] ==> runeEnd <= position
      invariant found != [] ==>
        && first < i && Spans.IsRun(ps, first, found) && first + |found| == i
        && runeStart == Runes(ps, first) <= position < Runes(ps, first + 1)
        && byteStart == ByteStart(ps, first)
        && Runes(ps, i) < position + len
    {
      RunesStep(ps, i, i + 1);
      BytesStep(ps, i, i + 1);
      if found != [] {
        RunesMonotone(ps, first + 1, i);
      }
      runeEnd := runeEnd + ps[i].runeLength;
      byteEnd := byteEnd + ps[i].byteLength;
      if runeEnd > position {
        if |found| == 0 {
          runeStart := runeBefore;
          byteStart := byteBefore;
          first := i;
        }
        Spans.RunAppend(ps, first, found, i);
        found := found + [ps[i]];
      }
      runeBefore := runeEnd;
      byteBefore := byteEnd;
      if runeEnd > position && runeEnd >= position + len {
        RunesMonotone(ps, i + 1, |ps|);
        f := MeasureForward(ps, first, i + 1, found, position, len, runeStart, byteStart, runeEnd, byteEnd, original, add);
        return;
      }
      i := i + 1;
    }
    Spans.RunSlice(ps, first, found, i);
    assert ps[first..] == ps[first..i];
    return Found(found, first, 0, 0, runeStart, byteStart, runeEnd, byteEnd);
  }

  /** The back-to-front search of `FindPieces`: every piece starting
      before the end of the span is taken, last piece first, until one
      starts at or before `position`; the byte position and length of the
      span are then measured over the pieces taken. The end reported is
      the end of the first piece of the run. Only an empty table or an
      empty span at position 0 stops no walk, and then nothing is found. */
  method SearchBackward(ps: seq<Piece>, position: nat, len: nat, runeLength: nat, byteLength: nat,
                        original: seq<byte>, add: seq<byte>)
    returns (f: Found)
    requires WellFormed(original) && WellFormed(add) && AllConsistent(ps, original, add)
    requires runeLength == RuneTotal(ps) && byteLength == ByteTotal(ps) && position <= runeLength
    ensures |ps| == 0 || position + len == 0 ==> f == Nothing
    ensures |ps| > 0 && position + len > 0 ==>
      && Covers(ps, f, position, len, original, add)
      && f.runeEnd == Runes(ps, f.index + 1) && f.byteEnd == ByteStart(ps, f.index + 1)
  {
    var found: seq<Piece> := [];
    var runeEnd, byteEnd := runeLength, byteLength;
    var runeCursor, byteCursor := runeLength, byteLength;
    var i: nat := |ps|;
    var e: nat := |ps|;  // one past the last piece taken
    while i > 0
      invariant i <= e <= |ps| && Spans.IsRun(ps, i, found) && i + |found| == e
      invariant runeEnd == runeCursor == Runes(ps, i) && byteEnd == byteCursor == ByteStart(ps, i)
      invariant e == |ps| || position + len <= Runes(ps, e)
      invariant i < e ==> Runes(ps, e - 1) < position + len
      invariant i < |ps| ==> position < Runes(ps, i) || position + len <= Runes(ps, i)
    {
      i := i - 1;
      RunesStep(ps, i, i + 1);
      BytesStep(ps, i, i + 1);
      runeCursor := runeCursor - ps[i].runeLength;
      byteCursor := byteCursor - ps[i].byteLength;
      if runeCursor < position + len {
        Spans.RunPrepend(ps, i, found, i + 1);
        found := [ps[i]] + found;
      } else {
        if i + 1 < e {
          RunesMonotone(ps, i, e - 1);
        }
        e := i;
      }
      if runeCursor <= position && runeCursor < position + len {
        f := MeasureBackward(ps, i, e, found, position, len, runeCursor, byteCursor, runeEnd, byteEnd, original, add);
        return;
      }
      runeEnd := runeEnd - ps[i].runeLength;
      byteEnd := byteEnd - ps[i].byteLength;
    }
    return Nothing;
  }

  /** The pieces of a run of a consistent table are consistent. */
  lemma {:induction false} RunConsistent(ps: seq<Piece>, k: nat, e: nat, found: seq<Piece>, original: seq<byte>, add: seq<byte>)
    requires AllConsistent(ps, original, add) && k <= e <= |ps| && Spans.IsRun(ps, k, found) && e == k + |found|
    ensures AllConsistent(found, original, add)
  {
    Spans.RunSlice(ps, k, found, e);
    ConsistentSlice(ps, k, e, original, add);
  }

  /** `Measure` on the run the back-to-front search found. */
  method MeasureBackward(ps: seq<Piece>, k: nat, e: nat, found: seq<Piece>, position: nat, len: nat,
                         runeStart: nat, byteStart: nat, runeEnd: nat, byteEnd: nat, original: seq<byte>, add: seq<byte>)
    returns (f: Found)
    requires WellFormed(original) && WellFormed(add) && AllConsistent(ps, original, add)
    requires k < e <= |ps| && Spans.IsRun(ps, k, found) && e == k + |found|
    requires runeStart == Runes(ps, k) && byteStart == ByteStart(ps, k)
    requires runeStart <= position <= Runes(ps, k + 1)
    requires k + 1 == |ps| || position < Runes(ps, k + 1) || len == 0
    requires e - k >= 2 ==> Runes(ps, e - 1) < position + len
    requires e == |ps| || position + len <= Runes(ps, e)
    requires runeEnd == Runes(ps, k + 1) && byteEnd == ByteStart(ps, k + 1)
    ensures Covers(ps, f, position, len, original, add)
    ensures f.runeEnd == Runes(ps, f.index + 1) && f.byteEnd == ByteStart(ps, f.index + 1)
  {
    f := Measure(ps, k, e, found, position, len, runeStart, byteStart, runeEnd, byteEnd, original, add);
  }

  /** `Measure` on the run the front-to-back search found. */
  method MeasureForward(ps: seq<Piece>, k: nat, e: nat, found: seq<Piece>, position: nat, len: nat,
                        runeStart: nat, byteStart: nat, runeEnd: nat, byteEnd: nat, original: seq<byte>, add: seq<byte>)
    returns (f: Found)
    requires WellFormed(original) && WellFormed(add) && AllConsistent(ps, original, add)
    requires k < e <= |ps| && Spans.IsRun(ps, k, found) && e == k + |found|
    requires runeStart == Runes(ps, k) && byteStart == ByteStart(ps, k)
    requires runeStart <= position < Runes(ps, k + 1)
    requires e - k >= 2 ==> Runes(ps, e - 1) < position + len
    requires position + len <= Runes(ps, e)
    requires runeEnd == Runes(ps, e) && byteEnd == ByteStart(ps, e)
    ensures Covers(ps, f, position, len, original, add) && position < Runes(ps, f.index + 1)
    ensures f.runeEnd == Runes(ps, f.index + |f.pieces|) && f.byteEnd == ByteStart(ps, f.index + |f.pieces|)
  {
    f := Measure(ps, k, e, found, position, len, runeStart, byteStart, runeEnd, byteEnd, original, add);
    RunEndAt(ps, f, e);
  }

  /** The byte position and length of the span, measured by two walks of
      `GetBytePosition` over the run `found` of pieces `k` to `e`. */
  method Measure(ps: seq<Piece>, k: nat, e: nat, found: seq<Piece>, position: nat, len: nat,
                 runeStart: nat, byteStart: nat, runeEnd: nat, byteEnd: nat, original: seq<byte>, add: seq<byte>)
    returns (f: Found)
    requires WellFormed(original) && WellFormed(add) && AllConsistent(ps, original, add)
    requires k < e <= |ps| && Spans.IsRun(ps, k, found) && e == k + |found|
    requires runeStart == Runes(ps, k) && byteStart == ByteStart(ps, k)
    requires runeStart <= position <= Runes(ps, k + 1)
    requires k + 1 == |ps| || position < Runes(ps, k + 1) || len == 0
    requires e - k >= 2 ==> Runes(ps, e - 1) < position + len
    requires e == |ps| || position + len <= Runes(ps, e)
    ensures f == Found(found, k, f.bytePosition, f.byteLength, runeStart, byteStart, runeEnd, byteEnd)
    ensures Covers(ps, f, position, len, original, add)
  {
    RunConsistent(ps, k, e, found, original, add);
    RunesMonotone(ps, k + 1, e);
    var spanEnd := position + len;
    var bytePosition, _ := GetBytePosition(found, position, runeStart, byteStart, original, add);
    var bytesEnd, _ := GetBytePosition(found, spanEnd, runeStart, byteStart, original, add);
    RunAt(ps, k, e, found, position, position - runeStart, runeStart, byteStart, bytePosition, original, add);
    RunAt(ps, k, e, found, spanEnd, spanEnd - runeStart, runeStart, byteStart, bytesEnd, original, add);
    Covered(ps, k, e, found, position, len, spanEnd, runeStart, byteStart, runeEnd, byteEnd, bytePosition, bytesEnd,
            original, add);
    return Found(found, k, bytePosition, bytesEnd - bytePosition, runeStart, byteStart, runeEnd, byteEnd);
  }
}
