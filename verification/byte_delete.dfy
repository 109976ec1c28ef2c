/** The deletion of the byte table on its list of pieces: what `Delete`
    leaves of the run of pieces `FindPieces` reports for a span. The
    table's methods run these on its fields. */
module ByteDelete {
  import opened Utf8
  import Spans
  import opened BytePieces
  import opened ByteSearch
  import opened UintMath

  /** A piece, unless it holds no bytes. */
  function KeepPiece(p: Piece): seq<Piece> {
    if p.byteLength == 0 then [] else [p]
  }

  /** Pieces `k` to `k + n` of `ps` give way to `left` and `right`, each
      only when it holds bytes. */
  function CutRun(ps: seq<Piece>, k: nat, n: nat, left: Piece, right: Piece): seq<Piece>
    requires k + n <= |ps|
  {
    ps[..k] + (KeepPiece(left) + KeepPiece(right)) + ps[k + n..]
  }

  /** The pieces after `DeleteIfEmpty(piece, index)`: list slot `index`
      goes when `piece`, the piece last written there, holds no bytes (the
      code tests `ByteLength <= 0` on a `uint`). The list refuses to drop
      its only node. */
  function Discard(ps: seq<Piece>, piece: Piece, index: nat): seq<Piece>
    requires piece.byteLength == 0 && index < |ps| ==> 0 < index || 2 <= |ps|
  {
    if piece.byteLength == 0 then Spans.DeleteAt(ps, index) else ps
  }

  /** A deletion of the whole document from a table whose first and last
      pieces hold text: the run `FindPieces` reports is every piece, and
      both of its ends are cut away entirely, so `Delete` would have the
      list drop its only remaining node. */
  ghost predicate EmptiesList(ps: seq<Piece>, position: nat, len: nat) {
    && 1 <= |ps| && position == 0 && 0 < len && len == RuneTotal(ps)
    && 0 < ps[0].runeLength && 0 < ps[|ps| - 1].runeLength
  }

  /** The span lies strictly inside one piece, which keeps text on both
      sides of it. */
  ghost predicate Interior(ps: seq<Piece>, position: nat, len: nat) {
    exists i | 0 <= i < |ps| :: InsidePiece(ps, i, position, len)
  }

  /** The span lies strictly inside piece `i`. */
  ghost predicate InsidePiece(ps: seq<Piece>, i: nat, position: nat, len: nat)
    requires i < |ps|
  {
    Runes(ps, i) < position && position + len < Runes(ps, i + 1)
  }

  /** A Go `uint` result: the value modulo 2^64. */
  function Wrap(x: int): (r: nat)
    ensures r < UintModulus
    ensures 0 <= x < UintModulus ==> r == x
  {
    x % UintModulus
  }

  /** The piece `Delete` puts after the kept head of a piece that holds
      the whole span strictly inside it, as written: its byte start adds
      the span's codepoint position less the piece's byte start, its
      codepoint length runs from one past the position, and its byte
      length from the codepoint position plus the span's bytes. Every
      field is a `uint`. */
  function TailAsWritten(p: Piece, f: Found, position: nat, len: nat): Piece {
    Piece(Wrap(p.byteStart + f.byteLength + (position - f.byteStart)),
          Wrap(p.runeStart + len + (position - f.runeStart)),
          Wrap(f.byteEnd - (position + f.byteLength)),
          Wrap(f.runeEnd - (position + 1)),
          p.isOriginal)
  }

  /** The same piece as evidently intended: byte quantities come from
      byte quantities and codepoint quantities from codepoint quantities,
      and the codepoint length runs from the end of the span. */
  function TailIntended(p: Piece, f: Found, position: nat, len: nat): Piece
    requires f.runeStart <= position && position + len <= f.runeEnd
    requires f.byteStart <= f.bytePosition && f.bytePosition + f.byteLength <= f.byteEnd
  {
    Piece(p.byteStart + f.byteLength + (f.bytePosition - f.byteStart),
          p.runeStart + len + (position - f.runeStart),
          f.byteEnd - (f.bytePosition + f.byteLength),
          f.runeEnd - (position + len),
          p.isOriginal)
  }

  /** A document position `q` within piece `i` lies `mq` codepoints and
      `dq` bytes into it, `dq` being the offset of codepoint `mq` in the
      piece's bytes; a cut at the piece's start takes none of its bytes
      and a cut at its end all of them. */
  lemma {:induction false} PieceCut(ps: seq<Piece>, i: nat, q: nat, bq: nat, original: seq<byte>, add: seq<byte>)
    returns (mq: nat, dq: nat)
    requires WellFormed(original) && WellFormed(add) && AllConsistent(ps, original, add)
    requires i < |ps| && Runes(ps, i) <= q <= Runes(ps, i + 1)
    requires bq == Offset(Text(ps, original, add), q)
    ensures q == Runes(ps, i) + mq && bq == ByteStart(ps, i) + dq
    ensures mq <= ps[i].runeLength && dq <= ps[i].byteLength
    ensures dq == Offset(PieceText(ps[i], original, add), mq)
    ensures mq == 0 <==> dq == 0
    ensures mq == ps[i].runeLength <==> dq == ps[i].byteLength
  {
    RunesStep(ps, i, i + 1);
    mq := q - Runes(ps, i);
    DocOffset(ps, i, mq, q, original, add);
    var s := PieceText(ps[i], original, add);
    dq := Offset(s, mq);
    assert Consistent(ps[i], original, add);
    PieceWellFormed(ps[i], original, add);
    ConsistentInBuffer(ps[i], original, add);
    OffsetEnd(s, mq);
    if 0 < mq {
      OffsetStrict(s, 0, mq);
    }
  }

  /** Cutting away both ends of a run that is every piece, from the start
      of the document to its end, with the first and the last piece
      holding text, is a deletion that empties the list. */
  lemma {:induction false} Emptied(ps: seq<Piece>, e: nat, position: nat, len: nat)
    requires e + 1 == |ps| && 0 < len
    requires position == Runes(ps, 0) && position + len == Runes(ps, e + 1)
    requires Runes(ps, e) < position + len
    requires 1 < |ps| ==> position < Runes(ps, 1)
    ensures EmptiesList(ps, position, len)
  {
    RunesStep(ps, 0, 1);
    RunesStep(ps, e, e + 1);
  }

  /** A piece after the first starts after the runes of the first. */
  lemma {:induction false} RunesPastFirst(ps: seq<Piece>, k: nat)
    requires 0 < k <= |ps|
    ensures ps[0].runeLength <= Runes(ps, k)
  {
    RunesStep(ps, 0, 1);
    RunesMonotone(ps, 1, k);
  }

  /** A piece before the last ends before the runes of the last. */
  lemma {:induction false} RunesBeforeLast(ps: seq<Piece>, i: nat)
    requires i < |ps|
    ensures Runes(ps, i) + ps[|ps| - 1].runeLength <= RuneTotal(ps)
  {
    RunesMonotone(ps, i, |ps| - 1);
    RunesStep(ps, |ps| - 1, |ps|);
  }

  /** `Delete` would empty the list exactly when `FindPieces` reports every
      piece for a span running from the start of the document to its end,
      with the span taking all of the first piece and all of the last. */
  lemma {:induction false} EmptiesExactly(ps: seq<Piece>, f: Found, position: nat, len: nat,
                                          original: seq<byte>, add: seq<byte>)
    requires Covers(ps, f, position, len, original, add) && 0 < len && position + len <= RuneTotal(ps)
    ensures EmptiesList(ps, position, len) <==>
      && f.index == 0 && f.index + |f.pieces| == |ps|
      && position == f.runeStart && position + len == RuneTotal(ps)
  {
    var k, n := f.index, |f.pieces|;
    var e := k + n - 1;
    if EmptiesList(ps, position, len) {
      if 0 < k {
        RunesPastFirst(ps, k);
      }
      if e + 1 < |ps| {
        RunesBeforeLast(ps, e + 1);
      }
    }
    if k == 0 && k + n == |ps| && position == f.runeStart && position + len == RuneTotal(ps) {
      Emptied(ps, e, position, len);
    }
  }

  /** Replacing slot `k` with `p` and discarding it when `p` holds no
      bytes. */
  lemma {:induction false} Replaced(ps: seq<Piece>, k: nat, p: Piece)
    requires k < |ps| && (p.byteLength == 0 ==> 0 < k || 2 <= |ps|)
    ensures Discard(ps[k := p], p, k) == ps[..k] + KeepPiece(p) + ps[k + 1..]
  {
    if p.byteLength == 0 {
      assert ps[k := p][..k] == ps[..k];
      assert ps[k := p][k + 1..] == ps[k + 1..];
    } else {
      assert ps[k := p] == ps[..k] + [p] + ps[k + 1..];
    }
  }

  /** Writing `head` to slot `k` and inserting `tail` after it. */
  lemma {:induction false} Widened(ps: seq<Piece>, k: nat, head: Piece, tail: Piece)
    requires k < |ps|
    ensures Spans.InsertAt(ps[k := head], k + 1, tail) == ps[..k] + [head, tail] + ps[k + 1..]
  {
    var r := ps[k := head];
    assert r[..k + 1] == ps[..k] + [head];
    assert r[k + 1..] == ps[k + 1..];
  }

  /** A cut run's byte spans are the generic cut of the table's. */
  lemma {:induction false} CutRunSpans(ps: seq<Piece>, k: nat, n: nat, left: Piece, right: Piece,
                                       original: seq<byte>, add: seq<byte>)
    requires k + n <= |ps|
    ensures Text(CutRun(ps, k, n, left, right), original, add)
         == Spans.Concat(Spans.Cut(ByteSpans(ps), k, n, Bytes(left), Bytes(right)), original, add)
  {
    var cut := Spans.Cut(ByteSpans(ps), k, n, Bytes(left), Bytes(right));
    CutRunBytes(ps, k, n, left, right);
    if KeepPiece(left) + KeepPiece(right) == [] && k == 0 && n == |ps| {
      Spans.ConcatSingle(Bytes(left), original, add);
    }
  }

  /** The byte spans of a cut run. */
  lemma {:induction false} CutRunBytes(ps: seq<Piece>, k: nat, n: nat, left: Piece, right: Piece)
    requires k + n <= |ps|
    ensures ByteSpans(CutRun(ps, k, n, left, right))
         == ByteSpans(ps)[..k] + (Spans.Keep(Bytes(left)) + Spans.Keep(Bytes(right))) + ByteSpans(ps)[k + n..]
  {
    var a, b := ps[..k], ps[k + n..];
    var l, r := KeepPiece(left), KeepPiece(right);
    SpansPrefix(ps, k, a);
    SpansSuffix(ps, k + n, b);
    SpansKeep(left);
    SpansKeep(right);
    ByteSpansAppend(a + (l + r), b);
    ByteSpansAppend(a, l + r);
    ByteSpansAppend(l, r);
  }

  lemma {:induction false} SpansPrefix(ps: seq<Piece>, k: nat, a: seq<Piece>)
    requires k <= |ps| && a == ps[..k]
    ensures ByteSpans(a) == ByteSpans(ps)[..k]
  {
  }

  lemma {:induction false} SpansSuffix(ps: seq<Piece>, j: nat, b: seq<Piece>)
    requires j <= |ps| && b == ps[j..]
    ensures ByteSpans(b) == ByteSpans(ps)[j..]
  {
  }

  lemma {:induction false} SpansKeep(p: Piece)
    ensures ByteSpans(KeepPiece(p)) == Spans.Keep(Bytes(p))
  {
    if p.byteLength > 0 {
      assert ByteSpans([p]) == [Bytes(p)];
    }
  }

  /** Every piece of a cut run is a piece of the table or one of its two
      ends. */
  lemma {:induction false} CutConsistent(ps: seq<Piece>, k: nat, n: nat, left: Piece, right: Piece,
                                         original: seq<byte>, add: seq<byte>)
    requires k + n <= |ps| && AllConsistent(ps, original, add)
    requires Consistent(left, original, add) && Consistent(right, original, add)
    ensures AllConsistent(CutRun(ps, k, n, left, right), original, add)
  {
    var mid := KeepPiece(left) + KeepPiece(right);
    var c := CutRun(ps, k, n, left, right);
    forall j | 0 <= j < |c|
      ensures Consistent(c[j], original, add)
    {
      if j < k {
        assert c[j] == ps[j];
      } else if j < k + |mid| {
        assert c[j] == mid[j - k];
        assert mid[j - k] == left || mid[j - k] == right;
      } else {
        assert c[j] == ps[j - |mid| + n];
      }
    }
  }

  /** The bytes of a cut run: the document without bytes `at .. upTo`,
      where `at` is `d` bytes into piece `k` and `upTo` is `d2` bytes into
      piece `e`. */
  lemma {:induction false} CutBytes(ps: seq<Piece>, k: nat, n: nat, e: nat, d: nat, d2: nat, left: Piece, right: Piece,
                                    at: nat, upTo: nat, original: seq<byte>, add: seq<byte>)
    requires WellFormed(original) && WellFormed(add) && AllConsistent(ps, original, add)
    requires 1 <= n && k + n <= |ps| && e + 1 == k + n
    requires d <= ps[k].byteLength && d2 <= ps[e].byteLength
    requires Bytes(left) == Spans.Head(Bytes(ps[k]), d) && Bytes(right) == Spans.Rest(Bytes(ps[e]), d2)
    requires at == ByteStart(ps, k) + d && upTo == ByteStart(ps, e) + d2 && at <= upTo
    ensures upTo <= |Text(ps, original, add)|
    ensures Text(CutRun(ps, k, n, left, right), original, add)
         == Text(ps, original, add)[..at] + Text(ps, original, add)[upTo..]
  {
    SpansInBuffer(ps, original, add);
    var bs := ByteSpans(ps);
    assert bs[k] == Bytes(ps[k]);
    assert bs[e] == Bytes(ps[e]);
    var blen := upTo - at;
    Spans.CutText(bs, k, n, e, d, d2, Bytes(left), Bytes(right), at, blen, original, add);
    CutRunSpans(ps, k, n, left, right, original, add);
  }

  /** Cutting the run of pieces `k` to `e` at `position`, `m` codepoints
      into piece `k`, and at `position + len`, `m2` codepoints into piece
      `e`, keeps the table consistent and deletes exactly the bytes of the
      span from the document. */
  lemma {:induction false} CutRunText(ps: seq<Piece>, k: nat, n: nat, e: nat, m: nat, d: nat, m2: nat, d2: nat,
                                      position: nat, len: nat, left: Piece, right: Piece,
                                      original: seq<byte>, add: seq<byte>)
    requires WellFormed(original) && WellFormed(add) && AllConsistent(ps, original, add)
    requires 1 <= n && k + n <= |ps| && e + 1 == k + n
    requires m <= ps[k].runeLength && d <= ps[k].byteLength && d == Offset(PieceText(ps[k], original, add), m)
    requires m2 <= ps[e].runeLength && d2 <= ps[e].byteLength && d2 == Offset(PieceText(ps[e], original, add), m2)
    requires left == HeadOf(ps[k], m, d) && right == RestOf(ps[e], m2, d2)
    requires position == Runes(ps, k) + m && position + len == Runes(ps, e) + m2
    ensures AllConsistent(CutRun(ps, k, n, left, right), original, add)
    ensures Text(CutRun(ps, k, n, left, right), original, add)
         == Text(ps, original, add)[..Offset(Text(ps, original, add), position)]
          + Text(ps, original, add)[Offset(Text(ps, original, add), position + len)..]
  {
    var t := Text(ps, original, add);
    var p, q := ps[k], ps[e];
    assert Consistent(p, original, add);
    assert Consistent(q, original, add);
    Halves(p, m, d, original, add);
    Halves(q, m2, d2, original, add);
    CutConsistent(ps, k, n, left, right, original, add);
    var spanEnd := position + len;
    DocOffset(ps, k, m, position, original, add);
    DocOffset(ps, e, m2, spanEnd, original, add);
    OffsetSum(t, spanEnd, position, len);
    OffsetMonotone(t, position, spanEnd);
    CutBytes(ps, k, n, e, d, d2, left, right, Offset(t, position), Offset(t, position + len), original, add);
  }

  /** What `Delete` leaves of the pieces `ps` for the span of `len`
      codepoints at `position`, bytes `o` to `o2` of the document, given
      the run of `n` pieces from piece `k` that the span touches: every
      piece of the run goes, the first giving way to its head before the
      span and the last to its rest after the span, each of the two only
      when it still holds bytes; the pieces before and after the run stay
      as they were. */
  ghost predicate Trimmed(ps: seq<Piece>, r: seq<Piece>, k: nat, n: nat, position: nat, len: nat, o: nat, o2: nat) {
    && 1 <= n && k + n <= |ps|
    && Runes(ps, k) <= position <= Runes(ps, k) + ps[k].runeLength
    && ByteStart(ps, k) <= o <= ByteStart(ps, k) + ps[k].byteLength
    && Runes(ps, k + n - 1) <= position + len <= Runes(ps, k + n - 1) + ps[k + n - 1].runeLength
    && ByteStart(ps, k + n - 1) <= o2 <= ByteStart(ps, k + n - 1) + ps[k + n - 1].byteLength
    && r == CutRun(ps, k, n, HeadOf(ps[k], position - Runes(ps, k), o - ByteStart(ps, k)),
                   RestOf(ps[k + n - 1], position + len - Runes(ps, k + n - 1), o2 - ByteStart(ps, k + n - 1)))
  }

  /** The run of `n` pieces from piece `k` is the one the span of `len`
      codepoints at `position` touches: its first piece holds the
      codepoint at `position` and its last piece the codepoint just
      before `position + len`. No other run of `ps` satisfies this. */
  ghost predicate Touched(ps: seq<Piece>, k: nat, n: nat, position: nat, len: nat) {
    && 1 <= n && k + n <= |ps|
    && Runes(ps, k) <= position < Runes(ps, k + 1)
    && Runes(ps, k + n - 1) < position + len <= Runes(ps, k + n)
  }

  /** At most one run of the pieces `ps` is touched by a span. */
  lemma {:induction false} TouchedUnique(ps: seq<Piece>, k: nat, n: nat, k2: nat, n2: nat, position: nat, len: nat)
    requires Touched(ps, k, n, position, len) && Touched(ps, k2, n2, position, len)
    ensures k == k2 && n == n2
  {
    if k < k2 {
      RunesMonotone(ps, k + 1, k2);
    } else if k2 < k {
      RunesMonotone(ps, k2 + 1, k);
    }
    var e, e2 := k + n - 1, k2 + n2 - 1;
    if e < e2 {
      RunesMonotone(ps, e + 1, e2);
    } else if e2 < e {
      RunesMonotone(ps, e2 + 1, e);
    }
  }

  /** `Trimmed` for the run of the pieces `ps` the span touches. */
  ghost predicate TrimmedRun(ps: seq<Piece>, r: seq<Piece>, position: nat, len: nat, o: nat, o2: nat) {
    exists k: nat, n: nat {:trigger Trimmed(ps, r, k, n, position, len, o, o2)} ::
      Touched(ps, k, n, position, len) && Trimmed(ps, r, k, n, position, len, o, o2)
  }

  /** `Trimmed` from the two cuts: `m` codepoints, `d` bytes, into piece
      `k`, and `m2` codepoints, `d2` bytes, into piece `e`, the last of the
      run. */
  lemma {:induction false} TrimmedAt(ps: seq<Piece>, r: seq<Piece>, k: nat, n: nat, e: nat, position: nat, len: nat,
                                     o: nat, o2: nat, m: nat, d: nat, m2: nat, d2: nat)
    requires 1 <= n && k + n <= |ps| && e + 1 == k + n
    requires m <= ps[k].runeLength && d <= ps[k].byteLength && m2 <= ps[e].runeLength && d2 <= ps[e].byteLength
    requires position == Runes(ps, k) + m && o == ByteStart(ps, k) + d
    requires position + len == Runes(ps, e) + m2 && o2 == ByteStart(ps, e) + d2
    requires r == CutRun(ps, k, n, HeadOf(ps[k], m, d), RestOf(ps[e], m2, d2))
    ensures Trimmed(ps, r, k, n, position, len, o, o2)
  {
  }

  /** A piece cut in two around the span, both halves holding bytes. */
  lemma {:induction false} MiddleResult(ps: seq<Piece>, k: nat, head: Piece, tail: Piece)
    requires k < |ps| && 0 < head.byteLength && 0 < tail.byteLength
    ensures Discard(Spans.InsertAt(ps[k := head], k + 1, tail), head, k) == CutRun(ps, k, 1, head, tail)
  {
    Widened(ps, k, head, tail);
    assert KeepPiece(head) + KeepPiece(tail) == [head, tail];
  }

  /** A piece that lost the span at one of its ends, the other end of the
      cut being empty. */
  lemma {:induction false} SideResult(ps: seq<Piece>, k: nat, p: Piece, left: Piece, right: Piece)
    requires k < |ps| && (p.byteLength == 0 ==> 0 < k || 2 <= |ps|)
    requires (left.byteLength == 0 && right == p) || (right.byteLength == 0 && left == p)
    ensures Discard(ps[k := p], p, k) == CutRun(ps, k, 1, left, right)
  {
    Replaced(ps, k, p);
    assert KeepPiece(left) + KeepPiece(right) == KeepPiece(p);
  }

  /** The span of `len` codepoints at `position` lies in piece `f.index`,
      which `FindPieces` reported alone: it starts `m` codepoints, `d`
      bytes, into the piece and ends `m2` codepoints, `d2` bytes, into it. */
  ghost predicate InOne(ps: seq<Piece>, f: Found, position: nat, len: nat, m: nat, d: nat, m2: nat, d2: nat,
                        original: seq<byte>, add: seq<byte>) {
    && f.index < |ps| && f.pieces == [ps[f.index]]
    && f.runeStart == Runes(ps, f.index)
    && position == f.runeStart + m && position + len == f.runeStart + m2
    && f.bytePosition == f.byteStart + d && f.bytePosition + f.byteLength == f.byteStart + d2
    && m <= m2 <= ps[f.index].runeLength && d <= d2 <= ps[f.index].byteLength
    && d == Offset(PieceText(ps[f.index], original, add), m)
    && d2 == Offset(PieceText(ps[f.index], original, add), m2)
    && (m == 0 <==> d == 0) && (m2 == ps[f.index].runeLength <==> d2 == ps[f.index].byteLength)
    && f.runeEnd == f.runeStart + ps[f.index].runeLength && f.byteEnd == f.byteStart + ps[f.index].byteLength
  }

  /** Where the span lies in the one piece `FindPieces` reported. A
      deletion that would empty the list takes the whole of the only
      piece. */
  lemma {:induction false} OneFacts(ps: seq<Piece>, f: Found, position: nat, len: nat, original: seq<byte>, add: seq<byte>)
    returns (m: nat, d: nat, m2: nat, d2: nat)
    requires WellFormed(original) && WellFormed(add) && AllConsistent(ps, original, add)
    requires Covers(ps, f, position, len, original, add) && |f.pieces| == 1
    requires f.runeEnd == Runes(ps, f.index + 1) && f.byteEnd == ByteStart(ps, f.index + 1)
    requires 0 < len && position + len <= RuneTotal(ps)
    ensures InOne(ps, f, position, len, m, d, m2, d2, original, add)
    ensures f.index == 0 && |ps| == 1 && m == 0 && m2 == ps[0].runeLength ==> EmptiesList(ps, position, len)
    ensures f.byteStart == ByteStart(ps, f.index) && f.bytePosition == Offset(Text(ps, original, add), position)
    ensures f.bytePosition + f.byteLength == Offset(Text(ps, original, add), position + len)
  {
    var k := f.index;
    var spanEnd := position + len;
    var t := Text(ps, original, add);
    assert f.pieces[0] == ps[k];
    RunesStep(ps, k, k + 1);
    BytesStep(ps, k, k + 1);
    OffsetSum(t, spanEnd, position, len);
    m, d := PieceCut(ps, k, position, f.bytePosition, original, add);
    var bytesEnd := f.bytePosition + f.byteLength;
    m2, d2 := PieceCut(ps, k, spanEnd, bytesEnd, original, add);
    if k == 0 && |ps| == 1 && m == 0 && m2 == ps[0].runeLength {
      Emptied(ps, 0, position, len);
    }
  }

  /** `Delete` on one piece holding the span strictly inside it: the piece
      keeps its head, and a piece for what follows the span, computed as
      written or as intended, is inserted after it. */
  method CutInside(ps: seq<Piece>, f: Found, position: nat, len: nat, corrected: bool,
                   ghost m: nat, ghost d: nat, ghost m2: nat, ghost d2: nat,
                   original: seq<byte>, add: seq<byte>) returns (r: seq<Piece>)
    requires WellFormed(original) && WellFormed(add) && AllConsistent(ps, original, add)
    requires InOne(ps, f, position, len, m, d, m2, d2, original, add)
    requires 0 < m && m2 < ps[f.index].runeLength
    ensures corrected ==> r == CutRun(ps, f.index, 1, HeadOf(ps[f.index], m, d), RestOf(ps[f.index], m2, d2))
    ensures corrected ==>
      && AllConsistent(r, original, add)
      && Text(r, original, add)
         == Text(ps, original, add)[..Offset(Text(ps, original, add), position)]
          + Text(ps, original, add)[Offset(Text(ps, original, add), position + len)..]
    ensures !corrected ==>
      r == ps[..f.index]
         + [ps[f.index].(runeLength := position - f.runeStart, byteLength := f.bytePosition - f.byteStart),
            TailAsWritten(ps[f.index], f, position, len)]
         + ps[f.index + 1..]
  {
    var piece := f.pieces[0];
    var k := f.index;
    piece := piece.(runeLength := position - f.runeStart, byteLength := f.bytePosition - f.byteStart);
    var tail := if corrected then TailIntended(piece, f, position, len) else TailAsWritten(piece, f, position, len);
    r := Spans.InsertAt(ps[k := piece], k + 1, tail);
    Widened(ps, k, piece, tail);
    r := Discard(r, piece, k);
    if corrected {
      ghost var left, right := HeadOf(ps[k], m, d), RestOf(ps[k], m2, d2);
      assert piece == left && tail == right;
      MiddleResult(ps, k, left, right);
      CutRunText(ps, k, 1, k, m, d, m2, d2, position, len, left, right, original, add);
    }
  }

  /** `Delete` on one piece that loses the span at its start or at its
      end: the piece shrinks, and goes when nothing is left of it. */
  method CutSide(ps: seq<Piece>, f: Found, position: nat, len: nat,
                 ghost m: nat, ghost d: nat, ghost m2: nat, ghost d2: nat,
                 original: seq<byte>, add: seq<byte>) returns (r: seq<Piece>)
    requires WellFormed(original) && WellFormed(add) && AllConsistent(ps, original, add)
    requires InOne(ps, f, position, len, m, d, m2, d2, original, add)
    requires m == 0 || m2 == ps[f.index].runeLength
    requires f.index == 0 && |ps| == 1 ==> 0 < m || m2 < ps[0].runeLength
    ensures r == CutRun(ps, f.index, 1, HeadOf(ps[f.index], m, d), RestOf(ps[f.index], m2, d2))
    ensures AllConsistent(r, original, add)
    ensures Text(r, original, add)
         == Text(ps, original, add)[..Offset(Text(ps, original, add), position)]
          + Text(ps, original, add)[Offset(Text(ps, original, add), position + len)..]
  {
    var piece := f.pieces[0];
    var k := f.index;
    ghost var left, right := HeadOf(ps[k], m, d), RestOf(ps[k], m2, d2);
    if position == f.runeStart {
      piece := piece.(runeStart := piece.runeStart + len, byteStart := piece.byteStart + f.byteLength);
    }
    piece := piece.(runeLength := piece.runeLength - len, byteLength := piece.byteLength - f.byteLength);
    SideResult(ps, k, piece, left, right);
    r := Discard(ps[k := piece], piece, k);
    CutRunText(ps, k, 1, k, m, d, m2, d2, position, len, left, right, original, add);
  }

  /** `Delete` on a run of one piece: a span strictly inside it is cut
      out between the piece's head and a new piece after it; otherwise the
      piece loses the span at one of its ends. */
  method DeleteInOne(ps: seq<Piece>, f: Found, position: nat, len: nat, corrected: bool,
                     original: seq<byte>, add: seq<byte>) returns (r: seq<Piece>)
    requires WellFormed(original) && WellFormed(add) && AllConsistent(ps, original, add)
    requires Covers(ps, f, position, len, original, add) && |f.pieces| == 1
    requires f.runeEnd == Runes(ps, f.index + 1) && f.byteEnd == ByteStart(ps, f.index + 1)
    requires 0 < len && position + len <= RuneTotal(ps) && !EmptiesList(ps, position, len)
    ensures f.byteStart <= f.bytePosition
    ensures corrected || !(f.runeStart < position && position + len < f.runeEnd) ==>
      && AllConsistent(r, original, add)
      && Text(r, original, add)
         == Text(ps, original, add)[..Offset(Text(ps, original, add), position)]
          + Text(ps, original, add)[Offset(Text(ps, original, add), position + len)..]
    ensures !corrected && f.runeStart < position && position + len < f.runeEnd ==>
      r == ps[..f.index]
         + [ps[f.index].(runeLength := position - f.runeStart, byteLength := f.bytePosition - f.byteStart),
            TailAsWritten(ps[f.index], f, position, len)]
         + ps[f.index + 1..]
    ensures corrected || !(f.runeStart < position && position + len < f.runeEnd) ==>
      Trimmed(ps, r, f.index, 1, position, len,
              Offset(Text(ps, original, add), position), Offset(Text(ps, original, add), position + len))
  {
    ghost var m, d, m2, d2 := OneFacts(ps, f, position, len, original, add);
    if position != f.runeStart && position + len != f.runeEnd {
      r := CutInside(ps, f, position, len, corrected, m, d, m2, d2, original, add);
    } else {
      r := CutSide(ps, f, position, len, m, d, m2, d2, original, add);
    }
    if corrected || !(f.runeStart < position && position + len < f.runeEnd) {
      TrimmedAt(ps, r, f.index, 1, f.index, position, len, Offset(Text(ps, original, add), position),
                Offset(Text(ps, original, add), position + len), m, d, m2, d2);
    }
  }

  /** The span of `len` codepoints at `position` runs over the pieces
      `f.index` to `e` that `FindPieces` reported, two or more: it starts
      `m` codepoints, `d` bytes, into the first and ends `m2` codepoints,
      `d2` bytes, into the last. */
  ghost predicate InMany(ps: seq<Piece>, f: Found, e: nat, position: nat, len: nat, m: nat, d: nat, m2: nat, d2: nat,
                         original: seq<byte>, add: seq<byte>) {
    && RunEnds(ps, f, e, position, len, m, d, m2, d2)
    && d == Offset(PieceText(ps[f.index], original, add), m)
    && d2 == Offset(PieceText(ps[e], original, add), m2)
  }

  /** `InMany` without the byte offsets of the two cuts. */
  ghost predicate RunEnds(ps: seq<Piece>, f: Found, e: nat, position: nat, len: nat, m: nat, d: nat, m2: nat, d2: nat) {
    && 2 <= |f.pieces| && e + 1 == f.index + |f.pieces| && e < |ps|
    && f.pieces[0] == ps[f.index] && f.pieces[|f.pieces| - 1] == ps[e]
    && (forall j | 0 <= j < |f.pieces| :: f.pieces[j] == ps[f.index + j])
    && f.runeStart == Runes(ps, f.index) && f.byteStart == ByteStart(ps, f.index)
    && position == f.runeStart + m && f.bytePosition == f.byteStart + d
    && m <= ps[f.index].runeLength && d <= ps[f.index].byteLength && (m == 0 <==> d == 0)
    && position + len == Runes(ps, e) + m2 && f.bytePosition + f.byteLength == ByteStart(ps, e) + d2
    && m2 <= ps[e].runeLength && d2 <= ps[e].byteLength
    && (m2 == ps[e].runeLength <==> d2 == ps[e].byteLength)
  }

  /** The pieces of a run, by their index in the table. */
  lemma {:induction false} RunPieces(ps: seq<Piece>, found: seq<Piece>, k: nat, n: nat, e: nat)
    requires k + n <= |ps| && Spans.IsRun(ps, k, found) && |found| == n && 1 <= n && e + 1 == k + n
    ensures found[0] == ps[k] && found[n - 1] == ps[e]
    ensures forall j | 0 <= j < n :: found[j] == ps[k + j]
  {
    Spans.RunFromAll(ps, k, found, 0);
    Spans.RunIndex(ps, k, found, n - 1, e);
  }

  /** A span that `FindPieces` reported over two or more pieces, `f.index`
      to `e`: it starts inside the first and ends inside the last. */
  ghost predicate Spanned(ps: seq<Piece>, f: Found, e: nat, position: nat, spanEnd: nat, bytesEnd: nat,
                          original: seq<byte>, add: seq<byte>) {
    && 2 <= |f.pieces| && e + 1 == f.index + |f.pieces| && e < |ps|
    && f.pieces[0] == ps[f.index] && f.pieces[|f.pieces| - 1] == ps[e]
    && (forall j | 0 <= j < |f.pieces| :: f.pieces[j] == ps[f.index + j])
    && f.runeStart == Runes(ps, f.index) && f.byteStart == ByteStart(ps, f.index)
    && Runes(ps, f.index) <= position < Runes(ps, f.index + 1)
    && Runes(ps, e) < spanEnd <= Runes(ps, e + 1)
    && f.bytePosition == Offset(Text(ps, original, add), position)
    && bytesEnd == Offset(Text(ps, original, add), spanEnd)
  }

  /** What `Covers` says of a run of two or more pieces. */
  lemma {:induction false} CoversMany(ps: seq<Piece>, f: Found, e: nat, position: nat, len: nat,
                                      original: seq<byte>, add: seq<byte>)
    requires Covers(ps, f, position, len, original, add) && 2 <= |f.pieces| && e + 1 == f.index + |f.pieces|
    requires 0 < len && position + len <= RuneTotal(ps)
    ensures Spanned(ps, f, e, position, position + len, f.bytePosition + f.byteLength, original, add)
  {
    RunPieces(ps, f.pieces, f.index, |f.pieces|, e);
    RunEndAt(ps, f, e + 1);
    OffsetSum(Text(ps, original, add), position + len, position, len);
  }

  /** Where the span lies in the run of two or more pieces `FindPieces`
      reported. A deletion that would empty the list starts at the start
      of the first piece and takes the whole of the last one, the run
      being every piece. */
  lemma {:induction false} ManyFacts(ps: seq<Piece>, f: Found, e: nat, position: nat, len: nat,
                                     original: seq<byte>, add: seq<byte>)
    returns (m: nat, d: nat, m2: nat, d2: nat)
    requires WellFormed(original) && WellFormed(add) && AllConsistent(ps, original, add)
    requires Covers(ps, f, position, len, original, add) && 2 <= |f.pieces| && e + 1 == f.index + |f.pieces|
    requires 0 < len && position + len <= RuneTotal(ps)
    ensures InMany(ps, f, e, position, len, m, d, m2, d2, original, add)
    ensures f.index == 0 && e + 1 == |ps| && m == 0 && m2 == ps[e].runeLength ==> EmptiesList(ps, position, len)
    ensures f.bytePosition == Offset(Text(ps, original, add), position)
    ensures f.bytePosition + f.byteLength == Offset(Text(ps, original, add), position + len)
  {
    CoversMany(ps, f, e, position, len, original, add);
    m, d, m2, d2 := Cuts(ps, f, e, position, len, position + len, f.bytePosition + f.byteLength, original, add);
  }

  /** The two cuts of a span over two or more pieces. */
  lemma {:induction false} Cuts(ps: seq<Piece>, f: Found, e: nat, position: nat, len: nat, spanEnd: nat, bytesEnd: nat,
                                original: seq<byte>, add: seq<byte>)
    returns (m: nat, d: nat, m2: nat, d2: nat)
    requires WellFormed(original) && WellFormed(add) && AllConsistent(ps, original, add)
    requires Spanned(ps, f, e, position, spanEnd, bytesEnd, original, add)
    requires spanEnd == position + len && bytesEnd == f.bytePosition + f.byteLength
    ensures InMany(ps, f, e, position, len, m, d, m2, d2, original, add)
    ensures f.index == 0 && e + 1 == |ps| && m == 0 && m2 == ps[e].runeLength ==> EmptiesList(ps, position, len)
  {
    var k := f.index;
    m, d := PieceCut(ps, k, position, f.bytePosition, original, add);
    m2, d2 := PieceCut(ps, e, spanEnd, bytesEnd, original, add);
    if k == 0 && e + 1 == |ps| && m == 0 && m2 == ps[e].runeLength {
      RunesStep(ps, e, e + 1);
      Emptied(ps, e, position, len);
    }
  }

  /** One round of the removal loop of `Delete`: the piece in slot
      `index`, piece `at` of the table, goes. */
  lemma {:induction false} Dropped(ps: seq<Piece>, k: nat, kept: seq<Piece>, at: nat, r: seq<Piece>, index: nat)
    requires k <= at && at + 2 <= |ps| && r == ps[..k] + kept + ps[at..] && index == k + |kept|
    ensures index < |r| && 2 <= |r|
    ensures Spans.DeleteAt(r, index) == ps[..k] + kept + ps[at + 1..]
  {
    assert r[..index] == ps[..k] + kept;
    assert r[index + 1..] == ps[at + 1..];
  }

  /** The last piece of the run, written back shortened to slot `index`
      and discarded when nothing is left of it, ends the cut. */
  lemma {:induction false} LastResult(ps: seq<Piece>, k: nat, n: nat, e: nat, left: Piece, kept: seq<Piece>,
                                      r: seq<Piece>, tail: Piece, index: nat)
    requires k <= e < |ps| && e + 1 == k + n && r == ps[..k] + kept + ps[e..] && index == k + |kept|
    requires kept == KeepPiece(left)
    requires tail.byteLength == 0 ==> 0 < index || e + 1 < |ps|
    ensures index < |r| && (tail.byteLength == 0 ==> 0 < index || 2 <= |r|)
    ensures Discard(r[index := tail], tail, index) == CutRun(ps, k, n, left, tail)
  {
    var w := r[index := tail];
    assert w == ps[..k] + kept + [tail] + ps[e + 1..];
    if tail.byteLength == 0 {
      assert w[..index] == ps[..k] + kept;
      assert w[index + 1..] == ps[e + 1..];
    }
  }

  /** `Delete` on a run of two or more pieces, `f.index` to `e`: the first
      piece keeps its head when the span starts inside it and goes
      otherwise, the pieces up to the last one go one by one from the same
      list slot, and the last loses the span's end and goes when nothing is
      left of it. */
  method DeleteInMany(ps: seq<Piece>, f: Found, ghost e: nat, position: nat, len: nat,
                      ghost m: nat, ghost d: nat, ghost m2: nat, ghost d2: nat,
                      original: seq<byte>, add: seq<byte>) returns (r: seq<Piece>)
    requires WellFormed(original) && WellFormed(add) && AllConsistent(ps, original, add)
    requires InMany(ps, f, e, position, len, m, d, m2, d2, original, add)
    requires f.index == 0 && e + 1 == |ps| && m == 0 ==> m2 < ps[e].runeLength
    ensures r == CutRun(ps, f.index, |f.pieces|, HeadOf(ps[f.index], m, d), RestOf(ps[e], m2, d2))
    ensures AllConsistent(r, original, add)
    ensures Text(r, original, add)
         == Text(ps, original, add)[..Offset(Text(ps, original, add), position)]
          + Text(ps, original, add)[Offset(Text(ps, original, add), position + len)..]
  {
    r := CutMany(ps, f, e, position, len, m, d, m2, d2);
    CutRunText(ps, f.index, |f.pieces|, e, m, d, m2, d2, position, len,
               HeadOf(ps[f.index], m, d), RestOf(ps[e], m2, d2), original, add);
  }

  /** The pieces `Delete` leaves of a run of two or more. */
  method CutMany(ps: seq<Piece>, f: Found, ghost e: nat, position: nat, len: nat,
                 ghost m: nat, ghost d: nat, ghost m2: nat, ghost d2: nat) returns (r: seq<Piece>)
    requires RunEnds(ps, f, e, position, len, m, d, m2, d2)
    requires f.index == 0 && e + 1 == |ps| && m == 0 ==> m2 < ps[e].runeLength
    ensures r == CutRun(ps, f.index, |f.pieces|, HeadOf(ps[f.index], m, d), RestOf(ps[e], m2, d2))
  {
    var n := |f.pieces|;
    var last := f.pieces[n - 1];
    ghost var left := HeadOf(ps[f.index], m, d);
    var index, from, runeStart, byteStart;
    ghost var kept;
    r, index, from, runeStart, byteStart, kept := KeepFirst(ps, f, position, m, d);
    r, runeStart, byteStart := DropRun(ps, f, e, kept, r, index, from, runeStart, byteStart);
    var runeCut, byteCut := (position + len) - runeStart, (f.bytePosition + f.byteLength) - byteStart;
    r := CutLast(ps, f.index, n, e, left, kept, r, index, last, runeCut, byteCut, m2, d2);
  }

  /** The start of `Delete` on a run of two or more pieces: the first
      piece keeps its head when the span starts inside it; the walk goes on
      from the next piece. Otherwise the first piece is the first to go. */
  method KeepFirst(ps: seq<Piece>, f: Found, position: nat, ghost m: nat, ghost d: nat)
    returns (r: seq<Piece>, index: nat, from: nat, runeStart: nat, byteStart: nat, ghost kept: seq<Piece>)
    requires f.index < |ps| && 1 <= |f.pieces| && f.pieces[0] == ps[f.index]
    requires f.runeStart == Runes(ps, f.index) && f.byteStart == ByteStart(ps, f.index)
    requires position == f.runeStart + m && f.bytePosition == f.byteStart + d
    requires m <= ps[f.index].runeLength && d <= ps[f.index].byteLength && (m == 0 <==> d == 0)
    ensures kept == KeepPiece(HeadOf(ps[f.index], m, d)) && |kept| == from <= 1
    ensures index == f.index + from <= |ps| && r == ps[..f.index] + kept + ps[index..]
    ensures runeStart == Runes(ps, index) && byteStart == ByteStart(ps, index)
  {
    var first := f.pieces[0];
    index := f.index;
    runeStart, byteStart := f.runeStart, f.byteStart;
    from := 0;
    kept := [];
    r := ps;
    if position != runeStart {
      var runeLengthBeforeAdd, byteLengthBeforeAdd := first.runeLength, first.byteLength;
      first := first.(runeLength := position - runeStart, byteLength := f.bytePosition - byteStart);
      r := r[index := first];
      RunesStep(ps, index, index + 1);
      BytesStep(ps, index, index + 1);
      runeStart := runeStart + runeLengthBeforeAdd;
      byteStart := byteStart + byteLengthBeforeAdd;
      from := 1;
      index := index + 1;
      kept := [first];
      assert r == ps[..f.index] + kept + ps[index..];
    }
  }

  /** The removal loop of `Delete`: every piece of the run after the ones
      already handled and before the last one goes, each from the same list
      slot `index`. */
  method DropRun(ps: seq<Piece>, f: Found, ghost e: nat, ghost kept: seq<Piece>, r0: seq<Piece>, index: nat, from: nat,
                 runeStart0: nat, byteStart0: nat) returns (r: seq<Piece>, runeStart: nat, byteStart: nat)
    requires e + 1 == f.index + |f.pieces| && e < |ps|
    requires forall j | 0 <= j < |f.pieces| :: f.pieces[j] == ps[f.index + j]
    requires from < |f.pieces| && index == f.index + from && |kept| == from
    requires r0 == ps[..f.index] + kept + ps[index..]
    requires runeStart0 == Runes(ps, index) && byteStart0 == ByteStart(ps, index)
    ensures r == ps[..f.index] + kept + ps[e..] && runeStart == Runes(ps, e) && byteStart == ByteStart(ps, e)
  {
    var n := |f.pieces|;
    r, runeStart, byteStart := r0, runeStart0, byteStart0;
    var i := from;
    ghost var at := index;
    while i < n - 1
      invariant from <= i <= n - 1 && at == f.index + i
      invariant runeStart == Runes(ps, at) && byteStart == ByteStart(ps, at)
      invariant r == ps[..f.index] + kept + ps[at..]
    {
      var piece := f.pieces[i];
      assert piece == ps[at];
      RunesStep(ps, at, at + 1);
      BytesStep(ps, at, at + 1);
      runeStart := runeStart + piece.runeLength;
      byteStart := byteStart + piece.byteLength;
      Dropped(ps, f.index, kept, at, r, index);
      r := Spans.DeleteAt(r, index);
      i := i + 1;
      at := at + 1;
    }
  }

  /** The end of `Delete` on a run of two or more pieces: the last piece
      of the run, in list slot `index`, loses its first `runeCut`
      codepoints, `byteCut` bytes, and goes when nothing is left of it. */
  method CutLast(ps: seq<Piece>, ghost k: nat, ghost n: nat, ghost e: nat, ghost left: Piece, ghost kept: seq<Piece>,
                 r: seq<Piece>, index: nat, last: Piece, runeCut: nat, byteCut: nat, ghost m2: nat, ghost d2: nat)
    returns (cut: seq<Piece>)
    requires k <= e < |ps| && e + 1 == k + n && r == ps[..k] + kept + ps[e..] && index == k + |kept|
    requires kept == KeepPiece(left) && last == ps[e]
    requires runeCut == m2 <= last.runeLength && byteCut == d2 <= last.byteLength
    requires m2 == last.runeLength <==> d2 == last.byteLength
    requires m2 == last.runeLength ==> 0 < index || e + 1 < |ps|
    ensures cut == CutRun(ps, k, n, left, RestOf(ps[e], m2, d2))
  {
    var tail := last.(runeStart := last.runeStart + runeCut, byteStart := last.byteStart + byteCut);
    tail := tail.(runeLength := last.runeLength - runeCut, byteLength := last.byteLength - byteCut);
    LastResult(ps, k, n, e, left, kept, r, tail, index);
    cut := r[index := tail];
    cut := Discard(cut, tail, index);
  }

  /** A span of at least one codepoint lies strictly inside one piece
      exactly when `FindPieces` reports a single piece for it and the span
      neither starts at that piece's start nor ends at its end. */
  lemma {:induction false} InteriorFound(ps: seq<Piece>, f: Found, position: nat, len: nat,
                                         original: seq<byte>, add: seq<byte>)
    requires Covers(ps, f, position, len, original, add) && 0 < len
    ensures Interior(ps, position, len) <==>
      |f.pieces| == 1 && f.runeStart < position && position + len < Runes(ps, f.index + 1)
  {
    InteriorAt(ps, f.index, |f.pieces|, position, len);
  }

  /** `InteriorFound` on the facts of `Covers` it needs: the span starts
      in piece `k`, before its end unless it is the last piece, and a run
      of `n` pieces from `k` ends before the span does. */
  lemma {:induction false} InteriorAt(ps: seq<Piece>, k: nat, n: nat, position: nat, len: nat)
    requires 1 <= n && k + n <= |ps| && 0 < len
    requires Runes(ps, k) <= position <= Runes(ps, k + 1)
    requires k + 1 == |ps| || position < Runes(ps, k + 1)
    requires n >= 2 ==> Runes(ps, k + n - 1) < position + len
    ensures Interior(ps, position, len) <==>
      n == 1 && Runes(ps, k) < position && position + len < Runes(ps, k + 1)
  {
    if Interior(ps, position, len) {
      var i :| 0 <= i < |ps| && InsidePiece(ps, i, position, len);
      if i < k {
        RunesMonotone(ps, i + 1, k);
      } else if k < i {
        RunesMonotone(ps, k + 1, i);
      }
      if 2 <= n {
        RunesMonotone(ps, k + 1, k + n - 1);
      }
    }
    if n == 1 && Runes(ps, k) < position && position + len < Runes(ps, k + 1) {
      assert InsidePiece(ps, k, position, len);
    }
  }

  /** `Delete` on the run of pieces `FindPieces` reported for a span of at
      least one codepoint that does not take the whole of a table whose
      ends hold text. The result is the table without the span's bytes,
      except where the span lies strictly inside one piece and the code as
      written computes the piece after it (`corrected` picks the intended
      computation): then the head of the piece stays and the piece
      `TailAsWritten` follows it. */
  method DeleteFound(ps: seq<Piece>, f: Found, position: nat, len: nat, corrected: bool,
                     original: seq<byte>, add: seq<byte>) returns (r: seq<Piece>)
    requires WellFormed(original) && WellFormed(add) && AllConsistent(ps, original, add)
    requires Covers(ps, f, position, len, original, add)
    requires |f.pieces| == 1 ==> f.runeEnd == Runes(ps, f.index + 1) && f.byteEnd == ByteStart(ps, f.index + 1)
    requires 0 < len && position + len <= RuneTotal(ps) && !EmptiesList(ps, position, len)
    ensures corrected || !Interior(ps, position, len) ==>
      && AllConsistent(r, original, add)
      && Text(r, original, add)
         == Text(ps, original, add)[..Offset(Text(ps, original, add), position)]
          + Text(ps, original, add)[Offset(Text(ps, original, add), position + len)..]
    ensures !corrected && Interior(ps, position, len) ==>
      && |f.pieces| == 1 && f.byteStart <= f.bytePosition
      && r == ps[..f.index]
            + [ps[f.index].(runeLength := position - f.runeStart, byteLength := f.bytePosition - f.byteStart),
               TailAsWritten(ps[f.index], f, position, len)]
            + ps[f.index + 1..]
    ensures corrected || !Interior(ps, position, len) ==>
      Trimmed(ps, r, f.index, |f.pieces|, position, len,
              Offset(Text(ps, original, add), position), Offset(Text(ps, original, add), position + len))
  {
    InteriorFound(ps, f, position, len, original, add);
    if |f.pieces| == 1 {
      r := DeleteInOne(ps, f, position, len, corrected, original, add);
    } else {
      ghost var e := f.index + |f.pieces| - 1;
      ghost var m, d, m2, d2 := ManyFacts(ps, f, e, position, len, original, add);
      r := DeleteInMany(ps, f, e, position, len, m, d, m2, d2, original, add);
      TrimmedAt(ps, r, f.index, |f.pieces|, e, position, len, Offset(Text(ps, original, add), position),
                Offset(Text(ps, original, add), position + len), m, d, m2, d2);
    }
  }

  /** After a deletion of the bytes of codepoints `position .. position +
      len`, the table counts `len` codepoints fewer, and fewer bytes by
      the span's byte length; it decodes to the codepoints before the span
      followed by those after it. */
  lemma {:induction false} DeletedTotals(ps: seq<Piece>, r: seq<Piece>, position: nat, len: nat,
                                         original: seq<byte>, add: seq<byte>)
    requires WellFormed(original) && WellFormed(add)
    requires AllConsistent(ps, original, add) && AllConsistent(r, original, add)
    requires position + len <= RuneTotal(ps)
    requires Text(r, original, add)
          == Text(ps, original, add)[..Offset(Text(ps, original, add), position)]
           + Text(ps, original, add)[Offset(Text(ps, original, add), position + len)..]
    ensures RuneCount(Text(ps, original, add)) == RuneTotal(ps)
    ensures Offset(Text(ps, original, add), position) <= Offset(Text(ps, original, add), position + len)
    ensures RuneTotal(r) + len == RuneTotal(ps)
    ensures ByteTotal(r) + (Offset(Text(ps, original, add), position + len) - Offset(Text(ps, original, add), position))
         == ByteTotal(ps)
    ensures Decode(Text(r, original, add))
         == Decode(Text(ps, original, add))[..position] + Decode(Text(ps, original, add))[position + len..]
  {
    TextFacts(ps, original, add);
    TextFacts(r, original, add);
    DecodeCut(Text(ps, original, add), Text(r, original, add), position, position + len);
  }

  /** "aébc" in UTF-8: four codepoints, the second of two bytes. */
  const Sample: seq<byte> := [0x61, 0xC3, 0xA9, 0x62, 0x63]

  /** The codepoints of `Sample` start at bytes 0, 1, 3 and 4. */
  lemma {:induction false} SampleOffsets()
    ensures WellFormed(Sample) && RuneCount(Sample) == 4
    ensures Offset(Sample, 0) == 0 && Offset(Sample, 2) == 3 && Offset(Sample, 3) == 4 && Offset(Sample, 4) == 5
  {
    var s := Sample;
    assert SizeAt(s, 4) == 1 && SizeAt(s, 3) == 1 && SizeAt(s, 1) == 2 && SizeAt(s, 0) == 1;
    assert WellFormedFrom(s, 4) && CountFrom(s, 4) == 1 && OffsetFrom(s, 4, 0) == 4;
    assert WellFormedFrom(s, 3) && CountFrom(s, 3) == 2 && OffsetFrom(s, 3, 1) == 4;
    assert WellFormedFrom(s, 1) && CountFrom(s, 1) == 3 && OffsetFrom(s, 1, 1) == 3 && OffsetFrom(s, 1, 2) == 4;
    assert OffsetFrom(s, 1, 3) == 5;
  }

  /** The table of one original piece over `Sample`, and what `FindPieces`
      reports for the span of codepoint 2, "b": a run of that one piece,
      which holds the span strictly inside it. */
  lemma {:induction false} SampleTable(p: Piece, f: Found)
    requires p == Piece(0, 0, 5, 4, true) && f == Found([p], 0, 3, 1, 0, 0, 4, 5)
    ensures WellFormed(Sample) && WellFormed([]) && AllConsistent([p], Sample, [])
    ensures Text([p], Sample, []) == Sample && RuneTotal([p]) == 4
    ensures Covers([p], f, 2, 1, Sample, [])
    ensures f.runeEnd == Runes([p], 1) && f.byteEnd == ByteStart([p], 1)
    ensures !EmptiesList([p], 2, 1) && Interior([p], 2, 1)
  {
    SampleText(p);
    SampleStarts(p);
    SampleCovers(p, f);
    assert InsidePiece([p], 0, 2, 1);
  }

  lemma {:induction false} SampleCovers(p: Piece, f: Found)
    requires p == Piece(0, 0, 5, 4, true) && f == Found([p], 0, 3, 1, 0, 0, 4, 5)
    ensures Covers([p], f, 2, 1, Sample, [])
  {
    SampleText(p);
    SampleStarts(p);
    assert [p][0..1] == [p];
    Spans.SliceRun([p], 0, 1, [p]);
  }

  /** The one piece over `Sample` is consistent and stands for it. */
  lemma {:induction false} SampleText(p: Piece)
    requires p == Piece(0, 0, 5, 4, true)
    ensures WellFormed(Sample) && RuneCount(Sample) == 4
    ensures Offset(Sample, 2) == 3 && Offset(Sample, 3) == 4
    ensures AllConsistent([p], Sample, []) && Text([p], Sample, []) == Sample
  {
    SampleOffsets();
    SampleConsistent(p);
    SampleBytes(p);
  }

  lemma {:induction false} SampleBytes(p: Piece)
    requires p == Piece(0, 0, 5, 4, true)
    ensures Text([p], Sample, []) == Sample
  {
    TextSingle(p, Sample, []);
    Spans.SliceBuffer(Bytes(p), Sample, []);
    assert Sample[0..5] == Sample;
  }

  lemma {:induction false} SampleConsistent(p: Piece)
    requires p == Piece(0, 0, 5, 4, true)
    requires RuneCount(Sample) == 4 && Offset(Sample, 0) == 0 && Offset(Sample, 4) == 5
    ensures Consistent(p, Sample, [])
  {
  }

  /** Where the one piece over `Sample` starts and ends. */
  lemma {:induction false} SampleStarts(p: Piece)
    requires p == Piece(0, 0, 5, 4, true)
    ensures Runes([p], 0) == 0 && Runes([p], 1) == 4 && RuneTotal([p]) == 4
    ensures ByteStart([p], 0) == 0 && ByteStart([p], 1) == 5
  {
    RunesStep([p], 0, 1);
    BytesStep([p], 0, 1);
  }

  /** The piece `Delete` puts after the kept head as written repeats the
      span and the codepoints before it: deleting "b" from "aébc" leaves
      "aébc", and the new piece's two counts disagree. The intended piece
      starts after "b" and the text becomes "aéc". */
  lemma {:induction false} TailAsWrittenKeepsText(p: Piece, f: Found)
    requires p == Piece(0, 0, 5, 4, true) && f == Found([p], 0, 3, 1, 0, 0, 4, 5)
    ensures Covers([p], f, 2, 1, Sample, []) && Interior([p], 2, 1)
    ensures var head := p.(runeLength := 2, byteLength := 3);
      && TailAsWritten(p, f, 2, 1) == Piece(3, 3, 2, 1, true)
      && !Consistent(TailAsWritten(p, f, 2, 1), Sample, [])
      && Text([head, TailAsWritten(p, f, 2, 1)], Sample, []) == Sample
      && TailIntended(head, f, 2, 1) == Piece(4, 3, 1, 1, true)
      && Consistent(TailIntended(head, f, 2, 1), Sample, [])
      && Text([head, TailIntended(head, f, 2, 1)], Sample, []) == [0x61, 0xC3, 0xA9, 0x63]
      && Text([p], Sample, [])[..Offset(Text([p], Sample, []), 2)] + Text([p], Sample, [])[Offset(Text([p], Sample, []), 3)..]
         == [0x61, 0xC3, 0xA9, 0x63]
  {
    SampleTable(p, f);
    var head := p.(runeLength := 2, byteLength := 3);
    var written, intended := Piece(3, 3, 2, 1, true), Piece(4, 3, 1, 1, true);
    assert TailAsWritten(p, f, 2, 1) == written;
    assert TailIntended(head, f, 2, 1) == intended;
    SampleHalves(head, written, intended);
    SampleCut();
  }

  /** Deleting codepoint 2 of `Sample`, "b", leaves "aéc". */
  lemma {:induction false} SampleCut()
    ensures Sample[..Offset(Sample, 2)] + Sample[Offset(Sample, 3)..] == [0x61, 0xC3, 0xA9, 0x63]
  {
    SampleOffsets();
  }

  /** The bytes of the head "aé" with the piece as written, "bc", or the
      piece as intended, "c". */
  lemma {:induction false} SampleHalves(head: Piece, written: Piece, intended: Piece)
    requires head == Piece(0, 0, 3, 2, true) && written == Piece(3, 3, 2, 1, true) && intended == Piece(4, 3, 1, 1, true)
    ensures !Consistent(written, Sample, []) && Consistent(intended, Sample, [])
    ensures Text([head, written], Sample, []) == Sample
    ensures Text([head, intended], Sample, []) == [0x61, 0xC3, 0xA9, 0x63]
  {
    SampleConsistency(written, intended);
    SampleTwo(head, written, 3, 5);
    SampleTwo(head, intended, 4, 5);
    SampleJoin();
  }

  lemma {:induction false} SampleConsistency(written: Piece, intended: Piece)
    requires written == Piece(3, 3, 2, 1, true) && intended == Piece(4, 3, 1, 1, true)
    ensures !Consistent(written, Sample, []) && Consistent(intended, Sample, [])
  {
    SampleOffsets();
  }

  lemma {:induction false} SampleJoin()
    ensures Sample[0..3] + Sample[3..5] == Sample
    ensures Sample[0..3] + Sample[4..5] == [0x61, 0xC3, 0xA9, 0x63]
  {
    assert Sample[0..3] + Sample[3..5] == Sample;
    assert Sample[0..3] + Sample[4..5] == [0x61, 0xC3, 0xA9, 0x63];
  }

  /** The bytes of the head "aé" followed by a piece of `Sample` from
      byte `a` to byte `b`. */
  lemma {:induction false} SampleTwo(head: Piece, q: Piece, a: nat, b: nat)
    requires head == Piece(0, 0, 3, 2, true) && q.isOriginal && q.byteStart == a && q.byteLength == b - a
    requires 3 <= a <= b <= 5
    ensures Text([head, q], Sample, []) == Sample[0..3] + Sample[a..b]
  {
    TwoPieces(head, q, Sample, []);
    Spans.SliceBuffer(Bytes(head), Sample, []);
    Spans.SliceBuffer(Bytes(q), Sample, []);
    assert PieceText(head, Sample, []) == Sample[0..3];
    assert PieceText(q, Sample, []) == Sample[a..b];
  }

  /** The bytes of a table of two pieces. */
  lemma {:induction false} TwoPieces(x: Piece, y: Piece, original: seq<byte>, add: seq<byte>)
    ensures Text([x, y], original, add) == PieceText(x, original, add) + PieceText(y, original, add)
  {
    TextAppend([x], [y], original, add);
    TextSingle(x, original, add);
    TextSingle(y, original, add);
    assert [x] + [y] == [x, y];
  }
}
