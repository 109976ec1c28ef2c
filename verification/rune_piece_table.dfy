/** The piece table of the editor's main package, over runes. The document
    is the concatenation of pieces, each a slice of one of two buffers: the
    original text, never changed, and the add buffer, to which every
    inserted text is appended. Positions and lengths count runes. */
module RunePieceTable {
  import opened Outcomes
  import opened Utf8
  import opened Decimal
  import opened Spans

  /** A piece found by `FindPiece`: the piece, the document positions where
      it starts and ends, and its index in the piece list. */
  datatype Located = Located(piece: Piece, start: nat, end: nat, index: nat)

  /** The pieces found by `FindPieces`, in document order: the index of the
      first of them and the document position where it starts. */
  datatype Span = Span(found: seq<Piece>, index: nat, start: nat)

  /** `sp` is a run of consecutive pieces of `ps`, with the index and
      document position of its first piece. */
  ghost predicate RunOf(ps: seq<Piece>, sp: Span) {
    && sp.index < |ps| && sp.index + |sp.found| <= |ps|
    && IsRun(ps, sp.index, sp.found)
    && sp.start == Start(ps, sp.index)
  }

  /** Document position where the piece after a run starts. */
  ghost function RunEnd(ps: seq<Piece>, sp: Span): nat
    requires RunOf(ps, sp)
  {
    Start(ps, sp.index + |sp.found|)
  }

  /** The run a front-to-back search returns: it starts with the piece
      holding `position` and ends with the last piece starting at or before
      `position + len`. */
  ghost predicate ForwardRun(ps: seq<Piece>, sp: Span, position: nat, len: nat)
    requires RunOf(ps, sp)
  {
    var end := sp.index + |sp.found|;
    && |sp.found| >= 1 && position < Start(ps, sp.index + 1)
    && Start(ps, end - 1) <= position + len
    && (end == |ps| || Start(ps, end) > position + len)
  }

  /** The run a back-to-front search returns: it starts with the last piece
      starting before `position`, or the first piece, and ends with the last
      piece starting before `position + len`. */
  ghost predicate BackwardRun(ps: seq<Piece>, sp: Span, position: nat, len: nat)
    requires RunOf(ps, sp)
  {
    var end := sp.index + |sp.found|;
    && (sp.start < position || sp.index == 0)
    && (sp.index + 1 == |ps| || position <= Start(ps, sp.index + 1))
    && (|sp.found| >= 1 ==> Start(ps, end - 1) < position + len)
    && (end == |ps| || Start(ps, end) >= position + len)
  }

  /** The front-to-back search of `FindPieces`. */
  method SearchForward(ps: seq<Piece>, position: nat, len: nat) returns (sp: Span)
    requires position < Total(ps)
    ensures RunOf(ps, sp) && sp.start <= position && ForwardRun(ps, sp, position, len)
  {
    var found: seq<Piece> := [];
    var first, startPosition := 0, 0;
    var endPosition, before, i := 0, 0, 0;
    while i < |ps|
      invariant i <= |ps|
      invariant endPosition == before == Start(ps, i)
      invariant found == [] ==> endPosition <= position
      invariant found != [] ==>
        && first < i && IsRun(ps, first, found) && first + |found| == i
        && startPosition == Start(ps, first) <= position < Start(ps, first + 1)
        && Start(ps, i - 1) <= position + len
    {
      if endPosition > position && endPosition > position + len {
        break;
      }
      if found != [] {
        StartMonotone(ps, first + 1, i + 1);
      }
      endPosition := endPosition + ps[i].length;
      if endPosition > position {
        if |found| == 0 {
          startPosition := before;
          first := i;
        }
        RunAppend(ps, first, found, i);
        found := found + [ps[i]];
      }
      before := endPosition;
      i := i + 1;
    }
    return Span(found, first, startPosition);
  }

  /** The back-to-front search of `FindPieces`. */
  method SearchBackward(ps: seq<Piece>, position: nat, len: nat) returns (sp: Span)
    requires |ps| >= 1 && position <= Total(ps)
    ensures RunOf(ps, sp) && sp.start <= position && BackwardRun(ps, sp, position, len)
  {
    var found: seq<Piece> := [];
    var first, startPosition := 0, 0;
    var endPosition, i := Total(ps), |ps|;
    ghost var end := |ps|;
    while i > 0
      invariant 0 <= i <= end <= |ps|
      invariant endPosition == Start(ps, i)
      invariant i < |ps| ==> endPosition >= position
      invariant IsRun(ps, i, found) && i + |found| == end
      invariant end == |ps| || Start(ps, end) >= position + len
      invariant found != [] ==> Start(ps, end - 1) < position + len
    {
      i := i - 1;
      endPosition := endPosition - ps[i].length;
      if found != [] {
        StartMonotone(ps, i, end - 1);
      }
      if endPosition < position + len {
        // Go appends here and reverses the slice after the loop.
        RunPrepend(ps, i, found, i + 1);
        found := [ps[i]] + found;
      } else {
        end := i;
      }
      if endPosition < position && endPosition < position + len {
        startPosition := endPosition;
        first := i;
        break;
      }
    }
    return Span(found, first, startPosition);
  }

  /** `s`, starting at document position `start`, is the window of `text`
      that a request for `len` runes at `position` returns: it begins at or
      before `position`, covers the requested span where the text has it,
      runs to the end of the text where it does not, and is empty only for
      an empty text or a request for nothing at position 0. */
  ghost predicate Window<T>(text: seq<T>, s: seq<T>, start: nat, position: nat, len: nat) {
    && start <= position && start + |s| <= |text|
    && s == text[start..start + |s|]
    && (position + len <= |text| ==> position + len <= start + |s|)
    && (position + len >= |text| ==> start + |s| == |text|)
    && (0 < |text| && (0 < position || 0 < len) ==> |s| > 0)
  }

  /** Where the runs both searches return end, relative to the span
      asked for. */
  lemma {:induction false} RunBounds(ps: seq<Piece>, sp: Span, position: nat, len: nat, forward: bool)
    requires RunOf(ps, sp) && sp.start <= position <= Total(ps)
    requires RunEnd(ps, sp) >= position + len || sp.index + |sp.found| == |ps|
    requires forward ==> ForwardRun(ps, sp, position, len)
    requires !forward ==> BackwardRun(ps, sp, position, len)
    ensures sp.start <= RunEnd(ps, sp) <= Total(ps)
    ensures RunEnd(ps, sp) >= position + len || RunEnd(ps, sp) == Total(ps)
    ensures position + len >= Total(ps) ==> RunEnd(ps, sp) == Total(ps)
    ensures 0 < Total(ps) && (0 < position || 0 < len) ==> sp.start < RunEnd(ps, sp)
  {
    var end := sp.index + |sp.found|;
    StartMonotone(ps, sp.index, end);
    StartMonotone(ps, end, |ps|);
    if forward {
      StartMonotone(ps, sp.index + 1, end);
    }
  }

  /** The runs both searches return are windows of the document. */
  lemma {:induction false} RunWindow<T>(ps: seq<Piece>, sp: Span, position: nat, len: nat, forward: bool, original: seq<T>, add: seq<T>)
    requires AllInBuffer(ps, original, add)
    requires RunOf(ps, sp) && sp.start <= position <= Total(ps)
    requires RunEnd(ps, sp) >= position + len || sp.index + |sp.found| == |ps|
    requires forward ==> ForwardRun(ps, sp, position, len)
    requires !forward ==> BackwardRun(ps, sp, position, len)
    ensures Window(Concat(ps, original, add), Concat(sp.found, original, add), sp.start, position, len)
  {
    RunText(ps, sp, original, add);
    RunBounds(ps, sp, position, len, forward);
    WindowOf(Concat(ps, original, add), Concat(sp.found, original, add), sp.start, RunEnd(ps, sp), position, len);
  }

  /** The text of a run is the stretch of the document between the
      positions where the run starts and ends. */
  lemma {:induction false} RunText<T>(ps: seq<Piece>, sp: Span, original: seq<T>, add: seq<T>)
    requires AllInBuffer(ps, original, add) && RunOf(ps, sp)
    ensures |Concat(ps, original, add)| == Total(ps)
    ensures sp.start + |Concat(sp.found, original, add)| == RunEnd(ps, sp) <= Total(ps)
    ensures Concat(sp.found, original, add)
         == Concat(ps, original, add)[sp.start..sp.start + |Concat(sp.found, original, add)|]
  {
    var b := sp.index + |sp.found|;
    assert RunEnd(ps, sp) == Start(ps, b);
    RunFromAll(ps, sp.index, sp.found, 0);
    ConcatWindow(ps, sp.found, sp.index, b, original, add);
    ConcatLength(ps, original, add);
  }

  lemma {:induction false} WindowOf<T>(text: seq<T>, s: seq<T>, start: nat, e: nat, position: nat, len: nat)
    requires start <= position && start + |s| == e <= |text| && s == text[start..start + |s|]
    requires position + len <= e || e == |text|
    requires position + len >= |text| ==> e == |text|
    requires 0 < |text| && (0 < position || 0 < len) ==> start < e
    ensures Window(text, s, start, position, len)
  {
  }

  /** The runes of a run of pieces, appended piece by piece. */
  method Gather<T>(found: seq<Piece>, original: seq<T>, add: seq<T>) returns (sequence: seq<T>)
    requires AllInBuffer(found, original, add)
    ensures sequence == Concat(found, original, add)
  {
    sequence := [];
    var k := 0;
    while k < |found|
      invariant k <= |found|
      invariant sequence == TextOf(found, k, original, add)
    {
      var runes := PieceRunes(found[k], original, add);
      TextOfStep(found, k + 1, k, original, add);
      sequence := sequence + runes;
      k := k + 1;
    }
  }

  /** The runes one piece stands for, read from its buffer. */
  method PieceRunes<T>(piece: Piece, original: seq<T>, add: seq<T>) returns (runes: seq<T>)
    requires InBuffer(piece, original, add)
    ensures runes == Slice(piece, original, add)
  {
    SliceBuffer(piece, original, add);
    if piece.isOriginal {
      runes := original[piece.start..piece.start + piece.length];
    } else {
      runes := add[piece.start..piece.start + piece.length];
    }
  }

  /** The last piece ends where the document does. */
  lemma {:induction false} LastEnd(ps: seq<Piece>, k: nat)
    requires k < |ps|
    ensures k == |ps| - 1 ==> Start(ps, k) + ps[k].length == Total(ps)
  {
  }

  /** How `Insert` leaves the list `ps` with `piece`, the piece over the
      inserted text, put at document position `position`, piece `k` being
      the one `FindPiece` located there: `piece` goes first at position 0,
      last at the end of the document, before piece `k` where that piece
      starts, and otherwise between two halves of piece `k`, the first
      keeping its start and ending at the position, the second starting
      where the first ends with the rest of the length and the same
      buffer. */
  ghost predicate Placed(ps: seq<Piece>, ps': seq<Piece>, k: nat, position: nat, piece: Piece) {
    if position == 0 then PutAt(ps, ps', 0, piece)
    else if position == Total(ps) then PutAt(ps, ps', |ps|, piece)
    else
      && k < |ps| && Start(ps, k) <= position <= Start(ps, k) + ps[k].length
      && (position == Start(ps, k) ==> PutAt(ps, ps', k, piece))
      && (position != Start(ps, k) ==>
            var left := Piece(ps[k].start, position - Start(ps, k), ps[k].isOriginal);
            SplitAt(ps, ps', k, left, piece, Piece(left.start + left.length, ps[k].length - left.length, ps[k].isOriginal)))
  }

  /** Where `Insert` puts the piece for the inserted text, given the piece
      `f` that `FindPiece` located at `position`: at the front of the
      list, at its back, before `f`, or between the halves of `f` cut at
      the position. Go also inserts after `f` when the position is its end;
      `FindPiece` only returns a piece ending at the position when it is
      the last piece, so that case is the end of the document, which
      comes first. */
  method Place<T>(ps: seq<Piece>, f: Located, position: nat, total: nat, piece: Piece, original: seq<T>, add: seq<T>)
    returns (ps': seq<Piece>)
    requires AllInBuffer(ps, original, add) && InBuffer(piece, original, add) && Total(ps) == total
    requires f.index < |ps| && f.piece == ps[f.index] && f.start == Start(ps, f.index)
    requires f.end == f.start + f.piece.length && f.start <= position <= f.end
    requires position < f.end || f.index == |ps| - 1
    ensures AllInBuffer(ps', original, add) && Total(ps') == total + piece.length
    ensures position <= |Concat(ps, original, add)|
    ensures Concat(ps', original, add)
         == Concat(ps, original, add)[..position] + Slice(piece, original, add) + Concat(ps, original, add)[position..]
    ensures Placed(ps, ps', f.index, position, piece)
  {
    if position == 0 {
      ps' := PutPiece(ps, 0, piece, position, original, add);
    } else if position == total {
      ps' := PutPiece(ps, |ps|, piece, position, original, add);
    } else if position != f.start && position == f.end {
      LastEnd(ps, f.index);
      assert false;
    } else {
      LastEnd(ps, f.index);
      ps' := PlaceWithin(ps, f.index, position, piece, original, add);
    }
  }

  /** `Place` strictly inside the document, at or inside piece `k`. */
  method PlaceWithin<T>(ps: seq<Piece>, k: nat, position: nat, piece: Piece, original: seq<T>, add: seq<T>)
    returns (ps': seq<Piece>)
    requires AllInBuffer(ps, original, add) && InBuffer(piece, original, add)
    requires k < |ps| && 0 < position && position != Total(ps) && Start(ps, k) <= position <= Start(ps, k) + ps[k].length
    ensures AllInBuffer(ps', original, add) && Total(ps') == Total(ps) + piece.length
    ensures position <= |Concat(ps, original, add)|
    ensures Concat(ps', original, add)
         == Concat(ps, original, add)[..position] + Slice(piece, original, add) + Concat(ps, original, add)[position..]
    ensures Placed(ps, ps', k, position, piece)
  {
    if position == Start(ps, k) {
      ps' := PutPiece(ps, k, piece, position, original, add);
    } else {
      ps' := SplitPiece(ps, k, piece, position, original, add);
    }
  }

  /** The piece `FindPiece` reports ends after the position, unless it is
      the last piece, which ends with the document. */
  lemma {:induction false} EndsBeyond(ps: seq<Piece>, k: nat, position: nat)
    requires k < |ps| && position <= Start(ps, k) + ps[k].length
    requires position < Start(ps, k) + ps[k].length || k == |ps| - 1
    ensures position == Total(ps) || position < Start(ps, k) + ps[k].length
  {
  }

  /** The pieces after `Insert` of `text` at `position`: the text goes to
      the end of the add buffer and a piece for it is placed by `Place`. */
  method PlaceText<T>(ps: seq<Piece>, f: Located, position: nat, total: nat, original: seq<T>, add: seq<T>, text: seq<T>)
    returns (ps': seq<Piece>)
    requires AllInBuffer(ps, original, add) && Total(ps) == total
    requires f.index < |ps| && f.piece == ps[f.index] && f.start == Start(ps, f.index)
    requires f.end == f.start + f.piece.length && f.start <= position <= f.end
    requires position < f.end || f.index == |ps| - 1
    ensures AllInBuffer(ps', original, add + text) && Total(ps') == total + |text|
    ensures position <= |Concat(ps, original, add)|
    ensures Concat(ps', original, add + text)
         == Concat(ps, original, add)[..position] + text + Concat(ps, original, add)[position..]
    ensures Placed(ps, ps', f.index, position, Piece(|add|, |text|, false))
    ensures position == total || position < Start(ps, f.index) + ps[f.index].length
  {
    EndsBeyond(ps, f.index, position);
    ConcatGrow(ps, original, add, text);
    var piece := Piece(|add|, |text|, false);
    AppendedSlice(original, add, text);
    ps' := Place(ps, f, position, total, piece, original, add + text);
  }

  /** A piece over the text just appended to the add buffer stands for
      that text. */
  lemma {:induction false} AppendedSlice<T>(original: seq<T>, add: seq<T>, text: seq<T>)
    ensures InBuffer(Piece(|add|, |text|, false), original, add + text)
    ensures Slice(Piece(|add|, |text|, false), original, add + text) == text
  {
    SliceBuffer(Piece(|add|, |text|, false), original, add + text);
    assert (add + text)[|add|..|add| + |text|] == text;
  }

  /** Insertion of `piece` into the list at slot `k`, which starts at
      document position `position`. */
  method PutPiece<T>(ps: seq<Piece>, k: nat, piece: Piece, position: nat, original: seq<T>, add: seq<T>)
    returns (ps': seq<Piece>)
    requires k <= |ps| && position == Start(ps, k)
    requires AllInBuffer(ps, original, add) && InBuffer(piece, original, add)
    ensures AllInBuffer(ps', original, add) && Total(ps') == Total(ps) + piece.length
    ensures position <= |Concat(ps, original, add)|
    ensures Concat(ps', original, add)
         == Concat(ps, original, add)[..position] + Slice(piece, original, add) + Concat(ps, original, add)[position..]
    ensures PutAt(ps, ps', k, piece)
    ensures 0 < position && position != Total(ps) ==> Placed(ps, ps', k, position, piece)
  {
    InsertText(ps, k, piece, position, original, add);
    ps' := InsertAt(ps, k, piece);
    InsertAtShape(ps, k, piece);
  }

  /** Insertion of `piece` inside piece `k`, which is cut in two at
      document position `position`: its head, `piece`, then its rest. */
  method SplitPiece<T>(ps: seq<Piece>, k: nat, piece: Piece, position: nat, original: seq<T>, add: seq<T>)
    returns (ps': seq<Piece>)
    requires k < |ps| && Start(ps, k) <= position <= Start(ps, k) + ps[k].length
    requires AllInBuffer(ps, original, add) && InBuffer(piece, original, add)
    ensures AllInBuffer(ps', original, add) && Total(ps') == Total(ps) + piece.length
    ensures position <= |Concat(ps, original, add)|
    ensures Concat(ps', original, add)
         == Concat(ps, original, add)[..position] + Slice(piece, original, add) + Concat(ps, original, add)[position..]
    ensures SplitAt(ps, ps', k, Head(ps[k], position - Start(ps, k)), piece, Rest(ps[k], position - Start(ps, k)))
    ensures 0 < position && position != Total(ps) && Start(ps, k) < position ==> Placed(ps, ps', k, position, piece)
  {
    var left := Head(ps[k], position - Start(ps, k));
    var right := Rest(ps[k], position - Start(ps, k));
    SplitText(ps, k, position - Start(ps, k), piece, left, right, position, original, add);
    ps' := InsertAt(InsertAt(ps[k := left], k + 1, piece), k + 2, right);
    SplitShape(ps, k, left, piece, right);
    if 0 < position && position != Total(ps) && Start(ps, k) < position {
      PlacedSplit(ps, ps', k, position, piece);
    }
  }

  /** `Placed` from the halves `Head` and `Rest` of piece `k`. */
  lemma {:induction false} PlacedSplit(ps: seq<Piece>, ps': seq<Piece>, k: nat, position: nat, piece: Piece)
    requires k < |ps| && 0 < position && position != Total(ps) && Start(ps, k) < position <= Start(ps, k) + ps[k].length
    requires SplitAt(ps, ps', k, Head(ps[k], position - Start(ps, k)), piece, Rest(ps[k], position - Start(ps, k)))
    ensures Placed(ps, ps', k, position, piece)
  {
    var off := position - Start(ps, k);
    var left := Piece(ps[k].start, off, ps[k].isOriginal);
    assert Head(ps[k], off) == left;
    assert Rest(ps[k], off) == Piece(left.start + left.length, ps[k].length - left.length, ps[k].isOriginal);
  }

  /** Removing a piece leaves the pieces before it where they were. */
  lemma {:induction false} DeleteAtPrefix(ps: seq<Piece>, i: nat, k: nat)
    requires i < |ps| ==> 0 < i || 2 <= |ps|
    requires k <= i && k <= |ps|
    ensures k <= |DeleteAt(ps, i)| && DeleteAt(ps, i)[..k] == ps[..k]
  {
    if i < |ps| {
      assert DeleteAt(ps, i)[..k] == DeleteAt(ps, i)[..i][..k];
      assert ps[..k] == ps[..i][..k];
    }
  }

  /** Writing a piece leaves the pieces before it as they were. */
  lemma {:induction false} UpdatePrefix(ps: seq<Piece>, i: nat, p: Piece, k: nat)
    requires k <= i < |ps|
    ensures ps[i := p][..k] == ps[..k]
  {
  }

  lemma {:induction false} AllInBufferDelete<T>(ps: seq<Piece>, i: nat, original: seq<T>, add: seq<T>)
    requires i < |ps| ==> 0 < i || 2 <= |ps|
    requires AllInBuffer(ps, original, add)
    ensures AllInBuffer(DeleteAt(ps, i), original, add)
  {
    var r := DeleteAt(ps, i);
    if i < |ps| {
      AllInBufferSlice(ps, 0, i, original, add);
      AllInBufferSlice(ps, i + 1, |ps|, original, add);
      AllInBufferAppend(ps[..i], ps[i + 1..], original, add);
    }
  }

  lemma {:induction false} AllInBufferUpdate<T>(ps: seq<Piece>, i: nat, p: Piece, original: seq<T>, add: seq<T>)
    requires i < |ps| && AllInBuffer(ps, original, add) && InBuffer(p, original, add)
    ensures AllInBuffer(ps[i := p], original, add)
  {
  }

  /** Where the piece held at list slot `at` is after `DeleteIfEmpty(piece, i)`
      on a list of `size` pieces; -1 once it is no longer in the list.
      `Delete` keeps pointers to the pieces it found while it removes
      pieces by index, so a write through a pointer lands wherever the
      piece has moved, or nowhere. */
  function Follow(at: int, piece: Piece, i: nat, size: nat): (r: int)
    ensures -1 <= at < size ==> -1 <= r < size
    ensures piece.length == 0 && i < size && 0 <= at < size ==> r < size - 1
    ensures at <= i ==> r <= at
    ensures i < at ==> i <= r
  {
    if piece.length == 0 && i < size then
      (if at == i then -1 else if at > i then at - 1 else at)
    else at
  }

  /** The argument checks of `Delete` as written: a deletion at position 0
      is refused with the error meant for a deletion of length 0, and so is
      one that reaches past the end of the document. */
  function DeleteCheck(position: nat, len: nat, length: nat): (r: Outcome)
    ensures r.Pass? <==> 0 < position && position + len <= length
    ensures r.Fail? ==> (r.error == InvalidArgument <==> position == 0)
  {
    if position == 0 then Fail(InvalidArgument)
    else if position > length then Fail(OutOfRange)
    else if position + len > length then Fail(OutOfRange)
    else Pass
  }

  /** The checks `Delete` evidently means (and the byte table makes): a
      deletion of length 0 is refused, and so is one reaching past the end. */
  function DeleteCheckIntended(position: nat, len: nat, length: nat): (r: Outcome)
    ensures r.Pass? <==> 0 < len && position + len <= length
    ensures r.Fail? ==> (r.error == InvalidArgument <==> len == 0)
  {
    if len == 0 then Fail(InvalidArgument)
    else if position > length then Fail(OutOfRange)
    else if position + len > length then Fail(OutOfRange)
    else Pass
  }

  /** The first rune of a one-rune document cannot be deleted as written,
      and a deletion of nothing passes. */
  lemma {:induction false} DeleteCheckRefusesStart()
    ensures DeleteCheck(0, 1, 1) == Fail(InvalidArgument) && DeleteCheckIntended(0, 1, 1) == Pass
    ensures DeleteCheck(1, 0, 1) == Pass && DeleteCheckIntended(1, 0, 1) == Fail(InvalidArgument)
  {
  }

  lemma {:induction false} StartStep(ps: seq<Piece>, k: nat, e: nat)
    requires k < |ps| && e == k + 1
    ensures Start(ps, e) == Start(ps, k) + ps[k].length
  {
  }

  /** Piece `j` of a run is piece `e` of the list. */
  lemma {:induction false} RunElement(ps: seq<Piece>, sp: Span, j: nat, e: nat)
    requires RunOf(ps, sp) && j < |sp.found| && e == sp.index + j
    ensures e < |ps| && sp.found[j] == ps[e]
  {
    RunIndex(ps, sp.index, sp.found, j, e);
  }

  /** Sequences with the same prefix up to `k` have the same prefixes up
      to every `i <= k`. */
  lemma {:induction false} Prefixes<T>(a: seq<T>, b: seq<T>, k: nat)
    requires k <= |a| && k <= |b| && a[..k] == b[..k]
    ensures forall i | 0 <= i <= k :: a[..i] == b[..i]
  {
    forall i | 0 <= i <= k
      ensures a[..i] == b[..i]
    {
      assert a[..i] == a[..k][..i];
      assert b[..i] == b[..k][..i];
    }
  }

  /** The single piece a deletion falls in, as `Delete` leaves it: moved
      on by its length less `len` when the deletion starts where the piece
      does, then cut to `len` runes. */
  function ShrinkAsWritten(q: Piece, atStart: bool, len: nat): (r: Piece)
    requires len <= q.length
    ensures r.isOriginal == q.isOriginal && r.length == len
    ensures q.start <= r.start && r.start + r.length <= q.start + q.length
  {
    var moved := if atStart then q.(start := q.start + (q.length - len)) else q;
    moved.(length := moved.length - (moved.length - len))
  }

  /** The piece `ShrinkAsWritten` leaves holds the `len` runes the
      deletion removes when it starts at the piece, and the first `len`
      runes of the piece otherwise: not the runes around the deleted ones. */
  lemma {:induction false} ShrinkAsWrittenText<T>(q: Piece, atStart: bool, len: nat, original: seq<T>, add: seq<T>)
    requires len <= q.length && InBuffer(q, original, add)
    ensures InBuffer(ShrinkAsWritten(q, atStart, len), original, add)
    ensures atStart ==> Slice(ShrinkAsWritten(q, atStart, len), original, add) == Slice(q, original, add)[q.length - len..]
    ensures !atStart ==> Slice(ShrinkAsWritten(q, atStart, len), original, add) == Slice(q, original, add)[..len]
  {
    if atStart {
      assert ShrinkAsWritten(q, atStart, len) == Rest(q, q.length - len);
      HeadRest(q, q.length - len, original, add);
    } else {
      assert ShrinkAsWritten(q, atStart, len) == Head(q, len);
      HeadRest(q, len, original, add);
    }
  }

  /** Deleting the middle rune of "abc", held by one piece, leaves "a". */
  lemma {:induction false} ShrinkAsWrittenKeepsDeleted()
    ensures Slice(ShrinkAsWritten(Piece(0, 3, true), false, 1), "abc", "") == "a"
    ensures Slice(Piece(0, 3, true), "abc", "")[..1] + Slice(Piece(0, 3, true), "abc", "")[2..] == "ac"
  {
    ShrinkAsWrittenText(Piece(0, 3, true), false, 1, "abc", "");
  }

  /** The pieces `Delete` leaves from a run of three pieces or more, piece
      `k` to piece `e`, when no piece of it empties: the first piece keeps
      its runes before `position`, the last its runes after `position +
      len`, and every piece between them is left as it was. */
  function ManyAsWritten(ps: seq<Piece>, k: nat, e: nat, position: nat, len: nat, start: nat): (r: seq<Piece>)
    requires k < e < |ps| && start <= position <= start + ps[k].length
    requires Start(ps, e) <= position + len <= Start(ps, e) + ps[e].length
    ensures |r| == |ps| && r[k + 1..e] == ps[k + 1..e]
  {
    ps[k := Head(ps[k], position - start)][e := Rest(ps[e], position + len - Start(ps, e))]
  }

  /** Deleting runes 1 to 4 of "ab" | "cd" | "ef", a run of three pieces
      the front-to-back search finds, leaves "a" | "cd" | "f": the text
      "acdf" while the length drops to 2. The deletion meant leaves "af". */
  lemma {:induction false} ManyAsWrittenKeepsMiddle()
    ensures var ps := [Piece(0, 2, true), Piece(0, 2, false), Piece(2, 2, true)];
      && RunOf(ps, Span(ps, 0, 0)) && 1 < Total(ps) / 2 && ForwardRun(ps, Span(ps, 0, 0), 1, 4)
      && Concat(ps, "abef", "cd") == "abcdef"
      && Concat(ManyAsWritten(ps, 0, 2, 1, 4, 0), "abef", "cd") == "acdf" && Total(ps) - 4 == 2
      && Concat(ps, "abef", "cd")[..1] + Concat(ps, "abef", "cd")[1 + 4..] == "af"
  {
    var ps := [Piece(0, 2, true), Piece(0, 2, false), Piece(2, 2, true)];
    SliceRun(ps, 0, 3, ps);
    var r := ManyAsWritten(ps, 0, 2, 1, 4, 0);
    assert r == [Piece(0, 1, true), Piece(0, 2, false), Piece(3, 1, true)];
    ConcatThree(ps[0], ps[1], ps[2], "abef", "cd");
    ConcatThree(r[0], r[1], r[2], "abef", "cd");
    assert ps == [ps[0], ps[1], ps[2]] && r == [r[0], r[1], r[2]];
  }

  /** What the search `Delete` starts from tells about the run it found:
      it is not empty, its first piece holds the position, its last piece
      holds the end of the span, and every piece ending before the
      position lies before it. */
  lemma {:induction false} RunFacts(ps: seq<Piece>, sp: Span, position: nat, len: nat, forward: bool)
    requires RunOf(ps, sp) && sp.start <= position && 0 < position + len && position + len <= Total(ps)
    requires RunEnd(ps, sp) >= position + len || sp.index + |sp.found| == |ps|
    requires forward ==> ForwardRun(ps, sp, position, len)
    requires !forward ==> BackwardRun(ps, sp, position, len)
    ensures 1 <= |sp.found|
    ensures sp.start + sp.found[0].length == Start(ps, sp.index + 1) && position <= Start(ps, sp.index + 1)
    ensures Start(ps, sp.index + |sp.found| - 1) <= position + len
    ensures position + len <= Start(ps, sp.index + |sp.found| - 1) + sp.found[|sp.found| - 1].length
    ensures forall i | 0 < i <= |ps| && Start(ps, i) < position :: i <= sp.index
  {
    var end := sp.index + |sp.found|;
    if end == |ps| {
      SameStart(ps, end, |ps|);
    }
    assert 1 <= |sp.found|;
    RunElement(ps, sp, 0, sp.index);
    RunElement(ps, sp, |sp.found| - 1, end - 1);
    if sp.index + 1 == |ps| {
      SameStart(ps, sp.index + 1, |ps|);
    }
    forall i | 0 < i <= |ps| && Start(ps, i) < position
      ensures i <= sp.index
    {
      if i > sp.index {
        StartMonotone(ps, sp.index + 1, i);
      }
    }
  }

  /** The pieces after `DeleteIfEmpty(piece, index)`: slot `index` goes
      when `piece`, the caller's copy of the piece meant to be there, is
      empty. */
  function DropIfEmpty(ps: seq<Piece>, piece: Piece, index: nat): (r: seq<Piece>)
    requires piece.length == 0 && index < |ps| ==> 0 < index || 2 <= |ps|
    ensures |ps| >= 1 ==> |r| >= 1
    ensures |r| == if piece.length == 0 && index < |ps| then |ps| - 1 else |ps|
    ensures piece.length > 0 ==> r == ps
  {
    if piece.length == 0 then DeleteAt(ps, index) else ps
  }

  lemma {:induction false} AllInBufferDrop<T>(ps: seq<Piece>, piece: Piece, index: nat, original: seq<T>, add: seq<T>)
    requires piece.length == 0 && index < |ps| ==> 0 < index || 2 <= |ps|
    requires AllInBuffer(ps, original, add)
    ensures AllInBuffer(DropIfEmpty(ps, piece, index), original, add)
  {
    if piece.length == 0 {
      AllInBufferDelete(ps, index, original, add);
    }
  }

  /** `DeleteIfEmpty` leaves the pieces before the slot it removes. */
  lemma {:induction false} DropPrefix(ps: seq<Piece>, piece: Piece, index: nat, k: nat)
    requires piece.length == 0 && index < |ps| ==> 0 < index || 2 <= |ps|
    requires k <= index && k <= |ps|
    ensures k <= |DropIfEmpty(ps, piece, index)| && DropIfEmpty(ps, piece, index)[..k] == ps[..k]
  {
    if piece.length == 0 {
      DeleteAtPrefix(ps, index, k);
    }
  }

  /** `Delete` on a run of one piece. */
  method DeleteInOne<T>(ps: seq<Piece>, sp: Span, position: nat, len: nat, original: seq<T>, add: seq<T>)
    returns (ps': seq<Piece>)
    requires AllInBuffer(ps, original, add) && RunOf(ps, sp) && |sp.found| == 1
    requires sp.start <= position && position + len <= sp.start + sp.found[0].length
    requires |ps| == 1 ==> 0 < len
    ensures AllInBuffer(ps', original, add) && 1 <= |ps'| <= |ps|
    ensures sp.index <= |ps'| && ps'[..sp.index] == ps[..sp.index]
  {
    var found, index, startPosition := sp.found, sp.index, sp.start;
    RunElement(ps, sp, 0, index);
    var piece := ShrinkAsWritten(found[0], position == startPosition, len);
    AllInBufferUpdate(ps, index, piece, original, add);
    UpdatePrefix(ps, index, piece, index);
    ps' := ps[index := piece];
    AllInBufferDrop(ps', piece, index, original, add);
    DropPrefix(ps', piece, index, index);
    ps' := DropIfEmpty(ps', piece, index);
  }

  /** `Delete` on a run of two pieces. */
  method DeleteInTwo<T>(ps: seq<Piece>, sp: Span, position: nat, len: nat, original: seq<T>, add: seq<T>)
    returns (ps': seq<Piece>)
    requires AllInBuffer(ps, original, add) && RunOf(ps, sp) && |sp.found| == 2
    requires sp.start <= position <= sp.start + sp.found[0].length
    requires sp.start + sp.found[0].length <= position + len <= sp.start + sp.found[0].length + sp.found[1].length
    requires sp.index == 0 ==> sp.start == 0
    requires 0 < position
    ensures AllInBuffer(ps', original, add) && 1 <= |ps'| <= |ps|
    ensures sp.index <= |ps'| && ps'[..sp.index] == ps[..sp.index]
  {
    var found, index, startPosition := sp.found, sp.index, sp.start;
    ghost var k := index;
    RunElement(ps, sp, 0, index);
    RunElement(ps, sp, 1, index + 1);
    var first, last := found[0], found[1];
    var lastAt := index + 1;
    ps' := ps;
    if position == startPosition {
      AllInBufferDelete(ps', index, original, add);
      DeleteAtPrefix(ps', index, k);
      ps' := DeleteAt(ps', index);
      lastAt := index;
      startPosition := startPosition + first.length;
    } else {
      var first' := Head(first, position - startPosition);
      AllInBufferUpdate(ps', index, first', original, add);
      UpdatePrefix(ps', index, first', k);
      ps' := ps'[index := first'];
      startPosition := startPosition + first.length;
      AllInBufferDrop(ps', first', index, original, add);
      DropPrefix(ps', first', index, k);
      ps' := DropIfEmpty(ps', first', index);
      index := index + 1;
    }
    var last' := Rest(last, position + len - startPosition);
    AllInBufferUpdate(ps', lastAt, last', original, add);
    UpdatePrefix(ps', lastAt, last', k);
    ps' := ps'[lastAt := last'];
    AllInBufferDrop(ps', last', index, original, add);
    DropPrefix(ps', last', index, k);
    ps' := DropIfEmpty(ps', last', index);
  }

  /** One `DeleteIfEmpty` inside `Delete`: slot `index` goes when `piece`
      is empty, the pieces before slot `k` stay, and the slot `lastAt`
      held follows the removal. */
  method DropTracked<T>(ps: seq<Piece>, piece: Piece, index: nat, ghost k: nat, lastAt: int, original: seq<T>, add: seq<T>)
    returns (ps': seq<Piece>, lastAt': int)
    requires AllInBuffer(ps, original, add) && 1 <= |ps| && k <= index && k <= |ps|
    requires piece.length == 0 && index < |ps| ==> 0 < index || 2 <= |ps|
    requires -1 <= lastAt < |ps| && (0 <= lastAt ==> k <= lastAt)
    ensures ps' == DropIfEmpty(ps, piece, index) && lastAt' == Follow(lastAt, piece, index, |ps|)
    ensures AllInBuffer(ps', original, add) && 1 <= |ps'| <= |ps|
    ensures k <= |ps'| && ps'[..k] == ps[..k]
    ensures -1 <= lastAt' < |ps'| && (0 <= lastAt' ==> k <= lastAt')
  {
    lastAt' := Follow(lastAt, piece, index, |ps|);
    AllInBufferDrop(ps, piece, index, original, add);
    DropPrefix(ps, piece, index, k);
    ps' := DropIfEmpty(ps, piece, index);
  }

  /** `Delete` on a run of three pieces or more. The slots the code
      removes are counted from where the pieces stood before any removal,
      so a removal can hit another piece or none; `lastAt` follows the
      last piece, which the code writes through a pointer, to wherever it
      then is. */
  method DeleteInMany<T>(ps: seq<Piece>, sp: Span, position: nat, len: nat, ghost e: nat, original: seq<T>, add: seq<T>)
    returns (ps': seq<Piece>)
    requires AllInBuffer(ps, original, add) && RunOf(ps, sp) && |sp.found| >= 3
    requires sp.start <= position <= sp.start + sp.found[0].length
    requires e + 1 == sp.index + |sp.found| && Start(ps, e) <= position + len <= Start(ps, e) + ps[e].length
    ensures AllInBuffer(ps', original, add) && 1 <= |ps'| <= |ps|
    ensures sp.index <= |ps'| && ps'[..sp.index] == ps[..sp.index]
    ensures sp.start < position && position + len < Start(ps, e) + ps[e].length
            && (forall j | 1 <= j < |sp.found| - 1 :: sp.found[j].length > 0)
            ==> ps' == ManyAsWritten(ps, sp.index, e, position, len, sp.start)
  {
    var found, index, startPosition := sp.found, sp.index, sp.start;
    ghost var k := index;
    var first := found[0];
    RunElement(ps, sp, 0, index);
    var first' := Head(first, position - startPosition);
    AllInBufferUpdate(ps, index, first', original, add);
    UpdatePrefix(ps, index, first', k);
    ps' := ps[index := first'];
    StartStep(ps, index, index + 1);
    startPosition := startPosition + first.length;
    var lastAt;
    ghost var keep := sp.start < position && position + len < Start(ps, e) + ps[e].length
                      && (forall j | 1 <= j < |sp.found| - 1 :: sp.found[j].length > 0);
    ps', lastAt := DropTracked(ps', first', index, k, index + |found| - 1, original, add);
    ghost var ps1 := ps';
    assert keep ==> ps1 == ps[k := first'] && lastAt == e;
    index := index + 1;
    ps', startPosition, lastAt := DropMiddle(ps, sp, e, ps', startPosition, lastAt, original, add);
    assert keep ==> ps' == ps1 && lastAt == e;
    var last := found[|found| - 1];
    RunElement(ps, sp, |found| - 1, e);
    assert startPosition == Start(ps, e) && last == ps[e];
    var last' := Rest(last, position + len - startPosition);
    assert keep ==> last'.length > 0;
    if 0 <= lastAt {
      AllInBufferUpdate(ps', lastAt, last', original, add);
      UpdatePrefix(ps', lastAt, last', k);
      ps' := ps'[lastAt := last'];
    }
    ghost var ps2 := ps';
    ps', lastAt := DropTracked(ps', last', index, k, lastAt, original, add);
    if keep {
      assert ps' == ps2 == ps1[e := last'];
      ManyAsWrittenFrom(ps, k, e, position, len, sp.start, first', last');
    }
  }

  /** `ManyAsWritten` from the first piece's head and the last piece's rest. */
  lemma {:induction false} ManyAsWrittenFrom(ps: seq<Piece>, k: nat, e: nat, position: nat, len: nat, start: nat, first: Piece, last: Piece)
    requires k < e < |ps| && start <= position <= start + ps[k].length
    requires Start(ps, e) <= position + len <= Start(ps, e) + ps[e].length
    requires first == Head(ps[k], position - start) && last == Rest(ps[e], position + len - Start(ps, e))
    ensures ManyAsWritten(ps, k, e, position, len, start) == ps[k := first][e := last]
  {
  }

  /** The loop of `DeleteInMany` over the pieces between the first and the
      last of the run: each is dropped from slot `index + 1` when empty,
      and the start position moves past it. */
  method DropMiddle<T>(ps: seq<Piece>, sp: Span, ghost e: nat, ps0: seq<Piece>, startPosition0: nat, lastAt0: int,
                       original: seq<T>, add: seq<T>)
    returns (ps': seq<Piece>, startPosition: nat, lastAt: int)
    requires RunOf(ps, sp) && |sp.found| >= 3 && startPosition0 == Start(ps, sp.index + 1)
    requires e + 1 == sp.index + |sp.found|
    requires AllInBuffer(ps0, original, add) && 1 <= |ps0| <= |ps|
    requires sp.index <= |ps0| && ps0[..sp.index] == ps[..sp.index]
    requires -1 <= lastAt0 < |ps0| && (0 <= lastAt0 ==> sp.index <= lastAt0)
    ensures startPosition == Start(ps, e)
    ensures AllInBuffer(ps', original, add) && 1 <= |ps'| <= |ps|
    ensures sp.index <= |ps'| && ps'[..sp.index] == ps[..sp.index]
    ensures -1 <= lastAt < |ps'| && (0 <= lastAt ==> sp.index <= lastAt)
    ensures (forall j | 1 <= j < |sp.found| - 1 :: sp.found[j].length > 0) ==> ps' == ps0 && lastAt == lastAt0
  {
    var found, k := sp.found, sp.index;
    var index := k + 1;
    ps', startPosition, lastAt := ps0, startPosition0, lastAt0;
    var i := 1;
    ghost var at := index;
    while i < |found| - 1
      invariant 1 <= i <= |found| - 1 && at == k + i
      invariant startPosition == Start(ps, at)
      invariant AllInBuffer(ps', original, add) && 1 <= |ps'| <= |ps|
      invariant k <= |ps'| && ps'[..k] == ps[..k]
      invariant -1 <= lastAt < |ps'| && (0 <= lastAt ==> k <= lastAt)
      invariant (forall j | 1 <= j < |found| - 1 :: found[j].length > 0) ==> ps' == ps0 && lastAt == lastAt0
    {
      var piece := found[i];
      RunElement(ps, sp, i, at);
      StartStep(ps, at, at + 1);
      startPosition := startPosition + piece.length;
      ps', lastAt := DropTracked(ps', piece, index, k, lastAt, original, add);
      i := i + 1;
      at := at + 1;
    }
  }

  /** The pieces after `Delete` of `len` runes at `position` changed the
      run the search found, by the number of pieces in it. Pieces ending
      before the position are kept as they are. */
  method DeleteInRun<T>(ps: seq<Piece>, sp: Span, position: nat, len: nat, forward: bool, original: seq<T>, add: seq<T>)
    returns (ps': seq<Piece>)
    requires AllInBuffer(ps, original, add) && RunOf(ps, sp) && sp.start <= position
    requires 0 < position && position + len <= Total(ps)
    requires RunEnd(ps, sp) >= position + len || sp.index + |sp.found| == |ps|
    requires forward ==> ForwardRun(ps, sp, position, len)
    requires !forward ==> BackwardRun(ps, sp, position, len)
    requires |ps| == 1 ==> 0 < len
    ensures AllInBuffer(ps', original, add) && 1 <= |ps'| <= |ps|
    ensures forall i | 0 < i <= |ps| && Start(ps, i) < position :: i <= |ps'| && ps'[..i] == ps[..i]
  {
    RunFacts(ps, sp, position, len, forward);
    ps' := DeleteBySize(ps, sp, position, len, original, add);
    Prefixes(ps', ps, sp.index);
  }

  /** The deletion `Delete` makes, chosen by the number of pieces the run
      holds: one, two, or more. */
  method DeleteBySize<T>(ps: seq<Piece>, sp: Span, position: nat, len: nat, original: seq<T>, add: seq<T>)
    returns (ps': seq<Piece>)
    requires AllInBuffer(ps, original, add) && RunOf(ps, sp) && 1 <= |sp.found| && 0 < position
    requires sp.start <= position <= Start(ps, sp.index + 1) == sp.start + sp.found[0].length
    requires Start(ps, sp.index + |sp.found| - 1) <= position + len
    requires position + len <= Start(ps, sp.index + |sp.found| - 1) + sp.found[|sp.found| - 1].length
    requires |ps| == 1 ==> 0 < len
    ensures AllInBuffer(ps', original, add) && 1 <= |ps'| <= |ps|
    ensures sp.index <= |ps'| && ps'[..sp.index] == ps[..sp.index]
  {
    RunElement(ps, sp, 0, sp.index);
    if |sp.found| == 1 {
      ps' := DeleteInOne(ps, sp, position, len, original, add);
    } else if |sp.found| == 2 {
      RunElement(ps, sp, 1, sp.index + 1);
      ps' := DeleteInTwo(ps, sp, position, len, original, add);
    } else {
      var e := sp.index + |sp.found| - 1;
      RunElement(ps, sp, |sp.found| - 1, e);
      ps' := DeleteInMany(ps, sp, position, len, e, original, add);
    }
  }

  /** The pieces after deleting `len` runes at `position` the way `Delete`
      evidently means to, given the run `FindPieces` returns: the run gives
      way to the head of its first piece before `position` and the rest of
      its last piece after `position + len`. */
  method CutFound<T>(ps: seq<Piece>, sp: Span, position: nat, len: nat, forward: bool, original: seq<T>, add: seq<T>)
    returns (ps': seq<Piece>)
    requires AllInBuffer(ps, original, add) && RunOf(ps, sp) && sp.start <= position
    requires 0 < len && position + len <= Total(ps)
    requires RunEnd(ps, sp) >= position + len || sp.index + |sp.found| == |ps|
    requires forward ==> ForwardRun(ps, sp, position, len)
    requires !forward ==> BackwardRun(ps, sp, position, len)
    ensures AllInBuffer(ps', original, add) && 1 <= |ps'| && Total(ps') + len == Total(ps)
    ensures position + len <= |Concat(ps, original, add)|
    ensures Concat(ps', original, add)
         == Concat(ps, original, add)[..position] + Concat(ps, original, add)[position + len..]
  {
    RunFacts(ps, sp, position, len, forward);
    var k, n := sp.index, |sp.found|;
    var e := k + n - 1;
    RunElement(ps, sp, 0, k);
    RunElement(ps, sp, n - 1, e);
    SameStart(ps, sp.index + |sp.found| - 1, e);
    var left := Head(ps[k], position - sp.start);
    var right := Rest(ps[e], position + len - Start(ps, e));
    CutText(ps, k, n, e, position - sp.start, position + len - Start(ps, e), left, right, position, len, original, add);
    ps' := Cut(ps, k, n, left, right);
  }

  class PieceTable {
    const originalBuffer: seq<Rune>
    var addBuffer: seq<Rune>
    var pieces: seq<Piece>
    var length: nat

    /** Every piece lies inside its buffer, and there is at least one. */
    ghost predicate InBounds()
      reads this
    {
      |pieces| >= 1 && AllInBuffer(pieces, originalBuffer, addBuffer)
    }

    /** In addition, `length` is the length of the document. */
    ghost predicate Valid()
      reads this
    {
      InBounds() && Total(pieces) == length
    }

    /** The document. */
    function Text(): (t: seq<Rune>)
      reads this
      requires InBounds()
      ensures |t| == Total(pieces)
    {
      ConcatLength(pieces, originalBuffer, addBuffer);
      Concat(pieces, originalBuffer, addBuffer)
    }

    /** A table holding `content` as one piece of the original buffer. */
    constructor (content: seq<Rune>)
      ensures Valid() && Text() == content
      ensures originalBuffer == content && addBuffer == []
      ensures pieces == [Piece(0, |content|, true)] && length == |content|
    {
      originalBuffer := content;
      addBuffer := [];
      pieces := [Piece(0, |content|, true)];
      length := |content|;
      new;
      assert Start(pieces, 1) == |content|;
      SliceBuffer(pieces[0], originalBuffer, addBuffer);
      TextOfStep(pieces, 1, 0, originalBuffer, addBuffer);
      assert content[0..|content|] == content;
    }

    /** The document as a Go string: its UTF-8 encoding, which decodes back
        to the document. */
    function ToString(): (s: seq<byte>)
      reads this
      requires InBounds()
      ensures WellFormed(s) && Decode(s) == Text()
      ensures RuneCount(s) == |Text()|
    {
      EncodeDecode(Text());
      Encode(Text())
    }

    /** The number of pieces, never zero. */
    function PiecesAmount(): (n: nat)
      reads this
      requires InBounds()
      ensures n == |pieces| && n >= 1
    {
      |pieces|
    }

    /** `f` describes the piece at its index: where it starts and ends. */
    ghost predicate Describes(f: Located)
      reads this
    {
      && f.index < |pieces| && f.piece == pieces[f.index]
      && f.start == Start(pieces, f.index) && f.end == f.start + f.piece.length
    }

    /** The piece holding `position`, searched from the front when the
        position lies in the first half of the document and from the back
        otherwise. From the front it is the first piece ending after the
        position; from the back the last piece starting at or before it,
        which at the end of the document is the last piece. */
    method FindPiece(position: nat) returns (res: Result<Located>)
      requires Valid()
      ensures position > length ==> res == Err(OutOfRange)
      ensures position <= length ==> res.Ok? && Describes(res.value)
      ensures res.Ok? ==> res.value.start <= position <= res.value.end
      ensures res.Ok? && position < length / 2 ==> position < res.value.end
      ensures res.Ok? && position >= length / 2 ==>
        position < res.value.end || res.value.index == |pieces| - 1
    {
      if position > length {
        return Err(OutOfRange);
      }
      if position < length / 2 {
        var startPosition, endPosition, i := 0, 0, 0;
        while i < |pieces|
          invariant i <= |pieces|
          invariant startPosition == endPosition == Start(pieces, i) <= position
        {
          endPosition := endPosition + pieces[i].length;
          if endPosition > position {
            return Ok(Located(pieces[i], startPosition, endPosition, i));
          }
          startPosition := endPosition;
          i := i + 1;
        }
        assert false;
      } else {
        var startPosition, i := length, |pieces|;
        while i > 0
          invariant 0 <= i <= |pieces|
          invariant startPosition == Start(pieces, i)
          invariant i < |pieces| ==> startPosition > position
        {
          i := i - 1;
          startPosition := startPosition - pieces[i].length;
          var endPosition := startPosition + pieces[i].length;
          if startPosition <= position {
            return Ok(Located(pieces[i], startPosition, endPosition, i));
          }
        }
        assert false;
      }
      return Err(Inconsistent);
    }

    /** The pieces the span `position .. position + len` touches. From the
        front: from the piece holding `position` up to the last piece that
        starts at or before `position + len`. From the back: from the last
        piece starting strictly before `position` (the first piece when
        there is none) up to the last piece starting strictly before
        `position + len`. The two disagree at piece boundaries. */
    method FindPieces(position: nat, len: nat) returns (res: Result<Span>)
      requires Valid()
      ensures position > length ==> res == Err(OutOfRange)
      ensures position <= length ==> res.Ok? && RunOf(pieces, res.value)
      ensures res.Ok? ==> res.value.start <= position
      ensures res.Ok? ==>
        RunEnd(pieces, res.value) >= position + len || res.value.index + |res.value.found| == |pieces|
      ensures res.Ok? && position < length / 2 ==> ForwardRun(pieces, res.value, position, len)
      ensures res.Ok? && position >= length / 2 ==> BackwardRun(pieces, res.value, position, len)
    {
      if position > length {
        return Err(OutOfRange);
      }
      var sp: Span;
      if position < length / 2 {
        sp := SearchForward(pieces, position, len);
      } else {
        sp := SearchBackward(pieces, position, len);
      }
      StartMonotone(pieces, sp.index + |sp.found|, |pieces|);
      return Ok(sp);
    }

    /** Inserts `text` at document position `position`. The text is
        appended to the add buffer and a piece for it is placed at the start
        or end of the piece list, before or after the piece holding the
        position when the position is one of its ends, and otherwise
        between the two halves of that piece cut at the position. */
    method Insert(position: nat, text: seq<Rune>) returns (res: Outcome)
      requires Valid()
      modifies this
      ensures text == [] ==> res == Fail(InvalidArgument)
      ensures text != [] && position > old(length) ==> res == Fail(OutOfRange)
      ensures text != [] && position <= old(length) ==> res.Pass?
      ensures res.Fail? ==> unchanged(this)
      ensures res.Pass? ==> Valid() && addBuffer == old(addBuffer) + text && length == old(length) + |text|
      ensures res.Pass? ==> Text() == old(Text())[..position] + text + old(Text())[position..]
      ensures res.Pass? ==> exists k: nat ::
        && (position == 0 || position == old(length) || (k < |old(pieces)| && position < Start(old(pieces), k) + old(pieces)[k].length))
        && Placed(old(pieces), pieces, k, position, Piece(|old(addBuffer)|, |text|, false))
    {
      if |text| == 0 {
        return Fail(InvalidArgument);
      }
      if position > length {
        return Fail(OutOfRange);
      }
      var r := FindPiece(position);
      ghost var k, before, t := r.value.index, pieces, Text();
      var ps' := PlaceText(pieces, r.value, position, length, originalBuffer, addBuffer, text);
      addBuffer, pieces, length := addBuffer + text, ps', length + |text|;
      assert Text() == t[..position] + text + t[position..];
      assert Placed(before, pieces, k, position, Piece(|old(addBuffer)|, |text|, false));
      return Pass;
    }

    /** Removes list slot `index` when `piece`, the caller's copy of the
        piece meant to be there, is empty. */
    method DeleteIfEmpty(piece: Piece, index: nat)
      requires piece.length == 0 && index < |pieces| ==> 0 < index || 2 <= |pieces|
      modifies this
      ensures pieces == DropIfEmpty(old(pieces), piece, index)
      ensures addBuffer == old(addBuffer) && length == old(length)
      ensures old(InBounds()) ==> InBounds()
    {
      if piece.length == 0 {
        if InBounds() {
          AllInBufferDelete(pieces, index, originalBuffer, addBuffer);
        }
        pieces := DeleteAt(pieces, index);
      }
    }

    /** Deletes `len` runes at document position `position`, as written.
        The first piece of the run `FindPieces` returns keeps the runes
        before the position, the last loses the runes up to the end of the
        span, and pieces that become empty are removed by list slot. A run
        of one piece keeps `len` of its runes instead (see
        `ShrinkAsWritten`), and the pieces between the first and the last
        are kept (see `ManyAsWritten`). */
    method Delete(position: nat, len: nat) returns (res: Outcome)
      requires Valid()
      requires |pieces| == 1 && 0 < position <= length ==> 0 < len
      modifies this
      ensures res == DeleteCheck(position, len, old(length))
      ensures res.Fail? ==> unchanged(this)
      ensures res.Pass? ==> InBounds() && addBuffer == old(addBuffer) && length == old(length) - len
      ensures res.Pass? ==> |pieces| <= old(|pieces|)
      ensures res.Pass? ==> forall i | 0 < i <= |old(pieces)| && Start(old(pieces), i) < position ::
                              i <= |pieces| && pieces[..i] == old(pieces)[..i]
    {
      res := DeleteCheck(position, len, length);
      if res.Fail? {
        return;
      }
      var r := FindPieces(position, len);
      var sp := r.value;
      var ps := DeleteInRun(pieces, sp, position, len, position < length / 2, originalBuffer, addBuffer);
      pieces, length := ps, length - len;
    }

    /** `Delete` as its authors evidently mean it: a deletion of nothing is
        refused, the first rune can be deleted, and exactly the runes from
        `position` to `position + len` leave the document. */
    method DeleteCorrected(position: nat, len: nat) returns (res: Outcome)
      requires Valid()
      modifies this
      ensures res == DeleteCheckIntended(position, len, old(length))
      ensures res.Fail? ==> unchanged(this)
      ensures res.Pass? ==> Valid() && addBuffer == old(addBuffer) && length == old(length) - len
      ensures res.Pass? ==> Text() == old(Text())[..position] + old(Text())[position + len..]
    {
      res := DeleteCheckIntended(position, len, length);
      if res.Fail? {
        return;
      }
      var r := FindPieces(position, len);
      var sp := r.value;
      var ps := CutFound(pieces, sp, position, len, position < length / 2, originalBuffer, addBuffer);
      pieces, length := ps, length - len;
    }

    /** The runes of the pieces `FindPieces` returns, and the document
        position where they start: a window of the document that covers
        the requested span where the document has it, and runs to the end
        of the document where it does not. */
    method GetSequence(position: nat, len: nat) returns (res: Result<(seq<Rune>, nat)>)
      requires Valid()
      ensures position > length ==> res == Err(OutOfRange)
      ensures position <= length ==> res.Ok?
      ensures res.Ok? ==> Window(Text(), res.value.0, res.value.1, position, len)
    {
      var r := FindPieces(position, len);
      if r.Err? {
        return Err(r.error);
      }
      var sp := r.value;
      RunInBuffer(pieces, sp.index, sp.found, originalBuffer, addBuffer);
      var sequence := Gather(sp.found, originalBuffer, addBuffer);
      RunWindow(pieces, sp, position, len, position < length / 2, originalBuffer, addBuffer);
      return Ok((sequence, sp.start));
    }

    /** The rune at `position`. At the end of the document, a position Go
        accepts, it is the last rune; an empty document has none. */
    method GetAt(position: nat) returns (res: Result<Rune>)
      requires Valid()
      ensures position > length ==> res == Err(OutOfRange)
      ensures position < length ==> res == Ok(Text()[position])
      ensures 0 < position == length ==> res == Ok(Text()[length - 1])
      ensures length == 0 ==> res.Err?
    {
      if position > length {
        return Err(OutOfRange);
      }
      var r := GetSequence(position, 1);
      var (sequence, startPosition) := r.value;
      if |sequence| < 1 {
        return Err(OutOfRange);
      }
      var ch := sequence[0];
      var k, at := 0, startPosition;
      while k < |sequence|
        invariant k <= |sequence| && at == startPosition + k <= position
        invariant 0 < k ==> ch == sequence[k - 1]
      {
        ch := sequence[k];
        if position == at {
          break;
        }
        at := at + 1;
        k := k + 1;
      }
      return Ok(ch);
    }

    /** The document between two newlines, then a line with a caret at
        byte column `position` and spaces in every other column the framed
        document has bytes for but one, then the label and the position in
        decimal. Every rune takes at least one byte, so the caret is always
        drawn; it stands under the rune at `position` when the runes before
        it are ASCII. */
    method PrintPosition(position: nat) returns (res: Result<seq<byte>>)
      requires Valid()
      ensures position > length ==> res == Err(OutOfRange)
      ensures position <= length ==> res.Ok?
      ensures res.Ok? ==>
        var head := [10 as byte] + ToString() + [10];
        && position < |head| - 1
        && |res.value| == 2 * |head| - 1 + |PositionLabel| + |Itoa(position)|
        && res.value[..|head|] == head
        && (forall i | 0 <= i < |head| - 1 :: res.value[|head|..][i] == if i == position then 94 else 32)
        && res.value[2 * |head| - 1..] == PositionLabel + Itoa(position)
    {
      if position > length {
        return Err(OutOfRange);
      }
      EncodeLength(Text());
      var head := [10 as byte] + ToString() + [10];
      var str := Caret(head, position);
      var suffix := PositionLabel + Itoa(position);
      CaretThenLabel(head, str, suffix, position);
      return Ok(str + suffix);
    }
  }

  /** `head`, then a line with a caret in column `position` and a space in
      every other column `head` has bytes for but one. */
  method Caret(head: seq<byte>, position: nat) returns (str: seq<byte>)
    requires 1 <= |head|
    ensures |str| == 2 * |head| - 1 && str[..|head|] == head
    ensures forall i | 0 <= i < |head| - 1 :: str[|head|..][i] == if i == position then 94 else 32
  {
    str := head;
    ghost var marks := [];
    var n := |str| - 1;
    var i := 0;
    while i < n
      invariant 0 <= i <= n && str == head + marks && |marks| == i
      invariant forall j | 0 <= j < i :: marks[j] == if j == position then 94 else 32
    {
      if i != position {
        str, marks := str + [32], marks + [32];
      } else {
        str, marks := str + [94], marks + [94];
      }
      i := i + 1;
    }
    assert str[|head|..] == marks;
  }

  /** Text after the caret line leaves the line as it was. */
  lemma {:induction false} CaretThenLabel(head: seq<byte>, str: seq<byte>, suffix: seq<byte>, position: nat)
    requires 1 <= |head| && |str| == 2 * |head| - 1 && str[..|head|] == head
    requires forall i | 0 <= i < |head| - 1 :: str[|head|..][i] == if i == position then 94 else 32
    ensures |str + suffix| == 2 * |head| - 1 + |suffix| && (str + suffix)[..|head|] == head
    ensures forall i | 0 <= i < |head| - 1 :: (str + suffix)[|head|..][i] == if i == position then 94 else 32
    ensures (str + suffix)[2 * |head| - 1..] == suffix
  {
    assert (str + suffix)[|head|..][..|head| - 1] == str[|head|..];
    assert (str + suffix)[..|head|] == str[..|head|];
  }

  /** "Position: " in ASCII. */
  const PositionLabel: seq<byte> := [80, 111, 115, 105, 116, 105, 111, 110, 58, 32]
}
