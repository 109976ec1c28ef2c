/** The pieces of the byte table of the `piecetable` package. A piece
    covers a slice of the original or of the add buffer and records it
    twice: in bytes (`byteStart`, `byteLength`), which is how the buffers
    are sliced, and in runes (`runeStart`, `runeLength`), which is how
    the editor addresses the document. Both buffers hold well-formed UTF-8
    (RFC 3629), and every piece covers whole codepoints. */
module BytePieces {
  import opened Utf8
  import opened Spans

  /** A piece of the byte table. */
  datatype Piece = Piece(byteStart: nat, runeStart: nat, byteLength: nat, runeLength: nat, isOriginal: bool)

  /** The bytes a piece covers, as a slice of its buffer. */
  function Bytes(p: Piece): Spans.Piece {
    Spans.Piece(p.byteStart, p.byteLength, p.isOriginal)
  }

  /** The byte slices of the first `n` pieces. */
  function BytesOf(ps: seq<Piece>, n: nat): (r: seq<Spans.Piece>)
    requires n <= |ps|
    ensures |r| == n && forall i :: 0 <= i < n ==> r[i] == Bytes(ps[i])
  {
    if n == 0 then [] else BytesOf(ps, n - 1) + [Bytes(ps[n - 1])]
  }

  /** The byte slices of a list of pieces. */
  function ByteSpans(ps: seq<Piece>): (r: seq<Spans.Piece>)
    ensures |r| == |ps| && forall i :: 0 <= i < |ps| ==> r[i] == Bytes(ps[i])
  {
    BytesOf(ps, |ps|)
  }

  /** The bytes of one piece (Go's `PieceSequence` over the whole piece). */
  function PieceText(p: Piece, original: seq<byte>, add: seq<byte>): seq<byte> {
    Slice(Bytes(p), original, add)
  }

  /** The bytes a list of pieces stands for, front to back. */
  function Text(ps: seq<Piece>, original: seq<byte>, add: seq<byte>): seq<byte> {
    Concat(ByteSpans(ps), original, add)
  }

  /** The codepoints a piece covers, as a span of its buffer's codepoints. */
  function Codepoints(p: Piece): Spans.Piece {
    Spans.Piece(p.runeStart, p.runeLength, p.isOriginal)
  }

  /** The codepoint spans of the first `n` pieces. */
  function CodepointsOf(ps: seq<Piece>, n: nat): (r: seq<Spans.Piece>)
    requires n <= |ps|
    ensures |r| == n && forall i :: 0 <= i < n ==> r[i] == Codepoints(ps[i])
  {
    if n == 0 then [] else CodepointsOf(ps, n - 1) + [Codepoints(ps[n - 1])]
  }

  /** The codepoint spans of a list of pieces. */
  function RuneSpans(ps: seq<Piece>): (r: seq<Spans.Piece>)
    ensures |r| == |ps| && forall i :: 0 <= i < |ps| ==> r[i] == Codepoints(ps[i])
  {
    CodepointsOf(ps, |ps|)
  }

  /** Document position, in runes, where piece `i` starts. */
  function Runes(ps: seq<Piece>, i: nat): nat
    requires i <= |ps|
  {
    Start(RuneSpans(ps), i)
  }

  /** Document position, in bytes, where piece `i` starts. */
  function ByteStart(ps: seq<Piece>, i: nat): nat
    requires i <= |ps|
  {
    Start(ByteSpans(ps), i)
  }

  function RuneTotal(ps: seq<Piece>): nat {
    Runes(ps, |ps|)
  }

  function ByteTotal(ps: seq<Piece>): nat {
    ByteStart(ps, |ps|)
  }

  /** The two counts of a piece agree: it covers codepoints `runeStart ..
      runeStart + runeLength` of its buffer, and its byte fields are where
      those codepoints start and end. */
  ghost predicate Consistent(p: Piece, original: seq<byte>, add: seq<byte>) {
    var b := Buffer(Bytes(p), original, add);
    && p.runeStart + p.runeLength <= RuneCount(b)
    && p.byteStart == Offset(b, p.runeStart)
    && p.byteStart + p.byteLength == Offset(b, p.runeStart + p.runeLength)
  }

  ghost predicate AllConsistent(ps: seq<Piece>, original: seq<byte>, add: seq<byte>) {
    forall i {:trigger Consistent(ps[i], original, add)} | 0 <= i < |ps| :: Consistent(ps[i], original, add)
  }

  function Min(a: nat, b: nat): nat {
    if a <= b then a else b
  }

  /** Where the rune before codepoint `m` of `s` starts (where the last rune
      starts when `s` is shorter, 0 when there is none). */
  ghost function LastRuneStart(s: seq<byte>, m: nat): (n: nat)
    ensures n <= |s|
  {
    if m == 0 || RuneCount(s) == 0 then 0 else Offset(s, Min(m, RuneCount(s)) - 1)
  }

  lemma {:induction false} ByteSpansAppend(a: seq<Piece>, b: seq<Piece>)
    ensures ByteSpans(a + b) == ByteSpans(a) + ByteSpans(b)
  {
    assert forall i | 0 <= i < |a| + |b| :: ByteSpans(a + b)[i] == (ByteSpans(a) + ByteSpans(b))[i];
  }

  lemma {:induction false} TextAppend(a: seq<Piece>, b: seq<Piece>, original: seq<byte>, add: seq<byte>)
    ensures Text(a + b, original, add) == Text(a, original, add) + Text(b, original, add)
  {
    ByteSpansAppend(a, b);
    ConcatAppend(ByteSpans(a), ByteSpans(b), original, add);
  }

  lemma {:induction false} TextSingle(p: Piece, original: seq<byte>, add: seq<byte>)
    ensures Text([p], original, add) == PieceText(p, original, add)
  {
    assert ByteSpans([p]) == [Bytes(p)];
    ConcatSingle(Bytes(p), original, add);
  }

  /** A consistent piece lies inside its buffer. */
  lemma {:induction false} ConsistentInBuffer(p: Piece, original: seq<byte>, add: seq<byte>)
    requires Consistent(p, original, add)
    ensures InBuffer(Bytes(p), original, add)
    ensures |PieceText(p, original, add)| == p.byteLength
  {
  }

  /** The bytes of a consistent piece are well-formed and hold exactly its
      rune count. */
  lemma {:induction false} PieceWellFormed(p: Piece, original: seq<byte>, add: seq<byte>)
    requires Consistent(p, original, add) && WellFormed(Buffer(Bytes(p), original, add))
    ensures InBuffer(Bytes(p), original, add)
    ensures WellFormed(PieceText(p, original, add))
    ensures RuneCount(PieceText(p, original, add)) == p.runeLength
  {
    var b := Buffer(Bytes(p), original, add);
    Spans.SliceBuffer(Bytes(p), original, add);
    OffsetRange(b, p.runeStart, p.runeStart + p.runeLength);
  }

  /** Inside a consistent piece, the offset of a codepoint within the piece
      and within its buffer differ by the piece's byte start. */
  lemma {:induction false} PieceOffset(p: Piece, original: seq<byte>, add: seq<byte>, m: nat)
    requires Consistent(p, original, add) && WellFormed(Buffer(Bytes(p), original, add))
    requires m <= p.runeLength
    ensures p.byteStart + Offset(PieceText(p, original, add), m) == Offset(Buffer(Bytes(p), original, add), p.runeStart + m)
  {
    var b := Buffer(Bytes(p), original, add);
    var s := PieceText(p, original, add);
    var e := p.byteStart + p.byteLength;
    PieceWellFormed(p, original, add);
    OffsetShift(b, p.runeStart, m);
    Spans.SliceBuffer(Bytes(p), original, add);
    SliceSplit(b, p.byteStart, e);
    OffsetAppendLeft(s, b[e..], m);
  }

  /** One more piece adds its codepoints to the position of the next. */
  lemma {:induction false} RunesStep(ps: seq<Piece>, i: nat, j: nat)
    requires i < |ps| && j == i + 1
    ensures Runes(ps, j) == Runes(ps, i) + ps[i].runeLength
  {
    assert RuneSpans(ps)[i] == Codepoints(ps[i]);
  }

  /** One more piece adds its bytes to the position of the next. */
  lemma {:induction false} BytesStep(ps: seq<Piece>, i: nat, j: nat)
    requires i < |ps| && j == i + 1
    ensures ByteStart(ps, j) == ByteStart(ps, i) + ps[i].byteLength
  {
    assert ByteSpans(ps)[i] == Bytes(ps[i]);
  }

  /** One more piece adds its bytes to the text of a prefix. */
  lemma {:induction false} PrefixStep(ps: seq<Piece>, i: nat, j: nat, original: seq<byte>, add: seq<byte>)
    requires i < |ps| && j == i + 1
    ensures Text(ps[..j], original, add) == Text(ps[..i], original, add) + PieceText(ps[i], original, add)
    ensures ByteStart(ps, j) == ByteStart(ps, i) + ps[i].byteLength
  {
    assert ps[..j] == ps[..i] + [ps[i]];
    TextAppend(ps[..i], [ps[i]], original, add);
    TextSingle(ps[i], original, add);
    assert ByteSpans(ps)[i] == Bytes(ps[i]);
  }

  /** One round of a copy loop: the bytes of piece `i`, taken from the
      buffer it points into, extend the bytes of the pieces before it. */
  lemma {:induction false} CopyStep(ps: seq<Piece>, i: nat, original: seq<byte>, add: seq<byte>, s: seq<byte>)
    requires i < |ps| && InBuffer(Bytes(ps[i]), original, add) && s == Text(ps[..i], original, add)
    ensures ps[i].isOriginal ==> ps[i].byteStart + ps[i].byteLength <= |original|
    ensures !ps[i].isOriginal ==> ps[i].byteStart + ps[i].byteLength <= |add|
    ensures ps[i].isOriginal ==>
      s + original[ps[i].byteStart..ps[i].byteStart + ps[i].byteLength] == Text(ps[..i + 1], original, add)
    ensures !ps[i].isOriginal ==>
      s + add[ps[i].byteStart..ps[i].byteStart + ps[i].byteLength] == Text(ps[..i + 1], original, add)
  {
    Spans.SliceBuffer(Bytes(ps[i]), original, add);
    PrefixStep(ps, i, i + 1, original, add);
  }

  /** The bytes of every piece of `ps`, front to back, each copied from
      the buffer the piece points into. */
  method Join(ps: seq<Piece>, original: seq<byte>, add: seq<byte>) returns (s: seq<byte>)
    requires forall k | 0 <= k < |ps| :: InBuffer(Bytes(ps[k]), original, add)
    ensures s == Text(ps, original, add)
  {
    s := [];
    var i := 0;
    while i < |ps|
      invariant i <= |ps| && s == Text(ps[..i], original, add)
    {
      var piece := ps[i];
      var start, length := piece.byteStart, piece.byteStart + piece.byteLength;
      CopyStep(ps, i, original, add, s);
      if piece.isOriginal {
        s := s + original[start..length];
      } else {
        s := s + add[start..length];
      }
      i := i + 1;
    }
    assert ps[..i] == ps;
  }

  /** The first `i` pieces of a consistent table stand for well-formed
      bytes holding `Runes(ps, i)` codepoints. */
  lemma {:induction false} PrefixFacts(ps: seq<Piece>, i: nat, original: seq<byte>, add: seq<byte>)
    requires WellFormed(original) && WellFormed(add) && AllConsistent(ps, original, add) && i <= |ps|
    ensures WellFormed(Text(ps[..i], original, add))
    ensures RuneCount(Text(ps[..i], original, add)) == Runes(ps, i)
    decreases i
  {
    if i == 0 {
      assert ByteSpans(ps[..0]) == [];
    } else {
      var h := i - 1;
      PrefixFacts(ps, h, original, add);
      PrefixGrow(ps, h, i, original, add);
    }
  }

  /** One more piece keeps the text of a prefix well-formed and adds its
      codepoints. */
  lemma {:induction false} PrefixGrow(ps: seq<Piece>, h: nat, i: nat, original: seq<byte>, add: seq<byte>)
    requires WellFormed(original) && WellFormed(add) && AllConsistent(ps, original, add) && h < |ps| && i == h + 1
    requires WellFormed(Text(ps[..h], original, add)) && RuneCount(Text(ps[..h], original, add)) == Runes(ps, h)
    ensures WellFormed(Text(ps[..i], original, add))
    ensures RuneCount(Text(ps[..i], original, add)) == Runes(ps, i)
  {
    var p := ps[h];
    PrefixStep(ps, h, i, original, add);
    RunesStep(ps, h, i);
    PieceWellFormed(p, original, add);
    AppendWellFormed(Text(ps[..h], original, add), PieceText(p, original, add));
  }

  /** The first `i` pieces of a consistent table stand for `ByteStart(ps,
      i)` bytes. */
  lemma {:induction false} PrefixLength(ps: seq<Piece>, i: nat, original: seq<byte>, add: seq<byte>)
    requires AllConsistent(ps, original, add) && i <= |ps|
    ensures |Text(ps[..i], original, add)| == ByteStart(ps, i)
    decreases i
  {
    if i == 0 {
      assert ByteSpans(ps[..0]) == [];
    } else {
      var h := i - 1;
      PrefixLength(ps, h, original, add);
      PrefixStep(ps, h, i, original, add);
      ConsistentInBuffer(ps[h], original, add);
    }
  }

  /** A consistent table stands for well-formed bytes holding as many
      codepoints and bytes as its pieces add up to. */
  lemma {:induction false} TextFacts(ps: seq<Piece>, original: seq<byte>, add: seq<byte>)
    requires WellFormed(original) && WellFormed(add) && AllConsistent(ps, original, add)
    ensures AllInBuffer(ByteSpans(ps), original, add)
    ensures WellFormed(Text(ps, original, add))
    ensures RuneCount(Text(ps, original, add)) == RuneTotal(ps)
    ensures |Text(ps, original, add)| == ByteTotal(ps)
  {
    PrefixFacts(ps, |ps|, original, add);
    PrefixLength(ps, |ps|, original, add);
    assert ps[..|ps|] == ps;
    forall i | 0 <= i < |ps|
      ensures InBuffer(ByteSpans(ps)[i], original, add)
    {
      ConsistentInBuffer(ps[i], original, add);
    }
  }

  /** The byte spans of a consistent table lie in their buffers. */
  lemma {:induction false} SpansInBuffer(ps: seq<Piece>, original: seq<byte>, add: seq<byte>)
    requires AllConsistent(ps, original, add)
    ensures AllInBuffer(ByteSpans(ps), original, add)
  {
    forall i | 0 <= i < |ps|
      ensures InBuffer(ByteSpans(ps)[i], original, add)
    {
      ConsistentInBuffer(ps[i], original, add);
    }
  }

  /** The text of a table split around piece `k`: the text `x` before it,
      the bytes `y` of the piece and the text `z` after it. */
  lemma {:induction false} Around(ps: seq<Piece>, k: nat, original: seq<byte>, add: seq<byte>) returns (x: seq<byte>, y: seq<byte>, z: seq<byte>)
    requires WellFormed(original) && WellFormed(add) && AllConsistent(ps, original, add) && k < |ps|
    ensures Text(ps, original, add) == x + (y + z)
    ensures WellFormed(x) && RuneCount(x) == Runes(ps, k) && |x| == ByteStart(ps, k)
    ensures y == PieceText(ps[k], original, add) && WellFormed(y) && RuneCount(y) == ps[k].runeLength
  {
    var a, b := ps[..k], ps[k + 1..];
    x, y, z := Text(a, original, add), PieceText(ps[k], original, add), Text(b, original, add);
    SplitAt(ps, k, a, b);
    TextAround(ps, a, ps[k], b, original, add);
    PrefixFacts(ps, k, original, add);
    PrefixLength(ps, k, original, add);
    PieceWellFormed(ps[k], original, add);
  }

  /** A list cut around element `k`. */
  lemma {:induction false} SplitAt<T>(ps: seq<T>, k: nat, a: seq<T>, b: seq<T>)
    requires k < |ps| && a == ps[..k] && b == ps[k + 1..]
    ensures ps == a + ([ps[k]] + b)
  {
  }

  /** The text of pieces `a`, then `p`, then `b`. */
  lemma {:induction false} TextAround(ps: seq<Piece>, a: seq<Piece>, p: Piece, b: seq<Piece>, original: seq<byte>, add: seq<byte>)
    requires ps == a + ([p] + b)
    ensures Text(ps, original, add) == Text(a, original, add) + (PieceText(p, original, add) + Text(b, original, add))
  {
    TextAppend(a, [p] + b, original, add);
    TextAppend([p], b, original, add);
    TextSingle(p, original, add);
  }

  /** A position inside piece `k`, `m` codepoints in, lies in the document
      at the piece's byte start plus the offset of codepoint `m` within the
      piece. */
  lemma {:induction false} DocOffset(ps: seq<Piece>, k: nat, m: nat, p: nat, original: seq<byte>, add: seq<byte>)
    requires WellFormed(original) && WellFormed(add) && AllConsistent(ps, original, add)
    requires k < |ps| && m <= ps[k].runeLength && p == Runes(ps, k) + m
    ensures Offset(Text(ps, original, add), p) == ByteStart(ps, k) + Offset(PieceText(ps[k], original, add), m)
  {
    var x, y, z := Around(ps, k, original, add);
    OffsetInPart(Text(ps, original, add), x, y, z, Runes(ps, k), ByteStart(ps, k), m, p);
  }

  /** Piece `i` starts in the document at the byte offset of the codepoint
      where it starts. */
  lemma {:induction false} BoundaryOffset(ps: seq<Piece>, i: nat, original: seq<byte>, add: seq<byte>)
    requires WellFormed(original) && WellFormed(add) && AllConsistent(ps, original, add) && i <= |ps|
    ensures Offset(Text(ps, original, add), Runes(ps, i)) == ByteStart(ps, i)
  {
    if i < |ps| {
      DocOffset(ps, i, 0, Runes(ps, i), original, add);
    } else {
      TextFacts(ps, original, add);
      OffsetEnd(Text(ps, original, add), Runes(ps, i));
    }
  }

  /** The text of a table cut before pieces `k` and `e`. */
  lemma {:induction false} ThreeParts(ps: seq<Piece>, k: nat, e: nat, original: seq<byte>, add: seq<byte>)
    requires k <= e <= |ps|
    ensures Text(ps, original, add)
         == Text(ps[..k], original, add) + (Text(ps[k..e], original, add) + Text(ps[e..], original, add))
  {
    assert ps == ps[..k] + (ps[k..e] + ps[e..]);
    TextAppend(ps[..k], ps[k..e] + ps[e..], original, add);
    TextAppend(ps[k..e], ps[e..], original, add);
  }

  /** The text of pieces `k` to `e`, between the text before and after it:
      well-formed, with the codepoints and bytes between the two starts. */
  lemma {:induction false} Window(ps: seq<Piece>, k: nat, e: nat, original: seq<byte>, add: seq<byte>)
    returns (x: seq<byte>, y: seq<byte>, z: seq<byte>)
    requires WellFormed(original) && WellFormed(add) && AllConsistent(ps, original, add) && k <= e <= |ps|
    ensures Text(ps, original, add) == x + (y + z) && y == Text(ps[k..e], original, add)
    ensures WellFormed(x) && RuneCount(x) == Runes(ps, k) && |x| == ByteStart(ps, k)
    ensures WellFormed(y) && Runes(ps, k) + RuneCount(y) == Runes(ps, e) && ByteStart(ps, k) + |y| == ByteStart(ps, e)
    ensures e == |ps| ==> z == []
  {
    x, y, z := Text(ps[..k], original, add), Text(ps[k..e], original, add), Text(ps[e..], original, add);
    ThreeParts(ps, k, e, original, add);
    PrefixFacts(ps, k, original, add);
    PrefixLength(ps, k, original, add);
    SliceFacts(ps, k, e, original, add);
    if e == |ps| {
      assert ByteSpans(ps[e..]) == [];
    }
  }

  /** The pieces from `k` to `e` stand for well-formed bytes holding the
      codepoints and bytes between the two starts. */
  lemma {:induction false} SliceFacts(ps: seq<Piece>, k: nat, e: nat, original: seq<byte>, add: seq<byte>)
    requires WellFormed(original) && WellFormed(add) && AllConsistent(ps, original, add) && k <= e <= |ps|
    ensures WellFormed(Text(ps[k..e], original, add))
    ensures Runes(ps, k) + RuneCount(Text(ps[k..e], original, add)) == Runes(ps, e)
    ensures ByteStart(ps, k) + |Text(ps[k..e], original, add)| == ByteStart(ps, e)
  {
    assert AllConsistent(ps[k..e], original, add);
    TextFacts(ps[k..e], original, add);
    SliceTotals(ps, k, e);
  }

  /** The pieces from `k` to `e` add up to the codepoints and bytes
      between the two starts. */
  lemma {:induction false} SliceTotals(ps: seq<Piece>, k: nat, e: nat)
    requires k <= e <= |ps|
    ensures Runes(ps, k) + RuneTotal(ps[k..e]) == Runes(ps, e)
    ensures ByteStart(ps, k) + ByteTotal(ps[k..e]) == ByteStart(ps, e)
  {
    assert RuneSpans(ps[k..e]) == RuneSpans(ps)[k..e];
    assert ByteSpans(ps[k..e]) == ByteSpans(ps)[k..e];
    StartWindow(RuneSpans(ps), k, e);
    StartWindow(ByteSpans(ps), k, e);
  }

  /** A position `m` codepoints into the run of pieces `k` to `e` lies in
      the document at the run's byte start plus the offset of codepoint
      `m` in the run's text: inside the run, or anywhere when the run goes
      to the end of the document. */
  lemma {:induction false} RunOffset(ps: seq<Piece>, k: nat, e: nat, m: nat, p: nat, original: seq<byte>, add: seq<byte>)
    requires WellFormed(original) && WellFormed(add) && AllConsistent(ps, original, add) && k <= e <= |ps|
    requires p == Runes(ps, k) + m && (p <= Runes(ps, e) || e == |ps|)
    ensures Offset(Text(ps, original, add), p) == ByteStart(ps, k) + Offset(Text(ps[k..e], original, add), m)
  {
    var x, y, z := Window(ps, k, e, original, add);
    OffsetInPart(Text(ps, original, add), x, y, z, Runes(ps, k), ByteStart(ps, k), m, p);
  }

  /** The first `m` codepoints of a piece, `d` bytes. */
  function HeadOf(p: Piece, m: nat, d: nat): Piece
    requires m <= p.runeLength && d <= p.byteLength
  {
    p.(byteLength := d, runeLength := m)
  }

  /** A piece without its first `m` codepoints, `d` bytes. */
  function RestOf(p: Piece, m: nat, d: nat): Piece
    requires m <= p.runeLength && d <= p.byteLength
  {
    Piece.Piece(p.byteStart + d, p.runeStart + m, p.byteLength - d, p.runeLength - m, p.isOriginal)
  }

  /** Cutting a consistent piece at a codepoint, at the byte offset of that
      codepoint, leaves two consistent pieces whose byte slices are the two
      parts of the piece's slice. */
  lemma {:induction false} Halves(p: Piece, m: nat, d: nat, original: seq<byte>, add: seq<byte>)
    requires Consistent(p, original, add) && WellFormed(Buffer(Bytes(p), original, add))
    requires m <= p.runeLength && d == Offset(PieceText(p, original, add), m)
    ensures d <= p.byteLength
    ensures Consistent(HeadOf(p, m, d), original, add) && Consistent(RestOf(p, m, d), original, add)
    ensures Bytes(HeadOf(p, m, d)) == Head(Bytes(p), d) && Bytes(RestOf(p, m, d)) == Rest(Bytes(p), d)
  {
    ConsistentInBuffer(p, original, add);
    PieceOffset(p, original, add, m);
    assert (p.runeStart + m) + (p.runeLength - m) == p.runeStart + p.runeLength;
  }

  /** Appending to the add buffer keeps a consistent piece consistent and
      its bytes unchanged. */
  lemma {:induction false} ConsistentGrow(p: Piece, original: seq<byte>, add: seq<byte>, more: seq<byte>)
    requires Consistent(p, original, add) && WellFormed(add) && WellFormed(more)
    ensures Consistent(p, original, add + more)
    ensures PieceText(p, original, add + more) == PieceText(p, original, add)
  {
    ConsistentInBuffer(p, original, add);
    if !p.isOriginal {
      AppendWellFormed(add, more);
      OffsetAppendLeft(add, more, p.runeStart);
      OffsetAppendLeft(add, more, p.runeStart + p.runeLength);
      assert (add + more)[p.byteStart..p.byteStart + p.byteLength] == add[p.byteStart..p.byteStart + p.byteLength];
      assert Spans.Extends(add, add + more);
      Spans.SliceGrow(Bytes(p), original, add, add + more);
    }
  }

  /** Appending to the add buffer keeps a consistent table consistent and
      its text unchanged. */
  lemma {:induction false} TableGrow(ps: seq<Piece>, original: seq<byte>, add: seq<byte>, more: seq<byte>)
    requires WellFormed(original) && WellFormed(add) && WellFormed(more) && AllConsistent(ps, original, add)
    ensures AllConsistent(ps, original, add + more)
    ensures Text(ps, original, add + more) == Text(ps, original, add)
  {
    forall i | 0 <= i < |ps|
      ensures Consistent(ps[i], original, add + more)
    {
      ConsistentGrow(ps[i], original, add, more);
    }
    TextFacts(ps, original, add);
    ConcatGrow(ByteSpans(ps), original, add, more);
  }

  /** The piece for text appended to the add buffer is consistent and
      covers exactly that text. */
  lemma {:induction false} Appended(add: seq<byte>, text: seq<byte>, original: seq<byte>)
    requires WellFormed(add) && WellFormed(text)
    ensures Consistent(Piece.Piece(|add|, RuneCount(add), |text|, RuneCount(text), false), original, add + text)
    ensures PieceText(Piece.Piece(|add|, RuneCount(add), |text|, RuneCount(text), false), original, add + text) == text
  {
    AppendBounds(add, text, RuneCount(add), RuneCount(add) + RuneCount(text));
    Spans.SliceBuffer(Bytes(Piece.Piece(|add|, RuneCount(add), |text|, RuneCount(text), false)), original, add + text);
    assert (add + text)[|add|..|add| + |text|] == text;
  }

  lemma {:induction false} SpansUpdate(ps: seq<Piece>, k: nat, p: Piece)
    requires k < |ps|
    ensures ByteSpans(ps[k := p]) == ByteSpans(ps)[k := Bytes(p)]
  {
  }

  lemma {:induction false} SpansInsert(ps: seq<Piece>, i: nat, p: Piece)
    requires i <= |ps|
    ensures ByteSpans(InsertAt(ps, i, p)) == InsertAt(ByteSpans(ps), i, Bytes(p))
  {
    assert forall j | 0 <= j < |ps| + 1 :: ByteSpans(InsertAt(ps, i, p))[j] == InsertAt(ByteSpans(ps), i, Bytes(p))[j];
  }

  /** A run of pieces of a consistent table is consistent. */
  lemma {:induction false} ConsistentSlice(ps: seq<Piece>, k: nat, e: nat, original: seq<byte>, add: seq<byte>)
    requires AllConsistent(ps, original, add) && k <= e <= |ps|
    ensures AllConsistent(ps[k..e], original, add)
  {
    forall i | 0 <= i < e - k
      ensures Consistent(ps[k..e][i], original, add)
    {
      assert ps[k..e][i] == ps[k + i];
      assert Consistent(ps[k + i], original, add);
    }
  }
}
