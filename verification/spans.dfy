/** Pieces of text: slices of one of two buffers, the original text and
    the add buffer, and the text a list of pieces stands for. Generic over
    the element type, so that the same definitions serve a table of runes
    and a table of bytes. */
module Spans {
  /** A slice `start .. start + length` of the original buffer
      (`isOriginal`) or of the add buffer. */
  datatype Piece = Piece(start: nat, length: nat, isOriginal: bool)

  /** The buffer a piece slices. */
  function Buffer<T>(p: Piece, original: seq<T>, add: seq<T>): seq<T> {
    if p.isOriginal then original else add
  }

  predicate InBuffer<T>(p: Piece, original: seq<T>, add: seq<T>) {
    p.start + p.length <= |Buffer(p, original, add)|
  }

  predicate AllInBuffer<T>(ps: seq<Piece>, original: seq<T>, add: seq<T>) {
    forall i | 0 <= i < |ps| :: InBuffer(ps[i], original, add)
  }

  /** The elements a piece stands for. Only pieces inside their buffer are
      ever sliced (Go would panic on any other); the model gives the others
      no elements. */
  function Slice<T>(p: Piece, original: seq<T>, add: seq<T>): (s: seq<T>)
    ensures InBuffer(p, original, add) ==> |s| == p.length
  {
    if InBuffer(p, original, add) then Sub(Buffer(p, original, add), p.start, p.start + p.length) else []
  }

  /** The elements `s .. e` of `b`, element by element. */
  function Sub<T>(b: seq<T>, s: nat, e: nat): (r: seq<T>)
    requires s <= e <= |b|
    ensures |r| == e - s
    decreases e - s
  {
    if s == e then [] else Sub(b, s, e - 1) + [b[e - 1]]
  }

  /** Element `i` of `Sub(b, s, e)` is element `s + i` of `b`. */
  lemma {:induction false} SubIndex<T>(b: seq<T>, s: nat, e: nat)
    requires s <= e <= |b|
    ensures forall i | 0 <= i < e - s :: Sub(b, s, e)[i] == b[s + i]
    decreases e - s
  {
    if s < e {
      SubIndex(b, s, e - 1);
      var r, h := Sub(b, s, e), Sub(b, s, e - 1);
      assert r == h + [b[e - 1]];
      assert forall i | 0 <= i < e - 1 - s :: r[i] == h[i];
    }
  }

  /** `Sub` is the slice `b[s..e]`. */
  lemma {:induction false} SubSlice<T>(b: seq<T>, s: nat, e: nat)
    requires s <= e <= |b|
    ensures Sub(b, s, e) == b[s..e]
  {
    SubIndex(b, s, e);
    assert forall i | 0 <= i < e - s :: b[s..e][i] == b[s + i];
  }

  /** A piece inside its buffer stands for the slice `start .. start +
      length` of that buffer. */
  lemma {:induction false} SliceBuffer<T>(p: Piece, original: seq<T>, add: seq<T>)
    requires InBuffer(p, original, add)
    ensures Slice(p, original, add) == Buffer(p, original, add)[p.start..p.start + p.length]
  {
    SubSlice(Buffer(p, original, add), p.start, p.start + p.length);
  }

  /** The text of the first `i` pieces of `ps`, front to back. */
  function TextOf<T>(ps: seq<Piece>, i: nat, original: seq<T>, add: seq<T>): seq<T>
    requires i <= |ps|
  {
    if i == 0 then [] else TextOf(ps, i - 1, original, add) + Slice(ps[i - 1], original, add)
  }

  /** The text a run of pieces stands for. */
  function Concat<T>(ps: seq<Piece>, original: seq<T>, add: seq<T>): seq<T> {
    TextOf(ps, |ps|, original, add)
  }

  /** Document position where piece `i` starts: the sum of the lengths of
      the pieces before it; for `i == |ps|` the length of the document. */
  function Start(ps: seq<Piece>, i: nat): nat
    requires i <= |ps|
  {
    if i == 0 then 0 else Start(ps, i - 1) + ps[i - 1].length
  }

  /** The sum of the lengths of a run of pieces. */
  function Total(ps: seq<Piece>): nat {
    Start(ps, |ps|)
  }

  /** Starts depend only on the pieces before them. */
  lemma {:induction false} StartPrefix(ps: seq<Piece>, k: nat, i: nat)
    requires i <= k <= |ps|
    ensures Start(ps[..k], i) == Start(ps, i)
  {
    if i > 0 {
      StartPrefix(ps, k, i - 1);
    }
  }

  lemma {:induction false} SameStart(ps: seq<Piece>, i: nat, j: nat)
    requires i == j <= |ps|
    ensures Start(ps, i) == Start(ps, j)
  {
  }

  /** Starts never decrease. */
  lemma {:induction false} StartMonotone(ps: seq<Piece>, i: nat, j: nat)
    requires i <= j <= |ps|
    ensures Start(ps, i) <= Start(ps, j)
    decreases j
  {
    if i < j {
      StartMonotone(ps, i, j - 1);
    }
  }

  lemma {:induction false} StartAppendLeft(a: seq<Piece>, b: seq<Piece>, i: nat)
    requires i <= |a|
    ensures Start(a + b, i) == Start(a, i)
  {
    if i > 0 {
      StartAppendLeft(a, b, i - 1);
      assert (a + b)[i - 1] == a[i - 1];
    }
  }

  /** Inside the second of two runs side by side, starts are shifted by the
      length of the first. */
  lemma {:induction false} StartAppend(a: seq<Piece>, b: seq<Piece>, i: nat)
    requires i <= |b|
    ensures Start(a + b, |a| + i) == Total(a) + Start(b, i)
  {
    if i == 0 {
      StartAppendLeft(a, b, |a|);
    } else {
      StartAppend(a, b, i - 1);
      assert (a + b)[|a| + i - 1] == b[i - 1];
    }
  }

  lemma {:induction false} TotalAppend(a: seq<Piece>, b: seq<Piece>)
    ensures Total(a + b) == Total(a) + Total(b)
  {
    StartAppend(a, b, |b|);
  }

  /** The pieces from `k` to `e` add up to the distance between their
      starts. */
  lemma {:induction false} StartWindow(ps: seq<Piece>, k: nat, e: nat)
    requires k <= e <= |ps|
    ensures Start(ps, k) + Total(ps[k..e]) == Start(ps, e)
  {
    assert ps[..e] == ps[..k] + ps[k..e];
    TotalAppend(ps[..k], ps[k..e]);
    StartPrefix(ps, e, e);
    StartPrefix(ps, k, k);
  }

  lemma {:induction false} TextOfLength<T>(ps: seq<Piece>, i: nat, original: seq<T>, add: seq<T>)
    requires i <= |ps| && AllInBuffer(ps, original, add)
    ensures |TextOf(ps, i, original, add)| == Start(ps, i)
  {
    if i > 0 {
      TextOfLength(ps, i - 1, original, add);
      assert InBuffer(ps[i - 1], original, add);
    }
  }

  /** A run of pieces inside its buffers stands for as many elements as the
      sum of its lengths. */
  lemma {:induction false} ConcatLength<T>(ps: seq<Piece>, original: seq<T>, add: seq<T>)
    requires AllInBuffer(ps, original, add)
    ensures |Concat(ps, original, add)| == Total(ps)
  {
    TextOfLength(ps, |ps|, original, add);
  }

  lemma {:induction false} TextOfAppendLeft<T>(a: seq<Piece>, b: seq<Piece>, i: nat, original: seq<T>, add: seq<T>)
    requires i <= |a|
    ensures TextOf(a + b, i, original, add) == TextOf(a, i, original, add)
  {
    if i > 0 {
      TextOfAppendLeft(a, b, i - 1, original, add);
      assert (a + b)[i - 1] == a[i - 1];
    }
  }

  /** The text of two runs side by side is the two texts side by side. */
  lemma {:induction false} ConcatAppend<T>(a: seq<Piece>, b: seq<Piece>, original: seq<T>, add: seq<T>)
    ensures Concat(a + b, original, add) == Concat(a, original, add) + Concat(b, original, add)
  {
    var ps := a + b;
    TextOfAppendLeft(a, b, |a|, original, add);
    assert forall i | 0 <= i < |b| :: b[i] == ps[|a| + i];
    TextOfRun(ps, b, |a|, |b|, |ps|, original, add);
  }

  lemma {:induction false} AllInBufferAppend<T>(a: seq<Piece>, b: seq<Piece>, original: seq<T>, add: seq<T>)
    requires AllInBuffer(a, original, add) && AllInBuffer(b, original, add)
    ensures AllInBuffer(a + b, original, add)
  {
    forall i | 0 <= i < |a + b|
      ensures InBuffer((a + b)[i], original, add)
    {
      if i < |a| {
        assert (a + b)[i] == a[i];
      } else {
        assert (a + b)[i] == b[i - |a|];
      }
    }
  }

  lemma {:induction false} AllInBufferSlice<T>(ps: seq<Piece>, i: nat, j: nat, original: seq<T>, add: seq<T>)
    requires i <= j <= |ps| && AllInBuffer(ps, original, add)
    ensures AllInBuffer(ps[i..j], original, add)
  {
    forall k | 0 <= k < j - i
      ensures InBuffer(ps[i..j][k], original, add)
    {
      assert ps[i..j][k] == ps[i + k];
    }
  }

  /** `big` starts with the elements of `b`. */
  ghost predicate Extends<T>(b: seq<T>, big: seq<T>) {
    |b| <= |big| && forall j | 0 <= j < |b| :: big[j] == b[j]
  }

  lemma {:induction false} TextOfGrow<T>(ps: seq<Piece>, i: nat, original: seq<T>, add: seq<T>, big: seq<T>)
    requires i <= |ps| && AllInBuffer(ps, original, add) && Extends(add, big)
    ensures TextOf(ps, i, original, big) == TextOf(ps, i, original, add)
  {
    if i > 0 {
      var h := i - 1;
      TextOfGrow(ps, h, original, add, big);
      TextOfStep(ps, i, h, original, big);
      TextOfStep(ps, i, h, original, add);
      GrowStep(TextOf(ps, h, original, big), TextOf(ps, h, original, add), ps[h], original, add, big);
    }
  }

  /** The text of the first `i` pieces is that of the first `i - 1` and the
      elements of piece `i - 1`. */
  lemma {:induction false} TextOfStep<T>(ps: seq<Piece>, i: nat, h: nat, original: seq<T>, add: seq<T>)
    requires 0 < i <= |ps| && h == i - 1
    ensures TextOf(ps, i, original, add) == TextOf(ps, h, original, add) + Slice(ps[h], original, add)
  {
  }

  lemma {:induction false} GrowStep<T>(x: seq<T>, y: seq<T>, p: Piece, original: seq<T>, add: seq<T>, big: seq<T>)
    requires x == y && InBuffer(p, original, add) && Extends(add, big)
    ensures x + Slice(p, original, big) == y + Slice(p, original, add)
  {
    SliceGrow(p, original, add, big);
  }

  /** Growing the add buffer leaves the elements of a piece inside the
      buffers alone. */
  lemma {:induction false} SliceGrow<T>(p: Piece, original: seq<T>, add: seq<T>, big: seq<T>)
    requires InBuffer(p, original, add) && Extends(add, big)
    ensures Slice(p, original, big) == Slice(p, original, add)
  {
    if !p.isOriginal {
      SubGrow(add, big, p.start, p.start + p.length);
    }
  }

  lemma {:induction false} SubGrow<T>(b: seq<T>, big: seq<T>, s: nat, e: nat)
    requires s <= e <= |b| && Extends(b, big)
    ensures Sub(big, s, e) == Sub(b, s, e)
  {
    SubIndex(big, s, e);
    SubIndex(b, s, e);
    assert forall i | 0 <= i < e - s :: Sub(big, s, e)[i] == big[s + i] == b[s + i];
  }

  /** Cutting `b[s..e]` at `m`. */
  lemma {:induction false} SubSplit<T>(b: seq<T>, s: nat, m: nat, e: nat)
    requires s <= m <= e <= |b|
    ensures Sub(b, s, m) == Sub(b, s, e)[..m - s]
    ensures Sub(b, m, e) == Sub(b, s, e)[m - s..]
    ensures Sub(b, s, e) == Sub(b, s, m) + Sub(b, m, e)
  {
    var x, y, z := Sub(b, s, e), Sub(b, s, m), Sub(b, m, e);
    SubIndex(b, s, e);
    SubIndex(b, s, m);
    SubIndex(b, m, e);
    assert forall i | 0 <= i < m - s :: y[i] == x[i];
    assert forall i | 0 <= i < e - m :: z[i] == x[m - s + i];
    assert x == x[..m - s] + x[m - s..];
  }

  /** Appending to the add buffer leaves the text of existing pieces alone. */
  lemma {:induction false} ConcatGrow<T>(ps: seq<Piece>, original: seq<T>, add: seq<T>, more: seq<T>)
    requires AllInBuffer(ps, original, add)
    ensures AllInBuffer(ps, original, add + more)
    ensures Concat(ps, original, add + more) == Concat(ps, original, add)
  {
    assert Extends(add, add + more);
    TextOfGrow(ps, |ps|, original, add, add + more);
  }

  lemma {:induction false} TextOfRun<T>(ps: seq<Piece>, run: seq<Piece>, a: nat, j: nat, e: nat, original: seq<T>, add: seq<T>)
    requires j <= |run| && a + |run| <= |ps| && e == a + j
    requires forall i | 0 <= i < |run| :: run[i] == ps[a + i]
    ensures TextOf(ps, a, original, add) + TextOf(run, j, original, add) == TextOf(ps, e, original, add)
  {
    if j > 0 {
      var h, d := j - 1, e - 1;
      TextOfRun(ps, run, a, h, d, original, add);
      assert run[h] == ps[d];
      var z := Slice(run[h], original, add);
      AppendStep(TextOf(ps, a, original, add), TextOf(run, h, original, add), z, TextOf(ps, d, original, add));
    }
  }

  /** Appending the same string to both sides of an equation. */
  lemma {:induction false} AppendStep<T>(x: seq<T>, y: seq<T>, z: seq<T>, w: seq<T>)
    requires x + y == w
    ensures x + (y + z) == w + z
  {
    Assoc(x, y, z);
  }

  /** The text of the pieces a .. b is the document between the start of
      piece a and the start of piece b. */
  lemma {:induction false} ConcatWindow<T>(ps: seq<Piece>, run: seq<Piece>, a: nat, b: nat, original: seq<T>, add: seq<T>)
    requires a + |run| == b <= |ps| && AllInBuffer(ps, original, add)
    requires forall i | 0 <= i < |run| :: run[i] == ps[a + i]
    ensures Start(ps, a) + |Concat(run, original, add)| == Start(ps, b) <= |Concat(ps, original, add)|
    ensures Concat(run, original, add)
         == Concat(ps, original, add)[Start(ps, a)..Start(ps, a) + |Concat(run, original, add)|]
  {
    var tail := ps[b..];
    var x, y, z := TextOf(ps, a, original, add), Concat(run, original, add), Concat(tail, original, add);
    TextOfRun(ps, run, a, |run|, b, original, add);
    TextOfRun(ps, tail, b, |tail|, |ps|, original, add);
    TextOfLength(ps, a, original, add);
    TextOfLength(ps, b, original, add);
    Middle(x, y, z, Start(ps, a));
  }

  /** A slice, element by element. */
  lemma {:induction false} Elements<T>(s: seq<T>, part: seq<T>, a: nat)
    requires a + |part| <= |s| && part == s[a..a + |part|]
    ensures forall i | 0 <= i < |part| :: part[i] == s[a + i]
  {
  }

  /** Part of a slice is a slice of the whole. */
  lemma {:induction false} SliceOfSlice<T>(b: seq<T>, s: nat, l: nat, o: nat, c: nat)
    requires s + l <= |b| && o + c <= l
    ensures b[s..s + l][o..o + c] == b[s + o..s + o + c]
  {
    var x, y := b[s..s + l][o..o + c], b[s + o..s + o + c];
    forall i | 0 <= i < c
      ensures x[i] == y[i]
    {
    }
    assert x == y;
  }

  /** The elements from `i` on are those up to `j` followed by the rest. */
  lemma {:induction false} SliceSplit<T>(b: seq<T>, i: nat, j: nat)
    requires i <= j <= |b|
    ensures b[i..] == b[i..j] + b[j..]
  {
  }

  lemma {:induction false} Assoc<T>(x: seq<T>, y: seq<T>, z: seq<T>)
    ensures (x + y) + z == x + (y + z)
  {
  }

  /** The middle of three strings side by side. */
  lemma {:induction false} Middle<T>(x: seq<T>, y: seq<T>, z: seq<T>, i: nat)
    requires i == |x|
    ensures (x + y + z)[i..i + |y|] == y
  {
  }

  /** Inserting `m` at offset `i` of `x + y`, where `x` is `i` long. */
  lemma {:induction false} Inserted<T>(x: seq<T>, y: seq<T>, m: seq<T>, i: nat)
    requires i == |x|
    ensures (x + y)[..i] + m + (x + y)[i..] == (x + m) + y
  {
    assert (x + y)[..i] == x && (x + y)[i..] == y;
  }

  /** Inserting `m` between the halves `l` and `r` of a middle part. */
  lemma {:induction false} Spliced<T>(x: seq<T>, l: seq<T>, r: seq<T>, z: seq<T>, m: seq<T>, i: nat)
    requires i == |x| + |l|
    ensures (x + ((l + r) + z))[..i] + m + (x + ((l + r) + z))[i..] == x + (((l + m) + r) + z)
  {
    var t := x + ((l + r) + z);
    assert t[..i] == x + l;
    assert t[i..] == r + z;
  }

  /** The pieces after the list's `InsertAt(p, i)`. */
  function InsertAt<P>(ps: seq<P>, i: nat, p: P): seq<P>
    requires i <= |ps|
  {
    ps[..i] + [p] + ps[i..]
  }

  /** `r` is `ps` with `p` put in slot `i`: the elements before the slot
      stay, and the ones from it on move up by one. */
  ghost predicate PutAt<P>(ps: seq<P>, r: seq<P>, i: nat, p: P) {
    && i <= |ps| && |r| == |ps| + 1
    && r[..i] == ps[..i] && r[i] == p && r[i + 1..] == ps[i..]
  }

  /** `r` is `ps` with element `k` replaced by `left`, `p` and `right`, in
      that order. */
  ghost predicate SplitAt<P>(ps: seq<P>, r: seq<P>, k: nat, left: P, p: P, right: P) {
    && k < |ps| && |r| == |ps| + 2
    && r[..k] == ps[..k] && r[k] == left && r[k + 1] == p && r[k + 2] == right && r[k + 3..] == ps[k + 1..]
  }

  lemma {:induction false} InsertAtShape<P>(ps: seq<P>, i: nat, p: P)
    requires i <= |ps|
    ensures PutAt(ps, InsertAt(ps, i, p), i, p)
  {
    var r := InsertAt(ps, i, p);
    assert r[..i] == ps[..i];
    assert r[i + 1..] == ps[i..];
  }

  lemma {:induction false} SplitShape<P>(ps: seq<P>, k: nat, left: P, p: P, right: P)
    requires k < |ps|
    ensures SplitAt(ps, InsertAt(InsertAt(ps[k := left], k + 1, p), k + 2, right), k, left, p, right)
  {
    SplitPieces(ps, k, left, p, right);
    var r := ps[..k] + ([left, p, right] + ps[k + 1..]);
    assert r[..k] == ps[..k];
    assert r[k + 3..] == ps[k + 1..];
  }

  lemma {:induction false} ConcatSingle<T>(p: Piece, original: seq<T>, add: seq<T>)
    ensures Concat([p], original, add) == Slice(p, original, add)
  {
    assert TextOf([p], 1, original, add) == TextOf([p], 0, original, add) + Slice(p, original, add);
  }

  lemma {:induction false} ConcatThree<T>(a: Piece, b: Piece, c: Piece, original: seq<T>, add: seq<T>)
    ensures Concat([a, b, c], original, add)
         == (Slice(a, original, add) + Slice(b, original, add)) + Slice(c, original, add)
  {
    var ps := [a, b, c];
    assert TextOf(ps, 1, original, add) == Slice(a, original, add);
    assert TextOf(ps, 2, original, add) == Slice(a, original, add) + Slice(b, original, add);
  }

  /** A run is the text of its first `k` pieces followed by the text of the
      rest, and the first part is `Start(ps, k)` long. */
  lemma {:induction false} ConcatSplit<T>(ps: seq<Piece>, k: nat, original: seq<T>, add: seq<T>)
    requires k <= |ps| && AllInBuffer(ps, original, add)
    ensures Concat(ps, original, add) == Concat(ps[..k], original, add) + Concat(ps[k..], original, add)
    ensures |Concat(ps[..k], original, add)| == Start(ps, k)
  {
    assert ps[..k] + ps[k..] == ps;
    ConcatAppend(ps[..k], ps[k..], original, add);
    ConcatLength(ps[..k], original, add);
    StartPrefix(ps, k, k);
    SameStart(ps[..k], |ps[..k]|, k);
  }

  /** Inserting a piece before piece `k` (or at the end, `k == |ps|`)
      inserts its elements at the document position where piece `k` starts. */
  lemma {:induction false} InsertText<T>(ps: seq<Piece>, k: nat, p: Piece, at: nat, original: seq<T>, add: seq<T>)
    requires k <= |ps| && at == Start(ps, k)
    requires AllInBuffer(ps, original, add) && InBuffer(p, original, add)
    ensures at <= |Concat(ps, original, add)|
    ensures AllInBuffer(InsertAt(ps, k, p), original, add)
    ensures Total(InsertAt(ps, k, p)) == Total(ps) + p.length
    ensures Concat(InsertAt(ps, k, p), original, add)
         == Concat(ps, original, add)[..at] + Slice(p, original, add) + Concat(ps, original, add)[at..]
  {
    var ps' := InsertAt(ps, k, p);
    AllInBufferSlice(ps, 0, k, original, add);
    AllInBufferSlice(ps, k, |ps|, original, add);
    assert AllInBuffer([p], original, add);
    AllInBufferAppend(ps[..k], [p], original, add);
    AllInBufferAppend(ps[..k] + [p], ps[k..], original, add);
    var x, y, m := Concat(ps[..k], original, add), Concat(ps[k..], original, add), Slice(p, original, add);
    ConcatSplit(ps, k, original, add);
    ConcatAppend(ps[..k] + [p], ps[k..], original, add);
    ConcatAppend(ps[..k], [p], original, add);
    ConcatSingle(p, original, add);
    Inserted(x, y, m, at);
    ConcatLength(ps, original, add);
    ConcatLength(ps', original, add);
  }

  /** The first `off` elements of a piece. */
  function Head(q: Piece, off: nat): (r: Piece)
    requires off <= q.length
    ensures r.isOriginal == q.isOriginal && r.start == q.start && r.length == off
  {
    q.(length := off)
  }

  /** A piece without its first `off` elements. */
  function Rest(q: Piece, off: nat): (r: Piece)
    requires off <= q.length
    ensures r.isOriginal == q.isOriginal && r.start + r.length == q.start + q.length && r.length + off == q.length
  {
    Piece(q.start + off, q.length - off, q.isOriginal)
  }

  /** The head and the rest of a piece cut `off` elements in stand for the
      elements of the piece before and after the cut. */
  lemma {:induction false} HeadRest<T>(q: Piece, off: nat, original: seq<T>, add: seq<T>)
    requires InBuffer(q, original, add) && off <= q.length
    ensures InBuffer(Head(q, off), original, add) && InBuffer(Rest(q, off), original, add)
    ensures Slice(Head(q, off), original, add) == Slice(q, original, add)[..off]
    ensures Slice(Rest(q, off), original, add) == Slice(q, original, add)[off..]
    ensures Slice(q, original, add) == Slice(Head(q, off), original, add) + Slice(Rest(q, off), original, add)
  {
    var b, h, r := Buffer(q, original, add), Head(q, off), Rest(q, off);
    assert Buffer(h, original, add) == b && Buffer(r, original, add) == b;
    var s, m, e := q.start, q.start + off, q.start + q.length;
    assert Slice(q, original, add) == Sub(b, s, e);
    assert Slice(h, original, add) == Sub(b, s, m);
    assert Slice(r, original, add) == Sub(b, m, e);
    SubSplit(b, s, m, e);
  }

  lemma {:induction false} AllInBufferThree<T>(a: Piece, b: Piece, c: Piece, original: seq<T>, add: seq<T>)
    requires InBuffer(a, original, add) && InBuffer(b, original, add) && InBuffer(c, original, add)
    ensures AllInBuffer([a, b, c], original, add)
  {
  }

  /** The pieces after cutting piece `k` and inserting a piece between the
      halves, as the list operations leave them. */
  lemma {:induction false} SplitPieces<P>(ps: seq<P>, k: nat, left: P, p: P, right: P)
    requires k < |ps|
    ensures InsertAt(InsertAt(ps[k := left], k + 1, p), k + 2, right) == ps[..k] + ([left, p, right] + ps[k + 1..])
    ensures ps[k..] == [ps[k]] + ps[k + 1..]
  {
  }

  /** Replacing piece `k` by pieces inside the buffers keeps every piece
      inside the buffers. */
  lemma {:induction false} ReplaceInBuffer<T>(ps: seq<Piece>, k: nat, mid: seq<Piece>, original: seq<T>, add: seq<T>)
    requires k < |ps| && AllInBuffer(ps, original, add) && AllInBuffer(mid, original, add)
    ensures AllInBuffer(ps[..k] + (mid + ps[k + 1..]), original, add)
  {
    AllInBufferSlice(ps, 0, k, original, add);
    AllInBufferSlice(ps, k + 1, |ps|, original, add);
    AllInBufferAppend(mid, ps[k + 1..], original, add);
    AllInBufferAppend(ps[..k], mid + ps[k + 1..], original, add);
  }

  /** Cutting piece `k` in two `off` elements in and inserting a piece between
      the halves inserts its elements `off` elements after the start of piece `k`. */
  lemma {:induction false} SplitText<T>(ps: seq<Piece>, k: nat, off: nat, p: Piece, left: Piece, right: Piece, at: nat,
                     original: seq<T>, add: seq<T>)
    requires k < |ps| && off <= ps[k].length && at == Start(ps, k) + off
    requires left == Head(ps[k], off) && right == Rest(ps[k], off)
    requires AllInBuffer(ps, original, add) && InBuffer(p, original, add)
    ensures at <= |Concat(ps, original, add)|
    ensures AllInBuffer(InsertAt(InsertAt(ps[k := left], k + 1, p), k + 2, right), original, add)
    ensures Total(InsertAt(InsertAt(ps[k := left], k + 1, p), k + 2, right)) == Total(ps) + p.length
    ensures Concat(InsertAt(InsertAt(ps[k := left], k + 1, p), k + 2, right), original, add)
         == Concat(ps, original, add)[..at] + Slice(p, original, add) + Concat(ps, original, add)[at..]
  {
    var q := ps[k];
    var tail := ps[k + 1..];
    var mid := [left, p, right];
    SplitPieces(ps, k, left, p, right);
    var ps' := ps[..k] + (mid + tail);
    HeadRest(q, off, original, add);
    AllInBufferThree(left, p, right, original, add);
    ReplaceInBuffer(ps, k, mid, original, add);
    var x, z := Concat(ps[..k], original, add), Concat(tail, original, add);
    var l, m, r := Slice(left, original, add), Slice(p, original, add), Slice(right, original, add);
    ConcatSplit(ps, k, original, add);
    ConcatAppend([q], tail, original, add);
    ConcatSingle(q, original, add);
    ConcatAppend(ps[..k], mid + tail, original, add);
    ConcatAppend(mid, tail, original, add);
    ConcatThree(left, p, right, original, add);
    Spliced(x, l, r, z, m, at);
    ConcatLength(ps, original, add);
    ConcatLength(ps', original, add);
  }

  /** Lengthening piece `k` by elements `more` that follow its own inserts
      them where the piece ends in the document. */
  lemma {:induction false} ExtendText<T>(ps: seq<Piece>, k: nat, e: nat, q: Piece, at: nat, more: seq<T>,
                      original: seq<T>, add: seq<T>)
    requires k < |ps| && e == k + 1 && at == Start(ps, e)
    requires AllInBuffer(ps, original, add) && InBuffer(q, original, add)
    requires Slice(q, original, add) == Slice(ps[k], original, add) + more
    ensures at <= |Concat(ps, original, add)|
    ensures AllInBuffer(ps[k := q], original, add)
    ensures Concat(ps[k := q], original, add)
         == Concat(ps, original, add)[..at] + more + Concat(ps, original, add)[at..]
  {
    var a, p, tail := ps[..k], ps[k], ps[k + 1..];
    AroundPiece(ps, k, q, a, tail);
    ReplaceInBuffer(ps, k, [q], original, add);
    ConcatAround(ps[k := q], a, q, tail, original, add);
    ConcatAround(ps, a, p, tail, original, add);
    EndOfPiece(ps, k, e, a, original, add);
    Extended(Concat(a, original, add), Slice(p, original, add), Concat(tail, original, add), more, at);
  }

  /** A list around its element `k`, and with that element replaced. */
  lemma {:induction false} AroundPiece<P>(ps: seq<P>, k: nat, q: P, a: seq<P>, tail: seq<P>)
    requires k < |ps| && a == ps[..k] && tail == ps[k + 1..]
    ensures ps == a + ([ps[k]] + tail) && ps[k := q] == a + ([q] + tail)
  {
  }

  /** The text of pieces `a`, then `p`, then `b`. */
  lemma {:induction false} ConcatAround<T>(ps: seq<Piece>, a: seq<Piece>, p: Piece, b: seq<Piece>, original: seq<T>, add: seq<T>)
    requires ps == a + ([p] + b)
    ensures Concat(ps, original, add) == Concat(a, original, add) + (Slice(p, original, add) + Concat(b, original, add))
  {
    ConcatAppend(a, [p] + b, original, add);
    ConcatAppend([p], b, original, add);
    ConcatSingle(p, original, add);
  }

  /** Piece `k` ends in the document after the text before it and its own. */
  lemma {:induction false} EndOfPiece<T>(ps: seq<Piece>, k: nat, e: nat, a: seq<Piece>, original: seq<T>, add: seq<T>)
    requires k < |ps| && e == k + 1 && a == ps[..k] && AllInBuffer(ps, original, add)
    ensures Start(ps, e) == |Concat(a, original, add)| + |Slice(ps[k], original, add)|
  {
    var p, b := ps[k], ps[..e];
    TakeOneMore(ps, k, e, a, b);
    PrefixText(ps, e, b, original, add);
    ConcatAppend(a, [p], original, add);
    ConcatSingle(p, original, add);
  }

  /** The first `k + 1` elements of a list are its first `k` and element
      `k`. */
  lemma {:induction false} TakeOneMore<P>(ps: seq<P>, k: nat, e: nat, a: seq<P>, b: seq<P>)
    requires k < |ps| && e == k + 1 && a == ps[..k] && b == ps[..e]
    ensures b == a + [ps[k]]
  {
  }

  /** The first `e` pieces stand for as many elements as where piece `e`
      starts. */
  lemma {:induction false} PrefixText<T>(ps: seq<Piece>, e: nat, b: seq<Piece>, original: seq<T>, add: seq<T>)
    requires e <= |ps| && b == ps[..e] && AllInBuffer(ps, original, add)
    ensures |Concat(b, original, add)| == Start(ps, e)
  {
    AllInBufferSlice(ps, 0, e, original, add);
    assert ps[0..e] == b;
    ConcatLength(b, original, add);
    StartPrefix(ps, e, e);
  }

  /** Lengthening the middle of three strings by `more` inserts `more`
      where the middle ends. */
  lemma {:induction false} Extended<T>(x: seq<T>, y: seq<T>, z: seq<T>, more: seq<T>, at: nat)
    requires at == |x| + |y|
    ensures at <= |x + (y + z)|
    ensures x + ((y + more) + z) == (x + (y + z))[..at] + more + (x + (y + z))[at..]
  {
    Inserted(x + y, z, more, at);
    Assoc(x, y, z);
    Assoc(x, y + more, z);
    Assoc(y, more, z);
    Assoc(x, y, more);
  }

  /** The pieces after the list's `DeleteAt(i)`: the piece at `i` is
      removed and the ones after it move up. At or past the end no node
      changes (the list's own node counter is not part of this model).
      Removing the only node dereferences nil in Go. */
  function DeleteAt<P>(ps: seq<P>, i: nat): (r: seq<P>)
    requires i < |ps| ==> 0 < i || 2 <= |ps|
    ensures i < |ps| ==> |r| + 1 == |ps| && r[..i] == ps[..i] && r[i..] == ps[i + 1..]
    ensures i >= |ps| ==> r == ps
    ensures |ps| >= 1 ==> |r| >= 1
  {
    if i < |ps| then ps[..i] + ps[i + 1..] else ps
  }

  /** A piece, unless it is empty. */
  function Keep(p: Piece): (r: seq<Piece>)
    ensures p.length > 0 <==> r == [p]
    ensures p.length == 0 <==> r == []
  {
    if p.length == 0 then [] else [p]
  }

  /** Pieces `k` to `k + n` of `ps` give way to `left` and `right`, each
      only when not empty; a list emptied entirely keeps `left`. */
  function Cut(ps: seq<Piece>, k: nat, n: nat, left: Piece, right: Piece): (r: seq<Piece>)
    requires k + n <= |ps|
    ensures 1 <= |r| <= |ps| - n + 2
  {
    var cut := ps[..k] + (Keep(left) + Keep(right)) + ps[k + n..];
    if cut == [] then [left] else cut
  }

  /** Cutting `text == x + r + z` between `p` and `q`, two positions
      within `r`, where `r` starts with `f` and ends with `l`, leaves `x`,
      the part of `f` before `p`, the part of `l` after `q`, and `z`. */
  lemma {:induction false} CutSeq<T>(text: seq<T>, cut: seq<T>, x: seq<T>, r: seq<T>, z: seq<T>, f: seq<T>, g: seq<T>, h: seq<T>, l: seq<T>,
                  front: seq<T>, back: seq<T>, off: nat, d: nat, p: nat, q: nat)
    requires text == x + r + z && r == f + g && r == h + l && off <= |f| && d <= |l|
    requires front == f[..off] && back == l[d..] && cut == x + (front + back) + z
    requires p == |x| + off && q == |x| + |h| + d
    ensures p <= |text| && q <= |text|
    ensures cut == text[..p] + text[q..]
  {
    assert text[..p] == x + front by {
      assert text[..p] == x + r[..off];
      assert r[..off] == f[..off];
    }
    assert text[q..] == back + z by {
      assert text[q..] == r[|h| + d..] + z;
      assert r[|h| + d..] == l[d..];
    }
  }

  /** The text of a piece that is kept unless empty. */
  lemma {:induction false} ConcatKeep<T>(p: Piece, original: seq<T>, add: seq<T>)
    requires InBuffer(p, original, add)
    ensures AllInBuffer(Keep(p), original, add)
    ensures Concat(Keep(p), original, add) == Slice(p, original, add)
  {
    if p.length > 0 {
      ConcatSingle(p, original, add);
    }
  }

  /** The text of a non-empty list of pieces starts with its first
      piece's and ends with its last piece's. */
  lemma {:induction false} Ends<T>(found: seq<Piece>, original: seq<T>, add: seq<T>)
    requires 1 <= |found|
    ensures Concat(found, original, add)
         == Slice(found[0], original, add) + Concat(found[1..], original, add)
    ensures Concat(found, original, add)
         == Concat(found[..|found| - 1], original, add) + Slice(found[|found| - 1], original, add)
  {
    var n := |found|;
    assert found == [found[0]] + found[1..];
    ConcatAppend([found[0]], found[1..], original, add);
    ConcatSingle(found[0], original, add);
    assert found == found[..n - 1] + [found[n - 1]];
    ConcatAppend(found[..n - 1], [found[n - 1]], original, add);
    ConcatSingle(found[n - 1], original, add);
  }

  /** Pieces kept either side of `mid` stand for their text either side
      of `mid`'s. */
  lemma {:induction false} Surround<T>(ps: seq<Piece>, k: nat, n: nat, mid: seq<Piece>, original: seq<T>, add: seq<T>)
    requires k + n <= |ps| && AllInBuffer(ps, original, add) && AllInBuffer(mid, original, add)
    ensures AllInBuffer(ps[..k] + mid + ps[k + n..], original, add)
    ensures Concat(ps[..k] + mid + ps[k + n..], original, add)
         == Concat(ps[..k], original, add) + Concat(mid, original, add) + Concat(ps[k + n..], original, add)
  {
    var x, tail := ps[..k], ps[k + n..];
    AllInBufferSlice(ps, 0, k, original, add);
    AllInBufferSlice(ps, k + n, |ps|, original, add);
    assert ps[0..k] == x && ps[k + n..|ps|] == tail;
    AllInBufferAppend(x, mid, original, add);
    AllInBufferAppend(x + mid, tail, original, add);
    ConcatAppend(x, mid, original, add);
    ConcatAppend(x + mid, tail, original, add);
  }

  /** The pieces `Cut` leaves stand for the text before the pieces it
      removes, then `left`'s and `right`'s, then the text after them. */
  lemma {:induction false} CutPieces<T>(ps: seq<Piece>, k: nat, n: nat, left: Piece, right: Piece, original: seq<T>, add: seq<T>)
    requires k + n <= |ps| && AllInBuffer(ps, original, add)
    requires InBuffer(left, original, add) && InBuffer(right, original, add)
    ensures AllInBuffer(Cut(ps, k, n, left, right), original, add)
    ensures Concat(Cut(ps, k, n, left, right), original, add)
         == Concat(ps[..k], original, add)
          + (Slice(left, original, add) + Slice(right, original, add))
          + Concat(ps[k + n..], original, add)
  {
    var mid := Keep(left) + Keep(right);
    ConcatKeep(left, original, add);
    ConcatKeep(right, original, add);
    ConcatAppend(Keep(left), Keep(right), original, add);
    AllInBufferAppend(Keep(left), Keep(right), original, add);
    Surround(ps, k, n, mid, original, add);
    if ps[..k] + mid + ps[k + n..] == [] {
      ConcatSingle(left, original, add);
    }
  }

  /** The document split around pieces `k` to `k + n`. */
  lemma {:induction false} RunSplit<T>(ps: seq<Piece>, k: nat, n: nat, original: seq<T>, add: seq<T>)
    requires AllInBuffer(ps, original, add) && k + n <= |ps|
    ensures Concat(ps, original, add)
         == Concat(ps[..k], original, add) + Concat(ps[k..k + n], original, add) + Concat(ps[k + n..], original, add)
    ensures |Concat(ps[..k], original, add)| == Start(ps, k)
  {
    var a, b, c := ps[..k], ps[k..k + n], ps[k + n..];
    assert ps == a + b + c;
    ConcatAppend(a + b, c, original, add);
    ConcatAppend(a, b, original, add);
    ConcatSplit(ps, k, original, add);
  }

  /** The text of pieces `k` to `e` inclusive, split after the first and
      before the last. */
  lemma {:induction false} RunEnds<T>(ps: seq<Piece>, k: nat, n: nat, e: nat, original: seq<T>, add: seq<T>)
    requires 1 <= n && k + n <= |ps| && e + 1 == k + n
    ensures Concat(ps[k..k + n], original, add) == Slice(ps[k], original, add) + Concat(ps[k + 1..k + n], original, add)
    ensures Concat(ps[k..k + n], original, add) == Concat(ps[k..e], original, add) + Slice(ps[e], original, add)
  {
    var run := ps[k..k + n];
    Ends(run, original, add);
    RunParts(ps, k, n, e, run);
  }

  /** A run without its first or without its last element. */
  lemma {:induction false} RunParts<P>(ps: seq<P>, k: nat, n: nat, e: nat, run: seq<P>)
    requires 1 <= n && k + n <= |ps| && e + 1 == k + n && run == ps[k..k + n]
    ensures run[1..] == ps[k + 1..k + n] && run[..n - 1] == ps[k..e]
    ensures run[0] == ps[k] && run[n - 1] == ps[e]
  {
  }

  /** Pieces `k` to `e` end where piece `e` starts. */
  lemma {:induction false} RunUpTo<T>(ps: seq<Piece>, k: nat, e: nat, original: seq<T>, add: seq<T>)
    requires AllInBuffer(ps, original, add) && k <= e <= |ps|
    ensures Start(ps, k) + |Concat(ps[k..e], original, add)| == Start(ps, e)
  {
    var front := ps[k..e];
    assert front == ps[k..k + |front|];
    Elements(ps, front, k);
    ConcatWindow(ps, front, k, e, original, add);
  }

  /** The head and the rest that a cut keeps of its first and last piece. */
  lemma {:induction false} CutEnds<T>(ps: seq<Piece>, k: nat, e: nat, off: nat, d: nat, left: Piece, right: Piece,
                   original: seq<T>, add: seq<T>)
    requires AllInBuffer(ps, original, add) && k <= e < |ps|
    requires off <= ps[k].length && d <= ps[e].length
    requires left == Head(ps[k], off) && right == Rest(ps[e], d)
    ensures InBuffer(left, original, add) && InBuffer(right, original, add)
    ensures Slice(left, original, add) == Slice(ps[k], original, add)[..off]
    ensures Slice(right, original, add) == Slice(ps[e], original, add)[d..]
  {
    HeadRest(ps[k], off, original, add);
    HeadRest(ps[e], d, original, add);
  }

  /** The text that remains after a cut of pieces `k` to `e` inclusive. */
  lemma {:induction false} CutConcat<T>(ps: seq<Piece>, k: nat, n: nat, e: nat, off: nat, d: nat, left: Piece, right: Piece,
                     position: nat, len: nat, original: seq<T>, add: seq<T>)
    requires AllInBuffer(ps, original, add) && 1 <= n && k + n <= |ps| && e + 1 == k + n
    requires off <= ps[k].length && d <= ps[e].length
    requires left == Head(ps[k], off) && right == Rest(ps[e], d)
    requires position == Start(ps, k) + off && position + len == Start(ps, e) + d
    ensures AllInBuffer(Cut(ps, k, n, left, right), original, add)
    ensures position + len <= |Concat(ps, original, add)|
    ensures Concat(Cut(ps, k, n, left, right), original, add)
         == Concat(ps, original, add)[..position] + Concat(ps, original, add)[position + len..]
  {
    CutEnds(ps, k, e, off, d, left, right, original, add);
    RunSplit(ps, k, n, original, add);
    RunEnds(ps, k, n, e, original, add);
    RunUpTo(ps, k, e, original, add);
    CutPieces(ps, k, n, left, right, original, add);
    CutSeq(Concat(ps, original, add), Concat(Cut(ps, k, n, left, right), original, add),
           Concat(ps[..k], original, add), Concat(ps[k..k + n], original, add), Concat(ps[k + n..], original, add),
           Slice(ps[k], original, add), Concat(ps[k + 1..k + n], original, add),
           Concat(ps[k..e], original, add), Slice(ps[e], original, add),
           Slice(left, original, add), Slice(right, original, add), off, d, position, position + len);
  }

  /** Deleting `len` elements at `position` the way the tables' `Delete`
      evidently means to: pieces `k` to `e` inclusive, the first holding
      `position` and the last holding `position + len`, give way to the head
      of the first before `position` and the rest of the last after
      `position + len`. Exactly those elements leave the document. */
  lemma {:induction false} CutText<T>(ps: seq<Piece>, k: nat, n: nat, e: nat, off: nat, d: nat, left: Piece, right: Piece,
                   position: nat, len: nat, original: seq<T>, add: seq<T>)
    requires AllInBuffer(ps, original, add) && 1 <= n && k + n <= |ps| && e + 1 == k + n
    requires off <= ps[k].length && d <= ps[e].length
    requires left == Head(ps[k], off) && right == Rest(ps[e], d)
    requires position == Start(ps, k) + off && position + len == Start(ps, e) + d
    ensures AllInBuffer(Cut(ps, k, n, left, right), original, add)
    ensures position + len <= |Concat(ps, original, add)|
    ensures Concat(Cut(ps, k, n, left, right), original, add)
         == Concat(ps, original, add)[..position] + Concat(ps, original, add)[position + len..]
    ensures Total(Cut(ps, k, n, left, right)) + len == Total(ps)
  {
    CutConcat(ps, k, n, e, off, d, left, right, position, len, original, add);
    ConcatLength(ps, original, add);
    ConcatLength(Cut(ps, k, n, left, right), original, add);
  }

  /** From its `j`-th element on, `run` holds pieces `k + j`, `k + j + 1`,
      ... of `ps`. */
  ghost predicate RunFrom<P>(ps: seq<P>, k: nat, run: seq<P>, j: nat)
    requires j <= |run|
    decreases |run| - j
  {
    j == |run| || (k + j < |ps| && run[j] == ps[k + j] && RunFrom(ps, k, run, j + 1))
  }

  /** `run` is the run of pieces of `ps` from piece `k` to piece `k +
      |run|`. */
  ghost predicate IsRun<P>(ps: seq<P>, k: nat, run: seq<P>) {
    RunFrom(ps, k, run, 0)
  }

  lemma {:induction false} RunFromAll<P>(ps: seq<P>, k: nat, run: seq<P>, j: nat)
    requires j <= |run|
    ensures RunFrom(ps, k, run, j) <==> forall i | j <= i < |run| :: k + i < |ps| && run[i] == ps[k + i]
    decreases |run| - j
  {
    if j < |run| {
      RunFromAll(ps, k, run, j + 1);
    }
  }

  /** A run is the slice of the pieces it holds. */
  lemma {:induction false} RunSlice<P>(ps: seq<P>, k: nat, run: seq<P>, e: nat)
    requires IsRun(ps, k, run) && k <= |ps| && e == k + |run|
    ensures e <= |ps| && run == ps[k..e]
  {
    RunFromAll(ps, k, run, 0);
    if run != [] {
      var l := |run| - 1;
      var last := run[l];
      assert k + l < |ps|;
    }
  }

  /** A slice of the pieces is a run. */
  lemma {:induction false} SliceRun<P>(ps: seq<P>, k: nat, e: nat, run: seq<P>)
    requires k <= e <= |ps| && run == ps[k..e]
    ensures IsRun(ps, k, run) && e == k + |run|
  {
    RunFromAll(ps, k, run, 0);
  }

  /** Element `j` of a run is piece `k + j`. */
  lemma {:induction false} RunIndex<P>(ps: seq<P>, k: nat, run: seq<P>, j: nat, i: nat)
    requires IsRun(ps, k, run) && j < |run| && i == k + j
    ensures i < |ps| && run[j] == ps[i]
  {
    RunFromAll(ps, k, run, 0);
    var x := run[j];
  }

  /** A run ends inside the pieces. */
  lemma {:induction false} RunInside<P>(ps: seq<P>, k: nat, run: seq<P>)
    requires IsRun(ps, k, run) && run != []
    ensures k + |run| <= |ps|
  {
    RunIndex(ps, k, run, |run| - 1, k + |run| - 1);
  }

  /** The next piece after a run extends it. */
  lemma {:induction false} RunAppend<P>(ps: seq<P>, k: nat, run: seq<P>, i: nat)
    requires IsRun(ps, k, run) && i == k + |run| < |ps|
    ensures IsRun(ps, k, run + [ps[i]])
  {
    RunFromAll(ps, k, run, 0);
    RunFromAll(ps, k, run + [ps[i]], 0);
  }

  /** The piece before a run extends it at the front. */
  lemma {:induction false} RunPrepend<P>(ps: seq<P>, i: nat, run: seq<P>, k: nat)
    requires IsRun(ps, k, run) && k == i + 1 && i < |ps|
    ensures IsRun(ps, i, [ps[i]] + run)
  {
    RunFromAll(ps, i, [ps[i]] + run, 0);
    assert ([ps[i]] + run)[0] == ps[i];
    forall j | 1 <= j < |run| + 1
      ensures i + j < |ps| && ([ps[i]] + run)[j] == ps[i + j]
    {
      RunIndex(ps, k, run, j - 1, i + j);
      assert ([ps[i]] + run)[j] == run[j - 1];
    }
  }

  /** The pieces of a run lie inside their buffers when all pieces do. */
  lemma {:induction false} RunInBuffer<T>(ps: seq<Piece>, k: nat, run: seq<Piece>, original: seq<T>, add: seq<T>)
    requires AllInBuffer(ps, original, add) && IsRun(ps, k, run)
    ensures AllInBuffer(run, original, add)
  {
    RunFromAll(ps, k, run, 0);
    forall i | 0 <= i < |run|
      ensures InBuffer(run[i], original, add)
    {
      var x := run[i];
      assert k + i < |ps| && x == ps[k + i];
    }
  }
}
