/** UTF-8 as defined in sections 3 and 4 of RFC 3629, and the two decoding
    primitives the piece tables rely on: decoding the first codepoint of a
    byte string (with Go's convention of a one-byte RuneError for bytes that
    do not start a valid sequence) and counting codepoints. */
module Utf8 {

  newtype byte = b: int | 0 <= b < 0x100

  /** A Unicode scalar value: a codepoint that is not a surrogate. */
  type Rune = r: int | 0 <= r <= 0x10FFFF && !(0xD800 <= r <= 0xDFFF)

  /** U+FFFD, what a decoder reports for bytes it cannot decode. */
  const RuneError: Rune := 0xFFFD

  /** A decoded codepoint and the number of bytes it took. */
  datatype Decoded = Decoded(rune: Rune, size: nat)

  predicate IsContinuation(b: byte) { 0x80 <= b <= 0xBF }

  /** Length of the sequence a lead byte announces, 0 when the byte cannot
      lead a sequence (continuation bytes, C0, C1, F5..FF). */
  function Width(lead: byte): nat {
    if lead < 0x80 then 1
    else if 0xC2 <= lead <= 0xDF then 2
    else if 0xE0 <= lead <= 0xEF then 3
    else if 0xF0 <= lead <= 0xF4 then 4
    else 0
  }

  /** The range the second byte must fall in after a given lead byte; the
      narrower ranges exclude overlong forms, surrogates and values above
      U+10FFFF (the syntax of section 4 of RFC 3629). */
  function SecondLow(lead: byte): byte {
    if lead == 0xE0 then 0xA0 else if lead == 0xF0 then 0x90 else 0x80
  }

  function SecondHigh(lead: byte): byte {
    if lead == 0xED then 0x9F else if lead == 0xF4 then 0x8F else 0xBF
  }

  /** Bytes `i ..` of `s` begin with one complete, valid UTF-8 sequence. */
  predicate ValidAt(s: seq<byte>, i: nat) {
    && i < |s|
    && 0 < Width(s[i]) <= |s| - i
    && (Width(s[i]) >= 2 ==> SecondLow(s[i]) <= s[i + 1] <= SecondHigh(s[i]))
    && (Width(s[i]) >= 3 ==> IsContinuation(s[i + 2]))
    && (Width(s[i]) == 4 ==> IsContinuation(s[i + 3]))
  }

  /** `s` begins with one complete, valid UTF-8 sequence. */
  predicate ValidStart(s: seq<byte>) {
    ValidAt(s, 0)
  }

  /** How many bytes decoding at byte `i` consumes: none at the end, the
      announced width for a valid sequence, one otherwise. */
  function SizeAt(s: seq<byte>, i: nat): (n: nat)
    requires i <= |s|
    ensures i + n <= |s|
    ensures n == 0 <==> i == |s|
  {
    if i == |s| then 0 else if !ValidAt(s, i) then 1 else Width(s[i])
  }

  /** How many bytes decoding the front of `s` consumes. */
  function Size(s: seq<byte>): (n: nat)
    ensures n <= |s|
    ensures n == 0 <==> s == []
  {
    SizeAt(s, 0)
  }

  /** Decodes the codepoint at byte `i` of `s`: (RuneError, 0) at the end,
      (RuneError, 1) where no valid sequence starts. */
  function RuneAt(s: seq<byte>, i: nat): (d: Decoded)
    requires i <= |s|
    ensures d.size == SizeAt(s, i)
    ensures i < |s| && !ValidAt(s, i) ==> d.rune == RuneError
  {
    if i == |s| then Decoded(RuneError, 0)
    else if !ValidAt(s, i) then Decoded(RuneError, 1)
    else if Width(s[i]) == 1 then Decoded(s[i] as int, 1)
    else if Width(s[i]) == 2 then
      Decoded((s[i] as int - 0xC0) * 64 + (s[i + 1] as int - 0x80), 2)
    else if Width(s[i]) == 3 then
      Decoded((s[i] as int - 0xE0) * 4096 + (s[i + 1] as int - 0x80) * 64 + (s[i + 2] as int - 0x80), 3)
    else
      Decoded((s[i] as int - 0xF0) * 262144 + (s[i + 1] as int - 0x80) * 4096
              + (s[i + 2] as int - 0x80) * 64 + (s[i + 3] as int - 0x80), 4)
  }

  /** Decodes the first codepoint of `s` (Go's `utf8.DecodeRune`):
      (RuneError, 0) on empty input, (RuneError, 1) when `s` does not begin
      with a valid sequence. */
  function DecodeRune(s: seq<byte>): (d: Decoded)
    ensures d.size == Size(s)
    ensures s != [] && !ValidStart(s) ==> d.rune == RuneError
  {
    RuneAt(s, 0)
  }

  /** The UTF-8 encoding of one scalar value (section 3 of RFC 3629). */
  function EncodeRune(r: Rune): (s: seq<byte>)
    ensures 1 <= |s| <= 4
    ensures |s| == 1 <==> r < 0x80
  {
    if r < 0x80 then [r as byte]
    else if r < 0x800 then [(0xC0 + r / 64) as byte, (0x80 + r % 64) as byte]
    else if r < 0x10000 then
      [(0xE0 + r / 4096) as byte, (0x80 + r / 64 % 64) as byte, (0x80 + r % 64) as byte]
    else
      [(0xF0 + r / 262144) as byte, (0x80 + r / 4096 % 64) as byte,
       (0x80 + r / 64 % 64) as byte, (0x80 + r % 64) as byte]
  }

  /** The UTF-8 encoding of a codepoint string (Go's `string(runes)`). */
  function Encode(rs: seq<Rune>): seq<byte> {
    if rs == [] then [] else EncodeRune(rs[0]) + Encode(rs[1..])
  }

  /** Every codepoint takes at least one byte, exactly one when every
      codepoint is ASCII. */
  lemma {:induction false} EncodeLength(rs: seq<Rune>)
    ensures |Encode(rs)| >= |rs|
    ensures (forall i | 0 <= i < |rs| :: rs[i] < 0x80) ==> |Encode(rs)| == |rs|
  {
    if rs != [] {
      EncodeLength(rs[1..]);
    }
  }

  /** Every byte of `s` from `i` on belongs to a valid UTF-8 sequence
      starting at or after `i`. */
  predicate WellFormedFrom(s: seq<byte>, i: nat)
    requires i <= |s|
    decreases |s| - i
  {
    i == |s| || (ValidAt(s, i) && WellFormedFrom(s, i + SizeAt(s, i)))
  }

  /** Every byte of `s` belongs to a valid UTF-8 sequence. */
  predicate WellFormed(s: seq<byte>) {
    WellFormedFrom(s, 0)
  }

  /** Number of codepoints from byte `i` of `s` on. */
  function CountFrom(s: seq<byte>, i: nat): nat
    requires i <= |s|
    decreases |s| - i
  {
    if i == |s| then 0 else 1 + CountFrom(s, i + SizeAt(s, i))
  }

  /** Number of codepoints in `s`; a byte that starts no valid sequence
      counts as one, as in Go's `utf8.RuneCount`. */
  function RuneCount(s: seq<byte>): nat {
    CountFrom(s, 0)
  }

  /** The codepoints from byte `i` of `s` on, front to back. */
  function DecodeFrom(s: seq<byte>, i: nat): (rs: seq<Rune>)
    requires i <= |s|
    ensures |rs| == CountFrom(s, i)
    decreases |s| - i
  {
    if i == |s| then [] else [RuneAt(s, i).rune] + DecodeFrom(s, i + SizeAt(s, i))
  }

  /** The codepoints of `s`, decoded front to back (Go's range over a
      string, and `Sequence.RuneForward`). */
  function Decode(s: seq<byte>): (rs: seq<Rune>)
    ensures |rs| == RuneCount(s)
  {
    DecodeFrom(s, 0)
  }

  /** Byte offset at which the `k`-th codepoint after byte `i` starts (the
      length of `s` when fewer codepoints follow). */
  function OffsetFrom(s: seq<byte>, i: nat, k: nat): (n: nat)
    requires i <= |s|
    ensures i <= n <= |s|
    decreases k
  {
    if k == 0 || i == |s| then i else OffsetFrom(s, i + SizeAt(s, i), k - 1)
  }

  /** Byte offset at which the `k`-th codepoint of `s` starts (the length of
      `s` when it has `k` codepoints or fewer). */
  function Offset(s: seq<byte>, k: nat): (n: nat)
    ensures n <= |s|
  {
    OffsetFrom(s, 0, k)
  }

  /** Encoding one scalar value and decoding it back gives that value and
      the encoding's length, whatever follows it. */
  lemma {:induction false} DecodeEncodeRune(r: Rune, rest: seq<byte>)
    ensures ValidStart(EncodeRune(r) + rest)
    ensures DecodeRune(EncodeRune(r) + rest) == Decoded(r, |EncodeRune(r)|)
  {
    if r < 0x80 {
    } else if r < 0x800 {
      DecodeTwo(r);
    } else if r < 0x10000 {
      DecodeThree(r);
    } else {
      DecodeFour(r);
    }
    DecodeRuneAppend(EncodeRune(r), rest);
  }

  /** Two-byte sequences: 11 bits, five in the lead byte. */
  lemma {:induction false} DecodeTwo(r: Rune)
    requires 0x80 <= r < 0x800
    ensures ValidStart(EncodeRune(r)) && DecodeRune(EncodeRune(r)) == Decoded(r, 2)
  {
    var a, c := r / 64, r % 64;
    assert r == a * 64 + c;
  }

  /** Three-byte sequences: 16 bits, four in the lead byte; the second byte
      keeps out overlong forms and surrogates. */
  lemma {:induction false} DecodeThree(r: Rune)
    requires 0x800 <= r < 0x10000
    ensures ValidStart(EncodeRune(r)) && DecodeRune(EncodeRune(r)) == Decoded(r, 3)
  {
    var a, b, c := Digits3(r);
  }

  /** Four-byte sequences: 21 bits, three in the lead byte; the second byte
      keeps out overlong forms and values above U+10FFFF. */
  lemma {:induction false} DecodeFour(r: Rune)
    requires 0x10000 <= r
    ensures ValidStart(EncodeRune(r)) && DecodeRune(EncodeRune(r)) == Decoded(r, 4)
  {
    var a, b, c, d := Digits4(r);
  }

  /** The three base-64 digits of a value below 2^18 that UTF-8 spreads over
      a lead byte and two continuation bytes. */
  lemma {:induction false} Digits3(n: nat) returns (a: nat, b: nat, c: nat)
    ensures a == n / 4096 && b == n / 64 % 64 && c == n % 64
    ensures n == a * 4096 + b * 64 + c && b < 64 && c < 64
  {
    var q := n / 64;
    a, b, c := q / 64, q % 64, n % 64;
    assert n == q * 64 + c;
    assert q == a * 64 + b;
    assert n == a * 4096 + (b * 64 + c);
  }

  /** The four base-64 digits UTF-8 spreads over a lead byte and three
      continuation bytes. */
  lemma {:induction false} Digits4(n: nat) returns (a: nat, b: nat, c: nat, d: nat)
    ensures a == n / 262144 && b == n / 4096 % 64 && c == n / 64 % 64 && d == n % 64
    ensures n == a * 262144 + b * 4096 + c * 64 + d && b < 64 && c < 64 && d < 64
  {
    var q, e, f := Digits3(n / 64);
    d := n % 64;
    assert n == (n / 64) * 64 + d;
    assert n == q * 262144 + (e * 4096 + f * 64 + d);
    assert n / 4096 == q * 64 + e;
    a, b, c := q, e, f;
  }

  // Decoding at one byte depends only on the bytes of the sequence found
  // there: the same bytes elsewhere decode the same.

  /** Decoding at byte `i` of the tail of `s` from `a` is decoding at byte
      `a + i` of `s`. */
  lemma {:induction false} AtDrop(s: seq<byte>, a: nat, i: nat, ai: nat)
    requires ai == a + i <= |s|
    ensures ValidAt(s[a..], i) == ValidAt(s, ai)
    ensures SizeAt(s[a..], i) == SizeAt(s, ai)
    ensures RuneAt(s[a..], i) == RuneAt(s, ai)
  {
    var t := s[a..];
    if ai < |s| {
      assert t[i] == s[ai];
      if ai + 1 < |s| { assert t[i + 1] == s[ai + 1]; }
      if ai + 2 < |s| { assert t[i + 2] == s[ai + 2]; }
      if ai + 3 < |s| { assert t[i + 3] == s[ai + 3]; }
    }
  }

  /** A valid sequence at byte `i` of `x` stays one, of the same width and
      value, whatever follows `x`. */
  lemma {:induction false} AtLeft(x: seq<byte>, y: seq<byte>, i: nat)
    requires ValidAt(x, i)
    ensures ValidAt(x + y, i)
    ensures SizeAt(x + y, i) == SizeAt(x, i)
    ensures RuneAt(x + y, i) == RuneAt(x, i)
  {
    var s, w := x + y, Width(x[i]);
    assert s[i] == x[i];
    if w >= 2 { assert s[i + 1] == x[i + 1]; }
    if w >= 3 { assert s[i + 2] == x[i + 2]; }
    if w == 4 { assert s[i + 3] == x[i + 3]; }
  }

  /** A valid sequence at byte `i` of `s` that ends by `e` is one of
      `s[..e]` too. */
  lemma {:induction false} AtTake(s: seq<byte>, e: nat, i: nat)
    requires ValidAt(s, i) && i + SizeAt(s, i) <= e <= |s|
    ensures ValidAt(s[..e], i)
    ensures SizeAt(s[..e], i) == SizeAt(s, i)
    ensures RuneAt(s[..e], i) == RuneAt(s, i)
  {
    var t, w := s[..e], Width(s[i]);
    assert t[i] == s[i];
    if w >= 2 { assert t[i + 1] == s[i + 1]; }
    if w >= 3 { assert t[i + 2] == s[i + 2]; }
    if w == 4 { assert t[i + 3] == s[i + 3]; }
  }

  /** Decoding from byte `i` of the tail of `s` from `a` is decoding from
      byte `a + i` of `s`. */
  lemma {:induction false} FromDrop(s: seq<byte>, a: nat, i: nat, ai: nat)
    requires ai == a + i <= |s|
    ensures WellFormedFrom(s[a..], i) == WellFormedFrom(s, ai)
    ensures CountFrom(s[a..], i) == CountFrom(s, ai)
    ensures DecodeFrom(s[a..], i) == DecodeFrom(s, ai)
    decreases |s| - ai
  {
    if ai < |s| {
      var n := SizeAt(s, ai);
      AtDrop(s, a, i, ai);
      FromDrop(s, a, i + n, ai + n);
    }
  }

  /** Offsets from byte `i` of the tail of `s` from `a` are offsets from
      byte `a + i` of `s`, less `a`. */
  lemma {:induction false} OffsetDrop(s: seq<byte>, a: nat, i: nat, ai: nat, k: nat)
    requires ai == a + i <= |s|
    ensures a + OffsetFrom(s[a..], i, k) == OffsetFrom(s, ai, k)
    decreases k
  {
    if k > 0 && ai < |s| {
      var n := SizeAt(s, ai);
      AtDrop(s, a, i, ai);
      OffsetDrop(s, a, i + n, ai + n, k - 1);
    }
  }

  /** Decoding from byte `|x| + j` of `x + y` is decoding from byte `j` of
      `y`. */
  lemma {:induction false} FromRight(x: seq<byte>, y: seq<byte>, j: nat, i: nat)
    requires j <= |y| && i == |x| + j
    ensures WellFormedFrom(x + y, i) == WellFormedFrom(y, j)
    ensures CountFrom(x + y, i) == CountFrom(y, j)
    ensures DecodeFrom(x + y, i) == DecodeFrom(y, j)
  {
    var s := x + y;
    assert s[|x|..] == y;
    FromDrop(s, |x|, j, i);
  }

  /** Offsets from byte `|x| + j` of `x + y` are those from byte `j` of `y`,
      shifted by `|x|`. */
  lemma {:induction false} OffsetRight(x: seq<byte>, y: seq<byte>, j: nat, i: nat, k: nat)
    requires j <= |y| && i == |x| + j
    ensures OffsetFrom(x + y, i, k) == |x| + OffsetFrom(y, j, k)
  {
    var s := x + y;
    assert s[|x|..] == y;
    OffsetDrop(s, |x|, j, i, k);
  }

  /** Walking `a` codepoints from byte `i` and then `m` more lands where
      walking `a + m` does. */
  lemma {:induction false} ShiftAt(s: seq<byte>, i: nat, a: nat, m: nat)
    requires i <= |s|
    ensures OffsetFrom(s, OffsetFrom(s, i, a), m) == OffsetFrom(s, i, a + m)
    decreases a
  {
    if a > 0 && i < |s| {
      ShiftAt(s, i + SizeAt(s, i), a - 1, m);
    }
  }

  /** From byte `i`, walking at least as many codepoints as there are
      reaches the end; walking fewer stops before it. */
  lemma {:induction false} EndFrom(s: seq<byte>, i: nat, k: nat)
    requires i <= |s|
    ensures k >= CountFrom(s, i) ==> OffsetFrom(s, i, k) == |s|
    ensures k < CountFrom(s, i) ==> OffsetFrom(s, i, k) < |s|
    decreases k
  {
    if k > 0 && i < |s| {
      EndFrom(s, i + SizeAt(s, i), k - 1);
    }
  }

  /** Cutting a well-formed string after the `k`-th codepoint from byte `i`
      leaves exactly those `k` codepoints from `i`, well-formed. */
  lemma {:induction false} TakeFrom(s: seq<byte>, e: nat, i: nat, k: nat)
    requires i <= |s| && WellFormedFrom(s, i) && k <= CountFrom(s, i) && e == OffsetFrom(s, i, k)
    ensures WellFormedFrom(s[..e], i) && CountFrom(s[..e], i) == k
    decreases k
  {
    if k > 0 {
      var n := SizeAt(s, i);
      AtTake(s, e, i);
      TakeFrom(s, e, i + n, k - 1);
    }
  }

  /** ... and those codepoints are the first `k` decoded from `i`. */
  lemma {:induction false} TakeDecode(s: seq<byte>, e: nat, i: nat, k: nat)
    requires i <= |s| && WellFormedFrom(s, i) && k <= CountFrom(s, i) && e == OffsetFrom(s, i, k)
    ensures DecodeFrom(s[..e], i) == DecodeFrom(s, i)[..k]
    decreases k
  {
    if k > 0 {
      var n := SizeAt(s, i);
      AtTake(s, e, i);
      TakeDecode(s, e, i + n, k - 1);
      HeadTake(RuneAt(s, i).rune, DecodeFrom(s, i + n), k - 1);
    }
  }

  /** Taking `k + 1` elements of a sequence with a head takes `k` of the
      rest. */
  lemma {:induction false} HeadTake<T>(x: T, rest: seq<T>, k: nat)
    requires k <= |rest|
    ensures ([x] + rest)[..k + 1] == [x] + rest[..k]
  {
  }

  /** Past the `k`-th codepoint from byte `i` a well-formed string stays
      well-formed, with `k` codepoints fewer. */
  lemma {:induction false} SuffixFrom(s: seq<byte>, i: nat, k: nat)
    requires i <= |s| && WellFormedFrom(s, i) && k <= CountFrom(s, i)
    ensures WellFormedFrom(s, OffsetFrom(s, i, k))
    ensures CountFrom(s, OffsetFrom(s, i, k)) + k == CountFrom(s, i)
    decreases k
  {
    if k > 0 {
      SuffixFrom(s, i + SizeAt(s, i), k - 1);
    }
  }

  /** ... and decodes to the codepoints from the `k`-th on. */
  lemma {:induction false} SuffixDecode(s: seq<byte>, i: nat, k: nat)
    requires i <= |s| && k <= CountFrom(s, i)
    ensures DecodeFrom(s, OffsetFrom(s, i, k)) == DecodeFrom(s, i)[k..]
    decreases k
  {
    if k > 0 {
      var n := SizeAt(s, i);
      var rest := DecodeFrom(s, i + n);
      assert DecodeFrom(s, i) == [RuneAt(s, i).rune] + rest;
      assert OffsetFrom(s, i, k) == OffsetFrom(s, i + n, k - 1);
      SuffixDecode(s, i + n, k - 1);
      HeadDrop(RuneAt(s, i).rune, rest, k - 1);
    }
  }

  /** Dropping `k + 1` elements of a sequence with a head drops `k` of the
      rest. */
  lemma {:induction false} HeadDrop<T>(x: T, rest: seq<T>, k: nat)
    requires k <= |rest|
    ensures ([x] + rest)[k + 1..] == rest[k..]
  {
  }

  /** Within a well-formed front part, offsets ignore what follows it. */
  lemma {:induction false} LeftFrom(x: seq<byte>, y: seq<byte>, i: nat, k: nat)
    requires i <= |x| && WellFormedFrom(x, i) && k <= CountFrom(x, i)
    ensures OffsetFrom(x + y, i, k) == OffsetFrom(x, i, k)
    decreases k
  {
    if k > 0 {
      AtLeft(x, y, i);
      LeftFrom(x, y, i + SizeAt(x, i), k - 1);
    }
  }

  /** A well-formed front part from byte `i` followed by a well-formed
      string is well-formed from `i`, with the codepoints of both. */
  lemma {:induction false} AppendFrom(x: seq<byte>, y: seq<byte>, i: nat)
    requires i <= |x| && WellFormedFrom(x, i) && WellFormed(y)
    ensures WellFormedFrom(x + y, i)
    ensures CountFrom(x + y, i) == CountFrom(x, i) + RuneCount(y)
    decreases |x| - i
  {
    if i == |x| {
      FromRight(x, y, 0, i);
    } else {
      AtLeft(x, y, i);
      AppendFrom(x, y, i + SizeAt(x, i));
    }
  }

  /** ... and decodes to the codepoints of both. */
  lemma {:induction false} AppendDecode(x: seq<byte>, y: seq<byte>, i: nat)
    requires i <= |x| && WellFormedFrom(x, i)
    ensures DecodeFrom(x + y, i) == DecodeFrom(x, i) + Decode(y)
    decreases |x| - i
  {
    if i == |x| {
      FromRight(x, y, 0, i);
    } else {
      var n := SizeAt(x, i);
      AtLeft(x, y, i);
      AppendDecode(x, y, i + n);
      HeadAppend(RuneAt(x, i).rune, DecodeFrom(x, i + n), Decode(y));
    }
  }

  /** A head in front of two sequences side by side. */
  lemma {:induction false} HeadAppend<T>(h: T, a: seq<T>, b: seq<T>)
    ensures [h] + (a + b) == ([h] + a) + b
  {
  }

  // The properties of whole strings the piece tables rely on.

  /** The width of the first sequence depends only on its own bytes. */
  lemma {:induction false} SizeAppend(a: seq<byte>, b: seq<byte>)
    requires ValidStart(a)
    ensures ValidStart(a + b)
    ensures Size(a + b) == Size(a)
  {
    AtLeft(a, b, 0);
  }

  /** Decoding depends only on the bytes of the first sequence. */
  lemma {:induction false} DecodeRuneAppend(a: seq<byte>, b: seq<byte>)
    requires ValidStart(a)
    ensures ValidStart(a + b)
    ensures DecodeRune(a + b) == DecodeRune(a)
  {
    AtLeft(a, b, 0);
  }

  /** The first sequence of `s`, cut out on its own, decodes the same. */
  lemma {:induction false} FirstRune(s: seq<byte>)
    requires ValidStart(s)
    ensures ValidStart(s[..Size(s)])
    ensures DecodeRune(s[..Size(s)]) == DecodeRune(s)
  {
    AtTake(s, Size(s), 0);
  }

  /** Round trip: an encoded string is well-formed UTF-8, decodes back to
      itself and has as many codepoints as the string had runes. */
  lemma {:induction false} EncodeDecode(rs: seq<Rune>)
    ensures WellFormed(Encode(rs))
    ensures Decode(Encode(rs)) == rs
    ensures RuneCount(Encode(rs)) == |rs|
  {
    if rs != [] {
      var e, tail := EncodeRune(rs[0]), Encode(rs[1..]);
      DecodeEncodeRune(rs[0], tail);
      FromRight(e, tail, 0, |e|);
      EncodeDecode(rs[1..]);
    }
  }

  /** Concatenating well-formed strings keeps them well-formed and adds
      their codepoints. */
  lemma {:induction false} AppendWellFormed(a: seq<byte>, b: seq<byte>)
    requires WellFormed(a) && WellFormed(b)
    ensures WellFormed(a + b)
    ensures RuneCount(a + b) == RuneCount(a) + RuneCount(b)
  {
    AppendFrom(a, b, 0);
  }

  /** A well-formed front part decodes on its own. */
  lemma {:induction false} DecodeAppend(a: seq<byte>, b: seq<byte>)
    requires WellFormed(a)
    ensures Decode(a + b) == Decode(a) + Decode(b)
  {
    AppendDecode(a, b, 0);
  }

  /** One complete codepoint in front of a well-formed string. */
  lemma {:induction false} PrependRune(x: seq<byte>, rest: seq<byte>)
    requires ValidStart(x) && Size(x) == |x|
    requires WellFormed(rest)
    ensures WellFormed(x + rest)
    ensures RuneCount(x + rest) == 1 + RuneCount(rest)
  {
    AtLeft(x, rest, 0);
    FromRight(x, rest, 0, |x|);
  }

  /** Decoding from byte `j` on yields the codepoint at `j` first, then
      what decoding yields after it. */
  lemma {:induction false} DecodeStep(s: seq<byte>, j: nat, d: Decoded)
    requires j < |s| && d == DecodeRune(s[j..])
    ensures 0 < d.size && j + d.size <= |s|
    ensures Decode(s[j..]) == [d.rune] + Decode(s[j + d.size..])
  {
    var n := SizeAt(s, j);
    AtDrop(s, j, 0, j);
    FromDrop(s, j, 0, j);
    FromDrop(s, j + n, 0, j + n);
  }

  /** A well-formed string splits at the offset of any codepoint into two
      well-formed halves, the first holding exactly `k` codepoints. */
  lemma {:induction false} SplitAtOffset(s: seq<byte>, k: nat)
    requires WellFormed(s) && k <= RuneCount(s)
    ensures WellFormed(s[..Offset(s, k)]) && WellFormed(s[Offset(s, k)..])
    ensures RuneCount(s[..Offset(s, k)]) == k
    ensures RuneCount(s[Offset(s, k)..]) == RuneCount(s) - k
  {
    OffsetPrefix(s, k);
    OffsetSuffix(s, k);
  }

  /** Dropping `a` elements and then `b` more drops `a + b`. */
  lemma {:induction false} DropDrop<T>(s: seq<T>, a: nat, b: nat)
    requires a + b <= |s|
    ensures s[a..][b..] == s[a + b..]
  {
  }

  /** The bytes after the `k`-th codepoint of a well-formed string are
      well-formed and hold the remaining codepoints. */
  lemma {:induction false} OffsetSuffix(s: seq<byte>, k: nat)
    requires WellFormed(s) && k <= RuneCount(s)
    ensures WellFormed(s[Offset(s, k)..])
    ensures RuneCount(s[Offset(s, k)..]) == RuneCount(s) - k
  {
    var a := Offset(s, k);
    SuffixFrom(s, 0, k);
    FromDrop(s, a, 0, a);
  }

  /** The bytes of the first `k` codepoints of a well-formed string are
      well-formed and hold `k` codepoints. */
  lemma {:induction false} OffsetPrefix(s: seq<byte>, k: nat)
    requires WellFormed(s) && k <= RuneCount(s)
    ensures WellFormed(s[..Offset(s, k)])
    ensures RuneCount(s[..Offset(s, k)]) == k
  {
    TakeFrom(s, Offset(s, k), 0, k);
  }

  /** Walking `i` codepoints and then `m` more lands where walking `i + m`
      codepoints does. */
  lemma {:induction false} OffsetShift(s: seq<byte>, i: nat, m: nat)
    ensures Offset(s, i) + Offset(s[Offset(s, i)..], m) == Offset(s, i + m)
  {
    var a := Offset(s, i);
    OffsetDrop(s, a, 0, a, m);
    ShiftAt(s, 0, i, m);
  }

  /** One more codepoint moves the offset on by the width of the codepoint
      found there. */
  lemma {:induction false} OffsetStep(s: seq<byte>, m: nat)
    requires m < RuneCount(s)
    ensures Offset(s, m) < |s|
    ensures Offset(s, m + 1) == Offset(s, m) + Size(s[Offset(s, m)..])
  {
    var a := Offset(s, m);
    EndFrom(s, 0, m);
    ShiftAt(s, 0, m, 1);
    AtDrop(s, a, 0, a);
  }

  /** Offsets grow with the codepoint count. */
  lemma {:induction false} OffsetMonotone(s: seq<byte>, i: nat, j: nat)
    requires i <= j
    ensures Offset(s, i) <= Offset(s, j)
  {
    ShiftAt(s, 0, i, j - i);
  }

  /** Past its last codepoint the offset is the end of the string; before
      it, strictly inside. */
  lemma {:induction false} OffsetEnd(s: seq<byte>, k: nat)
    ensures k >= RuneCount(s) ==> Offset(s, k) == |s|
    ensures k < RuneCount(s) ==> Offset(s, k) < |s|
  {
    EndFrom(s, 0, k);
  }

  /** Different codepoint counts up to the end give different offsets. */
  lemma {:induction false} OffsetStrict(s: seq<byte>, i: nat, j: nat)
    requires i < j && i < RuneCount(s)
    ensures Offset(s, i) < Offset(s, j)
  {
    ShiftAt(s, 0, i, j - i);
    EndFrom(s, 0, i);
  }

  /** Within a well-formed front part, offsets ignore what follows. */
  lemma {:induction false} OffsetAppendLeft(a: seq<byte>, b: seq<byte>, k: nat)
    requires WellFormed(a) && k <= RuneCount(a)
    ensures Offset(a + b, k) == Offset(a, k)
  {
    LeftFrom(a, b, 0, k);
  }

  /** Past a well-formed front part, offsets are those of the back part
      shifted by its length. */
  lemma {:induction false} OffsetAppendRight(a: seq<byte>, b: seq<byte>, k: nat)
    requires WellFormed(a)
    ensures Offset(a + b, RuneCount(a) + k) == |a| + Offset(b, k)
  {
    var n := RuneCount(a);
    ShiftAt(a + b, 0, n, k);
    LeftFrom(a, b, 0, n);
    EndFrom(a, 0, n);
    OffsetRight(a, b, 0, |a|, k);
  }

  /** In `s == x + (y + z)` with `x` and `y` well-formed and `x` holding
      `n` codepoints in `b` bytes, codepoint `n + m` of `s` is codepoint `m`
      of the middle part, `b` bytes further on. */
  lemma {:induction false} OffsetMiddle(s: seq<byte>, x: seq<byte>, y: seq<byte>, z: seq<byte>, n: nat, b: nat, m: nat)
    requires s == x + (y + z) && WellFormed(x) && WellFormed(y) && m <= RuneCount(y)
    requires n == RuneCount(x) && b == |x|
    ensures Offset(s, n + m) == b + Offset(y, m)
  {
    OffsetAppendRight(x, y + z, m);
    OffsetAppendLeft(y, z, m);
  }

  /** In well-formed `a + b`, the codepoints of `b` start after `a` and
      end at the end. */
  lemma {:induction false} AppendBounds(a: seq<byte>, b: seq<byte>, n: nat, e: nat)
    requires WellFormed(a) && WellFormed(b) && n == RuneCount(a) && e == n + RuneCount(b)
    ensures WellFormed(a + b) && RuneCount(a + b) == e
    ensures Offset(a + b, n) == |a| && Offset(a + b, e) == |a| + |b|
  {
    AppendWellFormed(a, b);
    OffsetAppendRight(a, b, 0);
    OffsetAppendRight(a, b, RuneCount(b));
    OffsetEnd(b, RuneCount(b));
  }

  /** The offset of codepoint `p` of `x + (y + z)`, `m` codepoints into
      `y`, when that codepoint lies in `y` or nothing follows `y`. */
  lemma {:induction false} OffsetInPart(s: seq<byte>, x: seq<byte>, y: seq<byte>, z: seq<byte>, n: nat, b: nat, m: nat, p: nat)
    requires s == x + (y + z) && WellFormed(x) && WellFormed(y) && (m <= RuneCount(y) || z == [])
    requires n == RuneCount(x) && b == |x| && p == n + m
    ensures Offset(s, p) == b + Offset(y, m)
  {
    if m <= RuneCount(y) {
      OffsetMiddle(s, x, y, z, n, b, m);
    } else {
      OffsetPast(s, x, y, z, m);
    }
  }

  /** With nothing after `y`, offsets past `x` count from the start of `y`. */
  lemma {:induction false} OffsetPast(s: seq<byte>, x: seq<byte>, y: seq<byte>, z: seq<byte>, m: nat)
    requires s == x + (y + z) && WellFormed(x) && z == []
    ensures Offset(s, RuneCount(x) + m) == |x| + Offset(y, m)
  {
    assert s == x + y;
    OffsetAppendRight(x, y, m);
  }

  /** The bytes of codepoints `i .. j` of a well-formed string are
      well-formed and hold `j - i` codepoints. */
  lemma {:induction false} OffsetRange(s: seq<byte>, i: nat, j: nat)
    requires WellFormed(s) && i <= j <= RuneCount(s)
    ensures Offset(s, i) <= Offset(s, j)
    ensures WellFormed(s[Offset(s, i)..Offset(s, j)])
    ensures RuneCount(s[Offset(s, i)..Offset(s, j)]) == j - i
  {
    var a := Offset(s, i);
    var t := s[a..];
    OffsetSuffix(s, i);
    OffsetShift(s, i, j - i);
    OffsetPrefix(t, j - i);
    assert t[..Offset(t, j - i)] == s[a..Offset(s, j)];
  }

  /** A sequence made of two parts gives them back when cut at the
      length of the first. */
  lemma {:induction false} Parts<T>(whole: seq<T>, x: seq<T>, y: seq<T>)
    requires whole == x + y
    ensures whole[..|x|] == x && whole[|x|..] == y
  {
  }

  /** Cutting a well-formed string at the offset of codepoint `k` cuts its
      decoding at `k`. */
  lemma {:induction false} DecodeSplit(s: seq<byte>, k: nat)
    requires WellFormed(s) && k <= RuneCount(s)
    ensures Decode(s[..Offset(s, k)]) == Decode(s)[..k]
    ensures Decode(s[Offset(s, k)..]) == Decode(s)[k..]
  {
    var a := Offset(s, k);
    TakeDecode(s, a, 0, k);
    SuffixDecode(s, 0, k);
    FromDrop(s, a, 0, a);
  }

  /** Removing the bytes of codepoints `p .. q` from a well-formed string
      `t`, which leaves `u`, removes exactly those codepoints from its
      decoding. */
  lemma {:induction false} DecodeCut(t: seq<byte>, u: seq<byte>, p: nat, q: nat)
    requires WellFormed(t) && p <= q <= RuneCount(t)
    requires u == t[..Offset(t, p)] + t[Offset(t, q)..]
    ensures Offset(t, p) <= Offset(t, q) && |u| + (Offset(t, q) - Offset(t, p)) == |t|
    ensures WellFormed(u) && RuneCount(u) + (q - p) == RuneCount(t)
    ensures Decode(u) == Decode(t)[..p] + Decode(t)[q..]
  {
    var x, y := t[..Offset(t, p)], t[Offset(t, q)..];
    OffsetMonotone(t, p, q);
    OffsetPrefix(t, p);
    OffsetSuffix(t, q);
    AppendWellFormed(x, y);
    DecodeAppend(x, y);
    DecodeSplit(t, p);
    DecodeSplit(t, q);
  }

  /** Inserting a well-formed string at the offset of codepoint `p` of
      another inserts its codepoints at `p` in the decoding. */
  lemma {:induction false} DecodeInsert(t: seq<byte>, text: seq<byte>, p: nat)
    requires WellFormed(t) && WellFormed(text) && p <= RuneCount(t)
    ensures WellFormed(t[..Offset(t, p)] + text + t[Offset(t, p)..])
    ensures RuneCount(t[..Offset(t, p)] + text + t[Offset(t, p)..]) == RuneCount(t) + RuneCount(text)
    ensures Decode(t[..Offset(t, p)] + text + t[Offset(t, p)..]) == Decode(t)[..p] + Decode(text) + Decode(t)[p..]
  {
    var x, y := t[..Offset(t, p)], t[Offset(t, p)..];
    SplitAtOffset(t, p);
    AppendWellFormed(x, text);
    DecodeAppend(x, text);
    AppendWellFormed(x + text, y);
    DecodeAppend(x + text, y);
    DecodeSplit(t, p);
  }

  /** The bytes of codepoints `i .. j` of a well-formed string decode to
      exactly those codepoints. */
  lemma {:induction false} DecodeSlice(s: seq<byte>, i: nat, j: nat)
    requires WellFormed(s) && i <= j <= RuneCount(s)
    ensures Offset(s, i) <= Offset(s, j)
    ensures Decode(s[Offset(s, i)..Offset(s, j)]) == Decode(s)[i..j]
  {
    var a, c := Offset(s, i), Offset(s, j);
    var t := s[a..];
    var m := j - i;
    var d := Offset(t, m);
    TailWindow(s, i, m, j, a, c, t, d);
    TailDecode(s, i, m, j, t, d);
  }

  /** The bytes of codepoints `i .. j` of `s` are the first `m` codepoints
      of the tail `t` from codepoint `i`. */
  lemma {:induction false} TailWindow(s: seq<byte>, i: nat, m: nat, j: nat, a: nat, c: nat, t: seq<byte>, d: nat)
    requires WellFormed(s) && j == i + m <= RuneCount(s)
    requires a == Offset(s, i) && c == Offset(s, j) && t == s[a..] && d == Offset(t, m)
    ensures a <= c && t[..d] == s[a..c]
  {
    OffsetSuffix(s, i);
    OffsetShiftTo(s, i, m, j);
    SliceWindow(s, t, a, d, c);
  }

  /** The first `m` codepoints of the tail `t` from codepoint `i` decode to
      codepoints `i .. j`. */
  lemma {:induction false} TailDecode(s: seq<byte>, i: nat, m: nat, j: nat, t: seq<byte>, d: nat)
    requires WellFormed(s) && j == i + m <= RuneCount(s)
    requires t == s[Offset(s, i)..] && d == Offset(t, m)
    ensures Decode(t[..d]) == Decode(s)[i..j]
  {
    TailFrom(s, i, t);
    TailHead(s, i, m, j, t, d);
  }

  lemma {:induction false} TailHead(s: seq<byte>, i: nat, m: nat, j: nat, t: seq<byte>, d: nat)
    requires WellFormed(t) && RuneCount(t) + i == RuneCount(s) && Decode(t) == Decode(s)[i..]
    requires j == i + m <= RuneCount(s) && d == Offset(t, m)
    ensures Decode(t[..d]) == Decode(s)[i..j]
  {
    DecodeHead(t, m, d);
    WindowOf(Decode(t[..d]), Decode(s), Decode(t), i, m, j);
  }

  /** The first `m` codepoints of a well-formed string decode to the first
      `m` codepoints of its decoding. */
  lemma {:induction false} DecodeHead(t: seq<byte>, m: nat, d: nat)
    requires WellFormed(t) && m <= RuneCount(t) && d == Offset(t, m)
    ensures Decode(t[..d]) == Decode(t)[..m]
  {
    DecodeSplit(t, m);
  }

  /** The tail `t` of a well-formed string from codepoint `i` is
      well-formed and decodes to the codepoints from `i` on. */
  lemma {:induction false} TailFrom(s: seq<byte>, i: nat, t: seq<byte>)
    requires WellFormed(s) && i <= RuneCount(s) && t == s[Offset(s, i)..]
    ensures WellFormed(t) && RuneCount(t) + i == RuneCount(s)
    ensures Decode(t) == Decode(s)[i..]
  {
    OffsetSuffix(s, i);
    DecodeSplit(s, i);
  }

  /** `OffsetShift`, landing on a variable holding `i + m`. */
  lemma {:induction false} OffsetShiftTo(s: seq<byte>, i: nat, m: nat, j: nat)
    requires j == i + m
    ensures Offset(s, i) + Offset(s[Offset(s, i)..], m) == Offset(s, j)
  {
    OffsetShift(s, i, m);
  }

  /** Dropping `a` elements and then keeping `b` keeps `a .. c`. */
  lemma {:induction false} SliceWindow<T>(s: seq<T>, t: seq<T>, a: nat, b: nat, c: nat)
    requires a <= |s| && t == s[a..] && c == a + b && b <= |t|
    ensures t[..b] == s[a..c]
  {
  }

  /** The first `m` elements of the tail `u` of `d` from `i` are elements
      `i .. j` of `d`. */
  lemma {:induction false} WindowOf<T>(x: seq<T>, d: seq<T>, u: seq<T>, i: nat, m: nat, j: nat)
    requires i <= |d| && u == d[i..] && j == i + m && m <= |u| && x == u[..m]
    ensures x == d[i..j]
  {
  }

  /** The bytes of codepoint `p` of a well-formed string are not empty,
      and decoding their front gives that codepoint. */
  lemma {:induction false} DecodeAt(s: seq<byte>, p: nat)
    requires WellFormed(s) && p < RuneCount(s)
    ensures Offset(s, p) < Offset(s, p + 1)
    ensures DecodeRune(s[Offset(s, p)..Offset(s, p + 1)]).rune == Decode(s)[p]
  {
    OffsetStrict(s, p, p + 1);
    DecodeSlice(s, p, p + 1);
  }
}
