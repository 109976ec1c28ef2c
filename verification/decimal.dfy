/** The decimal numerals `PrintPosition` appends, as Go's `strconv.Itoa`
    writes them for a non-negative value: ASCII digits, most significant
    first, no leading zero. */
module Decimal {
  import opened Utf8

  /** ASCII '0' to '9'. */
  predicate IsDigit(b: byte) {
    48 <= b <= 57
  }

  /** The ASCII digit for `d`. */
  function Digit(d: nat): (b: byte)
    requires d < 10
    ensures IsDigit(b) && b as int - 48 == d
  {
    (48 + d) as byte
  }

  /** The numeral of `n`. */
  function Itoa(n: nat): (s: seq<byte>)
    ensures 1 <= |s|
    ensures forall i | 0 <= i < |s| :: IsDigit(s[i])
    ensures s[0] == 48 ==> n == 0 && |s| == 1
    decreases n
  {
    if n < 10 then [Digit(n)] else Itoa(n / 10) + [Digit(n % 10)]
  }

  /** The value a numeral denotes. */
  function Value(s: seq<byte>): nat
    requires forall i | 0 <= i < |s| :: IsDigit(s[i])
  {
    if s == [] then 0
    else
      assert IsDigit(s[|s| - 1]);
      Value(s[..|s| - 1]) * 10 + (s[|s| - 1] as int - 48)
  }

  /** Reading the numeral back gives the value it was written for. */
  lemma {:induction false} ValueItoa(n: nat)
    ensures Value(Itoa(n)) == n
    decreases n
  {
    if n >= 10 {
      var s := Itoa(n);
      assert s[..|s| - 1] == Itoa(n / 10);
      ValueItoa(n / 10);
    }
  }

  /** Different values are written differently. */
  lemma {:induction false} ItoaInjective(m: nat, n: nat)
    requires Itoa(m) == Itoa(n)
    ensures m == n
  {
    ValueItoa(m);
    ValueItoa(n);
  }
}
