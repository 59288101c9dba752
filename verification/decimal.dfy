/** Decimal text of numbers, as Python's `f"{n}"` and `f"{x:.6f}"` write
    them, with the parsers that read it back. */
module Decimal {
  import opened Wrappers

  predicate IsDigit(c: char) {
    '0' <= c <= '9'
  }

  predicate AllDigits(s: string) {
    forall i :: 0 <= i < |s| ==> IsDigit(s[i])
  }

  function DigitChar(d: int): (c: char)
    requires 0 <= d < 10
    ensures IsDigit(c)
  {
    ('0' as int + d) as char
  }

  function DigitValue(c: char): (d: int)
    requires IsDigit(c)
    ensures 0 <= d < 10
    ensures DigitChar(d) == c
  {
    c as int - '0' as int
  }

  function Pow10(k: nat): (p: nat)
    ensures p >= 1
  {
    if k == 0 then 1 else 10 * Pow10(k - 1)
  }

  /** The value of a string of decimal digits. */
  function ParseNat(s: string): nat
    requires AllDigits(s)
  {
    if s == [] then 0 else ParseNat(s[..|s| - 1]) * 10 + DigitValue(s[|s| - 1])
  }

  /** `f"{n}"` for a non-negative integer: no sign, no leading zero. */
  function NatToString(n: nat): (s: string)
    ensures 1 <= |s|
    ensures AllDigits(s)
    ensures 1 < |s| ==> s[0] != '0'
    decreases n
  {
    if n < 10 then [DigitChar(n)] else NatToString(n / 10) + [DigitChar(n % 10)]
  }

  lemma {:induction false} NatToStringRoundTrip(n: nat)
    ensures ParseNat(NatToString(n)) == n
    decreases n
  {
    if n >= 10 {
      NatToStringRoundTrip(n / 10);
      var s := NatToString(n);
      assert s[..|s| - 1] == NatToString(n / 10);
    }
  }

  /** Exactly `width` digits of `n`, zero-padded on the left. */
  function PadDigits(n: nat, width: nat): (s: string)
    requires n < Pow10(width)
    ensures |s| == width
    ensures AllDigits(s)
    decreases width
  {
    if width == 0 then "" else PadDigits(n / 10, width - 1) + [DigitChar(n % 10)]
  }

  lemma {:induction false} PadDigitsRoundTrip(n: nat, width: nat)
    requires n < Pow10(width)
    ensures ParseNat(PadDigits(n, width)) == n
    decreases width
  {
    if width > 0 {
      PadDigitsRoundTrip(n / 10, width - 1);
      var s := PadDigits(n, width);
      assert s[..|s| - 1] == PadDigits(n / 10, width - 1);
    }
  }

  /** The number of millionths nearest to `x`. The half-way case rounds up;
      it never arises for the opacities `a / 255` the converter prints,
      since `a * 10^6 / 255` is never an odd multiple of one half. */
  function Round6(x: real): (n: int)
    ensures n as real - 0.5 <= x * 1000000.0 < n as real + 0.5
  {
    (x * 1000000.0 + 0.5).Floor
  }

  /** `f"{x:.6f}"` for a non-negative `x`: integer part, a point, and six
      fractional digits. */
  function Fixed6(x: real): (s: string)
    requires 0.0 <= x
    ensures 8 <= |s|
    ensures s[|s| - 7] == '.'
  {
    var n := Round6(x);
    NatToString(n / 1000000) + "." + PadDigits(n % 1000000, 6)
  }

  /** Reads text of the form `digits.dddddd` back as a number. */
  function ParseFixed6(s: string): Option<real> {
    if |s| >= 8 && s[|s| - 7] == '.' && AllDigits(s[..|s| - 7]) && AllDigits(s[|s| - 6..]) then
      Some(ParseNat(s[..|s| - 7]) as real + ParseNat(s[|s| - 6..]) as real / 1000000.0)
    else
      None
  }

  /** `Fixed6` reads back as a number within half a millionth of its input. */
  lemma Fixed6Accurate(x: real)
    requires 0.0 <= x
    ensures ParseFixed6(Fixed6(x)).Some?
    ensures var v := ParseFixed6(Fixed6(x)).value;
      x - 0.0000005 < v <= x + 0.0000005
  {
    var n := Round6(x);
    var ip, fp := NatToString(n / 1000000), PadDigits(n % 1000000, 6);
    var s := Fixed6(x);
    assert s[..|s| - 7] == ip;
    assert s[|s| - 6..] == fp;
    NatToStringRoundTrip(n / 1000000);
    PadDigitsRoundTrip(n % 1000000, 6);
    var v := ParseFixed6(s).value;
    assert v == (n / 1000000) as real + (n % 1000000) as real / 1000000.0;
    assert v * 1000000.0 == n as real;
  }
}
