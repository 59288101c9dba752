/** `rgba_to_svg_fill`: the `#RRGGBB` fill colour and the opacity `a / 255`
    of a pixel, and the rule that decides when the opacity is written. */
module Fill {
  import opened Wrappers
  import opened Pixels

  predicate IsUpperHex(c: char) {
    '0' <= c <= '9' || 'A' <= c <= 'F'
  }

  /** The upper-case hexadecimal digit of `d`, as the `X` format writes it. */
  function HexDigit(d: int): (c: char)
    requires 0 <= d < 16
    ensures IsUpperHex(c)
  {
    if d < 10 then ('0' as int + d) as char else ('A' as int + d - 10) as char
  }

  function HexValue(c: char): (d: int)
    requires IsUpperHex(c)
    ensures 0 <= d < 16
    ensures HexDigit(d) == c
  {
    if c <= '9' then c as int - '0' as int else c as int - 'A' as int + 10
  }

  /** `f"{v:02X}"` for one channel: two digits, high nibble first. */
  function Hex2(v: Byte): (s: string)
    ensures |s| == 2 && IsUpperHex(s[0]) && IsUpperHex(s[1])
    ensures HexValue(s[0]) * 16 + HexValue(s[1]) == v
  {
    [HexDigit(v / 16), HexDigit(v % 16)]
  }

  /** The fill colour `#RRGGBB` of a pixel's colour channels. */
  function FillHex(r: Byte, g: Byte, b: Byte): (s: string)
    ensures |s| == 7 && s[0] == '#'
    ensures forall i :: 1 <= i < 7 ==> IsUpperHex(s[i])
  {
    "#" + Hex2(r) + Hex2(g) + Hex2(b)
  }

  /** Reads a `#RRGGBB` colour with upper-case digits back as its channels. */
  function ParseFill(s: string): Option<(Byte, Byte, Byte)> {
    if |s| == 7 && s[0] == '#' && forall i :: 1 <= i < 7 ==> IsUpperHex(s[i]) then
      Some((HexValue(s[1]) * 16 + HexValue(s[2]),
            HexValue(s[3]) * 16 + HexValue(s[4]),
            HexValue(s[5]) * 16 + HexValue(s[6])))
    else
      None
  }

  /** Reading the fill colour back gives the channels it was made from. */
  lemma FillRoundTrip(r: Byte, g: Byte, b: Byte)
    ensures ParseFill(FillHex(r, g, b)) == Some((r, g, b))
  {
    var s := FillHex(r, g, b);
    assert s[1..3] == Hex2(r) && s[3..5] == Hex2(g) && s[5..7] == Hex2(b);
  }

  /** Two upper-case hex digits are the `Hex2` text of the value they
      denote. */
  lemma Hex2Inverse(hi: char, lo: char)
    requires IsUpperHex(hi) && IsUpperHex(lo)
    ensures Hex2(HexValue(hi) * 16 + HexValue(lo)) == [hi, lo]
  {
    var v := HexValue(hi) * 16 + HexValue(lo);
    assert v / 16 == HexValue(hi) && v % 16 == HexValue(lo);
  }

  /** Conversely, every colour text the parser accepts is the fill colour of
      what it reads: the `#RRGGBB` texts and the colours are in one-to-one
      correspondence. */
  lemma ParseFillInverse(s: string)
    requires ParseFill(s).Some?
    ensures var (r, g, b) := ParseFill(s).value; FillHex(r, g, b) == s
  {
    var (r, g, b) := ParseFill(s).value;
    Hex2Inverse(s[1], s[2]);
    Hex2Inverse(s[3], s[4]);
    Hex2Inverse(s[5], s[6]);
    assert s == "#" + [s[1], s[2]] + [s[3], s[4]] + [s[5], s[6]];
  }

  /** The opacity `a / 255.0` that accompanies the fill. */
  function Opacity(a: Byte): (o: real)
    ensures 0.0 <= o <= 1.0
    ensures o * 255.0 == a as real
  {
    a as real / 255.0
  }

  /** Whether the `fill-opacity` attribute is written: `image_to_svg_vector` tests
      `opacity < 1.0`, which for a channel value means exactly `a < 255`. */
  predicate EmitsOpacity(a: Byte): (b: bool)
    ensures b <==> a < 255
  {
    Opacity(a) < 1.0
  }
}
