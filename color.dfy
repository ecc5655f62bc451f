// ConsoleApp/Colors/Color.cs: a colour as three bytes, packed into an `int` as 0xRRGGBB
// and written as "#RRGGBB".

module Colors {
  import opened CSharp
  import Recursion
  import ULong

  /** C#'s `byte`. */
  newtype byte = x: int | 0 <= x < 0x100

  /** `Color(r, g, b)`: the three channels, each a byte. */
  datatype Color = Color(red: byte, green: byte, blue: byte)

  /** `Color(int rawValue)`: `>> 16` and `>> 8` are arithmetic shifts, that is floor
      division by 2^16 and 2^8, and `& 0b11111111` keeps the value modulo 256. */
  function FromRaw(rawValue: int32): Color {
    var v := rawValue as int;
    Color((v / 0x1_0000 % 0x100) as byte, (v / 0x100 % 0x100) as byte, (v % 0x100) as byte)
  }

  /** `RawValue`: `(Red << 16) + (Green << 8) + Blue`, which never leaves 24 bits. */
  function RawValue(c: Color): (v: int32)
    ensures 0 <= v < 0x100_0000
  {
    (c.red as int * 0x1_0000 + c.green as int * 0x100 + c.blue as int) as int32
  }

  /** Packing and unpacking a colour gives back the same channels. */
  lemma ColorRoundTrip(c: Color)
    ensures FromRaw(RawValue(c)) == c
  {
    var v := RawValue(c) as int;
    var r, g, b := c.red as int, c.green as int, c.blue as int;
    ULong.DivUnique(v, 0x100, r * 0x100 + g, b);
    ULong.DivUnique(r * 0x100 + g, 0x100, r, g);
    ULong.DivUnique(v, 0x1_0000, r, g * 0x100 + b);
    ULong.DivUnique(r, 0x100, 0, r);
  }

  /** Every value that fits 24 bits is the packing of the colour it unpacks to. */
  lemma RawRoundTrip(rawValue: int32)
    requires 0 <= rawValue < 0x100_0000
    ensures RawValue(FromRaw(rawValue)) == rawValue
  {
    var v := rawValue as int;
    var q := v / 0x100;
    ULong.DivUnique(v, 0x100, q, v % 0x100);
    ULong.DivUnique(q, 0x100, q / 0x100, q % 0x100);
    ULong.DivUnique(v, 0x1_0000, q / 0x100, (q % 0x100) * 0x100 + v % 0x100);
    assert q / 0x100 < 0x100;
    ULong.DivUnique(q / 0x100, 0x100, 0, q / 0x100);
  }

  /** The digit `{:X}` writes for `d < 16`: `0`..`9`, then `A`..`F`. */
  function HexChar(d: int): (c: char)
    requires 0 <= d < 16
    ensures c in "0123456789ABCDEF" && Recursion.HexDigitValue(c) == d
  {
    Recursion.HexDigit(d);
    (48 + (if d > 9 then d + 7 else d)) as char
  }

  /** `{b:X2}`: a byte as exactly two upper-case hexadecimal digits. */
  function Hex2(b: byte): string {
    [HexChar(b as int / 16), HexChar(b as int % 16)]
  }

  /** `HexCode`: "#" and the three channels as two hexadecimal digits each. */
  function HexCode(c: Color): (s: string)
    ensures |s| == 7 && s[0] == '#' && Recursion.Over(s[1..], "0123456789ABCDEF")
  {
    "#" + Hex2(c.red) + Hex2(c.green) + Hex2(c.blue)
  }

  /** One more digit at the end multiplies what was read by the base. */
  lemma ReadDigit(s: string, c: char)
    ensures Recursion.ValueIn(s + [c], 16) == 16 * Recursion.ValueIn(s, 16) + Recursion.HexDigitValue(c)
  {
    assert (s + [c])[..|s|] == s;
  }

  /** Two digits read as the byte they were written from. */
  lemma ReadHex2(s: string, b: byte)
    ensures Recursion.ValueIn(s + Hex2(b), 16) == 256 * Recursion.ValueIn(s, 16) + b as int
  {
    var h := Hex2(b);
    ReadDigit(s, h[0]);
    ReadDigit(s + [h[0]], h[1]);
    assert s + h == s + [h[0]] + [h[1]];
  }

  /** Reading the six digits of the hex code in base 16 gives the packed value back. */
  lemma HexCodeReadsBack(c: Color)
    ensures Recursion.ValueIn(HexCode(c)[1..], 16) == RawValue(c) as int
  {
    var r, g, b := Hex2(c.red), Hex2(c.green), Hex2(c.blue);
    assert HexCode(c)[1..] == r + g + b;
    ReadHex2([], c.red);
    assert [] + r == r;
    ReadHex2(r, c.green);
    ReadHex2(r + g, c.blue);
  }

  /** `IndianRed()`: the colour packed as 13458524. */
  function IndianRed(): (c: Color)
    ensures RawValue(c) == 13458524
  {
    RawRoundTrip(13458524);
    FromRaw(13458524)
  }

  /** Indian red is (205, 92, 92). */
  lemma IndianRedChannels()
    ensures IndianRed() == Color(205, 92, 92)
  {
    var c := Color(205, 92, 92);
    ColorRoundTrip(c);
    assert RawValue(c) == 13458524;
  }

  /** Indian red is written #CD5C5C. */
  lemma IndianRedHex()
    ensures HexCode(IndianRed()) == "#CD5C5C"
  {
    IndianRedChannels();
    assert Hex2(205) == "CD" && Hex2(92) == "5C";
  }
}
