/** ColorInfo: a named 0xRRGGBB colour and the red, green and blue channels
    that calcHSL extracts from it. */
module Colors {
  import opened Arith

  /** (color & 0xFF0000) >> 16: bits 16 to 23 of the two's-complement pattern,
      which is floor(color / 2^16) mod 2^8 for negative colours too. The mask
      keeps the colour modulo 2^24 and the shift divides by 2^16. */
  function Red(color: int32): (r: int)
    ensures r == (color as int % 0x100_0000) / 0x1_0000
    ensures 0 <= r < 0x100
  {
    ModDiv(color as int, 0x1_0000, 0x100);
    (color as int / 0x1_0000) % 0x100
  }

  /** (color & 0xFF00) >> 8: the colour modulo 2^16, divided by 2^8. */
  function Green(color: int32): (g: int)
    ensures g == (color as int % 0x1_0000) / 0x100
    ensures 0 <= g < 0x100
  {
    ModDiv(color as int, 0x100, 0x100);
    (color as int / 0x100) % 0x100
  }

  /** color & 0xFF */
  function Blue(color: int32): (b: int)
    ensures 0 <= b < 0x100
  {
    color as int % 0x100
  }

  /** The colour 0xRRGGBB with the given channels. */
  function Rgb(r: int, g: int, b: int): (c: int32)
    requires 0 <= r < 0x100 && 0 <= g < 0x100 && 0 <= b < 0x100
    ensures 0 <= c as int < 0x100_0000
  {
    MulLe(r, 0xFF, 0x1_0000);
    MulLe(g, 0xFF, 0x100);
    (r * 0x1_0000 + g * 0x100 + b) as int32
  }

  /** Every channel is a byte, whatever the sign of the colour. */
  lemma ChannelsAreBytes(color: int32)
    ensures 0 <= Red(color) <= 255 && 0 <= Green(color) <= 255 && 0 <= Blue(color) <= 255
  {
    DivModSplit(color as int / 0x1_0000, 0x100);
    DivModSplit(color as int / 0x100, 0x100);
    DivModSplit(color as int, 0x100);
  }

  /** The channels of a colour are exactly its low 24 bits: packing them back
      gives the colour modulo 2^24, so the colour itself when it is 0xRRGGBB. */
  lemma ChannelsPackBack(color: int32)
    ensures Rgb(Red(color), Green(color), Blue(color)) as int == color as int % 0x100_0000
    ensures 0 <= color as int < 0x100_0000 ==> Rgb(Red(color), Green(color), Blue(color)) == color
  {
    var x := color as int;
    PackLow24(x);
    if 0 <= x < 0x100_0000 {
      DivModUnique(0, x, 0x100_0000);
    }
  }

  /** Bytes 2, 1 and 0 of x, weighted back, are x modulo 2^24. */
  lemma PackLow24(x: int)
    ensures ((x / 0x1_0000) % 0x100) * 0x1_0000 + ((x / 0x100) % 0x100) * 0x100 + x % 0x100 == x % 0x100_0000
  {
    DivModSplit(x, 0x100);
    DivModSplit(x / 0x100, 0x100);
    var q := x / 0x1_0000;
    assert x / 0x100 / 0x100 == q by {
      DivDiv(x, 0x100, 0x100);
    }
    DivModSplit(q, 0x100);
    var r, g, b := q % 0x100, (x / 0x100) % 0x100, x % 0x100;
    assert x == (q / 0x100) * 0x100_0000 + (r * 0x1_0000 + g * 0x100 + b);
    ModAddMultiple(q / 0x100, r * 0x1_0000 + g * 0x100 + b, 0x100_0000);
    MulLe(r, 0xFF, 0x1_0000);
    MulLe(g, 0xFF, 0x100);
    DivModUnique(0, r * 0x1_0000 + g * 0x100 + b, 0x100_0000);
  }

  /** Unpacking a 0xRRGGBB colour gives back its channels. */
  lemma RgbChannels(r: int, g: int, b: int)
    requires 0 <= r < 0x100 && 0 <= g < 0x100 && 0 <= b < 0x100
    ensures Red(Rgb(r, g, b)) == r && Green(Rgb(r, g, b)) == g && Blue(Rgb(r, g, b)) == b
  {
    var c := Rgb(r, g, b) as int;
    DivModUnique(r * 0x100 + g, b, 0x100);
    assert c == (r * 0x100 + g) * 0x100 + b;
    DivModUnique(r, g, 0x100);
    DivModUnique(r * 0x100 + g, b, 0x100);
    DivModUnique(0, r, 0x100);
    assert c / 0x1_0000 == r by {
      DivDiv(c, 0x100, 0x100);
    }
  }

  class ColorInfo {
    var name: string
    var color: int32
    var r: int
    var g: int
    var b: int

    /** ColorInfo(n, c): stores the name and colour, then runs calcHSL. */
    constructor(n: string, c: int32)
      ensures name == n && color == c
      ensures r == Red(c) && g == Green(c) && b == Blue(c)
    {
      name := n;
      color := c;
      r, g, b := 0, 0, 0;
      new;
      var _ := CalcHsl();
    }

    /** calcHSL: splits the colour into its channels and returns 0. */
    method CalcHsl() returns (status: int)
      modifies this
      ensures status == 0
      ensures name == old(name) && color == old(color)
      ensures r == Red(color) && g == Green(color) && b == Blue(color)
      ensures 0 <= r <= 255 && 0 <= g <= 255 && 0 <= b <= 255
    {
      r := (color as int / 0x1_0000) % 0x100;
      g := (color as int / 0x100) % 0x100;
      b := color as int % 0x100;
      ChannelsAreBytes(color);
      status := 0;
    }
  }
}
