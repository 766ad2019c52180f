/**
 * The 8x4 colour table: eight hues, each with four shade levels. Level 3 is
 * a fixed full-brightness colour; levels 0..2 are derived from it at start-up.
 */
module Palette {

  /** One 8-bit colour channel (raylib's `unsigned char`). */
  type Channel = c: int | 0 <= c < 256

  /** An RGBA colour (raylib's `Color`). */
  datatype Color = Color(r: Channel, g: Channel, b: Channel, a: Channel)

  const Hues := 8
  const Shades := 4

  /** Opaque black, raylib's `BLACK`. */
  const Black := Color(0, 0, 0, 255)

  /** The full-brightness colour stored for each hue before the derivation loop. */
  function FullBrightness(hue: int): (c: Color)
    requires 0 <= hue < Hues
    ensures c.a == 255
    ensures c.r == (if hue / 4 == 1 then 255 else 0)
    ensures c.g == (if (hue / 2) % 2 == 1 then 255 else 0)
    ensures c.b == (if hue % 2 == 1 then 255 else 0)
  {
    [Color(0, 0, 0, 255),
     Color(0, 0, 255, 255),
     Color(0, 255, 0, 255),
     Color(0, 255, 255, 255),
     Color(255, 0, 0, 255),
     Color(255, 0, 255, 255),
     Color(255, 255, 0, 255),
     Color(255, 255, 255, 255)][hue]
  }

  /** One channel at a lower level: divided by three first, then scaled. */
  function DimChannel(c: Channel, level: int): (d: Channel)
    requires 0 <= level < 3
    ensures d <= c
    ensures level == 0 ==> d == 0
    ensures d * 3 <= c * level
  {
    c / 3 * level
  }

  /** A full-brightness colour at shade level 0, 1 or 2; always opaque. */
  function Dim(full: Color, level: int): (d: Color)
    requires 0 <= level < 3
    ensures d.a == 255
    ensures d.r <= full.r && d.g <= full.g && d.b <= full.b
    ensures level == 0 ==> d == Black
  {
    Color(DimChannel(full.r, level), DimChannel(full.g, level), DimChannel(full.b, level), 255)
  }

  /** The colour table after start-up: entry (hue, shade). */
  function PaletteEntry(hue: int, shade: int): (c: Color)
    requires 0 <= hue < Hues && 0 <= shade < Shades
    ensures c.a == 255
    ensures shade == 3 ==> c == FullBrightness(hue)
    ensures c.r <= FullBrightness(hue).r && c.g <= FullBrightness(hue).g && c.b <= FullBrightness(hue).b
  {
    if shade == 3 then FullBrightness(hue) else Dim(FullBrightness(hue), shade)
  }

  /** Fills the colour table: first the full-brightness column, then every
      lower shade of every hue from it. */
  method SetupPalette(colors: array2<Color>)
    requires colors.Length0 == Hues && colors.Length1 == Shades
    modifies colors
    ensures forall i :: 0 <= i < Hues ==> colors[i, 3] == FullBrightness(i)
    ensures forall i, j :: 0 <= i < Hues && 0 <= j < 3 ==> colors[i, j] == Dim(colors[i, 3], j)
    ensures forall i, j :: 0 <= i < Hues && 0 <= j < Shades ==> colors[i, j] == PaletteEntry(i, j)
  {
    colors[0, 3] := Color(0, 0, 0, 255);
    colors[1, 3] := Color(0, 0, 255, 255);
    colors[2, 3] := Color(0, 255, 0, 255);
    colors[3, 3] := Color(0, 255, 255, 255);
    colors[4, 3] := Color(255, 0, 0, 255);
    colors[5, 3] := Color(255, 0, 255, 255);
    colors[6, 3] := Color(255, 255, 0, 255);
    colors[7, 3] := Color(255, 255, 255, 255);

    for i := 0 to Hues
      invariant forall i' :: 0 <= i' < Hues ==> colors[i', 3] == FullBrightness(i')
      invariant forall i', j' :: 0 <= i' < i && 0 <= j' < 3 ==> colors[i', j'] == Dim(FullBrightness(i'), j')
    {
      DeriveShades(colors, i);
    }
  }

  /** One pass of the derivation loop: shades 0..2 of hue i from its
      full-brightness entry; every other entry is left as it was. */
  method DeriveShades(colors: array2<Color>, i: int)
    requires colors.Length0 == Hues && colors.Length1 == Shades && 0 <= i < Hues
    modifies colors
    ensures forall j :: 0 <= j < 3 ==> colors[i, j] == Dim(old(colors[i, 3]), j)
    ensures forall i', j' :: 0 <= i' < Hues && 0 <= j' < Shades && (i' != i || j' == 3) ==>
      colors[i', j'] == old(colors[i', j'])
  {
    for j := 0 to 3
      invariant forall j' :: 0 <= j' < j ==> colors[i, j'] == Dim(old(colors[i, 3]), j')
      invariant forall i', j' :: 0 <= i' < Hues && 0 <= j' < Shades && (i' != i || j' >= j) ==>
        colors[i', j'] == old(colors[i', j'])
    {
      var full := colors[i, 3];
      colors[i, j] := Dim(full, j);
    }
  }

  /** Shade 0 of every hue is opaque black. */
  lemma ShadeZeroIsBlack(hue: int)
    requires 0 <= hue < Hues
    ensures PaletteEntry(hue, 0) == Black
  {
  }

  /** Every entry is opaque. */
  lemma EntriesOpaque(hue: int, shade: int)
    requires 0 <= hue < Hues && 0 <= shade < Shades
    ensures PaletteEntry(hue, shade).a == 255
  {
  }

  /** Closed form of the table: each channel of (hue, shade) is 0 when the
      hue's bit for that channel is clear, and 85 * shade (255 at shade 3)
      when it is set; red is bit 2, green bit 1, blue bit 0. */
  lemma PaletteClosedForm(hue: int, shade: int)
    requires 0 <= hue < Hues && 0 <= shade < Shades
    ensures PaletteEntry(hue, shade).r == (if hue / 4 == 1 then 85 * shade else 0)
    ensures PaletteEntry(hue, shade).g == (if (hue / 2) % 2 == 1 then 85 * shade else 0)
    ensures PaletteEntry(hue, shade).b == (if hue % 2 == 1 then 85 * shade else 0)
  {
  }

  /** Brightness grows with the shade level within every hue. */
  lemma ShadesAscend(hue: int, lo: int, hi: int)
    requires 0 <= hue < Hues && 0 <= lo <= hi < Shades
    ensures PaletteEntry(hue, lo).r <= PaletteEntry(hue, hi).r
    ensures PaletteEntry(hue, lo).g <= PaletteEntry(hue, hi).g
    ensures PaletteEntry(hue, lo).b <= PaletteEntry(hue, hi).b
  {
    PaletteClosedForm(hue, lo);
    PaletteClosedForm(hue, hi);
  }

  /** For the channel values the table stores (0 and 255), dividing before
      multiplying gives the same result as the exact floor(c * level / 3). */
  lemma DivideFirstIsExactOnTable(hue: int, level: int)
    requires 0 <= hue < Hues && 0 <= level < 3
    ensures PaletteEntry(hue, level).r == FullBrightness(hue).r * level / 3
    ensures PaletteEntry(hue, level).g == FullBrightness(hue).g * level / 3
    ensures PaletteEntry(hue, level).b == FullBrightness(hue).b * level / 3
  {
  }

  /** For a general channel value the two orders differ: 2 / 3 * 2 is 0 while
      2 * 2 / 3 is 1. */
  lemma DivideFirstDiffersInGeneral()
    ensures DimChannel(2, 2) == 0 && 2 * 2 / 3 == 1
  {
  }
}
