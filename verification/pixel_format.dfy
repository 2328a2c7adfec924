/**
 The pixel-format channel tables (src/core/pixel_format.hpp). A format is
 the 32-bit enum value; each lookup indexes a constant six-entry table,
 so a value outside 0..5 is a precondition violation. The tables are
 specified against Layout, the channel order each format names.
 */
module PixelFormat {

  /** The enumerators, in declaration order. */
  const Red: int := 0
  const Rg: int := 1
  const Rgb: int := 2
  const Bgr: int := 3
  const Rgba: int := 4
  const Bgra: int := 5

  /** The values the tables are defined for. */
  predicate ValidFormat(format: int) {
    0 <= format <= 5
  }

  datatype Channel = R | G | B | A

  /** The channels of one pixel in memory order, as each format's name spells them. */
  function Layout(format: int): seq<Channel>
    requires ValidFormat(format)
  {
    [[R], [R, G], [R, G, B], [B, G, R], [R, G, B, A], [B, G, R, A]][format]
  }

  /** The index of channel c in the layout, or -1 when the format has no such channel. */
  predicate IsIndexOf(format: int, c: Channel, i: int)
    requires ValidFormat(format)
  {
    if c in Layout(format) then 0 <= i < |Layout(format)| && Layout(format)[i] == c else i == -1
  }

  /** pixel_format_get_red_component_index. */
  function RedIndex(format: int): (r: int)
    requires ValidFormat(format)
    ensures IsIndexOf(format, R, r)
  {
    [0, 0, 0, 2, 0, 2][format]
  }

  /** pixel_format_get_green_component_index. */
  function GreenIndex(format: int): (r: int)
    requires ValidFormat(format)
    ensures IsIndexOf(format, G, r)
  {
    [-1, 1, 1, 1, 1, 1][format]
  }

  /** pixel_format_get_blue_component_index. */
  function BlueIndex(format: int): (r: int)
    requires ValidFormat(format)
    ensures IsIndexOf(format, B, r)
  {
    [-1, -1, 2, 0, 2, 0][format]
  }

  /** pixel_format_get_alpha_component_index. */
  function AlphaIndex(format: int): (r: int)
    requires ValidFormat(format)
    ensures IsIndexOf(format, A, r)
  {
    [-1, -1, -1, -1, 3, 3][format]
  }

  /** pixel_format_get_components_number: the number of channels of the layout. */
  function ComponentCount(format: int): (r: int)
    requires ValidFormat(format)
    ensures r == |Layout(format)|
  {
    [1, 2, 3, 3, 4, 4][format]
  }

  /** The channel counts per enumerator: one for red, two for rg, three for rgb/bgr, four for rgba/bgra. */
  lemma ComponentCounts()
    ensures ComponentCount(Red) == 1 && ComponentCount(Rg) == 2
    ensures ComponentCount(Rgb) == 3 && ComponentCount(Bgr) == 3
    ensures ComponentCount(Rgba) == 4 && ComponentCount(Bgra) == 4
  {
  }

  /** Every channel index that is present lies below the channel count. */
  lemma IndicesBelowCount(format: int)
    requires ValidFormat(format)
    ensures -1 <= RedIndex(format) < ComponentCount(format)
    ensures -1 <= GreenIndex(format) < ComponentCount(format)
    ensures -1 <= BlueIndex(format) < ComponentCount(format)
    ensures -1 <= AlphaIndex(format) < ComponentCount(format)
  {
  }

  /** The indices of the channels a format has are pairwise distinct. */
  lemma IndicesDistinct(format: int)
    requires ValidFormat(format)
    ensures var idx := [RedIndex(format), GreenIndex(format), BlueIndex(format), AlphaIndex(format)];
      forall i, j :: 0 <= i < j < 4 && idx[i] >= 0 ==> idx[i] != idx[j]
  {
  }

  /** Which formats lack a channel: green only `red`, blue exactly those below three channels, alpha exactly those below four. */
  lemma MissingChannels(format: int)
    requires ValidFormat(format)
    ensures RedIndex(format) >= 0
    ensures GreenIndex(format) == -1 <==> format == Red
    ensures BlueIndex(format) == -1 <==> ComponentCount(format) < 3
    ensures AlphaIndex(format) == (if ComponentCount(format) == 4 then 3 else -1)
  {
  }

  /** bgr and bgra are rgb and rgba with the red and blue indices swapped; green and alpha stay. */
  lemma BgrSwapsRedAndBlue()
    ensures RedIndex(Bgr) == BlueIndex(Rgb) && BlueIndex(Bgr) == RedIndex(Rgb)
    ensures GreenIndex(Bgr) == GreenIndex(Rgb) && AlphaIndex(Bgr) == AlphaIndex(Rgb)
    ensures RedIndex(Bgra) == BlueIndex(Rgba) && BlueIndex(Bgra) == RedIndex(Rgba)
    ensures GreenIndex(Bgra) == GreenIndex(Rgba) && AlphaIndex(Bgra) == AlphaIndex(Rgba)
  {
  }
}
