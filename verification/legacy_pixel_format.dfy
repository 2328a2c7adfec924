/**
 The older pixel-format header (pixel_format.hpp): the same enum and the
 same five tables, written as plain inline functions. Each lookup is
 proved to return what the newer table returns.
 */
module LegacyPixelFormat {
  import PixelFormat

  /** pixel_format_get_red_component_index. */
  function RedIndex(format: int): (r: int)
    requires PixelFormat.ValidFormat(format)
    ensures r == PixelFormat.RedIndex(format)
  {
    [0, 0, 0, 2, 0, 2][format]
  }

  /** pixel_format_get_green_component_index. */
  function GreenIndex(format: int): (r: int)
    requires PixelFormat.ValidFormat(format)
    ensures r == PixelFormat.GreenIndex(format)
  {
    [-1, 1, 1, 1, 1, 1][format]
  }

  /** pixel_format_get_blue_component_index. */
  function BlueIndex(format: int): (r: int)
    requires PixelFormat.ValidFormat(format)
    ensures r == PixelFormat.BlueIndex(format)
  {
    [-1, -1, 2, 0, 2, 0][format]
  }

  /** pixel_format_get_alpha_component_index. */
  function AlphaIndex(format: int): (r: int)
    requires PixelFormat.ValidFormat(format)
    ensures r == PixelFormat.AlphaIndex(format)
  {
    [-1, -1, -1, -1, 3, 3][format]
  }

  /** pixel_format_get_components_number. */
  function ComponentCount(format: int): (r: int)
    requires PixelFormat.ValidFormat(format)
    ensures r == PixelFormat.ComponentCount(format)
  {
    [1, 2, 3, 3, 4, 4][format]
  }

  /** The older tables carry the channel layout of the newer ones. */
  lemma MatchesLayout(format: int)
    requires PixelFormat.ValidFormat(format)
    ensures PixelFormat.IsIndexOf(format, PixelFormat.R, RedIndex(format))
    ensures PixelFormat.IsIndexOf(format, PixelFormat.G, GreenIndex(format))
    ensures PixelFormat.IsIndexOf(format, PixelFormat.B, BlueIndex(format))
    ensures PixelFormat.IsIndexOf(format, PixelFormat.A, AlphaIndex(format))
    ensures ComponentCount(format) == |PixelFormat.Layout(format)|
  {
  }
}
