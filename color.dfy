/** Colour value types of the rasteriser (draw2d/color.hpp).
    The linear-to-sRGB conversion itself lives in a file that is not part of this
    model; drawing routines that need it take it as a parameter `toSrgb`. */
module Colors {

  /** An unsigned 8-bit value, as `std::uint8_t`. */
  newtype byte = x: int | 0 <= x < 256

  /** Display (sRGB-encoded) colour, as `ColorU8_sRGB`. */
  datatype ColorU8 = ColorU8(r: byte, g: byte, b: byte)

  /** Display colour with a linear alpha channel, as `ColorU8_sRGB_Alpha`. */
  datatype ColorU8Alpha = ColorU8Alpha(r: byte, g: byte, b: byte, a: byte)

  /** Linear colour, as `ColorF`; `float` is idealised as `real`. */
  datatype ColorF = ColorF(r: real, g: real, b: real)

  const Black := ColorU8(0, 0, 0)
  const White := ColorU8(255, 255, 255)

  /** The colour part of an RGBA pixel; the alpha channel is dropped. */
  function DropAlpha(p: ColorU8Alpha): (c: ColorU8)
    ensures c.r == p.r && c.g == p.g && c.b == p.b
  {
    ColorU8(p.r, p.g, p.b)
  }

  /** A pixel counts as drawn when one of its colour channels is non-zero. */
  predicate IsLit(c: ColorU8) {
    c.r > 0 || c.g > 0 || c.b > 0
  }
}
