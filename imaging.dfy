/** Images as PinAnimate sees them through the Pillow library: abstract records
    (size, tile data, palette, opaque pixels) and Pillow's operations left
    uninterpreted, as fields of a record of total functions. */
module Imaging {

  datatype Option<+T> = None | Some(value: T)

  /** `Image.size`: width and height in pixels. */
  datatype Size = Size(width: int, height: int)

  /** The region of a tile, `(x0, y0, x1, y1)`: its upper-left and lower-right corners. */
  datatype Region = Region(x0: int, y0: int, x1: int, y1: int)

  /** One entry of `Image.tile`; of its tuple only the region (index 1) is read. */
  datatype Tile = Tile(decoder: string, region: Region)

  /** Raster contents. The model never looks inside them. */
  type Pixels = seq<int>

  /** One decoded frame or one RGBA canvas. `palette` is what `getpalette()`
      returns: `None` for an image without one. */
  datatype Image = Image(size: Size, tile: seq<Tile>, palette: Option<seq<int>>, pixels: Pixels)

  /** `im.getpalette()` is truthy: a palette is present and not empty. */
  predicate HasPalette(im: Image) {
    im.palette.Some? && |im.palette.value| > 0
  }

  /** The Pillow operations the frame extraction calls. Each is uninterpreted;
      an operation that may raise `ValueError` returns `None` when it does. */
  datatype Pillow = Pillow(
    convertRgba: Image -> Image,                            // im.convert('RGBA')
    putPalette: (Image, Option<seq<int>>) -> Option<Image>, // im.putpalette(p)
    newRgba: Size -> Image,                                 // Image.new('RGBA', size)
    paste: (Image, Image) -> Image,                         // canvas.paste(other)
    pasteMasked: (Image, Image, Image) -> Option<Image>,    // canvas.paste(im, (0, 0), mask)
    thumbnail: (Image, Size) -> Image                       // canvas.thumbnail(box, LANCZOS)
  )
}
