/**
 * The native AWT surface (a `BufferedImage`) as the SVG rasterizer sees it:
 * classified by its `ColorModel`, with only the data that conversion reads.
 */
module Awt {
  import opened JavaTypes

  /** A grid of `height` rows of `width` entries each, indexed `[y][x]`. */
  predicate IsGrid<T>(g: seq<seq<T>>, width: int, height: int) {
    |g| == height && forall y :: 0 <= y < height ==> |g[y]| == width
  }

  /**
   * `rgb[y][x]` is `BufferedImage.getRGB(x, y)` (default ARGB packing);
   * `raster[y][x]` is what `getRaster().getPixel(x, y, ...)` writes into its
   * sample array: one index for an indexed model, the first three samples
   * for a component model. The conversion passes an `int[3]`, and a raster
   * with fewer bands fills only the first one or two entries: the rest keep
   * the array's initial 0, so a one-band grey raster gives `(g, 0, 0)`.
   */
  datatype Surface =
    | Direct(width: int, height: int, pixelSize: int,
             redMask: int32, greenMask: int32, blueMask: int32, hasAlpha: bool,
             rgb: seq<seq<int32>>)
    | Indexed(width: int, height: int, pixelSize: int,
              reds: seq<int8>, greens: seq<int8>, blues: seq<int8>,
              transparentPixel: int32, raster: seq<seq<int32>>)
    | Component(width: int, height: int, pixelSize: int,
                samples: seq<seq<(int32, int32, int32)>>)
    | Other(width: int, height: int)
  {
    /**
     * What every BufferedImage has (positive dimensions, pixel data for every
     * coordinate, one colour-table entry per index in each of the three
     * tables, whose common length is `getMapSize()`), plus one assumption of
     * this model: a component surface delivers three 8-bit samples per pixel.
     * Component surfaces with one or two 8-bit bands are covered, with the
     * missing samples 0; those with 16-bit samples or more than three bands
     * are not modelled.
     */
    ghost predicate Valid() {
      width > 0 && height > 0 &&
      match this
      case Direct(_, _, _, _, _, _, _, rgb) => IsGrid(rgb, width, height)
      case Indexed(_, _, _, reds, greens, blues, _, raster) =>
        |greens| == |reds| && |blues| == |reds| && IsGrid(raster, width, height)
      case Component(_, _, _, samples) =>
        IsGrid(samples, width, height) &&
        forall y, x :: 0 <= y < height && 0 <= x < width ==>
          0 <= samples[y][x].0 < 0x100 && 0 <= samples[y][x].1 < 0x100 && 0 <= samples[y][x].2 < 0x100
      case Other(_, _) => true
    }

    /** `IndexColorModel.getMapSize()`. */
    function MapSize(): nat
      requires Indexed?
    {
      |reds|
    }
  }
}
