/**
 * The SWT side of the conversion: colours, palettes, the error the
 * rasterizer raises, and the device-independent `ImageData` it fills in.
 * Only what the rasterizer touches is modelled; the byte layout of SWT's
 * pixel buffer is not.
 */
module Swt {
  import opened JavaTypes

  /** An SWT `RGB`: three colour components, each 0..255. */
  datatype RGB = RGB(red: uint8, green: uint8, blue: uint8)

  /**
   * An SWT `PaletteData`: direct (channels located by bit masks) or
   * indexed (an ordered table of colours, the index being the position).
   */
  datatype PaletteData =
    | DirectPalette(redMask: int32, greenMask: int32, blueMask: int32)
    | IndexedPalette(colors: seq<RGB>)

  /** `PaletteData.getPixel(RGB)`, whose bit layout is not part of this model. */
  type GetPixel = (PaletteData, RGB) -> int

  /** The error codes `SWT.error` raises here. */
  datatype SWTError = ErrorInvalidImage

  /**
   * An SWT `ImageData`: dimensions, depth and palette fixed at construction,
   * one pixel value per coordinate, an alpha plane that exists only once a
   * first alpha value has been stored, and the transparent pixel (-1 for
   * none). `pixelWrites` records the coordinates passed to `SetPixel`, in
   * order, so that write order can be stated.
   */
  class ImageData {
    const width: int
    const height: int
    const depth: int
    const palette: PaletteData
    var transparentPixel: int
    const pixels: array2<int>
    var alphaData: array2?<int>
    ghost var pixelWrites: seq<(int, int)>

    ghost predicate Valid()
      reads this
    {
      width > 0 && height > 0 &&
      pixels.Length0 == width && pixels.Length1 == height &&
      (alphaData != null ==>
        alphaData != pixels && alphaData.Length0 == width && alphaData.Length1 == height)
    }

    /** `new ImageData(width, height, depth, palette)`: all pixels 0, no alpha, no transparent pixel. */
    constructor (width: int, height: int, depth: int, palette: PaletteData)
      requires width > 0 && height > 0
      ensures Valid() && fresh(pixels)
      ensures this.width == width && this.height == height
      ensures this.depth == depth && this.palette == palette
      ensures transparentPixel == -1 && alphaData == null && pixelWrites == []
      ensures forall x, y :: 0 <= x < width && 0 <= y < height ==> pixels[x, y] == 0
    {
      this.width := width;
      this.height := height;
      this.depth := depth;
      this.palette := palette;
      pixels := new int[width, height]((x, y) => 0);
      transparentPixel := -1;
      alphaData := null;
      pixelWrites := [];
    }

    /** `setPixel(x, y, value)`: stores one pixel value and nothing else. */
    method SetPixel(x: int, y: int, value: int)
      requires Valid()
      requires 0 <= x < width && 0 <= y < height
      modifies this`pixelWrites, pixels
      ensures Valid()
      ensures pixels[x, y] == value
      ensures forall i, j :: 0 <= i < width && 0 <= j < height && (i != x || j != y) ==>
                pixels[i, j] == old(pixels[i, j])
      ensures pixelWrites == old(pixelWrites) + [(x, y)]
    {
      pixels[x, y] := value;
      pixelWrites := pixelWrites + [(x, y)];
    }

    /**
     * `setAlpha(x, y, alpha)`: stores one alpha value, creating a zeroed
     * alpha plane first if there is none.
     */
    method SetAlpha(x: int, y: int, alpha: uint8)
      requires Valid()
      requires 0 <= x < width && 0 <= y < height
      modifies this`alphaData, alphaData
      ensures Valid()
      ensures alphaData != null && alphaData[x, y] == alpha
      ensures old(alphaData) != null ==> alphaData == old(alphaData)
      ensures old(alphaData) == null ==> fresh(alphaData)
      ensures forall i, j :: 0 <= i < width && 0 <= j < height && (i != x || j != y) ==>
                alphaData[i, j] == if old(alphaData) == null then 0 else old(alphaData[i, j])
    {
      if alphaData == null {
        alphaData := new int[width, height]((i, j) => 0);
      }
      alphaData[x, y] := alpha;
    }
  }
}
