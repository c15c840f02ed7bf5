/**
 * The pixel-model normalisation of `JSVGRasterizer`: the AWT surface the SVG
 * renderer produced becomes an SWT `ImageData`, by one of three conversions
 * chosen by the surface's colour model; and the error path of
 * `rasterizeSVG` when no document could be loaded.
 */
module JSVGRasterizer {
  import opened Wrappers
  import opened JavaTypes
  import opened Awt
  import opened Swt
  import opened PixelBits
  import opened ScanOrder

  // ---------------------------------------------------------------------
  // The colour table of an indexed model
  // ---------------------------------------------------------------------

  /**
   * The colour table of an indexed surface as SWT colours: entry `i` is the
   * model's entry `i`, each signed byte read as the unsigned value with the
   * same eight bits.
   */
  function ColorTable(image: Surface): (colors: seq<RGB>)
    requires image.Indexed? && image.Valid()
    ensures |colors| == image.MapSize()
    ensures forall i :: 0 <= i < |colors| ==>
              (colors[i].red - image.reds[i]) % 0x100 == 0 &&
              (colors[i].green - image.greens[i]) % 0x100 == 0 &&
              (colors[i].blue - image.blues[i]) % 0x100 == 0
  {
    seq(image.MapSize(), i requires 0 <= i < image.MapSize() =>
      RGB(UnsignedByte(image.reds[i]), UnsignedByte(image.greens[i]), UnsignedByte(image.blues[i])))
  }

  /** A negative byte in the table becomes its value plus 256, never a negative component. */
  lemma ColorTableEntry(image: Surface, i: int)
    requires image.Indexed? && image.Valid() && 0 <= i < image.MapSize()
    ensures ColorTable(image)[i].red == if image.reds[i] < 0 then image.reds[i] as int + 0x100 else image.reds[i]
    ensures ColorTable(image)[i].green == if image.greens[i] < 0 then image.greens[i] as int + 0x100 else image.greens[i]
    ensures ColorTable(image)[i].blue == if image.blues[i] < 0 then image.blues[i] as int + 0x100 else image.blues[i]
  {
  }

  /** `calculateColors`: fills one `RGB` per map index, in index order. */
  method CalculateColors(image: Surface) returns (rgbs: seq<RGB>)
    requires image.Indexed? && image.Valid()
    ensures rgbs == ColorTable(image)
  {
    var size := image.MapSize();
    var reds, greens, blues := image.reds, image.greens, image.blues;
    var table := new RGB[size];
    for i := 0 to table.Length
      invariant forall k :: 0 <= k < i ==>
                  table[k] == RGB(UnsignedByte(reds[k]), UnsignedByte(greens[k]), UnsignedByte(blues[k]))
    {
      table[i] := RGB(UnsignedByte(reds[i]), UnsignedByte(greens[i]), UnsignedByte(blues[i]));
    }
    rgbs := table[..];
  }

  // ---------------------------------------------------------------------
  // What each conversion produces
  // ---------------------------------------------------------------------

  /** The pixel value the direct conversion stores for one `getRGB` value. */
  function DirectPixel(getPixel: GetPixel, palette: PaletteData, argb: int32): (pixel: int) {
    getPixel(palette, RGB(Red(argb), Green(argb), Blue(argb)))
  }

  /** The fixed palette of the component conversion: red in the low byte, blue in the high byte. */
  const ComponentPalette := DirectPalette(0x0000FF, 0x00FF00, 0xFF0000)

  /** The pixel value the component conversion stores for one sample triple. */
  function ComponentPixel(getPixel: GetPixel, s: (int32, int32, int32)): (pixel: int)
    requires 0 <= s.0 < 0x100 && 0 <= s.1 < 0x100 && 0 <= s.2 < 0x100
  {
    getPixel(ComponentPalette, RGB(s.0, s.1, s.2))
  }

  /** What every conversion shares: the surface's dimensions, every cell set once in row-major order. */
  ghost predicate SameGrid(image: Surface, img: ImageData)
    reads img
  {
    img.Valid() &&
    img.width == image.width && img.height == image.height &&
    img.pixelWrites == RowMajor(image.width, image.height)
  }

  /**
   * The direct conversion: depth is the model's pixel size, the palette holds
   * the model's masks, each pixel is `getPixel` of the R, G, B channels of
   * the same source coordinate; with an alpha model each alpha value is the
   * A channel, without one there is no alpha plane at all.
   */
  ghost predicate DirectConverted(image: Surface, getPixel: GetPixel, img: ImageData)
    requires image.Direct? && image.Valid()
    reads img, img.pixels, img.alphaData
  {
    SameGrid(image, img) &&
    img.depth == image.pixelSize &&
    img.palette == DirectPalette(image.redMask, image.greenMask, image.blueMask) &&
    img.transparentPixel == -1 &&
    (forall x, y :: 0 <= x < image.width && 0 <= y < image.height ==>
      img.pixels[x, y] == DirectPixel(getPixel, img.palette, image.rgb[y][x])) &&
    (if image.hasAlpha then
       img.alphaData != null &&
       forall x, y :: 0 <= x < image.width && 0 <= y < image.height ==>
         img.alphaData[x, y] == Alpha(image.rgb[y][x])
     else img.alphaData == null)
  }

  /**
   * The indexed conversion: the palette is the model's colour table, the
   * transparent pixel is the model's, and each pixel is the raw raster index.
   */
  ghost predicate IndexedConverted(image: Surface, img: ImageData)
    requires image.Indexed? && image.Valid()
    reads img, img.pixels
  {
    SameGrid(image, img) &&
    img.depth == image.pixelSize &&
    img.palette == IndexedPalette(ColorTable(image)) &&
    img.transparentPixel == image.transparentPixel &&
    img.alphaData == null &&
    forall x, y :: 0 <= x < image.width && 0 <= y < image.height ==>
      img.pixels[x, y] == image.raster[y][x]
  }

  /**
   * The component conversion: the fixed palette, no transparent pixel, and
   * each pixel is `getPixel` of the first three samples.
   */
  ghost predicate ComponentConverted(image: Surface, getPixel: GetPixel, img: ImageData)
    requires image.Component? && image.Valid()
    reads img, img.pixels
  {
    SameGrid(image, img) &&
    img.depth == image.pixelSize &&
    img.palette == ComponentPalette &&
    img.transparentPixel == -1 &&
    img.alphaData == null &&
    forall x, y :: 0 <= x < image.width && 0 <= y < image.height ==>
      img.pixels[x, y] == ComponentPixel(getPixel, image.samples[y][x])
  }

  /** `img` is what the conversion chosen by the colour model makes of `image`. */
  ghost predicate Converted(image: Surface, getPixel: GetPixel, img: ImageData)
    requires image.Valid()
    reads img, img.pixels, img.alphaData
  {
    match image
    case Direct(_, _, _, _, _, _, _, _) => DirectConverted(image, getPixel, img)
    case Indexed(_, _, _, _, _, _, _, _) => IndexedConverted(image, img)
    case Component(_, _, _, _) => ComponentConverted(image, getPixel, img)
    case Other(_, _) => false
  }

  // ---------------------------------------------------------------------
  // The three conversions
  // ---------------------------------------------------------------------

  /** `generateSWTImageData(BufferedImage, DirectColorModel)` */
  method GenerateDirect(image: Surface, getPixel: GetPixel) returns (result: array<ImageData>)
    requires image.Direct? && image.Valid()
    ensures result.Length == 1 && DirectConverted(image, getPixel, result[0])
    ensures fresh(result) && fresh(result[0]) && fresh(result[0].pixels)
    ensures result[0].alphaData != null ==> fresh(result[0].alphaData)
  {
    var paletteData := DirectPalette(image.redMask, image.greenMask, image.blueMask);
    var imageData := new ImageData(image.width, image.height, image.pixelSize, paletteData);
    var w, h := imageData.width, imageData.height;
    for y := 0 to h
      invariant imageData.Valid() && fresh(imageData.pixels)
      invariant imageData.alphaData != null ==> fresh(imageData.alphaData)
      invariant imageData.transparentPixel == -1
      invariant imageData.pixelWrites == RowMajor(w, y)
      invariant forall i, j :: 0 <= i < w && 0 <= j < y ==>
                  imageData.pixels[i, j] == DirectPixel(getPixel, paletteData, image.rgb[j][i])
      invariant !image.hasAlpha ==> imageData.alphaData == null
      invariant image.hasAlpha && y > 0 ==> imageData.alphaData != null
      invariant image.hasAlpha && imageData.alphaData != null ==>
                  forall i, j :: 0 <= i < w && 0 <= j < y ==>
                    imageData.alphaData[i, j] == Alpha(image.rgb[j][i])
    {
      for x := 0 to w
        invariant imageData.Valid() && fresh(imageData.pixels)
        invariant imageData.alphaData != null ==> fresh(imageData.alphaData)
        invariant imageData.transparentPixel == -1
        invariant imageData.pixelWrites == RowMajor(w, y) + Row(w, y)[..x]
        invariant forall i, j :: 0 <= i < w && 0 <= j < y ==>
                    imageData.pixels[i, j] == DirectPixel(getPixel, paletteData, image.rgb[j][i])
        invariant forall i :: 0 <= i < x ==>
                    imageData.pixels[i, y] == DirectPixel(getPixel, paletteData, image.rgb[y][i])
        invariant !image.hasAlpha ==> imageData.alphaData == null
        invariant image.hasAlpha && (y > 0 || x > 0) ==> imageData.alphaData != null
        invariant image.hasAlpha && imageData.alphaData != null ==>
                    (forall i, j :: 0 <= i < w && 0 <= j < y ==>
                      imageData.alphaData[i, j] == Alpha(image.rgb[j][i])) &&
                    (forall i :: 0 <= i < x ==> imageData.alphaData[i, y] == Alpha(image.rgb[y][i]))
      {
        var rgb := image.rgb[y][x];
        var pixel := getPixel(paletteData, RGB(Red(rgb), Green(rgb), Blue(rgb)));
        imageData.SetPixel(x, y, pixel);
        if image.hasAlpha {
          imageData.SetAlpha(x, y, Alpha(rgb));
        }
      }
      assert Row(w, y)[..w] == Row(w, y);
    }
    result := new ImageData[] [imageData];
  }

  /** `generateSWTImageData(BufferedImage, IndexColorModel)` */
  method GenerateIndexed(image: Surface) returns (result: array<ImageData>)
    requires image.Indexed? && image.Valid()
    ensures result.Length == 1 && IndexedConverted(image, result[0])
    ensures fresh(result) && fresh(result[0]) && fresh(result[0].pixels)
    ensures result[0].alphaData != null ==> fresh(result[0].alphaData)
  {
    var colors := CalculateColors(image);
    var paletteData := IndexedPalette(colors);
    var imageData := new ImageData(image.width, image.height, image.pixelSize, paletteData);
    imageData.transparentPixel := image.transparentPixel;
    var w, h := imageData.width, imageData.height;
    for y := 0 to h
      invariant imageData.Valid() && fresh(imageData.pixels)
      invariant imageData.alphaData == null
      invariant imageData.transparentPixel == image.transparentPixel
      invariant imageData.pixelWrites == RowMajor(w, y)
      invariant forall i, j :: 0 <= i < w && 0 <= j < y ==> imageData.pixels[i, j] == image.raster[j][i]
    {
      for x := 0 to w
        invariant imageData.Valid() && fresh(imageData.pixels)
        invariant imageData.alphaData == null
        invariant imageData.transparentPixel == image.transparentPixel
        invariant imageData.pixelWrites == RowMajor(w, y) + Row(w, y)[..x]
        invariant forall i, j :: 0 <= i < w && 0 <= j < y ==> imageData.pixels[i, j] == image.raster[j][i]
        invariant forall i :: 0 <= i < x ==> imageData.pixels[i, y] == image.raster[y][i]
      {
        var index := image.raster[y][x];
        imageData.SetPixel(x, y, index);
      }
      assert Row(w, y)[..w] == Row(w, y);
    }
    result := new ImageData[] [imageData];
  }

  /** `generateSWTImageData(BufferedImage, ComponentColorModel)` */
  method GenerateComponent(image: Surface, getPixel: GetPixel) returns (result: array<ImageData>)
    requires image.Component? && image.Valid()
    ensures result.Length == 1 && ComponentConverted(image, getPixel, result[0])
    ensures fresh(result) && fresh(result[0]) && fresh(result[0].pixels)
    ensures result[0].alphaData != null ==> fresh(result[0].alphaData)
  {
    var paletteData := ComponentPalette;
    var imageData := new ImageData(image.width, image.height, image.pixelSize, paletteData);
    imageData.transparentPixel := -1;
    var w, h := imageData.width, imageData.height;
    for y := 0 to h
      invariant imageData.Valid() && fresh(imageData.pixels)
      invariant imageData.alphaData == null
      invariant imageData.transparentPixel == -1
      invariant imageData.pixelWrites == RowMajor(w, y)
      invariant forall i, j :: 0 <= i < w && 0 <= j < y ==>
                  imageData.pixels[i, j] == ComponentPixel(getPixel, image.samples[j][i])
    {
      for x := 0 to w
        invariant imageData.Valid() && fresh(imageData.pixels)
        invariant imageData.alphaData == null
        invariant imageData.transparentPixel == -1
        invariant imageData.pixelWrites == RowMajor(w, y) + Row(w, y)[..x]
        invariant forall i, j :: 0 <= i < w && 0 <= j < y ==>
                    imageData.pixels[i, j] == ComponentPixel(getPixel, image.samples[j][i])
        invariant forall i :: 0 <= i < x ==>
                    imageData.pixels[i, y] == ComponentPixel(getPixel, image.samples[y][i])
      {
        var samples := image.samples[y][x];
        var pixel := getPixel(paletteData, RGB(samples.0, samples.1, samples.2));
        imageData.SetPixel(x, y, pixel);
      }
      assert Row(w, y)[..w] == Row(w, y);
    }
    result := new ImageData[] [imageData];
  }

  // ---------------------------------------------------------------------
  // Dispatch and the rasterizer's entry point
  // ---------------------------------------------------------------------

  /**
   * `transformToSWTImageData`: each of the three recognised colour models
   * yields exactly one converted `ImageData`; any other yields null.
   */
  method TransformToSWTImageData(image: Surface, getPixel: GetPixel) returns (result: array?<ImageData>)
    requires image.Valid()
    ensures result == null <==> image.Other?
    ensures result != null ==> result.Length == 1 && Converted(image, getPixel, result[0])
    ensures result != null ==> fresh(result) && fresh(result[0]) && fresh(result[0].pixels)
    ensures result != null && result[0].alphaData != null ==> fresh(result[0].alphaData)
  {
    match image
    case Direct(_, _, _, _, _, _, _, _) =>
      result := GenerateDirect(image, getPixel);
    case Indexed(_, _, _, _, _, _, _, _) =>
      result := GenerateIndexed(image);
    case Component(_, _, _, _) =>
      result := GenerateComponent(image, getPixel);
    case Other(_, _) =>
      result := null;
  }

  /**
   * `createImageBase`: `new BufferedImage(width, height, TYPE_INT_ARGB)`, a
   * 32-bit direct model with alpha and the ARGB masks, every value zero.
   * The constructor throws `IllegalArgumentException` unless both
   * dimensions are positive.
   */
  function CreateImageBase(width: int, height: int): (s: Surface)
    requires width > 0 && height > 0
    ensures s.Valid() && s.Direct? && s.hasAlpha
    ensures s.width == width && s.height == height
    ensures forall y, x :: 0 <= y < height && 0 <= x < width ==>
              Alpha(s.rgb[y][x]) == 0 && Red(s.rgb[y][x]) == 0 &&
              Green(s.rgb[y][x]) == 0 && Blue(s.rgb[y][x]) == 0
  {
    Direct(width, height, 32, 0x00FF0000, 0x0000FF00, 0x000000FF, true,
           seq(height, y => seq(width, x => 0)))
  }

  /** The surface after drawing: same model and size, the pixels `paint` produced. */
  function Painted(base: Surface, rgb: seq<seq<int32>>): (s: Surface)
    requires base.Direct? && base.Valid() && IsGrid(rgb, base.width, base.height)
    ensures s.Valid()
  {
    base.(rgb := rgb)
  }

  /** What `rasterizeSVG` throws instead of returning. */
  datatype RasterizeError =
    | SWTException(code: SWTError)
    | IllegalArgumentException

  /**
   * `rasterizeSVG`: `loaded` is what loading the stream produced (None for no
   * document). `targetSize` is the rounded target width and height of a
   * document at a zoom (`calculateTargetWidth`, `calculateTargetHeight`), and
   * `paint` is JSVG drawing the document, scaled by the zoom, onto the
   * cleared surface `createImageBase` made, giving the values `getRGB` then
   * reads back. Without a document it fails with `ERROR_INVALID_IMAGE`; with
   * a target dimension below 1 the surface cannot be created; otherwise the
   * result is the direct conversion, with alpha, of the painted surface,
   * never null.
   */
  method RasterizeSVG<Doc>(loaded: Option<Doc>, zoom: int,
                           targetSize: (Doc, int) -> (int, int),
                           paint: (Doc, int, Surface) -> seq<seq<int32>>,
                           getPixel: GetPixel)
    returns (r: Result<array<ImageData>, RasterizeError>)
    requires loaded.Some? ==>
               var (w, h) := targetSize(loaded.value, zoom);
               w > 0 && h > 0 ==> IsGrid(paint(loaded.value, zoom, CreateImageBase(w, h)), w, h)
    ensures loaded.None? <==> r == Failure(SWTException(ErrorInvalidImage))
    ensures loaded.Some? ==>
              var (w, h) := targetSize(loaded.value, zoom);
              if w > 0 && h > 0 then
                var base := CreateImageBase(w, h);
                r.Success? && r.value.Length == 1 &&
                DirectConverted(Painted(base, paint(loaded.value, zoom, base)), getPixel, r.value[0])
              else r == Failure(IllegalArgumentException)
    ensures r.Success? ==> fresh(r.value) && fresh(r.value[0]) && fresh(r.value[0].pixels)
    ensures r.Success? && r.value[0].alphaData != null ==> fresh(r.value[0].alphaData)
  {
    if loaded.Some? {
      var svgDocument := loaded.value;
      var (targetImageWidth, targetImageHeight) := targetSize(svgDocument, zoom);
      if targetImageWidth <= 0 || targetImageHeight <= 0 {
        return Failure(IllegalArgumentException);
      }
      var image := CreateImageBase(targetImageWidth, targetImageHeight);
      var rasterizedImage := Painted(image, paint(svgDocument, zoom, image));
      var images := TransformToSWTImageData(rasterizedImage, getPixel);
      r := Success(images);
    } else {
      r := Failure(SWTException(ErrorInvalidImage));
    }
  }
}
