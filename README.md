# Pixel-model normalisation of the JSVG rasterizer

This project models the core of `JSVGRasterizer`, the class in Eclipse SWT's SVG bundle that rasterizes SVG documents. After the JSVG library has rendered a document into an AWT `BufferedImage`, `transformToSWTImageData` turns that native surface into SWT's device-independent `ImageData`. It picks one of three conversions from the surface's colour model:

- **Direct model**: the palette is built from the model's red, green and blue masks. Every ARGB value from `getRGB` is split into channels. R, G and B go through `PaletteData.getPixel`. Alpha is stored only when the model has alpha.
- **Indexed model**: the colour table is rebuilt from the model's signed byte arrays as unsigned RGB triples (`calculateColors`). The transparent pixel is copied over. Raw raster indices are copied as the pixels.
- **Component model**: a fixed palette is used (red mask `0x0000FF`, green `0x00FF00`, blue `0xFF0000`). There is no transparent pixel (-1). Each pixel is `getPixel` of the first three raster samples.

Any other colour model yields `null`. `rasterizeSVG` fails with `ERROR_INVALID_IMAGE` when loading yields no document. It renders into a new `TYPE_INT_ARGB` surface, so a successful result always comes from the direct conversion with alpha.

Modules:

- `JavaTypes`: Java's `byte` and `int` as ranges of `int`, and the `& 0xFF` widening.
- `Awt`: the native surface, a datatype `Direct | Indexed | Component | Other` that carries each model's own data.
- `Swt`: `RGB`, `PaletteData`, the error code, and the `ImageData` class that the conversions fill in place.
- `PixelBits`: ARGB channel extraction and its inverse.
- `ScanOrder`: the row-major visiting order of the nested loops.
- `JSVGRasterizer`: `calculateColors`, the three conversions, the dispatch and `rasterizeSVG`.
- `Scenarios`: three clients that use only the contracts (an opaque white direct pixel, a two-colour indexed table with transparent index 1, and a document that paints nothing coming out fully transparent).

The component conversion's fixed masks `(0x0000FF, 0x00FF00, 0xFF0000)` put red in the low byte and blue in the high byte (`JSVGRasterizer.java:196`).

## Model

| member | source | states |
|---|---|---|
| JavaTypes.UnsignedByte | bundles/org.eclipse.swt.svg/src/org/eclipse/swt/svg/JSVGRasterizer.java:190 | `b & 0xFF` keeps the byte's eight bits, lies in 0..255, is `b` for a non-negative byte and `b + 256` for a negative one |
| JavaTypes.UnsignedByteRoundTrip | bundles/org.eclipse.swt.svg/src/org/eclipse/swt/svg/JSVGRasterizer.java:190 | widening with `& 0xFF` loses nothing: narrowing back gives the original signed byte |
| JavaTypes.ByteCastRoundTrip | bundles/org.eclipse.swt.svg/src/org/eclipse/swt/svg/JSVGRasterizer.java:190 | every value 0..255 is the `& 0xFF` of exactly one signed byte (the other half of the bijection) |
| PixelBits.Alpha | bundles/org.eclipse.swt.svg/src/org/eclipse/swt/svg/JSVGRasterizer.java:156 | `(argb >> 24) & 0xFF` is bits 24-31 of the 32-bit pattern and lies in 0..255 |
| PixelBits.Red | bundles/org.eclipse.swt.svg/src/org/eclipse/swt/svg/JSVGRasterizer.java:153 | `(argb >> 16) & 0xFF` is bits 16-23 of the 32-bit pattern and lies in 0..255 |
| PixelBits.Green | bundles/org.eclipse.swt.svg/src/org/eclipse/swt/svg/JSVGRasterizer.java:153 | `(argb >> 8) & 0xFF` is bits 8-15 of the 32-bit pattern and lies in 0..255 |
| PixelBits.Blue | bundles/org.eclipse.swt.svg/src/org/eclipse/swt/svg/JSVGRasterizer.java:153 | `argb & 0xFF` is bits 0-7 of the 32-bit pattern and lies in 0..255 |
| PixelBits.ChannelsRecompose | bundles/org.eclipse.swt.svg/src/org/eclipse/swt/svg/JSVGRasterizer.java:152-156 | the four extracted channels rebuild the unsigned 32-bit pattern, so extraction discards nothing |
| PixelBits.UnpackPack | bundles/org.eclipse.swt.svg/src/org/eclipse/swt/svg/JSVGRasterizer.java:152-156 | extracting the channels of an AWT-packed ARGB value gives back the packed A, R, G, B |
| PixelBits.PackUnpack | bundles/org.eclipse.swt.svg/src/org/eclipse/swt/svg/JSVGRasterizer.java:152-156 | packing the extracted channels gives back the original `getRGB` value (extraction is a bijection) |
| ScanOrder.RowMajorVisitsEachCellOnce | bundles/org.eclipse.swt.svg/src/org/eclipse/swt/svg/JSVGRasterizer.java:150-151 | the nested y/x loops visit width*height coordinates: every cell of the grid, no cell outside it, in strictly increasing row-major order, so each cell exactly once |
| JSVGRasterizer.ColorTable | bundles/org.eclipse.swt.svg/src/org/eclipse/swt/svg/JSVGRasterizer.java:180-193 | the rebuilt table has exactly `getMapSize()` entries; entry i has the same eight bits as the model's reds[i], greens[i], blues[i]; every component is in 0..255 |
| JSVGRasterizer.ColorTableEntry | bundles/org.eclipse.swt.svg/src/org/eclipse/swt/svg/JSVGRasterizer.java:190 | a negative byte in the model's table becomes that byte plus 256, a non-negative one is kept |
| JSVGRasterizer.CalculateColors | bundles/org.eclipse.swt.svg/src/org/eclipse/swt/svg/JSVGRasterizer.java:180-193 | the indexed loop fills exactly the colour table, entry by entry in index order |
| JSVGRasterizer.GenerateDirect | bundles/org.eclipse.swt.svg/src/org/eclipse/swt/svg/JSVGRasterizer.java:145-161 | one `ImageData`: the surface's width and height, depth equal to the pixel size, palette masks equal to the model's masks, no transparent pixel. Every cell is set once, in row-major order, to `getPixel` of the R, G, B channels of the same coordinate. With alpha, each alpha value is the A channel. Without alpha, no alpha plane exists |
| JSVGRasterizer.GenerateIndexed | bundles/org.eclipse.swt.svg/src/org/eclipse/swt/svg/JSVGRasterizer.java:163-178 | one `ImageData`: the surface's dimensions and pixel size, palette = the `calculateColors` table, transparent pixel = the model's, unchanged. Every cell is set once, row-major, to the raw raster index at the same coordinate. No alpha plane |
| JSVGRasterizer.GenerateComponent | bundles/org.eclipse.swt.svg/src/org/eclipse/swt/svg/JSVGRasterizer.java:195-210 | one `ImageData`: the surface's dimensions and pixel size, palette masks red 0x0000FF, green 0x00FF00, blue 0xFF0000, transparent pixel -1. Every cell is set once, row-major, to `getPixel` of the first three samples at that coordinate. No alpha plane |
| JSVGRasterizer.TransformToSWTImageData | bundles/org.eclipse.swt.svg/src/org/eclipse/swt/svg/JSVGRasterizer.java:133-143 | the result is null exactly for an unrecognised colour model; otherwise it is an array of exactly one `ImageData`, converted by the conversion matching the model |
| JSVGRasterizer.CreateImageBase | bundles/org.eclipse.swt.svg/src/org/eclipse/swt/svg/JSVGRasterizer.java:109-114 | the surface `createImageBase` allocates has the target width and height and is a direct model with alpha. It starts cleared: every pixel has alpha, red, green and blue 0, so it is fully transparent before drawing |
| JSVGRasterizer.RasterizeSVG | bundles/org.eclipse.swt.svg/src/org/eclipse/swt/svg/JSVGRasterizer.java:81-114 | fails with `ERROR_INVALID_IMAGE` exactly when loading yields no document; with a document whose target width or height is below 1 it fails with `IllegalArgumentException` from `new BufferedImage`; otherwise it succeeds, never with null, with one new `ImageData` that is the direct conversion with alpha of the cleared surface after `paint` has drawn on it |
| Swt.ImageData.constructor | bundles/org.eclipse.swt.svg/src/org/eclipse/swt/svg/JSVGRasterizer.java:148-149 | `new ImageData(width, height, depth, palette)` (also at :166-167 and :197-198) keeps the given dimensions, depth and palette. Every pixel starts at 0, there is no alpha plane and no transparent pixel (-1), and its pixel grid is new |
| Swt.ImageData.SetPixel | bundles/org.eclipse.swt.svg/src/org/eclipse/swt/svg/JSVGRasterizer.java:154 | stores one pixel value at (x, y), changes no other cell, and appends (x, y) to the write trace |
| Swt.ImageData.SetAlpha | bundles/org.eclipse.swt.svg/src/org/eclipse/swt/svg/JSVGRasterizer.java:156 | stores one alpha value at (x, y) and changes no other cell; it creates a zeroed alpha plane on the first call |

## Left out

- Loading and drawing (`loadSVG`, the `svgDocument.render` call inside `renderSVG`, `configureRenderingOptions`, the rendering-hint table): these are calls into the JSVG and AWT libraries. `RasterizeSVG` takes the loader's outcome and a `paint` function as parameters. `paint` stands for drawing the document, scaled by `zoom / 100`, onto the cleared surface from `createImageBase`, and for reading it back with `getRGB`.
- Target size (`calculateTargetWidth`, `calculateTargetHeight`): this is floating-point rounding of `size * zoom / 100`. It is the parameter `targetSize`. `RasterizeSVG` models what follows from its result: a dimension below 1 makes `new BufferedImage` throw.
- JSVGRasterizer.RasterizeSVG: target sizes whose `w * h` reaches 2^31 are not modelled. There `new BufferedImage` (`JSVGRasterizer.java:113`) throws, because the pixel count overflows a Java `int`. Depending on the overflow, the error is a `NegativeArraySizeException`, an `IllegalArgumentException` or an `OutOfMemoryError`. The contract promises success for every size of at least 1 x 1, which is weaker than the source, where such sizes fail. Running out of memory for smaller sizes is not modelled either.
- I/O errors while reading the stream, and the zoom-must-not-be-0 rule: the loader's outcome is a parameter, and the zoom is passed unchanged to `targetSize` and `paint`.
- `PaletteData.getPixel`: its source is not part of this model. It is the function parameter `getPixel`, and its bit layout is not modelled.
- `BufferedImage.getRGB` and `WritableRaster.getPixel`: the surface carries their results per coordinate.
- `ImageData` internals: the byte packing of pixels by depth is not modelled, and neither is the constructor's rejection of unsupported depths.
  - `SetPixel` and `SetAlpha` are stores into a width x height grid. The alpha plane is created on first use.
  - The constructor's defaults (all pixels 0, no alpha plane, transparent pixel -1) are assumed. The direct conversion relies on that default for "no transparent pixel".
- `JSVGRasterizer.GenerateComponent`: rasters with one or two 8-bit bands are covered. The conversion passes an `int[3]`, and the samples a band does not fill keep their initial 0, so a one-band grey raster (`TYPE_BYTE_GRAY`) converts as `getPixel(RGB(g, 0, 0))` through the red mask `0x0000FF`. Rasters with more than three bands are not modelled, and neither are samples outside 0..255 (which SWT's `RGB` would reject).
- The `return null` after `SWT.error` in `rasterizeSVG`: it cannot be reached, because `SWT.error` always throws.
- `SVGRasterizer.java` (lazy loader creation, `SVGUtil.isSVGFile`, registry registration), the snippets and the manual tests: they are outside the conversion modelled here.
