/**
 * Two clients of the conversions, written from their contracts alone: a
 * single opaque white pixel through the direct conversion, and a two-colour
 * table with transparent index 1 through the indexed conversion, and a
 * document that paints nothing, which comes out fully transparent.
 */
module Scenarios {
  import opened Wrappers
  import opened JavaTypes
  import opened Awt
  import opened Swt
  import opened PixelBits
  import opened JSVGRasterizer

  method OpaqueWhiteDirectPixel(getPixel: GetPixel) {
    var white: int32 := -1;  // 0xFFFFFFFF
    var image := Direct(1, 1, 32, 0xFF0000, 0x00FF00, 0x0000FF, true, [[white]]);
    var result := TransformToSWTImageData(image, getPixel);
    var img := result[0];
    assert img.palette == DirectPalette(0xFF0000, 0x00FF00, 0x0000FF);
    assert img.pixels[0, 0] == getPixel(img.palette, RGB(255, 255, 255));
    assert img.alphaData != null && img.alphaData[0, 0] == 255;
  }

  method TwoColourIndexedTable() {
    var image := Indexed(2, 1, 1, [0, -1], [0, -1], [0, -128], 1, [[0, 1]]);
    var result := TransformToSWTImageData(image, (p, c) => 0);
    var img := result[0];
    assert img.transparentPixel == 1;
    assert img.palette.colors == [RGB(0, 0, 0), RGB(255, 255, 128)];
    assert img.pixels[0, 0] == 0 && img.pixels[1, 0] == 1;
  }

  method BlankDocumentIsTransparent(getPixel: GetPixel) {
    var r := RasterizeSVG(Some(0), 100, (d: int, z: int) => (2, 1),
                          (d: int, z: int, base: Surface) => if base.Direct? then base.rgb else [],
                          getPixel);
    var img := r.value[0];
    assert img.width == 2 && img.height == 1;
    assert img.alphaData != null && img.alphaData[0, 0] == 0 && img.alphaData[1, 0] == 0;
  }
}
