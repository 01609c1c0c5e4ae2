/** The RGB rasters `create_gif` builds when `resize` is given: a canvas
    filled with the padding colour (`Image.new`) and the scaled image pasted
    onto it (`canvas.paste`). */
module Canvas {
  import opened Geometry

  type Byte = b: int | 0 <= b < 256

  datatype Rgb = Rgb(r: Byte, g: Byte, b: Byte)

  /** An RGB raster of size `dims`; `px(x, y)` is the colour of the pixel in
      column `x` and row `y`, for `0 <= x < dims.w` and `0 <= y < dims.h`.
      Values outside that range are not part of the image. */
  datatype Image = Image(dims: Dims, px: (int, int) -> Rgb)

  /** Pixel `(x, y)` lies in the `d`-sized rectangle whose top-left corner is `(left, top)`. */
  predicate InRect(x: int, y: int, left: int, top: int, d: Dims)
  {
    left <= x < left + d.w && top <= y < top + d.h
  }

  /** `Image.new("RGB", (d.w, d.h), c)`: every pixel has colour `c`. */
  function Blank(d: Dims, c: Rgb): (img: Image)
    ensures img.dims == d
    ensures forall x, y :: InRect(x, y, 0, 0, d) ==> img.px(x, y) == c
  {
    Image(d, (x, y) => c)
  }

  /** `canvas.paste(img, (left, top))`: every pixel of `img` that lands on
      the canvas replaces the pixel below it (the parts of `img` that fall
      outside the canvas are clipped), and every canvas pixel outside the
      pasted rectangle keeps its colour. */
  function Paste(canvas: Image, img: Image, left: int, top: int): (out: Image)
    ensures out.dims == canvas.dims
    ensures forall x, y :: InRect(x, y, 0, 0, canvas.dims) && !InRect(x, y, left, top, img.dims) ==>
      out.px(x, y) == canvas.px(x, y)
    ensures forall i, j :: InRect(i, j, 0, 0, img.dims) && InRect(left + i, top + j, 0, 0, canvas.dims) ==>
      out.px(left + i, top + j) == img.px(i, j)
  {
    Image(canvas.dims, (x, y) =>
      if InRect(x, y, left, top, img.dims) then img.px(x - left, y - top) else canvas.px(x, y))
  }

  /** The `resize` branch after resampling: `scaled` pasted onto a
      `box`-sized canvas of colour `pad` at offset `((max_w - new_w) // 2,
      (max_h - new_h) // 2)`. When the scaled image fits the box, the whole
      of it appears on the canvas at that offset and every other pixel is
      the padding colour. */
  function Letterbox(scaled: Image, box: Dims, pad: Rgb): (out: Image)
    ensures out.dims == box
    ensures scaled.dims.w <= box.w && scaled.dims.h <= box.h ==>
      var left := CentreOffset(box.w, scaled.dims.w);
      var top := CentreOffset(box.h, scaled.dims.h);
      && (forall i, j :: InRect(i, j, 0, 0, scaled.dims) ==> out.px(left + i, top + j) == scaled.px(i, j))
      && (forall x, y :: InRect(x, y, 0, 0, box) && !InRect(x, y, left, top, scaled.dims) ==> out.px(x, y) == pad)
  {
    Paste(Blank(box, pad), scaled, CentreOffset(box.w, scaled.dims.w), CentreOffset(box.h, scaled.dims.h))
  }
}
