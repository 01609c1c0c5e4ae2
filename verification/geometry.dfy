/** Letterbox geometry of `create_gif` when `resize=(max_w, max_h)` is given:
    the scale ratio, the truncated scaled size and the centring offset. The
    source divides and multiplies in floating point; here the ratio is the
    exact rational number the float approximates. */
module Geometry {

  /** A width and a height in pixels. */
  datatype Dims = Dims(w: nat, h: nat)

  /** The size of a decoded source image; the ratio divides by both sides. */
  type SourceDims = d: Dims | d.w > 0 && d.h > 0 witness Dims(1, 1)

  /** Python's `min(a, b)`: the first argument unless the second is smaller. */
  function Min(a: real, b: real): real
  {
    if b < a then b else a
  }

  /** `ratio = min(max_w / orig_w, max_h / orig_h)`, exactly. */
  function Ratio(src: SourceDims, box: Dims): real
  {
    Min(box.w as real / src.w as real, box.h as real / src.h as real)
  }

  /** The width is the binding side exactly when `max_w / orig_w <= max_h / orig_h`. */
  predicate WidthBinds(src: SourceDims, box: Dims)
  {
    box.w * src.h <= box.h * src.w
  }

  /** Multiplying by a quotient is dividing the product. */
  lemma MulDiv(a: real, p: real, q: real)
    requires q != 0.0
    ensures a * (p / q) == (a * p) / q
  {
  }

  /** A real `n + f` with `0 <= f < 1` has floor `n`. */
  lemma FloorOfSplit(x: real, n: int, f: real)
    requires x == n as real + f && 0.0 <= f < 1.0
    ensures x.Floor == n
  {
  }

  lemma FloorOfScaled(a: nat, p: nat, q: nat)
    requires q > 0
    ensures (a as real * (p as real / q as real)).Floor == a * p / q
  {
    var ap := a * p;
    var n, m := ap / q, ap % q;
    assert ap == n * q + m && 0 <= m < q;
    var qr := q as real;
    MulDiv(a as real, p as real, qr);
    assert a as real * p as real == ap as real;
    assert ap as real == n as real * qr + m as real;
    assert (n as real * qr + m as real) / qr == n as real + m as real / qr;
    assert 0.0 <= m as real / qr < 1.0;
    FloorOfSplit(a as real * (p as real / qr), n, m as real / qr);
  }

  lemma ScaleLess(x: real, y: real, c: real)
    requires c > 0.0
    ensures x < y <==> x * c < y * c
  {
  }

  lemma RatioChoice(src: SourceDims, box: Dims)
    ensures WidthBinds(src, box) ==> Ratio(src, box) == box.w as real / src.w as real
    ensures !WidthBinds(src, box) ==> Ratio(src, box) == box.h as real / src.h as real
  {
    var w, h := src.w as real, src.h as real;
    var rw := box.w as real / w;
    var rh := box.h as real / h;
    var c := w * h;
    ScaleLess(rh, rw, c);
    assert rw * w == box.w as real;
    assert rh * h == box.h as real;
    assert rw * c == (rw * w) * h;
    assert rh * c == (rh * h) * w;
    assert (box.w * src.h) as real == box.w as real * h;
    assert (box.h * src.w) as real == box.h as real * w;
  }

  lemma FloorOfBound(a: nat, p: nat)
    requires a > 0
    ensures (a as real * (p as real / a as real)).Floor == p
  {
    assert a as real * (p as real / a as real) == p as real;
  }

  /** `(new_w, new_h) = (int(orig_w * ratio), int(orig_h * ratio))`, computed
      by cross-multiplication: the binding side becomes its bound and the
      other side is the truncated proportional length. */
  function ScaledSize(src: SourceDims, box: Dims): (r: Dims)
    ensures r.w == (src.w as real * Ratio(src, box)).Floor
    ensures r.h == (src.h as real * Ratio(src, box)).Floor
  {
    RatioChoice(src, box);
    if WidthBinds(src, box) then
      FloorOfBound(src.w, box.w);
      FloorOfScaled(src.h, box.w, src.w);
      Dims(box.w, src.h * box.w / src.w)
    else
      FloorOfScaled(src.w, box.h, src.h);
      FloorOfBound(src.h, box.h);
      Dims(src.w * box.h / src.h, box.h)
  }

  lemma DivBound(x: nat, y: nat, q: nat)
    requires q > 0 && x <= y * q
    ensures x / q <= y
  {
    var d := x / q;
    assert d * q <= y * q;
    assert (d - y) * q <= 0;
  }

  /** The scaled image fits the box and touches it on at least one side. */
  lemma ScaledSizeFits(src: SourceDims, box: Dims)
    ensures ScaledSize(src, box).w <= box.w && ScaledSize(src, box).h <= box.h
    ensures ScaledSize(src, box).w == box.w || ScaledSize(src, box).h == box.h
  {
    if WidthBinds(src, box) {
      DivBound(src.h * box.w, box.h, src.w);
    } else {
      DivBound(src.w * box.h, box.w, src.h);
    }
  }

  /** The ratio is the largest scale factor at which the source still fits
      the box on both sides ("fit", not "fill"). */
  lemma RatioIsLargestFit(src: SourceDims, box: Dims, t: real)
    ensures src.w as real * Ratio(src, box) <= box.w as real
    ensures src.h as real * Ratio(src, box) <= box.h as real
    ensures src.w as real * t <= box.w as real && src.h as real * t <= box.h as real ==> t <= Ratio(src, box)
  {
    var rw := box.w as real / src.w as real;
    var rh := box.h as real / src.h as real;
    assert src.w as real * rw == box.w as real;
    assert src.h as real * rh == box.h as real;
    if src.w as real * t <= box.w as real {
      assert t <= rw;
    }
    if src.h as real * t <= box.h as real {
      assert t <= rh;
    }
  }

  /** `(max - new) // 2`. For the divisor 2 Python's floor division and
      Dafny's `/` agree on every integer. The left (top) margin is at most
      the right (bottom) one and at most one pixel smaller. */
  function CentreOffset(outer: nat, inner: nat): (off: int)
    ensures off <= (outer - inner) - off <= off + 1
    ensures inner <= outer ==> 0 <= off && off + inner <= outer
  {
    (outer - inner) / 2
  }

  /** Where the scaled image goes on the `max_w x max_h` canvas. */
  datatype Placement = Placement(inner: Dims, x: int, y: int)

  /** The scaled size and the paste offset for one source image: the
      rectangle lies inside the canvas and is centred on it, any odd pixel
      of slack going to the right and bottom margins. */
  function Place(src: SourceDims, box: Dims): (p: Placement)
    ensures p.inner == ScaledSize(src, box)
    ensures p.inner.w <= box.w && p.inner.h <= box.h
    ensures p.inner.w == box.w || p.inner.h == box.h
    ensures 0 <= p.x && p.x + p.inner.w <= box.w
    ensures 0 <= p.y && p.y + p.inner.h <= box.h
    ensures p.x <= box.w - (p.x + p.inner.w) <= p.x + 1
    ensures p.y <= box.h - (p.y + p.inner.h) <= p.y + 1
  {
    var inner := ScaledSize(src, box);
    ScaledSizeFits(src, box);
    Placement(inner, CentreOffset(box.w, inner.w), CentreOffset(box.h, inner.h))
  }

  /** A 1024 x 768 page in a 512 x 512 box becomes 512 x 384 with 64-pixel
      bands above and below. */
  lemma LandscapeExample()
    ensures Place(Dims(1024, 768), Dims(512, 512)) == Placement(Dims(512, 384), 0, 64)
  {
  }

  /** Nothing keeps a scaled side positive: a 1 x 2000 strip in a 512 x 512
      box gets width 0. */
  lemma ThinSourceExample()
    ensures ScaledSize(Dims(1, 2000), Dims(512, 512)) == Dims(0, 512)
  {
  }
}
