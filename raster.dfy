/** Pixels, images and the square canvas of `make_square_image`
    (main.py lines 4-17): a `size` x `size` RGBA canvas filled with
    `fill_color`, onto which the decoded image is pasted at the centring
    offset with its own alpha channel as the mask.

    Images are indexed by column then row, as the image library addresses
    them: `cols[x][y]` and `a[x, y]` are the pixel at (x, y). The
    per-pixel compositing the library performs under a mask is not part of
    this model: it is the parameter `blend`, where `blend(s, d)` is what a
    canvas pixel `d` becomes when source pixel `s` is pasted over it. */
module Raster {
  import opened Geometry

  newtype Byte = x: int | 0 <= x < 256

  datatype Pixel = Pixel(r: Byte, g: Byte, b: Byte, a: Byte)

  /** The fill colour `(0, 0, 0, 0)` the batch loop passes. */
  const Transparent: Pixel := Pixel(0, 0, 0, 0)

  /** An image as a value: `width` columns of `height` pixels each. */
  datatype Image = Image(width: nat, height: nat, cols: seq<seq<Pixel>>)
  {
    predicate Valid()
    {
      |cols| == width && forall x :: 0 <= x < width ==> |cols[x]| == height
    }
  }

  /** Two well-formed images with the same size and the same pixels are the
      same image. */
  lemma {:induction false} ImageExt(a: Image, b: Image)
    requires a.Valid() && b.Valid()
    requires a.width == b.width && a.height == b.height
    requires forall x, y :: 0 <= x < a.width && 0 <= y < a.height ==> a.cols[x][y] == b.cols[x][y]
    ensures a == b
  {
    forall x | 0 <= x < a.width
      ensures a.cols[x] == b.cols[x]
    {
      assert forall y :: 0 <= y < a.height ==> a.cols[x][y] == b.cols[x][y];
    }
  }

  /** `Image.new("RGBA", (w, h), fill)`. */
  function Filled(w: nat, h: nat, fill: Pixel): (img: Image)
    ensures img.Valid() && img.width == w && img.height == h
    ensures forall x, y :: 0 <= x < w && 0 <= y < h ==> img.cols[x][y] == fill
  {
    Image(w, h, seq(w, x requires 0 <= x < w => seq(h, y requires 0 <= y < h => fill)))
  }

  /** `dst.paste(src, (ox, oy), src)` as a value: each covered cell of `dst`
      inside its bounds is blended with the source pixel over it; the part of
      `src` beyond the right or bottom edge is clipped away. */
  function Pasted(dst: Image, src: Image, ox: nat, oy: nat, blend: (Pixel, Pixel) -> Pixel): (r: Image)
    requires dst.Valid() && src.Valid()
    ensures r.Valid() && r.width == dst.width && r.height == dst.height
    ensures forall x, y :: 0 <= x < dst.width && 0 <= y < dst.height ==>
      r.cols[x][y] == if Covers(ox, oy, src.width, src.height, x, y)
                      then blend(src.cols[x - ox][y - oy], dst.cols[x][y])
                      else dst.cols[x][y]
  {
    Image(dst.width, dst.height,
      seq(dst.width, x requires 0 <= x < dst.width =>
        seq(dst.height, y requires 0 <= y < dst.height =>
          if Covers(ox, oy, src.width, src.height, x, y)
          then blend(src.cols[x - ox][y - oy], dst.cols[x][y])
          else dst.cols[x][y])))
  }

  /** What `make_square_image` produces from a decoded image `src`: a fresh
      canvas of `fill` with `src` pasted at the centring offset. */
  function Squared(src: Image, fill: Pixel, blend: (Pixel, Pixel) -> Pixel): (r: Image)
    requires src.Valid()
    ensures r.Valid() && r.width == r.height
    ensures r.width >= src.width && r.height >= src.height
    ensures r.width == src.width || r.height == src.height
  {
    var p := Place(src.width, src.height);
    Pasted(Filled(p.size, p.size, fill), src, p.ox, p.oy, blend)
  }

  /** The `w` x `h` window of `img` whose top-left corner is (x0, y0). */
  function Crop(img: Image, x0: nat, y0: nat, w: nat, h: nat): (r: Image)
    requires img.Valid() && x0 + w <= img.width && y0 + h <= img.height
    ensures r.Valid() && r.width == w && r.height == h
    ensures forall i, j :: 0 <= i < w && 0 <= j < h ==> r.cols[i][j] == img.cols[x0 + i][y0 + j]
  {
    Image(w, h, seq(w, i requires 0 <= i < w => seq(h, j requires 0 <= j < h => img.cols[x0 + i][y0 + j])))
  }

  /** `src` composited over a plain background of colour `fill`. */
  function Over(src: Image, fill: Pixel, blend: (Pixel, Pixel) -> Pixel): (r: Image)
    requires src.Valid()
    ensures r.Valid() && r.width == src.width && r.height == src.height
    ensures forall i, j :: 0 <= i < src.width && 0 <= j < src.height ==> r.cols[i][j] == blend(src.cols[i][j], fill)
  {
    Image(src.width, src.height,
      seq(src.width, i requires 0 <= i < src.width =>
        seq(src.height, j requires 0 <= j < src.height => blend(src.cols[i][j], fill))))
  }

  /** Every cell of the squared image: outside the placement rectangle it is
      pure fill colour, and inside it is the source pixel the offset maps
      there, blended over the fill. */
  lemma {:induction false} SquaredCells(src: Image, fill: Pixel, blend: (Pixel, Pixel) -> Pixel)
    requires src.Valid()
    ensures var p := Place(src.width, src.height);
      var r := Squared(src, fill, blend);
      forall x, y :: 0 <= x < r.width && 0 <= y < r.height ==>
        r.cols[x][y] == if Covers(p.ox, p.oy, src.width, src.height, x, y)
                        then blend(src.cols[x - p.ox][y - p.oy], fill)
                        else fill
  {
    var p := Place(src.width, src.height);
    var r := Squared(src, fill, blend);
    assert r == Pasted(Filled(p.size, p.size, fill), src, p.ox, p.oy, blend);
    assert r.width == p.size && r.height == p.size;
    PastedOnFill(src, p.size, fill, p.ox, p.oy, blend);
  }

  /** Source pixel (i, j) lands on the squared canvas at (ox + i, oy + j),
      blended over the fill. */
  lemma {:induction false} SquaredSourceCells(src: Image, fill: Pixel, blend: (Pixel, Pixel) -> Pixel)
    requires src.Valid()
    ensures var p := Place(src.width, src.height);
      var r := Squared(src, fill, blend);
      forall i, j :: 0 <= i < src.width && 0 <= j < src.height ==>
        p.ox + i < r.width && p.oy + j < r.height &&
        r.cols[p.ox + i][p.oy + j] == blend(src.cols[i][j], fill)
  {
    var p := Place(src.width, src.height);
    var r := Squared(src, fill, blend);
    assert r == Pasted(Filled(p.size, p.size, fill), src, p.ox, p.oy, blend);
    assert r.width == p.size && r.height == p.size;
    PastedOnFill(src, p.size, fill, p.ox, p.oy, blend);
  }

  /** The cells of `src` pasted onto a plain canvas: uncovered cells keep the
      fill colour, and covered ones hold a source pixel blended over it. */
  lemma {:induction false} PastedOnFill(src: Image, size: nat, fill: Pixel, ox: nat, oy: nat, blend: (Pixel, Pixel) -> Pixel)
    requires src.Valid() && ox + src.width <= size && oy + src.height <= size
    ensures var r := Pasted(Filled(size, size, fill), src, ox, oy, blend);
      forall x, y :: 0 <= x < size && 0 <= y < size ==>
        r.cols[x][y] == if Covers(ox, oy, src.width, src.height, x, y)
                        then blend(src.cols[x - ox][y - oy], fill)
                        else fill
    ensures var r := Pasted(Filled(size, size, fill), src, ox, oy, blend);
      forall i, j :: 0 <= i < src.width && 0 <= j < src.height ==>
        r.cols[ox + i][oy + j] == blend(src.cols[i][j], fill)
  {
    var f := Filled(size, size, fill);
    var r := Pasted(f, src, ox, oy, blend);
    forall i, j | 0 <= i < src.width && 0 <= j < src.height
      ensures r.cols[ox + i][oy + j] == blend(src.cols[i][j], fill)
    {
      assert Covers(ox, oy, src.width, src.height, ox + i, oy + j);
      assert r.cols[ox + i][oy + j] == blend(src.cols[i][j], f.cols[ox + i][oy + j]);
    }
  }

  /** Cropping the placement rectangle back out of the squared image gives the
      source composited over the fill colour: padding never overwrites or
      shifts a source pixel. */
  lemma {:induction false} CropOfSquared(src: Image, fill: Pixel, blend: (Pixel, Pixel) -> Pixel)
    requires src.Valid()
    ensures var p := Place(src.width, src.height);
      Crop(Squared(src, fill, blend), p.ox, p.oy, src.width, src.height) == Over(src, fill, blend)
  {
    var p := Place(src.width, src.height);
    var c := Crop(Squared(src, fill, blend), p.ox, p.oy, src.width, src.height);
    var o := Over(src, fill, blend);
    SquaredSourceCells(src, fill, blend);
    ImageExt(c, o);
  }

  /** When the compositing passes fully opaque source pixels through
      unchanged, an opaque image comes back exactly from the squared one. */
  lemma {:induction false} OpaqueRoundTrip(src: Image, fill: Pixel, blend: (Pixel, Pixel) -> Pixel)
    requires src.Valid()
    requires forall s: Pixel, d: Pixel :: s.a == 255 ==> blend(s, d) == s
    requires forall x, y :: 0 <= x < src.width && 0 <= y < src.height ==> src.cols[x][y].a == 255
    ensures var p := Place(src.width, src.height);
      Crop(Squared(src, fill, blend), p.ox, p.oy, src.width, src.height) == src
  {
    CropOfSquared(src, fill, blend);
    var o := Over(src, fill, blend);
    forall x, y | 0 <= x < src.width && 0 <= y < src.height
      ensures o.cols[x][y] == src.cols[x][y]
    {
      assert src.cols[x][y].a == 255;
    }
    ImageExt(o, src);
  }

  /** When the compositing leaves the canvas alone under fully transparent
      source pixels, a fully transparent image squares to a blank canvas. */
  lemma {:induction false} TransparentGivesBlank(src: Image, fill: Pixel, blend: (Pixel, Pixel) -> Pixel)
    requires src.Valid()
    requires forall s: Pixel, d: Pixel :: s.a == 0 ==> blend(s, d) == d
    requires forall x, y :: 0 <= x < src.width && 0 <= y < src.height ==> src.cols[x][y].a == 0
    ensures var p := Place(src.width, src.height);
      Squared(src, fill, blend) == Filled(p.size, p.size, fill)
  {
    var p := Place(src.width, src.height);
    var r := Squared(src, fill, blend);
    var f := Filled(p.size, p.size, fill);
    forall x, y | 0 <= x < p.size && 0 <= y < p.size
      ensures r.cols[x][y] == f.cols[x][y]
    {
      SquaredCells(src, fill, blend);
      if Covers(p.ox, p.oy, src.width, src.height, x, y) {
        assert src.cols[x - p.ox][y - p.oy].a == 0;
      }
    }
    ImageExt(r, f);
  }

  /** The current contents of a pixel array, as an image value. */
  ghost function Snapshot(a: array2<Pixel>): (img: Image)
    reads a
    ensures img.Valid() && img.width == a.Length0 && img.height == a.Length1
    ensures forall x, y :: 0 <= x < a.Length0 && 0 <= y < a.Length1 ==> img.cols[x][y] == a[x, y]
  {
    Image(a.Length0, a.Length1,
      seq(a.Length0, x requires 0 <= x < a.Length0 reads a =>
        seq(a.Length1, y requires 0 <= y < a.Length1 reads a => a[x, y])))
  }

  /** `Image.new("RGBA", (size, size), fill)`: a fresh canvas, every cell
      `fill`. */
  method NewCanvas(size: nat, fill: Pixel) returns (canvas: array2<Pixel>)
    ensures fresh(canvas)
    ensures Snapshot(canvas) == Filled(size, size, fill)
  {
    canvas := new Pixel[size, size]((x, y) => fill);
    ImageExt(Snapshot(canvas), Filled(size, size, fill));
  }

  /** `canvas.paste(src, (ox, oy), src)`: blends every source pixel into the
      canvas cell it covers, row by row, and writes no other cell. */
  method Paste(canvas: array2<Pixel>, src: array2<Pixel>, ox: nat, oy: nat, blend: (Pixel, Pixel) -> Pixel)
    requires canvas != src
    modifies canvas
    ensures forall x, y :: 0 <= x < canvas.Length0 && 0 <= y < canvas.Length1 ==>
      canvas[x, y] == if Covers(ox, oy, src.Length0, src.Length1, x, y)
                      then blend(src[x - ox, y - oy], old(canvas[x, y]))
                      else old(canvas[x, y])
    ensures Snapshot(canvas) == Pasted(old(Snapshot(canvas)), Snapshot(src), ox, oy, blend)
  {
    // the right and bottom edges of the covered rectangle, clipped to the canvas
    var x1 := if ox + src.Length0 < canvas.Length0 then ox + src.Length0 else canvas.Length0;
    var y1 := if oy + src.Length1 < canvas.Length1 then oy + src.Length1 else canvas.Length1;
    if ox < x1 {
      var y := oy;
      while y < y1
        invariant oy <= y && (y <= y1 || y == oy)
        invariant forall a, b :: 0 <= a < canvas.Length0 && 0 <= b < canvas.Length1 ==>
          canvas[a, b] == if Covers(ox, oy, src.Length0, src.Length1, a, b) && b < y
                          then blend(src[a - ox, b - oy], old(canvas[a, b]))
                          else old(canvas[a, b])
      {
        PasteRow(canvas, src, ox, oy, y, x1, blend);
        y := y + 1;
      }
    }
    ImageExt(Snapshot(canvas), Pasted(old(Snapshot(canvas)), Snapshot(src), ox, oy, blend));
  }

  /** One row of the paste: the cells `ox <= x < x1` of row `y` are blended
      with the source pixels over them; every other cell is left as it was. */
  method PasteRow(canvas: array2<Pixel>, src: array2<Pixel>, ox: nat, oy: nat, y: nat, x1: nat,
                  blend: (Pixel, Pixel) -> Pixel)
    requires canvas != src
    requires ox <= x1 <= canvas.Length0 && x1 <= ox + src.Length0
    requires oy <= y < canvas.Length1 && y < oy + src.Length1
    modifies canvas
    ensures forall a, b :: 0 <= a < canvas.Length0 && 0 <= b < canvas.Length1 ==>
      canvas[a, b] == if b == y && ox <= a < x1
                      then blend(src[a - ox, b - oy], old(canvas[a, b]))
                      else old(canvas[a, b])
  {
    var x := ox;
    while x < x1
      invariant ox <= x <= x1
      invariant forall a, b :: 0 <= a < canvas.Length0 && 0 <= b < canvas.Length1 ==>
        canvas[a, b] == if b == y && ox <= a < x
                        then blend(src[a - ox, b - oy], old(canvas[a, b]))
                        else old(canvas[a, b])
    {
      canvas[x, y] := blend(src[x - ox, y - oy], canvas[x, y]);
      x := x + 1;
    }
  }

  /** `make_square_image` on an already decoded RGBA image: the result is a
      new square canvas holding exactly `Squared(src, fill, blend)`; the
      source image is not changed. */
  method MakeSquareImage(src: array2<Pixel>, fill: Pixel, blend: (Pixel, Pixel) -> Pixel)
    returns (canvas: array2<Pixel>)
    ensures fresh(canvas)
    ensures canvas.Length0 == canvas.Length1 == Max(src.Length0, src.Length1)
    ensures Snapshot(canvas) == Squared(Snapshot(src), fill, blend)
  {
    var p := Place(src.Length0, src.Length1);
    canvas := NewCanvas(p.size, fill);
    Paste(canvas, src, p.ox, p.oy, blend);
  }
}
