/** Where `make_square_image` puts the source image: the side of the square
    canvas and the top-left offset of the pasted image (main.py lines 6-13).
    Image sizes are non-negative, so Python's floor division `//` used there
    agrees with Dafny's `/` on every value that reaches it. */
module Geometry {

  /** Side of the square canvas and the paste offset (column, row). */
  datatype Placement = Placement(size: nat, ox: nat, oy: nat)

  function Max(a: nat, b: nat): (m: nat)
    ensures m >= a && m >= b && (m == a || m == b)
  {
    if a >= b then a else b
  }

  /** The canvas for a `w` x `h` image: side `max(w, h)`, offset
      `((size - w) // 2, (size - h) // 2)`. */
  function Place(w: nat, h: nat): (p: Placement)
    // the canvas is square with side max(w, h)
    ensures p.size >= w && p.size >= h && (p.size == w || p.size == h)
    // the image fits on the canvas
    ensures p.ox + w <= p.size && p.oy + h <= p.size
    // centred, with the odd pixel of margin going to the right / bottom
    ensures p.ox <= p.size - w - p.ox <= p.ox + 1
    ensures p.oy <= p.size - h - p.oy <= p.oy + 1
    // the longer axis is not padded at all
    ensures w >= h ==> p.ox == 0 && p.size == w
    ensures h >= w ==> p.oy == 0 && p.size == h
  {
    var size := Max(w, h);
    Placement(size, (size - w) / 2, (size - h) / 2)
  }

  /** An independent description of a good placement: square canvas no larger
      than needed, and margins balanced to within one pixel, the smaller one
      on the left / top. */
  predicate CentredSquare(w: nat, h: nat, q: Placement)
  {
    q.size >= w && q.size >= h && (q.size == w || q.size == h) &&
    q.ox <= q.size - w - q.ox <= q.ox + 1 &&
    q.oy <= q.size - h - q.oy <= q.oy + 1
  }

  /** True when canvas cell (x, y) lies in the rectangle covered by a
      `w` x `h` image pasted at (ox, oy). */
  predicate Covers(ox: int, oy: int, w: int, h: int, x: int, y: int)
  {
    ox <= x < ox + w && oy <= y < oy + h
  }

  /** `Place` is the one and only centred square placement: the floor-biased
      offsets are forced by the balance condition. */
  lemma {:induction false} PlaceIsTheCentredSquare(w: nat, h: nat, q: Placement)
    ensures CentredSquare(w, h, q) <==> q == Place(w, h)
  {
    var p := Place(w, h);
    if CentredSquare(w, h, q) {
      assert q.size == p.size;
      HalfIsForced(q.size - w, q.ox);
      HalfIsForced(q.size - h, q.oy);
    }
  }

  /** If `o <= d - o <= o + 1`, then `o` is `d` halved and rounded down. */
  lemma HalfIsForced(d: int, o: int)
    requires o <= d - o <= o + 1
    ensures o == d / 2
  {
    assert d == 2 * o || d == 2 * o + 1;
  }

  /** The worked sizes: 100 x 50 goes on a 100 canvas at (0, 25), 51 x 50 on a
      51 canvas at (0, 0), 80 x 120 on a 120 canvas at (20, 0), and a square
      image is left where it is. */
  lemma PlaceExamples(n: nat)
    ensures Place(100, 50) == Placement(100, 0, 25)
    ensures Place(51, 50) == Placement(51, 0, 0)
    ensures Place(80, 120) == Placement(120, 20, 0)
    ensures Place(n, n) == Placement(n, 0, 0)
  {
  }
}
