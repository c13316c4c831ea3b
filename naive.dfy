/** The transform engine: destination canvas size, inverse mapping of a
    destination offset to a source offset, and the nearest-neighbour pixel
    loop that fills a freshly allocated destination buffer.

    The rotation angle enters only through its cosine c and sine s, which are
    parameters here; every statement about a particular angle is stated for
    the exact (c, s) pair of that angle. */
module Naive {
  import opened Geometry

  // ---------------------------------------------------------------------
  // Points, rectangles, colours and source images
  // ---------------------------------------------------------------------

  datatype Point = Point(x: int, y: int)

  /** An integer rectangle [min.x, max.x) x [min.y, max.y). */
  datatype Rectangle = Rectangle(min: Point, max: Point) {
    function Dx(): int { max.x - min.x }
    function Dy(): int { max.y - min.y }
    predicate WellFormed() { min.x <= max.x && min.y <= max.y }
    predicate Contains(p: Point) { min.x <= p.x < max.x && min.y <= p.y < max.y }
  }

  newtype uint16 = x: int | 0 <= x < 0x1_0000

  /** A 16-bit-per-channel colour; the zero value is fully transparent. */
  datatype Color = Color(r: uint16, g: uint16, b: uint16, a: uint16)

  const Transparent: Color := Color(0, 0, 0, 0)

  /** A read-only source image: its bounds, the colour at each point inside
      them, and the colour its accessor answers for any point outside. */
  datatype Image = Image(bounds: Rectangle, pixel: (int, int) -> Color, outside: Color) {
    function At(x: int, y: int): Color {
      if bounds.Contains(Point(x, y)) then pixel(x, y) else outside
    }
  }

  /** Integer division by two, truncating toward zero (for negative n this
      differs from Dafny's Euclidean division). */
  function Half(n: int): (h: int)
    ensures -1 <= n - 2 * h <= 1
    ensures n >= 0 ==> h >= 0 && n - 2 * h >= 0
    ensures n < 0 ==> h <= 0 && n - 2 * h <= 0
  {
    if n >= 0 then n / 2 else -((-n) / 2)
  }

  // ---------------------------------------------------------------------
  // Canvas size
  // ---------------------------------------------------------------------

  /** The destination canvas for a source of bounds r, scaled by scale and
      rotated by the angle whose cosine is c and sine is s: origin (0, 0),
      width and height the nearest integers to the absolute values of
      (dX c + dY s) scale and (dY c + dX s) scale. Both corners handed to the
      rectangle constructor are already ordered (a rounded absolute value is
      never negative), so its coordinate swap never applies. */
  function CalcBounds(r: Rectangle, scale: real, c: real, s: real): (b: Rectangle)
    ensures b.min == Point(0, 0) && b.WellFormed()
  {
    var dX := r.Dx() as real;
    var dY := r.Dy() as real;
    Rectangle(Point(0, 0), Point(Round(CanvasExtent(dX, dY, scale, c, s)), Round(CanvasExtent(dY, dX, scale, c, s))))
  }

  /** The extent CalcBounds gives one axis: side a projected by p plus side b
      projected by q, scaled by k, made non-negative: |(a p + b q) k|. */
  function CanvasExtent(a: real, b: real, k: real, p: real, q: real): (e: real)
    ensures e >= 0.0
  {
    Abs((a * p + b * q) * k)
  }

  /** A zero scale gives an empty canvas, whatever the angle. */
  lemma CalcBoundsZeroScale(r: Rectangle, c: real, s: real)
    ensures CalcBounds(r, 0.0, c, s).Dx() == 0 && CalcBounds(r, 0.0, c, s).Dy() == 0
  {
  }

  /** Without scaling, a rotation by 0 or 180 degrees (c = 1 or -1, s = 0)
      keeps the width and height of a well-formed source. */
  lemma CalcBoundsHalfTurn(r: Rectangle, c: real)
    requires r.WellFormed()
    requires c == 1.0 || c == -1.0
    ensures CalcBounds(r, 1.0, c, 0.0) == Rectangle(Point(0, 0), Point(r.Dx(), r.Dy()))
  {
    RoundOfInteger(r.Dx());
    RoundOfInteger(r.Dy());
  }

  /** Without scaling, a rotation by 90 or 270 degrees (c = 0, s = 1 or -1)
      swaps the width and height of a well-formed source. */
  lemma CalcBoundsQuarterTurn(r: Rectangle, s: real)
    requires r.WellFormed()
    requires s == 1.0 || s == -1.0
    ensures CalcBounds(r, 1.0, 0.0, s) == Rectangle(Point(0, 0), Point(r.Dy(), r.Dx()))
  {
    RoundOfInteger(r.Dx());
    RoundOfInteger(r.Dy());
  }

  /** The canvas table of the unit tests for a 20 x 10 source at 0, 90, 180,
      270 and 360 degrees (0 and 360 degrees share the pair c = 1, s = 0). */
  lemma CalcBoundsTable()
    ensures var rect := Rectangle(Point(0, 0), Point(20, 10));
            && CalcBounds(rect, 1.0, 1.0, 0.0) == rect
            && CalcBounds(rect, 1.0, 0.0, 1.0) == Rectangle(Point(0, 0), Point(10, 20))
            && CalcBounds(rect, 1.0, -1.0, 0.0) == rect
            && CalcBounds(rect, 1.0, 0.0, -1.0) == Rectangle(Point(0, 0), Point(10, 20))
  {
    var rect := Rectangle(Point(0, 0), Point(20, 10));
    CalcBoundsHalfTurn(rect, 1.0);
    CalcBoundsHalfTurn(rect, -1.0);
    CalcBoundsQuarterTurn(rect, 1.0);
    CalcBoundsQuarterTurn(rect, -1.0);
  }

  // ---------------------------------------------------------------------
  // The rotated rectangle and its bounding box
  // ---------------------------------------------------------------------

  /** The forward transform the engine inverts: rotate the source offset p by
      the angle (c, s), then scale it. */
  function Forward(p: (real, real), scale: real, c: real, s: real): (real, real) {
    (scale * (p.0 * c - p.1 * s), scale * (p.0 * s + p.1 * c))
  }

  /** Multiplying a value in [-bound, bound] by k >= 0. */
  lemma SpanBound(a: real, bound: real, k: real)
    requires -bound <= a <= bound && k >= 0.0
    ensures -(bound * k) <= a * k <= bound * k
  {
    assert bound * k - a * k == (bound - a) * k;
    assert a * k + bound * k == (a + bound) * k;
  }

  /** With |u| <= w/2, |v| <= h/2 and p, q >= 0, twice u p -+ v q lies within
      w p + h q of zero. */
  lemma HalfSpan(u: real, v: real, p: real, q: real, w: real, h: real)
    requires -w <= 2.0 * u <= w && -h <= 2.0 * v <= h
    requires p >= 0.0 && q >= 0.0
    ensures -(w * p + h * q) <= 2.0 * (u * p - v * q) <= w * p + h * q
    ensures -(w * p + h * q) <= 2.0 * (u * p + v * q) <= w * p + h * q
  {
    SpanBound(2.0 * u, w, p);
    SpanBound(2.0 * v, h, q);
    assert 2.0 * (u * p - v * q) == (2.0 * u) * p - (2.0 * v) * q;
    assert 2.0 * (u * p + v * q) == (2.0 * u) * p + (2.0 * v) * q;
  }

  /** One coordinate k (u p -+ v q) of the forward transform, scaled by k >= 0. */
  lemma ScaledSpan(k: real, x: real, bound: real)
    requires -bound <= 2.0 * x <= bound && k >= 0.0
    ensures -(bound * k) <= 2.0 * (k * x) <= bound * k
  {
    SpanBound(2.0 * x, bound, k);
    assert 2.0 * (k * x) == (2.0 * x) * k;
  }

  /** For an angle with c, s >= 0 (0 to 90 degrees) and a non-negative scale,
      the forward image of every point (u, v) of a w x h source centred on the
      origin lies within half the extent (w c + h s) scale of the centre
      horizontally ... */
  lemma {:induction false} ForwardWithinWidth(w: real, h: real, scale: real, c: real, s: real, u: real, v: real)
    requires c >= 0.0 && s >= 0.0 && scale >= 0.0
    requires -w <= 2.0 * u <= w && -h <= 2.0 * v <= h
    ensures -((w * c + h * s) * scale) <= 2.0 * Forward((u, v), scale, c, s).0 <= (w * c + h * s) * scale
  {
    HalfSpan(u, v, c, s, w, h);
    ScaledSpan(scale, u * c - v * s, w * c + h * s);
  }

  /** ... and within half the extent (w s + h c) scale vertically. */
  lemma {:induction false} ForwardWithinHeight(w: real, h: real, scale: real, c: real, s: real, u: real, v: real)
    requires c >= 0.0 && s >= 0.0 && scale >= 0.0
    requires -w <= 2.0 * u <= w && -h <= 2.0 * v <= h
    ensures -((w * s + h * c) * scale) <= 2.0 * Forward((u, v), scale, c, s).1 <= (w * s + h * c) * scale
  {
    HalfSpan(u, v, s, c, w, h);
    ScaledSpan(scale, u * s + v * c, w * s + h * c);
  }

  /** Those extents are reached: the corners (w/2, -h/2) and (w/2, h/2) land
      exactly on the edges of that box, whatever the angle. */
  lemma {:induction false} CornersReachExtents(w: real, h: real, scale: real, c: real, s: real)
    ensures 2.0 * Forward((w / 2.0, -h / 2.0), scale, c, s).0 == (w * c + h * s) * scale
    ensures 2.0 * Forward((w / 2.0, h / 2.0), scale, c, s).1 == (w * s + h * c) * scale
  {
    assert 2.0 * (scale * (w / 2.0 * c - (-h / 2.0) * s)) == (w * c + h * s) * scale;
    assert 2.0 * (scale * (w / 2.0 * s + h / 2.0 * c)) == (w * s + h * c) * scale;
  }

  lemma MulNonNegative(a: real, b: real)
    requires a >= 0.0 && b >= 0.0
    ensures a * b >= 0.0
  {
  }

  /** For c, s >= 0 and a non-negative scale the absolute value in CalcBounds
      changes nothing: the canvas is the rounded extent, which by
      ForwardWithinWidth, ForwardWithinHeight and CornersReachExtents is the bounding box of the
      rotated, scaled source. */
  lemma {:induction false} CalcBoundsFirstQuadrant(r: Rectangle, scale: real, c: real, s: real)
    requires r.WellFormed()
    requires c >= 0.0 && s >= 0.0 && scale >= 0.0
    ensures CalcBounds(r, scale, c, s).Dx() == Round((r.Dx() as real * c + r.Dy() as real * s) * scale)
    ensures CalcBounds(r, scale, c, s).Dy() == Round((r.Dy() as real * c + r.Dx() as real * s) * scale)
  {
    var dX, dY := r.Dx() as real, r.Dy() as real;
    MulNonNegative(dX, c); MulNonNegative(dY, s);
    MulNonNegative(dY, c); MulNonNegative(dX, s);
    var pw, ph := dX * c + dY * s, dY * c + dX * s;
    MulNonNegative(pw, scale);
    MulNonNegative(ph, scale);
  }

  /** For an angle with a negative cosine and a positive sine (here about
      126.87 degrees: c = -3/5, s = 4/5) the canvas is smaller than the
      rotated source: a 20 x 10 source gets a 4 x 10 canvas, while its corner
      (10, 5) lands at (-10, 5), five times the half-width away from the
      centre. */
  lemma CalcBoundsClipsObtuseRotation()
    ensures CalcBounds(Rectangle(Point(0, 0), Point(20, 10)), 1.0, -0.6, 0.8) == Rectangle(Point(0, 0), Point(4, 10))
    ensures Forward((10.0, 5.0), 1.0, -0.6, 0.8) == (-10.0, 5.0)
  {
    assert Round(4.0) == 4 by { RoundOfInteger(4); }
    assert Round(10.0) == 10 by { RoundOfInteger(10); }
  }

  /** The fourth quadrant has the same defect: at c = 3/5, s = -4/5 the
      20 x 10 source again gets a 4 x 10 canvas, while its corner (10, -5)
      lands at (2, -11), more than twice the half-height from the centre. */
  lemma CalcBoundsClipsFourthQuadrant()
    ensures CalcBounds(Rectangle(Point(0, 0), Point(20, 10)), 1.0, 0.6, -0.8) == Rectangle(Point(0, 0), Point(4, 10))
    ensures Forward((10.0, -5.0), 1.0, 0.6, -0.8) == (2.0, -11.0)
  {
    assert Round(4.0) == 4 by { RoundOfInteger(4); }
    assert Round(10.0) == 10 by { RoundOfInteger(10); }
  }

  // ---------------------------------------------------------------------
  // The bounding box the canvas is meant to be
  // ---------------------------------------------------------------------

  /** The canvas sized by the projections of width and height onto each axis
      for every angle: (|dX| |c| + |dY| |s|) |scale| by
      (|dY| |c| + |dX| |s|) |scale|, rounded. For a well-formed source it
      differs from CalcBounds only in taking the absolute values of the
      cosine and sine before adding the projections. */
  function BoundingBox(r: Rectangle, scale: real, c: real, s: real): (b: Rectangle)
    ensures b.min == Point(0, 0) && b.WellFormed()
  {
    var dX := r.Dx() as real;
    var dY := r.Dy() as real;
    Rectangle(Point(0, 0), Point(Round(BoxExtent(dX, dY, scale, c, s)), Round(BoxExtent(dY, dX, scale, c, s))))
  }

  /** The extent along one axis of a rotated, scaled a x b box whose side a
      projects by p and side b by q: (|a| |p| + |b| |q|) |k|. */
  function BoxExtent(a: real, b: real, k: real, p: real, q: real): (e: real)
    ensures e >= 0.0
  {
    MulNonNegative(Abs(a), Abs(p));
    MulNonNegative(Abs(b), Abs(q));
    MulNonNegative(Abs(a) * Abs(p) + Abs(b) * Abs(q), Abs(k));
    (Abs(a) * Abs(p) + Abs(b) * Abs(q)) * Abs(k)
  }

  /** For sides of non-negative length the absolute values on them drop out:
      BoxExtent is (a |p| + b |q|) |k|, the bound BoxContainsWidth and
      BoxContainsHeight state. */
  lemma BoxExtentOfSides(a: real, b: real, k: real, p: real, q: real)
    requires a >= 0.0 && b >= 0.0
    ensures BoxExtent(a, b, k, p, q) == (a * Abs(p) + b * Abs(q)) * Abs(k)
  {
  }

  /** Multiplying a value in [-bound, bound] (doubled) by k of either sign. */
  lemma SignedSpan(a: real, bound: real, k: real)
    requires -bound <= 2.0 * a <= bound
    ensures -(bound * Abs(k)) <= 2.0 * (a * k) <= bound * Abs(k)
  {
    if k >= 0.0 {
      SpanBound(2.0 * a, bound, k);
    } else {
      SpanBound(2.0 * a, bound, -k);
    }
    assert 2.0 * (a * k) == (2.0 * a) * k;
  }

  /** With |u| <= w/2 and |v| <= h/2, twice u p -+ v q lies within
      w |p| + h |q| of zero, whatever the signs of p and q. */
  lemma RotatedSpan(u: real, v: real, p: real, q: real, w: real, h: real)
    requires -w <= 2.0 * u <= w && -h <= 2.0 * v <= h
    ensures -(w * Abs(p) + h * Abs(q)) <= 2.0 * (u * p - v * q) <= w * Abs(p) + h * Abs(q)
    ensures -(w * Abs(p) + h * Abs(q)) <= 2.0 * (u * p + v * q) <= w * Abs(p) + h * Abs(q)
  {
    SignedSpan(u, w, p);
    SignedSpan(v, h, q);
  }

  /** For every angle and scale, every point (u, v) of a w x h source centred
      on the origin is rotated and scaled to within half BoundingBox's width
      of the centre horizontally ... */
  lemma {:induction false} BoxContainsWidth(w: real, h: real, scale: real, c: real, s: real, u: real, v: real)
    requires -w <= 2.0 * u <= w && -h <= 2.0 * v <= h
    ensures -((w * Abs(c) + h * Abs(s)) * Abs(scale)) <= 2.0 * Forward((u, v), scale, c, s).0
            <= (w * Abs(c) + h * Abs(s)) * Abs(scale)
  {
    RotatedSpan(u, v, c, s, w, h);
    SignedSpan(u * c - v * s, w * Abs(c) + h * Abs(s), scale);
    assert Forward((u, v), scale, c, s).0 == (u * c - v * s) * scale;
  }

  /** ... and within half its height vertically. */
  lemma {:induction false} BoxContainsHeight(w: real, h: real, scale: real, c: real, s: real, u: real, v: real)
    requires -w <= 2.0 * u <= w && -h <= 2.0 * v <= h
    ensures -((h * Abs(c) + w * Abs(s)) * Abs(scale)) <= 2.0 * Forward((u, v), scale, c, s).1
            <= (h * Abs(c) + w * Abs(s)) * Abs(scale)
  {
    RotatedSpan(u, v, s, c, w, h);
    SignedSpan(u * s + v * c, w * Abs(s) + h * Abs(c), scale);
    assert w * Abs(s) + h * Abs(c) == h * Abs(c) + w * Abs(s);
    assert Forward((u, v), scale, c, s).1 == (u * s + v * c) * scale;
  }

  /** The absolute value of a product is the product of absolute values. */
  lemma AbsOfProduct(a: real, k: real)
    ensures Abs(a * k) == Abs(a) * Abs(k)
  {
    if a < 0.0 {
      assert a * k == -((-a) * k);
    }
    if k < 0.0 {
      assert a * k == -(a * (-k));
    }
  }

  /** When p and q have the same sign, the projection a p + b q of
      non-negative a and b has absolute value a |p| + b |q|. */
  lemma AbsOfAgreeingProjection(a: real, b: real, p: real, q: real)
    requires a >= 0.0 && b >= 0.0
    requires (p >= 0.0 && q >= 0.0) || (p <= 0.0 && q <= 0.0)
    ensures Abs(a * p + b * q) == a * Abs(p) + b * Abs(q)
  {
    if p >= 0.0 && q >= 0.0 {
      MulNonNegative(a, p);
      MulNonNegative(b, q);
    } else {
      MulNonNegative(a, -p);
      MulNonNegative(b, -q);
      assert a * p + b * q == -(a * (-p) + b * (-q));
    }
  }

  /** For non-negative a and b and agreeing signs of p and q, the extent
      CalcBounds computes equals the one BoundingBox computes. */
  lemma {:induction false} AgreeingExtent(a: real, b: real, k: real, p: real, q: real)
    requires a >= 0.0 && b >= 0.0
    requires (p >= 0.0 && q >= 0.0) || (p <= 0.0 && q <= 0.0)
    ensures CanvasExtent(a, b, k, p, q) == BoxExtent(a, b, k, p, q)
  {
    AbsOfAgreeingProjection(a, b, p, q);
    AbsOfProduct(a * p + b * q, k);
    assert Abs(a) == a && Abs(b) == b;
  }

  /** Where the cosine and sine have the same sign (0 to 90 and 180 to 270
      degrees) the canvas of a well-formed source is that bounding box. */
  lemma {:induction false} CalcBoundsIsBoundingBoxWhenSignsAgree(r: Rectangle, scale: real, c: real, s: real)
    requires r.WellFormed()
    requires (c >= 0.0 && s >= 0.0) || (c <= 0.0 && s <= 0.0)
    ensures CalcBounds(r, scale, c, s) == BoundingBox(r, scale, c, s)
  {
    var dX, dY := r.Dx() as real, r.Dy() as real;
    assert dX >= 0.0 && dY >= 0.0;
    AgreeingExtent(dX, dY, scale, c, s);
    AgreeingExtent(dY, dX, scale, c, s);
  }

  /** On the two clipping examples the bounding box holds the whole rotated
      20 x 10 source: 20 x 22 (the corner (10, 5) lands at (-10, 5), and the
      corner (10, -5) at (2, -11)). */
  lemma BoundingBoxOnClippedExamples()
    ensures BoundingBox(Rectangle(Point(0, 0), Point(20, 10)), 1.0, -0.6, 0.8) == Rectangle(Point(0, 0), Point(20, 22))
    ensures BoundingBox(Rectangle(Point(0, 0), Point(20, 10)), 1.0, 0.6, -0.8) == Rectangle(Point(0, 0), Point(20, 22))
  {
    assert Round(20.0) == 20 by { RoundOfInteger(20); }
    assert Round(22.0) == 22 by { RoundOfInteger(22); }
  }

  // ---------------------------------------------------------------------
  // Inverse mapping of a destination offset to a source offset
  // ---------------------------------------------------------------------

  /** Turning (X, Y) back by a unit angle (c, s) and dividing by a non-zero
      scale gives a point that the forward transform maps back to (X, Y). */
  lemma {:induction false} TurnBackInverts(X: real, Y: real, scale: real, c: real, s: real)
    requires scale != 0.0
    requires c * c + s * s == 1.0
    ensures Forward(((X * c + Y * s) / scale, (Y * c - X * s) / scale), scale, c, s) == (X, Y)
  {
    var p := ((X * c + Y * s) / scale, (Y * c - X * s) / scale);
    assert scale * p.0 == X * c + Y * s && scale * p.1 == Y * c - X * s;
    assert (X * c + Y * s) * c - (Y * c - X * s) * s == X * (c * c + s * s) == X;
    assert (X * c + Y * s) * s + (Y * c - X * s) * c == Y * (c * c + s * s) == Y;
    assert Forward(p, scale, c, s).0 == (scale * p.0) * c - (scale * p.1) * s == X;
    assert Forward(p, scale, c, s).1 == (scale * p.0) * s + (scale * p.1) * c == Y;
  }

  /** The source offset for destination offset (x, y): the offset turned back
      by the angle (c, s) and divided by the scale. The source reaches the
      same point through polar coordinates (radius / scale, angle - rotation);
      with c and s the cosine and sine of the rotation the two agree. For
      such an angle the result is the preimage of (x, y) under the forward
      transform: rotating and scaling it gives back (x, y). */
  function CalcSrc(x: int, y: int, scale: real, c: real, s: real): (p: (real, real))
    requires scale != 0.0
    ensures c * c + s * s == 1.0 ==> Forward(p, scale, c, s) == (x as real, y as real)
  {
    var X, Y := x as real, y as real;
    if c * c + s * s == 1.0 then
      TurnBackInverts(X, Y, scale, c, s);
      ((X * c + Y * s) / scale, (Y * c - X * s) / scale)
    else
      ((X * c + Y * s) / scale, (Y * c - X * s) / scale)
  }

  /** The source offset is the destination offset's distance from the centre
      divided by the scale: squared, x1^2 + y1^2 == (x^2 + y^2) / scale^2. */
  lemma {:induction false} CalcSrcRadius(x: int, y: int, scale: real, c: real, s: real)
    requires scale != 0.0
    requires c * c + s * s == 1.0
    ensures var p := CalcSrc(x, y, scale, c, s);
            (scale * scale) * (p.0 * p.0 + p.1 * p.1) == x as real * x as real + y as real * y as real
  {
    var p := CalcSrc(x, y, scale, c, s);
    var X, Y := x as real, y as real;
    assert scale * p.0 == X * c + Y * s && scale * p.1 == Y * c - X * s;
    calc {
      (scale * scale) * (p.0 * p.0 + p.1 * p.1);
      (scale * p.0) * (scale * p.0) + (scale * p.1) * (scale * p.1);
      (X * c + Y * s) * (X * c + Y * s) + (Y * c - X * s) * (Y * c - X * s);
      (X * X + Y * Y) * (c * c + s * s);
    }
  }

  /** Without rotation the source offset is the destination offset divided
      by the scale. */
  lemma CalcSrcWithoutRotation(x: int, y: int, scale: real)
    requires scale != 0.0
    ensures CalcSrc(x, y, scale, 1.0, 0.0) == (x as real / scale, y as real / scale)
  {
  }

  /** The "no-op" rows of the inverse-mapping unit tests. */
  lemma CalcSrcNoOpRows()
    ensures CalcSrc(10, 0, 1.0, 1.0, 0.0) == (10.0, 0.0)
    ensures CalcSrc(-10, 0, 1.0, 1.0, 0.0) == (-10.0, 0.0)
  {
  }

  /** The "scale-" rows of the inverse-mapping unit tests: halving the image
      doubles the source offset. */
  lemma CalcSrcShrinkRows()
    ensures CalcSrc(10, 0, 0.5, 1.0, 0.0) == (20.0, 0.0)
    ensures CalcSrc(10, 10, 0.5, 1.0, 0.0) == (20.0, 20.0)
  {
  }

  /** The "scale+" rows of the inverse-mapping unit tests: doubling the image
      halves the source offset. */
  lemma CalcSrcEnlargeRows()
    ensures CalcSrc(10, 0, 2.0, 1.0, 0.0) == (5.0, 0.0)
    ensures CalcSrc(10, 10, 2.0, 1.0, 0.0) == (5.0, 5.0)
  {
  }

  /** The "-90" and "+90" rows of the inverse-mapping unit tests (the 45
      degree rows need an irrational cosine). */
  lemma CalcSrcQuarterTurnRows()
    ensures CalcSrc(10, 0, 1.0, 0.0, -1.0) == (0.0, 10.0)
    ensures CalcSrc(10, 0, 1.0, 0.0, 1.0) == (0.0, -10.0)
  {
  }

  // ---------------------------------------------------------------------
  // What each destination pixel receives
  // ---------------------------------------------------------------------

  /** The colour sampled for destination pixel (i, j) of a w2 x h2 canvas:
      the pixel's offset from the canvas centre is mapped back by CalcSrc,
      rounded, and added to the source centre; no clamping. */
  function Sample(img: Image, scale: real, c: real, s: real, w2: nat, h2: nat, i: int, j: int): Color
    requires scale != 0.0
  {
    var p := CalcSrc(i - w2 / 2, j - h2 / 2, scale, c, s);
    img.At(Half(img.bounds.Dx()) + Round(p.0), Half(img.bounds.Dy()) + Round(p.1))
  }

  /** The final colour of destination pixel (i, j): sampled inside the
      even-sized block the loop covers, the zero colour elsewhere. */
  function Expected(img: Image, scale: real, c: real, s: real, w2: nat, h2: nat, i: int, j: int): Color
    requires scale != 0.0
  {
    if 0 <= i < 2 * (w2 / 2) && 0 <= j < 2 * (h2 / 2) then Sample(img, scale, c, s, w2, h2, i, j)
    else Transparent
  }

  /** With scale 1 and no rotation the output is the source read at the same
      coordinates (absolute ones: a source whose bounds do not start at the
      origin is read off-centre), except that the last column and row of an
      odd-sized source stay transparent. */
  lemma IdentityCopies(img: Image, i: int, j: int)
    requires img.bounds.WellFormed()
    requires 0 <= i < img.bounds.Dx() && 0 <= j < img.bounds.Dy()
    ensures CalcBounds(img.bounds, 1.0, 1.0, 0.0).Dx() == img.bounds.Dx()
    ensures CalcBounds(img.bounds, 1.0, 1.0, 0.0).Dy() == img.bounds.Dy()
    ensures Expected(img, 1.0, 1.0, 0.0, img.bounds.Dx(), img.bounds.Dy(), i, j)
         == if i < 2 * (img.bounds.Dx() / 2) && j < 2 * (img.bounds.Dy() / 2) then img.At(i, j) else Transparent
  {
    CalcBoundsHalfTurn(img.bounds, 1.0);
    RoundOfInteger(i - img.bounds.Dx() / 2);
    RoundOfInteger(j - img.bounds.Dy() / 2);
  }

  /** At 180 degrees without scaling, pixel (i, j) is read from the source
      point mirrored through the integer centre, (2 (W/2) - i, 2 (H/2) - j):
      for an even width, column 0 reads column W, which lies outside. */
  lemma HalfTurnMirrors(img: Image, i: int, j: int)
    requires img.bounds.WellFormed()
    ensures Sample(img, 1.0, -1.0, 0.0, img.bounds.Dx(), img.bounds.Dy(), i, j)
         == img.At(2 * (img.bounds.Dx() / 2) - i, 2 * (img.bounds.Dy() / 2) - j)
  {
    RoundOfInteger(img.bounds.Dx() / 2 - i);
    RoundOfInteger(img.bounds.Dy() / 2 - j);
  }

  /** At 90 degrees without scaling the canvas is H x W and pixel (i, j) is
      read from the source point (j, 2 (H/2) - i). */
  lemma QuarterTurnReads(img: Image, i: int, j: int)
    requires img.bounds.WellFormed()
    ensures Sample(img, 1.0, 0.0, 1.0, img.bounds.Dy(), img.bounds.Dx(), i, j)
         == img.At(j, 2 * (img.bounds.Dy() / 2) - i)
  {
    RoundOfInteger(j - img.bounds.Dx() / 2);
    RoundOfInteger(img.bounds.Dy() / 2 - i);
  }

  // ---------------------------------------------------------------------
  // The order in which the loop writes
  // ---------------------------------------------------------------------

  /** Column i, rows 0 to n - 1, top to bottom. */
  ghost function Column(i: int, n: nat): seq<Point> {
    seq(n, j => Point(i, j))
  }

  /** The cells of the first cols columns of a grid with rows rows, column by
      column: the order of the nested loop (x outer, y inner). */
  ghost function Visited(cols: nat, rows: nat): seq<Point>
    decreases cols
  {
    if cols == 0 then [] else Visited(cols - 1, rows) + Column(cols - 1, rows)
  }

  ghost predicate Distinct(ps: seq<Point>) {
    forall k, l :: 0 <= k < l < |ps| ==> ps[k] != ps[l]
  }

  /** The loop's visiting order touches each cell of the cols x rows block
      exactly once and nothing else. */
  lemma {:induction false} VisitedExactlyOnce(cols: nat, rows: nat)
    ensures forall p :: p in Visited(cols, rows) <==> 0 <= p.x < cols && 0 <= p.y < rows
    ensures Distinct(Visited(cols, rows))
  {
    if cols > 0 {
      VisitedExactlyOnce(cols - 1, rows);
      var prev, col := Visited(cols - 1, rows), Column(cols - 1, rows);
      assert Visited(cols, rows) == prev + col;
      forall p: Point
        ensures p in prev + col <==> 0 <= p.x < cols && 0 <= p.y < rows
      {
        if 0 <= p.x < cols && 0 <= p.y < rows && p.x == cols - 1 {
          assert col[p.y] == p;
        }
      }
      forall k, l | 0 <= k < l < |prev + col|
        ensures (prev + col)[k] != (prev + col)[l]
      {
        if l >= |prev| && k < |prev| {
          assert (prev + col)[k] in prev;
        }
      }
    }
  }

  // ---------------------------------------------------------------------
  // The transform
  // ---------------------------------------------------------------------

  /** One pass of the inner loop: for the column at destination offset x2,
      walks y2 in [-H2/2, H2/2) and writes the sampled colour to
      (W2/2 + x2, H2/2 + y2); no other cell changes. The ghost result `col`
      lists the cells written, in order. */
  method FillColumn(img: Image, scale: real, c: real, s: real, dst: array2<Color>, x2: int) returns (ghost col: seq<Point>)
    requires scale != 0.0
    requires -(dst.Length0 / 2) <= x2 < dst.Length0 / 2
    modifies dst
    ensures col == Column(dst.Length0 / 2 + x2, 2 * (dst.Length1 / 2))
    ensures forall i, j :: 0 <= i < dst.Length0 && 0 <= j < dst.Length1 ==>
              dst[i, j] == if i == dst.Length0 / 2 + x2 && j < 2 * (dst.Length1 / 2)
                           then Sample(img, scale, c, s, dst.Length0, dst.Length1, i, j)
                           else old(dst[i, j])
  {
    var ox := Half(img.bounds.Dx());
    var oy := Half(img.bounds.Dy());
    var ox2 := dst.Length0 / 2;
    var oy2 := dst.Length1 / 2;
    col := [];
    var y2 := -oy2;
    while y2 < oy2
      invariant -oy2 <= y2 <= oy2
      invariant col == Column(ox2 + x2, oy2 + y2)
      invariant forall i, j :: 0 <= i < dst.Length0 && 0 <= j < dst.Length1 ==>
                  dst[i, j] == if i == ox2 + x2 && j < oy2 + y2
                               then Sample(img, scale, c, s, dst.Length0, dst.Length1, i, j)
                               else old(dst[i, j])
    {
      var p := CalcSrc(x2, y2, scale, c, s);
      dst[ox2 + x2, oy2 + y2] := img.At(ox + Round(p.0), oy + Round(p.1));
      col := col + [Point(ox2 + x2, oy2 + y2)];
      y2 := y2 + 1;
    }
  }

  /** Allocates the canvas of CalcBounds, zero-filled, and walks destination
      offsets x2 in [-W2/2, W2/2) (outer loop; the inner loop is FillColumn),
      so that cell (W2/2 + x2, H2/2 + y2) receives the source colour at
      (W/2 + Round(x1), H/2 + Round(y1)) with (x1, y1) = CalcSrc(x2, y2).
      The ghost result `writes` lists every cell written, in order. */
  method Transform(img: Image, scale: real, c: real, s: real) returns (dst: array2<Color>, ghost writes: seq<Point>)
    ensures fresh(dst)
    ensures dst.Length0 == CalcBounds(img.bounds, scale, c, s).Dx()
    ensures dst.Length1 == CalcBounds(img.bounds, scale, c, s).Dy()
    ensures scale == 0.0 ==> dst.Length0 == 0 && dst.Length1 == 0
    ensures writes == Visited(2 * (dst.Length0 / 2), 2 * (dst.Length1 / 2))
    ensures forall p :: p in writes <==> 0 <= p.x < 2 * (dst.Length0 / 2) && 0 <= p.y < 2 * (dst.Length1 / 2)
    ensures Distinct(writes)
    ensures scale != 0.0 ==>
              forall i, j :: 0 <= i < dst.Length0 && 0 <= j < dst.Length1 ==>
                dst[i, j] == Expected(img, scale, c, s, dst.Length0, dst.Length1, i, j)
  {
    var bounds := CalcBounds(img.bounds, scale, c, s);
    dst := new Color[bounds.Dx(), bounds.Dy()]((i, j) => Transparent);
    var ox2 := dst.Length0 / 2;
    var oy2 := dst.Length1 / 2;
    if scale == 0.0 {
      CalcBoundsZeroScale(img.bounds, c, s);
    }
    writes := [];
    var x2 := -ox2;
    while x2 < ox2
      invariant -ox2 <= x2 <= ox2
      invariant writes == Visited(ox2 + x2, 2 * oy2)
      invariant forall i, j :: 0 <= i < dst.Length0 && 0 <= j < dst.Length1 ==>
                  dst[i, j] == if i < ox2 + x2 && j < 2 * oy2 then Sample(img, scale, c, s, dst.Length0, dst.Length1, i, j)
                               else Transparent
    {
      ghost var col := FillColumn(img, scale, c, s, dst, x2);
      writes := writes + col;
      x2 := x2 + 1;
    }
    VisitedExactlyOnce(2 * ox2, 2 * oy2);
  }
}
