# naive-image-transforms in Dafny

A model of the core of `naive-image-transforms`, a small Go tool that scales
and rotates a raster image. It reads the source from a local file or a Google
Cloud Storage object and writes the result to one of those.

The transform engine (`naive.go`) has three parts:

- **Canvas.** `calcBounds` sizes the destination canvas. The model is
  `Naive.CalcBounds`.
- **Inverse map.** `calcSrc` maps a destination offset from the canvas centre
  back to a source offset. The model is `Naive.CalcSrc`.
- **Pixel loop.** `Transform` allocates a zero-filled canvas. It walks the
  destination offsets column by column and writes each cell the source colour
  at the rounded source offset. The model is the method `Naive.Transform`,
  which runs over an `array2<Color>`. Its inner loop is the method
  `Naive.FillColumn`.
- **Rounding.** The helper `mathext.Round` is `Geometry.Round`: the nearest
  integer, with ties going away from zero.

The command-line tool (`main/main.go`) has two parts here:

- **Splitting.** `splitGsUrl` splits a `gs://bucket/object` url. The model is
  `Locations.SplitGsUrl`.
- **Dispatch.** `getReader` and `getWriter` each choose between a storage
  object and a local file on the `"gs://"` prefix. The two choices are
  identical, so one pure function models both: `Locations.Locate`.

Angles enter the model only through their cosine `c` and sine `s`, given as
exact reals. A statement about a particular angle is made for that angle's
exact `(c, s)` pair.

Source images are values (`Naive.Image`). A source therefore cannot be changed
by the transform: the method has no way to reach it.

Reading outside the source yields the image's `outside` colour. The loop
itself never clamps a source coordinate.

Behaviour the model makes explicit:

- **Canvas too small at some angles.** The canvas is
  `(|dX c + dY s| scale, |dY c + dX s| scale)`, rounded. For `c, s >= 0`
  (0 to 90 degrees) this is the bounding box of the rotated, scaled source:
  - `Naive.ForwardWithinWidth` and `Naive.ForwardWithinHeight` show that every
    rotated point fits in it.
  - `Naive.CornersReachExtents` shows that corners touch its edges.
  - `Naive.CalcBoundsFirstQuadrant` shows that the absolute value changes
    nothing there.

  When the cosine and sine have opposite signs, the formula subtracts the two
  projections instead of adding them. The canvas is then smaller than the
  rotated image. `Naive.CalcBoundsClipsObtuseRotation` and
  `Naive.CalcBoundsClipsFourthQuadrant` give two instances: at c = -3/5,
  s = 4/5 and at c = 3/5, s = -4/5 a 20 x 10 source gets a 4 x 10 canvas,
  while one of its corners lands well outside it. The code itself points to
  the bounding box as the intent. The 45-degree rows of the canvas test
  (naive_test.go:64-71) expect the size to be a sum of the two projections,
  `20 sin + 10 cos` and the diagonal of a square. The `math.Abs` in
  naive.go:54 only makes sense if negative projections were expected, and it
  repairs them only when both terms have the same sign. `Naive.BoundingBox`
  is the corrected canvas, `(|dX| |c| + |dY| |s|) |scale|` by
  `(|dY| |c| + |dX| |s|) |scale|`:
  - `Naive.BoxContainsWidth` and `Naive.BoxContainsHeight` show that it holds
    every rotated point at every angle.
  - `Naive.CalcBoundsIsBoundingBoxWhenSignsAgree` shows that it equals
    `CalcBounds` wherever the signs agree.

  `Naive.Transform` still sizes its canvas with `CalcBounds`, as the code
  does.
- **Trailing slash accepted.** `splitGsUrl` has a second guard,
  `len(rem) == b` (main/main.go:80-81). It stands after the test for a
  missing bucket, so it can only be meant to reject an empty object. It never
  fires, because the index of the first `/` is always below the length. So
  `gs://bucket/` is accepted, with object name `/`. `Locations.SplitGsUrlStrict`
  is the split with the guard the code evidently intends: it compares the
  length with the index just past the slash. `Locations.Locate` follows the
  code and uses `SplitGsUrl`.
- **Integer centres.** Centres are computed by integer division. When the
  canvas width or height is odd, its last column or row is never visited and
  stays zero. At 180 degrees with an even width, destination column 0 reads
  source column `W`, one past the last one.

## Model

| member | source | states |
|---|---|---|
| Geometry.Round | naive_test.go:26-51 | the result is the integer nearest to x, with ties going away from zero: `r - 1/2 <= x < r + 1/2` for x >= 0 and `r - 1/2 < x <= r + 1/2` for x < 0; the sign of the result follows x |
| Geometry.RoundIsNearest | naive_test.go:32-44 | Round(x) is never more than 1/2 away from x |
| Geometry.RoundIsOdd | naive_test.go:39-44 | Round(-x) == -Round(x): negative inputs mirror positive ones |
| Geometry.RoundTiesAwayFromZero | naive_test.go:35-41 | k + 1/2 rounds to k + 1 and -(k + 1/2) to -(k + 1), for every natural k |
| Geometry.RoundOfInteger | naive_test.go:32 | an integer-valued real rounds to itself |
| Geometry.RoundUnique | naive_test.go:26-51 | any integer inside x's rounding interval equals Round(x), so the contract determines Round |
| Geometry.RoundTable | naive_test.go:32-44 | the thirteen rows of the rounding test table |
| Naive.Half | naive.go:33-36 | Go's truncating `n / 2`: remainder in [-1, 1] with the sign of n, and a quotient with the sign of n |
| Naive.CalcBounds | naive.go:49-55 | the canvas always has origin (0, 0) and a non-negative width and height |
| Naive.CalcBoundsZeroScale | naive.go:52-54 | scale 0 gives a 0 x 0 canvas, whatever the angle |
| Naive.CalcBoundsHalfTurn | naive_test.go:63-75 | at scale 1 and 0 or 180 degrees the canvas has the source's width and height |
| Naive.CalcBoundsQuarterTurn | naive_test.go:72-74 | at scale 1 and 90 or 270 degrees the canvas swaps the source's width and height |
| Naive.CalcBoundsTable | naive_test.go:63-75 | the exact rows of the canvas test table for a 20 x 10 source: 20 x 10 at 0, 180 and 360 degrees, and 10 x 20 at 90 and 270 degrees |
| Naive.ForwardWithinWidth | naive.go:52 | for c, s >= 0 and scale >= 0, every point of a w x h source centred on the origin is rotated and scaled to within (w c + h s) scale / 2 of the centre horizontally |
| Naive.ForwardWithinHeight | naive.go:53 | the same vertically, within (w s + h c) scale / 2 |
| Naive.CornersReachExtents | naive.go:52-53 | two corners of the source land exactly on the edges of that box, so it is the smallest one |
| Naive.CalcBoundsFirstQuadrant | naive.go:49-55 | for c, s >= 0 and scale >= 0 the width and height are the rounded extents (dX c + dY s) scale and (dY c + dX s) scale themselves; the absolute value does nothing |
| Naive.CalcBoundsClipsObtuseRotation | naive.go:52-54 | for c = -3/5, s = 4/5 a 20 x 10 source gets a 4 x 10 canvas, while its corner (10, 5) is rotated to (-10, 5), outside that canvas |
| Naive.CalcBoundsClipsFourthQuadrant | naive.go:52-54 | for c = 3/5, s = -4/5 the same source also gets a 4 x 10 canvas, while its corner (10, -5) is rotated to (2, -11), outside that canvas |
| Naive.BoundingBox | naive.go:49-55 | the corrected canvas has origin (0, 0) and a non-negative width and height; for a well-formed source these are the rounded extents that Naive.BoxContainsWidth and Naive.BoxContainsHeight show to hold every rotated point (by Naive.BoxExtentOfSides) |
| Naive.BoxContainsWidth | naive.go:52 | for every angle and scale, every point of a w x h source centred on the origin is rotated and scaled to within (w abs(c) + h abs(s)) abs(scale) / 2 of the centre horizontally, half of BoundingBox's unrounded width |
| Naive.BoxContainsHeight | naive.go:53 | the same vertically, within (h abs(c) + w abs(s)) abs(scale) / 2, half of BoundingBox's unrounded height |
| Naive.CalcBoundsIsBoundingBoxWhenSignsAgree | naive.go:49-55 | for a well-formed source and a cosine and sine of the same sign, CalcBounds is exactly BoundingBox |
| Naive.BoundingBoxOnClippedExamples | naive.go:49-55 | on both clipping examples the corrected canvas is 20 x 22, which holds the corners CalcBounds cuts off |
| Naive.CalcSrc | naive.go:57-61 | the source offset inverts the transform: whenever (c, s) is a unit vector, rotating CalcSrc's result by the angle and scaling it gives back the destination offset (x, y) |
| Naive.CalcSrcRadius | naive.go:58-59 | the source offset's squared length is the destination offset's squared length divided by scale^2: the polar radius divided by the scale |
| Naive.CalcSrcWithoutRotation | naive_test.go:95-100 | at angle 0 the source offset is the destination offset divided by the scale |
| Naive.CalcSrcNoOpRows | naive_test.go:95-96 | the two no-op rows: (10, 0) and (-10, 0) map to themselves |
| Naive.CalcSrcShrinkRows | naive_test.go:97-99 | the two scale-1/2 rows: (10, 0) maps to (20, 0) and (10, 10) to (20, 20) |
| Naive.CalcSrcEnlargeRows | naive_test.go:98-100 | the two scale-2 rows: (10, 0) maps to (5, 0) and (10, 10) to (5, 5) |
| Naive.CalcSrcQuarterTurnRows | naive_test.go:101-102 | the -90 and +90 degree rows: (10, 0) maps to (0, 10) and to (0, -10) |
| Naive.IdentityCopies | naive.go:33-42 | at scale 1 and 0 degrees the canvas has the source's size, and pixel (i, j) is the source's (i, j), except in the unvisited last column or row of an odd size, which is zero |
| Naive.HalfTurnMirrors | naive.go:33-42 | at scale 1 and 180 degrees pixel (i, j) reads the source at (2 (W/2) - i, 2 (H/2) - j) |
| Naive.QuarterTurnReads | naive.go:33-42 | at scale 1 and 90 degrees on an H x W canvas, pixel (i, j) reads the source at (j, 2 (H/2) - i) |
| Naive.VisitedExactlyOnce | naive.go:39-44 | the nested loop's visiting order, column by column, contains every cell of the 2 (W2/2) x 2 (H2/2) block exactly once and no other cell |
| Naive.FillColumn | naive.go:40-43 | the inner loop writes every cell of its column with y below 2 (H2/2), in order, each with the colour sampled at (W/2 + Round(x1), H/2 + Round(y1)); every other cell keeps its colour |
| Naive.Transform | naive.go:27-47 | the canvas has CalcBounds' size and is 0 x 0 at scale 0; the cells written, in order, are exactly the 2 (W2/2) x 2 (H2/2) block, each once; each of those cells holds its sample, with no clamping; every other cell keeps the zero colour |
| Locations.IndexOf | main/main.go:76 | the result is -1 exactly when the separator is absent; otherwise it is the position of its first occurrence |
| Locations.SplitGsUrl | main/main.go:74-84 | on success, bucket ++ object == url[5..], the bucket is non-empty and has no '/', and the object starts with '/'; an error, with the malformed-url message, exactly when url[5..] has no '/' or starts with one |
| Locations.SplitLengthCheckUnreachable | main/main.go:80-82 | the `len(rem) == b` guard can never hold once the first guard has passed |
| Locations.TrailingSlashAccepted | main/main.go:75-83 | "gs://bucket/" splits into ("bucket", "/") |
| Locations.SplitGsUrlStrict | main/main.go:74-84 | the corrected split: on success, bucket ++ object == url[5..], the bucket is non-empty and has no '/', and the object starts with '/' and is longer than that slash; every error carries the malformed-url message |
| Locations.StrictSplitAgrees | main/main.go:80-82 | the corrected split rejects exactly the urls SplitGsUrl splits into an object "/", and agrees with SplitGsUrl on every other url |
| Locations.StrictSplitRejectsTrailingSlash | main/main.go:80-82 | "gs://bucket/" is rejected by the corrected split, with the malformed-url message |
| Locations.StrictSplitJoin | main/main.go:74-84 | the corrected split gives back every non-empty bucket without '/' and every object that starts with '/' and is longer than it |
| Locations.SplitJoin | main/main.go:74-84 | splitting "gs://" + bucket + object gives back (bucket, object), for every non-empty bucket without '/' and every object starting with '/' |
| Locations.JoinSplit | main/main.go:75-83 | a "gs://" url that splits is "gs://" + bucket + object |
| Locations.Locate | main/main.go:86-108 | local exactly when the first five characters are not "gs://", with the name unchanged as path; a storage location is the split of the name; an error, carrying the malformed-url message, exactly when the name has the prefix and the split fails (getWriter at main/main.go:110-129 dispatches identically) |
| Locations.LocateJoin | main/main.go:87-100 | every well-formed bucket and object is reached through its url |

## Findings

| source | as written | input that shows it | evidently intended | confidence | as-written member | corrected member |
|---|---|---|---|---|---|---|
| naive.go:52-54 | the canvas is abs(dX c + dY s) scale by abs(dY c + dX s) scale, which subtracts the projections when c and s have opposite signs | a 20 x 10 source at scale 1 with c = -3/5, s = 4/5 (or c = 3/5, s = -4/5) gets a 4 x 10 canvas; its corner (10, 5) lands at (-10, 5) (or (10, -5) at (2, -11)) | the bounding box (dX abs(c) + dY abs(s)) scale by (dY abs(c) + dX abs(s)) scale, here 20 x 22 | not executed | Naive.CalcBoundsClipsObtuseRotation, Naive.CalcBoundsClipsFourthQuadrant | Naive.BoundingBox, with Naive.BoxContainsWidth, Naive.BoxContainsHeight and Naive.CalcBoundsIsBoundingBoxWhenSignsAgree |
| main/main.go:80-82 | the guard `len(rem) == b` against an empty object never fires, since the first slash's index is below the length | "gs://bucket/" splits into bucket "bucket" and object "/" | reject a url whose object is the bare slash, as `len(rem) == b+1` would | not executed | Locations.TrailingSlashAccepted, Locations.SplitLengthCheckUnreachable | Locations.SplitGsUrlStrict, with Locations.StrictSplitAgrees and Locations.StrictSplitRejectsTrailingSlash |

The transform and the dispatch keep the code's behaviour: `Naive.Transform`
sizes its canvas with `Naive.CalcBounds`, and `Locations.Locate` splits with
`Locations.SplitGsUrl`.

## Left out

- Floating point is left out. Every quantity is an exact real, and `Round` acts on exact reals. IEEE-754 rounding of `math.Cos`, `math.Sin`, `math.Abs`, the products and the division is not modelled.
- Trigonometry is left out. The degree-to-radian conversion (naive.go:28), `math.Cos` and `math.Sin` become the parameters `c` and `s`. The tests at 45 degrees (naive_test.go:64-71, 103-105) need irrational values and a 0.25 tolerance, so they are not stated.
- Naive.CalcSrc does not model the polar route itself. `mathext.ToPolar` / `ToCartesian` are not part of this model. They are replaced by the equivalent rotation formula, which holds when `c` and `s` are the cosine and sine of the angle. That equivalence is a trigonometric identity, taken as a modelling assumption.
- Naive.CalcSrc requires scale != 0. With scale 0 the source divides by zero and gets infinities or NaN, which Go then rounds to unspecified integers. A zero scale still gives a 0 x 0 canvas, so the loop never calls it (Naive.CalcBoundsZeroScale).
- Naive.CalcBounds: its ensures states only the origin and the non-negative size. The size itself is described by Naive.CalcBoundsFirstQuadrant, Naive.CalcBoundsHalfTurn, Naive.CalcBoundsQuarterTurn, Naive.CalcBoundsClipsObtuseRotation and Naive.CalcBoundsClipsFourthQuadrant rather than in the function's own contract.
- Naive.BoundingBox: its ensures states only the origin and the non-negative size. That the size holds every rotated point is Naive.BoxContainsWidth and Naive.BoxContainsHeight.
- Naive.FillColumn is a separate method only for proof size. Its loop is the inner loop of `Transform`. It recomputes the source and canvas centres the outer function computes once; those values do not change.
- Colour-model conversion is left out. `RGBA64.Set` converts every colour to 16-bit RGBA; pixels here are already 16-bit RGBA values. The `image.Image` interface is a record of bounds, a total colour function inside them, and the colour answered outside.
- 64-bit integer overflow of coordinates and of the rounded canvas size is not modelled; integers are unbounded.
- Strings are sequences of characters, not of bytes. `strings.Index` returns a byte index, and so does the model for ASCII urls.
- Locations.SplitGsUrl, Locations.SplitGsUrlStrict and Locations.Locate require at least five characters. The source slices `url[5:]` and `src[:5]` by bytes and panics on a string shorter than five bytes; that panic is not modelled as a result. For non-ASCII names the two bounds differ: "ééé" is six bytes, so Go slices it, but it has only three characters, so the model excludes it.
- I/O is left out: JPEG decoding and encoding, the Cloud Storage client, `os.Open` / `os.Create` and `_close` (main/main.go:40-44, 92-107, 116-128). Locations.Locate stops at the location; a split error is returned before any client would be made.
- `handle` and `main` (main/main.go:46-72, 131-156) are command-line plumbing and are not modelled. Two quirks there: a failing reader makes `handle` return no error (main/main.go:50-51), and the flags are read without `flag.Parse` being called.
