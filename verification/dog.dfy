/**
 * The convolution skeleton of `difference_of_gaussian` (src/main.rs).
 *
 * An image is a two-dimensional array of pixels indexed `[x, y]`, with
 * `Length0` its width and `Length1` its height. The Gaussian density
 * `gaussian_filter(x, y, sigma)` is a parameter of the model (`Kernel`):
 * nothing is assumed about its values.
 */
module Dog {
  import opened Casts
  import opened Color

  /** `gaussian_filter(x, y, sigma)`, left abstract. */
  type Kernel = (real, real, real) -> real

  function MaxReal(a: real, b: real): real {
    if a >= b then a else b
  }

  /**
   * The window half-extent: the larger of `(sigma * sigma) as i32` and
   * `((k * sigma) * (k * sigma)) as i32`.
   */
  function WindowRadius(sigma: real, k: real): (r: int)
    ensures 0 <= r <= I32Max
  {
    var a := ToI32(sigma * sigma);
    var b := ToI32((k * sigma) * (k * sigma));
    if a >= b then a else b
  }

  /**
   * The radius is the integer part of the larger of the two squared scales,
   * unless that exceeds the i32 range, where it saturates.
   */
  lemma RadiusIsFloorOfLargerSquare(sigma: real, k: real)
    ensures var r := WindowRadius(sigma, k);
      && (r < I32Max ==> r as real <= MaxReal(sigma * sigma, (k * sigma) * (k * sigma)) < r as real + 1.0)
      && (r == I32Max ==> MaxReal(sigma * sigma, (k * sigma) * (k * sigma)) >= I32Max as real)
  {
  }

  /** The parameters `main` passes give a window of offsets [-9, 9). */
  lemma MainRadius()
    ensures WindowRadius(3.0, 0.5) == 9
  {
  }

  /**
   * The weight of offset (i, j): the Gaussian at scale k * sigma minus the one
   * at sigma. It vanishes when k is 1, as the two scales then coincide.
   */
  function DiffWeight(gauss: Kernel, sigma: real, k: real, i: int, j: int): (w: real)
    ensures k == 1.0 ==> w == 0.0
  {
    gauss(i as real, j as real, k * sigma) - gauss(i as real, j as real, sigma)
  }

  predicate InImage(img: array2<Rgba>, p: int, q: int) {
    0 <= p < img.Length0 && 0 <= q < img.Length1
  }

  /**
   * What offset (i, j) adds to the sum at pixel (x, y): the weighted colour
   * of the neighbour when it lies inside the image, and nothing otherwise.
   */
  function Term(img: array2<Rgba>, gauss: Kernel, sigma: real, k: real, x: int, y: int, i: int, j: int): (t: Vec3)
    reads img
    ensures !InImage(img, x + i, y + j) ==> t == Zero
  {
    if InImage(img, x + i, y + j) then
      Scale(ColorToVector(img[x + i, y + j]), DiffWeight(gauss, sigma, k, i, j))
    else
      Zero
  }

  /** The sum of the terms (i, j) for j in [-r, jEnd). */
  function ColumnSum(img: array2<Rgba>, gauss: Kernel, sigma: real, k: real, x: int, y: int, r: int, i: int, jEnd: int): Vec3
    reads img
    decreases jEnd + r
  {
    if jEnd <= -r then
      Zero
    else
      Add(ColumnSum(img, gauss, sigma, k, x, y, r, i, jEnd - 1), Term(img, gauss, sigma, k, x, y, i, jEnd - 1))
  }

  /** The sum of the terms (i, j) for i in [-r, iEnd) and j in [-r, r). */
  function WindowSum(img: array2<Rgba>, gauss: Kernel, sigma: real, k: real, x: int, y: int, r: int, iEnd: int): Vec3
    reads img
    decreases iEnd + r
  {
    if iEnd <= -r then
      Zero
    else
      Add(WindowSum(img, gauss, sigma, k, x, y, r, iEnd - 1), ColumnSum(img, gauss, sigma, k, x, y, r, iEnd - 1, r))
  }

  lemma ColumnSumStep(img: array2<Rgba>, gauss: Kernel, sigma: real, k: real, x: int, y: int, r: int, i: int, j: int)
    requires -r <= j
    ensures ColumnSum(img, gauss, sigma, k, x, y, r, i, j + 1)
      == Add(ColumnSum(img, gauss, sigma, k, x, y, r, i, j), Term(img, gauss, sigma, k, x, y, i, j))
  {
  }

  lemma WindowSumStep(img: array2<Rgba>, gauss: Kernel, sigma: real, k: real, x: int, y: int, r: int, i: int)
    requires -r <= i
    ensures WindowSum(img, gauss, sigma, k, x, y, r, i + 1)
      == Add(WindowSum(img, gauss, sigma, k, x, y, r, i), ColumnSum(img, gauss, sigma, k, x, y, r, i, r))
  {
  }

  /** The output pixel at (x, y), which is always opaque. */
  function Response(img: array2<Rgba>, gauss: Kernel, sigma: real, k: real, x: int, y: int): (p: Rgba)
    reads img
    ensures p.a == 255
  {
    var r := WindowRadius(sigma, k);
    VectorToColor(WindowSum(img, gauss, sigma, k, x, y, r, r))
  }

  /**
   * The accumulation loops of `difference_of_gaussian` for one pixel: the
   * weighted colours of the in-image neighbours over i, j in [-r, r).
   */
  method AccumulateWindow(img: array2<Rgba>, gauss: Kernel, sigma: real, k: real, x: int, y: int, radius: int)
    returns (color: Vec3)
    ensures color == WindowSum(img, gauss, sigma, k, x, y, radius, radius)
  {
    color := Zero;
    var i := -radius;
    while i < radius
      invariant i == -radius || -radius <= i <= radius
      invariant color == WindowSum(img, gauss, sigma, k, x, y, radius, i)
    {
      ghost var before := color;
      var j := -radius;
      AddZero(color);
      while j < radius
        invariant -radius <= j <= radius
        invariant color == Add(before, ColumnSum(img, gauss, sigma, k, x, y, radius, i, j))
      {
        ColumnSumStep(img, gauss, sigma, k, x, y, radius, i, j);
        ghost var done := ColumnSum(img, gauss, sigma, k, x, y, radius, i, j);
        ghost var term := Term(img, gauss, sigma, k, x, y, i, j);
        if 0 <= x + i < img.Length0 && 0 <= y + j < img.Length1 {
          var pixelColor := img[x + i, y + j];
          var gaussWeight := DiffWeight(gauss, sigma, k, i, j);
          color := Add(color, Scale(ColorToVector(pixelColor), gaussWeight));
        } else {
          AddZero(color);
          AddZero(done);
        }
        AddAssociative(before, done, term);
        j := j + 1;
      }
      WindowSumStep(img, gauss, sigma, k, x, y, radius, i);
      i := i + 1;
    }
  }

  /**
   * `difference_of_gaussian`: a fresh image of the same size whose every
   * pixel is the response at that pixel; the input is only read.
   */
  method DifferenceOfGaussian(img: array2<Rgba>, sigma: real, k: real, gauss: Kernel) returns (result: array2<Rgba>)
    ensures fresh(result)
    ensures result.Length0 == img.Length0 && result.Length1 == img.Length1
    ensures forall x, y :: 0 <= x < result.Length0 && 0 <= y < result.Length1 ==>
      result[x, y] == Response(img, gauss, sigma, k, x, y)
  {
    result := new Rgba[img.Length0, img.Length1]((_, _) => Black);
    var radius := WindowRadius(sigma, k);

    for x := 0 to img.Length0
      invariant forall p, q :: 0 <= p < x && 0 <= q < img.Length1 ==>
        result[p, q] == Response(img, gauss, sigma, k, p, q)
    {
      FilterColumn(img, gauss, sigma, k, radius, result, x);
    }
  }

  /** The inner loop of `difference_of_gaussian`: fills column x of `result` and nothing else. */
  method FilterColumn(img: array2<Rgba>, gauss: Kernel, sigma: real, k: real, radius: int, result: array2<Rgba>, x: int)
    requires radius == WindowRadius(sigma, k)
    requires result != img && result.Length0 == img.Length0 && result.Length1 == img.Length1
    requires 0 <= x < img.Length0
    modifies result
    ensures forall p, q :: 0 <= p < img.Length0 && 0 <= q < img.Length1 ==>
      result[p, q] == if p == x then Response(img, gauss, sigma, k, p, q) else old(result[p, q])
  {
    for y := 0 to img.Length1
      invariant forall p, q :: 0 <= p < img.Length0 && 0 <= q < img.Length1 ==>
        result[p, q] == if p == x && q < y then Response(img, gauss, sigma, k, p, q) else old(result[p, q])
    {
      var color := AccumulateWindow(img, gauss, sigma, k, x, y, radius);
      assert VectorToColor(color) == Response(img, gauss, sigma, k, x, y);
      result[x, y] := VectorToColor(color);
    }
  }

  /** The pixels of the half-open window [x - r, x + r) x [y - r, y + r) that lie inside the image. */
  ghost predicate AgreeOnWindow(a: array2<Rgba>, b: array2<Rgba>, x: int, y: int, r: int)
    reads a, b
  {
    && a.Length0 == b.Length0 && a.Length1 == b.Length1
    && forall p, q :: 0 <= p < a.Length0 && 0 <= q < a.Length1 && x - r <= p < x + r && y - r <= q < y + r ==>
         a[p, q] == b[p, q]
  }

  /** Columns whose terms agree one by one have the same sum. */
  lemma {:induction false} ColumnSumCongruent(a: array2<Rgba>, b: array2<Rgba>, gauss: Kernel, sigma: real, k: real,
                                              x: int, y: int, r: int, i: int, jEnd: int)
    requires forall j :: -r <= j < jEnd ==> Term(a, gauss, sigma, k, x, y, i, j) == Term(b, gauss, sigma, k, x, y, i, j)
    ensures ColumnSum(a, gauss, sigma, k, x, y, r, i, jEnd) == ColumnSum(b, gauss, sigma, k, x, y, r, i, jEnd)
    decreases jEnd + r
  {
    if jEnd > -r {
      ColumnSumCongruent(a, b, gauss, sigma, k, x, y, r, i, jEnd - 1);
    }
  }

  lemma ColumnSumLocal(a: array2<Rgba>, b: array2<Rgba>, gauss: Kernel, sigma: real, k: real,
                       x: int, y: int, r: int, i: int, jEnd: int)
    requires AgreeOnWindow(a, b, x, y, r)
    requires -r <= i < r && jEnd <= r
    ensures ColumnSum(a, gauss, sigma, k, x, y, r, i, jEnd) == ColumnSum(b, gauss, sigma, k, x, y, r, i, jEnd)
  {
    forall j | -r <= j < jEnd
      ensures Term(a, gauss, sigma, k, x, y, i, j) == Term(b, gauss, sigma, k, x, y, i, j)
    {
      TermLocal(a, b, gauss, sigma, k, x, y, r, i, j);
    }
    ColumnSumCongruent(a, b, gauss, sigma, k, x, y, r, i, jEnd);
  }

  /** One term reads only its in-window pixel. */
  lemma TermLocal(a: array2<Rgba>, b: array2<Rgba>, gauss: Kernel, sigma: real, k: real,
                  x: int, y: int, r: int, i: int, j: int)
    requires AgreeOnWindow(a, b, x, y, r)
    requires -r <= i < r && -r <= j < r
    ensures Term(a, gauss, sigma, k, x, y, i, j) == Term(b, gauss, sigma, k, x, y, i, j)
  {
    if InImage(a, x + i, y + j) {
      assert a[x + i, y + j] == b[x + i, y + j];
    }
  }

  lemma {:induction false} WindowSumLocal(a: array2<Rgba>, b: array2<Rgba>, gauss: Kernel, sigma: real, k: real,
                                          x: int, y: int, r: int, iEnd: int)
    requires AgreeOnWindow(a, b, x, y, r)
    requires iEnd <= r
    ensures WindowSum(a, gauss, sigma, k, x, y, r, iEnd) == WindowSum(b, gauss, sigma, k, x, y, r, iEnd)
    decreases iEnd + r
  {
    if iEnd > -r {
      WindowSumLocal(a, b, gauss, sigma, k, x, y, r, iEnd - 1);
      ColumnSumLocal(a, b, gauss, sigma, k, x, y, r, iEnd - 1, r);
    }
  }

  /**
   * Only the in-image pixels of the half-open window are read: two images of
   * the same size that agree there give the same output pixel, whatever the
   * pixels at offset +radius or outside the window hold.
   */
  lemma ResponseLocal(a: array2<Rgba>, b: array2<Rgba>, gauss: Kernel, sigma: real, k: real, x: int, y: int)
    requires AgreeOnWindow(a, b, x, y, WindowRadius(sigma, k))
    ensures Response(a, gauss, sigma, k, x, y) == Response(b, gauss, sigma, k, x, y)
  {
    var r := WindowRadius(sigma, k);
    WindowSumLocal(a, b, gauss, sigma, k, x, y, r, r);
  }

  /** A column entirely outside the image adds nothing. */
  lemma {:induction false} ColumnSumOutside(img: array2<Rgba>, gauss: Kernel, sigma: real, k: real,
                                            x: int, y: int, r: int, i: int, jEnd: int)
    requires !(0 <= x + i < img.Length0)
    ensures ColumnSum(img, gauss, sigma, k, x, y, r, i, jEnd) == Zero
    decreases jEnd + r
  {
    if jEnd > -r {
      ColumnSumOutside(img, gauss, sigma, k, x, y, r, i, jEnd - 1);
    }
  }

  /** In a one-row image only offset j == -y contributes to a column. */
  lemma {:induction false} ColumnSumSingleRow(img: array2<Rgba>, gauss: Kernel, sigma: real, k: real,
                                              x: int, r: int, i: int, jEnd: int)
    requires img.Length1 == 1 && 0 <= x + i < img.Length0
    requires 0 < r && 0 < jEnd <= r
    ensures ColumnSum(img, gauss, sigma, k, x, 0, r, i, jEnd) == Term(img, gauss, sigma, k, x, 0, i, 0)
    decreases jEnd
  {
    if jEnd == 1 {
      ColumnSumBelow(img, gauss, sigma, k, x, r, i, 0);
    } else {
      ColumnSumSingleRow(img, gauss, sigma, k, x, r, i, jEnd - 1);
    }
  }

  /** Offsets j < 0 fall above a one-row image and add nothing. */
  lemma {:induction false} ColumnSumBelow(img: array2<Rgba>, gauss: Kernel, sigma: real, k: real,
                                          x: int, r: int, i: int, jEnd: int)
    requires jEnd <= 0
    ensures ColumnSum(img, gauss, sigma, k, x, 0, r, i, jEnd) == Zero
    decreases jEnd + r
  {
    if jEnd > -r {
      ColumnSumBelow(img, gauss, sigma, k, x, r, i, jEnd - 1);
    }
  }

  /** A column outside a one-pixel image leaves the window sum as it was. */
  lemma OffColumnStep(img: array2<Rgba>, gauss: Kernel, sigma: real, k: real, r: int, i: int)
    requires img.Length0 == 1 && img.Length1 == 1
    requires -r <= i && i != 0
    ensures WindowSum(img, gauss, sigma, k, 0, 0, r, i + 1) == WindowSum(img, gauss, sigma, k, 0, 0, r, i)
  {
    WindowSumStep(img, gauss, sigma, k, 0, 0, r, i);
    ColumnSumOutside(img, gauss, sigma, k, 0, 0, r, i, r);
    AddZero(WindowSum(img, gauss, sigma, k, 0, 0, r, i));
  }

  /** Column 0 of a one-pixel image adds exactly the centre term. */
  lemma CenterColumnStep(img: array2<Rgba>, gauss: Kernel, sigma: real, k: real, r: int)
    requires img.Length0 == 1 && img.Length1 == 1
    requires 0 < r
    requires WindowSum(img, gauss, sigma, k, 0, 0, r, 0) == Zero
    ensures WindowSum(img, gauss, sigma, k, 0, 0, r, 1) == Term(img, gauss, sigma, k, 0, 0, 0, 0)
  {
    WindowSumStep(img, gauss, sigma, k, 0, 0, r, 0);
    ColumnSumSingleRow(img, gauss, sigma, k, 0, r, 0, r);
    AddZero(Term(img, gauss, sigma, k, 0, 0, 0, 0));
  }

  /** In a one-pixel image the columns left of column 0 add nothing. */
  lemma {:induction false} WindowSumLeftColumns(img: array2<Rgba>, gauss: Kernel, sigma: real, k: real,
                                                r: int, iEnd: int)
    requires img.Length0 == 1 && img.Length1 == 1
    requires iEnd <= 0
    ensures WindowSum(img, gauss, sigma, k, 0, 0, r, iEnd) == Zero
    decreases iEnd + r
  {
    if iEnd > -r {
      WindowSumLeftColumns(img, gauss, sigma, k, r, iEnd - 1);
      OffColumnStep(img, gauss, sigma, k, r, iEnd - 1);
    }
  }

  /** In a one-pixel image a window reaching past column 0 sums to the centre term. */
  lemma {:induction false} WindowSumRightColumns(img: array2<Rgba>, gauss: Kernel, sigma: real, k: real,
                                                 r: int, iEnd: int)
    requires img.Length0 == 1 && img.Length1 == 1
    requires 0 < iEnd <= r
    ensures WindowSum(img, gauss, sigma, k, 0, 0, r, iEnd) == Term(img, gauss, sigma, k, 0, 0, 0, 0)
    decreases iEnd
  {
    if iEnd == 1 {
      WindowSumLeftColumns(img, gauss, sigma, k, r, 0);
      CenterColumnStep(img, gauss, sigma, k, r);
    } else {
      WindowSumRightColumns(img, gauss, sigma, k, r, iEnd - 1);
      OffColumnStep(img, gauss, sigma, k, r, iEnd - 1);
    }
  }

  /** In a one-pixel image only column 0 contributes. */
  lemma WindowSumSingleColumn(img: array2<Rgba>, gauss: Kernel, sigma: real, k: real, r: int, iEnd: int)
    requires img.Length0 == 1 && img.Length1 == 1
    requires 0 < r && iEnd <= r
    ensures iEnd <= 0 ==> WindowSum(img, gauss, sigma, k, 0, 0, r, iEnd) == Zero
    ensures iEnd > 0 ==> WindowSum(img, gauss, sigma, k, 0, 0, r, iEnd) == Term(img, gauss, sigma, k, 0, 0, 0, 0)
  {
    if iEnd <= 0 {
      WindowSumLeftColumns(img, gauss, sigma, k, r, iEnd);
    } else {
      WindowSumRightColumns(img, gauss, sigma, k, r, iEnd);
    }
  }

  /**
   * Out-of-image offsets are skipped and the kernel is not renormalised: the
   * single pixel of a 1x1 image comes out as its own colour times the centre
   * weight alone (or black when the window is empty).
   */
  lemma SinglePixelResponse(img: array2<Rgba>, gauss: Kernel, sigma: real, k: real)
    requires img.Length0 == 1 && img.Length1 == 1
    ensures Response(img, gauss, sigma, k, 0, 0) ==
      if WindowRadius(sigma, k) == 0 then Black
      else VectorToColor(Scale(ColorToVector(img[0, 0]), DiffWeight(gauss, sigma, k, 0, 0)))
  {
    var r := WindowRadius(sigma, k);
    if r > 0 {
      WindowSumSingleColumn(img, gauss, sigma, k, r, r);
    } else {
      ZeroIsBlack();
    }
  }

  /** When both squared scales are below 1 the window is empty and every output pixel is black. */
  lemma SmallScalesGiveBlack(img: array2<Rgba>, gauss: Kernel, sigma: real, k: real, x: int, y: int)
    requires sigma * sigma < 1.0 && (k * sigma) * (k * sigma) < 1.0
    ensures Response(img, gauss, sigma, k, x, y) == Black
  {
  }
}
