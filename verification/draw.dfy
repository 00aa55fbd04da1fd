/**
 * `draw_point` (src/main.rs): paints a disc of magenta pixels into an image
 * in place. Offsets range over the half-open [-radius, radius) on both axes.
 */
module Draw {
  import opened Color

  const Magenta := Rgba(255, 0, 255, 255)

  /**
   * Pixel (p, q) is painted for a point at (cx, cy): its offset lies in the
   * half-open square [-r, r) x [-r, r) and within distance r of the centre.
   */
  predicate InDisc(cx: int, cy: int, r: int, p: int, q: int): (b: bool)
    ensures b ==> r >= 1
    ensures b ==> cx - r <= p < cx + r && cy - r <= q < cy + r
  {
    var i, j := p - cx, q - cy;
    -r <= i < r && -r <= j < r && i * i + j * j <= r * r
  }

  /** The offsets (i, j) visited before offset (ci, cj) in the source's loop order. */
  predicate VisitedBefore(i: int, j: int, ci: int, cj: int) {
    i < ci || (i == ci && j < cj)
  }

  /**
   * Every in-image pixel of the disc becomes magenta; every other pixel keeps
   * its value. No write falls outside the image.
   */
  method DrawPoint(img: array2<Rgba>, x: nat, y: nat, radius: int)
    modifies img
    ensures forall p, q :: 0 <= p < img.Length0 && 0 <= q < img.Length1 ==>
      img[p, q] == if InDisc(x, y, radius, p, q) then Magenta else old(img[p, q])
  {
    var i := -radius;
    while i < radius
      invariant i == -radius || -radius <= i <= radius
      invariant forall p, q :: 0 <= p < img.Length0 && 0 <= q < img.Length1 ==>
        img[p, q] == if InDisc(x, y, radius, p, q) && p - x < i then Magenta else old(img[p, q])
    {
      var j := -radius;
      while j < radius
        invariant -radius <= j <= radius
        invariant forall p, q :: 0 <= p < img.Length0 && 0 <= q < img.Length1 ==>
          img[p, q] == if InDisc(x, y, radius, p, q) && VisitedBefore(p - x, q - y, i, j) then Magenta
                       else old(img[p, q])
      {
        if i * i + j * j <= radius * radius {
          var xCoord := x + i;
          var yCoord := y + j;
          if 0 <= xCoord < img.Length0 && 0 <= yCoord < img.Length1 {
            img[xCoord, yCoord] := Magenta;
          }
        }
        j := j + 1;
      }
      i := i + 1;
    }
  }

  /** A point of radius r >= 1 paints its centre. */
  lemma CentreIsPainted(cx: int, cy: int, r: int)
    requires r >= 1
    ensures InDisc(cx, cy, r, cx, cy)
  {
  }

  /** A radius of 0 or less paints nothing. */
  lemma NonPositiveRadiusPaintsNothing(cx: int, cy: int, r: int, p: int, q: int)
    requires r <= 0
    ensures !InDisc(cx, cy, r, p, q)
  {
  }

  /**
   * The half-open range makes the disc lopsided: the pixels r to the left of
   * and r above the centre are painted, those r to the right and r below are not.
   */
  lemma DiscIsLopsided(cx: int, cy: int, r: int)
    requires r >= 1
    ensures InDisc(cx, cy, r, cx - r, cy) && InDisc(cx, cy, r, cx, cy - r)
    ensures !InDisc(cx, cy, r, cx + r, cy) && !InDisc(cx, cy, r, cx, cy + r)
  {
  }
}
