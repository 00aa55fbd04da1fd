/**
 * The loop of `main` (src/main.rs) that filters every input image and
 * records where it goes on the output canvas: images are stacked top to
 * bottom, left-aligned, each at the running sum of the earlier heights; the
 * canvas is as wide as the widest image and as tall as all of them together.
 * Opening, overlaying and saving images are not part of this model.
 */
module Stacking {
  import opened Color
  import opened Dog

  /** The scales `main` passes to `difference_of_gaussian`. */
  const MainSigma: real := 3.0
  const MainK: real := 0.5

  /** The sum of the heights of `imgs`. */
  function TotalHeight(imgs: seq<array2<Rgba>>): nat {
    if |imgs| == 0 then 0 else TotalHeight(imgs[..|imgs| - 1]) + imgs[|imgs| - 1].Length1
  }

  /** The largest width in `imgs`, or 0 when there is none. */
  function MaxWidth(imgs: seq<array2<Rgba>>): nat {
    if |imgs| == 0 then
      0
    else
      var w := MaxWidth(imgs[..|imgs| - 1]);
      var last := imgs[|imgs| - 1].Length0;
      if w >= last then w else last
  }

  lemma TotalHeightStep(imgs: seq<array2<Rgba>>, n: nat)
    requires n < |imgs|
    ensures TotalHeight(imgs[..n + 1]) == TotalHeight(imgs[..n]) + imgs[n].Length1
  {
    assert imgs[..n + 1][..n] == imgs[..n];
  }

  lemma {:induction false} TotalHeightMonotone(imgs: seq<array2<Rgba>>, m: nat, n: nat)
    requires m <= n <= |imgs|
    ensures TotalHeight(imgs[..m]) <= TotalHeight(imgs[..n])
    decreases n - m
  {
    if m < n {
      TotalHeightStep(imgs, m);
      TotalHeightMonotone(imgs, m + 1, n);
    }
  }

  /** Image m ends at or above the row where any later image n starts: no vertical overlap. */
  lemma PlacementsDisjoint(imgs: seq<array2<Rgba>>, m: nat, n: nat)
    requires m < n < |imgs|
    ensures TotalHeight(imgs[..m]) + imgs[m].Length1 <= TotalHeight(imgs[..n])
  {
    TotalHeightStep(imgs, m);
    TotalHeightMonotone(imgs, m + 1, n);
  }

  /** Every image placed at its offset fits inside the canvas height. */
  lemma PlacementsFit(imgs: seq<array2<Rgba>>, n: nat)
    requires n < |imgs|
    ensures TotalHeight(imgs[..n]) + imgs[n].Length1 <= TotalHeight(imgs)
  {
    TotalHeightStep(imgs, n);
    TotalHeightMonotone(imgs, n + 1, |imgs|);
    assert imgs[..|imgs|] == imgs;
  }

  /** The canvas width is the width of some image and no image is wider. */
  lemma {:induction false} MaxWidthIsMaximum(imgs: seq<array2<Rgba>>)
    ensures forall n :: 0 <= n < |imgs| ==> imgs[n].Length0 <= MaxWidth(imgs)
    ensures |imgs| == 0 ==> MaxWidth(imgs) == 0
    ensures |imgs| > 0 ==> exists n :: 0 <= n < |imgs| && imgs[n].Length0 == MaxWidth(imgs)
  {
    if |imgs| > 0 {
      var init := imgs[..|imgs| - 1];
      MaxWidthIsMaximum(init);
      assert forall n :: 0 <= n < |init| ==> init[n] == imgs[n];
      if |init| > 0 && MaxWidth(init) >= imgs[|imgs| - 1].Length0 {
        var n :| 0 <= n < |init| && init[n].Length0 == MaxWidth(init);
        assert imgs[n].Length0 == MaxWidth(imgs);
      } else {
        assert imgs[|imgs| - 1].Length0 == MaxWidth(imgs);
      }
    }
  }

  /** `out` is `difference_of_gaussian` of `img` at the scales `main` uses. */
  ghost predicate Filtered(out: array2<Rgba>, img: array2<Rgba>, gauss: Kernel)
    reads out, img
  {
    && out.Length0 == img.Length0 && out.Length1 == img.Length1
    && forall p, q :: 0 <= p < img.Length0 && 0 <= q < img.Length1 ==>
         out[p, q] == Response(img, gauss, MainSigma, MainK, p, q)
  }

  /**
   * The loop of `main`: each input is filtered with sigma 3 and k 0.5 and
   * paired with its y-offset; `width` and `height` give the canvas size.
   */
  method Stack(inputs: seq<array2<Rgba>>, gauss: Kernel)
    returns (images: seq<(array2<Rgba>, nat)>, width: nat, height: nat)
    ensures |images| == |inputs|
    ensures forall n :: 0 <= n < |inputs| ==>
      && fresh(images[n].0)
      && Filtered(images[n].0, inputs[n], gauss)
      && images[n].1 == TotalHeight(inputs[..n])
    ensures width == MaxWidth(inputs) && height == TotalHeight(inputs)
  {
    images := [];
    width, height := 0, 0;
    for n := 0 to |inputs|
      invariant |images| == n
      invariant forall m :: 0 <= m < n ==>
        && fresh(images[m].0)
        && Filtered(images[m].0, inputs[m], gauss)
        && images[m].1 == TotalHeight(inputs[..m])
      invariant width == MaxWidth(inputs[..n]) && height == TotalHeight(inputs[..n])
    {
      var imgPost := DifferenceOfGaussian(inputs[n], MainSigma, MainK, gauss);
      assert Filtered(imgPost, inputs[n], gauss);
      var y := height;
      assert inputs[..n + 1][..n] == inputs[..n];
      width := if width >= imgPost.Length0 then width else imgPost.Length0;
      height := height + imgPost.Length1;
      images := images + [(imgPost, y)];
    }
    assert inputs[..|inputs|] == inputs;
  }
}
