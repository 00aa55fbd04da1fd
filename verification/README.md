# A Dafny model of the SIFT difference-of-Gaussians tool

The program reads one or more images. It filters each one with a
difference-of-Gaussians (DoG) operator and stacks the results top to bottom
on one canvas. This project models the exact logic around the floating-point
filter and proves properties of it:

- **Casts** (`casts.dfy`): Rust's saturating, round-toward-zero `as`
  conversions from a float to `i32` and to `u8`. Both go through one
  definition.
- **Color** (`color.dfy`): `clamp`, `color_to_vector` and `vector_to_color`
  over reals, and the round trip from byte pixel to vector and back.
- **Dog** (`dog.dfy`): the skeleton of `difference_of_gaussian`. It covers
  the integer window radius, the half-open offset window `[-radius, radius)`,
  the bounds test that skips neighbours outside the image, and the
  accumulate-then-write loop into a fresh image of the same size. The
  Gaussian `gaussian_filter` is a parameter (`Kernel`) with no properties
  assumed. Each output pixel is proved to equal a reference sum (`WindowSum`)
  taken in the loops' own order.
- **Draw** (`draw.dfy`): `draw_point`, which paints in place, as a method on
  a two-dimensional array.
- **Stacking** (`stacking.dfy`): the loop in `main`. It filters every image
  with sigma 3 and k 0.5, places each one at the running sum of the earlier
  heights, and sizes the canvas to the widest width and the total height.

An image is an `array2<Rgba>` indexed `[x, y]`. `Length0` is the width and
`Length1` is the height. The output of `difference_of_gaussian` is an RGB8
image, which stores no alpha. It is modelled as `Rgba` pixels with alpha 255,
which is what `vector_to_color` always produces and what reading an RGB8
image returns.

`difference_of_gaussian` in `src/main.rs` makes one pass per pixel. It
weights each neighbour by `gaussian_filter(kσ) − gaussian_filter(σ)` over a
single window of radius `max(trunc(σ²), trunc((kσ)²))`, rather than blurring
twice and subtracting.

## Model

| member | source | states |
|---|---|---|
| `Casts.TruncTowardZero` | src/main.rs:47-49 | the result is the integer part of the value: at most the value and within 1 of it for non-negative values, and the mirror image for negative values |
| `Casts.SaturatingCast` | src/main.rs:59 | a float-to-integer `as` cast: the result lies in the target range, equals the truncation inside it, and saturates at the bound below or above it |
| `Casts.ToI32` | src/main.rs:59 | `v as i32` lies in the i32 range and is the floor of `v` for non-negative in-range `v` |
| `Casts.ToU8` | src/main.rs:47-49 | `v as u8` lies in [0, 255]: 0 at or below 0, 255 at or above 255, the floor of `v` in between |
| `Color.Clamp` | src/main.rs:25-33 | for lo ≤ hi the result lies in [lo, hi]; a value already in range is returned unchanged; the result is always one of lo, hi, n |
| `Color.ClampIsNearest` | src/main.rs:25-33 | on a non-empty interval the clamped value is the point of [lo, hi] nearest to n |
| `Color.ClampIdempotent` | src/main.rs:25-33 | clamping twice gives the same result as clamping once |
| `Color.Normalise` | src/main.rs:38-40 | a normalised channel lies in [0, 1], and 255 times it gives back the byte |
| `Color.ColorToVector` | src/main.rs:36-42 | all three components lie in [0, 1], and each is its channel divided by 255 (255 times the component is the channel) |
| `Color.ColorToVectorIgnoresAlpha` | src/main.rs:36-42 | the fourth channel has no effect on the vector |
| `Color.Quantise` | src/main.rs:47-49 | a channel value at or below 0 gives byte 0, at or above 1 gives 255, and in between gives the integer part of 255 times the value |
| `Color.VectorToColor` | src/main.rs:45-55 | every colour channel of the pixel is its vector component quantised as above, whatever the vector; alpha is always 255 |
| `Color.QuantiseNormalise` | src/main.rs:38-49 | quantising a normalised byte gives the byte back |
| `Color.ColorRoundTrip` | src/main.rs:36-55 | `vector_to_color(color_to_vector(p))` is p's RGB with alpha 255, exactly over reals |
| `Color.ZeroIsBlack` | src/main.rs:45-55 | the zero vector maps to opaque black |
| `Dog.WindowRadius` | src/main.rs:59 | the window radius is never negative and never above the i32 maximum |
| `Dog.RadiusIsFloorOfLargerSquare` | src/main.rs:59 | the radius is the integer part of max(σ², (kσ)²), and saturates at the i32 maximum when that value reaches it |
| `Dog.MainRadius` | src/main.rs:126 | the scales `main` passes (σ = 3, k = 0.5) give radius 9, so offsets run over [-9, 9) |
| `Dog.DiffWeight` | src/main.rs:75-76 | the weight of an offset is the Gaussian at scale k·σ minus the one at σ, and is zero when k = 1 |
| `Dog.Term` | src/main.rs:67-77 | an offset whose neighbour lies outside the image contributes nothing to the sum |
| `Dog.Response` | src/main.rs:81 | the output pixel is always opaque |
| `Dog.AccumulateWindow` | src/main.rs:63-79 | the accumulated colour is the sum, over offsets i, j in [-radius, radius), of the weighted colours of the neighbours inside the image, added in loop order; every pixel read lies inside the image |
| `Dog.DifferenceOfGaussian` | src/main.rs:57-86 | the result is a fresh image with the input's width and height, and every pixel (x, y) holds `vector_to_color` of that pixel's window sum |
| `Dog.FilterColumn` | src/main.rs:62-82 | column x of the output holds the response of every pixel in it, and every other column keeps its old value |
| `Dog.ColumnSumLocal` | src/main.rs:66-77 | a column of the sum depends only on the in-image pixels of the half-open window |
| `Dog.WindowSumLocal` | src/main.rs:65-77 | the window sum depends only on the in-image pixels of the half-open window |
| `Dog.ResponseLocal` | src/main.rs:65-81 | two same-size images that agree on the in-image pixels of [x-r, x+r) × [y-r, y+r) give the same output pixel, so offset +r and pixels outside the image are never read |
| `Dog.ColumnSumOutside` | src/main.rs:67-72 | a column whose neighbours all lie left or right of the image adds nothing |
| `Dog.SinglePixelResponse` | src/main.rs:65-81 | a 1×1 image comes out as its pixel's colour times the centre weight alone, with no renormalisation, or as black when the window is empty |
| `Dog.SmallScalesGiveBlack` | src/main.rs:59-81 | when σ² < 1 and (kσ)² < 1 the window is empty and every output pixel is opaque black |
| `Draw.InDisc` | src/main.rs:89-100 | a painted offset needs a radius of at least 1, and the pixel lies in the half-open square [x-r, x+r) × [y-r, y+r) |
| `Draw.DrawPoint` | src/main.rs:88-104 | afterwards, every in-image pixel in the disc is magenta (255, 0, 255, 255) and every other pixel keeps its old value |
| `Draw.CentreIsPainted` | src/main.rs:89-92 | a radius of at least 1 paints the centre |
| `Draw.NonPositiveRadiusPaintsNothing` | src/main.rs:89-90 | a radius of 0 or less paints no pixel |
| `Draw.DiscIsLopsided` | src/main.rs:89-92 | with the half-open range, the pixels r to the left of and r above the centre are painted, but those r to the right and r below are not |
| `Stacking.TotalHeightStep` | src/main.rs:129 | adding one image to the prefix adds its height to the running height |
| `Stacking.TotalHeightMonotone` | src/main.rs:127-129 | the y-offsets never decrease from one image to the next |
| `Stacking.PlacementsDisjoint` | src/main.rs:127-131 | image m ends at or above the row where every later image starts, so placed images do not overlap vertically |
| `Stacking.PlacementsFit` | src/main.rs:127-134 | each image placed at its offset fits inside the canvas height |
| `Stacking.MaxWidthIsMaximum` | src/main.rs:128 | no image is wider than the canvas width; the canvas width is some image's width, or 0 when there are no images |
| `Stacking.Stack` | src/main.rs:113-131 | each output image is fresh and is the DoG of its input at σ = 3, k = 0.5; its y-offset is the sum of the earlier heights; the canvas width is the largest width and the height is the sum of all heights |

## Left out

- `gaussian_filter` (src/main.rs:18-22): its value needs `f32::exp`, so it is a parameter of the model. Nothing is claimed about its sign or shape.
- f32 arithmetic: channels, weights and sums are reals. The round trip is exact over reals; under f32 rounding a channel may come back 1 lower, which the model does not capture. The squares in the radius are computed exactly, and NaN and infinity are not modelled.
- `Dog.DifferenceOfGaussian`: states that every pixel ends up holding its response, but not that each pixel is written only once.
- Integer overflow: all integers are unbounded. The source could wrap or panic, but only for images, radii or totals near the integer limits. This covers `x as i32 + i` and `y as i32 + j` in `difference_of_gaussian` (src/main.rs:67-74), and `i * i + j * j`, `x as isize + i` and `y as isize + j` in `draw_point` (src/main.rs:91, 95-96). It also covers `-radius` for `isize::MIN` (src/main.rs:89-90), the `usize` sum `height +=` in `main` (src/main.rs:129), and the truncating `width as _` and `height as _` casts to `u32` for the canvas (src/main.rs:134).
- `open_image`, `final_image.save`, the argument-count check and `process::exit` (src/main.rs:14-16, 107-121, 141-144): file I/O and process control. `Stack` takes the decoded images as its input.
- `imageops::overlay` and the zero-filled canvas (src/main.rs:134-137): library calls; only the placement arithmetic is modelled.
- The `image` crate's `DynamicImage`/`Rgba` and `leonhard`'s `Vector` are replaced by `array2<Rgba>` and a three-real `Vec3`.
- The commented-out resize and the SIFT placeholder (src/main.rs:124, 139): not implemented in the source.
