/**
 * Pixels and the mapping between 8-bit RGBA pixels and normalised colour
 * vectors (src/main.rs, `clamp`, `color_to_vector`, `vector_to_color`).
 * Channels of a colour vector are reals; f32 rounding is not modelled.
 */
module Color {
  import opened Casts

  type byte = x: int | 0 <= x < 256

  /** An RGBA pixel with 8-bit channels, as `image::Rgba<u8>`. */
  datatype Rgba = Rgba(r: byte, g: byte, b: byte, a: byte)

  /** The pixel a fresh RGB8 image holds everywhere. */
  const Black := Rgba(0, 0, 0, 255)

  /** A three-component colour vector. */
  datatype Vec3 = Vec3(x: real, y: real, z: real)

  const Zero := Vec3(0.0, 0.0, 0.0)

  function Add(u: Vec3, v: Vec3): Vec3 {
    Vec3(u.x + v.x, u.y + v.y, u.z + v.z)
  }

  lemma AddAssociative(u: Vec3, v: Vec3, w: Vec3)
    ensures Add(Add(u, v), w) == Add(u, Add(v, w))
  {
  }

  lemma AddZero(u: Vec3)
    ensures Add(u, Zero) == u && Add(Zero, u) == u
  {
  }

  function Scale(u: Vec3, c: real): Vec3 {
    Vec3(u.x * c, u.y * c, u.z * c)
  }

  function Abs(v: real): real {
    if v < 0.0 then -v else v
  }

  /** Bounds `n` by `lo` below and `hi` above. */
  function Clamp(n: real, lo: real, hi: real): (r: real)
    ensures lo <= hi ==> lo <= r <= hi
    ensures lo <= n <= hi ==> r == n
    ensures r == lo || r == hi || r == n
  {
    if n < lo then
      lo
    else if n > hi then
      hi
    else
      n
  }

  /** On a non-empty interval the clamped value is the point of [lo, hi] nearest to `n`. */
  lemma ClampIsNearest(n: real, lo: real, hi: real, v: real)
    requires lo <= hi
    requires lo <= v <= hi
    ensures Abs(n - Clamp(n, lo, hi)) <= Abs(n - v)
  {
  }

  lemma ClampIdempotent(n: real, lo: real, hi: real)
    requires lo <= hi
    ensures Clamp(Clamp(n, lo, hi), lo, hi) == Clamp(n, lo, hi)
  {
  }

  /** Divides a channel by 255. */
  function Normalise(c: byte): (v: real)
    ensures 0.0 <= v <= 1.0
    ensures v * 255.0 == c as real
  {
    c as real / 255.0
  }

  /** `color_to_vector`: the first three channels, normalised; alpha is ignored. */
  function ColorToVector(p: Rgba): (v: Vec3)
    ensures 0.0 <= v.x <= 1.0 && 0.0 <= v.y <= 1.0 && 0.0 <= v.z <= 1.0
    ensures v.x * 255.0 == p.r as real && v.y * 255.0 == p.g as real && v.z * 255.0 == p.b as real
  {
    Vec3(Normalise(p.r), Normalise(p.g), Normalise(p.b))
  }

  /** The alpha channel does not influence `color_to_vector`. */
  lemma ColorToVectorIgnoresAlpha(p: Rgba, alpha: byte)
    ensures ColorToVector(p.(a := alpha)) == ColorToVector(p)
  {
  }

  /**
   * `b` is the byte that channel value `c` maps to: 0 at or below 0, 255 at
   * or above 1, and the integer part of 255 * c in between.
   */
  ghost predicate Quantises(b: byte, c: real) {
    && (c <= 0.0 ==> b == 0)
    && (c >= 1.0 ==> b == 255)
    && (0.0 <= c <= 1.0 ==> b as real <= 255.0 * c < b as real + 1.0)
  }

  /** One channel of `vector_to_color`: clamp to [0, 1], scale by 255, cast to u8. */
  function Quantise(c: real): (b: byte)
    ensures Quantises(b, c)
  {
    ToU8(Clamp(c, 0.0, 1.0) * 255.0)
  }

  /** `vector_to_color`: every channel quantised, alpha forced to 255. */
  function VectorToColor(v: Vec3): (p: Rgba)
    ensures Quantises(p.r, v.x) && Quantises(p.g, v.y) && Quantises(p.b, v.z)
    ensures p.a == 255
  {
    Rgba(Quantise(v.x), Quantise(v.y), Quantise(v.z), 255)
  }

  /** Quantising a normalised byte gives the byte back. */
  lemma QuantiseNormalise(c: byte)
    ensures Quantise(Normalise(c)) == c
  {
  }

  /** Round trip: a pixel mapped to a vector and back keeps its RGB and becomes opaque. */
  lemma ColorRoundTrip(p: Rgba)
    ensures VectorToColor(ColorToVector(p)) == Rgba(p.r, p.g, p.b, 255)
  {
    QuantiseNormalise(p.r);
    QuantiseNormalise(p.g);
    QuantiseNormalise(p.b);
  }

  /** The zero vector maps to opaque black. */
  lemma ZeroIsBlack()
    ensures VectorToColor(Zero) == Black
  {
  }
}
