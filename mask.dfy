/**
 * The precomputed weighting mask and the weighted colour average
 * (`GaussianMask::new` and `avg_rgb_with_mask`, src-tauri/src/lib.rs:50-102,
 * 154-174). The exponential is a parameter: the model only assumes what the
 * proofs use of it.
 */
module Mask {
  import opened Imaging
  import Geometry

  datatype GaussianMask = GaussianMask(weights: seq<real>, totalWeight: real)

  function Total(s: seq<real>): real {
    if s == [] then 0.0 else Total(s[..|s| - 1]) + s[|s| - 1]
  }

  /**
   * The weight of the pixel at column `x`, row `y` of a `size` x `size` mask:
   * `exp(-d^2 / (2 sigma^2))` with `d` the distance from (size/2, size/2) and
   * `sigma = size / sigmaDivisor` when `sigmaDivisor > 0`, and 1 otherwise
   * (src-tauri/src/lib.rs:64-82).
   */
  function Weight(size: nat, sigmaDivisor: real, exp: real -> real, x: nat, y: nat): real
    requires x < size && y < size
  {
    if sigmaDivisor > 0.0 then
      var sigma := size as real / sigmaDivisor;
      assert sigma > 0.0;
      exp(-DistanceSquared(size, x, y) / (2.0 * sigma * sigma))
    else
      1.0
  }

  /** `dx * dx + dy * dy` for the offsets of (x, y) from the centre (size/2, size/2). */
  function DistanceSquared(size: nat, x: nat, y: nat): real {
    var center := size as real / 2.0;
    var dx := x as real - center;
    var dy := y as real - center;
    dx * dx + dy * dy
  }

  /** Entry `i` of the mask, pixel (i % size, i / size) in row-major order. */
  function WeightAt(size: nat, sigmaDivisor: real, exp: real -> real, i: nat): real
    requires i < size * size
  {
    Imaging.SquareIndexSplit(i, size);
    Weight(size, sigmaDivisor, exp, i % size, i / size)
  }

  /** The weights `GaussianMask::new(size, sigmaDivisor)` pushes, in push order. */
  function MaskWeights(size: nat, sigmaDivisor: real, exp: real -> real): (w: seq<real>)
    ensures |w| == size * size
  {
    seq(size * size, i requires 0 <= i < size * size => WeightAt(size, sigmaDivisor, exp, i))
  }

  lemma {:induction false} WeightAtEntry(size: nat, sigmaDivisor: real, exp: real -> real, x: nat, y: nat)
    requires x < size && y < size
    ensures y * size + x < size * size
    ensures WeightAt(size, sigmaDivisor, exp, y * size + x) == Weight(size, sigmaDivisor, exp, x, y)
  {
    Geometry.CellIndexSplit(x, y, size, size);
  }

  /**
   * `GaussianMask::new` (src-tauri/src/lib.rs:60-91): rows outer, columns
   * inner, one weight pushed per pixel and the running total kept beside them.
   */
  method NewMask(size: nat, sigmaDivisor: real, exp: real -> real) returns (mask: GaussianMask)
    ensures mask.weights == MaskWeights(size, sigmaDivisor, exp)
    ensures mask.totalWeight == Total(mask.weights)
  {
    var weights: seq<real> := [];
    var totalWeight := 0.0;
    for y := 0 to size
      invariant |weights| == y * size
      invariant WeightsSoFar(weights, size, sigmaDivisor, exp)
      invariant totalWeight == Total(weights)
    {
      for x := 0 to size
        invariant |weights| == y * size + x
        invariant WeightsSoFar(weights, size, sigmaDivisor, exp)
        invariant totalWeight == Total(weights)
      {
        var weight := Weight(size, sigmaDivisor, exp, x, y);
        PushWeight(weights, size, sigmaDivisor, exp, x, y);
        weights := weights + [weight];
        totalWeight := totalWeight + weight;
      }
      assert y * size + size == (y + 1) * size;
    }
    assert weights == MaskWeights(size, sigmaDivisor, exp);
    mask := GaussianMask(weights, totalWeight);
  }

  /** `weights` is a prefix of the mask's weights. */
  ghost predicate WeightsSoFar(weights: seq<real>, size: nat, sigmaDivisor: real, exp: real -> real) {
    && |weights| <= size * size
    && forall i :: 0 <= i < |weights| ==> weights[i] == MaskWeights(size, sigmaDivisor, exp)[i]
  }

  /** Pushing the weight of pixel (x, y) after the pixels before it keeps a prefix and adds to the total. */
  lemma {:induction false} PushWeight(weights: seq<real>, size: nat, sigmaDivisor: real, exp: real -> real, x: nat, y: nat)
    requires x < size && y < size && |weights| == y * size + x
    requires WeightsSoFar(weights, size, sigmaDivisor, exp)
    ensures WeightsSoFar(weights + [Weight(size, sigmaDivisor, exp, x, y)], size, sigmaDivisor, exp)
    ensures Total(weights + [Weight(size, sigmaDivisor, exp, x, y)]) == Total(weights) + Weight(size, sigmaDivisor, exp, x, y)
  {
    WeightAtEntry(size, sigmaDivisor, exp, x, y);
    var pushed := weights + [Weight(size, sigmaDivisor, exp, x, y)];
    assert pushed[..|pushed| - 1] == weights;
  }

  lemma {:induction false} TotalOfOnes(s: seq<real>)
    requires forall i :: 0 <= i < |s| ==> s[i] == 1.0
    ensures Total(s) == |s| as real
  {
    if s != [] {
      TotalOfOnes(s[..|s| - 1]);
    }
  }

  /**
   * With `sigmaDivisor <= 0` every weight is 1 and the total is `size * size`
   * (src-tauri/src/lib.rs:66-82).
   */
  lemma {:induction false} UniformMask(size: nat, sigmaDivisor: real, exp: real -> real)
    requires sigmaDivisor <= 0.0
    ensures forall i :: 0 <= i < size * size ==> MaskWeights(size, sigmaDivisor, exp)[i] == 1.0
    ensures Total(MaskWeights(size, sigmaDivisor, exp)) == (size * size) as real
  {
    TotalOfOnes(MaskWeights(size, sigmaDivisor, exp));
  }

  lemma {:induction false} TotalOfPositive(s: seq<real>)
    requires forall i :: 0 <= i < |s| ==> s[i] > 0.0
    ensures s != [] ==> Total(s) > 0.0
    ensures Total(s) >= 0.0
  {
    if s != [] {
      TotalOfPositive(s[..|s| - 1]);
    }
  }

  /**
   * With a positive exponential every weight is positive, and so is the total
   * of a non-empty mask: dividing by it is defined.
   */
  lemma {:induction false} PositiveMask(size: nat, sigmaDivisor: real, exp: real -> real)
    requires forall v :: exp(v) > 0.0
    ensures forall i :: 0 <= i < size * size ==> MaskWeights(size, sigmaDivisor, exp)[i] > 0.0
    ensures size > 0 ==> Total(MaskWeights(size, sigmaDivisor, exp)) > 0.0
  {
    TotalOfPositive(MaskWeights(size, sigmaDivisor, exp));
  }

  /**
   * The mask is centred at (size/2, size/2) of the cell: mirroring a column or
   * a row about that point leaves its weight unchanged.
   */
  lemma MaskCentredOnCell(size: nat, sigmaDivisor: real, exp: real -> real, x: nat, y: nat)
    requires 0 < x < size && 0 < y < size
    ensures Weight(size, sigmaDivisor, exp, x, y) == Weight(size, sigmaDivisor, exp, size - x, y)
    ensures Weight(size, sigmaDivisor, exp, x, y) == Weight(size, sigmaDivisor, exp, x, size - y)
    ensures Weight(size, sigmaDivisor, exp, x, y) == Weight(size, sigmaDivisor, exp, y, x)
  {
    var c := size as real / 2.0;
    var dx, dy := x as real - c, y as real - c;
    assert (-dx) * (-dx) == dx * dx;
    assert (-dy) * (-dy) == dy * dy;
    assert DistanceSquared(size, size - x, y) == DistanceSquared(size, x, y);
    assert DistanceSquared(size, x, size - y) == DistanceSquared(size, x, y);
    assert DistanceSquared(size, y, x) == DistanceSquared(size, x, y);
  }

  /** The channel total weighted by the mask, over the first |pixels| entries. */
  function WeightedSum(pixels: seq<Pixel>, weights: seq<real>, ch: Channel): real
    requires |pixels| <= |weights|
  {
    if pixels == [] then 0.0
    else
      var n := |pixels| - 1;
      WeightedSum(pixels[..n], weights, ch) + (Component(pixels[n], ch) as real) * weights[n]
  }

  /** `[r / total, g / total, b / total]` of `avg_rgb_with_mask`. */
  function MaskedAverage(pixels: seq<Pixel>, mask: GaussianMask): Color
    requires |pixels| <= |mask.weights| && mask.totalWeight != 0.0
  {
    Color(WeightedSum(pixels, mask.weights, Red) / mask.totalWeight,
          WeightedSum(pixels, mask.weights, Green) / mask.totalWeight,
          WeightedSum(pixels, mask.weights, Blue) / mask.totalWeight)
  }

  /**
   * `avg_rgb_with_mask` (src-tauri/src/lib.rs:158-174): pixel `i` is weighted by
   * mask entry `i`, so the image must have no more pixels than the mask has
   * weights (the source indexes `weights[i]` unchecked).
   */
  method AvgRgbWithMask(pixels: seq<Pixel>, mask: GaussianMask) returns (c: Color)
    requires |pixels| <= |mask.weights| && mask.totalWeight != 0.0
    ensures c == MaskedAverage(pixels, mask)
  {
    var r, g, b := 0.0, 0.0, 0.0;
    for i := 0 to |pixels|
      invariant r == WeightedSum(pixels[..i], mask.weights, Red)
      invariant g == WeightedSum(pixels[..i], mask.weights, Green)
      invariant b == WeightedSum(pixels[..i], mask.weights, Blue)
    {
      var weight := mask.weights[i];
      assert pixels[..i + 1][..i] == pixels[..i];
      r := r + (pixels[i].r as real) * weight;
      g := g + (pixels[i].g as real) * weight;
      b := b + (pixels[i].b as real) * weight;
    }
    assert pixels[..|pixels|] == pixels;
    var total := mask.totalWeight;
    c := Color(r / total, g / total, b / total);
  }

  /** The plain channel total of a pixel sequence. */
  function ChannelSum(pixels: seq<Pixel>, ch: Channel): real {
    if pixels == [] then 0.0
    else ChannelSum(pixels[..|pixels| - 1], ch) + (Component(pixels[|pixels| - 1], ch) as real)
  }

  lemma {:induction false} WeightedSumOfOnes(pixels: seq<Pixel>, weights: seq<real>, ch: Channel)
    requires |pixels| <= |weights|
    requires forall i :: 0 <= i < |weights| ==> weights[i] == 1.0
    ensures WeightedSum(pixels, weights, ch) == ChannelSum(pixels, ch)
  {
    if pixels != [] {
      WeightedSumOfOnes(pixels[..|pixels| - 1], weights, ch);
    }
  }

  /**
   * With `sigmaDivisor <= 0` the masked average of a full cell is the plain
   * per-channel mean of its pixels.
   */
  lemma {:induction false} UniformAverageIsMean(pixels: seq<Pixel>, size: nat, sigmaDivisor: real, exp: real -> real)
    requires sigmaDivisor <= 0.0 && size > 0 && |pixels| == size * size
    ensures var w := MaskWeights(size, sigmaDivisor, exp);
      var n := (size * size) as real;
      Total(w) == n &&
      MaskedAverage(pixels, GaussianMask(w, Total(w)))
        == Color(ChannelSum(pixels, Red) / n, ChannelSum(pixels, Green) / n, ChannelSum(pixels, Blue) / n)
  {
    var w := MaskWeights(size, sigmaDivisor, exp);
    UniformMask(size, sigmaDivisor, exp);
    WeightedSumOfOnes(pixels, w, Red);
    WeightedSumOfOnes(pixels, w, Green);
    WeightedSumOfOnes(pixels, w, Blue);
  }

  lemma {:induction false} WeightedSumBounds(pixels: seq<Pixel>, weights: seq<real>, ch: Channel)
    requires |pixels| <= |weights|
    requires forall i :: 0 <= i < |weights| ==> weights[i] >= 0.0
    ensures 0.0 <= WeightedSum(pixels, weights, ch) <= 255.0 * Total(weights[..|pixels|])
  {
    if pixels != [] {
      var n := |pixels| - 1;
      WeightedSumBounds(pixels[..n], weights, ch);
      assert weights[..n + 1][..n] == weights[..n];
      var v := Component(pixels[n], ch) as real;
      assert 0.0 <= v <= 255.0;
      ProductNonnegative(255.0 - v, weights[n]);
      ProductNonnegative(v, weights[n]);
    }
  }

  lemma ProductNonnegative(a: real, b: real)
    requires a >= 0.0 && b >= 0.0
    ensures a * b >= 0.0
  {
  }

  lemma {:induction false} QuotientBounds(s: real, t: real)
    requires t > 0.0 && 0.0 <= s <= 255.0 * t
    ensures 0.0 <= s / t <= 255.0
  {
  }

  /**
   * When the image fills the mask, every weight is positive and the total is
   * the sum of the weights (as `GaussianMask::new` guarantees), each channel
   * of the average lies in [0, 255].
   */
  lemma {:induction false} AverageInRange(pixels: seq<Pixel>, mask: GaussianMask)
    requires |pixels| == |mask.weights| > 0
    requires forall i :: 0 <= i < |mask.weights| ==> mask.weights[i] > 0.0
    requires mask.totalWeight == Total(mask.weights)
    ensures mask.totalWeight > 0.0
    ensures var c := MaskedAverage(pixels, mask);
      0.0 <= c.r <= 255.0 && 0.0 <= c.g <= 255.0 && 0.0 <= c.b <= 255.0
  {
    TotalOfPositive(mask.weights);
    assert mask.weights[..|pixels|] == mask.weights;
    WeightedSumBounds(pixels, mask.weights, Red);
    WeightedSumBounds(pixels, mask.weights, Green);
    WeightedSumBounds(pixels, mask.weights, Blue);
    QuotientBounds(WeightedSum(pixels, mask.weights, Red), mask.totalWeight);
    QuotientBounds(WeightedSum(pixels, mask.weights, Green), mask.totalWeight);
    QuotientBounds(WeightedSum(pixels, mask.weights, Blue), mask.totalWeight);
  }
}
