/** The bilinear resampler: every destination pixel blends the four source samples around
    its top-left-aligned coordinate; the right and bottom neighbours are clamped to the
    last column and row. */
module Bilinear {
  import opened Images
  import opened Coordinates

  function Min4(p: seq<real>): (m: real)
    requires |p| == 4
    ensures forall k :: 0 <= k < 4 ==> m <= p[k]
    ensures exists k :: 0 <= k < 4 && m == p[k]
  {
    var a := if p[0] <= p[1] then p[0] else p[1];
    var b := if p[2] <= p[3] then p[2] else p[3];
    if a <= b then a else b
  }

  function Max4(p: seq<real>): (m: real)
    requires |p| == 4
    ensures forall k :: 0 <= k < 4 ==> p[k] <= m
    ensures exists k :: 0 <= k < 4 && m == p[k]
  {
    var a := if p[0] >= p[1] then p[0] else p[1];
    var b := if p[2] >= p[3] then p[2] else p[3];
    if a >= b then a else b
  }

  /** The weights of p11, p21, p12 and p22 for the fractions dx, dy: none is negative
      and together they sum to one, and whole coordinates put all the weight on p11. */
  function BilinearWeights(dx: real, dy: real): (w: seq<real>)
    requires 0.0 <= dx <= 1.0 && 0.0 <= dy <= 1.0
    ensures |w| == 4
    ensures forall k :: 0 <= k < 4 ==> w[k] >= 0.0
    ensures w[0] + w[1] + w[2] + w[3] == 1.0
    ensures dx == 0.0 && dy == 0.0 ==> w == [1.0, 0.0, 0.0, 0.0]
  {
    var ex, ey := 1.0 - dx, 1.0 - dy;
    assert ex * ey >= 0.0 && dx * ey >= 0.0 && ex * dy >= 0.0 && dx * dy >= 0.0 by {
      WeightedAbove(ex, ey, 0.0);
      WeightedAbove(dx, ey, 0.0);
      WeightedAbove(ex, dy, 0.0);
      WeightedAbove(dx, dy, 0.0);
    }
    Distribute(ex, dx, ey);
    Distribute(ex, dx, dy);
    [ex * ey, dx * ey, ex * dy, dx * dy]
  }

  lemma {:induction false} Distribute(u: real, v: real, t: real)
    ensures u * t + v * t == (u + v) * t
  {
  }

  lemma {:induction false} WeightedAbove(w: real, v: real, lo: real)
    requires w >= 0.0 && lo <= v
    ensures w * lo <= w * v
  {
    assert w * (v - lo) >= 0.0;
  }

  lemma {:induction false} WeightedBelow(w: real, v: real, hi: real)
    requires w >= 0.0 && v <= hi
    ensures w * v <= w * hi
  {
    assert w * (hi - v) >= 0.0;
  }

  /** A combination with non-negative weights that sum to one lies between the least and
      the greatest of the combined values. */
  lemma {:induction false} ConvexCombinationBounds(w: seq<real>, p: seq<real>)
    requires |w| == 4 && |p| == 4
    requires forall k :: 0 <= k < 4 ==> w[k] >= 0.0
    requires w[0] + w[1] + w[2] + w[3] == 1.0
    ensures Min4(p) <= w[0] * p[0] + w[1] * p[1] + w[2] * p[2] + w[3] * p[3] <= Max4(p)
  {
    var lo, hi := Min4(p), Max4(p);
    PairBetween(w[0], w[1], p[0], p[1], lo, hi);
    PairBetween(w[2], w[3], p[2], p[3], lo, hi);
    assert (w[0] + w[1]) * lo + (w[2] + w[3]) * lo == lo;
    assert (w[0] + w[1]) * hi + (w[2] + w[3]) * hi == hi;
  }

  lemma {:induction false} PairBetween(w0: real, w1: real, p0: real, p1: real, lo: real, hi: real)
    requires w0 >= 0.0 && w1 >= 0.0 && lo <= p0 <= hi && lo <= p1 <= hi
    ensures (w0 + w1) * lo <= w0 * p0 + w1 * p1 <= (w0 + w1) * hi
  {
    PairAbove(w0, w1, p0, p1, lo);
    PairBelow(w0, w1, p0, p1, hi);
  }

  lemma {:induction false} PairAbove(w0: real, w1: real, p0: real, p1: real, lo: real)
    requires w0 >= 0.0 && w1 >= 0.0 && lo <= p0 && lo <= p1
    ensures (w0 + w1) * lo <= w0 * p0 + w1 * p1
  {
    WeightedAbove(w0, p0, lo);
    WeightedAbove(w1, p1, lo);
  }

  lemma {:induction false} PairBelow(w0: real, w1: real, p0: real, p1: real, hi: real)
    requires w0 >= 0.0 && w1 >= 0.0 && p0 <= hi && p1 <= hi
    ensures w0 * p0 + w1 * p1 <= (w0 + w1) * hi
  {
    WeightedBelow(w0, p0, hi);
    WeightedBelow(w1, p1, hi);
  }

  /** The four taps around the coordinate (x, y) of channel c, in the order
      [p11, p21, p12, p22]: (x1, y1), (x2, y1), (x1, y2), (x2, y2), where x2 and y2 are the
      next column and row, clamped to the last one. */
  function Taps(arr: array3<Byte>, c: nat, x: real, y: real): (p: seq<real>)
    requires c < arr.Length2
    requires 0.0 <= x < arr.Length1 as real && 0.0 <= y < arr.Length0 as real
    reads arr
    ensures |p| == 4
    ensures forall k :: 0 <= k < 4 ==> 0.0 <= p[k] <= 255.0
  {
    var x1, y1 := x.Floor, y.Floor;
    var x2 := Clamp(x1 + 1, 0, arr.Length1 - 1);
    var y2 := Clamp(y1 + 1, 0, arr.Length0 - 1);
    [arr[y1, x1, c] as real, arr[y1, x2, c] as real, arr[y2, x1, c] as real, arr[y2, x2, c] as real]
  }

  /** The blend of `bi_interpolation`: p11 (1 - dx)(1 - dy) + p21 dx (1 - dy) + p12 (1 - dx) dy
      + p22 dx dy. It lies between the least and the greatest tap, and zero fractions
      return p11. */
  function Blend(p: seq<real>, dx: real, dy: real): (r: real)
    requires |p| == 4 && 0.0 <= dx <= 1.0 && 0.0 <= dy <= 1.0
    ensures Min4(p) <= r <= Max4(p)
    ensures dx == 0.0 && dy == 0.0 ==> r == p[0]
  {
    var w := BilinearWeights(dx, dy);
    ConvexCombinationBounds(w, p);
    w[0] * p[0] + w[1] * p[1] + w[2] * p[2] + w[3] * p[3]
  }

  /** `bi_interpolation(arr, x, y)` at one point of the grid, on channel c: the blend of the
      four taps by the fractions of the coordinate. It lies between the least and the
      greatest tap, hence in [0, 255], and a whole coordinate returns the sample it falls on. */
  function BiInterpolation(arr: array3<Byte>, c: nat, x: real, y: real): (r: real)
    requires c < arr.Length2
    requires 0.0 <= x < arr.Length1 as real && 0.0 <= y < arr.Length0 as real
    reads arr
    ensures Min4(Taps(arr, c, x, y)) <= r <= Max4(Taps(arr, c, x, y))
    ensures 0.0 <= r <= 255.0
    ensures x == x.Floor as real && y == y.Floor as real ==> r == arr[y.Floor, x.Floor, c] as real
  {
    Blend(Taps(arr, c, x, y), x - x.Floor as real, y - y.Floor as real)
  }

  /** The height the resampler produces: the one asked for, or else the aspect-ratio one. */
  function TargetHeight(newWidth: nat, newHeight: Option<nat>, h: nat, w: nat): (r: nat)
    requires w >= 1
    ensures newHeight.Some? ==> r == newHeight.value
    ensures newHeight.None? ==> r * w <= newWidth * h < (r + 1) * w
  {
    match newHeight
    case Some(n) => n
    case None => AspectHeight(newWidth, h, w)
  }

  /** The uint8 sample written at destination pixel (i, j) of channel c. */
  function BilinearAt(img: array3<Byte>, newWidth: nat, newHeight: nat, i: nat, j: nat, c: nat): Byte
    requires img.Length0 >= 1 && img.Length1 >= 1 && c < img.Length2
    requires i < newHeight && j < newWidth
    reads img
  {
    SourceCoordInRange(j, img.Length1, newWidth);
    SourceCoordInRange(i, img.Length0, newHeight);
    TruncToByte(BiInterpolation(img, c, SourceCoord(j, img.Length1, newWidth), SourceCoord(i, img.Length0, newHeight)))
  }

  /** `out` is `resize_image_aspect_ratio(img, newWidth, newHeight)` for the resolved height. */
  ghost predicate IsBilinearResize(img: array3<Byte>, newWidth: nat, newHeight: nat, out: array3<Byte>)
    requires img.Length0 >= 1 && img.Length1 >= 1
    reads img, out
  {
    out.Length0 == newHeight && out.Length1 == newWidth && out.Length2 == img.Length2 &&
    forall i, j, c :: 0 <= i < newHeight && 0 <= j < newWidth && 0 <= c < out.Length2 ==>
      out[i, j, c] == BilinearAt(img, newWidth, newHeight, i, j, c)
  }

  /** One grid point: `x_grid[i, j] = j * x_ratio`, `y_grid[i, j] = i * y_ratio`, blended and
      stored as uint8. */
  method Sample(img: array3<Byte>, newWidth: nat, newHeight: nat, xRatio: real, yRatio: real, i: nat, j: nat, c: nat)
    returns (v: Byte)
    requires img.Length0 >= 1 && img.Length1 >= 1 && c < img.Length2
    requires i < newHeight && j < newWidth
    requires xRatio == Ratio(img.Length1, newWidth) && yRatio == Ratio(img.Length0, newHeight)
    ensures v == BilinearAt(img, newWidth, newHeight, i, j, c)
  {
    var x := j as real * xRatio;
    var y := i as real * yRatio;
    assert x == SourceCoord(j, img.Length1, newWidth);
    assert y == SourceCoord(i, img.Length0, newHeight);
    SourceCoordInRange(j, img.Length1, newWidth);
    SourceCoordInRange(i, img.Length0, newHeight);
    var r := BiInterpolation(img, c, x, y);
    v := TruncToByte(r);
  }

  /** One row of the vectorised assignment: row i of channel c of `out`, and nothing else. */
  method WriteRow(img: array3<Byte>, out: array3<Byte>, xRatio: real, yRatio: real, i: nat, c: nat)
    requires img.Length0 >= 1 && img.Length1 >= 1 && out.Length1 >= 1 && i < out.Length0
    requires c < img.Length2 && c < out.Length2 && out != img
    requires xRatio == Ratio(img.Length1, out.Length1) && yRatio == Ratio(img.Length0, out.Length0)
    modifies out
    ensures forall j :: 0 <= j < out.Length1 ==> out[i, j, c] == BilinearAt(img, out.Length1, out.Length0, i, j, c)
    ensures forall i', j, c' :: 0 <= i' < out.Length0 && 0 <= j < out.Length1 && 0 <= c' < out.Length2 && (i' != i || c' != c) ==>
      out[i', j, c'] == old(out[i', j, c'])
  {
    for j := 0 to out.Length1
      invariant forall j' :: 0 <= j' < j ==> out[i, j', c] == BilinearAt(img, out.Length1, out.Length0, i, j', c)
      invariant forall i', j', c' :: 0 <= i' < out.Length0 && 0 <= j' < out.Length1 && 0 <= c' < out.Length2 && (i' != i || c' != c) ==>
        out[i', j', c'] == old(out[i', j', c'])
    {
      var v := Sample(img, out.Length1, out.Length0, xRatio, yRatio, i, j, c);
      out[i, j, c] := v;
    }
  }

  /** `resized_image[..., c] = bi_interpolation(image[..., c], x_grid, y_grid)`: channel c of
      `out` receives the blended grid, truncated to uint8; the other channels keep their values. */
  method WriteChannel(img: array3<Byte>, out: array3<Byte>, c: nat)
    requires img.Length0 >= 1 && img.Length1 >= 1 && out.Length0 >= 1 && out.Length1 >= 1
    requires c < img.Length2 && c < out.Length2 && out != img
    modifies out
    ensures forall i, j :: 0 <= i < out.Length0 && 0 <= j < out.Length1 ==>
      out[i, j, c] == BilinearAt(img, out.Length1, out.Length0, i, j, c)
    ensures forall i, j, c' :: 0 <= i < out.Length0 && 0 <= j < out.Length1 && 0 <= c' < out.Length2 && c' != c ==>
      out[i, j, c'] == old(out[i, j, c'])
  {
    var xRatio := Ratio(img.Length1, out.Length1);
    var yRatio := Ratio(img.Length0, out.Length0);
    for i := 0 to out.Length0
      invariant forall i', j :: 0 <= i' < i && 0 <= j < out.Length1 ==>
        out[i', j, c] == BilinearAt(img, out.Length1, out.Length0, i', j, c)
      invariant forall i', j, c' :: 0 <= i' < out.Length0 && 0 <= j < out.Length1 && 0 <= c' < out.Length2 && c' != c ==>
        out[i', j, c'] == old(out[i', j, c'])
    {
      WriteRow(img, out, xRatio, yRatio, i, c);
    }
  }

  /** `resize_image_aspect_ratio(image, new_width, new_height)`: the height is the one given,
      or the aspect-ratio one when none is given; both ratios divide by a non-zero size. */
  method Resize(img: array3<Byte>, newWidth: nat, newHeight: Option<nat>) returns (out: array3<Byte>)
    requires img.Length0 >= 1 && img.Length1 >= 1 && newWidth >= 1
    requires TargetHeight(newWidth, newHeight, img.Length0, img.Length1) >= 1
    ensures fresh(out)
    ensures IsBilinearResize(img, newWidth, TargetHeight(newWidth, newHeight, img.Length0, img.Length1), out)
  {
    var h := TargetHeight(newWidth, newHeight, img.Length0, img.Length1);
    out := new Byte[h, newWidth, img.Length2]((i, j, c) => 0);
    for c := 0 to img.Length2
      modifies out
      invariant forall i, j, c' :: 0 <= i < h && 0 <= j < newWidth && 0 <= c' < c ==>
        out[i, j, c'] == BilinearAt(img, newWidth, h, i, j, c')
    {
      WriteChannel(img, out, c);
    }
  }

  /** Resizing to the source's own size returns the source exactly. */
  lemma {:induction false} BilinearIdentity(img: array3<Byte>, i: nat, j: nat, c: nat)
    requires i < img.Length0 && j < img.Length1 && c < img.Length2
    ensures BilinearAt(img, img.Length1, img.Length0, i, j, c) == img[i, j, c]
  {
    SourceCoordOfSameSize(j, img.Length1);
    SourceCoordOfSameSize(i, img.Length0);
    WholeSampleSurvivesCasts(img[i, j, c]);
  }

  /** A 1 x 1 source resizes to its one pixel everywhere: all four taps coincide. */
  lemma {:induction false} BilinearOfSinglePixel(img: array3<Byte>, newWidth: nat, newHeight: nat, i: nat, j: nat, c: nat)
    requires img.Length0 == 1 && img.Length1 == 1 && c < img.Length2
    requires i < newHeight && j < newWidth
    ensures BilinearAt(img, newWidth, newHeight, i, j, c) == img[0, 0, c]
  {
    SourceCoordInRange(j, 1, newWidth);
    SourceCoordInRange(i, 1, newHeight);
    var p := Taps(img, c, SourceCoord(j, 1, newWidth), SourceCoord(i, 1, newHeight));
    assert p == [img[0, 0, c] as real, img[0, 0, c] as real, img[0, 0, c] as real, img[0, 0, c] as real];
    WholeSampleSurvivesCasts(img[0, 0, c]);
  }

  /** An image whose samples all equal k resizes to all k, at any size. */
  lemma {:induction false} BilinearOfUniform(img: array3<Byte>, k: Byte, newWidth: nat, newHeight: nat, i: nat, j: nat, c: nat)
    requires img.Length0 >= 1 && img.Length1 >= 1 && c < img.Length2
    requires i < newHeight && j < newWidth
    requires Uniform(img, k)
    ensures BilinearAt(img, newWidth, newHeight, i, j, c) == k
  {
    SourceCoordInRange(j, img.Length1, newWidth);
    SourceCoordInRange(i, img.Length0, newHeight);
    var p := Taps(img, c, SourceCoord(j, img.Length1, newWidth), SourceCoord(i, img.Length0, newHeight));
    assert p == [k as real, k as real, k as real, k as real];
    WholeSampleSurvivesCasts(k);
  }

  /** Output channel c reads input channel c only: two sources of the same size that agree
      on channel c resize to the same samples on channel c. */
  lemma {:induction false} ChannelsIndependent(img: array3<Byte>, other: array3<Byte>, newWidth: nat, newHeight: nat,
                                               i: nat, j: nat, c: nat)
    requires img.Length0 >= 1 && img.Length1 >= 1 && c < img.Length2
    requires other.Length0 == img.Length0 && other.Length1 == img.Length1 && c < other.Length2
    requires forall y, x :: 0 <= y < img.Length0 && 0 <= x < img.Length1 ==> img[y, x, c] == other[y, x, c]
    requires i < newHeight && j < newWidth
    ensures BilinearAt(img, newWidth, newHeight, i, j, c) == BilinearAt(other, newWidth, newHeight, i, j, c)
  {
    SourceCoordInRange(j, img.Length1, newWidth);
    SourceCoordInRange(i, img.Length0, newHeight);
    var x, y := SourceCoord(j, img.Length1, newWidth), SourceCoord(i, img.Length0, newHeight);
    var p, q := Taps(img, c, x, y), Taps(other, c, x, y);
    assert p[0] == q[0] && p[1] == q[1] && p[2] == q[2] && p[3] == q[3];
    assert p == q;
  }
}
