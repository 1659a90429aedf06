/** The bicubic resampler: pad the source by 2, map every destination pixel to a padded
    coordinate, weight the surrounding 4 x 4 window with the Keys kernel, clip to uint8. */
module Bicubic {
  import opened Images
  import opened Kernel
  import opened Coordinates
  import opened Padding

  /** `np.dot` of two 4-vectors. */
  function Dot4(u: seq<real>, v: seq<real>): real
    requires |u| == 4 && |v| == 4
  {
    u[0] * v[0] + u[1] * v[1] + u[2] * v[2] + u[3] * v[3]
  }

  /** A 4 x 4 window of samples, row-major. */
  predicate IsWindow(m: seq<seq<real>>)
  {
    |m| == 4 && forall r :: 0 <= r < 4 ==> |m[r]| == 4
  }

  function Column(m: seq<seq<real>>, k: nat): (col: seq<real>)
    requires IsWindow(m) && k < 4
    ensures |col| == 4
  {
    [m[0][k], m[1][k], m[2][k], m[3][k]]
  }

  /** `np.dot(np.dot(wy, M), wx)`: the window weighted by wy along rows and wx along columns. */
  function Interp(wy: seq<real>, m: seq<seq<real>>, wx: seq<real>): (v: real)
    requires |wy| == 4 && |wx| == 4 && IsWindow(m)
    ensures wy == [0.0, 1.0, 0.0, 0.0] && wx == [0.0, 1.0, 0.0, 0.0] ==> v == m[1][1]
  {
    Dot4([Dot4(wy, Column(m, 0)), Dot4(wy, Column(m, 1)), Dot4(wy, Column(m, 2)), Dot4(wy, Column(m, 3))], wx)
  }

  /** A window whose samples all equal v, weighted by vectors that each sum to one, gives v. */
  lemma {:induction false} InterpOfUniformWindow(wy: seq<real>, m: seq<seq<real>>, wx: seq<real>, v: real)
    requires |wy| == 4 && |wx| == 4 && IsWindow(m)
    requires forall r, k :: 0 <= r < 4 && 0 <= k < 4 ==> m[r][k] == v
    requires wy[0] + wy[1] + wy[2] + wy[3] == 1.0 && wx[0] + wx[1] + wx[2] + wx[3] == 1.0
    ensures Interp(wy, m, wx) == v
  {
    forall k | 0 <= k < 4
      ensures Dot4(wy, Column(m, k)) == v
    {
      assert Column(m, k) == [v, v, v, v];
      assert Dot4(wy, [v, v, v, v]) == (wy[0] + wy[1] + wy[2] + wy[3]) * v;
    }
    assert Dot4([v, v, v, v], wx) == (wx[0] + wx[1] + wx[2] + wx[3]) * v;
  }

  function WindowRow(z: array3<real>, r: int, k0: int, c: int): (row: seq<real>)
    requires 0 <= r < z.Length0 && 0 <= k0 && k0 + 4 <= z.Length1 && 0 <= c < z.Length2
    reads z
    ensures |row| == 4
    ensures forall k :: 0 <= k < 4 ==> row[k] == z[r, k0 + k, c]
  {
    [z[r, k0, c], z[r, k0 + 1, c], z[r, k0 + 2, c], z[r, k0 + 3, c]]
  }

  /** `img[r0:r0+4, k0:k0+4, c]` on the padded buffer. */
  function Window(z: array3<real>, r0: int, k0: int, c: int): (m: seq<seq<real>>)
    requires 0 <= r0 && r0 + 4 <= z.Length0 && 0 <= k0 && k0 + 4 <= z.Length1 && 0 <= c < z.Length2
    reads z
    ensures IsWindow(m)
    ensures forall r, k :: 0 <= r < 4 && 0 <= k < 4 ==> m[r][k] == z[r0 + r, k0 + k, c]
  {
    [WindowRow(z, r0, k0, c), WindowRow(z, r0 + 1, k0, c), WindowRow(z, r0 + 2, k0, c), WindowRow(z, r0 + 3, k0, c)]
  }

  function PaddedRow(img: array3<Byte>, r: int, k0: int, c: int): (row: seq<real>)
    requires img.Length0 >= 1 && img.Length1 >= 1 && 0 <= c < img.Length2
    reads img
    ensures |row| == 4
  {
    [PadAt(img, r, k0, c), PadAt(img, r, k0 + 1, c), PadAt(img, r, k0 + 2, c), PadAt(img, r, k0 + 3, c)]
  }

  /** The same 4 x 4 window read from the border extension of the source itself. */
  function PaddedWindow(img: array3<Byte>, r0: int, k0: int, c: int): (m: seq<seq<real>>)
    requires img.Length0 >= 1 && img.Length1 >= 1 && 0 <= c < img.Length2
    reads img
    ensures IsWindow(m)
  {
    [PaddedRow(img, r0, k0, c), PaddedRow(img, r0 + 1, k0, c), PaddedRow(img, r0 + 2, k0, c), PaddedRow(img, r0 + 3, k0, c)]
  }

  lemma {:induction false} WindowOfPadding(z: array3<real>, img: array3<Byte>, r0: int, k0: int, c: int)
    requires IsPaddingOf(z, img)
    requires 0 <= r0 && r0 + 4 <= z.Length0 && 0 <= k0 && k0 + 4 <= z.Length1 && 0 <= c < z.Length2
    ensures Window(z, r0, k0, c) == PaddedWindow(img, r0, k0, c)
  {
  }

  /** For every destination pixel the padded coordinate's floor lies in [2, size + 1],
      so the slice `[floor - 1, floor + 3)` lies inside the (size + 4)-long padded axis. */
  lemma {:induction false} WindowInsidePadded(k: nat, src: nat, dst: nat)
    requires k < dst && src >= 1
    ensures 2 <= (SourceCoord(k, src, dst) + 2.0).Floor <= src + 1
    ensures 0 <= (SourceCoord(k, src, dst) + 2.0).Floor - 1 && (SourceCoord(k, src, dst) + 2.0).Floor + 3 <= src + 4
  {
    SourceCoordInRange(k, src, dst);
  }

  /** The unclipped value the resampler computes for destination pixel (i, j) of channel c. */
  function BicubicAt(img: array3<Byte>, a: real, newWidth: nat, i: nat, j: nat, c: nat): real
    requires img.Length0 >= 1 && img.Length1 >= 1 && c < img.Length2 && newWidth >= 1
    requires AspectHeight(newWidth, img.Length0, img.Length1) >= 1
    reads img
  {
    var x := SourceCoord(j, img.Length1, newWidth) + 2.0;
    var y := SourceCoord(i, img.Length0, AspectHeight(newWidth, img.Length0, img.Length1)) + 2.0;
    var wx := CubicWeights(x - x.Floor as real, a);
    var wy := CubicWeights(y - y.Floor as real, a);
    Interp(wy, PaddedWindow(img, y.Floor - 1, x.Floor - 1, c), wx)
  }

  /** `out` is what `bicubic(img, newWidth, a)` returns: the aspect-ratio shape, and every
      sample the clipped, truncated bicubic value. */
  ghost predicate IsBicubicResize(img: array3<Byte>, a: real, newWidth: nat, out: array3<Byte>)
    requires img.Length0 >= 1 && img.Length1 >= 1 && newWidth >= 1
    requires AspectHeight(newWidth, img.Length0, img.Length1) >= 1
    reads img, out
  {
    out.Length0 == AspectHeight(newWidth, img.Length0, img.Length1) &&
    out.Length1 == newWidth && out.Length2 == img.Length2 &&
    forall i, j, c :: 0 <= i < out.Length0 && 0 <= j < out.Length1 && 0 <= c < out.Length2 ==>
      out[i, j, c] == ClipToByte(BicubicAt(img, a, newWidth, i, j, c))
  }

  /** The statements of the resampler's inner loop, read off the padded buffer, compute
      exactly `BicubicAt`: the window they slice lies inside the buffer and equals the
      window of the border extension. */
  lemma {:induction false} PixelOfPadding(z: array3<real>, img: array3<Byte>, a: real, newWidth: nat,
                                          hx: real, hy: real, i: nat, j: nat, c: nat, x: real, y: real)
    requires IsPaddingOf(z, img) && c < img.Length2 && newWidth >= 1 && j < newWidth
    requires img.Length0 >= 1 && img.Length1 >= 1
    requires i < AspectHeight(newWidth, img.Length0, img.Length1)
    requires hx == img.Length1 as real / newWidth as real
    requires hy == img.Length0 as real / AspectHeight(newWidth, img.Length0, img.Length1) as real
    requires x == j as real * hx + 2.0 && y == i as real * hy + 2.0
    ensures 0 <= y.Floor - 1 && y.Floor + 3 <= z.Length0 && 0 <= x.Floor - 1 && x.Floor + 3 <= z.Length1
    ensures Interp(CubicWeights(y - y.Floor as real, a), Window(z, y.Floor - 1, x.Floor - 1, c),
                   CubicWeights(x - x.Floor as real, a)) == BicubicAt(img, a, newWidth, i, j, c)
  {
    var h, w := img.Length0, img.Length1;
    var nh := AspectHeight(newWidth, h, w);
    assert x == SourceCoord(j, w, newWidth) + 2.0;
    assert y == SourceCoord(i, h, nh) + 2.0;
    WindowInsidePadded(j, w, newWidth);
    WindowInsidePadded(i, h, nh);
    WindowOfPadding(z, img, y.Floor - 1, x.Floor - 1, c);
  }

  /** `np.clip(result, 0, 255).astype(np.uint8)` over the whole float buffer. */
  method ClipToBytes(result: array3<real>) returns (out: array3<Byte>)
    ensures fresh(out)
    ensures out.Length0 == result.Length0 && out.Length1 == result.Length1 && out.Length2 == result.Length2
    ensures forall i, j, c :: 0 <= i < out.Length0 && 0 <= j < out.Length1 && 0 <= c < out.Length2 ==>
      out[i, j, c] == ClipToByte(result[i, j, c])
  {
    out := new Byte[result.Length0, result.Length1, result.Length2];
    for i := 0 to result.Length0
      invariant forall i', j, c :: 0 <= i' < i && 0 <= j < out.Length1 && 0 <= c < out.Length2 ==>
        out[i', j, c] == ClipToByte(result[i', j, c])
    {
      for j := 0 to result.Length1
        invariant forall i', j', c ::
          0 <= i' < out.Length0 && 0 <= j' < out.Length1 && 0 <= c < out.Length2 && (i' < i || (i' == i && j' < j)) ==>
            out[i', j', c] == ClipToByte(result[i', j', c])
      {
        for c := 0 to result.Length2
          invariant forall i', j', c' ::
            0 <= i' < out.Length0 && 0 <= j' < out.Length1 && 0 <= c' < out.Length2 &&
            (i' < i || (i' == i && j' < j) || (i' == i && j' == j && c' < c)) ==>
              out[i', j', c'] == ClipToByte(result[i', j', c'])
        {
          out[i, j, c] := ClipToByte(result[i, j, c]);
        }
      }
    }
  }

  /** One pass of the innermost loop body: the padded coordinate, its floor and fraction,
      the two weight vectors and the 4 x 4 slice, combined by `np.dot`. Whatever the
      sharpness, the value is the one `BicubicAt` defines on the source itself. */
  method Sample(padded: array3<real>, img: array3<Byte>, a: real, newWidth: nat, hx: real, hy: real,
                i: nat, j: nat, c: nat) returns (v: real)
    requires IsPaddingOf(padded, img) && c < img.Length2 && newWidth >= 1 && j < newWidth
    requires img.Length0 >= 1 && img.Length1 >= 1
    requires i < AspectHeight(newWidth, img.Length0, img.Length1)
    requires hx == img.Length1 as real / newWidth as real
    requires hy == img.Length0 as real / AspectHeight(newWidth, img.Length0, img.Length1) as real
    ensures v == BicubicAt(img, a, newWidth, i, j, c)
  {
    var x := j as real * hx + 2.0;
    var y := i as real * hy + 2.0;
    PixelOfPadding(padded, img, a, newWidth, hx, hy, i, j, c, x, y);
    var xFloor := x.Floor;
    var yFloor := y.Floor;
    var xDiff := x - xFloor as real;
    var yDiff := y - yFloor as real;
    var wx := CubicWeights(xDiff, a);
    var wy := CubicWeights(yDiff, a);
    var m := Window(padded, yFloor - 1, xFloor - 1, c);
    v := Interp(wy, m, wx);
  }

  /** The innermost loop: row i of channel c of the float buffer, and nothing else. */
  method FillRow(padded: array3<real>, img: array3<Byte>, a: real, newWidth: nat, hx: real, hy: real,
                 result: array3<real>, i: nat, c: nat)
    requires IsPaddingOf(padded, img) && c < img.Length2 && newWidth >= 1
    requires img.Length0 >= 1 && img.Length1 >= 1
    requires i < AspectHeight(newWidth, img.Length0, img.Length1)
    requires hx == img.Length1 as real / newWidth as real
    requires hy == img.Length0 as real / AspectHeight(newWidth, img.Length0, img.Length1) as real
    requires result != padded && i < result.Length0 && result.Length1 == newWidth && c < result.Length2
    modifies result
    ensures forall j :: 0 <= j < newWidth ==> result[i, j, c] == BicubicAt(img, a, newWidth, i, j, c)
    ensures forall i', j, c' :: 0 <= i' < result.Length0 && 0 <= j < result.Length1 && 0 <= c' < result.Length2 && (i' != i || c' != c) ==>
      result[i', j, c'] == old(result[i', j, c'])
  {
    for j := 0 to newWidth
      invariant forall j' :: 0 <= j' < j ==> result[i, j', c] == BicubicAt(img, a, newWidth, i, j', c)
      invariant forall i', j', c' :: 0 <= i' < result.Length0 && 0 <= j' < result.Length1 && 0 <= c' < result.Length2 && (i' != i || c' != c) ==>
        result[i', j', c'] == old(result[i', j', c'])
    {
      var v := Sample(padded, img, a, newWidth, hx, hy, i, j, c);
      result[i, j, c] := v;
    }
  }

  /** The middle loop: every row of channel c of the float buffer, and nothing else. */
  method FillChannel(padded: array3<real>, img: array3<Byte>, a: real, newWidth: nat, hx: real, hy: real,
                     result: array3<real>, c: nat)
    requires IsPaddingOf(padded, img) && c < img.Length2 && newWidth >= 1
    requires img.Length0 >= 1 && img.Length1 >= 1 && AspectHeight(newWidth, img.Length0, img.Length1) >= 1
    requires hx == img.Length1 as real / newWidth as real
    requires hy == img.Length0 as real / AspectHeight(newWidth, img.Length0, img.Length1) as real
    requires result != padded && result.Length0 == AspectHeight(newWidth, img.Length0, img.Length1)
    requires result.Length1 == newWidth && c < result.Length2
    modifies result
    ensures forall i, j :: 0 <= i < result.Length0 && 0 <= j < newWidth ==>
      result[i, j, c] == BicubicAt(img, a, newWidth, i, j, c)
    ensures forall i, j, c' :: 0 <= i < result.Length0 && 0 <= j < result.Length1 && 0 <= c' < result.Length2 && c' != c ==>
      result[i, j, c'] == old(result[i, j, c'])
  {
    for i := 0 to result.Length0
      invariant forall i', j :: 0 <= i' < i && 0 <= j < newWidth ==>
        result[i', j, c] == BicubicAt(img, a, newWidth, i', j, c)
      invariant forall i', j, c' :: 0 <= i' < result.Length0 && 0 <= j < result.Length1 && 0 <= c' < result.Length2 && c' != c ==>
        result[i', j, c'] == old(result[i', j, c'])
    {
      FillRow(padded, img, a, newWidth, hx, hy, result, i, c);
    }
  }

  /** `bicubic(img, new_width, a)`: the height follows the aspect ratio; every destination
      sample of every channel is the kernel-weighted 4 x 4 window of the padded source,
      clipped to [0, 255] and truncated to uint8. */
  method Bicubic(img: array3<Byte>, newWidth: nat, a: real) returns (out: array3<Byte>)
    requires img.Length0 >= 1 && img.Length1 >= 1 && newWidth >= 1
    requires AspectHeight(newWidth, img.Length0, img.Length1) >= 1
    ensures fresh(out)
    ensures IsBicubicResize(img, a, newWidth, out)
  {
    var h, w, channels := img.Length0, img.Length1, img.Length2;
    var newHeight := newWidth * h / w;
    var padded := Pad(img);
    var result := new real[newHeight, newWidth, channels]((i, j, c) => 0.0);
    var hx := w as real / newWidth as real;
    var hy := h as real / newHeight as real;
    for c := 0 to channels
      modifies result
      invariant forall i, j, c' :: 0 <= i < newHeight && 0 <= j < newWidth && 0 <= c' < c ==>
        result[i, j, c'] == BicubicAt(img, a, newWidth, i, j, c')
    {
      FillChannel(padded, img, a, newWidth, hx, hy, result, c);
    }
    out := ClipToBytes(result);
  }

  /** Resizing to the source's own width returns the source exactly: the coordinates are
      whole, the weights are [0, 1, 0, 0], and clipping a uint8 sample changes nothing. */
  lemma {:induction false} BicubicIdentity(img: array3<Byte>, a: real, i: nat, j: nat, c: nat)
    requires img.Length0 >= 1 && img.Length1 >= 1
    requires i < img.Length0 && j < img.Length1 && c < img.Length2
    ensures AspectHeight(img.Length1, img.Length0, img.Length1) == img.Length0
    ensures ClipToByte(BicubicAt(img, a, img.Length1, i, j, c)) == img[i, j, c]
  {
    var h, w := img.Length0, img.Length1;
    AspectHeightOfSameWidth(h, w);
    SourceCoordOfSameSize(j, w);
    SourceCoordOfSameSize(i, h);
    var x := SourceCoord(j, w, w) + 2.0;
    var y := SourceCoord(i, h, h) + 2.0;
    assert x.Floor == j + 2 && y.Floor == i + 2;
    var m := PaddedWindow(img, i + 1, j + 1, c);
    assert m[1][1] == img[i, j, c] as real;
    WholeSampleSurvivesCasts(img[i, j, c]);
  }

  /** The clip before the cast is needed: with the default sharpness, a 4-column source
      whose every row reads 255, 0, 0, 255 in channel c, resized to width 8, gives
      destination column 3 an unclipped value below 0 (the negative lobes weigh the two
      bright outer samples negatively), which only the clip turns into the sample 0. */
  lemma {:induction false} ClipIsNeeded(img: array3<Byte>, i: nat, c: nat)
    requires img.Length0 >= 1 && img.Length1 == 4 && c < img.Length2
    requires i < AspectHeight(8, img.Length0, 4)
    requires forall r :: 0 <= r < img.Length0 ==>
      img[r, 0, c] == 255 && img[r, 1, c] == 0 && img[r, 2, c] == 0 && img[r, 3, c] == 255
    ensures BicubicAt(img, DefaultSharpness, 8, i, 3, c) < 0.0
    ensures ClipToByte(BicubicAt(img, DefaultSharpness, 8, i, 3, c)) == 0
  {
    var h := img.Length0;
    var nh := AspectHeight(8, h, 4);
    var x := SourceCoord(3, 4, 8) + 2.0;
    assert x == 3.5;
    assert x.Floor == 3;
    var y := SourceCoord(i, h, nh) + 2.0;
    WindowInsidePadded(i, h, nh);
    var row := [255.0, 0.0, 0.0, 255.0];
    var m := PaddedWindow(img, y.Floor - 1, 2, c);
    forall r | 0 <= r < 4
      ensures m[r] == row
    {
      var src := Clamp(y.Floor - 1 + r - 2, 0, h - 1);
      assert m[r] == PaddedRow(img, y.Floor - 1 + r, 2, c);
      assert PaddedRow(img, y.Floor - 1 + r, 2, c) ==
        [img[src, 0, c] as real, img[src, 1, c] as real, img[src, 2, c] as real, img[src, 3, c] as real];
    }
    var wy := CubicWeights(y - y.Floor as real, DefaultSharpness);
    var wx := CubicWeights(x - x.Floor as real, DefaultSharpness);
    NegativeLobe();
    assert wx == [-0.0625, 0.5625, 0.5625, -0.0625];
    forall k | 0 <= k < 4
      ensures Dot4(wy, Column(m, k)) == row[k]
    {
      assert Column(m, k) == [row[k], row[k], row[k], row[k]];
      assert Dot4(wy, [row[k], row[k], row[k], row[k]]) == (wy[0] + wy[1] + wy[2] + wy[3]) * row[k];
    }
    assert Interp(wy, m, wx) == Dot4(row, wx);
  }

  /** A constant image resamples to the same constant, at any width. */
  lemma {:induction false} BicubicOfUniform(img: array3<Byte>, k: Byte, a: real, newWidth: nat, i: nat, j: nat, c: nat)
    requires img.Length0 >= 1 && img.Length1 >= 1 && c < img.Length2 && newWidth >= 1
    requires AspectHeight(newWidth, img.Length0, img.Length1) >= 1
    requires Uniform(img, k)
    ensures ClipToByte(BicubicAt(img, a, newWidth, i, j, c)) == k
  {
    var x := SourceCoord(j, img.Length1, newWidth) + 2.0;
    var y := SourceCoord(i, img.Length0, AspectHeight(newWidth, img.Length0, img.Length1)) + 2.0;
    var m := PaddedWindow(img, y.Floor - 1, x.Floor - 1, c);
    InterpOfUniformWindow(CubicWeights(y - y.Floor as real, a), m, CubicWeights(x - x.Floor as real, a), k as real);
    WholeSampleSurvivesCasts(k);
  }
}
