/** The round-trip harness of both resamplers: resize forward to a new width and back to
    the original width a number of times, measure the error against the original, then
    resize the cycled image forward once more. */
module RoundTrip {
  import opened Images
  import opened Coordinates
  import Kernel
  import Bicubic
  import Bilinear

  // ---------------------------------------------------------------------------------
  // Per-sample differences

  /** |a - b| on whole numbers: zero exactly when the samples agree. */
  function AbsDiff(a: Byte, b: Byte): (d: nat)
    ensures d == 0 <==> a == b
    ensures d <= 255
    ensures d == a - b || d == b - a
  {
    if a >= b then a - b else b - a
  }

  /** (a - b)^2 on whole numbers: zero exactly when the samples agree. */
  function SquaredDiff(a: Byte, b: Byte): (d: nat)
    ensures d == 0 <==> a == b
    ensures d <= 255 * 255
  {
    var e := AbsDiff(a, b);
    SquareBounds(e);
    e * e
  }

  lemma {:induction false} SquareBounds(e: nat)
    requires e <= 255
    ensures e * e <= 255 * 255
    ensures e * e == 0 <==> e == 0
  {
    MulMonotone(e, 255, e);
    MulMonotone(e, 255, 255);
    if e >= 1 {
      MulMonotone(1, e, e);
    }
  }

  lemma {:induction false} MulMonotone(a: nat, b: nat, c: nat)
    requires a <= b
    ensures a * c <= b * c
  {
    assert b * c == a * c + (b - a) * c;
  }

  lemma {:induction false} DiffsSymmetric(a: Byte, b: Byte)
    ensures AbsDiff(a, b) == AbsDiff(b, a)
    ensures SquaredDiff(a, b) == SquaredDiff(b, a)
  {
    assert AbsDiff(a, b) == AbsDiff(b, a);
  }

  /** `a - b` on two uint8 arrays: the difference wraps modulo 256. */
  function WrappedDiff(a: Byte, b: Byte): (d: Byte)
    ensures (b + d) % 256 == a
  {
    (a - b) % 256
  }

  /** `np.abs` of a uint8 difference is the difference itself. */
  function WrappedAbsDiff(a: Byte, b: Byte): (d: Byte)
    ensures a >= b ==> d == a - b
    ensures a < b ==> d == 256 - (b - a)
  {
    WrappedDiff(a, b)
  }

  /** `(a - b) ** 2` on uint8: the wrapped difference, squared, wrapped again. That is the
      true square wrapped once, and it vanishes exactly when the samples differ by a
      multiple of 16. */
  function WrappedSquaredDiff(a: Byte, b: Byte): (d: Byte)
    ensures d == ((a - b) * (a - b)) % 256
    ensures d == 0 <==> (a - b) % 16 == 0
  {
    var e := WrappedDiff(a, b);
    WrapSquare(a - b, e);
    SquareMod256(a - b);
    (e * e) % 256
  }

  /** Squaring commutes with wrapping modulo 256. */
  lemma {:induction false} WrapSquare(t: int, e: int)
    requires e == t % 256
    ensures (e * e) % 256 == (t * t) % 256
  {
    var q := t / 256;
    assert t == 256 * q + e;
    var k := 256 * q * q + 2 * q * e;
    assert t * t == 256 * k + e * e;
    AddMultiple(k, e * e);
  }

  /** Adding a multiple of 256 leaves the residue unchanged. */
  lemma {:induction false} AddMultiple(k: int, x: int)
    ensures (256 * k + x) % 256 == x % 256
  {
    assert 256 * k + x == 256 * (k + x / 256) + x % 256;
  }

  /** A square is a multiple of 256 exactly when its root is a multiple of 16: a root with
      fewer than four factors of two squares to fewer than eight. Each step below strips one
      factor of two from the root and two from the square. */
  lemma {:induction false} SquareMod256(t: int)
    ensures (t * t) % 256 == 0 <==> t % 16 == 0
  {
    if t % 2 == 1 {
      OddSquare(t);
      OddIsNoMultiple(t * t);
      OddIsNoMultiple(t);
    } else {
      var h := t / 2;
      assert t == 2 * h;
      assert t * t == 4 * (h * h);
      Times4Mod256(h * h);
      Times2Mod16(h);
      SquareMod64(h);
    }
  }

  lemma {:induction false} SquareMod64(t: int)
    ensures (t * t) % 64 == 0 <==> t % 8 == 0
  {
    if t % 2 == 1 {
      OddSquare(t);
      OddIsNoMultiple(t * t);
      OddIsNoMultiple(t);
    } else {
      var h := t / 2;
      assert t == 2 * h;
      assert t * t == 4 * (h * h);
      Times4Mod64(h * h);
      Times2Mod8(h);
      SquareMod16(h);
    }
  }

  lemma {:induction false} SquareMod16(t: int)
    ensures (t * t) % 16 == 0 <==> t % 4 == 0
  {
    if t % 2 == 1 {
      OddSquare(t);
      OddIsNoMultiple(t * t);
      OddIsNoMultiple(t);
    } else {
      var h := t / 2;
      assert t == 2 * h;
      assert t * t == 4 * (h * h);
      Times4Mod16(h * h);
      Times2Mod4(h);
      SquareMod4(h);
    }
  }

  lemma {:induction false} SquareMod4(t: int)
    ensures (t * t) % 4 == 0 <==> t % 2 == 0
  {
    if t % 2 == 1 {
      OddSquare(t);
      OddIsNoMultiple(t * t);
    } else {
      var h := t / 2;
      assert t == 2 * h;
      assert t * t == 4 * (h * h);
      Times4Mod4(h * h);
    }
  }

  /** Scaling a number by 4 or 2 scales its remainder, for the moduli of the steps above. */
  lemma {:induction false} Times4Mod256(y: int)
    ensures (4 * y) % 256 == 4 * (y % 64)
  {
    assert 4 * y == 256 * (y / 64) + 4 * (y % 64);
  }

  lemma {:induction false} Times4Mod64(y: int)
    ensures (4 * y) % 64 == 4 * (y % 16)
  {
    assert 4 * y == 64 * (y / 16) + 4 * (y % 16);
  }

  lemma {:induction false} Times4Mod16(y: int)
    ensures (4 * y) % 16 == 4 * (y % 4)
  {
    assert 4 * y == 16 * (y / 4) + 4 * (y % 4);
  }

  lemma {:induction false} Times4Mod4(y: int)
    ensures (4 * y) % 4 == 0
  {
    assert 4 * y == 4 * y + 0;
  }

  lemma {:induction false} Times2Mod16(h: int)
    ensures (2 * h) % 16 == 2 * (h % 8)
  {
    assert 2 * h == 16 * (h / 8) + 2 * (h % 8);
  }

  lemma {:induction false} Times2Mod8(h: int)
    ensures (2 * h) % 8 == 2 * (h % 4)
  {
    assert 2 * h == 8 * (h / 4) + 2 * (h % 4);
  }

  lemma {:induction false} Times2Mod4(h: int)
    ensures (2 * h) % 4 == 2 * (h % 2)
  {
    assert 2 * h == 4 * (h / 2) + 2 * (h % 2);
  }

  /** An odd number is a multiple of no even modulus. */
  lemma {:induction false} OddIsNoMultiple(x: int)
    requires x % 2 == 1
    ensures x % 256 != 0 && x % 64 != 0 && x % 16 != 0 && x % 8 != 0 && x % 4 != 0
  {
  }

  /** The square of an odd number is odd. */
  lemma {:induction false} OddSquare(o: int)
    requires o % 2 == 1
    ensures (o * o) % 2 == 1
  {
    var k := o / 2;
    assert o * o == 2 * (2 * k * k + 2 * k) + 1;
  }

  /** The wrapped absolute difference agrees with |a - b| exactly when a >= b, or when b
      exceeds a by exactly 128. */
  lemma {:induction false} WrappedAbsDiffAgreement(a: Byte, b: Byte)
    ensures WrappedAbsDiff(a, b) == AbsDiff(a, b) <==> a >= b || b - a == 128
  {
    if a < b {
      assert WrappedAbsDiff(a, b) == 256 - (b - a);
      assert AbsDiff(a, b) == b - a;
    }
  }

  /** A reconstruction one level brighter than the original counts as an error of 255. */
  lemma WrappedAbsDiffCounterexample()
    ensures WrappedAbsDiff(0, 1) == 255 && AbsDiff(0, 1) == 1
  {
  }

  /** A difference of 16 squares to 256, which wraps to 0: the error disappears. */
  lemma WrappedSquaredDiffCounterexample()
    ensures WrappedSquaredDiff(16, 0) == 0 && SquaredDiff(16, 0) == 256
  {
  }

  // ---------------------------------------------------------------------------------
  // Error sums over an image

  datatype Metric = Absolute | Squared

  function Diff(m: Metric, a: Byte, b: Byte): (d: nat)
    ensures d == 0 <==> a == b
  {
    match m
    case Absolute => AbsDiff(a, b)
    case Squared => SquaredDiff(a, b)
  }

  /** numpy broadcasting of `cur` against the original: equal shapes, or a single row of
      `cur` repeated down every row of the original. */
  predicate Broadcastable(img: array3<Byte>, cur: array3<Byte>)
  {
    cur.Length1 == img.Length1 && cur.Length2 == img.Length2 &&
    (cur.Length0 == img.Length0 || cur.Length0 == 1)
  }

  /** The row of `cur` that row i of the original is compared with. */
  function RowOf(cur: array3<Byte>, i: nat): nat
  {
    if cur.Length0 == 1 then 0 else i
  }

  /** Every sample of the original equals the broadcast sample of `cur`. */
  ghost predicate Matches(img: array3<Byte>, cur: array3<Byte>)
    requires Broadcastable(img, cur)
    reads img, cur
  {
    forall i, j, c :: 0 <= i < img.Length0 && 0 <= j < img.Length1 && 0 <= c < img.Length2 ==>
      img[i, j, c] == cur[RowOf(cur, i), j, c]
  }

  /** The differences of pixel (i, j) over channels [0, c). */
  function PixelSum(img: array3<Byte>, cur: array3<Byte>, m: Metric, i: nat, j: nat, c: nat): nat
    requires Broadcastable(img, cur) && i < img.Length0 && j < img.Length1 && c <= img.Length2
    reads img, cur
    decreases c
  {
    if c == 0 then 0
    else PixelSum(img, cur, m, i, j, c - 1) + Diff(m, img[i, j, c - 1], cur[RowOf(cur, i), j, c - 1])
  }

  /** The differences of row i over columns [0, j). */
  function RowSum(img: array3<Byte>, cur: array3<Byte>, m: Metric, i: nat, j: nat): nat
    requires Broadcastable(img, cur) && i < img.Length0 && j <= img.Length1
    reads img, cur
    decreases j
  {
    if j == 0 then 0
    else RowSum(img, cur, m, i, j - 1) + PixelSum(img, cur, m, i, j - 1, img.Length2)
  }

  /** The differences over rows [0, i). */
  function ErrorSum(img: array3<Byte>, cur: array3<Byte>, m: Metric, i: nat): nat
    requires Broadcastable(img, cur) && i <= img.Length0
    reads img, cur
    decreases i
  {
    if i == 0 then 0
    else ErrorSum(img, cur, m, i - 1) + RowSum(img, cur, m, i - 1, img.Length1)
  }

  lemma {:induction false} PixelSumZeroIff(img: array3<Byte>, cur: array3<Byte>, m: Metric, i: nat, j: nat, c: nat)
    requires Broadcastable(img, cur) && i < img.Length0 && j < img.Length1 && c <= img.Length2
    ensures PixelSum(img, cur, m, i, j, c) == 0 <==> forall k :: 0 <= k < c ==> img[i, j, k] == cur[RowOf(cur, i), j, k]
    decreases c
  {
    if c > 0 {
      PixelSumZeroIff(img, cur, m, i, j, c - 1);
    }
  }

  lemma {:induction false} RowSumZeroIff(img: array3<Byte>, cur: array3<Byte>, m: Metric, i: nat, j: nat)
    requires Broadcastable(img, cur) && i < img.Length0 && j <= img.Length1
    ensures RowSum(img, cur, m, i, j) == 0 <==>
      forall y, k :: 0 <= y < j && 0 <= k < img.Length2 ==> img[i, y, k] == cur[RowOf(cur, i), y, k]
    decreases j
  {
    if j > 0 {
      RowSumZeroIff(img, cur, m, i, j - 1);
      PixelSumZeroIff(img, cur, m, i, j - 1, img.Length2);
    }
  }

  lemma {:induction false} ErrorSumZeroIff(img: array3<Byte>, cur: array3<Byte>, m: Metric, i: nat)
    requires Broadcastable(img, cur) && i <= img.Length0
    ensures ErrorSum(img, cur, m, i) == 0 <==>
      forall x, y, k :: 0 <= x < i && 0 <= y < img.Length1 && 0 <= k < img.Length2 ==>
        img[x, y, k] == cur[RowOf(cur, x), y, k]
    decreases i
  {
    if i > 0 {
      ErrorSumZeroIff(img, cur, m, i - 1);
      RowSumZeroIff(img, cur, m, i - 1, img.Length1);
    }
  }

  /** The sums behind the error metrics of the harness; the mean absolute error is
      `absolute / samples`. */
  datatype ErrorReport = ErrorReport(absolute: nat, squared: nat, samples: nat)

  /** The error of `cur` against the original, over the broadcast H x W x C shape: either
      sum is zero exactly when the two images agree sample for sample. */
  function Measure(img: array3<Byte>, cur: array3<Byte>): (r: ErrorReport)
    requires Broadcastable(img, cur)
    reads img, cur
    ensures r.samples == img.Length0 * img.Length1 * img.Length2
    ensures r.absolute == 0 <==> Matches(img, cur)
    ensures r.squared == 0 <==> Matches(img, cur)
  {
    ErrorSumZeroIff(img, cur, Absolute, img.Length0);
    ErrorSumZeroIff(img, cur, Squared, img.Length0);
    ErrorReport(ErrorSum(img, cur, Absolute, img.Length0), ErrorSum(img, cur, Squared, img.Length0),
                img.Length0 * img.Length1 * img.Length2)
  }

  /** `np.mean(absolute_error)`: non-negative, and zero exactly when the sum is. */
  function MeanAbsoluteError(r: ErrorReport): (e: real)
    requires r.samples >= 1
    ensures e >= 0.0
    ensures e == 0.0 <==> r.absolute == 0
  {
    r.absolute as real / r.samples as real
  }

  // ---------------------------------------------------------------------------------
  // Heights along the bicubic cycles

  lemma {:induction false} ScaledBelow(b: nat, h: nat, n: nat)
    requires n >= 1 && b * n <= h * n
    ensures b <= h
  {
  }

  /** The height after one bicubic cycle from height h: forward to newWidth (aspect height),
      then back to width w (aspect height again). Flooring twice never gains a row. */
  function CycleHeight(h: nat, w: nat, newWidth: nat): (r: nat)
    requires w >= 1 && newWidth >= 1
    ensures r <= h
  {
    var forward := AspectHeight(newWidth, h, w);
    var back := AspectHeight(w, forward, newWidth);
    assert back * newWidth <= w * forward == forward * w <= newWidth * h;
    ScaledBelow(back, h, newWidth);
    back
  }

  /** The height after n bicubic cycles: it never exceeds the original. */
  function HeightAfter(h: nat, w: nat, newWidth: nat, n: nat): (r: nat)
    requires w >= 1 && newWidth >= 1
    ensures r <= h
    decreases n
  {
    if n == 0 then h else CycleHeight(HeightAfter(h, w, newWidth, n - 1), w, newWidth)
  }

  /** Each of the first n cycles finds a non-zero height for both of its resizes. */
  predicate CyclesSucceed(h: nat, w: nat, newWidth: nat, n: nat)
    requires w >= 1 && newWidth >= 1
    decreases n
  {
    n == 0 ||
    (CyclesSucceed(h, w, newWidth, n - 1) &&
     AspectHeight(newWidth, HeightAfter(h, w, newWidth, n - 1), w) >= 1 &&
     CycleHeight(HeightAfter(h, w, newWidth, n - 1), w, newWidth) >= 1)
  }

  lemma {:induction false} CyclesSucceedPrefix(h: nat, w: nat, newWidth: nat, k: nat, n: nat)
    requires w >= 1 && newWidth >= 1 && k <= n
    requires CyclesSucceed(h, w, newWidth, n)
    ensures CyclesSucceed(h, w, newWidth, k)
    decreases n
  {
    if k < n {
      CyclesSucceedPrefix(h, w, newWidth, k, n - 1);
    }
  }

  /** The bicubic harness finishes: no resize is asked for a zero height, and the cycled
      image broadcasts against the original. */
  predicate BicubicHarnessSucceeds(h: nat, w: nat, newWidth: nat, n: nat)
    requires w >= 1
  {
    newWidth >= 1 &&
    if n == 0 then AspectHeight(newWidth, h, w) >= 1
    else
      CyclesSucceed(h, w, newWidth, n) &&
      (HeightAfter(h, w, newWidth, n) == h || HeightAfter(h, w, newWidth, n) == 1) &&
      AspectHeight(newWidth, HeightAfter(h, w, newWidth, n), w) >= 1
  }

  /** A 2 x 3 image cycled through width 2 comes back one row short. */
  lemma DriftExample()
    ensures HeightAfter(2, 3, 2, 1) == 1
  {
  }

  /** A 4 x 3 image cycled through width 2 comes back 3 x 3, which does not broadcast
      against 4 x 3. */
  lemma ShapeMismatchExample()
    ensures CyclesSucceed(4, 3, 2, 1) && HeightAfter(4, 3, 2, 1) == 3
    ensures !BicubicHarnessSucceeds(4, 3, 2, 1)
  {
  }

  /** A 1 x 3 image forward to width 5 is 1 x 5; back to width 3 it has height 0. */
  lemma ZeroHeightExample()
    ensures !CyclesSucceed(1, 3, 5, 1)
    ensures !BicubicHarnessSucceeds(1, 3, 5, 1)
  {
  }

  // ---------------------------------------------------------------------------------
  // The harnesses

  /** The exceptions the harness can raise: a resize asked for a zero height or width
      divides by zero, and a cycled image of another height does not broadcast. */
  datatype HarnessError = ZeroDivision | ShapeMismatch

  /** What the harness leaves behind: the cycled image, the error report (only when there
      was at least one cycle) and the final forward resize. */
  datatype Outcome = Outcome(cycled: array3<Byte>, report: Option<ErrorReport>, final: array3<Byte>)

  /** The bicubic harness with `num_cycles` cycles through `new_width`. */
  method BicubicRoundTrip(img: array3<Byte>, numCycles: nat, newWidth: nat) returns (r: Result<Outcome, HarnessError>)
    requires img.Length0 >= 1 && img.Length1 >= 1
    ensures r.Success? <==> BicubicHarnessSucceeds(img.Length0, img.Length1, newWidth, numCycles)
    ensures r == Failure(ShapeMismatch) <==>
      newWidth >= 1 && numCycles >= 1 && CyclesSucceed(img.Length0, img.Length1, newWidth, numCycles) &&
      HeightAfter(img.Length0, img.Length1, newWidth, numCycles) != img.Length0 &&
      HeightAfter(img.Length0, img.Length1, newWidth, numCycles) != 1
    ensures r.Success? ==>
      var o := r.value;
      newWidth >= 1 &&
      o.cycled.Length0 == HeightAfter(img.Length0, img.Length1, newWidth, numCycles) &&
      o.cycled.Length1 == img.Length1 && o.cycled.Length2 == img.Length2 &&
      (numCycles == 0 ==> o.cycled == img && o.report == None) &&
      (numCycles >= 1 ==> Broadcastable(img, o.cycled) && o.report == Some(Measure(img, o.cycled))) &&
      o.cycled.Length0 >= 1 && AspectHeight(newWidth, o.cycled.Length0, o.cycled.Length1) >= 1 &&
      Bicubic.IsBicubicResize(o.cycled, Kernel.DefaultSharpness, newWidth, o.final)
  {
    var h, w := img.Length0, img.Length1;
    if newWidth == 0 {
      return Failure(ZeroDivision);
    }
    if numCycles == 0 {
      if AspectHeight(newWidth, h, w) == 0 {
        return Failure(ZeroDivision);
      }
      var final := Bicubic.Bicubic(img, newWidth, Kernel.DefaultSharpness);
      return Success(Outcome(img, None, final));
    }
    var current := img;
    for k := 0 to numCycles
      invariant current.Length0 == HeightAfter(h, w, newWidth, k)
      invariant current.Length1 == w && current.Length2 == img.Length2
      invariant CyclesSucceed(h, w, newWidth, k)
    {
      if AspectHeight(newWidth, current.Length0, w) == 0 {
        NoCycleAfterFailure(h, w, newWidth, k, numCycles);
        return Failure(ZeroDivision);
      }
      var forward := Bicubic.Bicubic(current, newWidth, Kernel.DefaultSharpness);
      if AspectHeight(w, forward.Length0, newWidth) == 0 {
        NoCycleAfterFailure(h, w, newWidth, k, numCycles);
        return Failure(ZeroDivision);
      }
      current := Bicubic.Bicubic(forward, w, Kernel.DefaultSharpness);
    }
    if current.Length0 != h && current.Length0 != 1 {
      return Failure(ShapeMismatch);
    }
    var report := Measure(img, current);
    if AspectHeight(newWidth, current.Length0, w) == 0 {
      return Failure(ZeroDivision);
    }
    var final := Bicubic.Bicubic(current, newWidth, Kernel.DefaultSharpness);
    return Success(Outcome(current, Some(report), final));
  }

  /** When cycle k + 1 cannot run, no later number of cycles succeeds. */
  lemma {:induction false} NoCycleAfterFailure(h: nat, w: nat, newWidth: nat, k: nat, n: nat)
    requires w >= 1 && newWidth >= 1 && k < n
    requires !CyclesSucceed(h, w, newWidth, k + 1)
    ensures !CyclesSucceed(h, w, newWidth, n)
  {
    if CyclesSucceed(h, w, newWidth, n) {
      CyclesSucceedPrefix(h, w, newWidth, k + 1, n);
    }
  }

  /** The bilinear harness finishes exactly when the forward resize finds a non-zero
      height: the backward resize is given the original height explicitly. */
  predicate BilinearHarnessSucceeds(h: nat, w: nat, newWidth: nat)
    requires w >= 1
  {
    newWidth >= 1 && AspectHeight(newWidth, h, w) >= 1
  }

  /** The bilinear harness with `num_cycles` cycles through `new_width`: every cycle returns
      to the original H x W x C, so the error is always measured on matching shapes. */
  method BilinearRoundTrip(img: array3<Byte>, numCycles: nat, newWidth: nat) returns (r: Result<Outcome, HarnessError>)
    requires img.Length0 >= 1 && img.Length1 >= 1
    ensures r.Success? <==> BilinearHarnessSucceeds(img.Length0, img.Length1, newWidth)
    ensures r != Failure(ShapeMismatch)
    ensures r.Success? ==>
      var o := r.value;
      o.cycled.Length0 == img.Length0 && o.cycled.Length1 == img.Length1 && o.cycled.Length2 == img.Length2 &&
      (numCycles == 0 ==> o.cycled == img && o.report == None) &&
      (numCycles >= 1 ==> o.report == Some(Measure(img, o.cycled))) &&
      Bilinear.IsBilinearResize(o.cycled, newWidth, AspectHeight(newWidth, img.Length0, img.Length1), o.final)
  {
    var h, w := img.Length0, img.Length1;
    if newWidth == 0 || AspectHeight(newWidth, h, w) == 0 {
      return Failure(ZeroDivision);
    }
    if numCycles == 0 {
      var final := Bilinear.Resize(img, newWidth, None);
      return Success(Outcome(img, None, final));
    }
    var current := img;
    for k := 0 to numCycles
      invariant current.Length0 == h && current.Length1 == w && current.Length2 == img.Length2
    {
      var forward := Bilinear.Resize(current, newWidth, None);
      current := Bilinear.Resize(forward, w, Some(h));
    }
    var report := Measure(img, current);
    var final := Bilinear.Resize(current, newWidth, None);
    return Success(Outcome(current, Some(report), final));
  }
}
