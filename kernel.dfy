/** The Keys cubic convolution kernel and the 4-tap weight vectors built from it. */
module Kernel {

  /** The default sharpness parameter of the bicubic resampler. */
  const DefaultSharpness: real := -0.5

  function Abs(s: real): (r: real)
    ensures r >= 0.0 && (r == s || r == -s)
  {
    if s < 0.0 then -s else s
  }

  /** The cubic piece used for |s| <= 1. */
  function Inner(t: real, a: real): real
  {
    (a + 2.0) * t * t * t - (a + 3.0) * t * t + 1.0
  }

  /** The cubic piece used for 1 < |s| < 2. */
  function Outer(t: real, a: real): real
  {
    a * t * t * t - 5.0 * a * t * t + 8.0 * a * t - 4.0 * a
  }

  /** The kernel u(s) with sharpness a: it interpolates (1 at 0, 0 at the other integers)
      and has support (-2, 2). */
  function U(s: real, a: real): (r: real)
    ensures s == 0.0 ==> r == 1.0
    ensures Abs(s) == 1.0 ==> r == 0.0
    ensures Abs(s) >= 2.0 ==> r == 0.0
  {
    var t := Abs(s);
    if t <= 1.0 then Inner(t, a)
    else if t < 2.0 then Outer(t, a)
    else 0.0
  }

  lemma KernelSymmetric(s: real, a: real)
    ensures U(-s, a) == U(s, a)
  {
  }

  /** Both cubic pieces vanish where they meet (|s| = 1) and the outer piece
      vanishes where the support ends (|s| = 2): the kernel is continuous. */
  lemma BranchesMeet(a: real)
    ensures Inner(1.0, a) == 0.0 && Outer(1.0, a) == 0.0
    ensures Outer(2.0, a) == 0.0
  {
  }

  /** `wx = [u(d + 1), u(d), u(1 - d), u(2 - d)]` for the fraction d of a coordinate:
      for every fraction in [0, 1) the four weights sum to one, whatever the sharpness,
      and a whole coordinate selects exactly the sample it falls on. */
  function CubicWeights(d: real, a: real): (w: seq<real>)
    ensures |w| == 4
    ensures 0.0 <= d < 1.0 ==> w[0] + w[1] + w[2] + w[3] == 1.0
    ensures d == 0.0 ==> w == [0.0, 1.0, 0.0, 0.0]
  {
    var w := [U(d + 1.0, a), U(d, a), U(1.0 - d, a), U(2.0 - d, a)];
    assert 0.0 <= d < 1.0 ==> w[0] + w[1] + w[2] + w[3] == 1.0 by {
      if 0.0 <= d < 1.0 {
        PartitionOfUnity(d, a);
      }
    }
    w
  }

  /** The outer piece, one unit further out, is a cubic in the fraction without constant term. */
  lemma {:induction false} OuterShifted(e: real, a: real)
    ensures Outer(e + 1.0, a) == a * (e * e * e - 2.0 * e * e + e)
  {
  }

  /** For a fraction d in [0, 1) the four taps at distances d + 1, d, 1 - d and 2 - d carry
      weights that sum to one, whatever the sharpness a. */
  lemma {:induction false} PartitionOfUnity(d: real, a: real)
    requires 0.0 <= d < 1.0
    ensures U(d + 1.0, a) + U(d, a) + U(1.0 - d, a) + U(2.0 - d, a) == 1.0
  {
    var e := 1.0 - d;
    OuterShifted(d, a);
    OuterShifted(e, a);
    assert U(d + 1.0, a) == Outer(d + 1.0, a);
    assert U(2.0 - d, a) == Outer(e + 1.0, a);
    assert U(d, a) == Inner(d, a) && U(e, a) == Inner(e, a);
    var p := d * e;
    assert d * d + e * e == 1.0 - 2.0 * p;
    assert d * d * d + e * e * e == 1.0 - 3.0 * p;
  }

  /** With the default sharpness the outer lobe is negative, so a weighted sum of
      samples in [0, 255] can leave that range: clipping the result is necessary. */
  lemma NegativeLobe()
    ensures CubicWeights(0.5, DefaultSharpness) == [-0.0625, 0.5625, 0.5625, -0.0625]
    ensures CubicWeights(0.5, DefaultSharpness)[0] < 0.0 && CubicWeights(0.5, DefaultSharpness)[3] < 0.0
  {
  }
}
