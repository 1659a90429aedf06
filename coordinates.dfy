/** The coordinate mapping shared by both resamplers: top-left-aligned sampling,
    destination index k maps to source coordinate k * (source size / destination size). */
module Coordinates {

  /** `int(new_width * (h / w))`: the height that keeps the aspect ratio, rounded down. */
  function AspectHeight(newWidth: nat, h: nat, w: nat): (r: nat)
    requires w >= 1
    ensures r * w <= newWidth * h < (r + 1) * w
  {
    newWidth * h / w
  }

  /** Keeping the width keeps the height. */
  lemma {:induction false} AspectHeightOfSameWidth(h: nat, w: nat)
    requires w >= 1
    ensures AspectHeight(w, h, w) == h
  {
    assert w * h == h * w;
  }

  /** The step between two destination samples, in source pixels. */
  function Ratio(src: nat, dst: nat): (r: real)
    requires dst >= 1
    ensures r * dst as real == src as real
    ensures src >= 1 ==> r > 0.0
  {
    src as real / dst as real
  }

  /** The source coordinate of destination index k. */
  function SourceCoord(k: nat, src: nat, dst: nat): (x: real)
    requires dst >= 1
    ensures x * dst as real == (k * src) as real
    ensures x >= 0.0
  {
    var ratio := Ratio(src, dst);
    assert k as real * ratio * dst as real == k as real * (ratio * dst as real);
    k as real * ratio
  }

  /** Every destination index maps into [0, src), so its floor is a valid source index
      and its fraction lies in [0, 1). */
  lemma {:induction false} SourceCoordInRange(k: nat, src: nat, dst: nat)
    requires k < dst && src >= 1
    ensures 0.0 <= SourceCoord(k, src, dst) < src as real
    ensures 0 <= SourceCoord(k, src, dst).Floor <= src - 1
  {
    var ratio := Ratio(src, dst);
    assert (dst - k) as real * ratio >= ratio by {
      assert (dst - k) as real >= 1.0;
    }
    assert (dst - k) as real * ratio == src as real - k as real * ratio;
  }

  /** Resizing to the source's own size maps every index onto itself. */
  lemma {:induction false} SourceCoordOfSameSize(k: nat, n: nat)
    requires n >= 1
    ensures SourceCoord(k, n, n) == k as real
  {
  }
}
