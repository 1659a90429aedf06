/** Image buffers, sample types and the clamping used by both resamplers.
    An image is a dense H x W x C array indexed [row, column, channel]. */
module Images {

  /** One uint8 sample. */
  type Byte = x: int | 0 <= x < 256

  datatype Option<T> = None | Some(value: T)

  datatype Result<T, E> = Success(value: T) | Failure(error: E)

  /** np.clip on a scalar index: the nearest value of [lo, hi]. */
  function Clamp(v: int, lo: int, hi: int): (r: int)
    requires lo <= hi
    ensures lo <= r <= hi
    ensures lo <= v <= hi ==> r == v
    ensures v < lo ==> r == lo
    ensures hi < v ==> r == hi
  {
    if v < lo then lo else if v > hi then hi else v
  }

  /** `np.clip(v, 0, 255).astype(np.uint8)`: clip, then truncate toward zero. */
  function ClipToByte(v: real): (b: Byte)
    ensures 0.0 <= v <= 255.0 ==> b as real <= v < b as real + 1.0
    ensures v < 0.0 ==> b == 0
    ensures 255.0 <= v ==> b == 255
  {
    if v < 0.0 then 0 else if v > 255.0 then 255 else v.Floor
  }

  /** A float sample in [0, 256) stored into a uint8 buffer: truncation toward zero. */
  function TruncToByte(v: real): (b: Byte)
    requires 0.0 <= v < 256.0
    ensures b as real <= v < b as real + 1.0
  {
    v.Floor
  }

  lemma {:induction false} WholeSampleSurvivesCasts(b: Byte)
    ensures ClipToByte(b as real) == b
    ensures TruncToByte(b as real) == b
  {
  }

  /** Every sample of `img` equals `k`. */
  ghost predicate Uniform(img: array3<Byte>, k: Byte)
    reads img
  {
    forall i, j, c :: 0 <= i < img.Length0 && 0 <= j < img.Length1 && 0 <= c < img.Length2 ==>
      img[i, j, c] == k
  }
}
