/** The side-by-side comparison: the same source resized to the same width by both
    resamplers, with no explicit height. */
module Compare {
  import opened Images
  import opened Coordinates
  import Kernel
  import Bicubic
  import Bilinear

  /** Both resizes of the comparison: they have the same aspect-ratio shape, and each is
      the resize its resampler defines. */
  method CompareResamplers(img: array3<Byte>, newWidth: nat) returns (bilinearResult: array3<Byte>, bicubicResult: array3<Byte>)
    requires img.Length0 >= 1 && img.Length1 >= 1 && newWidth >= 1
    requires AspectHeight(newWidth, img.Length0, img.Length1) >= 1
    ensures bilinearResult.Length0 == bicubicResult.Length0 == AspectHeight(newWidth, img.Length0, img.Length1)
    ensures bilinearResult.Length1 == bicubicResult.Length1 == newWidth
    ensures bilinearResult.Length2 == bicubicResult.Length2 == img.Length2
    ensures Bilinear.IsBilinearResize(img, newWidth, AspectHeight(newWidth, img.Length0, img.Length1), bilinearResult)
    ensures Bicubic.IsBicubicResize(img, Kernel.DefaultSharpness, newWidth, bicubicResult)
  {
    bilinearResult := Bilinear.Resize(img, newWidth, None);
    bicubicResult := Bicubic.Bicubic(img, newWidth, Kernel.DefaultSharpness);
  }

  /** A constant image stays constant under both resamplers, because both weight sets sum
      to one: the two results agree sample for sample. */
  lemma {:induction false} ResamplersKeepConstant(img: array3<Byte>, k: Byte, newWidth: nat, i: nat, j: nat, c: nat)
    requires img.Length0 >= 1 && img.Length1 >= 1 && c < img.Length2 && newWidth >= 1
    requires AspectHeight(newWidth, img.Length0, img.Length1) >= 1
    requires i < AspectHeight(newWidth, img.Length0, img.Length1) && j < newWidth
    requires Uniform(img, k)
    ensures Bilinear.BilinearAt(img, newWidth, AspectHeight(newWidth, img.Length0, img.Length1), i, j, c) == k
    ensures ClipToByte(Bicubic.BicubicAt(img, Kernel.DefaultSharpness, newWidth, i, j, c)) == k
  {
    Bilinear.BilinearOfUniform(img, k, newWidth, AspectHeight(newWidth, img.Length0, img.Length1), i, j, c);
    Bicubic.BicubicOfUniform(img, k, Kernel.DefaultSharpness, newWidth, i, j, c);
  }
}
