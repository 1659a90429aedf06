/** Border extension for the bicubic resampler: an H x W x C image becomes an
    (H + 4) x (W + 4) x C float buffer whose margin of 2 replicates the nearest edge. */
module Padding {
  import opened Images

  /** Where one axis of a slice assignment reads its source index from:
      `Shift(d)` copies (destination index - d), `Pin(p)` broadcasts the single index p. */
  datatype AxisSource = Shift(offset: int) | Pin(index: int)

  function SourceIndex(m: AxisSource, k: int): int
  {
    match m
    case Shift(d) => k - d
    case Pin(p) => p
  }

  /** The value of the padded image at (r, k, ch): the source sample at the nearest
      valid row and column. */
  function PadAt(img: array3<Byte>, r: int, k: int, ch: int): (v: real)
    requires img.Length0 >= 1 && img.Length1 >= 1 && 0 <= ch < img.Length2
    reads img
    ensures 0.0 <= v <= 255.0
  {
    img[Clamp(r - 2, 0, img.Length0 - 1), Clamp(k - 2, 0, img.Length1 - 1), ch] as real
  }

  /** `z` is the margin-2 border extension of `img`. */
  ghost predicate IsPaddingOf(z: array3<real>, img: array3<Byte>)
    reads z, img
  {
    img.Length0 >= 1 && img.Length1 >= 1 &&
    z.Length0 == img.Length0 + 4 && z.Length1 == img.Length1 + 4 && z.Length2 == img.Length2 &&
    forall r, k, ch :: 0 <= r < z.Length0 && 0 <= k < z.Length1 && 0 <= ch < z.Length2 ==>
      z[r, k, ch] == PadAt(img, r, k, ch)
  }

  /** The block of rows [r0, r1) and columns [c0, c1) of a buffer. */
  datatype Block = Block(r0: nat, r1: nat, c0: nat, c1: nat)
  {
    predicate Contains(r: int, k: int)
    {
      r0 <= r < r1 && c0 <= k < c1
    }
  }

  /** On the block `b`, `z` already holds the border extension of `img`. */
  ghost predicate AgreesOn(z: array3<real>, img: array3<Byte>, b: Block)
    requires img.Length0 >= 1 && img.Length1 >= 1 && z.Length2 == img.Length2
    reads z, img
  {
    forall r, k, ch ::
      0 <= r < z.Length0 && 0 <= k < z.Length1 && 0 <= ch < z.Length2 && b.Contains(r, k) ==>
        z[r, k, ch] == PadAt(img, r, k, ch)
  }

  ghost predicate AgreesOnAll(z: array3<real>, img: array3<Byte>, done: set<Block>)
    requires img.Length0 >= 1 && img.Length1 >= 1 && z.Length2 == img.Length2
    reads z, img
  {
    forall b :: b in done ==> AgreesOn(z, img, b)
  }

  /** One numpy slice assignment `z[r0:r1, c0:c1, :] = <img indexed by rows, cols>`,
      broadcasting along a pinned axis; cells outside the block keep their values. */
  method SliceAssign(z: array3<real>, img: array3<Byte>, b: Block, rows: AxisSource, cols: AxisSource)
    requires b.r0 <= b.r1 <= z.Length0 && b.c0 <= b.c1 <= z.Length1 && z.Length2 == img.Length2
    requires forall r :: b.r0 <= r < b.r1 ==> 0 <= SourceIndex(rows, r) < img.Length0
    requires forall k :: b.c0 <= k < b.c1 ==> 0 <= SourceIndex(cols, k) < img.Length1
    modifies z
    ensures forall r, k, ch :: 0 <= r < z.Length0 && 0 <= k < z.Length1 && 0 <= ch < z.Length2 ==>
      z[r, k, ch] == if b.Contains(r, k)
                     then img[SourceIndex(rows, r), SourceIndex(cols, k), ch] as real
                     else old(z[r, k, ch])
  {
    for r := b.r0 to b.r1
      invariant forall r', k, ch :: 0 <= r' < z.Length0 && 0 <= k < z.Length1 && 0 <= ch < z.Length2 ==>
        z[r', k, ch] == if b.r0 <= r' < r && b.c0 <= k < b.c1
                        then img[SourceIndex(rows, r'), SourceIndex(cols, k), ch] as real
                        else old(z[r', k, ch])
    {
      for k := b.c0 to b.c1
        invariant forall r', k', ch :: 0 <= r' < z.Length0 && 0 <= k' < z.Length1 && 0 <= ch < z.Length2 ==>
          z[r', k', ch] == if (b.r0 <= r' < r && b.c0 <= k' < b.c1) || (r' == r && b.c0 <= k' < k)
                           then img[SourceIndex(rows, r'), SourceIndex(cols, k'), ch] as real
                           else old(z[r', k', ch])
      {
        for ch := 0 to z.Length2
          invariant forall r', k', ch' :: 0 <= r' < z.Length0 && 0 <= k' < z.Length1 && 0 <= ch' < z.Length2 ==>
            z[r', k', ch'] == if (b.r0 <= r' < r && b.c0 <= k' < b.c1) || (r' == r && b.c0 <= k' < k) || (r' == r && k' == k && ch' < ch)
                              then img[SourceIndex(rows, r'), SourceIndex(cols, k'), ch'] as real
                              else old(z[r', k', ch'])
        {
          z[r, k, ch] := img[SourceIndex(rows, r), SourceIndex(cols, k), ch] as real;
        }
      }
    }
  }

  /** One step of `padding`: a slice assignment whose source index is, on its block,
      the clamped one. The block then holds the border extension, and the blocks
      `done` before it still do. */
  method FillBlock(z: array3<real>, img: array3<Byte>, b: Block, rows: AxisSource, cols: AxisSource,
                   ghost done: set<Block>)
    requires img.Length0 >= 1 && img.Length1 >= 1
    requires b.r0 <= b.r1 <= z.Length0 && b.c0 <= b.c1 <= z.Length1 && z.Length2 == img.Length2
    requires forall r :: b.r0 <= r < b.r1 ==> SourceIndex(rows, r) == Clamp(r - 2, 0, img.Length0 - 1)
    requires forall k :: b.c0 <= k < b.c1 ==> SourceIndex(cols, k) == Clamp(k - 2, 0, img.Length1 - 1)
    requires AgreesOnAll(z, img, done)
    modifies z
    ensures AgreesOnAll(z, img, done + {b})
  {
    SliceAssign(z, img, b, rows, cols);
    forall d | d in done + {b}
      ensures AgreesOn(z, img, d)
    {
      if d in done {
        assert old(AgreesOn(z, img, d));
      }
    }
  }

  /** The nine blocks of `padding`, gathered in the order the source assigns them:
      the interior, the left and right strips, the top and bottom strips, the corners. */
  function PaddingBlocks(h: nat, w: nat): set<Block>
  {
    {Block(2, h + 2, 2, w + 2),
     Block(2, h + 2, 0, 2), Block(2, h + 2, w + 2, w + 4),
     Block(0, 2, 2, w + 2), Block(h + 2, h + 4, 2, w + 2),
     Block(0, 2, 0, 2), Block(h + 2, h + 4, 0, 2),
     Block(0, 2, w + 2, w + 4), Block(h + 2, h + 4, w + 2, w + 4)}
  }

  /** The block of `padding` that cell (r, k) of the (h + 4) x (w + 4) buffer lies in:
      the nine blocks tile the buffer. */
  function BlockOf(h: nat, w: nat, r: nat, k: nat): (b: Block)
    requires r < h + 4 && k < w + 4
    ensures b in PaddingBlocks(h, w) && b.Contains(r, k)
  {
    var rows := if r < 2 then (0, 2) else if r < h + 2 then (2, h + 2) else (h + 2, h + 4);
    var cols := if k < 2 then (0, 2) else if k < w + 2 then (2, w + 2) else (w + 2, w + 4);
    Block(rows.0, rows.1, cols.0, cols.1)
  }

  /** `padding(img, H, W, C)`: a zero buffer filled by nine slice assignments — the
      interior copy, four edge strips and four corner blocks. The result is the
      border extension: every cell holds the sample at the clamped position. */
  method Pad(img: array3<Byte>) returns (z: array3<real>)
    requires img.Length0 >= 1 && img.Length1 >= 1
    ensures fresh(z)
    ensures IsPaddingOf(z, img)
  {
    var h, w, c := img.Length0, img.Length1, img.Length2;
    ghost var done: set<Block> := {};
    z := new real[h + 4, w + 4, c]((r, k, ch) => 0.0);
    // the interior copy
    FillBlock(z, img, Block(2, h + 2, 2, w + 2), Shift(2), Shift(2), done);
    done := done + {Block(2, h + 2, 2, w + 2)};
    // the left and right strips replicate the first and last column
    FillBlock(z, img, Block(2, h + 2, 0, 2), Shift(2), Pin(0), done);
    done := done + {Block(2, h + 2, 0, 2)};
    FillBlock(z, img, Block(2, h + 2, w + 2, w + 4), Shift(2), Pin(w - 1), done);
    done := done + {Block(2, h + 2, w + 2, w + 4)};
    // the top and bottom strips replicate the first and last row
    FillBlock(z, img, Block(0, 2, 2, w + 2), Pin(0), Shift(2), done);
    done := done + {Block(0, 2, 2, w + 2)};
    FillBlock(z, img, Block(h + 2, h + 4, 2, w + 2), Pin(h - 1), Shift(2), done);
    done := done + {Block(h + 2, h + 4, 2, w + 2)};
    // the four corner blocks replicate the corner samples
    FillBlock(z, img, Block(0, 2, 0, 2), Pin(0), Pin(0), done);
    done := done + {Block(0, 2, 0, 2)};
    FillBlock(z, img, Block(h + 2, h + 4, 0, 2), Pin(h - 1), Pin(0), done);
    done := done + {Block(h + 2, h + 4, 0, 2)};
    FillBlock(z, img, Block(0, 2, w + 2, w + 4), Pin(0), Pin(w - 1), done);
    done := done + {Block(0, 2, w + 2, w + 4)};
    FillBlock(z, img, Block(h + 2, h + 4, w + 2, w + 4), Pin(h - 1), Pin(w - 1), done);
    done := done + {Block(h + 2, h + 4, w + 2, w + 4)};
    BlocksMakePadding(z, img);
  }

  /** Once the nine blocks hold the border extension, the whole buffer does. */
  lemma {:induction false} BlocksMakePadding(z: array3<real>, img: array3<Byte>)
    requires img.Length0 >= 1 && img.Length1 >= 1
    requires z.Length0 == img.Length0 + 4 && z.Length1 == img.Length1 + 4 && z.Length2 == img.Length2
    requires AgreesOnAll(z, img, PaddingBlocks(img.Length0, img.Length1))
    ensures IsPaddingOf(z, img)
  {
    forall r, k, ch | 0 <= r < z.Length0 && 0 <= k < z.Length1 && 0 <= ch < z.Length2
      ensures z[r, k, ch] == PadAt(img, r, k, ch)
    {
      assert AgreesOn(z, img, BlockOf(img.Length0, img.Length1, r, k));
    }
  }

  /** The interior of the padded buffer is an exact copy of the source. */
  lemma {:induction false} PaddingInterior(z: array3<real>, img: array3<Byte>, i: nat, j: nat, ch: nat)
    requires IsPaddingOf(z, img)
    requires i < img.Length0 && j < img.Length1 && ch < img.Length2
    ensures z[i + 2, j + 2, ch] == img[i, j, ch] as real
  {
  }

  /** A cell of the padded buffer holds the initial zero exactly when the sample it
      replicates, at the clamped row and column, is zero: no cell is left unwritten. */
  lemma {:induction false} PaddingKeepsNoZero(z: array3<real>, img: array3<Byte>, r: nat, k: nat, ch: nat)
    requires IsPaddingOf(z, img)
    requires r < z.Length0 && k < z.Length1 && ch < z.Length2
    ensures z[r, k, ch] == 0.0 <==> img[Clamp(r - 2, 0, img.Length0 - 1), Clamp(k - 2, 0, img.Length1 - 1), ch] == 0
  {
  }

  /** The margin replicates the border: the two rows above the image repeat its first row,
      the two rows below repeat its last row, and likewise for columns; each corner block
      repeats the corner sample. */
  lemma {:induction false} PaddingReplicatesBorder(z: array3<real>, img: array3<Byte>, r: nat, k: nat, ch: nat)
    requires IsPaddingOf(z, img)
    requires r < z.Length0 && k < z.Length1 && ch < z.Length2
    ensures r < 2 ==> z[r, k, ch] == z[2, k, ch]
    ensures img.Length0 + 2 <= r ==> z[r, k, ch] == z[img.Length0 + 1, k, ch]
    ensures k < 2 ==> z[r, k, ch] == z[r, 2, ch]
    ensures img.Length1 + 2 <= k ==> z[r, k, ch] == z[r, img.Length1 + 1, ch]
    ensures r < 2 && k < 2 ==> z[r, k, ch] == img[0, 0, ch] as real
    ensures img.Length0 + 2 <= r && k < 2 ==> z[r, k, ch] == img[img.Length0 - 1, 0, ch] as real
    ensures r < 2 && img.Length1 + 2 <= k ==> z[r, k, ch] == img[0, img.Length1 - 1, ch] as real
    ensures img.Length0 + 2 <= r && img.Length1 + 2 <= k ==>
      z[r, k, ch] == img[img.Length0 - 1, img.Length1 - 1, ch] as real
  {
  }
}
