/** The converting uploaders, which work on 64-bit words of two pixels
    (were/were_upload.cpp). */
module Upload {

  import opened Words
  import opened Pixels
  import D = Damage

  /** uploader_2 swaps red and blue, uploader_1 sets alpha. */
  function ConvertWord(swap: bool, w: bv64): bv64 { if swap then SwapWord(w) else OpaqueWord(w) }

  function ConvertPixel(swap: bool, p: bv64): bv64 { if swap then SwapPixel(p) else OpaquePixel(p) }

  /** The pixel in column x of row y, in a buffer of so many words a row. */
  function PixelAt(words: seq<bv64>, stride: nat, x: nat, y: nat): bv64
    requires D.At(stride, y, x / 2) < |words|
  {
    if x % 2 == 0 then Low(words[D.At(stride, y, x / 2)]) else High(words[D.At(stride, y, x / 2)])
  }

  // ---------- word by word

  ghost predicate WordDone(dst: seq<bv64>, dstStride: nat, src: seq<bv64>, srcStride: nat, swap: bool, y: nat, c: nat) {
    D.At(dstStride, y, c) < |dst| && D.At(srcStride, y, c) < |src| &&
    dst[D.At(dstStride, y, c)] == ConvertWord(swap, src[D.At(srcStride, y, c)])
  }

  /** dst' is dst with the words c1 to c2 of the rows y1 to y2 converted from src. */
  ghost predicate Converted(dst: seq<bv64>, dst': seq<bv64>, dstStride: nat, src: seq<bv64>, srcStride: nat, swap: bool,
                            c1: nat, c2: nat, y1: nat, y2: nat) {
    && |dst'| == |dst|
    && (forall y: nat, c: nat :: y1 <= y < y2 && c1 <= c < c2 ==> WordDone(dst', dstStride, src, srcStride, swap, y, c))
    && (forall y: nat, c: nat :: c < dstStride && D.At(dstStride, y, c) < |dst| && !(y1 <= y < y2 && c1 <= c < c2) ==>
          dst'[D.At(dstStride, y, c)] == dst[D.At(dstStride, y, c)])
  }

  lemma NothingConverted(dst: seq<bv64>, dstStride: nat, src: seq<bv64>, srcStride: nat, swap: bool, c1: nat, c2: nat,
                         y1: nat)
    ensures Converted(dst, dst, dstStride, src, srcStride, swap, c1, c2, y1, y1)
  {
  }

  lemma RowConverted(dst: seq<bv64>, mid: seq<bv64>, dst': seq<bv64>, dstStride: nat, src: seq<bv64>, srcStride: nat,
                     swap: bool, c1: nat, c2: nat, y1: nat, y: nat)
    requires Converted(dst, mid, dstStride, src, srcStride, swap, c1, c2, y1, y) && y1 <= y && c2 <= dstStride
    requires c1 < c2 ==> D.At(dstStride, y, c2) <= |dst| && D.At(srcStride, y, c2) <= |src|
    requires |dst'| == |mid| && forall i :: 0 <= i < |mid| ==>
               dst'[i] == if D.At(dstStride, y, c1) <= i < D.At(dstStride, y, c2)
                          then ConvertWord(swap, src[i - D.At(dstStride, y, 0) + D.At(srcStride, y, 0)]) else mid[i]
    ensures Converted(dst, dst', dstStride, src, srcStride, swap, c1, c2, y1, y + 1)
  {
    hide ConvertWord;
    forall y': nat, c: nat | y1 <= y' < y + 1 && c1 <= c < c2
      ensures WordDone(dst', dstStride, src, srcStride, swap, y', c)
    {
      if y' < y {
        assert WordDone(mid, dstStride, src, srcStride, swap, y', c);
        D.AtBelow(dstStride, y', y);
      }
    }
    forall y': nat, c: nat | c < dstStride && D.At(dstStride, y', c) < |dst| && !(y1 <= y' < y + 1 && c1 <= c < c2)
      ensures dst'[D.At(dstStride, y', c)] == dst[D.At(dstStride, y', c)]
    {
      assert mid[D.At(dstStride, y', c)] == dst[D.At(dstStride, y', c)];
      var i := D.At(dstStride, y', c);
      if D.At(dstStride, y, c1) <= i < D.At(dstStride, y, c2) {
        D.AtOnce(dstStride, y', c, y, i - D.At(dstStride, y, 0));
      }
    }
  }

  /** The inner loop: one row of words. */
  method ConvertRow(dst: array<bv64>, to: nat, src: seq<bv64>, from: nat, c1: nat, c2: nat, swap: bool)
    requires c1 < c2 ==> to + c2 <= dst.Length && from + c2 <= |src|
    modifies dst
    ensures forall i :: 0 <= i < dst.Length ==>
              dst[i] == if to + c1 <= i < to + c2 then ConvertWord(swap, src[i - to + from]) else old(dst[i])
  {
    hide ConvertWord;
    var x := c1;
    while x < c2
      invariant c1 <= x && (c1 <= c2 ==> x <= c2) && (c2 <= c1 ==> x == c1)
      invariant forall i :: 0 <= i < dst.Length ==>
                  dst[i] == if to + c1 <= i < to + x then ConvertWord(swap, src[i - to + from]) else old(dst[i])
    {
      dst[to + x] := ConvertWord(swap, src[from + x]);
      x := x + 1;
    }
  }

  /** Where the row loop indexes a row, and where the column loop ends, in 32 bits. */
  function RowIndex(stride: nat, y: nat): nat { D.RowStart(stride, y) / 8 }

  function EndWord(x2: nat): nat { (x2 + 1) % U32 / 2 }

  /** The words of every row lie inside a buffer of so many words. */
  ghost predicate RowsFit(size: nat, stride: nat, x1: nat, y1: nat, x2: nat, y2: nat) {
    forall y :: y1 <= y < y2 && x1 / 2 < EndWord(x2) ==> RowIndex(stride, y) + EndWord(x2) <= size
  }

  /** Whole words in a row, columns within the rows of both buffers, and buffers below
      4 GiB. */
  predicate UprightIn(srcStride: nat, dstStride: nat, x2: nat, y2: nat) {
    && srcStride % 8 == 0 && dstStride % 8 == 0 && 4 * x2 <= srcStride && 4 * x2 <= dstStride
    && x2 + 1 < U32 && dstStride * y2 < U32 && srcStride * y2 < U32
  }

  /** A rectangle inside a surface has its words inside every buffer that holds the surface
      in rows of whole words. */
  lemma InsideFits(size: nat, stride: nat, height: nat, x1: nat, y1: nat, x2: nat, y2: nat)
    requires stride % 8 == 0 && 4 * x2 <= stride && y2 <= height && x2 + 1 < U32
    requires stride / 8 * height <= size && stride * height < U32
    ensures RowsFit(size, stride, x1, y1, x2, y2)
  {
    forall y | y1 <= y < y2 && x1 / 2 < EndWord(x2)
      ensures RowIndex(stride, y) + EndWord(x2) <= size
    {
      RowIndexAt(stride, y, height);
      D.AtBound(stride / 8, y, EndWord(x2), height);
    }
  }

  /** Below 4 GiB rows start where they should. */
  lemma RowIndexAt(stride: nat, y: nat, height: nat)
    requires stride % 8 == 0 && y <= height && stride * height < U32
    ensures RowIndex(stride, y) == D.At(stride / 8, y, 0)
  {
    D.RowStartsAt(stride, y, height);
    var s := stride / 8;
    assert stride * y == 8 * (s * y);
  }

  /** uploader_1 and uploader_2.  Their rows must lie inside both buffers; for rows of whole
      words below 4 GiB, every pixel of the widened rectangle is the converted source pixel
      and every other pixel is unchanged. */
  method Uploader(dst: array<bv64>, src: seq<bv64>, srcStride: nat, dstStride: nat,
                  x1: nat, y1: nat, x2: nat, y2: nat, swap: bool)
    requires RowsFit(dst.Length, dstStride, x1, y1, x2, y2) && RowsFit(|src|, srcStride, x1, y1, x2, y2)
    modifies dst
    ensures UprightIn(srcStride, dstStride, x2, y2) ==>
              Converted(old(dst[..]), dst[..], dstStride / 8, src, srcStride / 8, swap,
                        x1 / 2, (x2 + 1) / 2, y1, if y1 <= y2 then y2 else y1)
    ensures y2 <= y1 ==> dst[..] == old(dst[..])
  {
    hide Converted, ConvertWord, RowsFit, RowIndex;
    var c1, c2 := x1 / 2, EndWord(x2);
    ghost var ds, ss, upright := dstStride / 8, srcStride / 8, UprightIn(srcStride, dstStride, x2, y2);
    NothingConverted(dst[..], ds, src, ss, swap, c1, c2, y1);
    var y := y1;
    while y < y2
      invariant y1 <= y <= if y1 <= y2 then y2 else y1
      invariant upright ==> Converted(old(dst[..]), dst[..], ds, src, ss, swap, c1, c2, y1, y)
      invariant y == y1 ==> dst[..] == old(dst[..])
    {
      ghost var mid := dst[..];
      RowFits(dst.Length, dstStride, x1, y1, x2, y2, y);
      RowFits(|src|, srcStride, x1, y1, x2, y2, y);
      ConvertRow(dst, RowIndex(dstStride, y), src, RowIndex(srcStride, y), c1, c2, swap);
      if upright {
        RowIndexAt(dstStride, y, y2);
        RowIndexAt(srcStride, y, y2);
        RowConverted(old(dst[..]), mid, dst[..], ds, src, ss, swap, c1, c2, y1, y);
      }
      y := y + 1;
    }
  }

  lemma RowFits(size: nat, stride: nat, x1: nat, y1: nat, x2: nat, y2: nat, y: nat)
    requires RowsFit(size, stride, x1, y1, x2, y2) && y1 <= y < y2
    ensures x1 / 2 < EndWord(x2) ==> RowIndex(stride, y) + EndWord(x2) <= size
  {
  }

  // ---------- pixel by pixel

  /** The columns that the word loop covers. */
  predicate Covered(x1: nat, x2: nat, x: nat) { x1 / 2 <= x / 2 < (x2 + 1) / 2 }

  /** They are the rectangle's and at most one more on each side. */
  lemma CoveredColumns(x1: nat, x2: nat, x: nat)
    requires x1 < x2
    ensures x1 <= x < x2 ==> Covered(x1, x2, x)
    ensures Covered(x1, x2, x) ==> x1 <= x < x2 || (x + 1 == x1 && x1 % 2 == 1) || (x == x2 && x2 % 2 == 1)
  {
  }

  /** What the per-pixel loop leaves, and more: covered columns hold the converted source
      pixel, all others what they held. */
  lemma UploadsPixels(dst: seq<bv64>, dst': seq<bv64>, dstStride: nat, src: seq<bv64>, srcStride: nat, swap: bool,
                      x1: nat, y1: nat, x2: nat, y2: nat, x: nat, y: nat)
    requires Converted(dst, dst', dstStride, src, srcStride, swap, x1 / 2, (x2 + 1) / 2, y1, y2)
    requires x / 2 < dstStride && D.At(dstStride, y, x / 2) < |dst|
    ensures y1 <= y < y2 && Covered(x1, x2, x) ==>
              D.At(srcStride, y, x / 2) < |src| &&
              PixelAt(dst', dstStride, x, y) == ConvertPixel(swap, PixelAt(src, srcStride, x, y))
    ensures !(y1 <= y < y2 && Covered(x1, x2, x)) ==> PixelAt(dst', dstStride, x, y) == PixelAt(dst, dstStride, x, y)
  {
    hide SwapWord, SwapPixel, OpaqueWord, OpaquePixel, Low, High;
    if y1 <= y < y2 && Covered(x1, x2, x) {
      assert WordDone(dst', dstStride, src, srcStride, swap, y, x / 2);
      var w := src[D.At(srcStride, y, x / 2)];
      OpaqueHalves(w);
      SwapHalves(w);
    }
  }
}
