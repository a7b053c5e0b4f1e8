/** Damage-driven copying of a surface into its window
    (were/math/were_rect.h, were/were_x11_surface.cpp, were/were_upload.cpp). */
module Damage {

  import opened Words

  // ---------- rectangles

  datatype Rect = Rect(x1: int, y1: int, x2: int, y2: int)

  const NOTHING: Rect := Rect(0, 0, 0, 0)

  predicate Contains(r: Rect, x: int, y: int) { r.x1 <= x < r.x2 && r.y1 <= y < r.y2 }

  predicate Empty(r: Rect) { r == NOTHING }

  function Expand(r: Rect, d: Rect): (e: Rect)
    ensures forall x, y :: Contains(r, x, y) || Contains(d, x, y) ==> Contains(e, x, y)
  {
    if Empty(r) then d
    else Rect(if d.x1 < r.x1 then d.x1 else r.x1, if d.y1 < r.y1 then d.y1 else r.y1,
              if d.x2 > r.x2 then d.x2 else r.x2, if d.y2 > r.y2 then d.y2 else r.y2)
  }

  /** The edges of a lie around those of b. */
  predicate Encloses(a: Rect, b: Rect) { a.x1 <= b.x1 && a.y1 <= b.y1 && b.x2 <= a.x2 && b.y2 <= a.y2 }

  /** The empty rectangle takes on the damage itself; any other grows to the least that
      encloses both. */
  lemma ExpandLeast(r: Rect, d: Rect, c: Rect)
    ensures Empty(r) ==> Expand(r, d) == d
    ensures !Empty(r) ==> Encloses(Expand(r, d), r) && Encloses(Expand(r, d), d)
    ensures !Empty(r) && Encloses(c, r) && Encloses(c, d) ==> Encloses(c, Expand(r, d))
  {
  }

  /** limit keeps exactly the part inside the surface. */
  function Limit(r: Rect, width: int, height: int): (l: Rect)
    ensures forall x, y :: Contains(l, x, y) <==> Contains(r, x, y) && 0 <= x < width && 0 <= y < height
  {
    Rect(if r.x1 < 0 then 0 else r.x1, if r.y1 < 0 then 0 else r.y1,
         if r.x2 > width then width else r.x2, if r.y2 > height then height else r.y2)
  }

  // ---------- addresses

  function At(stride: nat, y: nat, b: nat): nat { stride * y + b }

  lemma AtBound(stride: nat, y: nat, b: nat, height: nat)
    requires y < height && b <= stride
    ensures At(stride, y, b) <= stride * height
  {
    assert stride * (y + 1) <= stride * height;
  }

  lemma AtBelow(stride: nat, y: nat, y': nat)
    requires y < y'
    ensures At(stride, y, stride) <= At(stride, y', 0)
  {
    assert stride * (y + 1) <= stride * y';
  }

  lemma AtOnce(stride: nat, y: nat, b: nat, y': nat, b': nat)
    requires b < stride && b' < stride && At(stride, y, b) == At(stride, y', b')
    ensures y == y' && b == b'
  {
    if y < y' {
      AtBelow(stride, y, y');
    } else if y' < y {
      AtBelow(stride, y', y);
    }
  }

  // ---------- the uploader

  /** The 32-bit arguments of the uploader, and the bytes of a row it copies. */
  function ToU32(i: int): nat { i % U32 }

  function RowOffset(x1: nat): nat { x1 * 4 % U32 }

  function RowLength(x1: nat, x2: nat): nat { (x2 - x1) % U32 * 4 % U32 }

  function RowStart(stride: nat, y: nat): nat { stride * y % U32 }

  /** The copied range of every row lies inside the buffer of a stride. */
  ghost predicate RowsFit(size: nat, stride: nat, x1: nat, y1: nat, x2: nat, y2: nat) {
    forall y :: y1 <= y < y2 && RowLength(x1, x2) > 0 ==>
      RowStart(stride, y) + RowOffset(x1) + RowLength(x1, x2) <= size
  }

  lemma RowsMonotone(stride: nat, y: nat, y': nat)
    requires y <= y'
    ensures stride * y <= stride * y'
  {
    assert stride * y' == stride * y + stride * (y' - y);
  }

  /** Below 4 GiB rows start where they should. */
  lemma RowStartsAt(stride: nat, y: nat, height: nat)
    requires y <= height && stride * height < U32
    ensures RowStart(stride, y) == At(stride, y, 0)
  {
    RowsMonotone(stride, y, height);
  }

  /** Byte b of row y is the same in two buffers. */
  ghost predicate Same(dst: seq<Byte>, dstStride: nat, src: seq<Byte>, srcStride: nat, y: nat, b: nat) {
    At(dstStride, y, b) < |dst| && At(srcStride, y, b) < |src| &&
    dst[At(dstStride, y, b)] == src[At(srcStride, y, b)]
  }

  /** dst' is dst with the byte columns from b1 to b2 of the rows from y1 to y2 copied. */
  ghost predicate Copied(dst: seq<Byte>, dst': seq<Byte>, dstStride: nat, src: seq<Byte>, srcStride: nat,
                         b1: nat, b2: nat, y1: nat, y2: nat) {
    && |dst'| == |dst|
    && (forall y: nat, b: nat :: y1 <= y < y2 && b1 <= b < b2 ==> Same(dst', dstStride, src, srcStride, y, b))
    && (forall y: nat, b: nat :: b < dstStride && At(dstStride, y, b) < |dst| && !(y1 <= y < y2 && b1 <= b < b2) ==>
          dst'[At(dstStride, y, b)] == dst[At(dstStride, y, b)])
  }

  lemma NothingCopied(dst: seq<Byte>, dstStride: nat, src: seq<Byte>, srcStride: nat, b1: nat, b2: nat, y1: nat)
    ensures Copied(dst, dst, dstStride, src, srcStride, b1, b2, y1, y1)
  {
  }

  /** One more row. */
  lemma RowCopied(dst: seq<Byte>, mid: seq<Byte>, dst': seq<Byte>, dstStride: nat, src: seq<Byte>, srcStride: nat,
                  b1: nat, b2: nat, y1: nat, y: nat)
    requires Copied(dst, mid, dstStride, src, srcStride, b1, b2, y1, y) && y1 <= y && b1 <= b2 <= dstStride
    requires b1 < b2 ==> At(dstStride, y, b2) <= |dst| && At(srcStride, y, b2) <= |src|
    requires |dst'| == |mid| && forall i :: 0 <= i < |mid| ==>
               dst'[i] == if At(dstStride, y, b1) <= i < At(dstStride, y, b2)
                          then src[i - At(dstStride, y, 0) + At(srcStride, y, 0)] else mid[i]
    ensures Copied(dst, dst', dstStride, src, srcStride, b1, b2, y1, y + 1)
  {
    forall y': nat, b: nat | y1 <= y' < y + 1 && b1 <= b < b2
      ensures Same(dst', dstStride, src, srcStride, y', b)
    {
      if y' < y {
        assert Same(mid, dstStride, src, srcStride, y', b);
        AtBelow(dstStride, y', y);
      }
    }
    forall y': nat, b: nat | b < dstStride && At(dstStride, y', b) < |dst| && !(y1 <= y' < y + 1 && b1 <= b < b2)
      ensures dst'[At(dstStride, y', b)] == dst[At(dstStride, y', b)]
    {
      assert mid[At(dstStride, y', b)] == dst[At(dstStride, y', b)];
      var i := At(dstStride, y', b);
      if At(dstStride, y, b1) <= i < At(dstStride, y, b2) {
        AtOnce(dstStride, y', b, y, i - At(dstStride, y, 0));
      }
    }
  }

  /** uploader_0.  Its rows must lie inside both buffers; for an upright rectangle that
      fits the rows of the destination it copies exactly that rectangle. */
  method Uploader0(dst: array<Byte>, src: seq<Byte>, srcStride: nat, dstStride: nat, x1: nat, y1: nat, x2: nat, y2: nat)
    requires RowsFit(dst.Length, dstStride, x1, y1, x2, y2) && RowsFit(|src|, srcStride, x1, y1, x2, y2)
    modifies dst
    ensures UprightIn(srcStride, dstStride, x1, y1, x2, y2) ==>
              Copied(old(dst[..]), dst[..], dstStride, src, srcStride, 4 * x1, 4 * x2, y1, y2)
    ensures y2 <= y1 || x1 == x2 ==> dst[..] == old(dst[..])
  {
    hide Copied, RowsFit, RowStart;
    var offset, length := RowOffset(x1), RowLength(x1, x2);
    RowBytes(x1, x2);
    ghost var upright := UprightIn(srcStride, dstStride, x1, y1, x2, y2);
    NothingCopied(dst[..], dstStride, src, srcStride, 4 * x1, 4 * x2, y1);
    var y := y1;
    while y < y2
      invariant y1 <= y && (y1 <= y2 ==> y <= y2) && (y2 <= y1 ==> y == y1)
      invariant upright ==> Copied(old(dst[..]), dst[..], dstStride, src, srcStride, 4 * x1, 4 * x2, y1, y)
      invariant y == y1 || x1 == x2 ==> dst[..] == old(dst[..])
    {
      ghost var mid := dst[..];
      RowFits(dst.Length, dstStride, x1, y1, x2, y2, y);
      RowFits(|src|, srcStride, x1, y1, x2, y2, y);
      if length > 0 {
        CopyRow(dst, RowStart(dstStride, y) + offset, src, RowStart(srcStride, y) + offset, length);
      }
      if upright {
        RowStartsAt(dstStride, y, y2);
        RowStartsAt(srcStride, y, y2);
        RowCopied(old(dst[..]), mid, dst[..], dstStride, src, srcStride, 4 * x1, 4 * x2, y1, y);
      }
      y := y + 1;
    }
  }

  /** A rectangle within the rows of both buffers, which are below 4 GiB. */
  predicate UprightIn(srcStride: nat, dstStride: nat, x1: nat, y1: nat, x2: nat, y2: nat) {
    x1 <= x2 && 4 * x2 < U32 && 4 * x2 <= dstStride && y1 <= y2 && dstStride * y2 < U32 && srcStride * y2 < U32
  }

  /** memcpy. */
  method CopyRow(dst: array<Byte>, to: nat, src: seq<Byte>, from: nat, length: nat)
    requires to + length <= dst.Length && from + length <= |src|
    modifies dst
    ensures forall i :: 0 <= i < dst.Length ==>
              dst[i] == if to <= i < to + length then src[i - to + from] else old(dst[i])
  {
    forall i | 0 <= i < length {
      dst[to + i] := src[from + i];
    }
  }

  lemma RowFits(size: nat, stride: nat, x1: nat, y1: nat, x2: nat, y2: nat, y: nat)
    requires RowsFit(size, stride, x1, y1, x2, y2) && y1 <= y < y2
    ensures RowLength(x1, x2) > 0 ==> RowStart(stride, y) + RowOffset(x1) + RowLength(x1, x2) <= size
  {
  }

  lemma RowBytes(x1: nat, x2: nat)
    ensures x1 == x2 ==> RowLength(x1, x2) == 0
    ensures x1 <= x2 && 4 * x2 < U32 ==> RowOffset(x1) == 4 * x1 && RowLength(x1, x2) == 4 * (x2 - x1)
  {
  }

  // ---------- when the copy stays inside the buffers

  predicate Int32(i: int) { -0x8000_0000 <= i < 0x8000_0000 }

  predicate Int32Rect(r: Rect) { Int32(r.x1) && Int32(r.y1) && Int32(r.x2) && Int32(r.y2) }

  /** The copy of a limited rectangle has rows but no sensible columns, or no sensible end
      of rows. */
  predicate Astray(l: Rect) { l.x1 != l.x2 && (l.y2 < 0 || (l.y1 < l.y2 && l.x2 < l.x1)) }

  /** Whatever the damage, a limited rectangle that is not astray stays inside every buffer
      that holds the surface. */
  lemma StraightStays(r: Rect, width: nat, height: nat, size: nat, stride: nat)
    requires Int32Rect(r) && 0 < width && 0 < height && Int32(width) && Int32(height)
    requires 4 * width <= stride && stride * height <= size && stride * height < U32
    requires !Astray(Limit(r, width, height))
    ensures var l := Limit(r, width, height);
            RowsFit(size, stride, ToU32(l.x1), ToU32(l.y1), ToU32(l.x2), ToU32(l.y2))
  {
    var l := Limit(r, width, height);
    SmallIsItself(l);
    if l.x1 == l.x2 {
      RowBytes(ToU32(l.x1), ToU32(l.x2));
    } else if l.y1 < l.y2 {
      StrideBound(stride, width, height);
      UprightFits(size, stride, width, height, l.x1, l.y1, l.x2, l.y2);
    }
  }

  lemma StrideBound(stride: nat, width: nat, height: nat)
    requires 4 * width <= stride && 0 < height && stride * height < U32
    ensures 4 * width < U32
  {
    RowsMonotone(stride, 1, height);
  }

  /** The last row that a limited rectangle makes the uploader copy ends inside the window,
      in the uploader's 32-bit arithmetic, or there is nothing to copy. */
  predicate LastRowFits(l: Rect, width: nat, height: nat) {
    var offset, length := RowOffset(ToU32(l.x1)), RowLength(ToU32(l.x1), ToU32(l.x2));
    || length == 0
    || (0 <= l.y2 && (l.y2 <= l.y1 || 4 * width * (l.y2 - 1) + offset + length <= 4 * width * height))
  }

  /** For all 32-bit damage and every surface below 2 GiB, the copy after limit stays inside
      the window exactly when its last row does; with a negative end of rows it never
      does. */
  lemma CopyStaysExactly(r: Rect, width: nat, height: nat)
    requires Int32Rect(r) && 0 < width && 0 < height && Int32(height) && 4 * width * height < 0x8000_0000
    ensures var l := Limit(r, width, height);
            RowsFit(4 * width * height, 4 * width, ToU32(l.x1), ToU32(l.y1), ToU32(l.x2), ToU32(l.y2)) <==>
            LastRowFits(l, width, height)
  {
    hide RowStart, RowOffset, RowLength, ToU32, RowsFit;
    var l := Limit(r, width, height);
    var size, stride := 4 * width * height, 4 * width;
    var x1, y1, x2, y2 := ToU32(l.x1), ToU32(l.y1), ToU32(l.x2), ToU32(l.y2);
    RowEnds(l);
    RowsMonotone(stride, 1, height);
    if RowLength(x1, x2) == 0 {
      RowsFitIf(size, stride, x1, y1, x2, y2, 0);
    } else if l.y2 < 0 {
      if RowsFit(size, stride, x1, y1, x2, y2) {
        RowFits(size, stride, x1, y1, x2, y2, 0x7fff_ffff);
        LastSignedRow(stride);
        assert false;
      }
    } else if l.y2 <= l.y1 {
      RowsFitIf(size, stride, x1, y1, x2, y2, 0);
    } else {
      RowStartsAt(stride, y2 - 1, height);
      if RowsFit(size, stride, x1, y1, x2, y2) {
        RowFits(size, stride, x1, y1, x2, y2, y2 - 1);
      }
      if LastRowFits(l, width, height) {
        RowsFitIf(size, stride, x1, y1, x2, y2, height);
      }
    }
  }

  lemma RowEnds(l: Rect)
    requires 0 <= l.y1 < 0x8000_0000 && Int32(l.y2)
    ensures ToU32(l.y1) == l.y1 && ToU32(l.y2) == (if l.y2 >= 0 then l.y2 else U32 + l.y2)
    ensures l.y2 < 0 ==> ToU32(l.y1) <= 0x7fff_ffff < ToU32(l.y2)
  {
  }

  /** The largest row that a signed number counts starts a row's length below 4 GiB. */
  lemma LastSignedRow(stride: nat)
    requires stride % 4 == 0 && 0 < stride < U32
    ensures RowStart(stride, 0x7fff_ffff) == U32 - stride
  {
    var q := stride / 4;
    assert stride == 4 * q;
    RemainderIs(stride * 0x7fff_ffff, 2 * q - 1, U32 - stride);
  }

  /** Rows fit if there are none, or if the last one does below 4 GiB. */
  lemma RowsFitIf(size: nat, stride: nat, x1: nat, y1: nat, x2: nat, y2: nat, height: nat)
    requires RowLength(x1, x2) == 0 || y2 <= y1 ||
             (y2 <= height && stride * height < U32 &&
              stride * (y2 - 1) + RowOffset(x1) + RowLength(x1, x2) <= size)
    ensures RowsFit(size, stride, x1, y1, x2, y2)
  {
    hide RowStart, RowOffset, RowLength;
    forall y | y1 <= y < y2 && RowLength(x1, x2) > 0
      ensures RowStart(stride, y) + RowOffset(x1) + RowLength(x1, x2) <= size
    {
      RowStartsAt(stride, y, height);
      RowsMonotone(stride, y, y2 - 1);
    }
  }

  /** For a surface and damage within 16-bit coordinates, of whatever sign and order, the
      copy after limit stays inside the window exactly when the limited rectangle is not
      astray. */
  lemma CopyStaysInside(r: Rect, width: nat, height: nat)
    requires 0 < width < 0x4000 && 0 < height < 0x4000
    requires Int16(r.x1) && Int16(r.y1) && Int16(r.x2) && Int16(r.y2)
    ensures var l := Limit(r, width, height);
            RowsFit(4 * width * height, 4 * width, ToU32(l.x1), ToU32(l.y1), ToU32(l.x2), ToU32(l.y2)) <==> !Astray(l)
  {
    hide RowsFit, ToU32;
    var l := Limit(r, width, height);
    MulLe(4 * width, 0x1_0000, height);
    if Astray(l) {
      AstrayEscapes(4 * width * height, 4 * width, height, l);
    } else {
      StraightStays(r, width, height, 4 * width * height, 4 * width);
    }
  }

  predicate Int16(i: int) { -0x8000 <= i < 0x8000 }

  lemma AstrayEscapes(size: nat, stride: nat, height: nat, l: Rect)
    requires size == stride * height && stride < 0x1_0000 && 0 < height < 0x4000
    requires 0 <= l.x1 < 0x8000 && 0 <= l.y1 < 0x8000 && Int16(l.x2) && -0x8000 <= l.y2 <= height && Astray(l)
    ensures !RowsFit(size, stride, ToU32(l.x1), ToU32(l.y1), ToU32(l.x2), ToU32(l.y2))
  {
    hide ToU32, RowOffset, RowLength, RowStart;
    var x1, y1, x2, y2 := ToU32(l.x1), ToU32(l.y1), ToU32(l.x2), ToU32(l.y2);
    AstrayBytes(l);
    AstrayRows(l);
    var y := if l.y2 >= 0 || y1 >= height then y1 else height;
    MulLe(stride, 0x1_0000, y);
    RowStartsAt(stride, y, y);
    MulLe(stride, 0x1_0000, height);
    RowAbove(stride, height, y);
    assert y1 <= y < y2;
    assert RowStart(stride, y) + RowOffset(x1) + RowLength(x1, x2) > size;
  }

  lemma RowAbove(stride: nat, height: nat, y: nat)
    ensures y >= height ==> At(stride, y, 0) >= stride * height
  {
    if y >= height { RowsMonotone(stride, height, y); }
  }

  lemma MulLe(a: nat, b: nat, c: nat)
    requires a <= b
    ensures a * c <= b * c
  {
    assert (b - a) * c >= 0;
  }

  lemma AstrayRows(l: Rect)
    requires 0 <= l.y1 < 0x8000 && -0x8000 <= l.y2 < 0x8000
    ensures ToU32(l.y1) == l.y1 && ToU32(l.y2) == if l.y2 >= 0 then l.y2 else U32 + l.y2
  {
  }

  lemma AstrayBytes(l: Rect)
    requires 0 <= l.x1 < 0x8000 && -0x8000 <= l.x2 < 0x8000 && l.x1 != l.x2
    ensures RowLength(ToU32(l.x1), ToU32(l.x2)) > 0
    ensures l.x2 < l.x1 ==> RowOffset(ToU32(l.x1)) + RowLength(ToU32(l.x1), ToU32(l.x2)) == U32 + 4 * l.x2
  {
    var x1, x2, d := ToU32(l.x1), ToU32(l.x2), l.x2 - l.x1;
    assert x1 == l.x1 && x2 == if l.x2 >= 0 then l.x2 else U32 + l.x2;
    assert (x2 - x1) % U32 == if d >= 0 then d else U32 + d;
    if d < 0 {
      RemainderIs((U32 + d) * 4, 3, U32 + 4 * d);
    }
  }

  lemma RemainderIs(x: nat, q: nat, r: nat)
    requires x == U32 * q + r && r < U32
    ensures x % U32 == r
  {
  }

  /** Damage that is empty, or that meets the surface, is never astray; nor is damage that
      lies wholly below it. */
  lemma HarmlessDamage(r: Rect, width: nat, height: nat)
    requires 0 < width && 0 < height
    ensures Empty(r) ==> !Astray(Limit(r, width, height))
    ensures forall x, y :: 0 <= x < width && 0 <= y < height && Contains(r, x, y) ==> !Astray(Limit(r, width, height))
    ensures r.y1 >= height && r.y2 >= 0 ==> !Astray(Limit(r, width, height))
  {
  }

  /** Damage that lies left of the surface, or has a negative width, leads the copy outside. */
  lemma DamageOutside()
    ensures var l := Limit(Rect(-20, 0, -10, 10), 100, 100);
            Astray(l) && !RowsFit(4 * 100 * 100, 4 * 100, ToU32(l.x1), ToU32(l.y1), ToU32(l.x2), ToU32(l.y2))
    ensures var l := Limit(Rect(50, 0, 30, 10), 100, 100);
            Astray(l) && !RowsFit(4 * 100 * 100, 4 * 100, ToU32(l.x1), ToU32(l.y1), ToU32(l.x2), ToU32(l.y2))
  {
    CopyStaysInside(Rect(-20, 0, -10, 10), 100, 100);
    CopyStaysInside(Rect(50, 0, 30, 10), 100, 100);
  }

  /** Beyond 16 bits an astray copy can wrap around and stay inside: this one copies the
      columns from 3 on, none of which is damaged. */
  lemma DamageWrapsBack()
    ensures var l := Limit(Rect(0x4000_0003, 0, 0x4000_0009, 10), 100, 100);
            && Astray(l) && RowOffset(ToU32(l.x1)) == 12 && RowLength(ToU32(l.x1), ToU32(l.x2)) == 388
            && RowsFit(4 * 100 * 100, 4 * 100, ToU32(l.x1), ToU32(l.y1), ToU32(l.x2), ToU32(l.y2))
  {
    forall y | 0 <= y < 10
      ensures RowStart(400, y) == 400 * y
    {
    }
  }

  lemma UprightFits(size: nat, stride: nat, width: nat, height: nat, x1: nat, y1: nat, x2: nat, y2: nat)
    requires x1 <= x2 <= width && y2 <= height && 4 * width <= stride && 4 * width < U32
    requires stride * height <= size && stride * height < U32
    ensures RowsFit(size, stride, x1, y1, x2, y2)
  {
    RowBytes(x1, x2);
    forall y | y1 <= y < y2 && RowLength(x1, x2) > 0
      ensures RowStart(stride, y) + RowOffset(x1) + RowLength(x1, x2) <= size
    {
      RowStartsAt(stride, y, height);
      AtBound(stride, y, 4 * x2, height);
    }
  }

  predicate IsUpright(l: Rect) { 0 <= l.x1 <= l.x2 && 0 <= l.y1 <= l.y2 }

  /** Outside the damage the window showed the surface, and the damage has been copied. */
  lemma CopyCompletes(dst: seq<Byte>, dst': seq<Byte>, src: seq<Byte>, srcStride: nat, width: nat, height: nat,
                      l: Rect, y: nat, b: nat)
    requires 0 <= l.x1 && 0 <= l.y1
    requires IsUpright(l) ==> Copied(dst, dst', 4 * width, src, srcStride, 4 * l.x1, 4 * l.x2, l.y1, l.y2)
    requires !IsUpright(l) ==> dst' == dst
    requires y < height && b < 4 * width && |dst| == 4 * width * height
    requires Contains(l, b / 4, y) || Same(dst, 4 * width, src, srcStride, y, b)
    ensures Same(dst', 4 * width, src, srcStride, y, b)
  {
    if Contains(l, b / 4, y) {
      assert l.y1 <= y < l.y2 && 4 * l.x1 <= b < 4 * l.x2;
    }
  }

  /** Nothing but the damaged pixels of a window has changed. */
  ghost predicate OnlyDamage(dst: seq<Byte>, dst': seq<Byte>, l: Rect, width: nat, height: nat) {
    |dst'| == |dst| &&
    forall y: nat, b: nat :: b < 4 * width && At(4 * width, y, b) < |dst| && !Contains(l, b / 4, y) ==>
      dst'[At(4 * width, y, b)] == dst[At(4 * width, y, b)]
  }

  lemma CopyIsDamage(dst: seq<Byte>, dst': seq<Byte>, src: seq<Byte>, srcStride: nat, width: nat, height: nat, l: Rect)
    requires 0 <= l.x1 && 0 <= l.y1 && |dst'| == |dst|
    requires IsUpright(l) ==> Copied(dst, dst', 4 * width, src, srcStride, 4 * l.x1, 4 * l.x2, l.y1, l.y2)
    requires !IsUpright(l) ==> dst' == dst
    ensures OnlyDamage(dst, dst', l, width, height)
  {
    forall y: nat, b: nat | b < 4 * width && At(4 * width, y, b) < |dst| && !Contains(l, b / 4, y)
      ensures dst'[At(4 * width, y, b)] == dst[At(4 * width, y, b)]
    {
      if IsUpright(l) {
        assert !(l.y1 <= y < l.y2 && 4 * l.x1 <= b < 4 * l.x2);
      }
    }
  }

  /** A surface in shared memory, whose size is a positive 32-bit integer. */
  ghost predicate Drawable(width: nat, height: nat, stride: nat, pixels: seq<Byte>) {
    && 0 < width && 0 < height && Int32(width) && Int32(height) && 4 * width <= stride
    && stride * height <= |pixels| && stride * height < 0x8000_0000
  }

  /** Two contents look the same at a pixel. */
  ghost predicate PixelSame(src: seq<Byte>, stride: nat, src': seq<Byte>, stride': nat, x: nat, y: nat) {
    forall b: nat :: 4 * x <= b < 4 * x + 4 ==> Same(src, stride, src', stride', y, b)
  }

  lemma StillSame(dst: seq<Byte>, dstStride: nat, src: seq<Byte>, stride: nat, src': seq<Byte>, stride': nat, y: nat,
                  b: nat)
    requires Same(dst, dstStride, src, stride, y, b) && PixelSame(src, stride, src', stride', b / 4, y)
    ensures Same(dst, dstStride, src', stride', y, b)
  {
    assert Same(src, stride, src', stride', y, b);
  }

  class X11Surface {
    var hasData: bool
    var width: nat
    var height: nat
    var stride: nat
    var pixels: seq<Byte>
    var windowWidth: nat
    var windowHeight: nat
    var window: array<Byte>
    var damage: Rect
    /** The pixels that the client has changed and not reported yet. */
    ghost var dirty: set<(nat, nat)>

    ghost predicate Known(y: nat, b: nat)
      reads this
    {
      Contains(damage, b / 4, y) || (b / 4, y) in dirty
    }

    ghost predicate Shown(y: nat, b: nat)
      reads this, window
    {
      windowWidth == width && windowHeight == height && Same(window[..], 4 * width, pixels, stride, y, b)
    }

    /** Every byte of the surface is shown in the window or known to be out of date. */
    ghost predicate Tracked()
      reads this, window
    {
      forall y: nat, b: nat :: y < height && b < 4 * width ==> Known(y, b) || Shown(y, b)
    }

    ghost predicate Shaped()
      reads this, window
    {
      && window.Length == 4 * windowWidth * windowHeight
      && (hasData ==> Drawable(width, height, stride, pixels))
    }

    ghost predicate Valid()
      reads this, window
    {
      && Shaped() && Int32Rect(damage)
      && (hasData ==> Tracked() && forall p :: p in dirty ==> p.0 < width && p.1 < height)
    }

    /** The window shows the whole surface. */
    ghost predicate UpToDate()
      reads this, window
    {
      forall y: nat, b: nat :: y < height && b < 4 * width ==> Shown(y, b)
    }

    /** The damage does not lead the copy astray. */
    predicate Safe()
      reads this
    {
      !Astray(Limit(damage, width, height))
    }

    constructor ()
      ensures Valid() && !hasData && fresh(window)
    {
      hasData, width, height, stride, pixels := false, 0, 0, 0, [];
      windowWidth, windowHeight, window := 1280, 720, new Byte[4 * 1280 * 720];
      damage, dirty := NOTHING, {};
    }

    /** The client draws: every pixel that looks different, or every pixel after a change
        of size, still has to be reported. */
    method Draw(width': nat, height': nat, stride': nat, pixels': seq<Byte>)
      requires Valid() && Drawable(width', height', stride', pixels')
      modifies `hasData, `width, `height, `stride, `pixels, `dirty
      ensures Valid() && hasData && width == width' && height == height' && stride == stride' && pixels == pixels'
      ensures forall p :: p in dirty <==>
                p.0 < width && p.1 < height &&
                (!old(hasData) || old(width) != width || old(height) != height || p in old(dirty) ||
                 !PixelSame(old(pixels), old(stride), pixels, stride, p.0, p.1))
    {
      hide Same, PixelSame;
      dirty := set x: nat, y: nat | 0 <= x < width' && 0 <= y < height' &&
        (!hasData || width != width' || height != height' || (x, y) in dirty ||
         !PixelSame(pixels, stride, pixels', stride', x, y)) :: (x, y);
      hasData, width, height, stride, pixels := true, width', height', stride', pixels';
      forall y: nat, b: nat | y < height && b < 4 * width
        ensures Known(y, b) || Shown(y, b)
      {
        if (b / 4, y) !in dirty {
          assert old(Known(y, b)) || old(Shown(y, b));
          if old(Shown(y, b)) {
            StillSame(window[..], 4 * width, old(pixels), old(stride), pixels, stride, y, b);
          }
        }
      }
    }

    /** A commit whose changes have all been reported. */
    method Commit()
      requires Valid() && dirty == {} && (hasData ==> Safe())
      modifies this, window
      ensures Valid() && (hasData ==> UpToDate() && damage == NOTHING)
      ensures pixels == old(pixels) && width == old(width) && height == old(height)
    {
      Update(false);
    }

    /** An expose event. */
    method Expose()
      requires Valid()
      modifies this, window
      ensures Valid() && (hasData ==> UpToDate() && damage == NOTHING)
      ensures pixels == old(pixels) && width == old(width) && height == old(height)
    {
      Update(true);
    }

    /** The damage handler; its sums are 32-bit. */
    method Damage(x: int, y: int, w: int, h: int)
      requires Valid() && Int32(x) && Int32(y) && Int32(w) && Int32(h)
      modifies `damage, `dirty
      ensures Valid() && damage == Expand(old(damage), Reported(x, y, w, h))
      ensures dirty == set p | p in old(dirty) && !Contains(Reported(x, y, w, h), p.0, p.1)
    {
      hide Same;
      var r := Reported(x, y, w, h);
      damage := Expand(damage, r);
      dirty := set p | p in dirty && !Contains(r, p.0, p.1);
      forall y: nat, b: nat | hasData && y < height && b < 4 * width
        ensures Known(y, b) || Shown(y, b)
      {
        assert old(Known(y, b)) || old(Shown(y, b));
      }
    }

    /** The upload of a limited rectangle. */
    method CopyOut(l: Rect)
      requires Shaped() && hasData && windowWidth == width && windowHeight == height
      requires Int32Rect(damage) && l == Limit(damage, width, height) && !Astray(l)
      modifies window
      ensures IsUpright(l) ==>
                Copied(old(window[..]), window[..], 4 * width, pixels, stride, 4 * l.x1, 4 * l.x2, l.y1, l.y2)
      ensures !IsUpright(l) ==> window[..] == old(window[..])
    {
      hide Copied, RowsFit;
      SmallIsItself(l);
      MulLe(4 * width, stride, height);
      StraightStays(damage, width, height, window.Length, 4 * width);
      StraightStays(damage, width, height, |pixels|, stride);
      StrideBound(stride, width, height);
      if IsUpright(l) {
        RowsBelow(stride, l.y2, height);
        RowsBelow(4 * width, l.y2, height);
      }
      Uploader0(window, pixels, stride, width * 4, ToU32(l.x1), ToU32(l.y1), ToU32(l.x2), ToU32(l.y2));
    }

    /** update.  Copies the damage, or everything, and forgets it. */
    method Update(full: bool)
      requires Valid() && (hasData && !full ==> Safe())
      modifies this, window
      ensures Valid() && hasData == old(hasData) && width == old(width) && height == old(height)
      ensures pixels == old(pixels) && stride == old(stride)
      ensures hasData && (full || old(dirty) == {}) ==> UpToDate()
      ensures hasData ==> damage == NOTHING
      ensures dirty == if hasData && full then {} else old(dirty)
      ensures fresh(window) || window == old(window)
      ensures hasData && !full && old(windowWidth) == width && old(windowHeight) == height ==>
                window == old(window) &&
                OnlyDamage(old(window[..]), window[..], Limit(old(damage), width, height), width, height)
    {
      hide Same, Copied, Expand, Limit, OnlyDamage;
      if !hasData {
        return;
      }
      FitWindow();
      if full {
        DamageAll();
      }
      Show();
    }

    method DamageAll()
      requires Valid() && hasData
      modifies `damage, `dirty
      ensures Valid() && Safe() && dirty == {}
    {
      hide Expand, Same;
      ghost var all := Reported(0, 0, width, height);
      ghost var dirty0 := dirty;
      Damage(0, 0, width, height);
      assert Contains(all, 0, 0) && Contains(damage, 0, 0);
      HarmlessDamage(damage, width, height);
      assert forall p :: p in dirty0 ==> Contains(all, p.0, p.1);
    }

    method FitWindow()
      requires Valid() && hasData
      modifies `windowWidth, `windowHeight, `window
      ensures Valid() && windowWidth == width && windowHeight == height
      ensures fresh(window) || window == old(window)
      ensures old(windowWidth) == width && old(windowHeight) == height ==> window == old(window)
    {
      hide Same;
      if windowWidth != width || windowHeight != height {
        windowWidth, windowHeight := width, height;
        window := new Byte[4 * width * height];
        forall y: nat, b: nat | y < height && b < 4 * width
          ensures Known(y, b)
        {
          assert old(Known(y, b)) || old(Shown(y, b));
        }
      }
    }

    /** Limits the damage, copies it out and resets it. */
    method Show()
      requires Valid() && hasData && windowWidth == width && windowHeight == height && Safe()
      modifies `damage, window
      ensures Valid() && damage == NOTHING
      ensures forall y: nat, b: nat :: y < height && b < 4 * width ==> (b / 4, y) in dirty || Shown(y, b)
      ensures OnlyDamage(old(window[..]), window[..], Limit(old(damage), width, height), width, height)
    {
      hide Same, Copied, Expand, Limit, OnlyDamage;
      ghost var dst := window[..];
      var l := Limit(damage, width, height);
      LimitsKept(damage, width, height);
      CopyOut(l);
      CopyIsDamage(dst, window[..], pixels, stride, width, height, l);
      damage := NOTHING;
      forall y: nat, b: nat | y < height && b < 4 * width
        ensures (b / 4, y) in dirty || Shown(y, b)
      {
        assert old(Known(y, b)) || old(Shown(y, b));
        if (b / 4, y) !in dirty {
          CopyCompletes(dst, window[..], pixels, stride, width, height, l, y, b);
        }
      }
    }
  }

  /** A 32-bit sum, in two's complement. */
  function ToInt32(i: int): (r: int)
    ensures Int32(r) && (Int32(i) ==> r == i)
  {
    (i + 0x8000_0000) % U32 - 0x8000_0000
  }

  function Reported(x: int, y: int, w: int, h: int): Rect { Rect(x, y, ToInt32(x + w), ToInt32(y + h)) }

  /** The reported rectangle is the client's exactly when its corner fits 32 bits. */
  lemma ReportedExactly(x: int, y: int, w: int, h: int)
    ensures Reported(x, y, w, h) == Rect(x, y, x + w, y + h) <==> Int32(x + w) && Int32(y + h)
  {
  }

  /** Damage "from here to the end", reported with the largest width, is lost and leads the
      copy astray unless it starts at 0. */
  lemma ReportOverflows(x: int, width: nat, height: nat)
    requires 0 < x < width && Int32(width) && 0 < height && Int32(height)
    ensures var r := Reported(x, 0, 0x7fff_ffff, height);
            (forall a, b :: !Contains(r, a, b)) && Astray(Limit(r, width, height))
  {
  }

  lemma LimitsKept(r: Rect, width: nat, height: nat)
    ensures var l := Limit(r, width, height); 0 <= l.x1 && 0 <= l.y1 && l.x2 <= width && l.y2 <= height
  {
  }

  lemma RowsBelow(stride: nat, y: nat, height: nat)
    requires y <= height && stride * height < U32
    ensures stride * y < U32
  {
    RowsMonotone(stride, y, height);
  }

  lemma SmallIsItself(l: Rect)
    ensures 0 <= l.x1 < U32 ==> ToU32(l.x1) == l.x1
    ensures 0 <= l.y1 < U32 ==> ToU32(l.y1) == l.y1
    ensures 0 <= l.x2 < U32 ==> ToU32(l.x2) == l.x2
    ensures 0 <= l.y2 < U32 ==> ToU32(l.y2) == l.y2
  {
  }
}
