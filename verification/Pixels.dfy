/** Converting one pixel, and two at a time in a 64-bit word (were/were_upload.cpp). */
module Pixels {

  /** A 32-bit pixel kept in 64 bits: alpha set, or red and blue swapped. */
  function OpaquePixel(p: bv64): bv64 { p | 0xFF00_0000 }

  function SwapPixel(p: bv64): bv64 {
    ((p >> 16) & 0x0000_00FF) | (p & 0x0000_FF00) | ((p << 16) & 0x00FF_0000)
  }

  function OpaqueWord(w: bv64): bv64 { w | 0xFF00_0000_FF00_0000 }

  function SwapWord(w: bv64): bv64 {
    ((w >> 16) & 0x0000_00FF_0000_00FF) | (w & 0x0000_FF00_0000_FF00) | ((w << 16) & 0x00FF_0000_00FF_0000)
  }

  /** The pixels of a word: the even column in the low half, the odd one in the high. */
  function Low(w: bv64): bv64 { w & 0xFFFF_FFFF }

  function High(w: bv64): bv64 { w >> 32 }

  /** Converting a word converts both its pixels, and no bit crosses between them. */
  lemma OpaqueHalves(w: bv64)
    ensures Low(OpaqueWord(w)) == OpaquePixel(Low(w)) && High(OpaqueWord(w)) == OpaquePixel(High(w))
  {
  }

  lemma SwapHalves(w: bv64)
    ensures Low(SwapWord(w)) == SwapPixel(Low(w)) && High(SwapWord(w)) == SwapPixel(High(w))
  {
  }

  /** Byte k of a pixel: blue, green, red and alpha, or red, green, blue and alpha. */
  function ByteOf(p: bv64, k: bv64): bv64
    requires k < 4
  {
    (p >> (8 * k)) & 0xFF
  }

  /** An opaque pixel has its three colours and full alpha. */
  lemma OpaqueBytes(p: bv64)
    ensures ByteOf(OpaquePixel(p), 0) == ByteOf(p, 0) && ByteOf(OpaquePixel(p), 1) == ByteOf(p, 1)
    ensures ByteOf(OpaquePixel(p), 2) == ByteOf(p, 2) && ByteOf(OpaquePixel(p), 3) == 0xFF
    ensures OpaquePixel(p) >> 32 == p >> 32
  {
  }

  /** A swapped pixel has its first and third byte exchanged, the second as it was, and
      nothing else. */
  lemma SwapBytes(p: bv64)
    ensures ByteOf(SwapPixel(p), 0) == ByteOf(p, 2) && ByteOf(SwapPixel(p), 1) == ByteOf(p, 1)
    ensures ByteOf(SwapPixel(p), 2) == ByteOf(p, 0) && SwapPixel(p) >> 24 == 0
  {
  }
}
