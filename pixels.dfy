/** Bytes and pixels of one instantiation of the interleaved RLE decoder.
    The decoder is compiled once per colour depth; PIXEL_SIZE is 1, 2 or 3
    bytes (8, 15/16 and 24 bits per pixel).  A pixel is modelled as the
    sequence of its bytes in buffer order: the decoder only copies pixels
    and XORs them, and both act byte by byte, so byte order never matters. */
module Pixels {

  type byte = bv8

  /** PIXEL_SIZE of an instantiation, in bytes. */
  type PixelSize = k: nat | 1 <= k <= 3 witness 1

  /** A pixel is the run of its bytes as stored in a buffer. */
  type Pixel = seq<byte>

  /** The all-zero pixel (BLACK_PIXEL). */
  function Black(bpp: PixelSize): (p: Pixel)
    ensures |p| == bpp
  {
    seq(bpp, i => 0)
  }

  /** The all-ones pixel (WHITE_PIXEL truncated to PIXEL_SIZE bytes). */
  function White(bpp: PixelSize): (p: Pixel)
    ensures |p| == bpp
  {
    seq(bpp, i => 0xFF)
  }

  /** Bitwise XOR of two pixels of the same width. */
  function Xor(a: Pixel, b: Pixel): (r: Pixel)
    requires |a| == |b|
    ensures |r| == |a|
  {
    seq(|a|, i requires 0 <= i < |a| => a[i] ^ b[i])
  }

  /** The pixel stored at byte offset pos (DESTREADPIXEL / SRCREADPIXEL). */
  function PixelAt(s: seq<byte>, pos: nat, bpp: nat): (p: Pixel)
    requires pos + bpp <= |s|
    ensures |p| == bpp
  {
    s[pos..pos + bpp]
  }

  /** The number of bytes of n pixels of bpp bytes each, n * bpp, spelled
      out per pixel size so that it stays linear in n. */
  function Bytes(n: nat, bpp: PixelSize): nat {
    if bpp == 1 then n else if bpp == 2 then n + n else n + n + n
  }

  /** a and b have the same length and differ at most in the bytes
      lo .. hi-1. */
  ghost predicate AgreeOutside(a: seq<byte>, b: seq<byte>, lo: nat, hi: nat) {
    |a| == |b| && forall i :: 0 <= i < |a| && (i < lo || hi <= i) ==> a[i] == b[i]
  }

  /** A change confined to lo .. hi is confined to any range around it. */
  lemma AgreeOutsideWiden(a: seq<byte>, b: seq<byte>, lo: nat, hi: nat, lo2: nat, hi2: nat)
    requires AgreeOutside(a, b, lo, hi) && lo2 <= lo && hi <= hi2
    ensures AgreeOutside(a, b, lo2, hi2)
  {
  }

  /** Two changes, each confined to a range inside lo .. hi, are together
      confined to lo .. hi. */
  lemma AgreeOutsideTrans(a: seq<byte>, b: seq<byte>, c: seq<byte>, lo1: nat, hi1: nat, lo2: nat, hi2: nat, lo: nat, hi: nat)
    requires AgreeOutside(a, b, lo1, hi1) && AgreeOutside(b, c, lo2, hi2)
    requires lo <= lo1 && lo <= lo2 && hi1 <= hi && hi2 <= hi
    ensures AgreeOutside(a, c, lo, hi)
  {
  }

  /** s with the bytes at pos .. pos + |b| replaced by b
      (DESTWRITEPIXEL for one pixel, a block copy for several). */
  function Overwrite(s: seq<byte>, pos: nat, b: seq<byte>): (r: seq<byte>)
    requires pos + |b| <= |s|
    ensures |r| == |s|
  {
    seq(|s|, i requires 0 <= i < |s| => if pos <= i < pos + |b| then b[i - pos] else s[i])
  }

  /** Overwrite changes exactly the bytes pos .. pos + |b| - 1, to b. */
  lemma OverwriteFrame(s: seq<byte>, pos: nat, b: seq<byte>)
    requires pos + |b| <= |s|
    ensures AgreeOutside(s, Overwrite(s, pos, b), pos, pos + |b|)
  {
  }

  /** Overwrite leaves b at pos. */
  lemma OverwriteRead(s: seq<byte>, pos: nat, b: seq<byte>)
    requires pos + |b| <= |s|
    ensures Overwrite(s, pos, b)[pos..pos + |b|] == b
  {
    var t := Overwrite(s, pos, b);
    forall i | 0 <= i < |b| ensures t[pos..pos + |b|][i] == b[i] {
      assert t[pos + i] == b[i];
    }
  }

  /** Writing a then b right after it is writing a + b. */
  lemma OverwriteAppend(s: seq<byte>, pos: nat, a: seq<byte>, b: seq<byte>)
    requires pos + |a| + |b| <= |s|
    ensures Overwrite(Overwrite(s, pos, a), pos + |a|, b) == Overwrite(s, pos, a + b)
  {
    var t := Overwrite(Overwrite(s, pos, a), pos + |a|, b);
    var u := Overwrite(s, pos, a + b);
    forall i | 0 <= i < |s| ensures t[i] == u[i] {
    }
  }

  /** Copying src[s0..s] to base and then src[s..s+n] right after it, at
      d, is copying src[s0..s+n] to base. */
  lemma OverwriteSlices(out: seq<byte>, base: nat, d: nat, src: seq<byte>, s0: nat, s: nat, n: nat)
    requires s0 <= s && s + n <= |src| && d == base + (s - s0) && d + n <= |out|
    ensures Overwrite(Overwrite(out, base, src[s0..s]), d, src[s..s + n]) == Overwrite(out, base, src[s0..s + n])
  {
    OverwriteAppend(out, base, src[s0..s], src[s..s + n]);
    assert src[s0..s] + src[s..s + n] == src[s0..s + n];
  }

}
