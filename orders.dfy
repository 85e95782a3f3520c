/** The order table of the RLE Compressed Bitmap Stream (section
    2.2.9.1.1.3.1.2.4 of MS-RDPBCGR) and the small helpers the decoder takes
    from the file that instantiates it: order-code extraction, run-length
    extraction and the two range checks. */
module Orders {
  import opened Pixels

  // Order codes.  Regular orders carry the code in the top three bits of the
  // header byte, lite orders in the top four bits, and mega-mega and special
  // orders use the whole byte.
  const RegularBgRun: nat := 0x00
  const RegularFgRun: nat := 0x01
  const RegularFgBgImage: nat := 0x02
  const RegularColorRun: nat := 0x03
  const RegularColorImage: nat := 0x04
  const LiteSetFgFgRun: nat := 0x0C
  const LiteSetFgFgBgImage: nat := 0x0D
  const LiteDitheredRun: nat := 0x0E
  const MegaMegaBgRun: nat := 0xF0
  const MegaMegaFgRun: nat := 0xF1
  const MegaMegaFgBgImage: nat := 0xF2
  const MegaMegaColorRun: nat := 0xF3
  const MegaMegaColorImage: nat := 0xF4
  const MegaMegaSetFgRun: nat := 0xF6
  const MegaMegaSetFgBgImage: nat := 0xF7
  const MegaMegaDitheredRun: nat := 0xF8
  const SpecialFgBg1: nat := 0xF9
  const SpecialFgBg2: nat := 0xFA
  const SpecialWhite: nat := 0xFD
  const SpecialBlack: nat := 0xFE

  /** The fixed bitmasks of the two special FG/BG orders. */
  const MaskSpecialFgBg1: byte := 0x03
  const MaskSpecialFgBg2: byte := 0x05

  predicate IsBackgroundRun(code: nat) { code == RegularBgRun || code == MegaMegaBgRun }

  predicate IsForegroundRun(code: nat) {
    code == RegularFgRun || code == MegaMegaFgRun || code == LiteSetFgFgRun || code == MegaMegaSetFgRun
  }

  predicate IsDitheredRun(code: nat) { code == LiteDitheredRun || code == MegaMegaDitheredRun }

  predicate IsColorRun(code: nat) { code == RegularColorRun || code == MegaMegaColorRun }

  predicate IsFgBgImage(code: nat) {
    code == RegularFgBgImage || code == MegaMegaFgBgImage || code == LiteSetFgFgBgImage || code == MegaMegaSetFgBgImage
  }

  predicate IsColorImage(code: nat) { code == RegularColorImage || code == MegaMegaColorImage }

  /** The orders that first load a new foreground pixel from the stream. */
  predicate IsSetFg(code: nat) {
    code == LiteSetFgFgRun || code == MegaMegaSetFgRun || code == LiteSetFgFgBgImage || code == MegaMegaSetFgBgImage
  }

  /** Orders whose header carries a run length. */
  predicate IsRunCode(code: nat) {
    IsBackgroundRun(code) || IsForegroundRun(code) || IsDitheredRun(code) || IsColorRun(code)
    || IsFgBgImage(code) || IsColorImage(code)
  }

  /** The single-byte orders. */
  predicate IsSpecial(code: nat) {
    code == SpecialFgBg1 || code == SpecialFgBg2 || code == SpecialWhite || code == SpecialBlack
  }

  /** ExtractCodeId: the order code of a header byte. */
  function ExtractCodeId(hdr: byte): (code: nat)
    ensures hdr < 0xC0 ==> code < 6 && code * 32 <= hdr as nat < code * 32 + 32
    ensures 0xC0 <= hdr < 0xF0 ==> 0x0C <= code <= 0x0E && code * 16 <= hdr as nat < code * 16 + 16
    ensures 0xF0 <= hdr ==> code == hdr as nat
  {
    if hdr & 0xC0 != 0xC0 then (hdr >> 5) as nat
    else if hdr & 0xF0 == 0xF0 then hdr as nat
    else (hdr >> 4) as nat
  }

  /** The outcome of ExtractRunLength: the run length and the number of
      header bytes it occupies; an advance of 0 reports a truncated header. */
  datatype RunHeader = RunHeader(runLength: nat, advance: nat)

  /** A run length held in the low bits of the header byte (selected by
      lowMask, then multiplied by scale), or, when those bits are zero, in the
      next byte plus bias. */
  function ShortRunLength(src: seq<byte>, pos: nat, lowMask: byte, scale: nat, bias: nat): (h: RunHeader)
    requires pos < |src|
    ensures h.advance == 0 <==> src[pos] & lowMask == 0 && pos + 2 > |src|
    ensures h.advance != 0 ==> pos + h.advance <= |src| && h.advance <= 2
    ensures h.advance == 0 ==> h.runLength == 0
  {
    var low := (src[pos] & lowMask) as nat;
    if low == 0 then
      if pos + 2 > |src| then RunHeader(0, 0) else RunHeader(src[pos + 1] as nat + bias, 2)
    else
      RunHeader(low * scale, 1)
  }

  /** A 16-bit little-endian run length in the two bytes after the header. */
  function MegaMegaRunLength(src: seq<byte>, pos: nat): (h: RunHeader)
    requires pos < |src|
    ensures h.advance == 0 <==> pos + 3 > |src|
    ensures h.advance != 0 ==> h.advance == 3 && pos + 3 <= |src|
    ensures h.runLength < 0x1_0000
  {
    if pos + 3 > |src| then RunHeader(0, 0)
    else RunHeader(src[pos + 1] as nat + 256 * src[pos + 2] as nat, 3)
  }

  /** ExtractRunLength: the run length of the order whose header byte is at
      src[pos].  Every header byte it reads lies before the end of the
      stream, a complete header advances by 1 to 3 bytes, and only a
      truncated header or a code without a run length gives advance 0. */
  function ExtractRunLength(code: nat, src: seq<byte>, pos: nat): (h: RunHeader)
    requires pos < |src|
    ensures h.advance <= 3 && pos + h.advance <= |src|
    ensures h.runLength < 0x1_0000
    ensures h.advance == 0 ==> h.runLength == 0
    ensures !IsRunCode(code) ==> h.advance == 0
    ensures IsRunCode(code) && pos + 3 <= |src| ==> h.advance > 0
  {
    if code == RegularFgBgImage then ShortRunLength(src, pos, 0x1F, 8, 1)
    else if code == LiteSetFgFgBgImage then ShortRunLength(src, pos, 0x0F, 8, 1)
    else if code == RegularBgRun || code == RegularFgRun || code == RegularColorRun || code == RegularColorImage then
      ShortRunLength(src, pos, 0x1F, 1, 32)
    else if code == LiteSetFgFgRun || code == LiteDitheredRun then ShortRunLength(src, pos, 0x0F, 1, 16)
    else if IsRunCode(code) then MegaMegaRunLength(src, pos)
    else RunHeader(0, 0)
  }

  /** ENSURE_CAPACITY(start, end, n): room for n pixels of bpp bytes
      between start and end. */
  predicate HasCapacity(start: nat, end: nat, n: nat, bpp: PixelSize) {
    start <= end && end - start >= Bytes(n, bpp)
  }

  /** buffer_within_range(p, size, end): size more bytes fit before end. */
  predicate WithinRange(p: nat, size: nat, end: nat) {
    p + size <= end
  }
}
