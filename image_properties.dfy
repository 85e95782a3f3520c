/** FG/BG images (WRITEFGBGIMAGE, WRITEFIRSTLINEFGBGIMAGE and the bitmask
    loop of RLEDECOMPRESS): when a chunk is refused, how many bitmask bytes
    and pixels an image takes, and which pixel each bitmask bit selects. */
module ImageProperties {
  import opened Pixels
  import opened Orders
  import opened RleSpec
  import opened RleFrames
  import opened RunPixels

  /** WRITEFGBGIMAGE and WRITEFIRSTLINEFGBGIMAGE return NULL exactly when
      cBits > 8 or fewer than cBits pixels fit before pbDestEnd; otherwise
      they return the cursor cBits pixels on, and pixel k follows bit k of
      the bitmask, least significant bit first: a set bit gives fgPel on
      the first line and the pixel above XOR fgPel below it, a clear bit
      gives black on the first line and the pixel above below it. */
  lemma ChunkPixels(cfg: Config, out: seq<byte>, pos: nat, mask: byte, fg: Pixel, cBits: nat, firstLine: bool, k: nat)
    requires |fg| == cfg.bpp && pos <= cfg.destEnd <= |out|
    requires !firstLine ==> pos >= cfg.rowDelta >= cfg.bpp
    ensures var c := FgBgChunk(cfg, out, pos, mask, fg, cBits, firstLine);
            (c.Written? <==> cBits <= 8 && pos + Bytes(cBits, cfg.bpp) <= cfg.destEnd)
            && (c.Written? ==> c.end == pos + Bytes(cBits, cfg.bpp))
            && (c.Written? && k < cBits ==>
                  var p := pos + Bytes(k, cfg.bpp);
                  PixelAt(c.out, p, cfg.bpp)
                  == if BitSet(mask, k) then
                       (if firstLine then fg else Xor(PixelAt(c.out, p - cfg.rowDelta, cfg.bpp), fg))
                     else
                       (if firstLine then Black(cfg.bpp) else PixelAt(c.out, p - cfg.rowDelta, cfg.bpp)))
  {
    if cBits <= 8 && HasCapacity(pos, cfg.destEnd, cBits, cfg.bpp) && k < cBits {
      MaskedPixel(cfg, out, pos, mask, fg, cBits, firstLine, k);
    }
  }

  /** Pixel k of a masked run of cBits pixels follows bit k. */
  lemma MaskedPixel(cfg: Config, out: seq<byte>, pos: nat, mask: byte, fg: Pixel, cBits: nat, firstLine: bool, k: nat)
    requires |fg| == cfg.bpp && pos + Bytes(cBits, cfg.bpp) <= cfg.destEnd <= |out| && k < cBits
    requires !firstLine ==> pos >= cfg.rowDelta >= cfg.bpp
    ensures var r := Fill(cfg, Masked(mask, fg, firstLine), out, pos, 0, cBits);
            var p := pos + Bytes(k, cfg.bpp);
            p + cfg.bpp <= cfg.destEnd
            && PixelAt(r, p, cfg.bpp)
               == if BitSet(mask, k) then
                    (if firstLine then fg else Xor(PixelAt(r, p - cfg.rowDelta, cfg.bpp), fg))
                  else
                    (if firstLine then Black(cfg.bpp) else PixelAt(r, p - cfg.rowDelta, cfg.bpp))
  {
    var r := Fill(cfg, Masked(mask, fg, firstLine), out, pos, 0, cBits);
    FillFinal(cfg, Masked(mask, fg, firstLine), out, pos, cBits, k);
    MaskedValue(cfg, mask, fg, firstLine, k, r, pos + Bytes(k, cfg.bpp));
  }

  /** The value bit k of a bitmask gives a pixel at byte offset p. */
  lemma MaskedValue(cfg: Config, mask: byte, fg: Pixel, firstLine: bool, k: nat, r: seq<byte>, p: nat)
    requires |fg| == cfg.bpp && p + cfg.bpp <= cfg.destEnd <= |r|
    requires !firstLine ==> p >= cfg.rowDelta
    ensures RuleValue(cfg, RuleAt(cfg, Masked(mask, fg, firstLine), k), r, p)
            == if BitSet(mask, k) then
                 (if firstLine then fg else Xor(PixelAt(r, p - cfg.rowDelta, cfg.bpp), fg))
               else
                 (if firstLine then Black(cfg.bpp) else PixelAt(r, p - cfg.rowDelta, cfg.bpp))
  {
  }

  /** An image of more than 8 pixels is a whole chunk of 8 from the
      bitmask byte at src[s], then the image of the rest. */
  lemma ImageUnfold(cfg: Config, src: seq<byte>, s: nat, dest: nat, out: seq<byte>, n: nat, fg: Pixel, firstLine: bool)
    requires s <= |src| && 8 < n <= 8 * (|src| - s) + 8
    requires dest <= cfg.destEnd <= |out| && |fg| == cfg.bpp
    requires !firstLine ==> dest >= cfg.rowDelta
    ensures FgBgChunks(cfg, src, s, dest, out, n, fg, firstLine)
            == match FgBgChunk(cfg, out, dest, src[s], fg, 8, firstLine)
               case Null => ImageFail(out)
               case Written(d, o) => FgBgChunks(cfg, src, s + 1, d, o, n - 8, fg, firstLine)
  {
    assert ChunkLoop(cfg, src, s, dest, out, n, fg, firstLine) == ChunkStep(cfg, src, s, dest, out, n, fg, firstLine);
  }

  /** A finished FG/BG image of n pixels has read one bitmask byte per 8
      pixels, the last one covering the remaining 1 to 8 (so (n + 7) / 8
      bytes), and moved the destination cursor n pixels on. */
  lemma {:induction false} ImageCursors(cfg: Config, src: seq<byte>, s: nat, dest: nat, out: seq<byte>, n: nat, fg: Pixel, firstLine: bool)
    requires s <= |src| && n <= 8 * (|src| - s) + 8
    requires dest <= cfg.destEnd <= |out| && |fg| == cfg.bpp
    requires !firstLine ==> dest >= cfg.rowDelta
    ensures var im := FgBgChunks(cfg, src, s, dest, out, n, fg, firstLine);
            im.ImageDone? ==> im.src == s + (n + 7) / 8 && im.dest == dest + Bytes(n, cfg.bpp)
    decreases n
  {
    if n > 8 {
      var written, d, o := ImageStep(cfg, src, s, dest, out, n, fg, firstLine);
      if written {
        ImageCursors(cfg, src, s + 1, d, o, n - 8, fg, firstLine);
        assert (n - 8 + 7) / 8 + 1 == (n + 7) / 8;
        assert d + Bytes(n - 8, cfg.bpp) == dest + Bytes(n, cfg.bpp);
      }
    }
  }

  /** The converse of ImageCursors: an image of n pixels finishes whenever
      its n pixels fit before pbDestEnd and its (n + 7) / 8 bitmask bytes
      are all in the stream. */
  lemma {:induction false} ImageSucceeds(cfg: Config, src: seq<byte>, s: nat, dest: nat, out: seq<byte>, n: nat, fg: Pixel, firstLine: bool)
    requires s <= |src| && n <= 8 * (|src| - s) + 8
    requires dest <= cfg.destEnd <= |out| && |fg| == cfg.bpp
    requires !firstLine ==> dest >= cfg.rowDelta
    requires dest + Bytes(n, cfg.bpp) <= cfg.destEnd && s + (n + 7) / 8 <= |src|
    ensures FgBgChunks(cfg, src, s, dest, out, n, fg, firstLine).ImageDone?
    decreases n
  {
    if n > 8 {
      assert Bytes(8, cfg.bpp) + Bytes(n - 8, cfg.bpp) == Bytes(n, cfg.bpp);
      var ch := FgBgChunk(cfg, out, dest, src[s], fg, 8, firstLine);
      ImageAfterChunk(cfg, src, s, dest, out, n, fg, firstLine);
      assert (n - 8 + 7) / 8 + 1 == (n + 7) / 8;
      ImageSucceeds(cfg, src, s + 1, ch.end, ch.out, n - 8, fg, firstLine);
    } else if n > 0 {
      assert FgBgChunks(cfg, src, s, dest, out, n, fg, firstLine)
             == match FgBgChunk(cfg, out, dest, src[s], fg, n, firstLine)
                case Null => ImageFail(out)
                case Written(d, o) => ImageDone(s + 1, d, o);
    }
  }

  /** Pixel b of a whole chunk keeps obeying its bit in any later
      destination that differs from the chunk's only after it. */
  lemma ChunkPixelKept(cfg: Config, out: seq<byte>, pos: nat, mask: byte, fg: Pixel, firstLine: bool, b: nat, later: seq<byte>)
    requires |fg| == cfg.bpp && pos <= cfg.destEnd <= |out| && b < 8
    requires !firstLine ==> pos >= cfg.rowDelta >= cfg.bpp
    requires var c := FgBgChunk(cfg, out, pos, mask, fg, 8, firstLine);
             c.Written? && AgreeOutside(c.out, later, c.end, cfg.destEnd)
    ensures pos + Bytes(b, cfg.bpp) + cfg.bpp <= cfg.destEnd
    ensures PixelAt(later, pos + Bytes(b, cfg.bpp), cfg.bpp)
            == RuleValue(cfg, RuleAt(cfg, Masked(mask, fg, firstLine), b), later, pos + Bytes(b, cfg.bpp))
  {
    FillKept(cfg, Masked(mask, fg, firstLine), out, pos, 8, b, later);
  }

  /** Pixel b of the first chunk of an image of more than 8 pixels follows
      bit b of the first bitmask byte in the finished destination. */
  lemma FirstChunkPixel(cfg: Config, src: seq<byte>, s: nat, dest: nat, out: seq<byte>, n: nat, fg: Pixel, firstLine: bool, b: nat)
    requires s <= |src| && 8 < n <= 8 * (|src| - s) + 8 && b < 8
    requires dest <= cfg.destEnd <= |out| && |fg| == cfg.bpp
    requires !firstLine ==> dest >= cfg.rowDelta >= cfg.bpp
    ensures var im := FgBgChunks(cfg, src, s, dest, out, n, fg, firstLine);
            im.ImageDone? ==> PixelObeysBit(cfg, src, s, dest + Bytes(b, cfg.bpp), im.out, fg, firstLine, b)
  {
    var ch := FgBgChunk(cfg, out, dest, src[s], fg, 8, firstLine);
    ImageAfterChunk(cfg, src, s, dest, out, n, fg, firstLine);
    if ch.Written? {
      var im := FgBgChunks(cfg, src, s + 1, ch.end, ch.out, n - 8, fg, firstLine);
      ChunkLoopFrame(cfg, src, s + 1, ch.end, ch.out, n - 8, fg, firstLine);
      ChunkPixelKept(cfg, out, dest, src[s], fg, firstLine, b, im.out);
    }
  }

  /** Pixel b of the last chunk of an image of at most 8 pixels follows bit
      b of its bitmask byte. */
  lemma LastChunkPixel(cfg: Config, src: seq<byte>, s: nat, dest: nat, out: seq<byte>, n: nat, fg: Pixel, firstLine: bool, b: nat)
    requires s <= |src| && b < n <= 8
    requires dest <= cfg.destEnd <= |out| && |fg| == cfg.bpp
    requires !firstLine ==> dest >= cfg.rowDelta >= cfg.bpp
    ensures var im := FgBgChunks(cfg, src, s, dest, out, n, fg, firstLine);
            im.ImageDone? ==> PixelObeysBit(cfg, src, s, dest + Bytes(b, cfg.bpp), im.out, fg, firstLine, b)
  {
    if WithinRange(s, 1, |src|) && FgBgChunk(cfg, out, dest, src[s], fg, n, firstLine).Written? {
      FillFinal(cfg, Masked(src[s], fg, firstLine), out, dest, n, b);
    }
  }

  /** In the destination out, the pixel at byte offset p follows bit b of
      the bitmask byte src[i]. */
  ghost predicate PixelObeysBit(cfg: Config, src: seq<byte>, i: nat, p: nat, out: seq<byte>, fg: Pixel, firstLine: bool, b: nat)
    requires |fg| == cfg.bpp && b < 8
    requires !firstLine ==> p >= cfg.rowDelta
  {
    i < |src| && p + cfg.bpp <= cfg.destEnd <= |out|
    && PixelAt(out, p, cfg.bpp) == RuleValue(cfg, RuleAt(cfg, Masked(src[i], fg, firstLine), b), out, p)
  }

  /** Once its first chunk is written, an image of more than 8 pixels
      finishes as the image of the rest does. */
  lemma ImageAfterChunk(cfg: Config, src: seq<byte>, s: nat, dest: nat, out: seq<byte>, n: nat, fg: Pixel, firstLine: bool)
    requires s <= |src| && 8 < n <= 8 * (|src| - s) + 8
    requires dest <= cfg.destEnd <= |out| && |fg| == cfg.bpp
    requires !firstLine ==> dest >= cfg.rowDelta
    ensures var ch := FgBgChunk(cfg, out, dest, src[s], fg, 8, firstLine);
            (ch.Null? ==> FgBgChunks(cfg, src, s, dest, out, n, fg, firstLine).ImageFail?)
            && (ch.Written? ==>
                  ch.end == dest + Bytes(8, cfg.bpp)
                  && FgBgChunks(cfg, src, s, dest, out, n, fg, firstLine) == FgBgChunks(cfg, src, s + 1, ch.end, ch.out, n - 8, fg, firstLine))
  {
    ImageUnfold(cfg, src, s, dest, out, n, fg, firstLine);
  }

  /** The first chunk of an image of more than 8 pixels, named: either it
      is refused and the image fails, or it ends at d with destination o
      and the image finishes as the image of the rest from there. */
  lemma ImageStep(cfg: Config, src: seq<byte>, s: nat, dest: nat, out: seq<byte>, n: nat, fg: Pixel, firstLine: bool)
      returns (written: bool, d: nat, o: seq<byte>)
    requires s <= |src| && 8 < n <= 8 * (|src| - s) + 8
    requires dest <= cfg.destEnd <= |out| && |fg| == cfg.bpp
    requires !firstLine ==> dest >= cfg.rowDelta
    ensures !written ==> FgBgChunks(cfg, src, s, dest, out, n, fg, firstLine).ImageFail?
    ensures written ==>
              d == dest + Bytes(8, cfg.bpp) && d <= cfg.destEnd && |o| == |out| && s < |src|
              && FgBgChunks(cfg, src, s, dest, out, n, fg, firstLine) == FgBgChunks(cfg, src, s + 1, d, o, n - 8, fg, firstLine)
  {
    var ch := FgBgChunk(cfg, out, dest, src[s], fg, 8, firstLine);
    ImageAfterChunk(cfg, src, s, dest, out, n, fg, firstLine);
    written, d, o := ch.Written?, if ch.Written? then ch.end else dest, if ch.Written? then ch.out else out;
  }

  /** In a finished FG/BG image, pixel 8 * c + b follows bit b of bitmask
      byte c in the finished destination: chunks written later change
      neither the pixel nor the pixel above it. */
  lemma ImagePixel(cfg: Config, src: seq<byte>, s: nat, dest: nat, out: seq<byte>, n: nat, fg: Pixel, firstLine: bool, c: nat, b: nat)
    requires s <= |src| && n <= 8 * (|src| - s) + 8 && b < 8 && 8 * c + b < n
    requires dest <= cfg.destEnd <= |out| && |fg| == cfg.bpp
    requires !firstLine ==> dest >= cfg.rowDelta >= cfg.bpp
    ensures var im := FgBgChunks(cfg, src, s, dest, out, n, fg, firstLine);
            im.ImageDone? ==> PixelObeysBit(cfg, src, s + c, dest + Bytes(8 * c + b, cfg.bpp), im.out, fg, firstLine, b)
  {
    ImagePixelAt(cfg, src, s, dest, out, n, fg, firstLine, c, b, s + c, dest + Bytes(8 * c + b, cfg.bpp));
  }

  /** ImagePixel with the bitmask byte index i = s + c and the pixel's
      byte offset p = dest + Bytes(8 * c + b) held fixed through the
      recursion over the chunks before it. */
  lemma {:induction false} ImagePixelAt(cfg: Config, src: seq<byte>, s: nat, dest: nat, out: seq<byte>, n: nat, fg: Pixel, firstLine: bool, c: nat, b: nat, i: nat, p: nat)
    requires s <= |src| && n <= 8 * (|src| - s) + 8 && b < 8 && 8 * c + b < n
    requires dest <= cfg.destEnd <= |out| && |fg| == cfg.bpp
    requires !firstLine ==> dest >= cfg.rowDelta >= cfg.bpp
    requires i == s + c && p == dest + Bytes(8 * c + b, cfg.bpp)
    ensures var im := FgBgChunks(cfg, src, s, dest, out, n, fg, firstLine);
            im.ImageDone? ==> PixelObeysBit(cfg, src, i, p, im.out, fg, firstLine, b)
    decreases c
  {
    if c == 0 {
      if n <= 8 {
        LastChunkPixel(cfg, src, s, dest, out, n, fg, firstLine, b);
      } else {
        FirstChunkPixel(cfg, src, s, dest, out, n, fg, firstLine, b);
      }
    } else {
      var written, d, o := ImageStep(cfg, src, s, dest, out, n, fg, firstLine);
      if written {
        assert d + Bytes(8 * (c - 1) + b, cfg.bpp) == p;
        ImagePixelAt(cfg, src, s + 1, d, o, n - 8, fg, firstLine, c - 1, b, i, p);
      }
    }
  }

  /** The header of an FG/BG image order (regular, lite set-foreground,
      mega-mega and mega-mega set-foreground) is accepted when its run
      length can be read, the set-foreground forms find a whole pixel
      after it, and n / 8 bitmask bytes follow; the bitmask then starts
      right after the header and that pixel, the pixel becomes the new
      fgPel (the other forms keep the current one), and n is the run
      length. */
  lemma FgBgHeaderFields(cfg: Config, src: seq<byte>, st: State, code: nat)
    requires Cursors(cfg, src, st) && st.src < |src|
    ensures var hd := FgBgHeader(cfg, src, st, code);
            var h := ExtractRunLength(code, src, st.src);
            var start := st.src + h.advance + (if IsSetFg(code) then cfg.bpp else 0);
            (hd.ImageHeader? <==> h.advance > 0 && start <= |src| && start + h.runLength / 8 <= |src|)
            && (hd.ImageHeader? ==>
                  hd.start == start && hd.n == h.runLength
                  && hd.fgPel == if IsSetFg(code) then PixelAt(src, st.src + h.advance, cfg.bpp) else st.fgPel)
  {
  }

  /** An FG/BG image order succeeds exactly when its header is accepted,
      its n pixels fit before pbDestEnd and its (n + 7) / 8 bitmask bytes
      are in the stream; then it has read those bitmask bytes, written n
      pixels, taken the header's fgPel, kept the line flag, cleared the
      pending foreground pixel, and pixel 8 * c + b follows bit b of
      bitmask byte c. */
  lemma FgBgImageOrder(cfg: Config, src: seq<byte>, st: State, out: seq<byte>, code: nat, c: nat, b: nat)
    requires Valid(cfg, src, st, out) && st.src < |src| && b < 8
    requires !st.firstLine ==> cfg.rowDelta >= cfg.bpp
    ensures var o := FgBgImage(cfg, src, st, out, code);
            var hd := FgBgHeader(cfg, src, st, code);
            o.Next? <==> hd.ImageHeader? && st.dest + Bytes(hd.n, cfg.bpp) <= cfg.destEnd && hd.start + (hd.n + 7) / 8 <= |src|
    ensures var o := FgBgImage(cfg, src, st, out, code);
            var hd := FgBgHeader(cfg, src, st, code);
            o.Next? ==>
              hd.ImageHeader?
              && o.st == State(hd.start + (hd.n + 7) / 8, st.dest + Bytes(hd.n, cfg.bpp), hd.fgPel, st.firstLine, false)
              && (8 * c + b < hd.n ==>
                    PixelObeysBit(cfg, src, hd.start + c, st.dest + Bytes(8 * c + b, cfg.bpp), o.out, hd.fgPel, st.firstLine, b))
  {
    FgBgImageCursors(cfg, src, st, out, code);
    FgBgImageSucceeds(cfg, src, st, out, code);
    FgBgImagePixel(cfg, src, st, out, code, c, b);
  }

  /** An FG/BG image order whose header is accepted, whose pixels fit
      before pbDestEnd and whose bitmask bytes are all in the stream
      succeeds. */
  lemma FgBgImageSucceeds(cfg: Config, src: seq<byte>, st: State, out: seq<byte>, code: nat)
    requires Valid(cfg, src, st, out) && st.src < |src|
    ensures var hd := FgBgHeader(cfg, src, st, code);
            hd.ImageHeader? && st.dest + Bytes(hd.n, cfg.bpp) <= cfg.destEnd && hd.start + (hd.n + 7) / 8 <= |src| ==>
              FgBgImage(cfg, src, st, out, code).Next?
  {
    var hd := FgBgImageIsChunks(cfg, src, st, out, code);
    if hd.ImageHeader? && st.dest + Bytes(hd.n, cfg.bpp) <= cfg.destEnd && hd.start + (hd.n + 7) / 8 <= |src| {
      ImageSucceeds(cfg, src, hd.start, st.dest, out, hd.n, hd.fgPel, st.firstLine);
    }
  }

  /** How far a finished FG/BG image order moves both cursors. */
  lemma FgBgImageCursors(cfg: Config, src: seq<byte>, st: State, out: seq<byte>, code: nat)
    requires Valid(cfg, src, st, out) && st.src < |src|
    ensures var o := FgBgImage(cfg, src, st, out, code);
            var hd := FgBgHeader(cfg, src, st, code);
            o.Next? ==>
              hd.ImageHeader?
              && o.st == State(hd.start + (hd.n + 7) / 8, st.dest + Bytes(hd.n, cfg.bpp), hd.fgPel, st.firstLine, false)
  {
    var hd := FgBgImageIsChunks(cfg, src, st, out, code);
    if hd.ImageHeader? {
      ImageCursors(cfg, src, hd.start, st.dest, out, hd.n, hd.fgPel, st.firstLine);
    }
  }

  /** Pixel 8 * c + b of a finished FG/BG image order follows bit b of
      bitmask byte c. */
  lemma FgBgImagePixel(cfg: Config, src: seq<byte>, st: State, out: seq<byte>, code: nat, c: nat, b: nat)
    requires Valid(cfg, src, st, out) && st.src < |src| && b < 8
    requires !st.firstLine ==> cfg.rowDelta >= cfg.bpp
    ensures var o := FgBgImage(cfg, src, st, out, code);
            var hd := FgBgHeader(cfg, src, st, code);
            o.Next? && hd.ImageHeader? && 8 * c + b < hd.n ==>
              PixelObeysBit(cfg, src, hd.start + c, st.dest + Bytes(8 * c + b, cfg.bpp), o.out, hd.fgPel, st.firstLine, b)
  {
    var hd := FgBgImageIsChunks(cfg, src, st, out, code);
    if hd.ImageHeader? && 8 * c + b < hd.n {
      HeaderImagePixel(cfg, src, st, out, hd, c, b);
    }
  }

  /** ImagePixel for the image an accepted header describes. */
  lemma HeaderImagePixel(cfg: Config, src: seq<byte>, st: State, out: seq<byte>, hd: ImageHeader, c: nat, b: nat)
    requires st.dest <= cfg.destEnd <= |out| && b < 8
    requires !st.firstLine ==> st.dest >= cfg.rowDelta >= cfg.bpp
    requires hd.ImageHeader? && hd.start <= |src| && |hd.fgPel| == cfg.bpp
    requires hd.n <= 8 * (|src| - hd.start) + 7 && 8 * c + b < hd.n
    ensures var im := FgBgChunks(cfg, src, hd.start, st.dest, out, hd.n, hd.fgPel, st.firstLine);
            im.ImageDone? ==>
              PixelObeysBit(cfg, src, hd.start + c, st.dest + Bytes(8 * c + b, cfg.bpp), im.out, hd.fgPel, st.firstLine, b)
  {
    ImagePixel(cfg, src, hd.start, st.dest, out, hd.n, hd.fgPel, st.firstLine, c, b);
  }

  /** An FG/BG image order is its header followed by its image. */
  lemma FgBgImageIsChunks(cfg: Config, src: seq<byte>, st: State, out: seq<byte>, code: nat) returns (hd: ImageHeader)
    requires Valid(cfg, src, st, out) && st.src < |src|
    ensures hd == FgBgHeader(cfg, src, st, code)
    ensures hd.ImageHeader? ==> st.src < hd.start && hd.start + hd.n / 8 <= |src| && |hd.fgPel| == cfg.bpp
    ensures hd.ImageHeader? ==> hd.n <= 8 * (|src| - hd.start) + 7
    ensures var o := FgBgImage(cfg, src, st, out, code);
            o.Next? ==>
              hd.ImageHeader?
              && var im := FgBgChunks(cfg, src, hd.start, st.dest, out, hd.n, hd.fgPel, st.firstLine);
                 im.ImageDone? && o.st == State(im.src, im.dest, hd.fgPel, st.firstLine, false) && o.out == im.out
  {
    hd := FgBgHeader(cfg, src, st, code);
  }

  /** A special FG/BG order (SPECIAL_FGBG_1 and SPECIAL_FGBG_2, bitmasks
      0x03 and 0x05) consumes its one code byte and writes 8 pixels with
      its fixed bitmask and the current fgPel, exactly when 8 pixels fit;
      it keeps fgPel and the line flag and clears the pending foreground
      pixel. */
  lemma SpecialFgBgPixels(cfg: Config, src: seq<byte>, st: State, out: seq<byte>, mask: byte, k: nat)
    requires Valid(cfg, src, st, out) && st.src < |src| && k < 8
    requires !st.firstLine ==> cfg.rowDelta >= cfg.bpp
    ensures var o := SpecialFgBg(cfg, src, st, out, mask);
            (o.Next? <==> st.dest + Bytes(8, cfg.bpp) <= cfg.destEnd)
            && (o.Next? ==>
                  o.st == State(st.src + 1, st.dest + Bytes(8, cfg.bpp), st.fgPel, st.firstLine, false)
                  && var p := st.dest + Bytes(k, cfg.bpp);
                     PixelAt(o.out, p, cfg.bpp)
                     == if BitSet(mask, k) then
                          (if st.firstLine then st.fgPel else Xor(PixelAt(o.out, p - cfg.rowDelta, cfg.bpp), st.fgPel))
                        else
                          (if st.firstLine then Black(cfg.bpp) else PixelAt(o.out, p - cfg.rowDelta, cfg.bpp)))
  {
    ChunkPixels(cfg, out, st.dest, mask, st.fgPel, 8, st.firstLine, k);
  }
}
