/** RLEDECOMPRESS and its two FG/BG helpers (libfreerdp/codec/include/bitmap.h)
    as methods over the caller's destination array.  The source buffer is
    read-only, so it is taken as the sequence of its first cbSrcBuffer bytes:
    every index into it is a read that must lie before pbEnd.  Every write
    into the destination goes through WritePixel, whose precondition keeps it
    below pbDestEnd.  Each method is proved to leave the destination and the
    decoder state exactly as the matching function of RleSpec says. */
module Bitmap {
  import opened Pixels
  import opened Orders
  import opened RleSpec

  /** A destination cursor as the helpers return it: NULL, or a byte offset. */
  datatype DestPtr = NullPtr | Ptr(offset: nat)

  /** DESTWRITEPIXEL: stores one pixel at byte offset pos, below pbDestEnd. */
  method WritePixel(dest: array<byte>, destEnd: nat, pos: nat, p: Pixel)
    requires pos + |p| <= destEnd <= dest.Length
    modifies dest
    ensures dest[..] == Overwrite(old(dest[..]), pos, p)
  {
    forall i | 0 <= i < |p| {
      dest[pos + i] := p[i];
    }
    assert forall i :: 0 <= i < dest.Length ==> dest[..][i] == Overwrite(old(dest[..]), pos, p)[i];
  }

  /** One pass of the UNROLL loop of a run: pixel k of the pattern at byte
      offset pos. */
  method WriteRunStep(cfg: Config, pat: Pattern, dest: array<byte>, pos: nat, k: nat, m: nat)
    requires m > 0 && PatternOk(cfg, pat)
    requires pos + Bytes(m, cfg.bpp) <= cfg.destEnd <= dest.Length
    requires ReadsAbove(pat) ==> pos >= cfg.rowDelta
    modifies dest
    ensures pos + cfg.bpp + Bytes(m - 1, cfg.bpp) == pos + Bytes(m, cfg.bpp)
    ensures Fill(cfg, pat, dest[..], pos + cfg.bpp, k + 1, m - 1) == Fill(cfg, pat, old(dest[..]), pos, k, m)
  {
    FillUnfold(cfg, pat, dest[..], pos, k, m);
    var v := RuleValue(cfg, RuleAt(cfg, pat, k), dest[..], pos);
    WritePixel(dest, cfg.destEnd, pos, v);
  }

  /** The UNROLL loop of a run: n pixels of the pattern, from byte offset pos
      on; returns the advanced cursor. */
  method WriteRun(cfg: Config, pat: Pattern, dest: array<byte>, pos: nat, n: nat) returns (end: nat)
    requires PatternOk(cfg, pat)
    requires pos + Bytes(n, cfg.bpp) <= cfg.destEnd <= dest.Length
    requires ReadsAbove(pat) ==> pos >= cfg.rowDelta
    modifies dest
    ensures end == pos + Bytes(n, cfg.bpp)
    ensures dest[..] == Fill(cfg, pat, old(dest[..]), pos, 0, n)
  {
    var k, m := 0, n;
    end := pos;
    while m > 0
      invariant k + m == n
      invariant end + Bytes(m, cfg.bpp) == pos + Bytes(n, cfg.bpp)
      invariant ReadsAbove(pat) ==> end >= cfg.rowDelta
      invariant Fill(cfg, pat, dest[..], end, k, m) == Fill(cfg, pat, old(dest[..]), pos, 0, n)
    {
      WriteRunStep(cfg, pat, dest, end, k, m);
      end, k, m := end + cfg.bpp, k + 1, m - 1;
    }
  }

  /** One pass of the UNROLL loop of a color image: the pixel at src[s]
      goes to the destination at dPos, right after the pixels src[s0..s]
      already copied to d0. */
  method CopyPixel(dest: array<byte>, destEnd: nat, ghost d0: nat, ghost before: seq<byte>, dPos: nat,
                   src: seq<byte>, ghost s0: nat, s: nat, bpp: PixelSize)
    requires s0 <= s && s + bpp <= |src| && dPos == d0 + (s - s0) && dPos + bpp <= destEnd <= dest.Length
    requires |before| == dest.Length && dest[..] == Overwrite(before, d0, src[s0..s])
    modifies dest
    ensures dest[..] == Overwrite(before, d0, src[s0..s + bpp])
  {
    var temp := src[s..s + bpp];
    WritePixel(dest, destEnd, dPos, temp);
    OverwriteSlices(before, d0, dPos, src, s0, s, bpp);
  }

  /** The UNROLL loop of a color image: n pixels copied from the stream at
      byte offset s to the destination at byte offset d; returns both
      advanced cursors. */
  method CopyPixels(dest: array<byte>, destEnd: nat, d: nat, src: seq<byte>, s: nat, n: nat, bpp: PixelSize)
    returns (dEnd: nat, sEnd: nat)
    requires d + Bytes(n, bpp) <= destEnd <= dest.Length && s + Bytes(n, bpp) <= |src|
    modifies dest
    ensures dEnd == d + Bytes(n, bpp) && sEnd == s + Bytes(n, bpp)
    ensures dest[..] == Overwrite(old(dest[..]), d, src[s..sEnd])
  {
    ghost var before := dest[..];
    dEnd, sEnd := d, s;
    var m := n;
    while m > 0
      invariant s <= sEnd && dEnd == d + (sEnd - s)
      invariant sEnd + Bytes(m, bpp) == s + Bytes(n, bpp)
      invariant dest[..] == Overwrite(before, d, src[s..sEnd])
    {
      CopyPixel(dest, destEnd, d, before, dEnd, src, s, sEnd, bpp);
      dEnd, sEnd, m := dEnd + bpp, sEnd + bpp, m - 1;
    }
  }

  /** WRITEFGBGIMAGE: cBits pixels below the first line, bit k of bitmask
      choosing above XOR fgPel (set) or above (clear); NULL when cBits > 8
      or when the destination has no room for cBits pixels. */
  method WriteFgBgImage(cfg: Config, dest: array<byte>, pos: nat, bitmask: byte, fgPel: Pixel, cBits: nat)
    returns (p: DestPtr)
    requires |fgPel| == cfg.bpp && pos <= cfg.destEnd <= dest.Length && pos >= cfg.rowDelta
    modifies dest
    ensures var c := FgBgChunk(cfg, old(dest[..]), pos, bitmask, fgPel, cBits, false);
            (c.Null? ==> p == NullPtr && dest[..] == old(dest[..]))
            && (c.Written? ==> p == Ptr(c.end) && dest[..] == c.out)
  {
    if cBits > 8 {
      return NullPtr;
    }
    if !HasCapacity(pos, cfg.destEnd, cBits, cfg.bpp) {
      return NullPtr;
    }
    var end := WriteRun(cfg, Masked(bitmask, fgPel, false), dest, pos, cBits);
    return Ptr(end);
  }

  /** WRITEFIRSTLINEFGBGIMAGE: the same on the first line, where a set bit
      writes fgPel and a clear bit writes black. */
  method WriteFirstLineFgBgImage(cfg: Config, dest: array<byte>, pos: nat, bitmask: byte, fgPel: Pixel, cBits: nat)
    returns (p: DestPtr)
    requires |fgPel| == cfg.bpp && pos <= cfg.destEnd <= dest.Length
    modifies dest
    ensures var c := FgBgChunk(cfg, old(dest[..]), pos, bitmask, fgPel, cBits, true);
            (c.Null? ==> p == NullPtr && dest[..] == old(dest[..]))
            && (c.Written? ==> p == Ptr(c.end) && dest[..] == c.out)
  {
    if cBits > 8 {
      return NullPtr;
    }
    if !HasCapacity(pos, cfg.destEnd, cBits, cfg.bpp) {
      return NullPtr;
    }
    var end := WriteRun(cfg, Masked(bitmask, fgPel, true), dest, pos, cBits);
    return Ptr(end);
  }

  /** The writing phase of a run order: nothing when the order was refused,
      otherwise the UNROLL loop of its plan. */
  method WritePlannedRun(cfg: Config, src: seq<byte>, st: State, dest: array<byte>, p: Parse, insert: bool)
    returns (ok: bool, next: State)
    requires Valid(cfg, src, st, dest[..])
    requires p.Planned? ==> PlanFits(cfg, src, st, p.plan)
    modifies dest
    ensures var o := RunOutcome(cfg, src, st, old(dest[..]), p, insert);
            ok == o.Next? && dest[..] == o.out && (ok ==> next == o.st)
  {
    if p.Refused? {
      return false, st;
    }
    var d := WriteRun(cfg, p.plan.pat, dest, st.dest, p.plan.n);
    return true, State(p.plan.next, d, p.plan.fgPel, st.firstLine, insert);
  }

  /** The pixel a background run inserts at byte offset pos: fgPel on the
      first line, the pixel above XOR fgPel below it.  bitmap.h:183 reads
      the pixel above before the capacity check at bitmap.h:185; the pixel
      is only used once that check has passed, so reading it after the
      check writes the same pixel. */
  method InsertFgPel(cfg: Config, dest: array<byte>, pos: nat, fgPel: Pixel, firstLine: bool)
    requires |fgPel| == cfg.bpp && pos + cfg.bpp <= cfg.destEnd <= dest.Length
    requires !firstLine ==> pos >= cfg.rowDelta
    modifies dest
    ensures dest[..] == Overwrite(old(dest[..]), pos,
                                  RuleValue(cfg, if firstLine then Literal(fgPel) else AboveXor(fgPel), old(dest[..]), pos))
  {
    var pixel: Pixel;
    if firstLine {
      pixel := fgPel;
    } else {
      var temp := dest[pos - cfg.rowDelta .. pos - cfg.rowDelta + cfg.bpp];
      pixel := Xor(temp, fgPel);
    }
    WritePixel(dest, cfg.destEnd, pos, pixel);
  }

  /** A background run with a pending foreground pixel: the pixel, then the
      rest of the run. */
  method WriteInsertedRun(cfg: Config, src: seq<byte>, st: State, dest: array<byte>, next: nat, n: nat)
    returns (ok: bool, st2: State)
    requires Valid(cfg, src, st, dest[..]) && st.src < next <= |src| && n < 0x1_0000_0000
    modifies dest
    ensures var o := InsertedBackgroundRun(cfg, src, st, old(dest[..]), next, n);
            ok == o.Next? && dest[..] == o.out && (ok ==> st2 == o.st)
  {
    if !HasCapacity(st.dest, cfg.destEnd, 1, cfg.bpp) {
      return false, st;
    }
    ghost var out := dest[..];
    InsertFgPel(cfg, dest, st.dest, st.fgPel, st.firstLine);
    var st1 := st.(dest := st.dest + cfg.bpp);
    var p := BackgroundPlan(cfg, src, st1, next, DecU32(n));
    ghost var out1 := Overwrite(out, st.dest, RuleValue(cfg, if st.firstLine then Literal(st.fgPel) else AboveXor(st.fgPel), out, st.dest));
    assert dest[..] == out1;
    assert InsertedBackgroundRun(cfg, src, st, out, next, n) == RunOutcome(cfg, src, st1, out1, p, true);
    ok, st2 := WritePlannedRun(cfg, src, st1, dest, p, true);
  }

  /** The background-run branch of the main loop. */
  method DecodeBackgroundRun(cfg: Config, src: seq<byte>, st: State, dest: array<byte>, code: nat)
    returns (ok: bool, next: State)
    requires Valid(cfg, src, st, dest[..]) && st.src < |src|
    modifies dest
    ensures var o := BackgroundRun(cfg, src, st, old(dest[..]), code);
            ok == o.Next? && dest[..] == o.out && (ok ==> next == o.st)
  {
    var h := ExtractRunLength(code, src, st.src);
    if h.advance == 0 {
      return false, st;
    }
    if st.insertFgPel {
      ok, next := WriteInsertedRun(cfg, src, st, dest, st.src + h.advance, h.runLength);
    } else {
      ok, next := WritePlannedRun(cfg, src, st, dest, BackgroundPlan(cfg, src, st, st.src + h.advance, h.runLength), true);
    }
  }

  /** The foreground-run branch (regular, mega-mega and set-foreground). */
  method DecodeForegroundRun(cfg: Config, src: seq<byte>, st: State, dest: array<byte>, code: nat)
    returns (ok: bool, next: State)
    requires Valid(cfg, src, st, dest[..]) && st.src < |src|
    modifies dest
    ensures var o := ForegroundRun(cfg, src, st, old(dest[..]), code);
            ok == o.Next? && dest[..] == o.out && (ok ==> next == o.st)
  {
    ok, next := WritePlannedRun(cfg, src, st, dest, ForegroundPlan(cfg, src, st, code), false);
  }

  /** The dithered-run branch: pixels A and B, runLength times each. */
  method DecodeDitheredRun(cfg: Config, src: seq<byte>, st: State, dest: array<byte>, code: nat)
    returns (ok: bool, next: State)
    requires Valid(cfg, src, st, dest[..]) && st.src < |src|
    modifies dest
    ensures var o := DitheredRun(cfg, src, st, old(dest[..]), code);
            ok == o.Next? && dest[..] == o.out && (ok ==> next == o.st)
  {
    ok, next := WritePlannedRun(cfg, src, st, dest, DitheredPlan(cfg, src, st, code), false);
  }

  /** The color-run branch: one literal pixel, runLength times. */
  method DecodeColorRun(cfg: Config, src: seq<byte>, st: State, dest: array<byte>, code: nat)
    returns (ok: bool, next: State)
    requires Valid(cfg, src, st, dest[..]) && st.src < |src|
    modifies dest
    ensures var o := ColorRun(cfg, src, st, old(dest[..]), code);
            ok == o.Next? && dest[..] == o.out && (ok ==> next == o.st)
  {
    ok, next := WritePlannedRun(cfg, src, st, dest, ColorPlan(cfg, src, st, code), false);
  }

  /** WRITEFGBGIMAGE or WRITEFIRSTLINEFGBGIMAGE, as the first-line flag of
      the decoder selects. */
  method WriteChunk(cfg: Config, dest: array<byte>, pos: nat, bitmask: byte, fgPel: Pixel, cBits: nat, firstLine: bool)
    returns (p: DestPtr)
    requires |fgPel| == cfg.bpp && pos <= cfg.destEnd <= dest.Length
    requires !firstLine ==> pos >= cfg.rowDelta
    modifies dest
    ensures var c := FgBgChunk(cfg, old(dest[..]), pos, bitmask, fgPel, cBits, firstLine);
            (c.Null? ==> p == NullPtr && dest[..] == old(dest[..]))
            && (c.Written? ==> p == Ptr(c.end) && dest[..] == c.out)
  {
    if firstLine {
      p := WriteFirstLineFgBgImage(cfg, dest, pos, bitmask, fgPel, cBits);
    } else {
      p := WriteFgBgImage(cfg, dest, pos, bitmask, fgPel, cBits);
    }
  }

  /** One pass of the bitmask loop while more than 8 pixels are left: the
      bitmask byte at src[s] and an 8-pixel chunk at byte offset d. */
  method WriteFullChunk(cfg: Config, src: seq<byte>, s: nat, d: nat, dest: array<byte>, n: nat, fgPel: Pixel, firstLine: bool)
    returns (p: DestPtr)
    requires 8 < n <= 8 * (|src| - s) + 8
    requires d <= cfg.destEnd <= dest.Length && |fgPel| == cfg.bpp
    requires !firstLine ==> d >= cfg.rowDelta
    modifies dest
    ensures p.NullPtr? ==> FgBgChunks(cfg, src, s, d, old(dest[..]), n, fgPel, firstLine) == ImageFail(dest[..])
    ensures p.Ptr? ==> d <= p.offset <= cfg.destEnd
    ensures p.Ptr? ==> FgBgChunks(cfg, src, s + 1, p.offset, dest[..], n - 8, fgPel, firstLine)
                       == FgBgChunks(cfg, src, s, d, old(dest[..]), n, fgPel, firstLine)
  {
    assert ChunkLoop(cfg, src, s, d, dest[..], n, fgPel, firstLine) == ChunkStep(cfg, src, s, d, dest[..], n, fgPel, firstLine);
    var bitmask := src[s];
    p := WriteChunk(cfg, dest, d, bitmask, fgPel, 8, firstLine);
  }

  /** The bitmask loop once at most 8 pixels are left: nothing for none,
      otherwise the bitmask byte at src[s], if the stream still holds it, and
      the last chunk. */
  method WriteLastChunk(cfg: Config, src: seq<byte>, s: nat, d: nat, dest: array<byte>, n: nat, fgPel: Pixel, firstLine: bool)
    returns (ok: bool, sEnd: nat, dEnd: nat)
    requires n <= 8 && s <= |src|
    requires d <= cfg.destEnd <= dest.Length && |fgPel| == cfg.bpp
    requires !firstLine ==> d >= cfg.rowDelta
    modifies dest
    ensures var im := FgBgChunks(cfg, src, s, d, old(dest[..]), n, fgPel, firstLine);
            ok == im.ImageDone? && dest[..] == im.out && (ok ==> sEnd == im.src && dEnd == im.dest)
  {
    if n == 0 {
      return true, s, d;
    }
    if !WithinRange(s, 1, |src|) {
      return false, s, d;
    }
    var bitmask := src[s];
    var p := WriteChunk(cfg, dest, d, bitmask, fgPel, n, firstLine);
    if p.NullPtr? {
      return false, s + 1, d;
    }
    return true, s + 1, p.offset;
  }

  /** The bitmask loop of an FG/BG image while more than 8 pixels are
      left: either a chunk failed, or at most 8 pixels are left and the
      rest of the image is the image of those. */
  method WriteFullChunks(cfg: Config, src: seq<byte>, s: nat, d: nat, dest: array<byte>, n: nat, fgPel: Pixel, firstLine: bool)
    returns (ok: bool, sEnd: nat, dEnd: nat, rest: nat)
    requires s <= |src| && n <= 8 * (|src| - s) + 8
    requires d <= cfg.destEnd <= dest.Length && |fgPel| == cfg.bpp
    requires !firstLine ==> d >= cfg.rowDelta
    modifies dest
    ensures !ok ==> FgBgChunks(cfg, src, s, d, old(dest[..]), n, fgPel, firstLine) == ImageFail(dest[..])
    ensures ok ==> rest <= 8 && sEnd <= |src| && dEnd <= cfg.destEnd && (!firstLine ==> dEnd >= cfg.rowDelta)
    ensures ok ==> FgBgChunks(cfg, src, sEnd, dEnd, dest[..], rest, fgPel, firstLine)
                   == FgBgChunks(cfg, src, s, d, old(dest[..]), n, fgPel, firstLine)
  {
    ghost var im := FgBgChunks(cfg, src, s, d, dest[..], n, fgPel, firstLine);
    rest := n;
    sEnd, dEnd := s, d;
    while rest > 8
      invariant sEnd <= |src| && rest <= 8 * (|src| - sEnd) + 8
      invariant dEnd <= cfg.destEnd && (!firstLine ==> dEnd >= cfg.rowDelta)
      invariant FgBgChunks(cfg, src, sEnd, dEnd, dest[..], rest, fgPel, firstLine) == im
    {
      var p := WriteFullChunk(cfg, src, sEnd, dEnd, dest, rest, fgPel, firstLine);
      if p.NullPtr? {
        return false, sEnd + 1, dEnd, rest;
      }
      sEnd, dEnd, rest := sEnd + 1, p.offset, rest - 8;
    }
    ok := true;
  }

  /** The bitmask loop of an FG/BG image of n pixels whose bitmask bytes
      start at src[s]: 8-pixel chunks while more than 8 pixels are left,
      then one chunk for the remaining 1 to 8.  Returns whether the image
      was written and both advanced cursors. */
  method WriteFgBgChunks(cfg: Config, src: seq<byte>, s: nat, d: nat, dest: array<byte>, n: nat, fgPel: Pixel, firstLine: bool)
    returns (ok: bool, sEnd: nat, dEnd: nat)
    requires s <= |src| && n <= 8 * (|src| - s) + 8
    requires d <= cfg.destEnd <= dest.Length && |fgPel| == cfg.bpp
    requires !firstLine ==> d >= cfg.rowDelta
    modifies dest
    ensures var im := FgBgChunks(cfg, src, s, d, old(dest[..]), n, fgPel, firstLine);
            ok == im.ImageDone? && dest[..] == im.out && (ok ==> sEnd == im.src && dEnd == im.dest)
  {
    var rest;
    ok, sEnd, dEnd, rest := WriteFullChunks(cfg, src, s, d, dest, n, fgPel, firstLine);
    if ok {
      ok, sEnd, dEnd := WriteLastChunk(cfg, src, sEnd, dEnd, dest, rest, fgPel, firstLine);
    }
  }

  /** The FG/BG-image branch: the header, then the bitmask loop. */
  method DecodeFgBgImage(cfg: Config, src: seq<byte>, st: State, dest: array<byte>, code: nat)
    returns (ok: bool, next: State)
    requires Valid(cfg, src, st, dest[..]) && st.src < |src|
    modifies dest
    ensures var o := FgBgImage(cfg, src, st, old(dest[..]), code);
            ok == o.Next? && dest[..] == o.out && (ok ==> next == o.st)
  {
    var hd := FgBgHeader(cfg, src, st, code);
    if hd.BadHeader? {
      return false, st;
    }
    var s, d;
    ok, s, d := WriteFgBgChunks(cfg, src, hd.start, st.dest, dest, hd.n, hd.fgPel, st.firstLine);
    next := State(s, d, hd.fgPel, st.firstLine, false);
  }

  /** The color-image branch: the header, then runLength literal pixels
      copied one by one. */
  method DecodeColorImage(cfg: Config, src: seq<byte>, st: State, dest: array<byte>, code: nat)
    returns (ok: bool, next: State)
    requires Valid(cfg, src, st, dest[..]) && st.src < |src|
    modifies dest
    ensures var o := ColorImage(cfg, src, st, old(dest[..]), code);
            ok == o.Next? && dest[..] == o.out && (ok ==> next == o.st)
  {
    var hd := ColorImageHeader(cfg, src, st, code);
    if hd.BadHeader? {
      return false, st;
    }
    var d, s := CopyPixels(dest, cfg.destEnd, st.dest, src, hd.start, hd.n, cfg.bpp);
    return true, State(s, d, st.fgPel, st.firstLine, false);
  }

  /** Special FG/BG 1 and 2: an 8-pixel FG/BG image with a fixed mask. */
  method DecodeSpecialFgBg(cfg: Config, src: seq<byte>, st: State, dest: array<byte>, mask: byte)
    returns (ok: bool, next: State)
    requires Valid(cfg, src, st, dest[..]) && st.src < |src|
    modifies dest
    ensures var o := SpecialFgBg(cfg, src, st, old(dest[..]), mask);
            ok == o.Next? && dest[..] == o.out && (ok ==> next == o.st)
  {
    if !WithinRange(st.src, 1, |src|) {
      return false, st;
    }
    var p := WriteChunk(cfg, dest, st.dest, mask, st.fgPel, 8, st.firstLine);
    if p.NullPtr? {
      return false, st;
    }
    return true, State(st.src + 1, p.offset, st.fgPel, st.firstLine, false);
  }

  /** Special white and special black: one literal pixel. */
  method DecodeSpecialPixel(cfg: Config, src: seq<byte>, st: State, dest: array<byte>, pixel: Pixel)
    returns (ok: bool, next: State)
    requires Valid(cfg, src, st, dest[..]) && st.src < |src| && |pixel| == cfg.bpp
    modifies dest
    ensures var o := SpecialPixel(cfg, src, st, old(dest[..]), pixel);
            ok == o.Next? && dest[..] == o.out && (ok ==> next == o.st)
  {
    next := st;
    if !WithinRange(st.src, 1, |src|) {
      return false, st;
    }
    if !HasCapacity(st.dest, cfg.destEnd, 1, cfg.bpp) {
      return false, st;
    }
    WritePixel(dest, cfg.destEnd, st.dest, pixel);
    return true, State(st.src + 1, st.dest + cfg.bpp, st.fgPel, st.firstLine, false);
  }

  /** The dispatch of the main loop on the order code; every order but a
      background run clears the pending foreground pixel first, and an
      unknown code fails without writing. */
  method DecodeOrder(cfg: Config, src: seq<byte>, st: State, dest: array<byte>, code: nat)
    returns (ok: bool, next: State)
    requires Valid(cfg, src, st, dest[..]) && st.src < |src|
    modifies dest
    ensures var o := Dispatch(cfg, src, st, old(dest[..]), code);
            ok == o.Next? && dest[..] == o.out && (ok ==> next == o.st)
  {
    if IsBackgroundRun(code) {
      ok, next := DecodeBackgroundRun(cfg, src, st, dest, code);
      return;
    }
    var st1 := st.(insertFgPel := false);
    if IsForegroundRun(code) {
      ok, next := DecodeForegroundRun(cfg, src, st1, dest, code);
    } else if IsDitheredRun(code) {
      ok, next := DecodeDitheredRun(cfg, src, st1, dest, code);
    } else if IsColorRun(code) {
      ok, next := DecodeColorRun(cfg, src, st1, dest, code);
    } else if IsFgBgImage(code) {
      ok, next := DecodeFgBgImage(cfg, src, st1, dest, code);
    } else if IsColorImage(code) {
      ok, next := DecodeColorImage(cfg, src, st1, dest, code);
    } else if code == SpecialFgBg1 {
      ok, next := DecodeSpecialFgBg(cfg, src, st1, dest, MaskSpecialFgBg1);
    } else if code == SpecialFgBg2 {
      ok, next := DecodeSpecialFgBg(cfg, src, st1, dest, MaskSpecialFgBg2);
    } else if code == SpecialWhite {
      ok, next := DecodeSpecialPixel(cfg, src, st1, dest, White(cfg.bpp));
    } else if code == SpecialBlack {
      ok, next := DecodeSpecialPixel(cfg, src, st1, dest, Black(cfg.bpp));
    } else {
      ok, next := false, st;
    }
  }

  /** RLEDECOMPRESS.  An invalid configuration or a null buffer returns
      false before anything is written; otherwise the return value and the
      destination are those of Decompress, and nothing at or beyond
      pbDestEnd = rowDelta * height changes. */
  method RleDecompress(bpp: PixelSize, srcBuffer: array?<byte>, cbSrcBuffer: nat, destBuffer: array?<byte>,
                       rowDelta: nat, width: nat, height: nat)
    returns (ok: bool)
    requires cbSrcBuffer < 0x1_0000_0000 && rowDelta < 0x1_0000_0000
    requires width < 0x1_0000_0000 && height < 0x1_0000_0000
    requires srcBuffer != null ==> cbSrcBuffer <= srcBuffer.Length
    requires destBuffer != null ==> rowDelta * height <= destBuffer.Length
    requires srcBuffer != null && destBuffer != null ==> srcBuffer != destBuffer
    modifies destBuffer
    ensures rowDelta == 0 || rowDelta < width || srcBuffer == null || destBuffer == null ==>
              !ok && (destBuffer != null ==> destBuffer[..] == old(destBuffer[..]))
    ensures srcBuffer != null && destBuffer != null ==>
              var r := Decompress(bpp, srcBuffer[..cbSrcBuffer], old(destBuffer[..]), rowDelta, width, height);
              ok == r.ok && destBuffer[..] == r.out
  {
    if rowDelta == 0 || rowDelta < width {
      return false;
    }
    if srcBuffer == null || destBuffer == null {
      return false;
    }
    var src := srcBuffer[..cbSrcBuffer];
    var cfg := Config(bpp, rowDelta, rowDelta * height);
    var st := Initial(bpp);
    while st.src < |src|
      invariant Valid(cfg, src, st, destBuffer[..])
      invariant Run(cfg, src, st, destBuffer[..]) == Run(cfg, src, Initial(bpp), old(destBuffer[..]))
      decreases |src| - st.src
    {
      ghost var out := destBuffer[..];
      ghost var before := st;
      if st.firstLine && st.dest % 0x1_0000_0000 >= rowDelta {
        st := st.(firstLine := false, insertFgPel := false);
      }
      var next: State;
      ok, next := DecodeOrder(cfg, src, st, destBuffer, ExtractCodeId(src[st.src]));
      assert Run(cfg, src, before, out) == if ok then Run(cfg, src, next, destBuffer[..]) else Result(false, destBuffer[..]);
      if !ok {
        return false;
      }
      st := next;
    }
    return true;
  }
}
