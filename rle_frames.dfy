/** Which destination bytes RLEDECOMPRESS may change.  Every write of the
    decoder goes through DESTWRITEPIXEL or a block copy after a capacity
    check against pbDestEnd, so nothing before the destination cursor and
    nothing at or beyond pbDestEnd is ever changed; an order that succeeds
    changes only the bytes it advances the cursor over. */
module RleFrames {
  import opened Pixels
  import opened Orders
  import opened RleSpec

  /** What an order o, started from st on out, may have changed: bytes
      between the cursor and pbDestEnd, and when it succeeds only those it
      advanced the cursor over. */
  ghost predicate Writes(cfg: Config, st: State, out: seq<byte>, o: Outcome) {
    AgreeOutside(out, o.out, st.dest, cfg.destEnd)
    && (o.Next? ==> AgreeOutside(out, o.out, st.dest, o.st.dest))
  }

  /** A run changes nothing outside the bytes of its pixels. */
  lemma {:induction false} FillFrame(cfg: Config, pat: Pattern, out: seq<byte>, pos: nat, k: nat, m: nat)
    requires PatternOk(cfg, pat)
    requires pos + Bytes(m, cfg.bpp) <= cfg.destEnd <= |out|
    requires ReadsAbove(pat) ==> pos >= cfg.rowDelta
    ensures AgreeOutside(out, Fill(cfg, pat, out, pos, k, m), pos, pos + Bytes(m, cfg.bpp))
    decreases m
  {
    if m > 0 {
      var v := RuleValue(cfg, RuleAt(cfg, pat, k), out, pos);
      var out1 := Overwrite(out, pos, v);
      var r := Fill(cfg, pat, out1, pos + cfg.bpp, k + 1, m - 1);
      FillUnfold(cfg, pat, out, pos, k, m);
      OverwriteFrame(out, pos, v);
      FillFrame(cfg, pat, out1, pos + cfg.bpp, k + 1, m - 1);
      AgreeOutsideTrans(out, out1, r, pos, pos + cfg.bpp, pos + cfg.bpp, pos + cfg.bpp + Bytes(m - 1, cfg.bpp),
                        pos, pos + Bytes(m, cfg.bpp));
    }
  }

  /** WRITEFGBGIMAGE and WRITEFIRSTLINEFGBGIMAGE change only the pixels
      between pos and the cursor they return. */
  lemma ChunkFrame(cfg: Config, out: seq<byte>, pos: nat, mask: byte, fg: Pixel, cBits: nat, firstLine: bool)
    requires |fg| == cfg.bpp && pos <= cfg.destEnd <= |out|
    requires !firstLine ==> pos >= cfg.rowDelta
    ensures var c := FgBgChunk(cfg, out, pos, mask, fg, cBits, firstLine);
            c.Written? ==> AgreeOutside(out, c.out, pos, c.end)
  {
    if cBits <= 8 && HasCapacity(pos, cfg.destEnd, cBits, cfg.bpp) {
      FillFrame(cfg, Masked(mask, fg, firstLine), out, pos, 0, cBits);
    }
  }

  /** The bitmask loop of an FG/BG image changes only bytes between its
      starting cursor and pbDestEnd, and a finished image only the bytes up
      to its final cursor. */
  lemma {:induction false} ChunkLoopFrame(cfg: Config, src: seq<byte>, s: nat, dest: nat, out: seq<byte>, n: nat, fg: Pixel, firstLine: bool)
    requires s <= |src| && n <= 8 * (|src| - s) + 8
    requires dest <= cfg.destEnd <= |out| && |fg| == cfg.bpp
    requires !firstLine ==> dest >= cfg.rowDelta
    ensures var im := ChunkLoop(cfg, src, s, dest, out, n, fg, firstLine);
            AgreeOutside(out, im.out, dest, cfg.destEnd)
            && (im.ImageDone? ==> AgreeOutside(out, im.out, dest, im.dest))
    decreases n
  {
    var im := ChunkLoop(cfg, src, s, dest, out, n, fg, firstLine);
    if n > 8 {
      assert im == ChunkStep(cfg, src, s, dest, out, n, fg, firstLine);
      ChunkFrame(cfg, out, dest, src[s], fg, 8, firstLine);
      match FgBgChunk(cfg, out, dest, src[s], fg, 8, firstLine)
      case Null =>
      case Written(d, o) =>
        ChunkLoopFrame(cfg, src, s + 1, d, o, n - 8, fg, firstLine);
        AgreeOutsideTrans(out, o, im.out, dest, d, d, cfg.destEnd, dest, cfg.destEnd);
        if im.ImageDone? {
          AgreeOutsideTrans(out, o, im.out, dest, d, d, im.dest, dest, im.dest);
        }
    } else if n > 0 && WithinRange(s, 1, |src|) {
      ChunkFrame(cfg, out, dest, src[s], fg, n, firstLine);
      var c := FgBgChunk(cfg, out, dest, src[s], fg, n, firstLine);
      if c.Written? {
        AgreeOutsideWiden(out, c.out, dest, c.end, dest, cfg.destEnd);
      }
    }
  }

  /** The writing phase of a run order changes only the pixels of the run. */
  lemma RunOutcomeFrame(cfg: Config, src: seq<byte>, st: State, out: seq<byte>, p: Parse, insert: bool)
    requires Valid(cfg, src, st, out)
    requires p.Planned? ==> PlanFits(cfg, src, st, p.plan)
    ensures Writes(cfg, st, out, RunOutcome(cfg, src, st, out, p, insert))
  {
    if p.Planned? {
      var r := p.plan;
      FillFrame(cfg, r.pat, out, st.dest, 0, r.n);
      var o := Fill(cfg, r.pat, out, st.dest, 0, r.n);
      AgreeOutsideWiden(out, o, st.dest, st.dest + Bytes(r.n, cfg.bpp), st.dest, cfg.destEnd);
    }
  }

  /** A background run with a pending foreground pixel changes only the
      inserted pixel and the run after it. */
  lemma InsertedFrame(cfg: Config, src: seq<byte>, st: State, out: seq<byte>, next: nat, n: nat)
    requires Valid(cfg, src, st, out) && st.src < next <= |src| && n < 0x1_0000_0000
    ensures Writes(cfg, st, out, InsertedBackgroundRun(cfg, src, st, out, next, n))
  {
    if HasCapacity(st.dest, cfg.destEnd, 1, cfg.bpp) {
      var ins := if st.firstLine then Literal(st.fgPel) else AboveXor(st.fgPel);
      var v := RuleValue(cfg, ins, out, st.dest);
      var st1 := st.(dest := st.dest + cfg.bpp);
      var out1 := Overwrite(out, st.dest, v);
      var p := BackgroundPlan(cfg, src, st1, next, DecU32(n));
      var o := RunOutcome(cfg, src, st1, out1, p, true);
      assert InsertedBackgroundRun(cfg, src, st, out, next, n) == o;
      OverwriteFrame(out, st.dest, v);
      RunOutcomeFrame(cfg, src, st1, out1, p, true);
      AgreeOutsideTrans(out, out1, o.out, st.dest, st1.dest, st1.dest, cfg.destEnd, st.dest, cfg.destEnd);
      if o.Next? {
        AgreeOutsideTrans(out, out1, o.out, st.dest, st1.dest, st1.dest, o.st.dest, st.dest, o.st.dest);
      }
    }
  }

  lemma BackgroundRunFrame(cfg: Config, src: seq<byte>, st: State, out: seq<byte>, code: nat)
    requires Valid(cfg, src, st, out) && st.src < |src|
    ensures Writes(cfg, st, out, BackgroundRun(cfg, src, st, out, code))
  {
    var h := ExtractRunLength(code, src, st.src);
    if h.advance != 0 {
      if st.insertFgPel {
        InsertedFrame(cfg, src, st, out, st.src + h.advance, h.runLength);
      } else {
        RunOutcomeFrame(cfg, src, st, out, BackgroundPlan(cfg, src, st, st.src + h.advance, h.runLength), true);
      }
    }
  }

  lemma FgBgImageFrame(cfg: Config, src: seq<byte>, st: State, out: seq<byte>, code: nat)
    requires Valid(cfg, src, st, out) && st.src < |src|
    ensures Writes(cfg, st, out, FgBgImage(cfg, src, st, out, code))
  {
    var hd := FgBgHeader(cfg, src, st, code);
    if hd.ImageHeader? {
      ChunkLoopFrame(cfg, src, hd.start, st.dest, out, hd.n, hd.fgPel, st.firstLine);
    }
  }

  lemma ColorImageFrame(cfg: Config, src: seq<byte>, st: State, out: seq<byte>, code: nat)
    requires Valid(cfg, src, st, out) && st.src < |src|
    ensures Writes(cfg, st, out, ColorImage(cfg, src, st, out, code))
  {
    var hd := ColorImageHeader(cfg, src, st, code);
    if hd.ImageHeader? {
      var len := Bytes(hd.n, cfg.bpp);
      OverwriteFrame(out, st.dest, src[hd.start..hd.start + len]);
      AgreeOutsideWiden(out, Overwrite(out, st.dest, src[hd.start..hd.start + len]), st.dest, st.dest + len, st.dest, cfg.destEnd);
    }
  }

  lemma SpecialFgBgFrame(cfg: Config, src: seq<byte>, st: State, out: seq<byte>, mask: byte)
    requires Valid(cfg, src, st, out) && st.src < |src|
    ensures Writes(cfg, st, out, SpecialFgBg(cfg, src, st, out, mask))
  {
    ChunkFrame(cfg, out, st.dest, mask, st.fgPel, 8, st.firstLine);
    var c := FgBgChunk(cfg, out, st.dest, mask, st.fgPel, 8, st.firstLine);
    if c.Written? {
      AgreeOutsideWiden(out, c.out, st.dest, c.end, st.dest, cfg.destEnd);
    }
  }

  lemma SpecialPixelFrame(cfg: Config, src: seq<byte>, st: State, out: seq<byte>, p: Pixel)
    requires Valid(cfg, src, st, out) && st.src < |src| && |p| == cfg.bpp
    ensures Writes(cfg, st, out, SpecialPixel(cfg, src, st, out, p))
  {
    if HasCapacity(st.dest, cfg.destEnd, 1, cfg.bpp) {
      OverwriteFrame(out, st.dest, p);
      AgreeOutsideWiden(out, Overwrite(out, st.dest, p), st.dest, st.dest + cfg.bpp, st.dest, cfg.destEnd);
    }
  }

  /** Every order changes only bytes between the destination cursor and
      pbDestEnd, and an order that succeeds only the bytes it advances the
      cursor over. */
  lemma DispatchFrame(cfg: Config, src: seq<byte>, st: State, out: seq<byte>, code: nat)
    requires Valid(cfg, src, st, out) && st.src < |src|
    ensures Writes(cfg, st, out, Dispatch(cfg, src, st, out, code))
  {
    var st1 := st.(insertFgPel := false);
    if IsBackgroundRun(code) {
      BackgroundRunFrame(cfg, src, st, out, code);
    } else if IsForegroundRun(code) {
      RunOutcomeFrame(cfg, src, st1, out, ForegroundPlan(cfg, src, st1, code), false);
    } else if IsDitheredRun(code) {
      RunOutcomeFrame(cfg, src, st1, out, DitheredPlan(cfg, src, st1, code), false);
    } else if IsColorRun(code) {
      RunOutcomeFrame(cfg, src, st1, out, ColorPlan(cfg, src, st1, code), false);
    } else if IsFgBgImage(code) {
      FgBgImageFrame(cfg, src, st1, out, code);
    } else if IsColorImage(code) {
      ColorImageFrame(cfg, src, st1, out, code);
    } else if code == SpecialFgBg1 {
      SpecialFgBgFrame(cfg, src, st1, out, MaskSpecialFgBg1);
    } else if code == SpecialFgBg2 {
      SpecialFgBgFrame(cfg, src, st1, out, MaskSpecialFgBg2);
    } else if code == SpecialWhite {
      SpecialPixelFrame(cfg, src, st1, out, White(cfg.bpp));
    } else if code == SpecialBlack {
      SpecialPixelFrame(cfg, src, st1, out, Black(cfg.bpp));
    }
  }

  /** The main loop never changes a byte before the cursor it starts from or
      at or beyond pbDestEnd. */
  lemma {:induction false} RunFrame(cfg: Config, src: seq<byte>, st: State, out: seq<byte>)
    requires Valid(cfg, src, st, out)
    ensures AgreeOutside(out, Run(cfg, src, st, out).out, st.dest, cfg.destEnd)
    decreases |src| - st.src
  {
    if st.src < |src| {
      var st1 := LineCheck(cfg, st);
      DispatchFrame(cfg, src, st1, out, ExtractCodeId(src[st.src]));
      match Step(cfg, src, st, out)
      case Fail(o) =>
      case Next(st2, o) =>
        RunFrame(cfg, src, st2, o);
        AgreeOutsideTrans(out, o, Run(cfg, src, st2, o).out, st.dest, cfg.destEnd, st2.dest, cfg.destEnd, st.dest, cfg.destEnd);
    }
  }

  /** RLEDECOMPRESS changes nothing at or beyond pbDestEnd = rowDelta *
      height. */
  lemma DecompressFrame(bpp: PixelSize, src: seq<byte>, out: seq<byte>, rowDelta: nat, width: nat, height: nat)
    requires rowDelta * height <= |out|
    ensures AgreeOutside(out, Decompress(bpp, src, out, rowDelta, width, height).out, 0, rowDelta * height)
  {
    if rowDelta != 0 && rowDelta >= width {
      RunFrame(Config(bpp, rowDelta, rowDelta * height), src, Initial(bpp), out);
    }
  }
}
