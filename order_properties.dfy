/** The run orders, the color image and the special orders of
    RLEDECOMPRESS, order by order: when each one is refused, how far it
    moves both cursors, what it leaves in fgPel and fInsertFgPel, and the
    pixels it writes. */
module OrderProperties {
  import opened Pixels
  import opened Orders
  import opened RleSpec
  import opened RleFrames
  import opened RunPixels

  /** Carrying out a run plan: the decoder goes on from the plan's source
      cursor with the destination cursor n pixels on, and in the finished
      run pixel k obeys the rule the plan's pattern gives it. */
  lemma PlannedRun(cfg: Config, src: seq<byte>, st: State, out: seq<byte>, r: RunPlan, insert: bool, k: nat)
    requires Valid(cfg, src, st, out) && PlanFits(cfg, src, st, r) && k < r.n
    requires ReadsAbove(r.pat) ==> cfg.rowDelta >= cfg.bpp
    ensures var o := RunOutcome(cfg, src, st, out, Planned(r), insert);
            var p := st.dest + Bytes(k, cfg.bpp);
            o.Next? && o.st == State(r.next, st.dest + Bytes(r.n, cfg.bpp), r.fgPel, st.firstLine, insert)
            && p + cfg.bpp <= cfg.destEnd
            && PixelAt(o.out, p, cfg.bpp) == RuleValue(cfg, RuleAt(cfg, r.pat, k), o.out, p)
  {
    FillFinal(cfg, r.pat, out, st.dest, r.n, k);
  }

  // ---------------------------------------------------------------------
  // Background runs

  /** A background run without a pending foreground pixel is refused
      exactly when its run length cannot be read or its n pixels do not
      fit; otherwise it consumes the header, keeps fgPel, asks the next
      background run to insert a foreground pixel, and writes black on the
      first line and a copy of the pixel above below it. */
  lemma BackgroundRunOrder(cfg: Config, src: seq<byte>, st: State, out: seq<byte>, code: nat, k: nat)
    requires Valid(cfg, src, st, out) && st.src < |src| && !st.insertFgPel
    requires !st.firstLine ==> cfg.rowDelta >= cfg.bpp
    ensures var o := BackgroundRun(cfg, src, st, out, code);
            var h := ExtractRunLength(code, src, st.src);
            (o.Next? <==> h.advance > 0 && st.dest + Bytes(h.runLength, cfg.bpp) <= cfg.destEnd)
            && (o.Next? ==>
                  o.st == State(st.src + h.advance, st.dest + Bytes(h.runLength, cfg.bpp), st.fgPel, st.firstLine, true)
                  && (k < h.runLength ==>
                        var p := st.dest + Bytes(k, cfg.bpp);
                        PixelAt(o.out, p, cfg.bpp)
                        == if st.firstLine then Black(cfg.bpp) else PixelAt(o.out, p - cfg.rowDelta, cfg.bpp)))
  {
    var h := ExtractRunLength(code, src, st.src);
    if h.advance > 0 {
      var pl := BackgroundPlan(cfg, src, st, st.src + h.advance, h.runLength);
      if pl.Planned? && k < h.runLength {
        PlannedRun(cfg, src, st, out, pl.plan, true, k);
      }
    }
  }

  /** A background run with a pending foreground pixel first writes that
      pixel (fgPel on the first line, the pixel above XOR fgPel below it)
      when one pixel fits, then runs the remaining runLength - 1 pixels,
      the subtraction taken as a UINT32, as a background run from the
      next pixel on.  It is refused when the run length cannot be read,
      the inserted pixel does not fit or the rest does not fit. */
  lemma InsertedRunOrder(cfg: Config, src: seq<byte>, st: State, out: seq<byte>, code: nat, k: nat)
    requires Valid(cfg, src, st, out) && st.src < |src| && st.insertFgPel
    requires !st.firstLine ==> cfg.rowDelta >= cfg.bpp
    ensures var o := BackgroundRun(cfg, src, st, out, code);
            var h := ExtractRunLength(code, src, st.src);
            var rest := DecU32(h.runLength);
            var d := st.dest + cfg.bpp;
            (o.Next? <==> h.advance > 0 && d + Bytes(rest, cfg.bpp) <= cfg.destEnd)
            && (o.Next? ==>
                  o.st == State(st.src + h.advance, d + Bytes(rest, cfg.bpp), st.fgPel, st.firstLine, true)
                  && PixelAt(o.out, st.dest, cfg.bpp)
                     == (if st.firstLine then st.fgPel else Xor(PixelAt(o.out, st.dest - cfg.rowDelta, cfg.bpp), st.fgPel))
                  && (k < rest ==>
                        var p := d + Bytes(k, cfg.bpp);
                        PixelAt(o.out, p, cfg.bpp)
                        == if st.firstLine then Black(cfg.bpp) else PixelAt(o.out, p - cfg.rowDelta, cfg.bpp)))
  {
    var h := ExtractRunLength(code, src, st.src);
    if h.advance > 0 {
      var next := st.src + h.advance;
      InsertedCursors(cfg, src, st, out, next, h.runLength);
      InsertedPixel(cfg, src, st, out, next, h.runLength);
      InsertedRestPixel(cfg, src, st, out, next, h.runLength, k);
    }
  }

  /** The cursors of a background run with a pending foreground pixel,
      once its header is read: it succeeds exactly when the inserted pixel
      and the n - 1 (as a UINT32) pixels after it fit. */
  lemma InsertedCursors(cfg: Config, src: seq<byte>, st: State, out: seq<byte>, next: nat, n: nat)
    requires Valid(cfg, src, st, out) && st.src < next <= |src| && n < 0x1_0000_0000
    ensures var o := InsertedBackgroundRun(cfg, src, st, out, next, n);
            var d := st.dest + cfg.bpp;
            (o.Next? <==> d + Bytes(DecU32(n), cfg.bpp) <= cfg.destEnd)
            && (o.Next? ==> o.st == State(next, d + Bytes(DecU32(n), cfg.bpp), st.fgPel, st.firstLine, true))
  {
  }

  /** The inserted pixel of a background run survives the rest of the run:
      it is fgPel on the first line and the pixel above XOR fgPel below
      it in the finished run. */
  lemma InsertedPixel(cfg: Config, src: seq<byte>, st: State, out: seq<byte>, next: nat, n: nat)
    requires Valid(cfg, src, st, out) && st.src < next <= |src| && n < 0x1_0000_0000
    requires !st.firstLine ==> cfg.rowDelta >= cfg.bpp
    ensures var o := InsertedBackgroundRun(cfg, src, st, out, next, n);
            o.Next? ==>
              PixelAt(o.out, st.dest, cfg.bpp)
              == (if st.firstLine then st.fgPel else Xor(PixelAt(o.out, st.dest - cfg.rowDelta, cfg.bpp), st.fgPel))
  {
    if st.dest + cfg.bpp <= cfg.destEnd {
      var st1, out1 := InsertedStart(cfg, src, st, out, next, n);
      var pl := BackgroundPlan(cfg, src, st1, next, DecU32(n));
      if pl.Planned? {
        var o := RunOutcome(cfg, src, st1, out1, pl, true);
        FillFrame(cfg, pl.plan.pat, out1, st1.dest, 0, pl.plan.n);
        RuleKept(cfg, InsertedRule(st), out1, o.out, st1.dest, st1.dest + Bytes(pl.plan.n, cfg.bpp), st.dest);
      }
    }
  }

  /** After the inserted pixel, pixel k of the rest of the run is black on
      the first line and a copy of the pixel above below it. */
  lemma InsertedRestPixel(cfg: Config, src: seq<byte>, st: State, out: seq<byte>, next: nat, n: nat, k: nat)
    requires Valid(cfg, src, st, out) && st.src < next <= |src| && n < 0x1_0000_0000
    requires !st.firstLine ==> cfg.rowDelta >= cfg.bpp
    ensures var o := InsertedBackgroundRun(cfg, src, st, out, next, n);
            o.Next? && k < DecU32(n) ==>
              var p := st.dest + cfg.bpp + Bytes(k, cfg.bpp);
              PixelAt(o.out, p, cfg.bpp)
              == if st.firstLine then Black(cfg.bpp) else PixelAt(o.out, p - cfg.rowDelta, cfg.bpp)
  {
    if st.dest + cfg.bpp <= cfg.destEnd {
      var st1, out1 := InsertedStart(cfg, src, st, out, next, n);
      var pl := BackgroundPlan(cfg, src, st1, next, DecU32(n));
      if pl.Planned? && k < DecU32(n) {
        PlannedRun(cfg, src, st1, out1, pl.plan, true, k);
      }
    }
  }

  /** The rule of the inserted foreground pixel: fgPel on the first line,
      the pixel above XOR fgPel below it. */
  function InsertedRule(st: State): (r: Rule)
    ensures r.Literal? <==> st.firstLine
  {
    if st.firstLine then Literal(st.fgPel) else AboveXor(st.fgPel)
  }

  /** The inserted pixel of a background run, named: after it the decoder
      is in state st1, one pixel on, with destination out1 holding the
      pixel, and the rest is an ordinary background run from there. */
  lemma InsertedStart(cfg: Config, src: seq<byte>, st: State, out: seq<byte>, next: nat, n: nat) returns (st1: State, out1: seq<byte>)
    requires Valid(cfg, src, st, out) && st.src < next <= |src| && n < 0x1_0000_0000
    requires !st.firstLine ==> cfg.rowDelta >= cfg.bpp
    requires st.dest + cfg.bpp <= cfg.destEnd
    ensures st1 == st.(dest := st.dest + cfg.bpp) && Valid(cfg, src, st1, out1)
    ensures InsertedBackgroundRun(cfg, src, st, out, next, n)
            == RunOutcome(cfg, src, st1, out1, BackgroundPlan(cfg, src, st1, next, DecU32(n)), true)
    ensures RuleOk(cfg, InsertedRule(st))
    ensures PixelAt(out1, st.dest, cfg.bpp) == RuleValue(cfg, InsertedRule(st), out1, st.dest)
  {
    var ins := InsertedRule(st);
    var v := RuleValue(cfg, ins, out, st.dest);
    st1 := st.(dest := st.dest + cfg.bpp);
    out1 := Overwrite(out, st.dest, v);
    assert InsertedBackgroundRun(cfg, src, st, out, next, n)
           == RunOutcome(cfg, src, st1, out1, BackgroundPlan(cfg, src, st1, next, DecU32(n)), true);
    OverwriteFrame(out, st.dest, v);
    OverwriteRead(out, st.dest, v);
    if !st.firstLine {
      PixelBefore(out, out1, st.dest, st.dest + cfg.bpp, st.dest - cfg.rowDelta, cfg.bpp);
    }
  }

  // ---------------------------------------------------------------------
  // Foreground, dithered and color runs

  /** A foreground run (regular, mega-mega, lite set-foreground and
      mega-mega set-foreground) is refused exactly when its run length
      cannot be read, a set-foreground form finds no whole pixel after the
      header, or its n pixels do not fit.  Otherwise the set-foreground
      forms load fgPel from after the header; the run writes fgPel on the
      first line and the pixel above XOR fgPel below it, for every pixel,
      and clears the pending foreground pixel. */
  lemma ForegroundRunOrder(cfg: Config, src: seq<byte>, st: State, out: seq<byte>, code: nat, k: nat)
    requires Valid(cfg, src, st, out) && st.src < |src|
    requires !st.firstLine ==> cfg.rowDelta >= cfg.bpp
    ensures var o := ForegroundRun(cfg, src, st, out, code);
            var h := ExtractRunLength(code, src, st.src);
            var s := st.src + h.advance;
            var next := if IsSetFg(code) then s + cfg.bpp else s;
            (o.Next? <==> h.advance > 0 && next <= |src| && st.dest + Bytes(h.runLength, cfg.bpp) <= cfg.destEnd)
            && (o.Next? ==>
                  var fg := if IsSetFg(code) then PixelAt(src, s, cfg.bpp) else st.fgPel;
                  o.st == State(next, st.dest + Bytes(h.runLength, cfg.bpp), fg, st.firstLine, false)
                  && (k < h.runLength ==>
                        var p := st.dest + Bytes(k, cfg.bpp);
                        PixelAt(o.out, p, cfg.bpp)
                        == if st.firstLine then fg else Xor(PixelAt(o.out, p - cfg.rowDelta, cfg.bpp), fg)))
  {
    var pl := ForegroundPlanFields(cfg, src, st, out, code);
    if pl.Planned? && k < pl.plan.n {
      PlannedRun(cfg, src, st, out, pl.plan, false, k);
    }
  }

  /** The plan a foreground run reads, field by field. */
  lemma ForegroundPlanFields(cfg: Config, src: seq<byte>, st: State, out: seq<byte>, code: nat) returns (pl: Parse)
    requires Valid(cfg, src, st, out) && st.src < |src|
    ensures pl.Planned? ==> PlanFits(cfg, src, st, pl.plan)
    ensures ForegroundRun(cfg, src, st, out, code) == RunOutcome(cfg, src, st, out, pl, false)
    ensures var h := ExtractRunLength(code, src, st.src);
            var s := st.src + h.advance;
            var next := if IsSetFg(code) then s + cfg.bpp else s;
            (pl.Planned? <==> h.advance > 0 && next <= |src| && st.dest + Bytes(h.runLength, cfg.bpp) <= cfg.destEnd)
            && (pl.Planned? ==>
                  var fg := if IsSetFg(code) then PixelAt(src, s, cfg.bpp) else st.fgPel;
                  pl.plan == RunPlan(next, h.runLength, Solid(if st.firstLine then Literal(fg) else AboveXor(fg)), fg))
  {
    pl := ForegroundPlan(cfg, src, st, code);
  }

  /** A dithered run (lite and mega-mega) reads two pixels A and B after
      its header and is refused exactly when its run length cannot be
      read, either pixel is not wholly in the stream, or 2 * runLength
      pixels do not fit; otherwise it writes A, B, A, B, ... runLength
      times, wherever the rows are, and keeps fgPel. */
  lemma DitheredRunOrder(cfg: Config, src: seq<byte>, st: State, out: seq<byte>, code: nat, k: nat)
    requires Valid(cfg, src, st, out) && st.src < |src|
    ensures var o := DitheredRun(cfg, src, st, out, code);
            var h := ExtractRunLength(code, src, st.src);
            var s := st.src + h.advance;
            (o.Next? <==> h.advance > 0 && s + cfg.bpp + cfg.bpp <= |src| && st.dest + Bytes(2 * h.runLength, cfg.bpp) <= cfg.destEnd)
            && (o.Next? ==>
                  o.st == State(s + cfg.bpp + cfg.bpp, st.dest + Bytes(2 * h.runLength, cfg.bpp), st.fgPel, st.firstLine, false)
                  && (k < 2 * h.runLength ==>
                        PixelAt(o.out, st.dest + Bytes(k, cfg.bpp), cfg.bpp)
                        == if k % 2 == 0 then PixelAt(src, s, cfg.bpp) else PixelAt(src, s + cfg.bpp, cfg.bpp)))
  {
    var pl := DitheredPlanFields(cfg, src, st, out, code);
    if pl.Planned? && k < pl.plan.n {
      FillLiteral(cfg, pl.plan.pat, out, st.dest, pl.plan.n, k);
    }
  }

  /** The plan a dithered run reads, field by field. */
  lemma DitheredPlanFields(cfg: Config, src: seq<byte>, st: State, out: seq<byte>, code: nat) returns (pl: Parse)
    requires Valid(cfg, src, st, out) && st.src < |src|
    ensures pl.Planned? ==> PlanFits(cfg, src, st, pl.plan)
    ensures DitheredRun(cfg, src, st, out, code) == RunOutcome(cfg, src, st, out, pl, false)
    ensures var h := ExtractRunLength(code, src, st.src);
            var s := st.src + h.advance;
            (pl.Planned? <==> h.advance > 0 && s + cfg.bpp + cfg.bpp <= |src| && st.dest + Bytes(2 * h.runLength, cfg.bpp) <= cfg.destEnd)
            && (pl.Planned? ==>
                  pl.plan == RunPlan(s + cfg.bpp + cfg.bpp, 2 * h.runLength,
                                     Alternate(PixelAt(src, s, cfg.bpp), PixelAt(src, s + cfg.bpp, cfg.bpp)), st.fgPel))
  {
    pl := DitheredPlan(cfg, src, st, code);
    var h := ExtractRunLength(code, src, st.src);
    assert h.runLength * 2 == 2 * h.runLength;
  }

  /** A color run (regular and mega-mega) reads one pixel after its header
      and is refused exactly when its run length cannot be read, the pixel
      is not wholly in the stream, or runLength pixels do not fit;
      otherwise it writes that pixel runLength times and keeps fgPel. */
  lemma ColorRunOrder(cfg: Config, src: seq<byte>, st: State, out: seq<byte>, code: nat, k: nat)
    requires Valid(cfg, src, st, out) && st.src < |src|
    ensures var o := ColorRun(cfg, src, st, out, code);
            var h := ExtractRunLength(code, src, st.src);
            var s := st.src + h.advance;
            (o.Next? <==> h.advance > 0 && s + cfg.bpp <= |src| && st.dest + Bytes(h.runLength, cfg.bpp) <= cfg.destEnd)
            && (o.Next? ==>
                  o.st == State(s + cfg.bpp, st.dest + Bytes(h.runLength, cfg.bpp), st.fgPel, st.firstLine, false)
                  && (k < h.runLength ==>
                        PixelAt(o.out, st.dest + Bytes(k, cfg.bpp), cfg.bpp) == PixelAt(src, s, cfg.bpp)))
  {
    var pl := ColorPlan(cfg, src, st, code);
    if pl.Planned? && k < pl.plan.n {
      FillLiteral(cfg, pl.plan.pat, out, st.dest, pl.plan.n, k);
    }
  }

  // ---------------------------------------------------------------------
  // Color images and the special orders

  /** A color image (regular and mega-mega) is refused exactly when its
      run length cannot be read or runLength pixels do not fit both in the
      destination and in the rest of the stream; otherwise both cursors move
      runLength pixels on and fgPel is kept. */
  lemma ColorImageCursors(cfg: Config, src: seq<byte>, st: State, out: seq<byte>, code: nat)
    requires Valid(cfg, src, st, out) && st.src < |src|
    ensures var o := ColorImage(cfg, src, st, out, code);
            var h := ExtractRunLength(code, src, st.src);
            var s := st.src + h.advance;
            var len := Bytes(h.runLength, cfg.bpp);
            (o.Next? <==> h.advance > 0 && st.dest + len <= cfg.destEnd && s + len <= |src|)
            && (o.Next? ==> o.st == State(s + len, st.dest + len, st.fgPel, st.firstLine, false))
  {
  }

  /** A color image copies the runLength pixels that follow its header
      byte for byte (that it writes nothing else is ColorImageFrame). */
  lemma ColorImageCopies(cfg: Config, src: seq<byte>, st: State, out: seq<byte>, code: nat)
    requires Valid(cfg, src, st, out) && st.src < |src|
    ensures var o := ColorImage(cfg, src, st, out, code);
            var s := st.src + ExtractRunLength(code, src, st.src).advance;
            o.Next? ==>
              o.st.src - s == o.st.dest - st.dest
              && o.out[st.dest..o.st.dest] == src[s..o.st.src]
  {
    var hd := ColorImageHeader(cfg, src, st, code);
    if hd.ImageHeader? {
      var len := Bytes(hd.n, cfg.bpp);
      OverwriteRead(out, st.dest, src[hd.start..hd.start + len]);
    }
  }

  /** Special white and special black consume their code byte and write
      one white or black pixel when one pixel fits, and are refused
      otherwise; they keep fgPel and clear the pending foreground pixel. */
  lemma SpecialPixelOrder(cfg: Config, src: seq<byte>, st: State, out: seq<byte>, white: bool)
    requires Valid(cfg, src, st, out) && st.src < |src|
    ensures var code := if white then SpecialWhite else SpecialBlack;
            var o := Dispatch(cfg, src, st, out, code);
            (o.Next? <==> st.dest + cfg.bpp <= cfg.destEnd)
            && (o.Next? ==>
                  o.st == State(st.src + 1, st.dest + cfg.bpp, st.fgPel, st.firstLine, false)
                  && PixelAt(o.out, st.dest, cfg.bpp) == if white then White(cfg.bpp) else Black(cfg.bpp))
  {
    var p := if white then White(cfg.bpp) else Black(cfg.bpp);
    if st.dest + cfg.bpp <= cfg.destEnd {
      OverwriteFrame(out, st.dest, p);
      assert PixelAt(Overwrite(out, st.dest, p), st.dest, cfg.bpp) == p;
    }
  }

  /** A code that names no order ends the decoder with FALSE and leaves
      the destination as it was. */
  lemma UnknownCodeFails(cfg: Config, src: seq<byte>, st: State, out: seq<byte>, code: nat)
    requires Valid(cfg, src, st, out) && st.src < |src|
    requires !IsBackgroundRun(code) && !IsForegroundRun(code) && !IsDitheredRun(code) && !IsColorRun(code)
    requires !IsFgBgImage(code) && !IsColorImage(code) && !IsSpecial(code)
    ensures Dispatch(cfg, src, st, out, code) == Fail(out)
  {
  }
}
