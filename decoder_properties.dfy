/** The main loop of RLEDECOMPRESS: what one iteration does to the flags
    of the decoder, the empty stream, and a worked decode. */
module DecoderProperties {
  import opened Pixels
  import opened Orders
  import opened RleSpec

  /** After an iteration that goes on, a foreground pixel is pending
      exactly when the order was a background run, the first-line flag is
      the one the line check left, and fgPel has changed only if the order
      was one of the set-foreground forms. */
  lemma StepFlags(cfg: Config, src: seq<byte>, st: State, out: seq<byte>)
    requires Valid(cfg, src, st, out) && st.src < |src|
    ensures var o := Step(cfg, src, st, out);
            var code := ExtractCodeId(src[st.src]);
            o.Next? ==>
              (o.st.insertFgPel <==> IsBackgroundRun(code))
              && o.st.firstLine == LineCheck(cfg, st).firstLine
              && (o.st.fgPel != st.fgPel ==> IsSetFg(code))
  {
    var st1 := LineCheck(cfg, st);
    var st2 := st1.(insertFgPel := false);
    var code := ExtractCodeId(src[st.src]);
    if IsBackgroundRun(code) {
      BackgroundFlags(cfg, src, st1, out, code);
    } else if IsForegroundRun(code) {
      ForegroundFlags(cfg, src, st2, out, code);
    } else if IsDitheredRun(code) {
      DitheredFlags(cfg, src, st2, out, code);
    } else if IsColorRun(code) {
      ColorRunFlags(cfg, src, st2, out, code);
    } else if IsFgBgImage(code) {
      FgBgImageFlags(cfg, src, st2, out, code);
    } else if IsColorImage(code) {
      ColorImageFlags(cfg, src, st2, out, code);
    } else if code == SpecialFgBg1 || code == SpecialFgBg2 {
      SpecialFgBgFlags(cfg, src, st2, out, if code == SpecialFgBg1 then MaskSpecialFgBg1 else MaskSpecialFgBg2);
    } else if code == SpecialWhite || code == SpecialBlack {
      SpecialPixelFlags(cfg, src, st2, out, if code == SpecialWhite then White(cfg.bpp) else Black(cfg.bpp));
    }
  }

  /** An order that goes on leaves insert as the pending-pixel flag, keeps
      the first-line flag, and changes fgPel only when setFg. */
  ghost predicate KeepsFlags(st: State, o: Outcome, insert: bool, setFg: bool) {
    o.Next? ==>
      o.st.insertFgPel == insert && o.st.firstLine == st.firstLine
      && (o.st.fgPel != st.fgPel ==> setFg)
  }

  lemma BackgroundFlags(cfg: Config, src: seq<byte>, st: State, out: seq<byte>, code: nat)
    requires Valid(cfg, src, st, out) && st.src < |src|
    ensures KeepsFlags(st, BackgroundRun(cfg, src, st, out, code), true, false)
  {
  }

  lemma ForegroundFlags(cfg: Config, src: seq<byte>, st: State, out: seq<byte>, code: nat)
    requires Valid(cfg, src, st, out) && st.src < |src|
    ensures KeepsFlags(st, ForegroundRun(cfg, src, st, out, code), false, IsSetFg(code))
  {
  }

  lemma DitheredFlags(cfg: Config, src: seq<byte>, st: State, out: seq<byte>, code: nat)
    requires Valid(cfg, src, st, out) && st.src < |src|
    ensures KeepsFlags(st, DitheredRun(cfg, src, st, out, code), false, false)
  {
  }

  lemma ColorRunFlags(cfg: Config, src: seq<byte>, st: State, out: seq<byte>, code: nat)
    requires Valid(cfg, src, st, out) && st.src < |src|
    ensures KeepsFlags(st, ColorRun(cfg, src, st, out, code), false, false)
  {
  }

  lemma FgBgImageFlags(cfg: Config, src: seq<byte>, st: State, out: seq<byte>, code: nat)
    requires Valid(cfg, src, st, out) && st.src < |src|
    ensures KeepsFlags(st, FgBgImage(cfg, src, st, out, code), false, IsSetFg(code))
  {
  }

  lemma ColorImageFlags(cfg: Config, src: seq<byte>, st: State, out: seq<byte>, code: nat)
    requires Valid(cfg, src, st, out) && st.src < |src|
    ensures KeepsFlags(st, ColorImage(cfg, src, st, out, code), false, false)
  {
  }

  lemma SpecialFgBgFlags(cfg: Config, src: seq<byte>, st: State, out: seq<byte>, mask: byte)
    requires Valid(cfg, src, st, out) && st.src < |src|
    ensures KeepsFlags(st, SpecialFgBg(cfg, src, st, out, mask), false, false)
  {
  }

  lemma SpecialPixelFlags(cfg: Config, src: seq<byte>, st: State, out: seq<byte>, p: Pixel)
    requires Valid(cfg, src, st, out) && st.src < |src| && |p| == cfg.bpp
    ensures KeepsFlags(st, SpecialPixel(cfg, src, st, out, p), false, false)
  {
  }

  /** On an empty stream the loop is never entered: RLEDECOMPRESS returns
      TRUE when rowDelta is non-zero and at least width, and the
      destination is left as it was. */
  lemma EmptyStream(bpp: PixelSize, out: seq<byte>, rowDelta: nat, width: nat, height: nat)
    requires rowDelta * height <= |out|
    ensures Decompress(bpp, [], out, rowDelta, width, height) == Result(rowDelta != 0 && rowDelta >= width, out)
  {
    if rowDelta != 0 && rowDelta >= width {
      assert RunLoop(Config(bpp, rowDelta, rowDelta * height), [], Initial(bpp), out) == Result(true, out);
    }
  }

  /** A worked decode of a 2 x 2 bitmap of one byte per pixel: special
      white, special black, then a background run of 2 on the second row,
      which copies the row above. */
  lemma TwoRowsDecode()
    ensures Decompress(1, [0xFD, 0xFE, 0x02], [0, 0, 0, 0], 2, 2, 2) == Result(true, [0xFF, 0x00, 0xFF, 0x00])
  {
    var cfg := Config(1, 2, 4);
    var src: seq<byte> := [0xFD, 0xFE, 0x02];
    var r: seq<byte> := [0xFF, 0x00, 0xFF, 0x00];
    var st1, out1 := TwoRowsFirstRow();
    var st2 := State(3, 4, [0xFF], false, true);
    TwoRowsSecondRow();
    assert RunLoop(cfg, src, st2, r) == Result(true, r);
    assert RunLoop(cfg, src, st1, out1) == RunLoop(cfg, src, st2, r);
  }

  /** The first two orders of the worked decode each write one pixel of the
      first row. */
  lemma TwoRowsFirstRow() returns (st: State, out: seq<byte>)
    ensures st == State(2, 2, [0xFF], true, false) && out == [0xFF, 0, 0, 0]
    ensures RunLoop(Config(1, 2, 4), [0xFD, 0xFE, 0x02], Initial(1), [0, 0, 0, 0])
            == RunLoop(Config(1, 2, 4), [0xFD, 0xFE, 0x02], st, out)
  {
    var cfg := Config(1, 2, 4);
    var src: seq<byte> := [0xFD, 0xFE, 0x02];
    var st1 := State(1, 1, [0xFF], true, false);
    TwoRowsWhite();
    TwoRowsBlack();
    st, out := State(2, 2, [0xFF], true, false), [0xFF, 0, 0, 0];
    assert RunLoop(cfg, src, Initial(1), [0, 0, 0, 0]) == RunLoop(cfg, src, st1, [0xFF, 0, 0, 0]);
    assert RunLoop(cfg, src, st1, [0xFF, 0, 0, 0]) == RunLoop(cfg, src, st, out);
  }

  /** 0xFD writes a white pixel at the start of the first row. */
  lemma TwoRowsWhite()
    ensures Step(Config(1, 2, 4), [0xFD, 0xFE, 0x02], Initial(1), [0, 0, 0, 0])
            == Next(State(1, 1, [0xFF], true, false), [0xFF, 0, 0, 0])
  {
    assert ExtractCodeId(0xFD) == SpecialWhite;
    assert Overwrite([0, 0, 0, 0], 0, White(1)) == [0xFF, 0, 0, 0];
  }

  /** 0xFE writes a black pixel after it, still on the first row. */
  lemma TwoRowsBlack()
    ensures Step(Config(1, 2, 4), [0xFD, 0xFE, 0x02], State(1, 1, [0xFF], true, false), [0xFF, 0, 0, 0])
            == Next(State(2, 2, [0xFF], true, false), [0xFF, 0, 0, 0])
  {
    assert ExtractCodeId(0xFE) == SpecialBlack;
    assert Overwrite([0xFF, 0, 0, 0], 1, Black(1)) == [0xFF, 0, 0, 0];
  }

  /** The third order comes after the line check has ended the first row;
      0x02 is a regular background run of 2 pixels, which copies the row
      above. */
  lemma TwoRowsSecondRow()
    ensures Step(Config(1, 2, 4), [0xFD, 0xFE, 0x02], State(2, 2, [0xFF], true, false), [0xFF, 0, 0, 0])
            == Next(State(3, 4, [0xFF], false, true), [0xFF, 0x00, 0xFF, 0x00])
  {
    var cfg := Config(1, 2, 4);
    var src: seq<byte> := [0xFD, 0xFE, 0x02];
    var out: seq<byte> := [0xFF, 0, 0, 0];
    assert ExtractCodeId(0x02) == RegularBgRun;
    assert ExtractRunLength(RegularBgRun, src, 2) == RunHeader(2, 1);
    assert LineCheck(cfg, State(2, 2, [0xFF], true, false)) == State(2, 2, [0xFF], false, false);
    TwoRowsFill();
  }

  /** The background run of the worked decode copies the first row. */
  lemma TwoRowsFill()
    ensures Fill(Config(1, 2, 4), Solid(Above), [0xFF, 0, 0, 0], 2, 0, 2) == [0xFF, 0x00, 0xFF, 0x00]
  {
    var cfg := Config(1, 2, 4);
    var out: seq<byte> := [0xFF, 0, 0, 0];
    var r: seq<byte> := [0xFF, 0, 0xFF, 0];
    FillUnfold(cfg, Solid(Above), out, 2, 0, 2);
    assert PixelAt(out, 0, 1) == [0xFF];
    assert Overwrite(out, 2, [0xFF]) == r;
    FillUnfold(cfg, Solid(Above), r, 3, 1, 1);
    assert PixelAt(r, 1, 1) == [0];
    assert Overwrite(r, 3, [0]) == r;
    assert FillLoop(cfg, Solid(Above), r, 4, 2, 0) == r;
  }
}
