/** The read of the row above that a background run makes for its inserted
    foreground pixel.  Below the first row the decoder reads the pixel one
    row above the cursor BEFORE it checks that the cursor has room for one
    more pixel.  The argument check compares rowDelta (bytes) with width
    (pixels), so a row may be narrower than one pixel; then the pixel above
    a cursor standing at pbDestEnd reaches past the destination buffer.
    The model reads only after the check (InsertedBackgroundRun). */
module Findings {
  import opened Pixels
  import opened Orders
  import opened RleSpec

  /** The byte range [lo, hi) of the destination that the decoder as
      written reads for the inserted pixel, before its capacity check. */
  datatype Range = Range(lo: int, hi: int)

  function AsWrittenInsertRead(cfg: Config, st: State): (r: Range)
    ensures r.hi - r.lo == cfg.bpp
    ensures r.lo == st.dest - cfg.rowDelta
  {
    Range(st.dest - cfg.rowDelta, st.dest - cfg.rowDelta + cfg.bpp)
  }

  /** A range lies inside the destination buffer of destEnd bytes. */
  predicate InDest(cfg: Config, r: Range) {
    0 <= r.lo && r.hi <= cfg.destEnd
  }

  /** As written, the early read stays in the buffer whenever a row holds
      at least one pixel, and in general only when the cursor leaves room
      for the part of the pixel that sticks out of the row above. */
  lemma AsWrittenReadInBounds(cfg: Config, src: seq<byte>, st: State, out: seq<byte>)
    requires Valid(cfg, src, st, out) && !st.firstLine
    ensures InDest(cfg, AsWrittenInsertRead(cfg, st)) <==> st.dest + cfg.bpp <= cfg.destEnd + cfg.rowDelta
    ensures cfg.rowDelta >= cfg.bpp ==> InDest(cfg, AsWrittenInsertRead(cfg, st))
  {
  }

  /** A reachable over-read: 2-byte pixels, rows of 1 byte (width 1), four
      rows.  Special black fills the first row and a background run of one
      pixel the second; the cursor is at pbDestEnd with an inserted pixel
      pending, and the next background run reads the byte at offset 4 of a
      4-byte buffer before it refuses the order. */
  lemma AsWrittenOverread()
    ensures var cfg := Config(2, 1, 4);
            var src: seq<byte> := [0xFE, 0x01, 0x01];
            var st := State(2, 4, White(2), false, true);
            RunLoop(cfg, src, Initial(2), [0, 0, 0, 0]) == RunLoop(cfg, src, st, [0, 0, 0, 0])
            && IsBackgroundRun(ExtractCodeId(src[st.src])) && st.insertFgPel
            && !InDest(cfg, AsWrittenInsertRead(cfg, st))
            && Decompress(2, src, [0, 0, 0, 0], 1, 1, 4) == Result(false, [0, 0, 0, 0])
  {
    var cfg := Config(2, 1, 4);
    var src: seq<byte> := [0xFE, 0x01, 0x01];
    var st1 := State(1, 2, White(2), true, false);
    var st := State(2, 4, White(2), false, true);
    var out: seq<byte> := [0, 0, 0, 0];
    OverreadBlack();
    OverreadRow();
    OverreadRefused();
    assert RunLoop(cfg, src, st1, out) == RunLoop(cfg, src, st, out);
    assert RunLoop(cfg, src, Initial(2), out) == RunLoop(cfg, src, st1, out);
  }

  /** 0xFE writes a black pixel over the black first row. */
  lemma OverreadBlack()
    ensures Step(Config(2, 1, 4), [0xFE, 0x01, 0x01], Initial(2), [0, 0, 0, 0])
            == Next(State(1, 2, White(2), true, false), [0, 0, 0, 0])
  {
    assert ExtractCodeId(0xFE) == SpecialBlack;
    assert Overwrite([0, 0, 0, 0], 0, Black(2)) == [0, 0, 0, 0];
  }

  /** 0x01 is a background run of one pixel, which copies the (black) pixel
      above and leaves a foreground pixel pending. */
  lemma OverreadRow()
    ensures Step(Config(2, 1, 4), [0xFE, 0x01, 0x01], State(1, 2, White(2), true, false), [0, 0, 0, 0])
            == Next(State(2, 4, White(2), false, true), [0, 0, 0, 0])
  {
    var cfg := Config(2, 1, 4);
    var out: seq<byte> := [0, 0, 0, 0];
    assert ExtractCodeId(0x01) == RegularBgRun;
    assert ExtractRunLength(RegularBgRun, [0xFE, 0x01, 0x01], 1) == RunHeader(1, 1);
    FillUnfold(cfg, Solid(Above), out, 2, 0, 1);
    assert PixelAt(out, 1, 2) == [0, 0];
    assert Overwrite(out, 2, [0, 0]) == out;
    assert FillLoop(cfg, Solid(Above), out, 4, 1, 0) == out;
  }

  /** The third order finds no room for the inserted pixel. */
  lemma OverreadRefused()
    ensures Step(Config(2, 1, 4), [0xFE, 0x01, 0x01], State(2, 4, White(2), false, true), [0, 0, 0, 0])
            == Fail([0, 0, 0, 0])
  {
    assert ExtractCodeId(0x01) == RegularBgRun;
    assert ExtractRunLength(RegularBgRun, [0xFE, 0x01, 0x01], 2) == RunHeader(1, 1);
  }

  /** The corrected order, InsertedBackgroundRun, reads the pixel above only
      once the capacity check has passed, and then the read lies inside the
      destination whatever the row length. */
  lemma CorrectedInsertRead(cfg: Config, src: seq<byte>, st: State, out: seq<byte>, next: nat, n: nat)
    requires Valid(cfg, src, st, out) && st.src < next <= |src| && n < 0x1_0000_0000
    requires !st.firstLine
    ensures InsertedBackgroundRun(cfg, src, st, out, next, n).Next? ==>
              HasCapacity(st.dest, cfg.destEnd, 1, cfg.bpp) && InDest(cfg, AsWrittenInsertRead(cfg, st))
    ensures !HasCapacity(st.dest, cfg.destEnd, 1, cfg.bpp) ==> InsertedBackgroundRun(cfg, src, st, out, next, n) == Fail(out)
  {
  }
}
