/** The meaning of RLEDECOMPRESS (libfreerdp/codec/include/bitmap.h), as
    functions over the source stream and the destination contents.  One
    call of Step is one iteration of the decoder's main loop; Run is the
    loop; Decompress is the whole call.  The destination is a sequence that
    the functions rewrite in place, so a run that reads the row above sees
    the pixels the same run has already written. */
module RleSpec {
  import opened Pixels
  import opened Orders

  /** The fixed parameters of one call: PIXEL_SIZE, the row stride in bytes
      and the byte offset of pbDestEnd (rowDelta * height). */
  datatype Config = Config(bpp: PixelSize, rowDelta: nat, destEnd: nat)

  /** The decoder's state between two orders: the byte offsets of pbSrc and
      pbDest, the foreground pixel and the two flags. */
  datatype State = State(src: nat, dest: nat, fgPel: Pixel, firstLine: bool, insertFgPel: bool)

  /** What one order leaves behind: the next state and the destination, or a
      failure together with whatever the order wrote before it failed. */
  datatype Outcome = Next(st: State, out: seq<byte>) | Fail(out: seq<byte>)

  /** The return value of the decoder and the final destination contents. */
  datatype Result = Result(ok: bool, out: seq<byte>)

  /** What the loop keeps true between orders. */
  ghost predicate Valid(cfg: Config, src: seq<byte>, st: State, out: seq<byte>) {
    cfg.destEnd <= |out| && Cursors(cfg, src, st)
  }

  /** The part of Valid about the state alone: both cursors inside their
      buffers, fgPel a whole pixel, and below the first line a row above
      the destination cursor. */
  ghost predicate Cursors(cfg: Config, src: seq<byte>, st: State) {
    st.src <= |src| && st.dest <= cfg.destEnd
    && |st.fgPel| == cfg.bpp
    && (!st.firstLine ==> st.dest >= cfg.rowDelta)
  }

  /** The state a decode starts in: fgPel is white, on the first line, no
      foreground pixel pending. */
  function Initial(bpp: PixelSize): State {
    State(0, 0, White(bpp), true, false)
  }

  /** UINT32 subtraction of one, wrapping at zero. */
  function DecU32(x: nat): (r: nat)
    requires x < 0x1_0000_0000
    ensures r < 0x1_0000_0000
    ensures (r + 1) % 0x1_0000_0000 == x
  {
    if x == 0 then 0xFFFF_FFFF else x - 1
  }

  // ---------------------------------------------------------------------
  // Pixel patterns

  /** How one destination pixel is obtained. */
  datatype Rule =
    | Literal(p: Pixel)   // the given pixel
    | Above               // the pixel one row above, copied
    | AboveXor(p: Pixel)  // the pixel one row above XOR the given pixel

  /** How the pixels of one run are obtained, by their index in the run. */
  datatype Pattern =
    | Solid(rule: Rule)                                  // every pixel by the same rule
    | Alternate(a: Pixel, b: Pixel)                      // a, b, a, b, ...
    | Masked(mask: byte, fg: Pixel, firstLine: bool)     // FG/BG image, bit k for pixel k

  predicate RuleOk(cfg: Config, r: Rule) {
    match r
    case Literal(p) => |p| == cfg.bpp
    case Above => true
    case AboveXor(p) => |p| == cfg.bpp
  }

  predicate PatternOk(cfg: Config, pat: Pattern) {
    match pat
    case Solid(r) => RuleOk(cfg, r)
    case Alternate(a, b) => |a| == cfg.bpp && |b| == cfg.bpp
    case Masked(_, fg, _) => |fg| == cfg.bpp
  }

  /** Whether some pixel of the pattern is taken from the row above. */
  predicate ReadsAbove(pat: Pattern) {
    match pat
    case Solid(r) => !r.Literal?
    case Alternate(_, _) => false
    case Masked(_, _, firstLine) => !firstLine
  }

  /** Bit k of an FG/BG bitmask, least significant bit first. */
  predicate BitSet(mask: byte, k: nat) {
    k < 8 && mask & ((1 as byte) << k) != 0
  }

  /** The rule for pixel k of a run: in an FG/BG image a set bit selects the
      foreground (fgPel on the first line, above XOR fgPel below it) and a
      clear bit the background (black on the first line, above below it). */
  function RuleAt(cfg: Config, pat: Pattern, k: nat): (r: Rule)
    ensures PatternOk(cfg, pat) ==> RuleOk(cfg, r)
    ensures !r.Literal? ==> ReadsAbove(pat)
  {
    match pat
    case Solid(r) => r
    case Alternate(a, b) => Literal(if k % 2 == 0 then a else b)
    case Masked(mask, fg, firstLine) =>
      if BitSet(mask, k) then (if firstLine then Literal(fg) else AboveXor(fg))
      else (if firstLine then Literal(Black(cfg.bpp)) else Above)
  }

  /** The value a rule gives for the pixel at byte offset pos of out; the
      row above is read at pos - rowDelta, inside the destination. */
  function RuleValue(cfg: Config, r: Rule, out: seq<byte>, pos: nat): (p: Pixel)
    requires RuleOk(cfg, r)
    requires pos + cfg.bpp <= cfg.destEnd <= |out|
    requires !r.Literal? ==> pos >= cfg.rowDelta
    ensures |p| == cfg.bpp
  {
    match r
    case Literal(q) => q
    case Above => PixelAt(out, pos - cfg.rowDelta, cfg.bpp)
    case AboveXor(q) => Xor(PixelAt(out, pos - cfg.rowDelta, cfg.bpp), q)
  }

  /** The UNROLL loop of a run: writes the m pixels k .. k+m-1 of the
      pattern, one after the other, from byte offset pos on. */
  function Fill(cfg: Config, pat: Pattern, out: seq<byte>, pos: nat, k: nat, m: nat): (r: seq<byte>)
    requires PatternOk(cfg, pat)
    requires pos + Bytes(m, cfg.bpp) <= cfg.destEnd <= |out|
    requires ReadsAbove(pat) ==> pos >= cfg.rowDelta
    ensures |r| == |out|
  {
    FillLoop(cfg, pat, out, pos, k, m)
  }

  /** The recursion behind Fill, which names it without recursion so that
      the proofs about the decoder can compare two runs without unrolling
      them: nothing for m = 0, otherwise FillStep. */
  function FillLoop(cfg: Config, pat: Pattern, out: seq<byte>, pos: nat, k: nat, m: nat): (r: seq<byte>)
    requires PatternOk(cfg, pat)
    requires pos + Bytes(m, cfg.bpp) <= cfg.destEnd <= |out|
    requires ReadsAbove(pat) ==> pos >= cfg.rowDelta
    ensures |r| == |out|
    decreases m, 1
  {
    if m == 0 then out else FillStep(cfg, pat, out, pos, k, m)
  }

  /** Pixel k of the pattern, then the m - 1 after it. */
  function FillStep(cfg: Config, pat: Pattern, out: seq<byte>, pos: nat, k: nat, m: nat): (r: seq<byte>)
    requires m > 0 && PatternOk(cfg, pat)
    requires pos + Bytes(m, cfg.bpp) <= cfg.destEnd <= |out|
    requires ReadsAbove(pat) ==> pos >= cfg.rowDelta
    ensures |r| == |out|
    decreases m, 0
  {
    var v := RuleValue(cfg, RuleAt(cfg, pat, k), out, pos);
    FillLoop(cfg, pat, Overwrite(out, pos, v), pos + cfg.bpp, k + 1, m - 1)
  }

  /** A run of m > 0 pixels is its first pixel, then the run of the rest. */
  lemma FillUnfold(cfg: Config, pat: Pattern, out: seq<byte>, pos: nat, k: nat, m: nat)
    requires m > 0 && PatternOk(cfg, pat)
    requires pos + Bytes(m, cfg.bpp) <= cfg.destEnd <= |out|
    requires ReadsAbove(pat) ==> pos >= cfg.rowDelta
    ensures Fill(cfg, pat, out, pos, k, m)
            == Fill(cfg, pat, Overwrite(out, pos, RuleValue(cfg, RuleAt(cfg, pat, k), out, pos)), pos + cfg.bpp, k + 1, m - 1)
  {
    assert FillLoop(cfg, pat, out, pos, k, m) == FillStep(cfg, pat, out, pos, k, m);
  }

  // ---------------------------------------------------------------------
  // FG/BG images

  /** WRITEFGBGIMAGE (firstLine false) and WRITEFIRSTLINEFGBGIMAGE
      (firstLine true): NULL, or the advanced cursor and the destination. */
  datatype Chunk = Null | Written(end: nat, out: seq<byte>)

  function FgBgChunk(cfg: Config, out: seq<byte>, pos: nat, mask: byte, fg: Pixel, cBits: nat, firstLine: bool): (c: Chunk)
    requires |fg| == cfg.bpp && pos <= cfg.destEnd <= |out|
    requires !firstLine ==> pos >= cfg.rowDelta
    ensures c.Written? ==> pos <= c.end <= cfg.destEnd && |c.out| == |out|
  {
    if cBits > 8 then Null
    else if !HasCapacity(pos, cfg.destEnd, cBits, cfg.bpp) then Null
    else
      Written(pos + Bytes(cBits, cfg.bpp), Fill(cfg, Masked(mask, fg, firstLine), out, pos, 0, cBits))
  }

  /** Where an FG/BG image stops: after its last bitmask byte, or failed. */
  datatype Image = ImageDone(src: nat, dest: nat, out: seq<byte>) | ImageFail(out: seq<byte>)

  /** The bitmask loop of an FG/BG image of n pixels whose bitmask bytes
      start at src[s]: whole 8-pixel chunks while more than 8 pixels remain,
      then one chunk for the last 1 to 8 pixels. */
  function FgBgChunks(cfg: Config, src: seq<byte>, s: nat, dest: nat, out: seq<byte>, n: nat, fg: Pixel, firstLine: bool): (im: Image)
    requires s <= |src| && n <= 8 * (|src| - s) + 8
    requires dest <= cfg.destEnd <= |out| && |fg| == cfg.bpp
    requires !firstLine ==> dest >= cfg.rowDelta
    ensures |im.out| == |out|
    ensures im.ImageDone? ==> s <= im.src <= |src| && dest <= im.dest <= cfg.destEnd
  {
    ChunkLoop(cfg, src, s, dest, out, n, fg, firstLine)
  }

  /** The recursion behind FgBgChunks, which names it without recursion so
      that the proofs about the decoder can compare two images without
      unrolling them.  A finished image stays inside both buffers. */
  function ChunkLoop(cfg: Config, src: seq<byte>, s: nat, dest: nat, out: seq<byte>, n: nat, fg: Pixel, firstLine: bool): (im: Image)
    requires s <= |src| && n <= 8 * (|src| - s) + 8
    requires dest <= cfg.destEnd <= |out| && |fg| == cfg.bpp
    requires !firstLine ==> dest >= cfg.rowDelta
    ensures |im.out| == |out|
    ensures im.ImageDone? ==> s <= im.src <= |src| && dest <= im.dest <= cfg.destEnd
    decreases n, 1
  {
    if n > 8 then ChunkStep(cfg, src, s, dest, out, n, fg, firstLine)
    else if n > 0 then
      if !WithinRange(s, 1, |src|) then ImageFail(out)
      else
        match FgBgChunk(cfg, out, dest, src[s], fg, n, firstLine)
        case Null => ImageFail(out)
        case Written(d, o) => ImageDone(s + 1, d, o)
    else
      ImageDone(s, dest, out)
  }

  /** A whole chunk of 8 pixels from the bitmask byte at src[s], then the
      image of the n - 8 after it. */
  function ChunkStep(cfg: Config, src: seq<byte>, s: nat, dest: nat, out: seq<byte>, n: nat, fg: Pixel, firstLine: bool): (im: Image)
    requires s <= |src| && 8 < n <= 8 * (|src| - s) + 8
    requires dest <= cfg.destEnd <= |out| && |fg| == cfg.bpp
    requires !firstLine ==> dest >= cfg.rowDelta
    ensures |im.out| == |out|
    ensures im.ImageDone? ==> s <= im.src <= |src| && dest <= im.dest <= cfg.destEnd
    decreases n, 0
  {
    match FgBgChunk(cfg, out, dest, src[s], fg, 8, firstLine)
    case Null => ImageFail(out)
    case Written(d, o) => ChunkLoop(cfg, src, s + 1, d, o, n - 8, fg, firstLine)
  }

  // ---------------------------------------------------------------------
  // The orders.  Each takes the state after the first-line check of the
  // iteration; the facts they share are collected in OrderBounds.

  /** An order keeps the size of the destination; one that succeeds
      consumes source bytes, stays in the stream, moves the destination
      cursor forward but not beyond pbDestEnd and keeps the first-line
      flag.  Which bytes an order may change is stated by the lemmas of
      RleFrames. */
  ghost predicate OrderBounds(cfg: Config, src: seq<byte>, st: State, out: seq<byte>, o: Outcome)
    requires Valid(cfg, src, st, out)
  {
    |o.out| == |out|
    && (o.Next? ==>
          st.src < o.st.src <= |src| && st.dest <= o.st.dest <= cfg.destEnd
          && o.st.firstLine == st.firstLine && |o.st.fgPel| == cfg.bpp)
  }

  // Run orders are read first (header, pixels from the stream, capacity
  // check) and written afterwards; nothing is written when the reading
  // refuses the order.

  /** What a run order has read once all its checks have passed: where the
      source cursor stands, how many pixels the run has, their pattern, and
      the foreground pixel from then on. */
  datatype RunPlan = RunPlan(next: nat, n: nat, pat: Pattern, fgPel: Pixel)

  /** The reading phase of a run order: refused (the decoder returns FALSE
      before writing anything) or planned. */
  datatype Parse = Refused | Planned(plan: RunPlan)

  /** A plan the decoder can carry out from state st: it consumed source
      bytes, its pixels fit the pixel size and end before pbDestEnd, and a
      pattern that reads the row above starts below the first row. */
  ghost predicate PlanFits(cfg: Config, src: seq<byte>, st: State, p: RunPlan) {
    st.src < p.next <= |src| && |p.fgPel| == cfg.bpp && PatternOk(cfg, p.pat)
    && st.dest + Bytes(p.n, cfg.bpp) <= cfg.destEnd
    && (ReadsAbove(p.pat) ==> st.dest >= cfg.rowDelta)
  }

  /** The writing phase of a run order: the UNROLL loop of the plan from the
      destination cursor on; insert is the fInsertFgPel the order leaves. */
  function RunOutcome(cfg: Config, src: seq<byte>, st: State, out: seq<byte>, p: Parse, insert: bool): (o: Outcome)
    requires Valid(cfg, src, st, out)
    requires p.Planned? ==> PlanFits(cfg, src, st, p.plan)
    ensures OrderBounds(cfg, src, st, out, o)
  {
    match p
    case Refused => Fail(out)
    case Planned(r) =>
      Next(State(r.next, st.dest + Bytes(r.n, cfg.bpp), r.fgPel, st.firstLine, insert),
           Fill(cfg, r.pat, out, st.dest, 0, r.n))
  }

  /** The run of a background order once its header is read: n pixels from
      the cursor of st on, black on the first line and the row above copied
      below it, after the capacity check. */
  function BackgroundPlan(cfg: Config, src: seq<byte>, st: State, next: nat, n: nat): (p: Parse)
    requires Cursors(cfg, src, st) && st.src < next <= |src|
    ensures p.Planned? ==> PlanFits(cfg, src, st, p.plan)
  {
    if !HasCapacity(st.dest, cfg.destEnd, n, cfg.bpp) then Refused
    else Planned(RunPlan(next, n, Solid(if st.firstLine then Literal(Black(cfg.bpp)) else Above), st.fgPel))
  }

  /** A background run that starts with an inserted foreground pixel: fgPel
      on the first line, the row above XOR fgPel below it, after its own
      capacity check; then the run of the remaining n - 1 pixels, with n - 1
      computed as a UINT32. */
  function InsertedBackgroundRun(cfg: Config, src: seq<byte>, st: State, out: seq<byte>, next: nat, n: nat): (o: Outcome)
    requires Valid(cfg, src, st, out) && st.src < next <= |src| && n < 0x1_0000_0000
    ensures OrderBounds(cfg, src, st, out, o)
  {
    if !HasCapacity(st.dest, cfg.destEnd, 1, cfg.bpp) then Fail(out)
    else
      var ins := if st.firstLine then Literal(st.fgPel) else AboveXor(st.fgPel);
      var st1 := st.(dest := st.dest + cfg.bpp);
      var out1 := Overwrite(out, st.dest, RuleValue(cfg, ins, out, st.dest));
      RunOutcome(cfg, src, st1, out1, BackgroundPlan(cfg, src, st1, next, DecU32(n)), true)
  }

  /** Background run: the inserted pixel when one is pending, then black on
      the first line or the row above copied below it; afterwards a
      following background run inserts a foreground pixel. */
  function BackgroundRun(cfg: Config, src: seq<byte>, st: State, out: seq<byte>, code: nat): (o: Outcome)
    requires Valid(cfg, src, st, out) && st.src < |src|
    ensures OrderBounds(cfg, src, st, out, o)
  {
    var h := ExtractRunLength(code, src, st.src);
    if h.advance == 0 then Fail(out)
    else if st.insertFgPel then InsertedBackgroundRun(cfg, src, st, out, st.src + h.advance, h.runLength)
    else RunOutcome(cfg, src, st, out, BackgroundPlan(cfg, src, st, st.src + h.advance, h.runLength), true)
  }

  /** The reading phase of a foreground run (regular, mega-mega, and the
      two set-foreground forms, which first load fgPel from the stream):
      fgPel on the first line, the row above XOR fgPel below it. */
  function ForegroundPlan(cfg: Config, src: seq<byte>, st: State, code: nat): (p: Parse)
    requires Cursors(cfg, src, st) && st.src < |src|
    ensures p.Planned? ==> PlanFits(cfg, src, st, p.plan)
  {
    var h := ExtractRunLength(code, src, st.src);
    var s := st.src + h.advance;
    if h.advance == 0 then Refused
    else if IsSetFg(code) && !WithinRange(s, cfg.bpp, |src|) then Refused
    else
      var fg := if IsSetFg(code) then PixelAt(src, s, cfg.bpp) else st.fgPel;
      var s1 := if IsSetFg(code) then s + cfg.bpp else s;
      if !HasCapacity(st.dest, cfg.destEnd, h.runLength, cfg.bpp) then Refused
      else Planned(RunPlan(s1, h.runLength, Solid(if st.firstLine then Literal(fg) else AboveXor(fg)), fg))
  }

  /** Foreground run. */
  function ForegroundRun(cfg: Config, src: seq<byte>, st: State, out: seq<byte>, code: nat): (o: Outcome)
    requires Valid(cfg, src, st, out) && st.src < |src|
    ensures OrderBounds(cfg, src, st, out, o)
  {
    RunOutcome(cfg, src, st, out, ForegroundPlan(cfg, src, st, code), false)
  }

  /** The reading phase of a dithered run: two literal pixels, then room for
      runLength pairs. */
  function DitheredPlan(cfg: Config, src: seq<byte>, st: State, code: nat): (p: Parse)
    requires Cursors(cfg, src, st) && st.src < |src|
    ensures p.Planned? ==> PlanFits(cfg, src, st, p.plan)
  {
    var h := ExtractRunLength(code, src, st.src);
    var s := st.src + h.advance;
    if h.advance == 0 then Refused
    else if !WithinRange(s, cfg.bpp, |src|) then Refused
    else if !WithinRange(s + cfg.bpp, cfg.bpp, |src|) then Refused
    else if !HasCapacity(st.dest, cfg.destEnd, h.runLength * 2, cfg.bpp) then Refused
    else
      var pat := Alternate(PixelAt(src, s, cfg.bpp), PixelAt(src, s + cfg.bpp, cfg.bpp));
      Planned(RunPlan(s + cfg.bpp + cfg.bpp, h.runLength * 2, pat, st.fgPel))
  }

  /** Dithered run: the two pixels written runLength times as a pair. */
  function DitheredRun(cfg: Config, src: seq<byte>, st: State, out: seq<byte>, code: nat): (o: Outcome)
    requires Valid(cfg, src, st, out) && st.src < |src|
    ensures OrderBounds(cfg, src, st, out, o)
  {
    RunOutcome(cfg, src, st, out, DitheredPlan(cfg, src, st, code), false)
  }

  /** The reading phase of a color run: one literal pixel. */
  function ColorPlan(cfg: Config, src: seq<byte>, st: State, code: nat): (p: Parse)
    requires Cursors(cfg, src, st) && st.src < |src|
    ensures p.Planned? ==> PlanFits(cfg, src, st, p.plan)
  {
    var h := ExtractRunLength(code, src, st.src);
    var s := st.src + h.advance;
    if h.advance == 0 then Refused
    else if !WithinRange(s, cfg.bpp, |src|) then Refused
    else if !HasCapacity(st.dest, cfg.destEnd, h.runLength, cfg.bpp) then Refused
    else Planned(RunPlan(s + cfg.bpp, h.runLength, Solid(Literal(PixelAt(src, s, cfg.bpp))), st.fgPel))
  }

  /** Color run: the pixel written runLength times. */
  function ColorRun(cfg: Config, src: seq<byte>, st: State, out: seq<byte>, code: nat): (o: Outcome)
    requires Valid(cfg, src, st, out) && st.src < |src|
    ensures OrderBounds(cfg, src, st, out, o)
  {
    RunOutcome(cfg, src, st, out, ColorPlan(cfg, src, st, code), false)
  }

  /** Where the header of an FG/BG image leaves the decoder: the bitmask
      bytes start at start, the image has n pixels, and fgPel is the
      foreground pixel; or the header is refused. */
  datatype ImageHeader = BadHeader | ImageHeader(start: nat, n: nat, fgPel: Pixel)

  /** The reading phase of an FG/BG image (regular, mega-mega and the two
      set-foreground forms): the header, the optional new fgPel, and the
      check that n / 8 bitmask bytes follow. */
  function FgBgHeader(cfg: Config, src: seq<byte>, st: State, code: nat): (hd: ImageHeader)
    requires Cursors(cfg, src, st) && st.src < |src|
    ensures hd.ImageHeader? ==> st.src < hd.start && hd.start + hd.n / 8 <= |src| && |hd.fgPel| == cfg.bpp
    ensures hd.ImageHeader? ==> hd.n <= 8 * (|src| - hd.start) + 7
  {
    var h := ExtractRunLength(code, src, st.src);
    var s := st.src + h.advance;
    if h.advance == 0 then BadHeader
    else if IsSetFg(code) && !WithinRange(s, cfg.bpp, |src|) then BadHeader
    else
      var fg := if IsSetFg(code) then PixelAt(src, s, cfg.bpp) else st.fgPel;
      var s1 := if IsSetFg(code) then s + cfg.bpp else s;
      if !WithinRange(s1, h.runLength / 8, |src|) then BadHeader
      else ImageHeader(s1, h.runLength, fg)
  }

  /** FG/BG image: one bitmask byte per 8 pixels, the last one covering
      the remainder. */
  function FgBgImage(cfg: Config, src: seq<byte>, st: State, out: seq<byte>, code: nat): (o: Outcome)
    requires Valid(cfg, src, st, out) && st.src < |src|
    ensures OrderBounds(cfg, src, st, out, o)
  {
    match FgBgHeader(cfg, src, st, code)
    case BadHeader => Fail(out)
    case ImageHeader(s, n, fg) =>
      match FgBgChunks(cfg, src, s, st.dest, out, n, fg, st.firstLine)
      case ImageFail(o) => Fail(o)
      case ImageDone(s2, d2, o) => Next(State(s2, d2, fg, st.firstLine, false), o)
  }

  /** The reading phase of a color image: the header and the two capacity
      checks, on the destination and on the stream; the pixels start at
      start. */
  function ColorImageHeader(cfg: Config, src: seq<byte>, st: State, code: nat): (hd: ImageHeader)
    requires Cursors(cfg, src, st) && st.src < |src|
    ensures hd.ImageHeader? ==>
      st.src < hd.start && hd.start + Bytes(hd.n, cfg.bpp) <= |src|
      && st.dest + Bytes(hd.n, cfg.bpp) <= cfg.destEnd && hd.fgPel == st.fgPel
  {
    var h := ExtractRunLength(code, src, st.src);
    var s := st.src + h.advance;
    if h.advance == 0 then BadHeader
    else if !HasCapacity(st.dest, cfg.destEnd, h.runLength, cfg.bpp) then BadHeader
    else if !HasCapacity(s, |src|, h.runLength, cfg.bpp) then BadHeader
    else ImageHeader(s, h.runLength, st.fgPel)
  }

  /** Color image: runLength literal pixels copied from the stream. */
  function ColorImage(cfg: Config, src: seq<byte>, st: State, out: seq<byte>, code: nat): (o: Outcome)
    requires Valid(cfg, src, st, out) && st.src < |src|
    ensures OrderBounds(cfg, src, st, out, o)
  {
    match ColorImageHeader(cfg, src, st, code)
    case BadHeader => Fail(out)
    case ImageHeader(s, n, _) =>
      var len := Bytes(n, cfg.bpp);
      Next(State(s + len, st.dest + len, st.fgPel, st.firstLine, false), Overwrite(out, st.dest, src[s..s + len]))
  }

  /** Special FG/BG 1 and 2: an 8-pixel FG/BG image with a fixed bitmask. */
  function SpecialFgBg(cfg: Config, src: seq<byte>, st: State, out: seq<byte>, mask: byte): (o: Outcome)
    requires Valid(cfg, src, st, out) && st.src < |src|
    ensures OrderBounds(cfg, src, st, out, o)
  {
    if !WithinRange(st.src, 1, |src|) then Fail(out)
    else
      match FgBgChunk(cfg, out, st.dest, mask, st.fgPel, 8, st.firstLine)
      case Null => Fail(out)
      case Written(d, o) => Next(State(st.src + 1, d, st.fgPel, st.firstLine, false), o)
  }

  /** Special white and special black: one literal pixel. */
  function SpecialPixel(cfg: Config, src: seq<byte>, st: State, out: seq<byte>, p: Pixel): (o: Outcome)
    requires Valid(cfg, src, st, out) && st.src < |src| && |p| == cfg.bpp
    ensures OrderBounds(cfg, src, st, out, o)
  {
    if !WithinRange(st.src, 1, |src|) then Fail(out)
    else if !HasCapacity(st.dest, cfg.destEnd, 1, cfg.bpp) then Fail(out)
    else Next(State(st.src + 1, st.dest + cfg.bpp, st.fgPel, st.firstLine, false), Overwrite(out, st.dest, p))
  }

  // ---------------------------------------------------------------------
  // The main loop

  /** The check at the top of every iteration: once the destination cursor
      (as a UINT32 byte offset) has reached rowDelta, the first line is over
      and a pending foreground pixel is dropped. */
  function LineCheck(cfg: Config, st: State): (st1: State)
    ensures st1.firstLine <==> st.firstLine && st.dest % 0x1_0000_0000 < cfg.rowDelta
    ensures st1.insertFgPel <==> st.insertFgPel && st1.firstLine == st.firstLine
    ensures st1.src == st.src && st1.dest == st.dest && st1.fgPel == st.fgPel
  {
    if st.firstLine && st.dest % 0x1_0000_0000 >= cfg.rowDelta then st.(firstLine := false, insertFgPel := false)
    else st
  }

  /** Dispatch of one order on its code; every order but a background run
      clears the pending foreground pixel first. */
  function Dispatch(cfg: Config, src: seq<byte>, st: State, out: seq<byte>, code: nat): (o: Outcome)
    requires Valid(cfg, src, st, out) && st.src < |src|
    ensures OrderBounds(cfg, src, st, out, o)
  {
    if IsBackgroundRun(code) then BackgroundRun(cfg, src, st, out, code)
    else
      var st1 := st.(insertFgPel := false);
      if IsForegroundRun(code) then ForegroundRun(cfg, src, st1, out, code)
      else if IsDitheredRun(code) then DitheredRun(cfg, src, st1, out, code)
      else if IsColorRun(code) then ColorRun(cfg, src, st1, out, code)
      else if IsFgBgImage(code) then FgBgImage(cfg, src, st1, out, code)
      else if IsColorImage(code) then ColorImage(cfg, src, st1, out, code)
      else if code == SpecialFgBg1 then SpecialFgBg(cfg, src, st1, out, MaskSpecialFgBg1)
      else if code == SpecialFgBg2 then SpecialFgBg(cfg, src, st1, out, MaskSpecialFgBg2)
      else if code == SpecialWhite then SpecialPixel(cfg, src, st1, out, White(cfg.bpp))
      else if code == SpecialBlack then SpecialPixel(cfg, src, st1, out, Black(cfg.bpp))
      else Fail(out)
  }

  /** One iteration of the main loop.  It keeps the loop's invariant and
      moves the source cursor forward. */
  function Step(cfg: Config, src: seq<byte>, st: State, out: seq<byte>): (o: Outcome)
    requires Valid(cfg, src, st, out) && st.src < |src|
    ensures |o.out| == |out|
    ensures o.Next? ==> st.src < o.st.src && st.dest <= o.st.dest && Valid(cfg, src, o.st, o.out)
  {
    var st1 := LineCheck(cfg, st);
    Dispatch(cfg, src, st1, out, ExtractCodeId(src[st.src]))
  }

  /** The main loop: orders until the source is exhausted (success) or an
      order fails. */
  function Run(cfg: Config, src: seq<byte>, st: State, out: seq<byte>): (r: Result)
    requires Valid(cfg, src, st, out)
    ensures |r.out| == |out|
  {
    RunLoop(cfg, src, st, out)
  }

  /** The recursion behind Run, which names it without recursion so that
      the proof of the decoder's loop can compare two runs without
      unrolling them. */
  function RunLoop(cfg: Config, src: seq<byte>, st: State, out: seq<byte>): (r: Result)
    requires Valid(cfg, src, st, out)
    ensures |r.out| == |out|
    decreases |src| - st.src
  {
    if st.src >= |src| then Result(true, out)
    else
      match Step(cfg, src, st, out)
      case Fail(o) => Result(false, o)
      case Next(st1, o) => RunLoop(cfg, src, st1, o)
  }

  /** RLEDECOMPRESS on non-null buffers: the configuration check, then the
      main loop from the initial state over a destination of rowDelta *
      height bytes. */
  function Decompress(bpp: PixelSize, src: seq<byte>, out: seq<byte>, rowDelta: nat, width: nat, height: nat): (r: Result)
    requires rowDelta * height <= |out|
    ensures |r.out| == |out|
  {
    if rowDelta == 0 || rowDelta < width then Result(false, out)
    else Run(Config(bpp, rowDelta, rowDelta * height), src, Initial(bpp), out)
  }
}
