/** Streams made only of color-image orders.  A color image carries its
    pixels verbatim, so a stream of them that covers the destination is
    the simplest encoding of a bitmap; decoding it gives back exactly the
    pixels it carries. */
module ImageStream {
  import opened Pixels
  import opened Orders
  import opened RleSpec

  /** One MEGA_MEGA_COLOR_IMAGE order: the two bytes of its 16-bit run
      length, low byte first, and the bytes of its pixels in buffer order. */
  datatype Block = Block(lo: byte, hi: byte, px: seq<byte>)

  /** The run length of a block. */
  function Count(b: Block): (n: nat)
    ensures n < 0x1_0000
  {
    b.lo as nat + 256 * b.hi as nat
  }

  /** A block whose bytes are Count(b) whole pixels. */
  predicate BlockOk(b: Block, bpp: PixelSize) {
    |b.px| == Bytes(Count(b), bpp)
  }

  predicate BlocksOk(blocks: seq<Block>, bpp: PixelSize) {
    forall i :: 0 <= i < |blocks| ==> BlockOk(blocks[i], bpp)
  }

  /** The order for one block: the code byte 0xF4, the run length, then
      the pixel bytes. */
  function Encode(b: Block): (e: seq<byte>)
    ensures |e| == 3 + |b.px| && e[3..] == b.px
  {
    [MegaMegaColorImage as byte, b.lo, b.hi] + b.px
  }

  /** The decoder reads the header of an encoded block back: its code byte
      is a mega-mega color image and its run length is Count(b). */
  lemma EncodeHeader(b: Block)
    ensures ExtractCodeId(Encode(b)[0]) == MegaMegaColorImage
    ensures ExtractRunLength(MegaMegaColorImage, Encode(b), 0) == RunHeader(Count(b), 3)
  {
    assert Encode(b)[0] == 0xF4;
  }

  /** The stream of one order per block. */
  function EncodeAll(blocks: seq<Block>, bpp: PixelSize): seq<byte>
    requires BlocksOk(blocks, bpp)
  {
    if blocks == [] then [] else Encode(blocks[0]) + EncodeAll(blocks[1..], bpp)
  }

  /** The bitmap the blocks describe: their pixel bytes one after another. */
  function Image(blocks: seq<Block>): seq<byte> {
    if blocks == [] then [] else blocks[0].px + Image(blocks[1..])
  }

  /** One iteration over the order for b: the header is read, the n pixels
      fit in both buffers, and they are copied to the destination cursor. */
  lemma BlockStep(cfg: Config, src: seq<byte>, st: State, out: seq<byte>, b: Block) returns (st1: State)
    requires Valid(cfg, src, st, out) && BlockOk(b, cfg.bpp)
    requires st.src + 3 + |b.px| <= |src| && src[st.src..st.src + 3 + |b.px|] == Encode(b)
    requires st.dest + |b.px| <= cfg.destEnd
    ensures Step(cfg, src, st, out) == Next(st1, Overwrite(out, st.dest, b.px))
    ensures st1.src == st.src + 3 + |b.px| && st1.dest == st.dest + |b.px|
  {
    BlockBytes(src, st.src, b);
    var st2 := ColorImageStep(cfg, src, st, out);
    st1 := BlockCopied(cfg, src, st2, out, b);
  }

  /** An iteration whose header byte is 0xF4 is the line check followed by
      a color image, with no foreground pixel pending. */
  lemma ColorImageStep(cfg: Config, src: seq<byte>, st: State, out: seq<byte>) returns (st2: State)
    requires Valid(cfg, src, st, out) && st.src < |src| && src[st.src] == MegaMegaColorImage as byte
    ensures st2 == LineCheck(cfg, st).(insertFgPel := false) && Valid(cfg, src, st2, out)
    ensures Step(cfg, src, st, out) == ColorImage(cfg, src, st2, out, MegaMegaColorImage)
  {
    assert ExtractCodeId(src[st.src]) == MegaMegaColorImage;
    st2 := LineCheck(cfg, st).(insertFgPel := false);
  }

  /** The color image of the order for b copies its pixels. */
  lemma BlockCopied(cfg: Config, src: seq<byte>, st: State, out: seq<byte>, b: Block) returns (st1: State)
    requires Valid(cfg, src, st, out) && BlockOk(b, cfg.bpp)
    requires st.src + 3 + |b.px| <= |src| && src[st.src..st.src + 3 + |b.px|] == Encode(b)
    requires st.dest + |b.px| <= cfg.destEnd
    ensures ColorImage(cfg, src, st, out, MegaMegaColorImage) == Next(st1, Overwrite(out, st.dest, b.px))
    ensures st1 == State(st.src + 3 + |b.px|, st.dest + |b.px|, st.fgPel, st.firstLine, false)
  {
    BlockHeader(cfg, src, st, b);
    ColorImageIs(cfg, src, st, out, MegaMegaColorImage, st.src + 3, Count(b));
    st1 := State(st.src + 3 + |b.px|, st.dest + |b.px|, st.fgPel, st.firstLine, false);
    var o := ColorImage(cfg, src, st, out, MegaMegaColorImage);
    assert o.st == st1;
    assert o.out == Overwrite(out, st.dest, b.px);
  }

  /** The decoder reads the header of the order for b at st.src back, and
      the pixel bytes follow it. */
  lemma BlockHeader(cfg: Config, src: seq<byte>, st: State, b: Block)
    requires Cursors(cfg, src, st) && BlockOk(b, cfg.bpp)
    requires st.src + 3 + |b.px| <= |src| && src[st.src..st.src + 3 + |b.px|] == Encode(b)
    requires st.dest + |b.px| <= cfg.destEnd
    ensures ColorImageHeader(cfg, src, st, MegaMegaColorImage) == ImageHeader(st.src + 3, Count(b), st.fgPel)
    ensures Bytes(Count(b), cfg.bpp) == |b.px| && src[st.src + 3..st.src + 3 + |b.px|] == b.px
  {
    BlockBytes(src, st.src, b);
    BlockRunLength(src, st.src, b);
  }

  /** The bytes of the order for b, found at src[i]. */
  lemma BlockBytes(src: seq<byte>, i: nat, b: Block)
    requires i + 3 + |b.px| <= |src| && src[i..i + 3 + |b.px|] == Encode(b)
    ensures src[i] == MegaMegaColorImage as byte && src[i + 1] == b.lo && src[i + 2] == b.hi
    ensures src[i + 3..i + 3 + |b.px|] == b.px
  {
    var e := Encode(b);
    assert src[i] == e[0] && src[i + 1] == e[1] && src[i + 2] == e[2];
    assert src[i + 3..i + 3 + |b.px|] == e[3..];
  }

  /** ExtractRunLength reads the run length of b back from its two bytes. */
  lemma BlockRunLength(src: seq<byte>, i: nat, b: Block)
    requires i + 3 <= |src| && src[i + 1] == b.lo && src[i + 2] == b.hi
    ensures ExtractRunLength(MegaMegaColorImage, src, i) == RunHeader(Count(b), 3)
  {
  }

  /** From any state whose remaining stream is the orders for blocks, and
      whose destination has room for their pixels, the main loop returns
      TRUE with those pixels copied to the cursor one block after the
      other. */
  lemma {:induction false} BlocksLoop(cfg: Config, src: seq<byte>, st: State, out: seq<byte>, blocks: seq<Block>)
    requires Valid(cfg, src, st, out) && BlocksOk(blocks, cfg.bpp)
    requires src[st.src..] == EncodeAll(blocks, cfg.bpp)
    requires st.dest + |Image(blocks)| <= cfg.destEnd
    ensures RunLoop(cfg, src, st, out) == Result(true, Overwrite(out, st.dest, Image(blocks)))
    decreases |blocks|
  {
    if blocks == [] {
      assert |src[st.src..]| == 0;
      assert RunLoop(cfg, src, st, out) == Result(true, out);
      assert Overwrite(out, st.dest, []) == out;
      assert Image(blocks) == [];
      assert RunLoop(cfg, src, st, out) == Result(true, Overwrite(out, st.dest, Image(blocks)));
    } else {
      var b, rest := blocks[0], blocks[1..];
      assert BlockOk(b, cfg.bpp);
      assert BlocksOk(rest, cfg.bpp) by {
        forall i | 0 <= i < |rest| ensures BlockOk(rest[i], cfg.bpp) {
          assert rest[i] == blocks[i + 1];
        }
      }
      assert src[st.src..] == Encode(b) + EncodeAll(rest, cfg.bpp);
      StreamSplit(src, st.src, Encode(b), EncodeAll(rest, cfg.bpp));
      var st1 := BlockStep(cfg, src, st, out, b);
      var out1 := Overwrite(out, st.dest, b.px);
      BlocksLoop(cfg, src, st1, out1, rest);
      LoopGoesOn(cfg, src, st, out, st1, out1);
      assert Image(blocks) == b.px + Image(rest);
      OverwriteThen(out, st.dest, b.px, out1, st1.dest, Image(rest));
    }
  }

  /** A color image whose header is accepted copies its pixels. */
  lemma ColorImageIs(cfg: Config, src: seq<byte>, st: State, out: seq<byte>, code: nat, s: nat, n: nat)
    requires Valid(cfg, src, st, out) && st.src < |src|
    requires ColorImageHeader(cfg, src, st, code) == ImageHeader(s, n, st.fgPel)
    ensures s + Bytes(n, cfg.bpp) <= |src| && st.dest + Bytes(n, cfg.bpp) <= cfg.destEnd
    ensures ColorImage(cfg, src, st, out, code)
            == Next(State(s + Bytes(n, cfg.bpp), st.dest + Bytes(n, cfg.bpp), st.fgPel, st.firstLine, false),
                    Overwrite(out, st.dest, src[s..s + Bytes(n, cfg.bpp)]))
  {
  }

  /** A stream whose rest from i on is e followed by tail holds e at i
      and tail after it. */
  lemma StreamSplit(src: seq<byte>, i: nat, e: seq<byte>, tail: seq<byte>)
    requires i <= |src| && src[i..] == e + tail
    ensures i + |e| <= |src| && src[i..i + |e|] == e && src[i + |e|..] == tail
  {
    assert src[i..i + |e|] == src[i..][..|e|];
    assert src[i + |e|..] == src[i..][|e|..];
  }

  /** Writing a at pos and then b where a ends is writing a + b at pos. */
  lemma OverwriteThen(out: seq<byte>, pos: nat, a: seq<byte>, out1: seq<byte>, pos1: nat, b: seq<byte>)
    requires pos + |a| + |b| <= |out|
    requires out1 == Overwrite(out, pos, a) && pos1 == pos + |a|
    ensures Overwrite(out1, pos1, b) == Overwrite(out, pos, a + b)
  {
    OverwriteAppend(out, pos, a, b);
  }

  /** An iteration that goes on hands the rest of the loop its state. */
  lemma LoopGoesOn(cfg: Config, src: seq<byte>, st: State, out: seq<byte>, st1: State, out1: seq<byte>)
    requires Valid(cfg, src, st, out) && st.src < |src|
    requires Step(cfg, src, st, out) == Next(st1, out1)
    ensures Valid(cfg, src, st1, out1)
    ensures RunLoop(cfg, src, st, out) == RunLoop(cfg, src, st1, out1)
  {
  }

  /** Round trip of the whole call: when the pixels of the blocks fill the
      rowDelta * height bytes of the destination, RLEDECOMPRESS of their
      color-image orders returns TRUE and leaves exactly those pixels,
      whatever the destination held before. */
  lemma DecodeColorImages(bpp: PixelSize, blocks: seq<Block>, out: seq<byte>, rowDelta: nat, width: nat, height: nat)
    requires BlocksOk(blocks, bpp)
    requires rowDelta != 0 && width <= rowDelta
    requires |out| == rowDelta * height == |Image(blocks)|
    ensures Decompress(bpp, EncodeAll(blocks, bpp), out, rowDelta, width, height) == Result(true, Image(blocks))
  {
    var cfg := Config(bpp, rowDelta, rowDelta * height);
    var src := EncodeAll(blocks, bpp);
    assert src[0..] == src;
    BlocksLoop(cfg, src, Initial(bpp), out, blocks);
    assert Overwrite(out, 0, Image(blocks)) == Image(blocks);
  }

  /** Every bitmap of whole pixels has such a stream: its bytes split into
      blocks of 255 pixels, then single pixels, taken in order. */
  lemma {:induction false} Split(bytes: seq<byte>, bpp: PixelSize, k: nat) returns (blocks: seq<Block>)
    requires |bytes| == Bytes(k, bpp)
    ensures BlocksOk(blocks, bpp) && Image(blocks) == bytes
    ensures forall i :: 0 <= i < |blocks| ==> Count(blocks[i]) == 1 || Count(blocks[i]) == 255
    decreases k
  {
    if k == 0 {
      blocks := [];
    } else {
      var m := if k < 255 then 1 else 255;
      var b := FirstBlock(bytes, bpp, m);
      var rest := Split(bytes[|b.px|..], bpp, k - m);
      blocks := Cons(b, rest, bpp);
      assert bytes == b.px + bytes[|b.px|..];
    }
  }

  /** The block of the first m pixels of bytes: a full block of 255
      pixels, or a single pixel. */
  lemma FirstBlock(bytes: seq<byte>, bpp: PixelSize, m: nat) returns (b: Block)
    requires (m == 1 || m == 255) && Bytes(m, bpp) <= |bytes|
    ensures BlockOk(b, bpp) && Count(b) == m && b.px == bytes[..Bytes(m, bpp)]
  {
    b := Block(if m == 1 then 1 else 0xFF, 0, bytes[..Bytes(m, bpp)]);
  }

  /** A block in front of a list of blocks. */
  lemma Cons(b: Block, rest: seq<Block>, bpp: PixelSize) returns (blocks: seq<Block>)
    requires BlockOk(b, bpp) && BlocksOk(rest, bpp)
    ensures blocks == [b] + rest && BlocksOk(blocks, bpp) && Image(blocks) == b.px + Image(rest)
  {
    blocks := [b] + rest;
    assert blocks[1..] == rest;
  }

  /** The pixel count of a buffer whose length is a multiple of PIXEL_SIZE. */
  lemma WholePixels(bytes: seq<byte>, bpp: PixelSize) returns (k: nat)
    requires |bytes| % bpp == 0
    ensures |bytes| == Bytes(k, bpp)
  {
    k := |bytes| / bpp;
  }

  /** Round trip from the bitmap side: every destination of whole pixels
      that fills rowDelta * height bytes is what RLEDECOMPRESS returns for
      some stream of color-image orders, whatever the destination held
      before. */
  lemma EveryBitmapDecodes(bpp: PixelSize, bytes: seq<byte>, out: seq<byte>, rowDelta: nat, width: nat, height: nat)
      returns (src: seq<byte>)
    requires |bytes| % bpp == 0
    requires rowDelta != 0 && width <= rowDelta
    requires |out| == rowDelta * height == |bytes|
    ensures Decompress(bpp, src, out, rowDelta, width, height) == Result(true, bytes)
  {
    var k := WholePixels(bytes, bpp);
    var blocks := Split(bytes, bpp, k);
    src := EncodeAll(blocks, bpp);
    DecodeColorImages(bpp, blocks, out, rowDelta, width, height);
  }
}
