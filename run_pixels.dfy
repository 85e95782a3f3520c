/** What a run writes, pixel by pixel.  The UNROLL loop of a run writes
    pixel k of its pattern at byte offset pos + k * PIXEL_SIZE, computed
    from the destination as the k pixels before it have left it; a pixel
    that copies or XORs the row above therefore sees the run's own earlier
    pixels when the run is longer than a row. */
module RunPixels {
  import opened Pixels
  import opened RleSpec
  import opened RleFrames

  /** A run of a + b pixels is the run of the first a pixels, then the run
      of the b pixels after them. */
  lemma {:induction false} FillSplit(cfg: Config, pat: Pattern, out: seq<byte>, pos: nat, k: nat, a: nat, b: nat)
    requires PatternOk(cfg, pat)
    requires pos + Bytes(a + b, cfg.bpp) <= cfg.destEnd <= |out|
    requires ReadsAbove(pat) ==> pos >= cfg.rowDelta
    ensures pos + Bytes(a, cfg.bpp) + Bytes(b, cfg.bpp) == pos + Bytes(a + b, cfg.bpp)
    ensures Fill(cfg, pat, out, pos, k, a + b)
            == Fill(cfg, pat, Fill(cfg, pat, out, pos, k, a), pos + Bytes(a, cfg.bpp), k + a, b)
    decreases a
  {
    if a == 0 {
      assert FillLoop(cfg, pat, out, pos, k, 0) == out;
    } else {
      var out1 := Overwrite(out, pos, RuleValue(cfg, RuleAt(cfg, pat, k), out, pos));
      FillUnfold(cfg, pat, out, pos, k, a + b);
      FillUnfold(cfg, pat, out, pos, k, a);
      assert a - 1 + b == a + b - 1;
      FillSplit(cfg, pat, out1, pos + cfg.bpp, k + 1, a - 1, b);
    }
  }

  /** Pixel k of a run of n pixels is the value its rule gives on the
      destination as the first k pixels of the run have left it. */
  lemma FillPixel(cfg: Config, pat: Pattern, out: seq<byte>, pos: nat, n: nat, k: nat)
    requires k < n && PatternOk(cfg, pat)
    requires pos + Bytes(n, cfg.bpp) <= cfg.destEnd <= |out|
    requires ReadsAbove(pat) ==> pos >= cfg.rowDelta
    ensures pos + Bytes(k, cfg.bpp) + cfg.bpp <= cfg.destEnd
    ensures PixelAt(Fill(cfg, pat, out, pos, 0, n), pos + Bytes(k, cfg.bpp), cfg.bpp)
            == RuleValue(cfg, RuleAt(cfg, pat, k), Fill(cfg, pat, out, pos, 0, k), pos + Bytes(k, cfg.bpp))
  {
    FillSplit(cfg, pat, out, pos, 0, k, n - k);
    var mid := Fill(cfg, pat, out, pos, 0, k);
    var p := pos + Bytes(k, cfg.bpp);
    var v := RuleValue(cfg, RuleAt(cfg, pat, k), mid, p);
    var mid1 := Overwrite(mid, p, v);
    FillUnfold(cfg, pat, mid, p, k, n - k);
    var r := Fill(cfg, pat, mid1, p + cfg.bpp, k + 1, n - k - 1);
    FillFrame(cfg, pat, mid1, p + cfg.bpp, k + 1, n - k - 1);
    forall i | 0 <= i < cfg.bpp
      ensures PixelAt(r, p, cfg.bpp)[i] == v[i]
    {
      assert r[p + i] == mid1[p + i];
    }
  }

  /** In the finished destination every pixel of a run obeys its rule: a
      literal pixel is there, and a pixel taken from the row above equals
      the final pixel above it (XOR the given pixel).  This needs a row of
      at least one pixel, so that the pixel above lies wholly before the
      pixel itself. */
  lemma FillFinal(cfg: Config, pat: Pattern, out: seq<byte>, pos: nat, n: nat, k: nat)
    requires k < n && PatternOk(cfg, pat)
    requires pos + Bytes(n, cfg.bpp) <= cfg.destEnd <= |out|
    requires ReadsAbove(pat) ==> pos >= cfg.rowDelta >= cfg.bpp
    ensures pos + Bytes(k, cfg.bpp) + cfg.bpp <= cfg.destEnd
    ensures var r := Fill(cfg, pat, out, pos, 0, n);
            PixelAt(r, pos + Bytes(k, cfg.bpp), cfg.bpp) == RuleValue(cfg, RuleAt(cfg, pat, k), r, pos + Bytes(k, cfg.bpp))
  {
    FillPixel(cfg, pat, out, pos, n, k);
    var p := pos + Bytes(k, cfg.bpp);
    var mid := Fill(cfg, pat, out, pos, 0, k);
    var r := Fill(cfg, pat, out, pos, 0, n);
    var rule := RuleAt(cfg, pat, k);
    if !rule.Literal? {
      // The pixel above ends at or before p; the pixels from k on are all
      // written at p or later.
      FillSplit(cfg, pat, out, pos, 0, k, n - k);
      FillFrame(cfg, pat, mid, p, k, n - k);
      assert PixelAt(r, p - cfg.rowDelta, cfg.bpp) == PixelAt(mid, p - cfg.rowDelta, cfg.bpp) by {
        forall j | p - cfg.rowDelta <= j < p - cfg.rowDelta + cfg.bpp
          ensures r[j] == mid[j]
        {
        }
      }
    }
  }

  /** A run whose pattern never reads the row above writes exactly its
      literal pixels, wherever the rows are. */
  lemma FillLiteral(cfg: Config, pat: Pattern, out: seq<byte>, pos: nat, n: nat, k: nat)
    requires k < n && PatternOk(cfg, pat) && !ReadsAbove(pat)
    requires pos + Bytes(n, cfg.bpp) <= cfg.destEnd <= |out|
    ensures pos + Bytes(k, cfg.bpp) + cfg.bpp <= cfg.destEnd
    ensures RuleAt(cfg, pat, k).Literal?
    ensures PixelAt(Fill(cfg, pat, out, pos, 0, n), pos + Bytes(k, cfg.bpp), cfg.bpp) == RuleAt(cfg, pat, k).p
  {
    FillPixel(cfg, pat, out, pos, n, k);
  }

  /** Two destinations that differ only from lo on hold the same pixel at
      any offset whose pixel ends by lo. */
  lemma PixelBefore(a: seq<byte>, b: seq<byte>, lo: nat, hi: nat, pos: nat, bpp: nat)
    requires AgreeOutside(a, b, lo, hi) && pos + bpp <= lo <= |a|
    ensures PixelAt(a, pos, bpp) == PixelAt(b, pos, bpp)
  {
    forall i | 0 <= i < bpp
      ensures PixelAt(a, pos, bpp)[i] == PixelAt(b, pos, bpp)[i]
    {
      assert a[pos + i] == b[pos + i];
    }
  }

  /** A pixel that obeys its rule keeps obeying it while only bytes after
      it change: neither the pixel nor the pixel above it moves. */
  lemma RuleKept(cfg: Config, r: Rule, a: seq<byte>, b: seq<byte>, lo: nat, hi: nat, pos: nat)
    requires RuleOk(cfg, r) && AgreeOutside(a, b, lo, hi)
    requires pos + cfg.bpp <= lo <= |a| && pos + cfg.bpp <= cfg.destEnd <= |a|
    requires !r.Literal? ==> pos >= cfg.rowDelta >= cfg.bpp
    requires PixelAt(a, pos, cfg.bpp) == RuleValue(cfg, r, a, pos)
    ensures PixelAt(b, pos, cfg.bpp) == RuleValue(cfg, r, b, pos)
  {
    PixelBefore(a, b, lo, hi, pos, cfg.bpp);
    if !r.Literal? {
      PixelBefore(a, b, lo, hi, pos - cfg.rowDelta, cfg.bpp);
    }
  }

  /** A run's pixels keep obeying their rules in any later destination
      that differs from the run's only after its end: what later orders
      write never reaches back into a finished run. */
  lemma FillKept(cfg: Config, pat: Pattern, out: seq<byte>, pos: nat, n: nat, k: nat, later: seq<byte>)
    requires k < n && PatternOk(cfg, pat)
    requires pos + Bytes(n, cfg.bpp) <= cfg.destEnd <= |out|
    requires ReadsAbove(pat) ==> pos >= cfg.rowDelta >= cfg.bpp
    requires AgreeOutside(Fill(cfg, pat, out, pos, 0, n), later, pos + Bytes(n, cfg.bpp), cfg.destEnd)
    ensures pos + Bytes(k, cfg.bpp) + cfg.bpp <= cfg.destEnd
    ensures PixelAt(later, pos + Bytes(k, cfg.bpp), cfg.bpp)
            == RuleValue(cfg, RuleAt(cfg, pat, k), later, pos + Bytes(k, cfg.bpp))
  {
    FillFinal(cfg, pat, out, pos, n, k);
    RuleKept(cfg, RuleAt(cfg, pat, k), Fill(cfg, pat, out, pos, 0, n), later, pos + Bytes(n, cfg.bpp), cfg.destEnd, pos + Bytes(k, cfg.bpp));
  }
}
