/** What the scaler promises: layout, identity at equal sizes, and a bound on flat planes. */
module ScalerTheorems {
  import opened Basics
  import opened ScalerPlane
  import opened Scaler

  // ---------------------------------------------------------------- coefficients

  function TapSum(t: Taps): int { t.c0 + t.c1 + t.c2 + t.c3 }

  /** What the proofs below use of the coefficient tables. */
  ghost predicate Balanced(cs: Coeffs) {
    && cs.Valid()
    && cs.hor[0] == Taps(0, 256, 0, 0) && cs.ver[0] == (256, 0)
    && (forall k :: 0 <= k < 16 ==> 256 <= TapSum(cs.hor[k]) <= 258)
    && (forall k :: 0 <= k < 32 ==> cs.ver[k].0 >= 0 && cs.ver[k].1 >= 0 && cs.ver[k].0 + cs.ver[k].1 == 256)
  }

  lemma UsedRowSum(k: nat)
    requires k < 16
    ensures 256 <= TapSum(CUBIC_COEFF[2 * k]) <= 258
  {
  }

  lemma TableBalanced()
    ensures Balanced(TableCoeffs())
  {
    forall k | 0 <= k < 16
      ensures 256 <= TapSum(TableCoeffs().hor[k]) <= 258
    {
      UsedRowSum(k);
    }
  }

  // ---------------------------------------------------------------- flat input

  /** Every sample of every source line of the plane is `c`. */
  ghost predicate Flat(p: Plane, src: seq<Byte>, c: Byte)
    requires p.Valid() && p.FitsSource(|src|)
  {
    forall n, k :: 0 <= n < p.srcH && 0 <= k < p.srcW ==> p.Line(src, n)[k] == c
  }

  lemma FlatHorBlend(t: Taps, c: Byte)
    requires 256 <= TapSum(t) <= 258
    ensures c <= HorBlend(t, c, c, c, c) <= Min(255, c + (2 * c + 128) / 256)
  {
    Factor4(c, t.c0, t.c1, t.c2, t.c3);
    MulMonoLeft(c, 256, TapSum(t));
    MulMonoLeft(c, TapSum(t), 258);
    RoundWithin(c * TapSum(t), c);
  }

  lemma RoundWithin(r: int, c: Byte)
    requires 256 * c <= r <= 258 * c
    ensures c <= Clip((r + 128) / 256) <= Min(255, c + (2 * c + 128) / 256)
  {
  }

  /** The vertical blend stays between its two inputs. */
  lemma VerBlendBetween(w: (int, int), a: Byte, b: Byte)
    requires w.0 >= 0 && w.1 >= 0 && w.0 + w.1 == 256
    ensures Min(a, b) <= VerBlend(w, a, b) <= (if a < b then b else a)
  {
    if a <= b {
      BlendOrdered(w.0, w.1, a, b);
    } else {
      BlendOrdered(w.1, w.0, b, a);
    }
  }

  lemma BlendOrdered(u: nat, v: nat, lo: Byte, hi: Byte)
    requires u + v == 256 && lo <= hi
    ensures lo <= Clip((lo * u + hi * v + 128) / 256) <= hi
  {
    var d := hi - lo;
    assert lo * u + hi * v == 256 * lo + d * v by {
      assert hi * v == lo * v + d * v;
      assert lo * u + lo * v == lo * 256;
    }
    MulMonoLeft(d, 0, v);
    MulMonoLeft(d, v, 256);
  }

  lemma FlatHorSample(p: Plane, src: seq<Byte>, c: Byte, n: nat, j: nat)
    requires p.Valid() && p.FitsSource(|src|) && Balanced(p.cs) && Flat(p, src, c) && n < p.srcH
    ensures c <= HorSample(p.cs, p.Line(src, n), p.hratio, j) <= Min(255, c + (2 * c + 128) / 256)
  {
    var line := p.Line(src, n);
    assert forall k :: 0 <= k < |line| ==> line[k] == c;
    FlatHorBlend(p.cs.hor[j * p.hratio % 256 / 16], c);
  }

  /** A flat plane scales to samples at most two above its value, whatever the sizes. */
  lemma FlatPlane(p: Plane, src: seq<Byte>, c: Byte, i: nat, j: nat)
    requires p.Valid() && p.FitsSource(|src|) && Balanced(p.cs) && Flat(p, src, c)
    ensures c <= p.Pixel(src, i, j) <= Min(255, c + (2 * c + 128) / 256) <= Min(255, c + 2)
  {
    FlatHorSample(p, src, c, p.FirstLine(i), j);
    FlatHorSample(p, src, c, p.SecondLine(i), j);
    VerBlendBetween(p.cs.ver[i * p.vratio % 256 / 8],
                    HorSample(p.cs, p.Line(src, p.FirstLine(i)), p.hratio, j),
                    HorSample(p.cs, p.Line(src, p.SecondLine(i)), p.hratio, j));
  }

  // ---------------------------------------------------------------- layout

  ghost predicate EvenOutput(g: Geometry) {
    g.dstW % 2 == 0 && g.dstH % 2 == 0
  }

  /** Rows are packed exactly when the source width is aligned. */
  lemma StridesPacked(g: Geometry)
    requires g.Valid()
    ensures g.Y().dstStride == g.dstW <==> g.srcW % g.align == 0
    ensures g.srcW % g.align == 0 ==> g.LumaStride() == g.srcW && g.ChromaStride() == g.srcW / 2
    ensures g.srcW % g.align == 0 ==> g.Cb().dstStride == g.dstW / 2 && g.Cr().dstStride == g.dstW / 2
  {
    AlignUpBounds(g.srcW, g.align);
    AlignUpBounds(g.srcW / 2, g.align / 2);
    if g.srcW % g.align == 0 {
      HalfMultiple(g.srcW, g.align);
    }
  }

  lemma HalfMultiple(w: nat, a: nat)
    requires a >= 2 && a % 2 == 0 && w % a == 0
    ensures w % 2 == 0 && w / 2 % (a / 2) == 0
  {
    DivMod(w, a);
    var q, h := w / a, a / 2;
    assert w == 2 * (q * h) by { assert q * a == q * (2 * h) == 2 * (q * h); }
    DivModUnique(w / 2, h, q, 0);
  }

  /** With `dstW = 2a` and `dstH = 2b` the output is `6ab` bytes. */
  lemma OutSizeHalves(g: Geometry)
    requires EvenOutput(g)
    ensures g.OutSize() == 6 * (g.dstW / 2 * (g.dstH / 2))
    ensures g.dstH * g.dstW == 4 * (g.dstW / 2 * (g.dstH / 2))
  {
    var a, b := g.dstW / 2, g.dstH / 2;
    assert g.dstW == 2 * a && g.dstH == 2 * b;
    assert (2 * a) * (2 * b) == 4 * (a * b);
  }

  /** The paddings of luma and chroma rows: computed for the source, applied to the output. */
  function LumaPad(g: Geometry): int
    requires g.align >= 2
  { g.LumaStride() - g.srcW }

  function ChromaPad(g: Geometry): int
    requires g.align >= 2
  { g.ChromaStride() - g.srcW / 2 }

  lemma PadBounds(g: Geometry)
    requires g.Valid()
    ensures LumaPad(g) >= 0 && ChromaPad(g) >= 0
    ensures LumaPad(g) == 0 <==> g.srcW % g.align == 0
    ensures LumaPad(g) == 0 ==> ChromaPad(g) == 0
  {
    StridesPacked(g);
    AlignUpBounds(g.srcW, g.align);
    AlignUpBounds(g.srcW / 2, g.align / 2);
  }

  /** Where the planes of an even output end. */
  lemma PlaneEnds(g: Geometry)
    requires g.Valid() && EvenOutput(g)
    ensures var a, b, py, pc := g.dstW / 2, g.dstH / 2, LumaPad(g), ChromaPad(g);
      && g.Y().DstEnd() == 2 * b * (2 * a + py)
      && g.Cb().DstEnd() == 2 * b * (2 * a + py) + b * (a + pc)
      && g.Cr().DstEnd() == 2 * b * (2 * a + py) + b * (a + pc) + b * (a + pc)
      && g.Cr().dstStride == a + pc
  {
    hide AlignUp, Ratio, PowerOfTwo;
    var y, cb, cr := g.Y(), g.Cb(), g.Cr();
    assert y.DstEnd() == y.dstH * y.dstStride;
    assert cb.DstEnd() == y.DstEnd() + cb.dstH * cb.dstStride;
    assert cr.DstEnd() == cb.DstEnd() + cr.dstH * cr.dstStride;
  }

  lemma Products(a: nat, b: nat, py: nat, pc: nat)
    requires a >= 1 && b >= 1
    ensures 2 * b * (2 * a + py) == 4 * (a * b) + 2 * b * py
    ensures b * (a + pc) == a * b + b * pc
    ensures (b - 1) * (a + pc) == a * b - a + b * pc - pc
    ensures (2 * b - 1) * pc == 2 * (b * pc) - pc
  {
  }

  /** An even output needs its size plus the padding of all rows but the last. */
  lemma NeededEven(g: Geometry)
    requires g.Valid() && EvenOutput(g)
    ensures g.Needed() == g.OutSize() + g.dstH * LumaPad(g) + (g.dstH - 1) * ChromaPad(g)
  {
    hide AlignUp, Ratio, PowerOfTwo;
    PadBounds(g);
    PlaneEnds(g);
    OutSizeHalves(g);
    var a, b := g.dstW / 2, g.dstH / 2;
    Products(a, b, LumaPad(g), ChromaPad(g));
    var cr := g.Cr();
    assert cr.Cell(b - 1, a - 1) == g.Cb().DstEnd() + (b - 1) * (a + ChromaPad(g)) + a - 1;
  }

  /** The scratch frame of an even output is large enough exactly when the padding is at most twice the output. */
  lemma ScratchFitsIff(g: Geometry)
    requires g.Valid() && EvenOutput(g)
    ensures var n := 3 * g.OutSize();
      (g.Y().CellsBelow(n) && g.Cb().CellsBelow(n) && g.Cr().CellsBelow(n))
      <==> g.dstH * LumaPad(g) + (g.dstH - 1) * ChromaPad(g) <= 3 * (g.dstW * g.dstH)
  {
    NeededEven(g);
    g.NeededIff(3 * g.OutSize());
    OutSizeHalves(g);
  }

  /** Scaling 18x2 to 2x2 with alignment 16 writes 41 bytes into a scratch frame of 18. */
  lemma ScratchOverrun()
    ensures var g := Geometry(18, 2, 2, 2, 16, TableCoeffs());
      g.Valid() && EvenOutput(g) && g.Needed() == 41 && 3 * g.OutSize() == 18
  {
    var g := Geometry(18, 2, 2, 2, 16, TableCoeffs());
    assert PowerOfTwo(2) && PowerOfTwo(4) && PowerOfTwo(8) && PowerOfTwo(16);
    assert AlignUp(18, 16) == 32 && AlignUp(9, 8) == 16;
    NeededEven(g);
  }

  /** Every scaled sample reaches the caller exactly when the source width is aligned. */
  lemma DeliveryIff(g: Geometry)
    requires g.Valid() && EvenOutput(g)
    ensures (g.Y().CellsBelow(g.OutSize()) && g.Cb().CellsBelow(g.OutSize()) && g.Cr().CellsBelow(g.OutSize()))
            <==> g.srcW % g.align == 0
  {
    PadBounds(g);
    NeededEven(g);
    g.NeededIff(g.OutSize());
    PaddingSum(g.dstH, LumaPad(g), ChromaPad(g));
  }

  lemma PaddingSum(h: nat, py: nat, pc: nat)
    requires h >= 1 && (py == 0 ==> pc == 0)
    ensures h * py + (h - 1) * pc <= 0 <==> py == 0
  {
    MulMonoLeft(h, 1, if py == 0 then 1 else py);
    MulMonoLeft(h - 1, 0, pc);
  }

  /** With an unaligned source width the last sample of Cr lies past the copied bytes. */
  lemma LastSampleLost(g: Geometry)
    requires g.Valid() && EvenOutput(g) && g.srcW % g.align != 0
    ensures g.OutSize() <= g.Cr().Cell(g.dstH / 2 - 1, g.dstW / 2 - 1)
  {
    PadBounds(g);
    NeededEven(g);
    PaddingSum(g.dstH, LumaPad(g), ChromaPad(g));
  }

  lemma PackedEnds(g: Geometry)
    requires g.Valid() && EvenOutput(g) && g.srcW % g.align == 0
    ensures g.Y().DstEnd() == g.dstH * g.dstW
    ensures g.Cb().DstEnd() == g.dstH * g.dstW + g.dstH / 2 * (g.dstW / 2)
    ensures g.Cr().DstEnd() == g.OutSize()
  {
    hide AlignUp, Ratio, PowerOfTwo;
    PadBounds(g);
    PlaneEnds(g);
    OutSizeHalves(g);
    Products(g.dstW / 2, g.dstH / 2, 0, 0);
  }

  /** Sample `k` of the plane, counting row by row. */
  ghost function RasterSample(p: Plane, src: seq<Byte>, k: nat): Byte
    requires p.Valid() && p.FitsSource(|src|) && k < p.dstH * p.dstW
  {
    CellOfIndex(k, p.dstH, p.dstW);
    p.Pixel(src, k / p.dstW, k % p.dstW)
  }

  /** The plane's samples row by row with no gaps. */
  ghost function Raster(p: Plane, src: seq<Byte>): (r: seq<Byte>)
    requires p.Valid() && p.FitsSource(|src|)
    ensures |r| == p.dstH * p.dstW
  {
    seq(p.dstH * p.dstW, k requires 0 <= k < p.dstH * p.dstW => RasterSample(p, src, k))
  }

  lemma CellOfIndex(k: nat, h: nat, w: nat)
    requires k < h * w
    ensures w > 0 && k / w < h && k % w < w && k == k / w * w + k % w
  {
    assert w > 0;
    DivMod(k, w);
    if k / w >= h { MulMono(h, k / w, w); }
  }

  lemma DeliveredRaster(p: Plane, src: seq<Byte>, dst: seq<Byte>)
    requires p.Valid() && p.FitsSource(|src|) && p.dstStride == p.dstW
    requires Delivered(p, src, dst) && p.DstEnd() <= |dst|
    ensures dst[p.dstBase..p.DstEnd()] == Raster(p, src)
  {
    var r := Raster(p, src);
    forall k | 0 <= k < |r|
      ensures dst[p.dstBase + k] == r[k]
    {
      DeliveredSample(p, src, dst, k);
    }
    assert dst[p.dstBase..p.DstEnd()] == r;
  }

  lemma DeliveredSample(p: Plane, src: seq<Byte>, dst: seq<Byte>, k: nat)
    requires p.Valid() && p.FitsSource(|src|) && p.dstStride == p.dstW
    requires Delivered(p, src, dst) && p.DstEnd() <= |dst| && k < p.dstH * p.dstW
    ensures dst[p.dstBase + k] == RasterSample(p, src, k)
  {
    CellOfIndex(k, p.dstH, p.dstW);
    assert p.Cell(k / p.dstW, k % p.dstW) == p.dstBase + k;
  }

  /** An aligned source gives Y, then Cb, then Cr, each row by row and without gaps. */
  lemma PackedFrame(g: Geometry, src: seq<Byte>, dst: seq<Byte>)
    requires g.Valid() && EvenOutput(g) && g.srcW % g.align == 0 && FrameDelivered(g, src, dst)
    ensures (g.PlanesInside(); dst == Raster(g.Y(), src) + Raster(g.Cb(), src) + Raster(g.Cr(), src))
  {
    hide Raster, RasterSample, Delivered;
    g.PlanesInside();
    PackedEnds(g);
    StridesPacked(g);
    DeliveredRaster(g.Y(), src, dst);
    DeliveredRaster(g.Cb(), src, dst);
    DeliveredRaster(g.Cr(), src, dst);
    var m, n := g.Y().DstEnd(), g.Cb().DstEnd();
    assert dst == dst[0..m] + dst[m..n] + dst[n..|dst|];
  }

  // ---------------------------------------------------------------- equal sizes

  lemma RatioOne(n: nat)
    requires n > 0
    ensures Ratio(n, n) == 256
  {
    DivModUnique(n * 256 + n / 2, n, 256, n / 2);
  }

  lemma UnitBlend(x0: Byte, x1: Byte, x2: Byte, x3: Byte)
    ensures HorBlend(Taps(0, 256, 0, 0), x0, x1, x2, x3) == x1
    ensures VerBlend((256, 0), x0, x1) == x0
  {
  }

  /** At ratio 256 every phase is 0 and both filters return the source sample. */
  lemma IdentityPixel(p: Plane, src: seq<Byte>, i: nat, j: nat)
    requires p.Valid() && p.FitsSource(|src|) && Balanced(p.cs)
    requires p.hratio == 256 && p.vratio == 256 && i < p.srcH && j < p.srcW
    ensures p.Pixel(src, i, j) == p.Line(src, i)[j]
  {
    var l0, l1 := p.Line(src, i), p.Line(src, p.SecondLine(i));
    assert p.FirstLine(i) == i;
    UnitBlend(Tap(l0, j - 1), Tap(l0, j), Tap(l0, j + 1), Tap(l0, j + 2));
    UnitBlend(HorSample(p.cs, l0, 256, j), HorSample(p.cs, l1, 256, j), 0, 0);
  }

  lemma IdentityRaster(p: Plane, src: seq<Byte>)
    requires p.Valid() && p.FitsSource(|src|) && Balanced(p.cs)
    requires p.hratio == 256 && p.vratio == 256 && p.dstH == p.srcH && p.dstW == p.srcW == p.srcStride
    ensures Raster(p, src) == src[p.srcBase..p.srcBase + p.srcH * p.srcW]
  {
    var r := Raster(p, src);
    forall k | 0 <= k < |r|
      ensures r[k] == src[p.srcBase + k]
    {
      IdentitySample(p, src, k);
    }
    assert r == src[p.srcBase..p.srcBase + p.srcH * p.srcW];
  }

  lemma IdentitySample(p: Plane, src: seq<Byte>, k: nat)
    requires p.Valid() && p.FitsSource(|src|) && Balanced(p.cs)
    requires p.hratio == 256 && p.vratio == 256 && p.dstH == p.srcH && p.dstW == p.srcW == p.srcStride
    requires k < p.dstH * p.dstW
    ensures RasterSample(p, src, k) == src[p.srcBase + k]
  {
    CellOfIndex(k, p.dstH, p.dstW);
    IdentityPixel(p, src, k / p.dstW, k % p.dstW);
    p.LineInside(k / p.dstW, |src|);
    assert p.srcBase + k / p.dstW * p.srcStride + k % p.dstW == p.srcBase + k;
  }

  /** A plane of equal sizes that lies at the same place in source and output. */
  ghost predicate UnitPlane(p: Plane) {
    && p.Valid() && Balanced(p.cs)
    && p.hratio == 256 && p.vratio == 256 && p.dstH == p.srcH && p.dstW == p.srcW == p.srcStride
    && p.srcBase == p.dstBase && p.srcBase + p.srcH * p.srcW == p.DstEnd()
  }

  lemma IdentityPlanes(g: Geometry)
    requires g.Valid() && EvenOutput(g) && g.srcW % g.align == 0 && Balanced(g.cs)
    requires g.srcW == g.dstW && g.srcH == g.dstH
    ensures UnitPlane(g.Y()) && UnitPlane(g.Cb()) && UnitPlane(g.Cr())
    ensures g.OutSize() == g.SrcSize()
  {
    StridesPacked(g);
    PackedEnds(g);
    RatioOne(g.srcW);
    RatioOne(g.srcH);
  }

  lemma IdentityJoin(y: Plane, cb: Plane, cr: Plane, src: seq<Byte>)
    requires UnitPlane(y) && UnitPlane(cb) && UnitPlane(cr)
    requires y.dstBase == 0 && cb.dstBase == y.DstEnd() && cr.dstBase == cb.DstEnd()
    requires y.FitsSource(|src|) && cb.FitsSource(|src|) && cr.FitsSource(|src|)
    ensures Raster(y, src) + Raster(cb, src) + Raster(cr, src) == src[..cr.DstEnd()]
  {
    IdentityRaster(y, src);
    IdentityRaster(cb, src);
    IdentityRaster(cr, src);
    Join3(src, y.DstEnd(), cb.DstEnd(), cr.DstEnd());
  }

  lemma Join3(s: seq<Byte>, m: nat, n: nat, e: nat)
    requires m <= n <= e <= |s|
    ensures s[..e] == s[0..m] + s[m..n] + s[n..e]
  {
  }

  /** At equal, even and aligned sizes the scaler copies the frame. */
  lemma IdentityFrame(g: Geometry, src: seq<Byte>, dst: seq<Byte>)
    requires g.Valid() && EvenOutput(g) && g.srcW % g.align == 0 && Balanced(g.cs)
    requires g.srcW == g.dstW && g.srcH == g.dstH
    requires FrameDelivered(g, src, dst)
    ensures dst == src[..g.SrcSize()]
  {
    g.PlanesInside();
    IdentityPlanes(g);
    PackedFrame(g, src, dst);
    PackedEnds(g);
    IdentityJoin(g.Y(), g.Cb(), g.Cr(), src);
  }
}
