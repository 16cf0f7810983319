/** The whole-frame scaler (camera/1_0/scaler.c): three planes into a scratch frame, and the copy to the caller. */
module Scaler {
  import opened Basics
  import opened ScalerPlane

  /** The coefficients `scaler` fills in: every second row of the table, and linear vertical weights. */
  function TableCoeffs(): (cs: Coeffs)
    ensures cs.Valid()
  {
    Coeffs(seq(16, k requires 0 <= k < 16 => CUBIC_COEFF[2 * k]),
           seq(32, k requires 0 <= k < 32 => ((32 - k) * 8, k * 8)))
  }

  ghost predicate PowerOfTwo(a: nat) {
    a == 1 || (a >= 2 && a % 2 == 0 && PowerOfTwo(a / 2))
  }

  /** `(x + a - 1) & ~(a - 1)` for a power of two `a`. */
  function AlignUp(x: nat, a: nat): nat
    requires a > 0
  {
    (x + a - 1) / a * a
  }

  /** The arguments of one call of `scaler` with format 0. */
  datatype Geometry = Geometry(srcW: nat, srcH: nat, dstW: nat, dstH: nat, align: nat, cs: Coeffs)
  {
    ghost predicate Valid() {
      cs.Valid() && srcW >= 2 && srcH >= 2 && dstW >= 1 && dstH >= 1 && align >= 2 && PowerOfTwo(align)
    }

    function OutSize(): nat { dstW * dstH * 3 / 2 }

    function LumaStride(): nat
      requires align >= 2
    { AlignUp(srcW, align) }

    function ChromaStride(): nat
      requires align >= 2
    { AlignUp(srcW / 2, align / 2) }

    function Y(): (p: Plane)
      requires Valid()
      ensures p.Valid()
    {
      AlignUpBounds(srcW, align);
      Plane(0, LumaStride(), srcW, srcH,
            0, dstW + (LumaStride() - srcW), dstW, dstH,
            Ratio(srcW, dstW), Ratio(srcH, dstH), cs)
    }

    function Chroma(srcBase: nat, dstBase: nat): (p: Plane)
      requires Valid()
      ensures p.Valid()
    {
      AlignUpBounds(srcW / 2, align / 2);
      Plane(srcBase, ChromaStride(), srcW / 2, srcH / 2,
            dstBase, dstW / 2 + (ChromaStride() - srcW / 2), dstW / 2, dstH / 2,
            Ratio(srcW, dstW), Ratio(srcH, dstH), cs)
    }

    function Cb(): (p: Plane)
      requires Valid()
      ensures p.Valid()
    {
      Chroma(srcH * LumaStride(), Y().DstEnd())
    }

    function Cr(): (p: Plane)
      requires Valid()
      ensures p.Valid()
    {
      Chroma(Cb().srcBase + srcH / 2 * ChromaStride(), Cb().DstEnd())
    }

    /** How many bytes of the scratch frame the three planes need. */
    function Needed(): nat
      requires Valid()
    {
      if dstW < 2 || dstH < 2 then Y().Cell(dstH - 1, dstW - 1) + 1
      else Cr().Cell(dstH / 2 - 1, dstW / 2 - 1) + 1
    }

    /** Every sample is written below `n` exactly when this many bytes are there. */
    lemma NeededIff(n: nat)
      requires Valid()
      ensures Y().CellsBelow(n) && Cb().CellsBelow(n) && Cr().CellsBelow(n) <==> Needed() <= n
    {
      hide AlignUp, Ratio, PowerOfTwo;
      var y, cb, cr := Y(), Cb(), Cr();
      assert cb.dstBase == y.DstEnd() && cr.dstBase == cb.DstEnd();
      y.CellsBelowIff(n);
      if dstW >= 2 && dstH >= 2 {
        cb.CellsBelowIff(n);
        cr.CellsBelowIff(n);
        y.CellInside(y.dstH - 1, y.dstW - 1);
        cb.CellInside(cb.dstH - 1, cb.dstW - 1);
      }
    }

    /** Size of the source frame, rows padded to the alignment. */
    function SrcSize(): nat
      requires Valid()
    {
      Cr().srcBase + srcH / 2 * ChromaStride()
    }

    lemma PlanesInside()
      requires Valid()
      ensures Y().FitsSource(SrcSize()) && Cb().FitsSource(SrcSize()) && Cr().FitsSource(SrcSize())
      ensures Y().DstEnd() == Cb().dstBase && Cb().DstEnd() == Cr().dstBase
    {
      var cb, cr := Cb(), Cr();
      assert cb.srcBase + cb.srcH * cb.srcStride == cr.srcBase;
    }
  }

  lemma AlignUpBounds(x: nat, a: nat)
    requires a > 0
    ensures x <= AlignUp(x, a) < x + a
    ensures AlignUp(x, a) == x <==> x % a == 0
  {
    var n := x + a - 1;
    DivMod(n, a);
    if AlignUp(x, a) == x {
      DivModUnique(x, a, n / a, 0);
    }
    if x % a == 0 {
      DivMod(x, a);
      DivModUnique(n, a, x / a, a - 1);
    }
  }

  /** Every sample of the plane whose output position is inside `dst` is there. */
  ghost predicate Delivered(p: Plane, src: seq<Byte>, dst: seq<Byte>)
    requires p.Valid() && p.FitsSource(|src|)
  {
    forall i, j :: 0 <= i < p.dstH && 0 <= j < p.dstW && p.Cell(i, j) < |dst| ==>
      dst[p.Cell(i, j)] == p.Pixel(src, i, j)
  }

  lemma RowsDelivered(p: Plane, src: seq<Byte>, frame: seq<Byte>, dst: seq<Byte>)
    requires p.Valid() && p.FitsSource(|src|) && RowsDone(p, src, frame, p.dstH) && dst <= frame
    ensures Delivered(p, src, dst)
  {
    forall i, j | 0 <= i < p.dstH && 0 <= j < p.dstW && p.Cell(i, j) < |dst|
      ensures dst[p.Cell(i, j)] == p.Pixel(src, i, j)
    {
      assert CellOk(p, src, frame, i, j);
    }
  }

  /** Rows once written stay when only later positions change. */
  lemma RowsKept(p: Plane, src: seq<Byte>, before: seq<Byte>, after: seq<Byte>)
    requires p.Valid() && p.FitsSource(|src|) && RowsDone(p, src, before, p.dstH) && |before| == |after|
    requires forall k :: 0 <= k < p.DstEnd() && k < |before| ==> after[k] == before[k]
    ensures RowsDone(p, src, after, p.dstH)
  {
    forall i, j | 0 <= i < p.dstH && 0 <= j < p.dstW
      ensures CellOk(p, src, after, i, j)
    {
      assert CellOk(p, src, before, i, j);
      p.CellInside(i, j);
    }
  }

  /** The three plane loops of `do_scaler` into a scratch frame, and the final copy. */
  method ScalePlanes(psrc: array<Byte>, pdst: array<Byte>, y: Plane, cb: Plane, cr: Plane, half: nat, outSize: nat)
    requires y.Valid() && y.FitsSource(psrc.Length) && y.dstW <= half && y.dstBase == 0
    requires cb.Valid() && cb.FitsSource(psrc.Length) && cb.dstW <= half && cb.dstBase == y.DstEnd()
    requires cr.Valid() && cr.FitsSource(psrc.Length) && cr.dstW <= half && cr.dstBase == cb.DstEnd()
    requires y.CellsBelow(3 * outSize) && cb.CellsBelow(3 * outSize) && cr.CellsBelow(3 * outSize)
    requires outSize <= pdst.Length
    modifies pdst
    ensures Delivered(y, old(psrc[..]), pdst[..outSize])
    ensures Delivered(cb, old(psrc[..]), pdst[..outSize])
    ensures Delivered(cr, old(psrc[..]), pdst[..outSize])
    ensures forall k :: outSize <= k < pdst.Length ==> pdst[k] == old(pdst[k])
  {
    ghost var src := psrc[..];
    var lines := new Byte[2 * half];
    var frame := new Byte[3 * outSize];
    var pos := ScalePlane(psrc, y, lines, half, frame, 0);
    ghost var f1 := frame[..];
    pos := ScalePlane(psrc, cb, lines, half, frame, pos);
    ghost var f2 := frame[..];
    RowsKept(y, src, f1, f2);
    pos := ScalePlane(psrc, cr, lines, half, frame, pos);
    ghost var f3 := frame[..];
    RowsKept(y, src, f2, f3);
    RowsKept(cb, src, f2, f3);
    forall k | 0 <= k < outSize {
      pdst[k] := frame[k];
    }
    assert pdst[..outSize] == f3[..outSize];
    RowsDelivered(y, src, f3, pdst[..outSize]);
    RowsDelivered(cb, src, f3, pdst[..outSize]);
    RowsDelivered(cr, src, f3, pdst[..outSize]);
  }

  /** What `scaler` leaves in the caller's buffer. */
  ghost predicate FrameDelivered(g: Geometry, src: seq<Byte>, dst: seq<Byte>)
    requires g.Valid()
  {
    && g.SrcSize() <= |src| && |dst| == g.OutSize()
    && (g.PlanesInside(); Delivered(g.Y(), src, dst) && Delivered(g.Cb(), src, dst) && Delivered(g.Cr(), src, dst))
  }

  /** `scaler` for format 0, with the coefficients it fills in.  `pdst` may be `psrc` itself. */
  method Scale(psrc: array<Byte>, pdst: array<Byte>, g: Geometry)
    requires g.cs == TableCoeffs() && g.Valid()
    requires g.SrcSize() <= psrc.Length && g.OutSize() <= pdst.Length
    // the planes end inside the scratch frame, which is three times the output size
    requires g.Needed() <= 3 * g.OutSize()
    modifies pdst
    ensures FrameDelivered(g, old(psrc[..]), pdst[..g.OutSize()])
    ensures forall k :: g.OutSize() <= k < pdst.Length ==> pdst[k] == old(pdst[k])
  {
    g.PlanesInside();
    g.NeededIff(3 * g.OutSize());
    ScalePlanes(psrc, pdst, g.Y(), g.Cb(), g.Cr(), g.dstW, g.OutSize());
  }
}
