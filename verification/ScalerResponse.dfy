/**
  What the scaler computes, told by its responses: which source samples an output sample
  depends on, and with which weights.
 */
module ScalerResponse {
  import opened Basics
  import opened ScalerPlane
  import opened Scaler

  // ---------------------------------------------------------------- the coefficients

  /** The ratio is the nearest integer to 256 times the quotient of the sizes. */
  lemma RatioNearest(s: nat, d: nat)
    requires d > 0
    ensures 0 - d <= 2 * (Ratio(s, d) * d - 256 * s) <= d
  {
    DivMod(s * 256 + d / 2, d);
  }

  /** The vertical weights move from the first line to the second in steps of 8. */
  lemma VerticalWeights(k: nat)
    requires k < 32
    ensures TableCoeffs().ver[k].0 == 256 - 8 * k && TableCoeffs().ver[k].1 == 8 * k
  {
  }

  /** The horizontal filter of phase `16 - k` is that of phase `k` read backwards. */
  lemma HorizontalSymmetric(k: nat)
    requires 1 <= k < 16
    ensures var t, u := TableCoeffs().hor[k], TableCoeffs().hor[16 - k];
      t.c0 == u.c3 && t.c1 == u.c2 && t.c2 == u.c1 && t.c3 == u.c0
  {
    Rows(k);
    Rows(16 - k);
    var n := if k <= 8 then k else 16 - k;
    if n == 1 {} else if n == 2 {} else if n == 3 {} else if n == 4 {} else if n == 5 {} else if n == 6 {} else {}
  }

  /** The rows of the table that are used. */
  lemma Rows(k: nat)
    requires k < 16
    ensures TableCoeffs().hor[k] ==
      match k
      case 0 => Taps(0, 256, 0, 0)
      case 1 => Taps(-6, 254, 10, 0)
      case 2 => Taps(-11, 247, 23, -1)
      case 3 => Taps(-15, 236, 39, -3)
      case 4 => Taps(-17, 222, 58, -5)
      case 5 => Taps(-18, 205, 78, -8)
      case 6 => Taps(-18, 186, 100, -10)
      case 7 => Taps(-17, 166, 122, -13)
      case 8 => Taps(-15, 144, 144, -15)
      case 9 => Taps(-13, 122, 166, -17)
      case 10 => Taps(-10, 100, 186, -18)
      case 11 => Taps(-8, 78, 205, -18)
      case 12 => Taps(-5, 58, 222, -17)
      case 13 => Taps(-3, 39, 236, -15)
      case 14 => Taps(-1, 23, 247, -11)
      case _ => Taps(0, 10, 254, -6)
  {
  }

  /** From phase to phase the weight of the left sample falls and that of the right one rises. */
  lemma HorizontalMoves(k: nat)
    requires k + 1 < 16
    ensures var t, u := TableCoeffs().hor[k], TableCoeffs().hor[k + 1];
      t.c1 > u.c1 && t.c2 < u.c2
  {
    Rows(k);
    Rows(k + 1);
  }

  // ---------------------------------------------------------------- one line

  /** A line that is `x` at one place and 0 elsewhere. */
  ghost predicate Impulse(line: seq<Byte>, p: nat, x: Byte) {
    p < |line| && forall k :: 0 <= k < |line| ==> line[k] == if k == p then x else 0
  }

  /**
    The response of the horizontal filter to one bright sample: the four coefficients of the
    phase weigh the samples before, at, after and two after the base, and the first and the
    last sample of the line stand for all those outside it.
   */
  lemma HorImpulse(cs: Coeffs, line: seq<Byte>, p: nat, x: Byte, ratio: nat, j: nat)
    requires cs.Valid() && Impulse(line, p, x)
    ensures var b, t, n := j * ratio / 256, cs.hor[j * ratio % 256 / 16], |line|;
      var w0 := if p == (if b < 1 then 0 else if b - 1 < n then b - 1 else n - 1) then t.c0 else 0;
      var w1 := if p == (if b < n then b else n - 1) then t.c1 else 0;
      var w2 := if p == (if b + 1 < n then b + 1 else n - 1) then t.c2 else 0;
      var w3 := if p == (if b + 2 < n then b + 2 else n - 1) then t.c3 else 0;
      var v := (x * (w0 + w1 + w2 + w3) + 128) / 256;
      HorSample(cs, line, ratio, j) == if v > 255 then 255 else if v < 0 then 0 else v
  {
    hide HorBlend, Tap, Impulse;
    BlendImpulse(cs.hor[j * ratio % 256 / 16], line, p, x, j * ratio / 256);
  }

  lemma BlendImpulse(t: Taps, line: seq<Byte>, p: nat, x: Byte, b: nat)
    requires Impulse(line, p, x)
    ensures var n := |line|;
      var w0 := if p == (if b < 1 then 0 else if b - 1 < n then b - 1 else n - 1) then t.c0 else 0;
      var w1 := if p == (if b < n then b else n - 1) then t.c1 else 0;
      var w2 := if p == (if b + 1 < n then b + 1 else n - 1) then t.c2 else 0;
      var w3 := if p == (if b + 2 < n then b + 2 else n - 1) then t.c3 else 0;
      var v := (x * (w0 + w1 + w2 + w3) + 128) / 256;
      HorBlend(t, Tap(line, b - 1), Tap(line, b), Tap(line, b + 1), Tap(line, b + 2)) ==
        if v > 255 then 255 else if v < 0 then 0 else v
  {
    var n := |line|;
    var w0 := if p == (if b < 1 then 0 else if b - 1 < n then b - 1 else n - 1) then t.c0 else 0;
    var w1 := if p == (if b < n then b else n - 1) then t.c1 else 0;
    var w2 := if p == (if b + 1 < n then b + 1 else n - 1) then t.c2 else 0;
    var w3 := if p == (if b + 2 < n then b + 2 else n - 1) then t.c3 else 0;
    TapProduct(line, p, x, b - 1, t.c0);
    TapProduct(line, p, x, b, t.c1);
    TapProduct(line, p, x, b + 1, t.c2);
    TapProduct(line, p, x, b + 2, t.c3);
    hide Tap, Impulse;
    Factor4(x, w0, w1, w2, w3);
  }

  lemma TapProduct(line: seq<Byte>, p: nat, x: Byte, k: int, c: int)
    requires Impulse(line, p, x)
    ensures Tap(line, k) * c == x * if p == (if k < 0 then 0 else if k < |line| then k else |line| - 1) then c else 0
  {
  }

  /** Away from the edges the four samples around the base answer with their own coefficients, all others with 0. */
  lemma HorInterior(cs: Coeffs, line: seq<Byte>, p: nat, x: Byte, ratio: nat, j: nat)
    requires cs.Valid() && Impulse(line, p, x) && 1 <= j * ratio / 256 && j * ratio / 256 + 2 < |line|
    ensures var b, t := j * ratio / 256, cs.hor[j * ratio % 256 / 16];
      var c := if p == b - 1 then t.c0 else if p == b then t.c1 else if p == b + 1 then t.c2
               else if p == b + 2 then t.c3 else 0;
      var v := (x * c + 128) / 256;
      HorSample(cs, line, ratio, j) == if v > 255 then 255 else if v < 0 then 0 else v
  {
    HorImpulse(cs, line, p, x, ratio, j);
  }

  lemma HalfwayTaps()
    ensures TableCoeffs().hor[8] == Taps(-15, 144, 144, -15)
  {
    Rows(8);
  }

  /** A black and a white sample, doubled in width: the second of the four samples is medium grey. */
  lemma HorEdgeExample(cs: Coeffs)
    requires cs.Valid() && cs.hor[8] == Taps(-15, 144, 144, -15)
    ensures HorSample(cs, [0, 255], 128, 1) == 128
    ensures HorSample(cs, [0, 255, 0, 0], 128, 1) == 143
    ensures HorSample(cs, [255, 0, 0, 0], 128, 3) == 0
  {
  }

  // ---------------------------------------------------------------- one plane

  /** Where the samples of a source line are. */
  lemma LineAt(p: Plane, src: seq<Byte>, n: nat, k: nat)
    requires p.Valid() && p.FitsSource(|src|) && n < p.srcH && k < p.srcW
    ensures p.srcBase + n * p.srcStride + k < |src|
    ensures p.Line(src, n)[k] == src[p.srcBase + n * p.srcStride + k]
  {
    p.LineInside(n, |src|);
  }

  lemma BlackLine(cs: Coeffs, line: seq<Byte>, ratio: nat, j: nat)
    requires cs.Valid() && |line| > 0 && forall k :: 0 <= k < |line| ==> line[k] == 0
    ensures HorSample(cs, line, ratio, j) == 0
  {
    assert Impulse(line, 0, 0);
    HorImpulse(cs, line, 0, 0, ratio, j);
  }

  /**
    The response of the vertical filter to one source line: output row `i` takes it with the
    first weight of its phase if it is the base line, with the second if it is the one below,
    and the last line stands for those below it.
   */
  lemma VerImpulse(p: Plane, src: seq<Byte>, n: nat, i: nat, j: nat)
    requires p.Valid() && p.FitsSource(|src|) && n < p.srcH
    requires forall m, k :: 0 <= m < p.srcH && 0 <= k < p.srcW && m != n ==> p.Line(src, m)[k] == 0
    ensures var w, b := p.cs.ver[i * p.vratio % 256 / 8], i * p.vratio / 256;
      var w0 := if n == (if b < p.srcH then b else p.srcH - 1) then w.0 else 0;
      var w1 := if n == (if b + 1 < p.srcH then b + 1 else p.srcH - 1) then w.1 else 0;
      var v := (HorSample(p.cs, p.Line(src, n), p.hratio, j) * (w0 + w1) + 128) / 256;
      p.Pixel(src, i, j) == if v > 255 then 255 else if v < 0 then 0 else v
  {
    var b := i * p.vratio / 256;
    var first, second := p.FirstLine(i), p.SecondLine(i);
    if first != n { BlackLine(p.cs, p.Line(src, first), p.hratio, j); }
    if second != n { BlackLine(p.cs, p.Line(src, second), p.hratio, j); }
    hide HorSample;
    var w, h := p.cs.ver[i * p.vratio % 256 / 8], HorSample(p.cs, p.Line(src, n), p.hratio, j);
    Distribute(h, w.0, w.1);
  }

  lemma Distribute(h: int, a: int, b: int)
    ensures h * (a + b) == h * a + h * b && h * (a + 0) == h * a && h * (0 + b) == h * b && h * (0 + 0) == 0
  {
  }

  // ---------------------------------------------------------------- one frame

  /** Every plane is scaled by the ratios of the frame, each the nearest to its own direction. */
  lemma PlaneRatios(g: Geometry)
    requires g.Valid()
    ensures 0 - g.dstW <= 2 * (g.Y().hratio * g.dstW - 256 * g.srcW) <= g.dstW
    ensures 0 - g.dstH <= 2 * (g.Y().vratio * g.dstH - 256 * g.srcH) <= g.dstH
    ensures g.Cb().hratio == g.Cr().hratio == g.Y().hratio && g.Cb().vratio == g.Cr().vratio == g.Y().vratio
    ensures g.Y().cs == g.Cb().cs == g.Cr().cs == g.cs
  {
    RatioNearest(g.srcW, g.dstW);
    RatioNearest(g.srcH, g.dstH);
  }

  /** The planes of the source follow each other, rows padded to the least multiple of the alignment. */
  lemma PlanesInSource(g: Geometry)
    requires g.Valid()
    ensures g.Y().srcBase == 0 && g.Y().srcW == g.srcW && g.Y().srcH == g.srcH
    ensures g.srcW <= g.Y().srcStride < g.srcW + g.align && g.Y().srcStride % g.align == 0
    ensures g.Cb().srcBase == g.srcH * g.Y().srcStride
    ensures g.Cr().srcBase == g.Cb().srcBase + g.srcH / 2 * g.Cb().srcStride
    ensures g.Cb().srcW == g.Cr().srcW == g.srcW / 2 && g.Cb().srcH == g.Cr().srcH == g.srcH / 2
    ensures g.Cb().srcStride == g.Cr().srcStride
    ensures g.srcW / 2 <= g.Cb().srcStride < g.srcW / 2 + g.align / 2 && g.Cb().srcStride % (g.align / 2) == 0
  {
    AlignUpBounds(g.srcW, g.align);
    AlignUpBounds(g.srcW / 2, g.align / 2);
    var q, r := (g.srcW + g.align - 1) / g.align, (g.srcW / 2 + g.align / 2 - 1) / (g.align / 2);
    DivModUnique(q * g.align, g.align, q, 0);
    DivModUnique(r * (g.align / 2), g.align / 2, r, 0);
  }
}
