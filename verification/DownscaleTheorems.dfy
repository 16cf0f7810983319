/** Exactly when the two downscalers produce the same bytes from every frame. */
module DownscaleTheorems {
  import opened Basics
  import opened FrameResample
  import opened Downscale

  /** Both downscalers give the same output for every source frame. */
  ghost predicate AlwaysAgree(d: Dims)
    requires d.Valid() && d.Shrinks()
  {
    NearestFit(d);
    ScaleFit(d);
    forall src: seq<Byte> :: |src| == d.SrcSize() ==> Sampled(d, ScaleMaps(d), src) == Sampled(d, NearestMaps(d), src)
  }

  /** A frame that is 1 at one position and 0 elsewhere. */
  ghost function Spot(n: nat, at: nat): (s: seq<Byte>)
    ensures |s| == n
    ensures forall k :: 0 <= k < n ==> (s[k] == 1 <==> k == at)
  {
    seq(n, k requires 0 <= k < n => if k == at then 1 else 0)
  }

  /** A frame with a single bright byte tells two source positions apart. */
  lemma SpotSeparates(d: Dims, m1: Maps, m2: Maps, k: nat)
    requires d.Valid() && MapsFit(d, m1) && MapsFit(d, m2) && k < d.DstSize()
    requires var src := Spot(d.SrcSize(), SrcIndex(d, m1, k)); Sampled(d, m1, src) == Sampled(d, m2, src)
    ensures SrcIndex(d, m1, k) == SrcIndex(d, m2, k)
  {
    var src := Spot(d.SrcSize(), SrcIndex(d, m1, k));
    assert Sampled(d, m1, src)[k] == Sampled(d, m2, src)[k];
  }

  lemma SameIndexSameCell(r1: nat, c1: nat, r2: nat, c2: nat, w: nat)
    requires c1 < w && c2 < w && Times(r1, w) + c1 == Times(r2, w) + c2
    ensures r1 == r2 && c1 == c2
  {
    DivModUnique(r1 * w + c1, w, r1, c1);
    DivModUnique(r1 * w + c1, w, r2, c2);
  }

  lemma SameLuma(d: Dims, m1: Maps, m2: Maps, h: nat, w: nat)
    requires d.Valid() && MapsFit(d, m1) && MapsFit(d, m2) && h < d.dh && w < d.dw
    requires forall k :: 0 <= k < d.DstSize() ==> SrcIndex(d, m1, k) == SrcIndex(d, m2, k)
    ensures m1.rows[h] == m2.rows[h] && m1.cols[w] == m2.cols[w]
  {
    InsidePlane(h, w, d.dw, d.dh);
    RowColOf(h, w, d.dw, d.dh);
    assert SrcIndex(d, m1, Times(h, d.dw) + w) == SrcIndex(d, m2, Times(h, d.dw) + w);
    SameIndexSameCell(m1.rows[h], m1.cols[w], m2.rows[h], m2.cols[w], d.sw);
  }

  lemma SameChroma(d: Dims, m1: Maps, m2: Maps, h: nat, p: nat)
    requires d.Valid() && MapsFit(d, m1) && MapsFit(d, m2) && h < d.dh / 2 && p < d.dw / 2
    requires forall k :: 0 <= k < d.DstSize() ==> SrcIndex(d, m1, k) == SrcIndex(d, m2, k)
    ensures m1.crows[h] == m2.crows[h] && m1.ccols[p] == m2.ccols[p]
  {
    var w, y := 2 * p, Times(d.dh, d.dw);
    InsidePlane(h, w, d.dw, d.dh / 2);
    RowColOf(h, w, d.dw, d.dh / 2);
    var k := y + (Times(h, d.dw) + w);
    assert SrcIndex(d, m1, k) == SrcIndex(d, m2, k);
    assert ChromaSrc(d, m1, h, w) == ChromaSrc(d, m2, h, w);
    SameIndexSameCell(m1.crows[h], 2 * m1.ccols[p], m2.crows[h], 2 * m2.ccols[p], d.sw);
  }

  /** The same luma maps, and the same chroma maps if there is a chroma row. */
  ghost predicate SameUse(d: Dims, m1: Maps, m2: Maps) {
    && m1.rows == m2.rows && m1.cols == m2.cols
    && (d.dh >= 2 ==> m1.crows == m2.crows && m1.ccols == m2.ccols)
  }

  /** Maps that copy every byte from the same place are the same maps. */
  lemma SameMaps(d: Dims, m1: Maps, m2: Maps)
    requires d.Valid() && MapsFit(d, m1) && MapsFit(d, m2)
    requires forall k :: 0 <= k < d.DstSize() ==> SrcIndex(d, m1, k) == SrcIndex(d, m2, k)
    ensures SameUse(d, m1, m2)
  {
    forall h | 0 <= h < d.dh ensures m1.rows[h] == m2.rows[h] { SameLuma(d, m1, m2, h, 0); }
    forall w | 0 <= w < d.dw ensures m1.cols[w] == m2.cols[w] { SameLuma(d, m1, m2, 0, w); }
    if d.dh >= 2 {
      forall h | 0 <= h < d.dh / 2 ensures m1.crows[h] == m2.crows[h] { SameChroma(d, m1, m2, h, 0); }
      forall p | 0 <= p < d.dw / 2 ensures m1.ccols[p] == m2.ccols[p] { SameChroma(d, m1, m2, 0, p); }
    }
  }

  lemma SameUseSamples(d: Dims, m1: Maps, m2: Maps, src: seq<Byte>)
    requires d.Valid() && MapsFit(d, m1) && MapsFit(d, m2) && SameUse(d, m1, m2) && d.SrcSize() <= |src|
    ensures Sampled(d, m1, src) == Sampled(d, m2, src)
  {
    if d.dh >= 2 {
      assert m1 == m2;
    } else {
      assert d.DstSize() == Times(d.dh, d.dw);
      assert forall k :: 0 <= k < d.DstSize() ==> SrcIndex(d, m1, k) == SrcIndex(d, m2, k);
    }
  }

  lemma AgreeIffSameMaps(d: Dims)
    requires d.Valid() && d.Shrinks()
    ensures AlwaysAgree(d) <==> SameUse(d, ScaleMaps(d), NearestMaps(d))
  {
    NearestFit(d);
    ScaleFit(d);
    var m1, m2 := ScaleMaps(d), NearestMaps(d);
    if AlwaysAgree(d) {
      forall k | 0 <= k < d.DstSize()
        ensures SrcIndex(d, m1, k) == SrcIndex(d, m2, k)
      {
        var src := Spot(d.SrcSize(), SrcIndex(d, m1, k));
        assert Sampled(d, m1, src) == Sampled(d, m2, src);
        SpotSeparates(d, m1, m2, k);
      }
      SameMaps(d, m1, m2);
    }
    if SameUse(d, m1, m2) {
      forall src: seq<Byte> | |src| == d.SrcSize() ensures Sampled(d, m1, src) == Sampled(d, m2, src) {
        SameUseSamples(d, m1, m2, src);
      }
    }
  }

  /** A common exact integer ratio of widths and heights. */
  predicate CommonRatio(d: Dims)
    requires d.dw > 0 && d.dh > 0
  {
    d.sw % d.dw == 0 && d.sh % d.dh == 0 && d.sw / d.dw == d.sh / d.dh
  }

  lemma CommonRatioIff(d: Dims)
    requires d.Valid() && d.Shrinks()
    ensures CommonRatio(d) <==> d.sw == Scale(d) * d.dw && d.sh == Scale(d) * d.dh
  {
    var k := Scale(d);
    DivMod(d.sw, d.dw);
    DivMod(d.sh, d.dh);
    if d.sw == k * d.dw && d.sh == k * d.dh {
      DivModUnique(d.sw, d.dw, k, 0);
      DivModUnique(d.sh, d.dh, k, 0);
    }
  }

  /** One axis: multiplication by `k` is the nearest map. */
  lemma AxisSameIff(s: nat, d: nat, k: nat, nearest: seq<nat>)
    requires 0 < d <= s && k * d <= s && |nearest| == d && forall j :: 0 <= j < d ==> nearest[j] == MapEntry(s, d, j)
    ensures Multiples(d, k) == nearest <==> d == 1 || s == k * d
  {
    MapIsScaleIff(s, d, k);
    if Multiples(d, k) == nearest {
      forall j | 0 <= j < d ensures MapEntry(s, d, j) == j * k { assert Multiples(d, k)[j] == nearest[j]; }
    }
  }

  lemma MapsSameIff(d: Dims)
    requires d.Valid() && d.Shrinks()
    ensures SameUse(d, ScaleMaps(d), NearestMaps(d)) <==>
      && d.sw == Scale(d) * d.dw
      && (d.dh == 1 || d.sh == Scale(d) * d.dh)
      && (d.dh / 2 <= 1 || d.sh / 2 == Scale(d) * (d.dh / 2))
  {
    var k, n := Scale(d), NearestMaps(d);
    ScaleBounds(d);
    AxisSameIff(d.sw, d.dw, k, n.cols);
    AxisSameIff(d.sh, d.dh, k, n.rows);
    AxisSameIff(d.sw / 2, d.dw / 2, k, n.ccols);
    if d.dh >= 2 { AxisSameIff(d.sh / 2, d.dh / 2, k, n.crows); }
    if d.sw == k * d.dw { HalfProduct(k, d.dw); }
  }

  /** Chroma rows of an odd height, with exact ratio `k`. */
  lemma OddRows(k: nat, d: nat)
    requires k >= 1
    ensures d % 2 == 1 ==> (k * d / 2 == k * (d / 2) <==> k == 1)
    ensures d % 2 == 0 ==> k * d / 2 == k * (d / 2)
  {
    var e := d / 2;
    if d % 2 == 1 {
      assert k * d == 2 * (k * e) + k by { assert d == 2 * e + 1; }
    } else {
      HalfProduct(k, d);
    }
  }

  /**
    A common exact integer ratio.  For odd heights from 5 on the chroma planes have that ratio
    only if it is 1; and a single row of full width is the same in both.
   */
  predicate SamePicture(d: Dims)
    requires d.dw > 0 && d.dh > 0
  {
    (CommonRatio(d) && (d.dh % 2 == 0 || d.dh <= 3 || d.sw == d.dw)) || (d.dh == 1 && d.sw == d.dw)
  }

  lemma ConditionIff(d: Dims)
    requires d.Valid() && d.Shrinks()
    ensures SamePicture(d) <==>
      && d.sw == Scale(d) * d.dw
      && (d.dh == 1 || d.sh == Scale(d) * d.dh)
      && (d.dh / 2 <= 1 || d.sh / 2 == Scale(d) * (d.dh / 2))
  {
    var k := Scale(d);
    ScaleBounds(d);
    CommonRatioIff(d);
    OddRows(k, d.dh);
    DivModUnique(d.dw, d.dw, 1, 0);
    if d.sw == d.dw { assert k == 1; }
    if k == 1 && d.sw == k * d.dw { assert d.sw == d.dw; }
    if d.dh == 1 && d.sh != k { assert k == 1; }
  }

  /**
    `yuv420spDownScale` and `yuv420spDown_noneScale` give the same bytes for every frame
    exactly when the widths and the heights have the same exact integer ratio, and for odd
    heights the chroma planes have it too.
   */
  lemma DownscalersAgreeIff(d: Dims)
    requires d.Valid() && d.Shrinks()
    ensures AlwaysAgree(d) <==> SamePicture(d)
    ensures d.dh % 2 == 0 ==> (AlwaysAgree(d) <==> CommonRatio(d))
  {
    AgreeIffSameMaps(d);
    MapsSameIff(d);
    ConditionIff(d);
  }

  /**
    The caller picks the integer downscaler when each size divides its own (lines 1199-1206):
    that test admits sizes for which the choice changes the picture.
   */
  lemma CallerTestIsWeaker()
    ensures var d := Dims(640, 480, 320, 480);
      d.sw % d.dw == 0 && d.sh % d.dh == 0 && d.Valid() && d.Shrinks() && !AlwaysAgree(d)
  {
    DownscalersAgreeIff(Dims(640, 480, 320, 480));
  }

  // ---------------------------------------------------------------- byte by byte

  lemma SampledLuma(d: Dims, m: Maps, src: seq<Byte>, h: nat, w: nat, to: nat, from: nat)
    requires d.Valid() && MapsFit(d, m) && d.SrcSize() <= |src| && h < d.dh && w < d.dw
    requires to == h * d.dw + w && from == m.rows[h] * d.sw + m.cols[w]
    ensures to < d.DstSize() && from < |src| && Sampled(d, m, src)[to] == src[from]
  {
    assert to == Times(h, d.dw) + w && from == LumaSrc(d, m, h, w);
    hide Times;
    InsidePlane(h, w, d.dw, d.dh);
    RowColOf(h, w, d.dw, d.dh);
    LumaInside(d, m, h, w);
  }

  lemma SampledChroma(d: Dims, m: Maps, src: seq<Byte>, h: nat, w: nat, to: nat, from: nat)
    requires d.Valid() && MapsFit(d, m) && d.SrcSize() <= |src| && h < d.dh / 2 && w < d.dw
    requires to == d.dh * d.dw + h * d.dw + w && from == d.sh * d.sw + m.crows[h] * d.sw + 2 * m.ccols[w / 2] + w % 2
    ensures to < d.DstSize() && from < |src| && Sampled(d, m, src)[to] == src[from]
  {
    assert to == Times(d.dh, d.dw) + (Times(h, d.dw) + w) && from == ChromaSrc(d, m, h, w);
    hide Times;
    InsidePlane(h, w, d.dw, d.dh / 2);
    RowColOf(h, w, d.dw, d.dh / 2);
    ChromaInside(d, m, h, w);
  }

  /** Byte `to` of the output of `yuv420spDown_noneScale` is byte `from` of the source. */
  ghost predicate NearestCopies(d: Dims, src: seq<Byte>, to: nat, from: nat)
    requires d.Valid() && d.Shrinks() && d.SrcSize() <= |src|
  {
    NearestFit(d);
    to < d.DstSize() && from < |src| && Sampled(d, NearestMaps(d), src)[to] == src[from]
  }

  /** The same for `yuv420spDownScale`. */
  ghost predicate ScaleCopies(d: Dims, src: seq<Byte>, to: nat, from: nat)
    requires d.Valid() && d.Shrinks() && d.SrcSize() <= |src|
  {
    ScaleFit(d);
    to < d.DstSize() && from < |src| && Sampled(d, ScaleMaps(d), src)[to] == src[from]
  }

  /** Every luma byte of `yuv420spDown_noneScale`: row and column are rounded up. */
  lemma NearestLuma(d: Dims, src: seq<Byte>, h: nat, w: nat, row: nat, col: nat, to: nat, from: nat)
    requires d.Valid() && d.Shrinks() && d.SrcSize() <= |src| && h < d.dh && w < d.dw
    requires row == (h * d.sh + d.dh - 1) / d.dh && col == (w * d.sw + d.dw - 1) / d.dw
    requires to == h * d.dw + w && from == row * d.sw + col
    ensures NearestCopies(d, src, to, from)
  {
    NearestFit(d);
    assert NearestMaps(d).rows[h] == row && NearestMaps(d).cols[w] == col;
    hide NearestMaps, Sampled, MapsFit;
    SampledLuma(d, NearestMaps(d), src, h, w, to, from);
  }

  /** Every chroma byte of it: pairs are kept, their row and column rounded up among the pairs. */
  lemma NearestChroma(d: Dims, src: seq<Byte>, h: nat, w: nat, row: nat, pair: nat, to: nat, from: nat)
    requires d.Valid() && d.Shrinks() && d.SrcSize() <= |src| && h < d.dh / 2 && w < d.dw
    requires row == (h * (d.sh / 2) + d.dh / 2 - 1) / (d.dh / 2)
    requires pair == (w / 2 * (d.sw / 2) + d.dw / 2 - 1) / (d.dw / 2)
    requires to == d.dh * d.dw + h * d.dw + w && from == d.sh * d.sw + row * d.sw + 2 * pair + w % 2
    ensures NearestCopies(d, src, to, from)
  {
    NearestFit(d);
    assert NearestMaps(d).crows[h] == row && NearestMaps(d).ccols[w / 2] == pair;
    hide NearestMaps, Sampled, MapsFit;
    SampledChroma(d, NearestMaps(d), src, h, w, to, from);
  }

  /** Every luma byte of `yuv420spDownScale`: multiples of the common ratio, or of 1 if the ratios differ. */
  lemma ScaledLumaByte(d: Dims, src: seq<Byte>, h: nat, w: nat, k: nat, to: nat, from: nat)
    requires d.Valid() && d.Shrinks() && d.SrcSize() <= |src| && h < d.dh && w < d.dw
    requires k == if d.sw / d.dw == d.sh / d.dh then d.sw / d.dw else 1
    requires to == h * d.dw + w && from == (h * k) * d.sw + w * k
    ensures ScaleCopies(d, src, to, from)
  {
    ScaleFit(d);
    assert ScaleMaps(d).rows[h] == h * k && ScaleMaps(d).cols[w] == w * k;
    hide ScaleMaps, Sampled, MapsFit;
    SampledLuma(d, ScaleMaps(d), src, h, w, to, from);
  }

  /** Every chroma byte of it: pairs are kept. */
  lemma ScaledChromaByte(d: Dims, src: seq<Byte>, h: nat, w: nat, k: nat, to: nat, from: nat)
    requires d.Valid() && d.Shrinks() && d.SrcSize() <= |src| && h < d.dh / 2 && w < d.dw
    requires k == if d.sw / d.dw == d.sh / d.dh then d.sw / d.dw else 1
    requires to == d.dh * d.dw + h * d.dw + w && from == d.sh * d.sw + (h * k) * d.sw + 2 * (w / 2 * k) + w % 2
    ensures ScaleCopies(d, src, to, from)
  {
    ScaleFit(d);
    assert ScaleMaps(d).crows[h] == h * k && ScaleMaps(d).ccols[w / 2] == w / 2 * k;
    hide ScaleMaps, Sampled, MapsFit;
    SampledChroma(d, ScaleMaps(d), src, h, w, to, from);
  }

  /** If the two ratios differ, `yuv420spDownScale` copies the top left corner. */
  lemma UnequalRatiosCrop(d: Dims, src: seq<Byte>, h: nat, w: nat, to: nat, from: nat)
    requires d.Valid() && d.Shrinks() && d.SrcSize() <= |src| && d.sw / d.dw != d.sh / d.dh && w < d.dw
    requires || (h < d.dh && to == h * d.dw + w && from == h * d.sw + w)
             || (h < d.dh / 2 && to == d.dh * d.dw + h * d.dw + w && from == d.sh * d.sw + h * d.sw + w)
    ensures ScaleCopies(d, src, to, from)
  {
    hide ScaleCopies;
    if h < d.dh && to == h * d.dw + w && from == h * d.sw + w {
      ScaledLumaByte(d, src, h, w, 1, to, from);
    } else {
      ScaledChromaByte(d, src, h, w, 1, to, from);
    }
  }
}
