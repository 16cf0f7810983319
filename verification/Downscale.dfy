/**
  The two NV21 downscalers of camera/1_0/CallbackNotifier.cpp.  Both copy each output byte from
  one source byte; the specification is the pair of row and column maps they use.
 */
module Downscale {
  import opened Basics
  import opened FrameResample

  /** The size of `n` rows of width `w`, or `w` taken `n` times. */
  function Times(n: nat, w: nat): nat { n * w }

  /** Source and destination sizes of one call. */
  datatype Dims = Dims(sw: nat, sh: nat, dw: nat, dh: nat)
  {
    /** Chroma is copied in pairs, so the output width is even. */
    ghost predicate Valid() {
      dw > 0 && dh > 0 && dw % 2 == 0
    }

    predicate Shrinks() { dw <= sw && dh <= sh }

    function SrcSize(): nat { Times(sh, sw) + Times(sh / 2, sw) }

    function DstSize(): nat { Times(dh, dw) + Times(dh / 2, dw) }

    predicate SameSize() { sw == dw && sh == dh }

    /** The size of the one `memcpy` at equal sizes: for odd heights it is half a row more than the frame. */
    function CopySize(): nat { Times(dh, dw) * 3 / 2 }
  }

  /** Row and column maps for luma, and for chroma pairs. */
  datatype Maps = Maps(rows: seq<nat>, cols: seq<nat>, crows: seq<nat>, ccols: seq<nat>)

  ghost predicate AllBelow(m: seq<nat>, n: nat) {
    forall j :: 0 <= j < |m| ==> m[j] < n
  }

  /** The maps cover the destination and stay inside the source planes. */
  ghost predicate MapsFit(d: Dims, m: Maps) {
    && |m.rows| == d.dh && |m.cols| == d.dw && |m.crows| == d.dh / 2 && |m.ccols| == d.dw / 2
    && AllBelow(m.rows, d.sh) && AllBelow(m.cols, d.sw) && AllBelow(m.crows, d.sh / 2) && AllBelow(m.ccols, d.sw / 2)
  }

  // ---------------------------------------------------------------- which byte is copied where

  ghost function LumaSrc(d: Dims, m: Maps, h: nat, w: nat): nat
    requires h < |m.rows| && w < |m.cols|
  {
    Times(m.rows[h], d.sw) + m.cols[w]
  }

  ghost function ChromaSrc(d: Dims, m: Maps, h: nat, w: nat): nat
    requires h < |m.crows| && w / 2 < |m.ccols|
  {
    Times(d.sh, d.sw) + Times(m.crows[h], d.sw) + (2 * m.ccols[w / 2] + w % 2)
  }

  lemma InsidePlane(r: nat, c: nat, w: nat, h: nat)
    requires r < h && c < w
    ensures Times(r, w) + c < Times(h, w)
  {
    MulMono(r + 1, h, w);
    assert (r + 1) * w == r * w + w;
  }

  lemma LumaInside(d: Dims, m: Maps, h: nat, w: nat)
    requires MapsFit(d, m) && h < d.dh && w < d.dw
    ensures LumaSrc(d, m, h, w) < Times(d.sh, d.sw)
  {
    InsidePlane(m.rows[h], m.cols[w], d.sw, d.sh);
  }

  lemma ChromaInside(d: Dims, m: Maps, h: nat, w: nat)
    requires d.Valid() && MapsFit(d, m) && h < d.dh / 2 && w < d.dw
    ensures Times(d.sh, d.sw) <= ChromaSrc(d, m, h, w) < d.SrcSize()
  {
    InsidePlane(m.crows[h], 2 * m.ccols[w / 2] + w % 2, d.sw, d.sh / 2);
  }

  /** Row and column of a position in a plane of width `w` and height `h`. */
  ghost function RowOf(k: nat, w: nat, h: nat): (r: nat)
    requires k < Times(h, w)
    ensures r < h && w > 0
  {
    assert w > 0;
    DivAtLeast(k, w, h);
    k / w
  }

  ghost function ColOf(k: nat, w: nat, h: nat): (r: nat)
    requires k < Times(h, w)
    ensures r < w
  {
    assert w > 0;
    DivMod(k, w);
    k % w
  }

  lemma RowCol(k: nat, w: nat, h: nat)
    requires k < Times(h, w)
    ensures k == Times(RowOf(k, w, h), w) + ColOf(k, w, h)
  {
    DivMod(k, w);
  }

  lemma RowColOf(r: nat, c: nat, w: nat, h: nat)
    requires r < h && c < w && Times(r, w) + c < Times(h, w)
    ensures RowOf(Times(r, w) + c, w, h) == r && ColOf(Times(r, w) + c, w, h) == c
  {
    DivModUnique(r * w + c, w, r, c);
  }

  ghost function LumaIndex(d: Dims, m: Maps, k: nat): (r: nat)
    requires d.Valid() && MapsFit(d, m) && k < Times(d.dh, d.dw)
    ensures r < Times(d.sh, d.sw)
  {
    var r, c := RowOf(k, d.dw, d.dh), ColOf(k, d.dw, d.dh);
    LumaInside(d, m, r, c);
    LumaSrc(d, m, r, c)
  }

  ghost function ChromaIndex(d: Dims, m: Maps, t: nat): (r: nat)
    requires d.Valid() && MapsFit(d, m) && t < Times(d.dh / 2, d.dw)
    ensures Times(d.sh, d.sw) <= r < d.SrcSize()
  {
    var r, c := RowOf(t, d.dw, d.dh / 2), ColOf(t, d.dw, d.dh / 2);
    ChromaInside(d, m, r, c);
    ChromaSrc(d, m, r, c)
  }

  /** The source position that output byte `k` is copied from. */
  ghost function SrcIndex(d: Dims, m: Maps, k: nat): (r: nat)
    requires d.Valid() && MapsFit(d, m) && k < d.DstSize()
    ensures r < d.SrcSize()
  {
    if k < Times(d.dh, d.dw) then LumaIndex(d, m, k) else ChromaIndex(d, m, k - Times(d.dh, d.dw))
  }

  ghost function Sampled(d: Dims, m: Maps, src: seq<Byte>): (r: seq<Byte>)
    requires d.Valid() && MapsFit(d, m) && d.SrcSize() <= |src|
    ensures |r| == d.DstSize()
  {
    seq(d.DstSize(), k requires 0 <= k < d.DstSize() => src[SrcIndex(d, m, k)])
  }

  /** The bytes of `dst` from `at` on are the bytes of `src` at the positions `idx`. */
  ghost predicate RowOk(src: seq<Byte>, dst: seq<Byte>, at: nat, idx: seq<nat>) {
    at + |idx| <= |dst| && AllBelow(idx, |src|) && forall w :: 0 <= w < |idx| ==> dst[at + w] == src[idx[w]]
  }

  lemma RowKept(src: seq<Byte>, before: seq<Byte>, after: seq<Byte>, at: nat, idx: seq<nat>, end: nat)
    requires RowOk(src, before, at, idx) && |before| == |after| && at + |idx| <= end
    requires forall k :: 0 <= k < end && k < |after| ==> after[k] == before[k]
    ensures RowOk(src, after, at, idx)
  {
  }

  /** The source positions of one luma row, and of one chroma row. */
  ghost function LumaIdx(d: Dims, m: Maps, h: nat): (r: seq<nat>)
    requires MapsFit(d, m) && h < d.dh
    ensures |r| == d.dw && forall w :: 0 <= w < d.dw ==> r[w] == LumaSrc(d, m, h, w)
  {
    seq(d.dw, w requires 0 <= w < d.dw => LumaSrc(d, m, h, w))
  }

  ghost function ChromaIdx(d: Dims, m: Maps, h: nat): (r: seq<nat>)
    requires d.Valid() && MapsFit(d, m) && h < d.dh / 2
    ensures |r| == d.dw && forall w :: 0 <= w < d.dw ==> r[w] == ChromaSrc(d, m, h, w)
  {
    seq(d.dw, w requires 0 <= w < d.dw => ChromaSrc(d, m, h, w))
  }

  ghost predicate LumaRow(d: Dims, m: Maps, src: seq<Byte>, dst: seq<Byte>, h: nat)
    requires MapsFit(d, m) && h < d.dh
  {
    RowOk(src, dst, Times(h, d.dw), LumaIdx(d, m, h))
  }

  ghost predicate ChromaRow(d: Dims, m: Maps, src: seq<Byte>, dst: seq<Byte>, h: nat)
    requires d.Valid() && MapsFit(d, m) && h < d.dh / 2
  {
    RowOk(src, dst, Times(d.dh, d.dw) + Times(h, d.dw), ChromaIdx(d, m, h))
  }

  ghost predicate LumaDone(d: Dims, m: Maps, src: seq<Byte>, dst: seq<Byte>, n: nat)
    requires MapsFit(d, m)
  {
    n <= d.dh && forall h :: 0 <= h < n ==> LumaRow(d, m, src, dst, h)
  }

  ghost predicate ChromaDone(d: Dims, m: Maps, src: seq<Byte>, dst: seq<Byte>, n: nat)
    requires d.Valid() && MapsFit(d, m)
  {
    n <= d.dh / 2 && forall h :: 0 <= h < n ==> ChromaRow(d, m, src, dst, h)
  }

  lemma RowsAreSampled(d: Dims, m: Maps, src: seq<Byte>, dst: seq<Byte>)
    requires d.Valid() && MapsFit(d, m) && d.SrcSize() <= |src| && |dst| == d.DstSize()
    requires LumaDone(d, m, src, dst, d.dh) && ChromaDone(d, m, src, dst, d.dh / 2)
    ensures dst == Sampled(d, m, src)
  {
    forall k | 0 <= k < |dst|
      ensures dst[k] == src[SrcIndex(d, m, k)]
    {
      if k < Times(d.dh, d.dw) {
        LumaByte(d, m, src, dst, k);
      } else {
        ChromaByte(d, m, src, dst, k - Times(d.dh, d.dw));
      }
    }
  }

  lemma LumaByte(d: Dims, m: Maps, src: seq<Byte>, dst: seq<Byte>, k: nat)
    requires d.Valid() && MapsFit(d, m) && d.SrcSize() <= |src| && d.DstSize() <= |dst| && k < Times(d.dh, d.dw)
    requires LumaRow(d, m, src, dst, RowOf(k, d.dw, d.dh))
    ensures dst[k] == src[LumaIndex(d, m, k)]
  {
    RowCol(k, d.dw, d.dh);
  }

  lemma ChromaByte(d: Dims, m: Maps, src: seq<Byte>, dst: seq<Byte>, t: nat)
    requires d.Valid() && MapsFit(d, m) && d.SrcSize() <= |src| && d.DstSize() <= |dst| && t < Times(d.dh / 2, d.dw)
    requires ChromaRow(d, m, src, dst, RowOf(t, d.dw, d.dh / 2))
    ensures dst[Times(d.dh, d.dw) + t] == src[ChromaIndex(d, m, t)]
  {
    RowCol(t, d.dw, d.dh / 2);
  }

  // ---------------------------------------------------------------- the two maps

  /** The maps of `yuv420spDown_noneScale`: `createMap` on the luma and on the chroma size. */
  ghost function NearestMaps(d: Dims): Maps {
    Maps(seq(d.dh, h requires 0 <= h < d.dh => MapEntry(d.sh, d.dh, h)),
         seq(d.dw, w requires 0 <= w < d.dw => MapEntry(d.sw, d.dw, w)),
         seq(d.dh / 2, h requires 0 <= h < d.dh / 2 => MapEntry(d.sh / 2, d.dh / 2, h)),
         seq(d.dw / 2, w requires 0 <= w < d.dw / 2 => MapEntry(d.sw / 2, d.dw / 2, w)))
  }

  /** The factor `yuv420spDownScale` uses: the common integer ratio, else 1 (a crop). */
  function Scale(d: Dims): nat
    requires d.dw > 0 && d.dh > 0
  {
    if d.sw / d.dw == d.sh / d.dh then d.sw / d.dw else 1
  }

  /** The maps of `yuv420spDownScale`. */
  ghost function ScaleMaps(d: Dims): Maps
    requires d.dw > 0 && d.dh > 0
  {
    var k := Scale(d);
    Maps(Multiples(d.dh, k), Multiples(d.dw, k), Multiples(d.dh / 2, k), Multiples(d.dw / 2, k))
  }

  ghost function Multiples(n: nat, k: nat): (r: seq<nat>)
    ensures |r| == n && forall j :: 0 <= j < n ==> r[j] == Times(j, k)
  {
    seq(n, j requires 0 <= j < n => Times(j, k))
  }

  lemma NearestFit(d: Dims)
    requires d.Valid() && d.Shrinks()
    ensures MapsFit(d, NearestMaps(d))
  {
    forall h | 0 <= h < d.dh ensures NearestMaps(d).rows[h] < d.sh { MapShape(d.sh, d.dh, h); }
    forall w | 0 <= w < d.dw ensures NearestMaps(d).cols[w] < d.sw { MapShape(d.sw, d.dw, w); }
    forall h | 0 <= h < d.dh / 2 ensures NearestMaps(d).crows[h] < d.sh / 2 { MapShape(d.sh / 2, d.dh / 2, h); }
    forall w | 0 <= w < d.dw / 2 ensures NearestMaps(d).ccols[w] < d.sw / 2 { MapShape(d.sw / 2, d.dw / 2, w); }
  }

  lemma ScaleBounds(d: Dims)
    requires d.Valid() && d.Shrinks()
    ensures Scale(d) >= 1 && Scale(d) * d.dw <= d.sw && Scale(d) * d.dh <= d.sh
    ensures Scale(d) * (d.dw / 2) <= d.sw / 2 && Scale(d) * (d.dh / 2) <= d.sh / 2
  {
    var k := Scale(d);
    DivAtLeast(d.sw, d.dw, k);
    DivAtLeast(d.sh, d.dh, k);
    DivAtLeast(d.sw, d.dw, 1);
    DivAtLeast(d.sh, d.dh, 1);
    HalfBelow(k, d.dw, d.sw);
    HalfBelow(k, d.dh, d.sh);
  }

  lemma HalfBelow(k: nat, d: nat, s: nat)
    requires k * d <= s
    ensures k * (d / 2) <= s / 2
  {
    MulMonoLeft(k, 2 * (d / 2), d);
    assert k * (2 * (d / 2)) == 2 * (k * (d / 2));
  }

  lemma HalfProduct(k: nat, d: nat)
    requires d % 2 == 0
    ensures k * d == 2 * (k * (d / 2))
  {
    assert d == 2 * (d / 2);
  }

  lemma ScaleFit(d: Dims)
    requires d.Valid() && d.Shrinks()
    ensures MapsFit(d, ScaleMaps(d))
  {
    var k, m := Scale(d), ScaleMaps(d);
    ScaleBounds(d);
    forall j | 0 <= j < d.dh ensures m.rows[j] < d.sh { BelowScaled(j, d.dh, k, d.sh); }
    forall j | 0 <= j < d.dw ensures m.cols[j] < d.sw { BelowScaled(j, d.dw, k, d.sw); }
    forall j | 0 <= j < d.dh / 2 ensures m.crows[j] < d.sh / 2 { BelowScaled(j, d.dh / 2, k, d.sh / 2); }
    forall j | 0 <= j < d.dw / 2 ensures m.ccols[j] < d.sw / 2 { BelowScaled(j, d.dw / 2, k, d.sw / 2); }
  }

  lemma BelowScaled(j: nat, d: nat, k: nat, s: nat)
    requires j < d && k >= 1 && k * d <= s
    ensures j * k < s
  {
    MulMono(j + 1, d, k);
  }

  // ---------------------------------------------------------------- row by row

  lemma RowEnd(h: nat, w: nat, n: nat)
    requires h < n
    ensures Times(h, w) + w <= Times(n, w) && Times(h + 1, w) == Times(h, w) + w
  {
    MulMono(h + 1, n, w);
    assert (h + 1) * w == h * w + w;
  }

  /** Writing row `h` keeps the rows before it. */
  lemma LumaStep(d: Dims, m: Maps, src: seq<Byte>, before: seq<Byte>, after: seq<Byte>, h: nat)
    requires MapsFit(d, m) && |before| == |after|
    requires LumaDone(d, m, src, before, h) && h < d.dh
    requires forall k :: 0 <= k < Times(h, d.dw) && k < |after| ==> after[k] == before[k]
    requires LumaRow(d, m, src, after, h)
    ensures LumaDone(d, m, src, after, h + 1)
  {
    forall h' | 0 <= h' < h
      ensures LumaRow(d, m, src, after, h')
    {
      assert LumaRow(d, m, src, before, h');
      RowEnd(h', d.dw, h);
      RowKept(src, before, after, Times(h', d.dw), LumaIdx(d, m, h'), Times(h, d.dw));
    }
  }

  lemma LumaKept(d: Dims, m: Maps, src: seq<Byte>, before: seq<Byte>, after: seq<Byte>)
    requires MapsFit(d, m) && |before| == |after|
    requires LumaDone(d, m, src, before, d.dh)
    requires forall k :: 0 <= k < Times(d.dh, d.dw) && k < |after| ==> after[k] == before[k]
    ensures LumaDone(d, m, src, after, d.dh)
  {
    forall h | 0 <= h < d.dh
      ensures LumaRow(d, m, src, after, h)
    {
      assert LumaRow(d, m, src, before, h);
      RowEnd(h, d.dw, d.dh);
      RowKept(src, before, after, Times(h, d.dw), LumaIdx(d, m, h), Times(d.dh, d.dw));
    }
  }

  lemma ChromaStep(d: Dims, m: Maps, src: seq<Byte>, before: seq<Byte>, after: seq<Byte>, h: nat)
    requires d.Valid() && MapsFit(d, m) && |before| == |after|
    requires ChromaDone(d, m, src, before, h) && h < d.dh / 2
    requires forall k :: 0 <= k < Times(d.dh, d.dw) + Times(h, d.dw) && k < |after| ==> after[k] == before[k]
    requires ChromaRow(d, m, src, after, h)
    ensures ChromaDone(d, m, src, after, h + 1)
  {
    forall h' | 0 <= h' < h
      ensures ChromaRow(d, m, src, after, h')
    {
      assert ChromaRow(d, m, src, before, h');
      RowEnd(h', d.dw, h);
      var y := Times(d.dh, d.dw);
      RowKept(src, before, after, y + Times(h', d.dw), ChromaIdx(d, m, h'), y + Times(h, d.dw));
    }
  }

  /** One luma row of `yuv420spDown_noneScale`, columns taken from the map. */
  method CopyMapped(psrc: array<Byte>, pdst: array<Byte>, from: nat, to: nat, cols: array<int>,
                    ghost idx: seq<nat>, n: nat)
    requires psrc != pdst && n <= cols.Length && to + n <= pdst.Length && |idx| == n && AllBelow(idx, psrc.Length)
    requires forall w :: 0 <= w < n ==> idx[w] == from + cols[w]
    modifies pdst
    ensures RowOk(psrc[..], pdst[..], to, idx)
    ensures forall k :: 0 <= k < pdst.Length && !(to <= k < to + n) ==> pdst[k] == old(pdst[k])
  {
    var w := 0;
    while w < n
      invariant 0 <= w <= n
      invariant forall x :: 0 <= x < w ==> pdst[to + x] == psrc[idx[x]]
      invariant forall k :: 0 <= k < pdst.Length && !(to <= k < to + w) ==> pdst[k] == old(pdst[k])
    {
      assert idx[w] == from + cols[w];
      pdst[to + w] := psrc[from + cols[w]];
      w := w + 1;
    }
  }

  /** One chroma row: two bytes at a time, the pair taken from the map. */
  method CopyMappedPairs(psrc: array<Byte>, pdst: array<Byte>, from: nat, to: nat, cols: array<int>,
                         ghost idx: seq<nat>, n: nat)
    requires psrc != pdst && n % 2 == 0 && n / 2 <= cols.Length && to + n <= pdst.Length
    requires |idx| == n && AllBelow(idx, psrc.Length)
    requires forall w :: 0 <= w < n ==> idx[w] == from + (2 * cols[w / 2] + w % 2)
    modifies pdst
    ensures RowOk(psrc[..], pdst[..], to, idx)
    ensures forall k :: 0 <= k < pdst.Length && !(to <= k < to + n) ==> pdst[k] == old(pdst[k])
  {
    var w := 0;
    while w < n
      invariant 0 <= w <= n && w % 2 == 0
      invariant forall x :: 0 <= x < w ==> pdst[to + x] == psrc[idx[x]]
      invariant forall k :: 0 <= k < pdst.Length && !(to <= k < to + w) ==> pdst[k] == old(pdst[k])
    {
      assert idx[w] == from + cols[w / 2] * 2 && idx[w + 1] == from + cols[w / 2] * 2 + 1;
      pdst[to + w], pdst[to + w + 1] := psrc[from + cols[w / 2] * 2], psrc[from + cols[w / 2] * 2 + 1];
      w := w + 2;
    }
  }

  ghost predicate HoldsMap(a: array<int>, m: seq<nat>)
    reads a
  {
    |m| <= a.Length && forall j :: 0 <= j < |m| ==> a[j] == m[j]
  }

  lemma MappedLumaIdx(d: Dims, m: Maps, h: nat)
    requires MapsFit(d, m) && h < d.dh
    ensures forall w :: 0 <= w < d.dw ==> LumaIdx(d, m, h)[w] == Times(m.rows[h], d.sw) + m.cols[w]
  {
  }

  /** One round of the luma loop of `yuv420spDown_noneScale`. */
  method MappedLumaRow(psrc: array<Byte>, pdst: array<Byte>, d: Dims, row: nat, cols: array<int>, h: nat, ghost m: Maps)
    requires psrc != pdst && MapsFit(d, m) && d.SrcSize() <= psrc.Length && d.DstSize() <= pdst.Length
    requires h < d.dh && row == m.rows[h] && HoldsMap(cols, m.cols)
    modifies pdst
    ensures LumaRow(d, m, psrc[..], pdst[..], h)
    ensures forall k :: 0 <= k < pdst.Length && !(Times(h, d.dw) <= k < Times(h, d.dw) + d.dw) ==>
      pdst[k] == old(pdst[k])
  {
    hide RowOk, AllBelow, LumaIdx, LumaSrc;
    RowEnd(h, d.dw, d.dh);
    LumaRowInside(d, m, h, psrc.Length);
    MappedLumaIdx(d, m, h);
    CopyMapped(psrc, pdst, Times(row, d.sw), Times(h, d.dw), cols, LumaIdx(d, m, h), d.dw);
  }

  /** The luma loop of `yuv420spDown_noneScale`. */
  method MappedLuma(psrc: array<Byte>, pdst: array<Byte>, d: Dims, rows: array<int>, cols: array<int>, ghost m: Maps)
    requires psrc != pdst && MapsFit(d, m) && d.SrcSize() <= psrc.Length && d.DstSize() <= pdst.Length
    requires HoldsMap(rows, m.rows) && HoldsMap(cols, m.cols)
    modifies pdst
    ensures LumaDone(d, m, psrc[..], pdst[..], d.dh)
    ensures forall k :: Times(d.dh, d.dw) <= k < pdst.Length ==> pdst[k] == old(pdst[k])
  {
    hide LumaRow;
    var h := 0;
    while h < d.dh
      invariant 0 <= h <= d.dh
      invariant LumaDone(d, m, psrc[..], pdst[..], h)
      invariant forall k :: Times(d.dh, d.dw) <= k < pdst.Length ==> pdst[k] == old(pdst[k])
    {
      ghost var before := pdst[..];
      RowEnd(h, d.dw, d.dh);
      MappedLumaRow(psrc, pdst, d, rows[h], cols, h, m);
      LumaStep(d, m, psrc[..], before, pdst[..], h);
      h := h + 1;
    }
  }

  lemma LumaRowInside(d: Dims, m: Maps, h: nat, n: nat)
    requires MapsFit(d, m) && h < d.dh && d.SrcSize() <= n
    ensures AllBelow(LumaIdx(d, m, h), n)
  {
    forall w | 0 <= w < d.dw
      ensures LumaSrc(d, m, h, w) < n
    {
      LumaInside(d, m, h, w);
    }
  }

  lemma ChromaRowInside(d: Dims, m: Maps, h: nat, n: nat)
    requires d.Valid() && MapsFit(d, m) && h < d.dh / 2 && d.SrcSize() <= n
    ensures AllBelow(ChromaIdx(d, m, h), n)
  {
    forall w | 0 <= w < d.dw
      ensures ChromaSrc(d, m, h, w) < n
    {
      ChromaInside(d, m, h, w);
    }
  }

  /** The chroma loop of `yuv420spDown_noneScale`. */
  method MappedChroma(psrc: array<Byte>, pdst: array<Byte>, d: Dims, rows: array<int>, cols: array<int>, ghost m: Maps)
    requires psrc != pdst && d.Valid() && MapsFit(d, m) && d.SrcSize() <= psrc.Length && d.DstSize() <= pdst.Length
    requires HoldsMap(rows, m.crows) && HoldsMap(cols, m.ccols)
    modifies pdst
    ensures ChromaDone(d, m, psrc[..], pdst[..], d.dh / 2)
    ensures forall k :: 0 <= k < Times(d.dh, d.dw) || d.DstSize() <= k < pdst.Length ==> pdst[k] == old(pdst[k])
  {
    hide RowOk, AllBelow;
    var h := 0;
    while h < d.dh / 2
      invariant 0 <= h <= d.dh / 2
      invariant ChromaDone(d, m, psrc[..], pdst[..], h)
      invariant forall k :: 0 <= k < Times(d.dh, d.dw) || d.DstSize() <= k < pdst.Length ==> pdst[k] == old(pdst[k])
    {
      ghost var before := pdst[..];
      RowEnd(h, d.dw, d.dh / 2);
      ChromaRowInside(d, m, h, psrc.Length);
      CopyMappedPairs(psrc, pdst, Times(d.sh, d.sw) + Times(rows[h], d.sw), Times(d.dh, d.dw) + Times(h, d.dw), cols,
                      ChromaIdx(d, m, h), d.dw);
      ChromaStep(d, m, psrc[..], before, pdst[..], h);
      h := h + 1;
    }
  }

  /** `createMap` */
  method CreateMap(sw: nat, sh: nat, dw: nat, dh: nat, cols: array<int>, rows: array<int>)
    requires cols != rows && dw <= cols.Length && dh <= rows.Length
    modifies cols, rows
    ensures forall j :: 0 <= j < dw ==> cols[j] == MapEntry(sw, dw, j)
    ensures forall j :: 0 <= j < dh ==> rows[j] == MapEntry(sh, dh, j)
  {
    CreateAxisMap(sw, dw, cols);
    CreateAxisMap(sh, dh, rows);
  }

  /** `yuv420spDown_noneScale` */
  method DownNearest(psrc: array<Byte>, pdst: array<Byte>, d: Dims) returns (ok: bool)
    requires psrc != pdst && d.Valid()
    requires d.SrcSize() <= psrc.Length && d.DstSize() <= pdst.Length
    modifies pdst
    ensures ok == d.Shrinks() && (ok <==> d.dw <= d.sw && d.dh <= d.sh)
    ensures ok ==> MapsFit(d, NearestMaps(d)) && pdst[..d.DstSize()] == Sampled(d, NearestMaps(d), psrc[..])
    ensures forall k :: 0 <= k < pdst.Length && (!ok || d.DstSize() <= k) ==> pdst[k] == old(pdst[k])
  {
    var rows, cols := new int[d.dh], new int[d.dw];
    var crows, ccols := new int[d.dh / 2], new int[d.dw];
    if d.dw > d.sw || d.dh > d.sh {
      return false;
    }
    ghost var m := NearestMaps(d);
    NearestFit(d);
    CreateMap(d.sw, d.sh, d.dw, d.dh, cols, rows);
    MappedLuma(psrc, pdst, d, rows, cols, m);
    ghost var half := pdst[..];
    CreateMap(d.sw / 2, d.sh / 2, d.dw / 2, d.dh / 2, ccols, crows);
    MappedChroma(psrc, pdst, d, crows, ccols, m);
    LumaKept(d, m, psrc[..], half, pdst[..]);
    Finish(d, m, psrc[..], pdst[..]);
    ok := true;
  }

  lemma Finish(d: Dims, m: Maps, src: seq<Byte>, dst: seq<Byte>)
    requires d.Valid() && MapsFit(d, m) && d.SrcSize() <= |src| && d.DstSize() <= |dst|
    requires LumaDone(d, m, src, dst, d.dh) && ChromaDone(d, m, src, dst, d.dh / 2)
    ensures dst[..d.DstSize()] == Sampled(d, m, src)
  {
    var out := dst[..d.DstSize()];
    forall h | 0 <= h < d.dh ensures LumaRow(d, m, src, out, h) {
      assert LumaRow(d, m, src, dst, h);
      RowEnd(h, d.dw, d.dh);
    }
    forall h | 0 <= h < d.dh / 2 ensures ChromaRow(d, m, src, out, h) {
      assert ChromaRow(d, m, src, dst, h);
      RowEnd(h, d.dw, d.dh / 2);
    }
    RowsAreSampled(d, m, src, out);
  }

  // ---------------------------------------------------------------- the integer downscaler

  /** One luma row of `yuv420spDownScale`: every `k`-th byte. */
  method CopyScaled(psrc: array<Byte>, pdst: array<Byte>, from: nat, to: nat, k: nat, ghost idx: seq<nat>, n: nat)
    requires psrc != pdst && to + n <= pdst.Length && |idx| == n && AllBelow(idx, psrc.Length)
    requires forall w :: 0 <= w < n ==> idx[w] == from + Times(w, k)
    modifies pdst
    ensures RowOk(psrc[..], pdst[..], to, idx)
    ensures forall x :: 0 <= x < pdst.Length && !(to <= x < to + n) ==> pdst[x] == old(pdst[x])
  {
    hide Times;
    var w := 0;
    while w < n
      invariant 0 <= w <= n
      invariant forall x :: 0 <= x < w ==> pdst[to + x] == psrc[idx[x]]
      invariant forall x :: 0 <= x < pdst.Length && !(to <= x < to + w) ==> pdst[x] == old(pdst[x])
    {
      assert idx[w] == from + Times(w, k);
      pdst[to + w] := psrc[from + Times(w, k)];
      w := w + 1;
    }
  }

  lemma PairStart(w: nat, k: nat)
    requires w % 2 == 0
    ensures Times(w, k) == 2 * Times(w / 2, k)
  {
    assert w == 2 * (w / 2);
  }

  /** One chroma row of `yuv420spDownScale`: two bytes at a time. */
  method CopyScaledPairs(psrc: array<Byte>, pdst: array<Byte>, from: nat, to: nat, k: nat, ghost idx: seq<nat>, n: nat)
    requires psrc != pdst && n % 2 == 0 && to + n <= pdst.Length && |idx| == n && AllBelow(idx, psrc.Length)
    requires forall w :: 0 <= w < n ==> idx[w] == from + (2 * Times(w / 2, k) + w % 2)
    modifies pdst
    ensures RowOk(psrc[..], pdst[..], to, idx)
    ensures forall x :: 0 <= x < pdst.Length && !(to <= x < to + n) ==> pdst[x] == old(pdst[x])
  {
    hide Times;
    var w := 0;
    while w < n
      invariant 0 <= w <= n && w % 2 == 0
      invariant forall x :: 0 <= x < w ==> pdst[to + x] == psrc[idx[x]]
      invariant forall x :: 0 <= x < pdst.Length && !(to <= x < to + w) ==> pdst[x] == old(pdst[x])
    {
      var at := from + Times(w, k);
      PairStart(w, k);
      assert idx[w] == at && idx[w + 1] == at + 1;
      pdst[to + w], pdst[to + w + 1] := psrc[at], psrc[at + 1];
      w := w + 2;
    }
  }

  /** `memcpy` of one row. */
  method CopyRow(psrc: array<Byte>, pdst: array<Byte>, from: nat, to: nat, ghost idx: seq<nat>, n: nat)
    requires psrc != pdst && to + n <= pdst.Length && |idx| == n && AllBelow(idx, psrc.Length)
    requires forall w :: 0 <= w < n ==> idx[w] == from + w
    modifies pdst
    ensures RowOk(psrc[..], pdst[..], to, idx)
    ensures forall x :: 0 <= x < pdst.Length && !(to <= x < to + n) ==> pdst[x] == old(pdst[x])
  {
    assert n > 0 ==> idx[n - 1] == from + n - 1;
    forall w | 0 <= w < n {
      pdst[to + w] := psrc[from + w];
    }
  }

  lemma ScaledLumaIdx(d: Dims, m: Maps, k: nat, h: nat)
    requires MapsFit(d, m) && m.rows == Multiples(d.dh, k) && m.cols == Multiples(d.dw, k) && h < d.dh
    ensures forall w :: 0 <= w < d.dw ==> LumaIdx(d, m, h)[w] == Times(Times(h, k), d.sw) + Times(w, k)
  {
    assert m.rows[h] == Times(h, k);
    forall w | 0 <= w < d.dw
      ensures LumaIdx(d, m, h)[w] == Times(Times(h, k), d.sw) + Times(w, k)
    {
      assert m.cols[w] == Times(w, k);
    }
  }

  lemma ScaledChromaIdx(d: Dims, m: Maps, k: nat, h: nat)
    requires d.Valid() && MapsFit(d, m) && h < d.dh / 2
    requires m.crows == Multiples(d.dh / 2, k) && m.ccols == Multiples(d.dw / 2, k)
    ensures forall w :: 0 <= w < d.dw ==>
      ChromaIdx(d, m, h)[w] == Times(d.sh, d.sw) + Times(Times(h, k), d.sw) + (2 * Times(w / 2, k) + w % 2)
  {
    assert m.crows[h] == Times(h, k);
    forall w | 0 <= w < d.dw
      ensures ChromaIdx(d, m, h)[w] == Times(d.sh, d.sw) + Times(Times(h, k), d.sw) + (2 * Times(w / 2, k) + w % 2)
    {
      assert m.ccols[w / 2] == Times(w / 2, k);
    }
  }

  /** The luma loop of `yuv420spDownScale` for a factor `k`. */
  method ScaledLuma(psrc: array<Byte>, pdst: array<Byte>, d: Dims, k: nat, ghost m: Maps)
    requires psrc != pdst && MapsFit(d, m) && d.SrcSize() <= psrc.Length && d.DstSize() <= pdst.Length
    requires m.rows == Multiples(d.dh, k) && m.cols == Multiples(d.dw, k)
    modifies pdst
    ensures LumaDone(d, m, psrc[..], pdst[..], d.dh)
    ensures forall x :: Times(d.dh, d.dw) <= x < pdst.Length ==> pdst[x] == old(pdst[x])
  {
    hide RowOk, MapsFit;
    var h := 0;
    while h < d.dh
      invariant 0 <= h <= d.dh
      invariant LumaDone(d, m, psrc[..], pdst[..], h)
      invariant forall x :: Times(d.dh, d.dw) <= x < pdst.Length ==> pdst[x] == old(pdst[x])
    {
      ghost var before := pdst[..];
      RowEnd(h, d.dw, d.dh);
      LumaRowInside(d, m, h, psrc.Length);
      ScaledLumaIdx(d, m, k, h);
      CopyScaled(psrc, pdst, Times(Times(h, k), d.sw), Times(h, d.dw), k, LumaIdx(d, m, h), d.dw);
      LumaStep(d, m, psrc[..], before, pdst[..], h);
      h := h + 1;
    }
  }

  /** The chroma loop of `yuv420spDownScale` for a factor `k`. */
  method ScaledChroma(psrc: array<Byte>, pdst: array<Byte>, d: Dims, k: nat, ghost m: Maps)
    requires psrc != pdst && d.Valid() && MapsFit(d, m) && d.SrcSize() <= psrc.Length && d.DstSize() <= pdst.Length
    requires m.crows == Multiples(d.dh / 2, k) && m.ccols == Multiples(d.dw / 2, k)
    modifies pdst
    ensures ChromaDone(d, m, psrc[..], pdst[..], d.dh / 2)
    ensures forall x :: 0 <= x < Times(d.dh, d.dw) || d.DstSize() <= x < pdst.Length ==> pdst[x] == old(pdst[x])
  {
    hide RowOk, MapsFit;
    var h := 0;
    while h < d.dh / 2
      invariant 0 <= h <= d.dh / 2
      invariant ChromaDone(d, m, psrc[..], pdst[..], h)
      invariant forall x :: 0 <= x < Times(d.dh, d.dw) || d.DstSize() <= x < pdst.Length ==> pdst[x] == old(pdst[x])
    {
      ghost var before := pdst[..];
      RowEnd(h, d.dw, d.dh / 2);
      ChromaRowInside(d, m, h, psrc.Length);
      ScaledChromaIdx(d, m, k, h);
      CopyScaledPairs(psrc, pdst, Times(d.sh, d.sw) + Times(Times(h, k), d.sw), Times(d.dh, d.dw) + Times(h, d.dw), k,
                      ChromaIdx(d, m, h), d.dw);
      ChromaStep(d, m, psrc[..], before, pdst[..], h);
      h := h + 1;
    }
  }

  /** Rows of a crop are consecutive source bytes. */
  lemma CropIdx(d: Dims, m: Maps)
    requires d.Valid() && MapsFit(d, m)
    requires m.rows == Multiples(d.dh, 1) && m.cols == Multiples(d.dw, 1)
    requires m.crows == Multiples(d.dh / 2, 1) && m.ccols == Multiples(d.dw / 2, 1)
    ensures forall h, w :: 0 <= h < d.dh && 0 <= w < d.dw ==> LumaIdx(d, m, h)[w] == Times(h, d.sw) + w
    ensures forall h, w :: 0 <= h < d.dh / 2 && 0 <= w < d.dw ==>
      ChromaIdx(d, m, h)[w] == Times(d.sh, d.sw) + Times(h, d.sw) + w
  {
    forall h, w | 0 <= h < d.dh && 0 <= w < d.dw
      ensures LumaIdx(d, m, h)[w] == Times(h, d.sw) + w
    {
      assert m.rows[h] == Times(h, 1) && m.cols[w] == Times(w, 1);
    }
    forall h, w | 0 <= h < d.dh / 2 && 0 <= w < d.dw
      ensures ChromaIdx(d, m, h)[w] == Times(d.sh, d.sw) + Times(h, d.sw) + w
    {
      assert m.crows[h] == Times(h, 1) && m.ccols[w / 2] == Times(w / 2, 1);
    }
  }

  /** The luma loop of the crop: the top left corner, one `memcpy` a row. */
  method CropLuma(psrc: array<Byte>, pdst: array<Byte>, d: Dims, ghost m: Maps)
    requires psrc != pdst && MapsFit(d, m) && d.SrcSize() <= psrc.Length && d.DstSize() <= pdst.Length
    requires forall h, w :: 0 <= h < d.dh && 0 <= w < d.dw ==> LumaIdx(d, m, h)[w] == Times(h, d.sw) + w
    modifies pdst
    ensures LumaDone(d, m, psrc[..], pdst[..], d.dh)
    ensures forall x :: Times(d.dh, d.dw) <= x < pdst.Length ==> pdst[x] == old(pdst[x])
  {
    hide RowOk, MapsFit;
    var h := 0;
    while h < d.dh
      invariant 0 <= h <= d.dh
      invariant LumaDone(d, m, psrc[..], pdst[..], h)
      invariant forall x :: Times(d.dh, d.dw) <= x < pdst.Length ==> pdst[x] == old(pdst[x])
    {
      ghost var before := pdst[..];
      RowEnd(h, d.dw, d.dh);
      LumaRowInside(d, m, h, psrc.Length);
      CopyRow(psrc, pdst, Times(h, d.sw), Times(h, d.dw), LumaIdx(d, m, h), d.dw);
      LumaStep(d, m, psrc[..], before, pdst[..], h);
      h := h + 1;
    }
  }

  /** The chroma loop of the crop. */
  method CropChroma(psrc: array<Byte>, pdst: array<Byte>, d: Dims, ghost m: Maps)
    requires psrc != pdst && d.Valid() && MapsFit(d, m) && d.SrcSize() <= psrc.Length && d.DstSize() <= pdst.Length
    requires forall h, w :: 0 <= h < d.dh / 2 && 0 <= w < d.dw ==>
      ChromaIdx(d, m, h)[w] == Times(d.sh, d.sw) + Times(h, d.sw) + w
    modifies pdst
    ensures ChromaDone(d, m, psrc[..], pdst[..], d.dh / 2)
    ensures forall x :: 0 <= x < Times(d.dh, d.dw) || d.DstSize() <= x < pdst.Length ==> pdst[x] == old(pdst[x])
  {
    hide RowOk, MapsFit;
    var h := 0;
    while h < d.dh / 2
      invariant 0 <= h <= d.dh / 2
      invariant ChromaDone(d, m, psrc[..], pdst[..], h)
      invariant forall x :: 0 <= x < Times(d.dh, d.dw) || d.DstSize() <= x < pdst.Length ==> pdst[x] == old(pdst[x])
    {
      ghost var before := pdst[..];
      RowEnd(h, d.dw, d.dh / 2);
      ChromaRowInside(d, m, h, psrc.Length);
      CopyRow(psrc, pdst, Times(d.sh, d.sw) + Times(h, d.sw), Times(d.dh, d.dw) + Times(h, d.dw),
              ChromaIdx(d, m, h), d.dw);
      ChromaStep(d, m, psrc[..], before, pdst[..], h);
      h := h + 1;
    }
  }

  /** A row that `memcpy` copied to the same position. */
  lemma CopiedRow(src: seq<Byte>, dst: seq<Byte>, at: nat, idx: seq<nat>)
    requires at + |idx| <= |src| && at + |idx| <= |dst|
    requires forall w :: 0 <= w < |idx| ==> idx[w] == at + w
    requires forall x :: at <= x < at + |idx| ==> dst[x] == src[x]
    ensures RowOk(src, dst, at, idx)
  {
  }

  /** At equal sizes one `memcpy` of the frame does the same as the crop. */
  lemma WholeCopy(d: Dims, m: Maps, src: seq<Byte>, dst: seq<Byte>)
    requires d.Valid() && MapsFit(d, m) && d.SameSize()
    requires d.DstSize() <= |src| && d.DstSize() <= |dst|
    requires forall x :: 0 <= x < d.DstSize() ==> dst[x] == src[x]
    requires forall h, w :: 0 <= h < d.dh && 0 <= w < d.dw ==> LumaIdx(d, m, h)[w] == Times(h, d.sw) + w
    requires forall h, w :: 0 <= h < d.dh / 2 && 0 <= w < d.dw ==>
      ChromaIdx(d, m, h)[w] == Times(d.sh, d.sw) + Times(h, d.sw) + w
    ensures LumaDone(d, m, src, dst, d.dh) && ChromaDone(d, m, src, dst, d.dh / 2)
  {
    hide RowOk, MapsFit;
    forall h | 0 <= h < d.dh ensures LumaRow(d, m, src, dst, h) {
      RowEnd(h, d.dw, d.dh);
      CopiedRow(src, dst, Times(h, d.dw), LumaIdx(d, m, h));
    }
    forall h | 0 <= h < d.dh / 2 ensures ChromaRow(d, m, src, dst, h) {
      RowEnd(h, d.dw, d.dh / 2);
      CopiedRow(src, dst, Times(d.dh, d.dw) + Times(h, d.dw), ChromaIdx(d, m, h));
    }
  }

  lemma FrameBytes(d: Dims)
    requires d.Valid()
    ensures d.DstSize() <= d.CopySize()
    ensures d.dh % 2 == 0 ==> d.DstSize() == d.CopySize()
  {
    var a, b := d.dw / 2, d.dh / 2;
    assert Times(d.dh, d.dw) == 2 * (a * d.dh) by { assert d.dw == 2 * a; }
    assert Times(b, d.dw) == 2 * (a * b) by { assert d.dw == 2 * a; }
    MulMonoLeft(a, 2 * b, d.dh);
    assert a * (2 * b) == 2 * (a * b);
  }

  /** `yuv420spDownScale` */
  method DownScale(psrc: array<Byte>, pdst: array<Byte>, d: Dims) returns (ok: bool)
    requires psrc != pdst && d.Valid()
    requires d.SrcSize() <= psrc.Length && d.DstSize() <= pdst.Length
    requires d.SameSize() ==> d.CopySize() <= psrc.Length && d.CopySize() <= pdst.Length
    modifies pdst
    ensures ok == d.Shrinks() && (ok <==> d.dw <= d.sw && d.dh <= d.sh)
    ensures ok ==> MapsFit(d, ScaleMaps(d)) && pdst[..d.DstSize()] == Sampled(d, ScaleMaps(d), psrc[..])
    ensures forall k :: 0 <= k < pdst.Length && (!ok || (if d.SameSize() then d.CopySize() else d.DstSize()) <= k) ==>
      pdst[k] == old(pdst[k])
  {
    hide Times, MapsFit, Sampled, LumaDone, ChromaDone;
    var scaleW, scaleH, scale := d.sw / d.dw, d.sh / d.dh, 1;
    if d.dw > d.sw || d.dh > d.sh {
      return false;
    }
    if scaleW == scaleH {
      scale := scaleW;
    }
    ghost var m := ScaleMaps(d);
    ScaleFit(d);
    if scale == 1 {
      CropIdx(d, m);
      if d.sw == d.dw && d.sh == d.dh {
        FrameBytes(d);
        var n := Times(d.dh, d.dw) * 3 / 2;
        forall k | 0 <= k < n {
          pdst[k] := psrc[k];
        }
        WholeCopy(d, m, psrc[..], pdst[..]);
      } else {
        CropLuma(psrc, pdst, d, m);
        ghost var luma := pdst[..];
        CropChroma(psrc, pdst, d, m);
        LumaKept(d, m, psrc[..], luma, pdst[..]);
      }
    } else {
      ScaledLuma(psrc, pdst, d, scale, m);
      ghost var luma := pdst[..];
      ScaledChroma(psrc, pdst, d, scale, m);
      LumaKept(d, m, psrc[..], luma, pdst[..]);
    }
    Finish(d, m, psrc[..], pdst[..]);
    ok := true;
  }
}
