/**
  Model of the YV12 scaler (camera/1_0/scaler.c): a 4-tap horizontal pass, a 2-tap
  vertical pass and a two-slot cache of horizontally filtered lines.

  The specification (`Plane.Pixel`) has no cache: it filters both source lines again for
  every output sample.  The methods below are the loops of the source.
 */
module ScalerPlane {
  import opened Basics

  /** One row of the coefficient table. */
  datatype Taps = Taps(c0: int, c1: int, c2: int, c3: int)

  /** The 32 rows of `cubic_coeff`. */
  const CUBIC_COEFF: seq<Taps> := [
    Taps(0, 256, 0, 0), Taps(-3, 255, 4, 0), Taps(-6, 254, 10, 0), Taps(-9, 251, 16, 0),
    Taps(-11, 247, 23, -1), Taps(-13, 242, 31, -2), Taps(-15, 236, 39, -3), Taps(-16, 229, 48, -4),
    Taps(-17, 222, 58, -5), Taps(-18, 214, 68, -6), Taps(-18, 205, 78, -8), Taps(-18, 196, 89, -9),
    Taps(-18, 186, 100, -10), Taps(-17, 176, 111, -12), Taps(-17, 166, 122, -13), Taps(-16, 155, 133, -14),
    Taps(-15, 144, 144, -15), Taps(-14, 133, 155, -16), Taps(-13, 122, 166, -17), Taps(-12, 111, 176, -17),
    Taps(-10, 100, 186, -18), Taps(-9, 89, 196, -18), Taps(-8, 78, 205, -18), Taps(-6, 68, 214, -18),
    Taps(-5, 58, 222, -17), Taps(-4, 48, 229, -16), Taps(-3, 39, 236, -15), Taps(-2, 31, 242, -13),
    Taps(-1, 23, 247, -11), Taps(0, 16, 251, -9), Taps(0, 10, 254, -6), Taps(0, 4, 255, -3)]

  /** The filter coefficients of a conversion (the two arrays of `ISP_CTX`). */
  datatype Coeffs = Coeffs(hor: seq<Taps>, ver: seq<(int, int)>)
  {
    ghost predicate Valid() {
      |hor| == 16 && |ver| == 32
    }
  }

  function Clip(a: int): Byte {
    if a > 255 then 255 else if a > 0 then a else 0
  }

  /** A sample of a line, the index clamped to the line. */
  function Tap(line: seq<Byte>, k: int): Byte
    requires |line| > 0
  {
    if k < 0 then line[0] else if k >= |line| then line[|line| - 1] else line[k]
  }

  /** Weighted sum of four samples, rounded to the nearest and clipped. */
  function HorBlend(t: Taps, x0: Byte, x1: Byte, x2: Byte, x3: Byte): Byte {
    Clip((x0 * t.c0 + x1 * t.c1 + x2 * t.c2 + x3 * t.c3 + 128) / 256)
  }

  /** Sample `j` of a horizontally filtered line. */
  function HorSample(cs: Coeffs, line: seq<Byte>, ratio: nat, j: nat): Byte
    requires cs.Valid() && |line| > 0
  {
    var b := j * ratio / 256;
    HorBlend(cs.hor[j * ratio % 256 / 16], Tap(line, b - 1), Tap(line, b), Tap(line, b + 1), Tap(line, b + 2))
  }

  function HorLine(cs: Coeffs, line: seq<Byte>, ratio: nat, dstW: nat): (r: seq<Byte>)
    requires cs.Valid() && |line| > 0
    ensures |r| == dstW
  {
    seq(dstW, j requires 0 <= j < dstW => HorSample(cs, line, ratio, j))
  }

  /** Blend of two samples with a pair of vertical weights. */
  function VerBlend(w: (int, int), a: Byte, b: Byte): Byte {
    Clip((a * w.0 + b * w.1 + 128) / 256)
  }

  function Min(a: int, b: int): int { if a < b then a else b }

  /** `(size * 256 + dst / 2) / dst` */
  function Ratio(src: nat, dst: nat): nat
    requires dst > 0
  {
    (src * 256 + dst / 2) / dst
  }

  /** One plane of one conversion: where its lines are in the source and in the output. */
  datatype Plane = Plane(srcBase: nat, srcStride: nat, srcW: nat, srcH: nat,
                         dstBase: nat, dstStride: nat, dstW: nat, dstH: nat,
                         hratio: nat, vratio: nat, cs: Coeffs)
  {
    ghost predicate Valid() {
      cs.Valid() && srcW > 0 && srcH > 0 && srcW <= srcStride && dstW <= dstStride
    }

    /** The plane's last source line ends inside the buffer. */
    ghost predicate FitsSource(n: nat) {
      srcBase + srcH * srcStride <= n
    }

    function Line(src: seq<Byte>, n: nat): (r: seq<Byte>)
      requires Valid() && FitsSource(|src|) && n < srcH
      ensures |r| == srcW
    {
      LineInside(n, |src|);
      src[srcBase + n * srcStride..][..srcW]
    }

    lemma LineInside(n: nat, len: nat)
      requires Valid() && FitsSource(len) && n < srcH
      ensures srcBase + n * srcStride + srcW <= len
    {
      assert (n + 1) * srcStride <= srcH * srcStride by { MulMono(n + 1, srcH, srcStride); }
    }

    function FirstLine(i: nat): nat
      requires srcH > 0
    {
      Min(i * vratio / 256, srcH - 1)
    }

    function SecondLine(i: nat): nat
      requires srcH > 0
    {
      Min(FirstLine(i) + 1, srcH - 1)
    }

    /** The output sample in row `i` and column `j`, without any cache. */
    function Pixel(src: seq<Byte>, i: nat, j: nat): Byte
      requires Valid() && FitsSource(|src|)
    {
      VerBlend(cs.ver[i * vratio % 256 / 8],
               HorSample(cs, Line(src, FirstLine(i)), hratio, j),
               HorSample(cs, Line(src, SecondLine(i)), hratio, j))
    }

    /** Output position of row `i`, column `j`. */
    function Cell(i: nat, j: nat): nat {
      dstBase + i * dstStride + j
    }

    function DstEnd(): nat {
      dstBase + dstH * dstStride
    }

    lemma CellInside(i: nat, j: nat)
      requires Valid() && i < dstH && j < dstW
      ensures dstBase <= Cell(i, j) < Cell(i, 0) + dstStride <= DstEnd()
    {
      MulMono(i + 1, dstH, dstStride);
    }

    /** Every output position of the plane is below `n`. */
    ghost predicate CellsBelow(n: nat) {
      forall i, j :: 0 <= i < dstH && 0 <= j < dstW ==> Cell(i, j) < n
    }

    /** That holds exactly when the last one is. */
    lemma CellsBelowIff(n: nat)
      requires Valid() && dstH > 0 && dstW > 0
      ensures CellsBelow(n) <==> Cell(dstH - 1, dstW - 1) < n
    {
      forall i, j | 0 <= i < dstH && 0 <= j < dstW
        ensures Cell(i, j) <= Cell(dstH - 1, dstW - 1)
      {
        MulMono(i, dstH - 1, dstStride);
      }
    }

    /** Cells of an earlier row lie before the start of a later one. */
    lemma RowsApart(i: nat, i': nat, j: nat)
      requires Valid() && i < i' && j < dstW
      ensures Cell(i, j) < Cell(i', 0)
    {
      MulMono(i + 1, i', dstStride);
    }
  }

  // ---------------------------------------------------------------- the loops

  /** A clamped read from the line of `w` samples that starts at `off`. */
  function Fetch(src: array<Byte>, off: nat, w: nat, k: int): (r: Byte)
    requires w > 0 && off + w <= src.Length
    reads src
    ensures r == Tap(src[off..off + w], k)
  {
    if k < 0 then src[off] else if k >= w then src[off + w - 1] else src[off + k]
  }

  /** `line` is stored in `buf` from `off` on. */
  ghost predicate Holds(buf: array<Byte>, off: nat, line: seq<Byte>)
    reads buf
  {
    off + |line| <= buf.Length && forall k :: 0 <= k < |line| ==> buf[off + k] == line[k]
  }

  /** The filter loop of `SC_hor_filter` (filter type 0): the samples go to `td` from index 2 on. */
  method FilterSamples(cs: Coeffs, src: array<Byte>, off: nat, w: nat, ratio: nat, td: array<Byte>, dstW: nat)
    requires cs.Valid() && src != td && w > 0 && off + w <= src.Length && td.Length == dstW + 4
    modifies td
    ensures Holds(td, 2, HorLine(cs, src[off..off + w], ratio, dstW))
  {
    ghost var line := src[off..off + w];
    var j := 0;
    while j < dstW
      invariant 0 <= j <= dstW
      invariant forall k :: 0 <= k < j ==> td[2 + k] == HorSample(cs, line, ratio, k)
    {
      var b := j * ratio / 256;
      var phase := j * ratio - b * 256;
      var x0 := Fetch(src, off, w, b - 1);
      var x1 := Fetch(src, off, w, b);
      var x2 := Fetch(src, off, w, b + 1);
      var x3 := Fetch(src, off, w, b + 2);
      td[j + 2] := HorBlend(cs.hor[phase / 16], x0, x1, x2, x3);
      j := j + 1;
    }
  }

  /** `SC_hor_filter`: filters into a scratch line with two padding samples at each end, then copies. */
  method HorFilter(cs: Coeffs, src: array<Byte>, off: nat, w: nat, ratio: nat,
                   dst: array<Byte>, dOff: nat, dstW: nat)
    requires cs.Valid() && src != dst && w > 0 && off + w <= src.Length && dOff + dstW <= dst.Length
    modifies dst
    ensures Holds(dst, dOff, HorLine(cs, src[off..off + w], ratio, dstW))
    ensures forall k :: 0 <= k < dst.Length && !(dOff <= k < dOff + dstW) ==> dst[k] == old(dst[k])
  {
    var td := new Byte[dstW + 4];
    FilterSamples(cs, src, off, w, ratio, td, dstW);
    ghost var line := HorLine(cs, src[off..off + w], ratio, dstW);
    td[1] := td[2];
    td[0] := td[1];
    td[3 + dstW] := td[1 + dstW];
    td[2 + dstW] := td[3 + dstW];
    assert Holds(td, 2, line);
    CopyBytes(td, 2, dst, dOff, dstW, line);
  }

  /** `memcpy` of `n` bytes that hold `data`. */
  method CopyBytes(src: array<Byte>, sOff: nat, dst: array<Byte>, dOff: nat, n: nat, ghost data: seq<Byte>)
    requires src != dst && |data| == n && Holds(src, sOff, data) && dOff + n <= dst.Length
    modifies dst
    ensures Holds(dst, dOff, data)
    ensures forall k :: 0 <= k < dst.Length && !(dOff <= k < dOff + n) ==> dst[k] == old(dst[k])
  {
    forall k | 0 <= k < n {
      dst[dOff + k] := src[sOff + k];
    }
  }

  /** `lines` are the horizontally filtered lines of a plane. */
  ghost predicate IsFiltered(p: Plane, src: seq<Byte>, lines: seq<seq<Byte>>)
    requires p.Valid() && p.FitsSource(|src|)
  {
    |lines| == p.srcH && forall n :: 0 <= n < p.srcH ==> lines[n] == HorLine(p.cs, p.Line(src, n), p.hratio, p.dstW)
  }

  /** A slot tagged `tag >= 0` holds the filtered line `tag`. */
  ghost predicate SlotOk(lines: seq<seq<Byte>>, tag: int, buf: array<Byte>, off: nat)
    reads buf
  {
    -1 <= tag < |lines| && (tag >= 0 ==> Holds(buf, off, lines[tag]))
  }

  /** Filters source line `n` into the line buffer at `off`. */
  method FillSlot(src: array<Byte>, p: Plane, buf: array<Byte>, off: nat, n: nat, ghost lines: seq<seq<Byte>>)
    requires src != buf && p.Valid() && p.FitsSource(src.Length) && n < p.srcH
    requires IsFiltered(p, src[..], lines) && off + p.dstW <= buf.Length
    modifies buf
    ensures Holds(buf, off, lines[n])
    ensures forall k :: 0 <= k < buf.Length && !(off <= k < off + p.dstW) ==> buf[k] == old(buf[k])
  {
    p.LineInside(n, src.Length);
    var start := p.srcBase + n * p.srcStride;
    assert p.Line(src[..], n) == src[start..start + p.srcW];
    HorFilter(p.cs, src, start, p.srcW, p.hratio, buf, off, p.dstW);
  }

  /**
    The cache lookups of one output row: returns where in the line buffer the filtered
    lines `a` and `b` are, filtering only the missing ones.  The buffer's two slots start at
    0 and at `half`.
   */
  method FetchLines(src: array<Byte>, p: Plane, tags: array<int>, buf: array<Byte>, half: nat, a: nat, b: nat,
                    ghost lines: seq<seq<Byte>>)
    returns (last: nat, cur: nat)
    requires src != buf && p.Valid() && p.FitsSource(src.Length) && a < p.srcH && b < p.srcH
    requires IsFiltered(p, src[..], lines)
    requires tags.Length == 2 && p.dstW <= half && buf.Length == 2 * half
    requires SlotOk(lines, tags[0], buf, 0) && SlotOk(lines, tags[1], buf, half)
    modifies tags, buf
    ensures SlotOk(lines, tags[0], buf, 0) && SlotOk(lines, tags[1], buf, half)
    ensures Holds(buf, last, lines[a]) && Holds(buf, cur, lines[b])
  {
    if a == tags[0] {
      last := 0;
    } else if a == tags[1] {
      last := half;
    } else {
      last := 0;
      tags[0] := a;
      FillSlot(src, p, buf, last, a, lines);
    }
    assert SlotOk(lines, tags[0], buf, 0) && SlotOk(lines, tags[1], buf, half);
    assert (last == 0 && tags[0] == a) || (last == half && tags[1] == a && tags[0] != a);
    if b == tags[0] {
      cur := 0;
    } else if b == tags[1] {
      cur := half;
    } else {
      if a == tags[0] {
        tags[1] := b;
        cur := half;
      } else {
        tags[0] := b;
        cur := 0;
      }
      FillSlot(src, p, buf, cur, b, lines);
    }
  }

  /** The vertical filter of one output row. */
  method BlendRow(w: (int, int), buf: array<Byte>, last: nat, cur: nat, n: nat, dst: array<Byte>, pos: nat,
                  ghost x: seq<Byte>, ghost y: seq<Byte>)
    requires buf != dst && |x| == n && |y| == n && Holds(buf, last, x) && Holds(buf, cur, y)
    requires n == 0 || pos + n <= dst.Length
    modifies dst
    ensures forall k :: pos <= k < pos + n ==> dst[k] == VerBlend(w, x[k - pos], y[k - pos])
    ensures forall k :: 0 <= k < dst.Length && !(pos <= k < pos + n) ==> dst[k] == old(dst[k])
  {
    var j := 0;
    while j < n
      invariant 0 <= j <= n
      invariant forall k :: pos <= k < pos + j ==> dst[k] == VerBlend(w, x[k - pos], y[k - pos])
      invariant forall k :: 0 <= k < dst.Length && !(pos <= k < pos + j) ==> dst[k] == old(dst[k])
    {
      assert buf[last + j] == x[j] && buf[cur + j] == y[j];
      dst[pos + j] := VerBlend(w, buf[last + j], buf[cur + j]);
      j := j + 1;
    }
  }

  /** The first `rows` output rows are the cache-free samples. */
  ghost predicate RowsDone(p: Plane, src: seq<Byte>, dst: seq<Byte>, rows: nat)
    requires p.Valid() && p.FitsSource(|src|)
  {
    forall i, j :: 0 <= i < rows && 0 <= j < p.dstW ==> CellOk(p, src, dst, i, j)
  }

  ghost predicate CellOk(p: Plane, src: seq<Byte>, dst: seq<Byte>, i: nat, j: nat)
    requires p.Valid() && p.FitsSource(|src|)
  {
    p.Cell(i, j) < |dst| && dst[p.Cell(i, j)] == p.Pixel(src, i, j)
  }

  /** One iteration of a plane loop of `do_scaler`: output row `i` goes to `pos`. */
  method ScaleRow(src: array<Byte>, p: Plane, tags: array<int>, buf: array<Byte>, half: nat,
                  dst: array<Byte>, pos: nat, i: nat, ghost lines: seq<seq<Byte>>)
    requires src != buf && src != dst && buf != dst
    requires p.Valid() && p.FitsSource(src.Length) && IsFiltered(p, src[..], lines)
    requires tags.Length == 2 && p.dstW <= half && buf.Length == 2 * half
    requires SlotOk(lines, tags[0], buf, 0) && SlotOk(lines, tags[1], buf, half)
    requires p.dstW == 0 || pos + p.dstW <= dst.Length
    modifies tags, buf, dst
    ensures SlotOk(lines, tags[0], buf, 0) && SlotOk(lines, tags[1], buf, half)
    ensures forall k :: pos <= k < pos + p.dstW ==>
      dst[k] == VerBlend(p.cs.ver[i * p.vratio % 256 / 8],
                         lines[p.FirstLine(i)][k - pos], lines[p.SecondLine(i)][k - pos])
    ensures forall k :: 0 <= k < dst.Length && !(pos <= k < pos + p.dstW) ==> dst[k] == old(dst[k])
  {
    hide VerBlend, Holds, HorLine;
    var a := i * p.vratio / 256;
    var phase := i * p.vratio - a * 256;
    if a >= p.srcH { a := p.srcH - 1; }
    var b := a + 1;
    if b >= p.srcH { b := p.srcH - 1; }
    var last, cur := FetchLines(src, p, tags, buf, half, a, b, lines);
    BlendRow(p.cs.ver[phase / 8], buf, last, cur, p.dstW, dst, pos, lines[a], lines[b]);
  }

  /** One of the three plane loops of `do_scaler`. */
  method ScalePlane(src: array<Byte>, p: Plane, buf: array<Byte>, half: nat, dst: array<Byte>, start: nat)
    returns (pos: nat)
    requires src != buf && src != dst && buf != dst
    requires p.Valid() && p.FitsSource(src.Length) && start == p.dstBase && p.CellsBelow(dst.Length)
    requires p.dstW <= half && buf.Length == 2 * half
    modifies buf, dst
    ensures pos == p.DstEnd()
    ensures RowsDone(p, src[..], dst[..], p.dstH)
    ensures forall k :: 0 <= k < p.dstBase && k < dst.Length ==> dst[k] == old(dst[k])
  {
    hide VerBlend, Holds, HorLine, IsFiltered, CellOk;
    ghost var lines := FilteredLines(p, src[..]);
    var tags := new int[2];
    tags[0], tags[1] := -1, -1;
    pos := start;
    var i := 0;
    while i < p.dstH
      invariant 0 <= i <= p.dstH
      invariant p.dstBase <= pos == p.Cell(i, 0)
      invariant SlotOk(lines, tags[0], buf, 0) && SlotOk(lines, tags[1], buf, half)
      invariant RowsDone(p, src[..], dst[..], i)
      invariant forall k :: 0 <= k < p.dstBase && k < dst.Length ==> dst[k] == old(dst[k])
    {
      ghost var before := dst[..];
      RowFits(p, i, dst.Length);
      ScaleRow(src, p, tags, buf, half, dst, pos, i, lines);
      RowStep(p, src[..], lines, before, dst[..], i);
      pos := pos + p.dstStride;
      i := i + 1;
    }
  }

  ghost function FilteredLines(p: Plane, src: seq<Byte>): (lines: seq<seq<Byte>>)
    requires p.Valid() && p.FitsSource(|src|)
    ensures IsFiltered(p, src, lines)
  {
    seq(p.srcH, n requires 0 <= n < p.srcH => HorLine(p.cs, p.Line(src, n), p.hratio, p.dstW))
  }

  lemma RowFits(p: Plane, i: nat, n: nat)
    requires p.Valid() && i < p.dstH && p.CellsBelow(n)
    ensures p.dstBase <= p.Cell(i, 0)
    ensures p.Cell(i, 0) + p.dstStride == p.Cell(i + 1, 0) <= p.DstEnd()
    ensures p.dstW > 0 ==> p.Cell(i, 0) + p.dstW <= n
  {
    MulMono(i + 1, p.dstH, p.dstStride);
    if p.dstW > 0 {
      assert p.Cell(i, p.dstW - 1) < n;
    }
  }

  lemma RowStep(p: Plane, src: seq<Byte>, lines: seq<seq<Byte>>, before: seq<Byte>, after: seq<Byte>, i: nat)
    requires p.Valid() && p.FitsSource(|src|) && i < p.dstH && |before| == |after|
    requires IsFiltered(p, src, lines) && RowsDone(p, src, before, i)
    requires p.dstW == 0 || p.Cell(i, 0) + p.dstW <= |after|
    requires forall k :: p.Cell(i, 0) <= k < p.Cell(i, 0) + p.dstW ==>
      after[k] == VerBlend(p.cs.ver[i * p.vratio % 256 / 8],
                           lines[p.FirstLine(i)][k - p.Cell(i, 0)], lines[p.SecondLine(i)][k - p.Cell(i, 0)])
    requires forall k :: 0 <= k < |after| && !(p.Cell(i, 0) <= k < p.Cell(i, 0) + p.dstW) ==> after[k] == before[k]
    ensures RowsDone(p, src, after, i + 1)
  {
    forall i', j | 0 <= i' < i + 1 && 0 <= j < p.dstW
      ensures CellOk(p, src, after, i', j)
    {
      if i' < i {
        assert CellOk(p, src, before, i', j);
        p.RowsApart(i', i, j);
      } else {
        assert p.Cell(i, j) == p.Cell(i, 0) + j;
      }
    }
  }
}
