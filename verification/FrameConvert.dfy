/**
  The 4:2:0 layout converters of camera/1_0/CallbackNotifier.cpp: interleaved chroma
  (NV12, NV21) to planar YVU420 and back.  For even widths a frame of `w * h` luma bytes is
  followed by `w/2 * h/2` chroma pairs without gaps; `FrameCells` has the layout for all widths.
 */
module FrameConvert {
  import opened Basics
  import opened FrameCells

  /** Number of chroma pairs of a frame. */
  function Pairs(w: nat, h: nat): nat { w / 2 * (h / 2) }

  function FrameSize(w: nat, h: nat): nat { w * h + 2 * Pairs(w, h) }

  /** Byte `o` of every chroma pair goes to the first plane, the other byte to the second. */
  function SplitChroma(src: seq<Byte>, y: nat, m: nat, o: nat): (r: seq<Byte>)
    requires |src| == y + 2 * m && o < 2
    ensures |r| == |src|
  {
    src[..y] + seq(m, t requires 0 <= t < m => src[y + 2 * t + o]) +
    seq(m, t requires 0 <= t < m => src[y + 2 * t + 1 - o])
  }

  /** The first plane goes to the odd bytes of the pairs, the second plane to the even ones. */
  function MergeChroma(src: seq<Byte>, y: nat, m: nat): (r: seq<Byte>)
    requires |src| == y + 2 * m
    ensures |r| == |src|
  {
    src[..y] + seq(2 * m, k requires 0 <= k < 2 * m => if k % 2 == 1 then src[y + k / 2] else src[y + m + k / 2])
  }

  // ---------------------------------------------------------------- the theorems

  lemma SplitAt(src: seq<Byte>, y: nat, m: nat, o: nat, t: nat)
    requires |src| == y + 2 * m && o < 2 && t < m
    ensures SplitChroma(src, y, m, o)[y + t] == src[y + 2 * t + o]
    ensures SplitChroma(src, y, m, o)[y + m + t] == src[y + 2 * t + 1 - o]
  {
  }

  lemma MergeAt(src: seq<Byte>, y: nat, m: nat, t: nat)
    requires |src| == y + 2 * m && t < m
    ensures MergeChroma(src, y, m)[y + 2 * t + 1] == src[y + t]
    ensures MergeChroma(src, y, m)[y + 2 * t] == src[y + m + t]
  {
  }

  lemma LumaKept(src: seq<Byte>, y: nat, m: nat, o: nat, k: nat)
    requires |src| == y + 2 * m && o < 2 && k < y
    ensures SplitChroma(src, y, m, o)[k] == src[k] && MergeChroma(src, y, m)[k] == src[k]
  {
  }

  /** Merging undoes the NV21 split. */
  lemma MergeAfterSplit(src: seq<Byte>, y: nat, m: nat)
    requires |src| == y + 2 * m
    ensures MergeChroma(SplitChroma(src, y, m, 1), y, m) == src
  {
    hide SplitChroma, MergeChroma;
    var s := SplitChroma(src, y, m, 1);
    var r := MergeChroma(s, y, m);
    forall k | 0 <= k < |src|
      ensures r[k] == src[k]
    {
      if k < y {
        LumaKept(src, y, m, 1, k);
        LumaKept(s, y, m, 1, k);
      } else {
        var t := (k - y) / 2;
        SplitAt(src, y, m, 1, t);
        MergeAt(s, y, m, t);
        assert k == y + 2 * t || k == y + 2 * t + 1;
      }
    }
  }

  /** The NV21 split undoes merging. */
  lemma SplitAfterMerge(src: seq<Byte>, y: nat, m: nat)
    requires |src| == y + 2 * m
    ensures SplitChroma(MergeChroma(src, y, m), y, m, 1) == src
  {
    hide SplitChroma, MergeChroma;
    var s := MergeChroma(src, y, m);
    var r := SplitChroma(s, y, m, 1);
    forall k | 0 <= k < |src|
      ensures r[k] == src[k]
    {
      if k < y {
        LumaKept(src, y, m, 1, k);
        LumaKept(s, y, m, 1, k);
      } else {
        var t := if k < y + m then k - y else k - y - m;
        MergeAt(src, y, m, t);
        SplitAt(s, y, m, 1, t);
        assert k == y + t || k == y + m + t;
      }
    }
  }

  /** Merging an NV12 split swaps every chroma pair and changes nothing else. */
  lemma MergeAfterNv12Split(src: seq<Byte>, y: nat, m: nat)
    requires |src| == y + 2 * m
    ensures MergeChroma(SplitChroma(src, y, m, 0), y, m)[..y] == src[..y]
    ensures forall t :: 0 <= t < m ==>
      && MergeChroma(SplitChroma(src, y, m, 0), y, m)[y + 2 * t] == src[y + 2 * t + 1]
      && MergeChroma(SplitChroma(src, y, m, 0), y, m)[y + 2 * t + 1] == src[y + 2 * t]
  {
    forall t | 0 <= t < m
      ensures MergeChroma(SplitChroma(src, y, m, 0), y, m)[y + 2 * t] == src[y + 2 * t + 1]
      ensures MergeChroma(SplitChroma(src, y, m, 0), y, m)[y + 2 * t + 1] == src[y + 2 * t]
    {
      SplitAt(src, y, m, 0, t);
      MergeAt(SplitChroma(src, y, m, 0), y, m, t);
    }
  }

  // ---------------------------------------------------------------- even widths

  /** The cell that holds chroma pair `t` of an even width. */
  lemma PairCell(w: nat, h: nat, t: nat) returns (i: nat, j: nat)
    requires w % 2 == 0 && t < Pairs(w, h)
    ensures Cell(w, h, i, j) && InPlane(w, i, j) == t && PairAt(w, h, i, j) == w * h + 2 * t
  {
    var a := w / 2;
    assert a > 0 && a * (h / 2) == h / 2 * a;
    i, j := t / a, t % a;
    DivMod(t, a);
    DivAtLeast(t, a, h / 2);
    assert i * w == 2 * (i * a) by { assert w == 2 * a; }
  }

  lemma EvenSize(w: nat, h: nat)
    requires w % 2 == 0
    ensures FrameSize(w, h) == FrameBytes(w, h)
  {
    var a, n := w / 2, h / 2;
    assert n * w == 2 * (n * a) by { assert w == 2 * a; }
    assert n * a == a * n;
  }

  /** For even widths a split frame is the one without gaps. */
  lemma EvenSplit(src: seq<Byte>, dst: seq<Byte>, w: nat, h: nat, o: nat)
    requires IsSplit(src, dst, w, h, o) && w % 2 == 0
    ensures FrameSize(w, h) == FrameBytes(w, h)
    ensures dst[..FrameSize(w, h)] == SplitChroma(src[..FrameSize(w, h)], w * h, Pairs(w, h), o)
  {
    EvenSize(w, h);
    var n, y, m := FrameSize(w, h), w * h, Pairs(w, h);
    forall t | 0 <= t < m ensures dst[y + t] == src[y + 2 * t + o] && dst[y + m + t] == src[y + 2 * t + 1 - o] {
      EvenSplitPair(src, dst, w, h, o, t);
    }
    SplitResult(src[..n], dst[..n], y, m, o);
  }

  lemma EvenSplitPair(src: seq<Byte>, dst: seq<Byte>, w: nat, h: nat, o: nat, t: nat)
    requires IsSplit(src, dst, w, h, o) && w % 2 == 0 && t < Pairs(w, h) && FrameSize(w, h) == FrameBytes(w, h)
    ensures dst[w * h + t] == src[w * h + 2 * t + o]
    ensures dst[w * h + Pairs(w, h) + t] == src[w * h + 2 * t + 1 - o]
  {
    hide FrameBytes, InFirst, InPlane, PairAt;
    var i, j := PairCell(w, h, t);
    assert FirstOk(src, dst, w, h, o, i, j) && SecondOk(src, dst, w, h, o, i, j);
    NeverMeet(w, h, i, j);
  }

  lemma SplitResult(src: seq<Byte>, dst: seq<Byte>, y: nat, m: nat, o: nat)
    requires |src| == y + 2 * m == |dst| && o < 2
    requires forall k :: 0 <= k < y ==> dst[k] == src[k]
    requires forall t :: 0 <= t < m ==> dst[y + t] == src[y + 2 * t + o]
    requires forall t :: 0 <= t < m ==> dst[y + m + t] == src[y + 2 * t + 1 - o]
    ensures dst == SplitChroma(src, y, m, o)
  {
    var r := SplitChroma(src, y, m, o);
    forall k | y <= k < |src|
      ensures dst[k] == r[k]
    {
      var t := if k < y + m then k - y else k - y - m;
      SplitAt(src, y, m, o, t);
      assert k == y + t || k == y + m + t;
    }
  }

  /** For even widths a merged frame is the one without gaps. */
  lemma EvenMerge(src: seq<Byte>, dst: seq<Byte>, w: nat, h: nat)
    requires IsMerge(src, dst, w, h) && w % 2 == 0
    ensures FrameSize(w, h) == FrameBytes(w, h)
    ensures dst[..FrameSize(w, h)] == MergeChroma(src[..FrameSize(w, h)], w * h, Pairs(w, h))
  {
    EvenSize(w, h);
    var n, y, m := FrameSize(w, h), w * h, Pairs(w, h);
    forall t | 0 <= t < m ensures dst[y + 2 * t + 1] == src[y + t] && dst[y + 2 * t] == src[y + m + t] {
      var i, j := PairCell(w, h, t);
      assert PairOk(src, dst, w, h, i, j);
    }
    MergeResult(src[..n], dst[..n], y, m);
  }

  lemma MergeResult(src: seq<Byte>, dst: seq<Byte>, y: nat, m: nat)
    requires |src| == y + 2 * m == |dst|
    requires forall k :: 0 <= k < y ==> dst[k] == src[k]
    requires forall t :: 0 <= t < m ==> dst[y + 2 * t + 1] == src[y + t]
    requires forall t :: 0 <= t < m ==> dst[y + 2 * t] == src[y + m + t]
    ensures dst == MergeChroma(src, y, m)
  {
    var r := MergeChroma(src, y, m);
    forall k | y <= k < |src|
      ensures dst[k] == r[k]
    {
      var t := (k - y) / 2;
      MergeAt(src, y, m, t);
      assert k == y + 2 * t || k == y + 2 * t + 1;
    }
  }

  // ---------------------------------------------------------------- the luma loop

  /** One row of the luma loop: `w` bytes from position `at`. */
  method CopyRow(psrc: array<Byte>, pdst: array<Byte>, at: nat, w: nat)
    requires psrc != pdst && at + w <= psrc.Length && at + w <= pdst.Length
    modifies pdst
    ensures forall k :: at <= k < at + w ==> pdst[k] == psrc[k]
    ensures forall k :: 0 <= k < pdst.Length && !(at <= k < at + w) ==> pdst[k] == old(pdst[k])
  {
    var j := 0;
    while j < w
      invariant 0 <= j <= w
      invariant forall k :: at <= k < at + j ==> pdst[k] == psrc[k]
      invariant forall k :: 0 <= k < pdst.Length && !(at <= k < at + j) ==> pdst[k] == old(pdst[k])
    {
      pdst[at + j] := psrc[at + j];
      j := j + 1;
    }
  }

  /** The luma loop all three converters start with. */
  method CopyLuma(psrc: array<Byte>, pdst: array<Byte>, w: nat, h: nat)
    requires psrc != pdst && w * h <= psrc.Length && w * h <= pdst.Length
    modifies pdst
    ensures forall k :: 0 <= k < w * h ==> pdst[k] == psrc[k]
    ensures forall k :: w * h <= k < pdst.Length ==> pdst[k] == old(pdst[k])
  {
    var i := 0;
    while i < h
      invariant 0 <= i <= h
      invariant i * w <= w * h
      invariant forall k :: 0 <= k < i * w ==> pdst[k] == psrc[k]
      invariant forall k :: i * w <= k < pdst.Length ==> pdst[k] == old(pdst[k])
    {
      NextProduct(i, h, w);
      assert (i + 1) * w == i * w + w && h * w == w * h;
      CopyRow(psrc, pdst, i * w, w);
      i := i + 1;
    }
  }

  // ---------------------------------------------------------------- the chroma loops

  /** The first `n` chroma rows are split. */
  ghost predicate RowsSplit(src: seq<Byte>, dst: seq<Byte>, w: nat, h: nat, o: nat, n: nat)
    requires Sized(src, w, h) && Sized(dst, w, h) && o < 2
  {
    && (forall i, j :: Cell(w, h, i, j) && i < n ==> FirstOk(src, dst, w, h, o, i, j))
    && (forall i, j :: Cell(w, h, i, j) && i < n ==> SecondOk(src, dst, w, h, o, i, j))
  }

  /** `at` is in the part of row `i` that starts at `start`. */
  predicate InRow(w: nat, start: nat, at: int) { start <= at < start + w / 2 }

  /** Places in a row are cells. */
  lemma RowCells(w: nat, h: nat, i: nat, k: nat)
    requires i < h / 2
    ensures InRow(w, FirstAt(w, h, i, 0), k) ==> InFirst(w, h, k)
    ensures InRow(w, SecondAt(w, h, i, 0), k) ==> InSecond(w, h, k)
  {
    if InRow(w, FirstAt(w, h, i, 0), k) {
      var j := k - FirstAt(w, h, i, 0);
      assert Cell(w, h, i, j) && FirstAt(w, h, i, j) == k;
    }
    if InRow(w, SecondAt(w, h, i, 0), k) {
      var j := k - SecondAt(w, h, i, 0);
      assert Cell(w, h, i, j) && SecondAt(w, h, i, j) == k;
    }
  }

  /** A row of each plane and a row of pairs lie inside the frame. */
  lemma RowFits(w: nat, h: nat, i: nat)
    requires i < h / 2 && w / 2 > 0
    ensures FirstAt(w, h, i, 0) + w / 2 <= SecondAt(w, h, i, 0)
    ensures SecondAt(w, h, i, 0) + w / 2 <= FrameBytes(w, h) && PairAt(w, h, i, 0) + 2 * (w / 2) <= FrameBytes(w, h)
  {
    PlaneSize(w, h, i, w / 2 - 1);
  }

  /** One row of the chroma loop of `NV12ToYVU420` (`o == 0`) or `NV21ToYVU420` (`o == 1`). */
  method SplitRow(psrc: array<Byte>, pdst: array<Byte>, from: nat, first: nat, second: nat, n: nat, o: nat)
    requires psrc != pdst && o < 2 && first + n <= second
    requires from + 2 * n <= psrc.Length && second + n <= pdst.Length
    modifies pdst
    ensures forall j :: 0 <= j < n ==> pdst[first + j] == psrc[from + j * 2 + o]
    ensures forall j :: 0 <= j < n ==> pdst[second + j] == psrc[from + j * 2 + 1 - o]
    ensures forall k :: 0 <= k < pdst.Length && !(first <= k < first + n) && !(second <= k < second + n) ==>
      pdst[k] == old(pdst[k])
  {
    var j := 0;
    while j < n
      invariant 0 <= j <= n
      invariant forall x :: 0 <= x < j ==> pdst[first + x] == psrc[from + x * 2 + o]
      invariant forall x :: 0 <= x < j ==> pdst[second + x] == psrc[from + x * 2 + 1 - o]
      invariant forall k ::
        0 <= k < pdst.Length && !(first <= k < first + j) && !(second <= k < second + j) ==> pdst[k] == old(pdst[k])
    {
      pdst[first + j] := psrc[from + j * 2 + o];
      pdst[second + j] := psrc[from + j * 2 + 1 - o];
      j := j + 1;
    }
  }

  /** What one row of the split writes. */
  ghost predicate RowSplit(src: seq<Byte>, before: seq<Byte>, after: seq<Byte>, w: nat, h: nat, o: nat, i: nat)
    requires Sized(src, w, h) && Sized(before, w, h) && |before| == |after| && o < 2 && i < h / 2
  {
    && (forall j :: Cell(w, h, i, j) ==> FirstOk(src, after, w, h, o, i, j))
    && (forall j :: Cell(w, h, i, j) ==> SecondOk(src, after, w, h, o, i, j))
    && (forall k :: 0 <= k < |after| && !InRow(w, FirstAt(w, h, i, 0), k) && !InRow(w, SecondAt(w, h, i, 0), k) ==>
          after[k] == before[k])
  }

  /** A later row leaves the cells of earlier rows, except second-plane bytes under cells of the first plane. */
  lemma SplitKept(src: seq<Byte>, before: seq<Byte>, after: seq<Byte>, w: nat, h: nat, o: nat, i: nat, i': nat, j': nat)
    requires Sized(src, w, h) && Sized(before, w, h) && |before| == |after| && o < 2 && i < h / 2
    requires RowSplit(src, before, after, w, h, o, i) && Cell(w, h, i', j') && i' < i
    requires FirstOk(src, before, w, h, o, i', j') && SecondOk(src, before, w, h, o, i', j')
    ensures FirstOk(src, after, w, h, o, i', j') && SecondOk(src, after, w, h, o, i', j')
  {
    CellInside(w, h, i', j');
    CellOrder(w, h, i', j', i, 0);
    FirstBeforeSecond(w, h, i', j', i, 0);
    RowCells(w, h, i, SecondAt(w, h, i', j'));
  }

  lemma SplitStep(src: seq<Byte>, before: seq<Byte>, after: seq<Byte>, w: nat, h: nat, o: nat, i: nat)
    requires Sized(src, w, h) && Sized(before, w, h) && |before| == |after| && o < 2 && i < h / 2
    requires RowsSplit(src, before, w, h, o, i) && RowSplit(src, before, after, w, h, o, i)
    ensures RowsSplit(src, after, w, h, o, i + 1)
  {
    hide FirstOk, SecondOk;
    forall i', j' | Cell(w, h, i', j') && i' < i + 1
      ensures FirstOk(src, after, w, h, o, i', j') && SecondOk(src, after, w, h, o, i', j')
    {
      if i' < i {
        SplitKept(src, before, after, w, h, o, i, i', j');
      }
    }
  }

  /** Row `i` of the chroma loop of the two split converters. */
  method SplitRowAt(psrc: array<Byte>, pdst: array<Byte>, w: nat, h: nat, o: nat, i: nat)
    requires psrc != pdst && o < 2 && i < h / 2 && Sized(psrc[..], w, h) && Sized(pdst[..], w, h)
    modifies pdst
    ensures RowSplit(psrc[..], old(pdst[..]), pdst[..], w, h, o, i)
  {
    hide RowSplit;
    hide FirstAt, SecondAt, PairAt, FrameBytes;
    ghost var before := pdst[..];
    if w / 2 > 0 {
      RowFits(w, h, i);
      SplitRow(psrc, pdst, PairAt(w, h, i, 0), FirstAt(w, h, i, 0), SecondAt(w, h, i, 0), w / 2, o);
    }
    RowSplitIs(psrc[..], before, pdst[..], w, h, o, i);
  }

  lemma RowSplitIs(src: seq<Byte>, before: seq<Byte>, after: seq<Byte>, w: nat, h: nat, o: nat, i: nat)
    requires Sized(src, w, h) && Sized(before, w, h) && |before| == |after| && o < 2 && i < h / 2
    requires forall j :: 0 <= j < w / 2 ==> (CellInside(w, h, i, j);
      after[FirstAt(w, h, i, 0) + j] == src[PairAt(w, h, i, 0) + j * 2 + o])
    requires forall j :: 0 <= j < w / 2 ==> (CellInside(w, h, i, j);
      after[SecondAt(w, h, i, 0) + j] == src[PairAt(w, h, i, 0) + j * 2 + 1 - o])
    requires forall k :: 0 <= k < |after| && !InRow(w, FirstAt(w, h, i, 0), k) && !InRow(w, SecondAt(w, h, i, 0), k) ==>
      after[k] == before[k]
    ensures RowSplit(src, before, after, w, h, o, i)
  {
    forall j | Cell(w, h, i, j) ensures FirstOk(src, after, w, h, o, i, j) && SecondOk(src, after, w, h, o, i, j) {
      CellInside(w, h, i, j);
    }
  }

  /** The chroma loop of the two split converters. */
  method SplitLoop(psrc: array<Byte>, pdst: array<Byte>, w: nat, h: nat, o: nat)
    requires psrc != pdst && o < 2 && Sized(psrc[..], w, h) && Sized(pdst[..], w, h)
    modifies pdst
    ensures RowsSplit(psrc[..], pdst[..], w, h, o, h / 2)
    ensures forall k :: 0 <= k < pdst.Length && !InFirst(w, h, k) && !InSecond(w, h, k) ==> pdst[k] == old(pdst[k])
  {
    hide FirstOk, SecondOk, InFirst, InSecond, InRow, FrameBytes, FirstAt, SecondAt;
    var i := 0;
    while i < h / 2
      invariant 0 <= i <= h / 2
      invariant RowsSplit(psrc[..], pdst[..], w, h, o, i)
      invariant forall k :: 0 <= k < pdst.Length && !InFirst(w, h, k) && !InSecond(w, h, k) ==> pdst[k] == old(pdst[k])
    {
      ghost var before := pdst[..];
      SplitRowAt(psrc, pdst, w, h, o, i);
      SplitStep(psrc[..], before, pdst[..], w, h, o, i);
      forall k: nat | k < pdst.Length && !InFirst(w, h, k) && !InSecond(w, h, k) ensures pdst[k] == before[k] {
        RowCells(w, h, i, k);
      }
      i := i + 1;
    }
  }

  /** The luma loop and the chroma loop of a split converter. */
  method Split(psrc: array<Byte>, pdst: array<Byte>, w: nat, h: nat, o: nat)
    requires psrc != pdst && o < 2 && FrameBytes(w, h) <= psrc.Length && FrameBytes(w, h) <= pdst.Length
    modifies pdst
    ensures IsSplit(psrc[..], pdst[..], w, h, o)
    ensures forall k :: w * h <= k < pdst.Length && !InFirst(w, h, k) && !InSecond(w, h, k) ==> pdst[k] == old(pdst[k])
  {
    CopyLuma(psrc, pdst, w, h);
    ghost var luma := pdst[..];
    SplitLoop(psrc, pdst, w, h, o);
    forall k | 0 <= k < w * h ensures pdst[k] == luma[k] {
      ChromaBehind(w, h, k);
    }
  }

  /** No chroma byte lies behind the frame. */
  lemma ChromaInFrame(w: nat, h: nat)
    ensures forall k: nat :: FrameBytes(w, h) <= k ==> !InFirst(w, h, k) && !InSecond(w, h, k) && NoPair(w, h, k)
  {
    forall k: nat | FrameBytes(w, h) <= k ensures !InFirst(w, h, k) && !InSecond(w, h, k) && NoPair(w, h, k) {
      forall i, j | Cell(w, h, i, j)
        ensures FirstAt(w, h, i, j) != k && SecondAt(w, h, i, j) != k && PairAt(w, h, i, j) + 1 < k
      {
        CellInside(w, h, i, j);
      }
    }
  }

  lemma ChromaBehind(w: nat, h: nat, k: nat)
    requires k < w * h
    ensures !InFirst(w, h, k) && !InSecond(w, h, k)
  {
  }

  /** `NV12ToYVU420` */
  method Nv12ToYvu420(psrc: array<Byte>, pdst: array<Byte>, w: nat, h: nat)
    requires psrc != pdst && FrameBytes(w, h) <= psrc.Length && FrameBytes(w, h) <= pdst.Length
    modifies pdst
    ensures IsSplit(psrc[..], pdst[..], w, h, 0)
    ensures w % 2 == 0 ==> FrameSize(w, h) == FrameBytes(w, h)
    ensures w % 2 == 0 ==> pdst[..FrameSize(w, h)] == SplitChroma(psrc[..FrameSize(w, h)], w * h, Pairs(w, h), 0)
    ensures forall k :: w * h <= k < pdst.Length && !InFirst(w, h, k) && !InSecond(w, h, k) ==> pdst[k] == old(pdst[k])
    ensures forall k :: w * h + h / 2 * w <= k < pdst.Length ==> pdst[k] == old(pdst[k])
  {
    ChromaInFrame(w, h);
    Split(psrc, pdst, w, h, 0);
    SplitExact(psrc, pdst, w, h, 0);
  }

  /** `NV21ToYVU420` */
  method Nv21ToYvu420(psrc: array<Byte>, pdst: array<Byte>, w: nat, h: nat)
    requires psrc != pdst && FrameBytes(w, h) <= psrc.Length && FrameBytes(w, h) <= pdst.Length
    modifies pdst
    ensures IsSplit(psrc[..], pdst[..], w, h, 1)
    ensures w % 2 == 0 ==> FrameSize(w, h) == FrameBytes(w, h)
    ensures w % 2 == 0 ==> pdst[..FrameSize(w, h)] == SplitChroma(psrc[..FrameSize(w, h)], w * h, Pairs(w, h), 1)
    ensures forall k :: w * h <= k < pdst.Length && !InFirst(w, h, k) && !InSecond(w, h, k) ==> pdst[k] == old(pdst[k])
    ensures forall k :: w * h + h / 2 * w <= k < pdst.Length ==> pdst[k] == old(pdst[k])
  {
    ChromaInFrame(w, h);
    Split(psrc, pdst, w, h, 1);
    SplitExact(psrc, pdst, w, h, 1);
  }

  lemma SplitExact(psrc: array<Byte>, pdst: array<Byte>, w: nat, h: nat, o: nat)
    requires IsSplit(psrc[..], pdst[..], w, h, o)
    ensures w % 2 == 0 ==> FrameSize(w, h) == FrameBytes(w, h)
    ensures w % 2 == 0 ==> pdst[..FrameSize(w, h)] == SplitChroma(psrc[..FrameSize(w, h)], w * h, Pairs(w, h), o)
  {
    if w % 2 == 0 {
      EvenSplit(psrc[..], pdst[..], w, h, o);
      assert pdst[..][..FrameSize(w, h)] == pdst[..FrameSize(w, h)];
      assert psrc[..][..FrameSize(w, h)] == psrc[..FrameSize(w, h)];
    }
  }

  // ---------------------------------------------------------------- and back

  ghost predicate RowsMerged(src: seq<Byte>, dst: seq<Byte>, w: nat, h: nat, n: nat)
    requires Sized(src, w, h) && Sized(dst, w, h)
  {
    forall i, j :: Cell(w, h, i, j) && i < n ==> PairOk(src, dst, w, h, i, j)
  }

  /** `k` is a chroma byte of row `i` in the interleaved formats. */
  predicate InPairs(w: nat, h: nat, i: nat, k: int) {
    PairAt(w, h, i, 0) <= k < PairAt(w, h, i, 0) + 2 * (w / 2)
  }

  /** One row of the chroma loop of `YVU420ToNV21`. */
  method MergeRow(psrc: array<Byte>, pdst: array<Byte>, to: nat, first: nat, second: nat, n: nat)
    requires psrc != pdst && first + n <= psrc.Length && second + n <= psrc.Length && to + 2 * n <= pdst.Length
    modifies pdst
    ensures forall j :: 0 <= j < n ==> pdst[to + j * 2 + 1] == psrc[first + j]
    ensures forall j :: 0 <= j < n ==> pdst[to + j * 2] == psrc[second + j]
    ensures forall k :: 0 <= k < pdst.Length && !(to <= k < to + 2 * n) ==> pdst[k] == old(pdst[k])
  {
    var j := 0;
    while j < n
      invariant 0 <= j <= n
      invariant forall x :: 0 <= x < j ==> pdst[to + x * 2 + 1] == psrc[first + x]
      invariant forall x :: 0 <= x < j ==> pdst[to + x * 2] == psrc[second + x]
      invariant forall k :: 0 <= k < pdst.Length && !(to <= k < to + 2 * j) ==> pdst[k] == old(pdst[k])
    {
      pdst[to + j * 2 + 1] := psrc[first + j];
      pdst[to + j * 2] := psrc[second + j];
      j := j + 1;
    }
  }

  ghost predicate RowMerged(src: seq<Byte>, before: seq<Byte>, after: seq<Byte>, w: nat, h: nat, i: nat)
    requires Sized(src, w, h) && Sized(before, w, h) && |before| == |after| && i < h / 2
  {
    && (forall j :: Cell(w, h, i, j) ==> PairOk(src, after, w, h, i, j))
    && (forall k :: 0 <= k < |after| && !InPairs(w, h, i, k) ==> after[k] == before[k])
  }

  lemma MergeKept(src: seq<Byte>, before: seq<Byte>, after: seq<Byte>, w: nat, h: nat, i: nat, i': nat, j': nat)
    requires Sized(src, w, h) && Sized(before, w, h) && |before| == |after| && i < h / 2
    requires RowMerged(src, before, after, w, h, i) && Cell(w, h, i', j') && i' < i
    requires PairOk(src, before, w, h, i', j')
    ensures PairOk(src, after, w, h, i', j')
  {
    CellInside(w, h, i', j');
    CellOrder(w, h, i', j', i, 0);
  }

  lemma MergeStep(src: seq<Byte>, before: seq<Byte>, after: seq<Byte>, w: nat, h: nat, i: nat)
    requires Sized(src, w, h) && Sized(before, w, h) && |before| == |after| && i < h / 2
    requires RowsMerged(src, before, w, h, i) && RowMerged(src, before, after, w, h, i)
    ensures RowsMerged(src, after, w, h, i + 1)
  {
    hide PairOk;
    forall i', j' | Cell(w, h, i', j') && i' < i + 1 ensures PairOk(src, after, w, h, i', j') {
      if i' < i {
        MergeKept(src, before, after, w, h, i, i', j');
      }
    }
  }

  /** Row `i` of the chroma loop of `YVU420ToNV21`. */
  method MergeRowAt(psrc: array<Byte>, pdst: array<Byte>, w: nat, h: nat, i: nat)
    requires psrc != pdst && i < h / 2 && Sized(psrc[..], w, h) && Sized(pdst[..], w, h)
    modifies pdst
    ensures RowMerged(psrc[..], old(pdst[..]), pdst[..], w, h, i)
  {
    hide RowMerged;
    hide FirstAt, SecondAt, PairAt, FrameBytes;
    ghost var before := pdst[..];
    if w / 2 > 0 {
      RowFits(w, h, i);
      MergeRow(psrc, pdst, PairAt(w, h, i, 0), FirstAt(w, h, i, 0), SecondAt(w, h, i, 0), w / 2);
    }
    RowMergedIs(psrc[..], before, pdst[..], w, h, i);
  }

  lemma RowMergedIs(src: seq<Byte>, before: seq<Byte>, after: seq<Byte>, w: nat, h: nat, i: nat)
    requires Sized(src, w, h) && Sized(before, w, h) && |before| == |after| && i < h / 2
    requires forall j :: 0 <= j < w / 2 ==> (CellInside(w, h, i, j);
      after[PairAt(w, h, i, 0) + j * 2 + 1] == src[FirstAt(w, h, i, 0) + j])
    requires forall j :: 0 <= j < w / 2 ==> (CellInside(w, h, i, j);
      after[PairAt(w, h, i, 0) + j * 2] == src[SecondAt(w, h, i, 0) + j])
    requires forall k :: 0 <= k < |after| && !InPairs(w, h, i, k) ==> after[k] == before[k]
    ensures RowMerged(src, before, after, w, h, i)
  {
    forall j | Cell(w, h, i, j) ensures PairOk(src, after, w, h, i, j) {
      CellInside(w, h, i, j);
    }
  }

  /** The places of a row in the interleaved formats lie behind the luma and belong to pairs. */
  lemma PairsAre(w: nat, h: nat, i: nat, k: nat)
    requires i < h / 2 && InPairs(w, h, i, k)
    ensures w * h <= k && (IsPair(w, h, k) || (k > 0 && IsPair(w, h, k - 1)))
  {
    var j := (k - PairAt(w, h, i, 0)) / 2;
    assert Cell(w, h, i, j) && (PairAt(w, h, i, j) == k || PairAt(w, h, i, j) == k - 1);
  }

  /** `k` is no chroma byte of the interleaved formats. */
  ghost predicate NoPair(w: nat, h: nat, k: nat) { !IsPair(w, h, k) && (k == 0 || !IsPair(w, h, k - 1)) }

  /** The chroma loop of `YVU420ToNV21`. */
  method MergeLoop(psrc: array<Byte>, pdst: array<Byte>, w: nat, h: nat)
    requires psrc != pdst && Sized(psrc[..], w, h) && Sized(pdst[..], w, h)
    modifies pdst
    ensures RowsMerged(psrc[..], pdst[..], w, h, h / 2)
    ensures forall k :: 0 <= k < pdst.Length && (k < w * h || NoPair(w, h, k)) ==> pdst[k] == old(pdst[k])
  {
    hide PairOk, IsPair, InPairs, FrameBytes, PairAt;
    var i := 0;
    while i < h / 2
      invariant 0 <= i <= h / 2
      invariant RowsMerged(psrc[..], pdst[..], w, h, i)
      invariant forall k :: 0 <= k < pdst.Length && (k < w * h || NoPair(w, h, k)) ==> pdst[k] == old(pdst[k])
    {
      ghost var before := pdst[..];
      MergeRowAt(psrc, pdst, w, h, i);
      MergeStep(psrc[..], before, pdst[..], w, h, i);
      forall k: nat | k < pdst.Length && (k < w * h || NoPair(w, h, k)) ensures pdst[k] == before[k] {
        if InPairs(w, h, i, k) { PairsAre(w, h, i, k); }
      }
      i := i + 1;
    }
  }

  /** `YVU420ToNV21` */
  method Yvu420ToNv21(psrc: array<Byte>, pdst: array<Byte>, w: nat, h: nat)
    requires psrc != pdst && FrameBytes(w, h) <= psrc.Length && FrameBytes(w, h) <= pdst.Length
    modifies pdst
    ensures IsMerge(psrc[..], pdst[..], w, h)
    ensures w % 2 == 0 ==> FrameSize(w, h) == FrameBytes(w, h)
    ensures w % 2 == 0 ==> pdst[..FrameSize(w, h)] == MergeChroma(psrc[..FrameSize(w, h)], w * h, Pairs(w, h))
    ensures forall k :: w * h <= k < pdst.Length && NoPair(w, h, k) ==> pdst[k] == old(pdst[k])
    ensures forall k :: w * h + h / 2 * w <= k < pdst.Length ==> pdst[k] == old(pdst[k])
  {
    ChromaInFrame(w, h);
    CopyLuma(psrc, pdst, w, h);
    MergeLoop(psrc, pdst, w, h);
    MergeExact(psrc, pdst, w, h);
  }

  lemma MergeExact(psrc: array<Byte>, pdst: array<Byte>, w: nat, h: nat)
    requires IsMerge(psrc[..], pdst[..], w, h)
    ensures w % 2 == 0 ==> FrameSize(w, h) == FrameBytes(w, h)
    ensures w % 2 == 0 ==> pdst[..FrameSize(w, h)] == MergeChroma(psrc[..FrameSize(w, h)], w * h, Pairs(w, h))
  {
    if w % 2 == 0 {
      EvenMerge(psrc[..], pdst[..], w, h);
      assert pdst[..][..FrameSize(w, h)] == pdst[..FrameSize(w, h)];
      assert psrc[..][..FrameSize(w, h)] == psrc[..FrameSize(w, h)];
    }
  }
}
