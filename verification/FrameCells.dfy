/**
  Where the layout converters of camera/1_0/CallbackNotifier.cpp read and write.  Chroma cell
  `(i, j)` is a pair of bytes in the interleaved formats, and a byte in each of two planes in
  the planar format.  For odd widths rows of a plane start at rounded positions, so the first
  plane can run into the second one.
 */
module FrameCells {
  import opened Basics

  /** A frame of `w` by `h` pixels: luma, and chroma rows of width `w` for every second line. */
  function FrameBytes(w: nat, h: nat): nat { w * h + h / 2 * w }

  predicate Cell(w: nat, h: nat, i: int, j: int) { 0 <= i < h / 2 && 0 <= j < w / 2 }

  /** First byte of the pair of a cell in the interleaved formats. */
  function PairAt(w: nat, h: nat, i: nat, j: nat): nat { w * h + i * w + j * 2 }

  /** Offset of a cell in its plane. */
  function InPlane(w: nat, i: nat, j: nat): nat { i * w / 2 + j }

  /** Byte of a cell in the first plane, and in the second one. */
  function FirstAt(w: nat, h: nat, i: nat, j: nat): nat { w * h + InPlane(w, i, j) }

  function SecondAt(w: nat, h: nat, i: nat, j: nat): nat { w * h + w / 2 * (h / 2) + InPlane(w, i, j) }

  // ---------------------------------------------------------------- the order of the cells

  lemma RowStarts(w: nat, i: nat, i': nat)
    requires i < i'
    ensures i * w / 2 + w / 2 <= i' * w / 2 && i * w + w <= i' * w
  {
    MulMono(i + 1, i', w);
  }

  /** Earlier cells lie before later ones, in a plane and in the interleaved formats. */
  lemma CellOrder(w: nat, h: nat, i: nat, j: nat, i': nat, j': nat)
    requires Cell(w, h, i, j) && Cell(w, h, i', j') && (i < i' || (i == i' && j < j'))
    ensures InPlane(w, i, j) < InPlane(w, i', j')
    ensures PairAt(w, h, i, j) + 1 < PairAt(w, h, i', j')
  {
    if i < i' {
      RowStarts(w, i, i');
    }
  }

  lemma CellOrder2(w: nat, h: nat, i: nat, j: nat, i': nat, j': nat)
    requires Cell(w, h, i, j) && Cell(w, h, i', j') && (i != i' || j != j')
    ensures InPlane(w, i, j) != InPlane(w, i', j')
    ensures PairAt(w, h, i, j) + 1 < PairAt(w, h, i', j') || PairAt(w, h, i', j') + 1 < PairAt(w, h, i, j)
  {
    if i < i' || (i == i' && j < j') {
      CellOrder(w, h, i, j, i', j');
    } else {
      CellOrder(w, h, i', j', i, j);
    }
  }

  /** A width as pairs of columns and a rest. */
  lemma Halves(n: nat, w: nat)
    ensures n * w == 2 * (n * (w / 2)) + n * (w % 2)
  {
    var a, p := w / 2, w % 2;
    assert w == 2 * a + p;
    assert n * (2 * a + p) == n * (2 * a) + n * p;
    assert n * (2 * a) == 2 * (n * a);
  }

  lemma NextProduct(i: nat, n: nat, k: nat)
    requires i < n
    ensures i * k + k <= n * k
  {
    MulMono(i + 1, n, k);
    assert (i + 1) * k == i * k + k;
  }

  lemma PlaneSize(w: nat, h: nat, i: nat, j: nat)
    requires Cell(w, h, i, j)
    ensures w / 2 <= w / 2 * (h / 2)
    ensures w / 2 * (h / 2) + InPlane(w, i, j) < h / 2 * w
    ensures i * w + j * 2 + 1 < h / 2 * w
  {
    var a, n, p := w / 2, h / 2, w % 2;
    var ia, na, ip, np := i * a, n * a, i * p, n * p;
    Halves(i, w);
    Halves(n, w);
    NextProduct(i, n, a);
    NextProduct(i, n, p);
    assert a * n == na;
    assert i * w == 2 * ia + ip && n * w == 2 * na + np;
    assert ia + a <= na && ip + p <= np;
  }

  /** All bytes of a cell lie behind the luma and inside the frame. */
  lemma CellInside(w: nat, h: nat, i: nat, j: nat)
    requires Cell(w, h, i, j)
    ensures w * h <= FirstAt(w, h, i, j) < SecondAt(w, h, i, j) < FrameBytes(w, h)
    ensures w * h <= PairAt(w, h, i, j) && PairAt(w, h, i, j) + 1 < FrameBytes(w, h)
  {
    PlaneSize(w, h, i, j);
  }

  /** A cell of the first plane lies before the second-plane byte of every later cell and of itself. */
  lemma FirstBeforeSecond(w: nat, h: nat, i: nat, j: nat, i': nat, j': nat)
    requires Cell(w, h, i, j) && Cell(w, h, i', j') && i <= i'
    ensures FirstAt(w, h, i, j) < SecondAt(w, h, i', j')
  {
    PlaneSize(w, h, i, j);
    if i < i' {
      RowStarts(w, i, i');
    }
  }

  // ---------------------------------------------------------------- what the converters do

  /** Some cell of the first plane lies at `k`, and some cell of the second one. */
  ghost predicate InFirst(w: nat, h: nat, k: nat) { exists i, j :: Cell(w, h, i, j) && FirstAt(w, h, i, j) == k }

  ghost predicate InSecond(w: nat, h: nat, k: nat) { exists i, j :: Cell(w, h, i, j) && SecondAt(w, h, i, j) == k }

  ghost predicate Sized(s: seq<Byte>, w: nat, h: nat) { FrameBytes(w, h) <= |s| }

  ghost predicate SameLuma(src: seq<Byte>, dst: seq<Byte>, w: nat, h: nat)
    requires Sized(src, w, h) && Sized(dst, w, h)
  {
    forall k :: 0 <= k < w * h ==> dst[k] == src[k]
  }

  /** Byte `o` of the pair went to the first plane. */
  ghost predicate FirstOk(src: seq<Byte>, dst: seq<Byte>, w: nat, h: nat, o: nat, i: nat, j: nat)
    requires Sized(src, w, h) && Sized(dst, w, h) && o < 2 && Cell(w, h, i, j)
  {
    CellInside(w, h, i, j);
    dst[FirstAt(w, h, i, j)] == src[PairAt(w, h, i, j) + o]
  }

  /** The other byte went to the second plane, unless the first plane has a cell at its place. */
  ghost predicate SecondOk(src: seq<Byte>, dst: seq<Byte>, w: nat, h: nat, o: nat, i: nat, j: nat)
    requires Sized(src, w, h) && Sized(dst, w, h) && o < 2 && Cell(w, h, i, j)
  {
    CellInside(w, h, i, j);
    InFirst(w, h, SecondAt(w, h, i, j)) || dst[SecondAt(w, h, i, j)] == src[PairAt(w, h, i, j) + 1 - o]
  }

  /** Interleaved to planar: byte `o` of every pair to the first plane, the other one to the second. */
  ghost predicate IsSplit(src: seq<Byte>, dst: seq<Byte>, w: nat, h: nat, o: nat) {
    && Sized(src, w, h) && Sized(dst, w, h) && o < 2 && SameLuma(src, dst, w, h)
    && (forall i, j :: Cell(w, h, i, j) ==> FirstOk(src, dst, w, h, o, i, j))
    && (forall i, j :: Cell(w, h, i, j) ==> SecondOk(src, dst, w, h, o, i, j))
  }

  /** The pair holds the byte of the second plane, then that of the first. */
  ghost predicate PairOk(src: seq<Byte>, dst: seq<Byte>, w: nat, h: nat, i: nat, j: nat)
    requires Sized(src, w, h) && Sized(dst, w, h) && Cell(w, h, i, j)
  {
    CellInside(w, h, i, j);
    && dst[PairAt(w, h, i, j) + 1] == src[FirstAt(w, h, i, j)]
    && dst[PairAt(w, h, i, j)] == src[SecondAt(w, h, i, j)]
  }

  /** Planar to interleaved. */
  ghost predicate IsMerge(src: seq<Byte>, dst: seq<Byte>, w: nat, h: nat) {
    && Sized(src, w, h) && Sized(dst, w, h) && SameLuma(src, dst, w, h)
    && forall i, j :: Cell(w, h, i, j) ==> PairOk(src, dst, w, h, i, j)
  }

  /** Where the bytes of a cell are, as the loops compute it. */
  ghost predicate At(w: nat, h: nat, i: nat, j: nat, pair: nat, first: nat, second: nat) {
    && Cell(w, h, i, j)
    && pair == w * h + i * w + j * 2
    && first == w * h + i * w / 2 + j
    && second == w * h + w / 2 * (h / 2) + i * w / 2 + j
  }

  /** A split frame, byte by byte. */
  lemma SplitBytes(src: seq<Byte>, dst: seq<Byte>, w: nat, h: nat, o: nat, i: nat, j: nat,
                   pair: nat, first: nat, second: nat)
    requires o < 2 && At(w, h, i, j, pair, first, second) && IsSplit(src, dst, w, h, o)
    ensures pair + 1 < |src| && first < second < |dst|
    ensures dst[first] == src[pair + o]
    ensures dst[second] == src[pair + 1 - o] || InFirst(w, h, second)
  {
    CellInside(w, h, i, j);
    assert pair == PairAt(w, h, i, j) && first == FirstAt(w, h, i, j) && second == SecondAt(w, h, i, j);
    hide At, InPlane, PairAt, FirstAt, SecondAt, FrameBytes, InFirst;
    assert FirstOk(src, dst, w, h, o, i, j) && SecondOk(src, dst, w, h, o, i, j);
  }

  /** A merged frame, byte by byte. */
  lemma MergeBytes(src: seq<Byte>, dst: seq<Byte>, w: nat, h: nat, i: nat, j: nat, pair: nat, first: nat, second: nat)
    requires IsMerge(src, dst, w, h) && At(w, h, i, j, pair, first, second)
    ensures pair + 1 < |dst| && first < |src| && second < |src|
    ensures dst[pair + 1] == src[first] && dst[pair] == src[second]
  {
    CellInside(w, h, i, j);
    assert pair == PairAt(w, h, i, j) && first == FirstAt(w, h, i, j) && second == SecondAt(w, h, i, j);
    hide At, InPlane, PairAt, FirstAt, SecondAt, FrameBytes;
    assert PairOk(src, dst, w, h, i, j);
  }

  // ---------------------------------------------------------------- planar and back

  /** Both bytes of a cell are the same in two planar frames. */
  ghost predicate PlaneBack(src: seq<Byte>, dst: seq<Byte>, w: nat, h: nat, i: nat, j: nat)
    requires Sized(src, w, h) && Sized(dst, w, h) && Cell(w, h, i, j)
  {
    CellInside(w, h, i, j);
    && dst[FirstAt(w, h, i, j)] == src[FirstAt(w, h, i, j)]
    && dst[SecondAt(w, h, i, j)] == src[SecondAt(w, h, i, j)]
  }

  /** `NV21ToYVU420` undoes `YVU420ToNV21` for all sizes: where the planes overlap, both bytes are the same. */
  lemma PlanarRestored(src: seq<Byte>, mid: seq<Byte>, dst: seq<Byte>, w: nat, h: nat)
    requires IsMerge(src, mid, w, h) && IsSplit(mid, dst, w, h, 1)
    ensures SameLuma(src, dst, w, h) && forall i, j :: Cell(w, h, i, j) ==> PlaneBack(src, dst, w, h, i, j)
  {
    forall i, j | Cell(w, h, i, j) ensures PlaneBack(src, dst, w, h, i, j) {
      assert PairOk(src, mid, w, h, i, j) && FirstOk(mid, dst, w, h, 1, i, j) && SecondOk(mid, dst, w, h, 1, i, j);
      if InFirst(w, h, SecondAt(w, h, i, j)) {
        var i', j' :| Cell(w, h, i', j') && FirstAt(w, h, i', j') == SecondAt(w, h, i, j);
        assert PairOk(src, mid, w, h, i', j') && FirstOk(mid, dst, w, h, 1, i', j');
      }
    }
  }

  // ---------------------------------------------------------------- interleaved and back

  /** The pair comes back: unchanged for `o == 1`, swapped for `o == 0`. */
  ghost predicate PairBack(src: seq<Byte>, dst: seq<Byte>, w: nat, h: nat, o: nat, i: nat, j: nat)
    requires Sized(src, w, h) && Sized(dst, w, h) && o < 2 && Cell(w, h, i, j)
  {
    CellInside(w, h, i, j);
    && dst[PairAt(w, h, i, j) + 1] == src[PairAt(w, h, i, j) + o]
    && dst[PairAt(w, h, i, j)] == src[PairAt(w, h, i, j) + 1 - o]
  }

  /** All frames come back from a split and a merge. */
  ghost predicate Restores(w: nat, h: nat, o: nat)
    requires o < 2
  {
    forall src: seq<Byte>, mid: seq<Byte>, dst: seq<Byte>, i, j ::
      IsSplit(src, mid, w, h, o) && IsMerge(mid, dst, w, h) && Cell(w, h, i, j) ==> PairBack(src, dst, w, h, o, i, j)
  }

  /** A pair comes back if the first plane has no cell at its byte of the second plane. */
  lemma PairRestored(src: seq<Byte>, mid: seq<Byte>, dst: seq<Byte>, w: nat, h: nat, o: nat, i: nat, j: nat)
    requires IsSplit(src, mid, w, h, o) && IsMerge(mid, dst, w, h) && Cell(w, h, i, j)
    requires !InFirst(w, h, SecondAt(w, h, i, j))
    ensures PairBack(src, dst, w, h, o, i, j)
  {
    assert FirstOk(src, mid, w, h, o, i, j) && SecondOk(src, mid, w, h, o, i, j) && PairOk(mid, dst, w, h, i, j);
  }

  /** For even widths, and for odd ones up to height 5, the planes are apart. */
  lemma PlanesApart(w: nat, h: nat, i: nat, j: nat)
    requires Cell(w, h, i, j) && (w % 2 == 0 || h < 6)
    ensures InPlane(w, i, j) < w / 2 * (h / 2)
  {
    var a, n := w / 2, h / 2;
    MulMono(i + 1, n, a);
    assert (i + 1) * a == i * a + a && n * a == a * n;
    assert i * w == 2 * (i * a) + i * (w % 2) by { assert w == 2 * a + w % 2; }
  }

  /** Where two consecutive rows of a plane start, for an odd width. */
  lemma RowPair(w: nat, k: nat)
    requires w % 2 == 1
    ensures (2 * k) * w / 2 == k * w && (2 * k + 1) * w / 2 == k * w + w / 2
  {
    assert (2 * k) * w == 2 * (k * w);
    assert (2 * k + 1) * w == 2 * (k * w) + w;
  }

  /** An offset in the second plane that is not in a gap between rows belongs to a cell. */
  lemma OffsetCell(w: nat, h: nat, x: nat) returns (i: nat, j: nat)
    requires w % 2 == 1 && w >= 3 && x % w != w - 1 && 2 * (x / w) + 1 < h / 2
    ensures Cell(w, h, i, j) && InPlane(w, i, j) == x
  {
    var k, y, a := x / w, x % w, w / 2;
    DivMod(x, w);
    RowPair(w, k);
    if y < a {
      i, j := 2 * k, y;
    } else {
      i, j := 2 * k + 1, y - a;
    }
  }

  /** Where row `i` of a plane starts, for an odd width. */
  lemma OddRow(w: nat, i: nat)
    requires w % 2 == 1
    ensures i * w / 2 == i * (w / 2) + i / 2
  {
    assert i * w == 2 * (i * (w / 2)) + i by { assert w == 2 * (w / 2) + 1; }
  }

  /** The last two rows of a plane, for an odd width. */
  lemma LastRows(w: nat, n: nat, j: nat)
    requires w % 2 == 1 && n >= 2
    ensures InPlane(w, n - 1, j) == w / 2 * n - w / 2 + (n - 1) / 2 + j
    ensures InPlane(w, n - 2, j) == w / 2 * n - 2 * (w / 2) + (n - 2) / 2 + j
  {
    var a := w / 2;
    OddRow(w, n - 1);
    OddRow(w, n - 2);
    assert (n - 1) * a == a * n - a;
    assert (n - 2) * a == a * n - 2 * a;
  }

  /** Which column of which row to take: its offset behind the start of the second plane is not in a gap. */
  lemma LateOffset(w: nat, n: nat) returns (back: nat, j: nat, x: nat)
    requires w % 2 == 1 && w >= 3 && n >= 3
    ensures (back == 1 && j < w / 2 && x == (n - 1) / 2 - w / 2 + j) ||
            (back == 2 && j < w / 2 && x == (n - 2) / 2 - 2 * (w / 2) + j)
    ensures x % w != w - 1 && x < (n - 1) / 2
  {
    var a, e := w / 2, (n - 1) / 2;
    DivMod(e, w);
    if e % w != 0 {
      back, j, x := 1, a - 1, e - 1;
      DivModUnique(x, w, e / w, e % w - 1);
    } else {
      LargeQuotient(e, w);
      if a >= 2 {
        back, j, x := 1, a - 2, e - 2;
        DivModUnique(x, w, e / w - 1, w - 2);
      } else {
        back, j, x := 2, 0, (n - 2) / 2 - 2;
        DivModUnique(x, w, e / w - 1, x - (e - w));
      }
    }
  }

  /** A cell of the first plane behind the start of the second, at an offset that belongs to a cell. */
  lemma LateCell(w: nat, h: nat) returns (i: nat, j: nat, x: nat)
    requires w % 2 == 1 && w >= 3 && h >= 6
    ensures Cell(w, h, i, j) && InPlane(w, i, j) == w / 2 * (h / 2) + x
    ensures x % w != w - 1 && 2 * (x / w) + 1 < h / 2
  {
    hide InPlane;
    var n, back := h / 2, 0;
    back, j, x := LateOffset(w, n);
    LastRows(w, n, j);
    SmallQuotient(x, w, n);
    i := n - back;
  }

  lemma LargeQuotient(e: nat, w: nat)
    requires w >= 3 && e >= 1 && e % w == 0
    ensures e >= w && e == e / w * w && (e / w - 1) * w == e - w
  {
    DivMod(e, w);
  }

  lemma SmallQuotient(x: nat, w: nat, n: nat)
    requires w >= 3 && n >= 3 && x < (n - 1) / 2
    ensures 2 * (x / w) + 1 < n
  {
    DivMod(x, w);
    MulMonoLeft(x / w, 3, w);
  }

  /** For odd widths from height 6 on, some cell of the first plane lies on one of the second. */
  lemma PlanesMeet(w: nat, h: nat) returns (i: nat, j: nat, i': nat, j': nat)
    requires w % 2 == 1 && w >= 3 && h >= 6
    ensures Cell(w, h, i, j) && Cell(w, h, i', j') && FirstAt(w, h, i, j) == SecondAt(w, h, i', j')
    ensures i != i' || j != j'
  {
    hide InPlane;
    var x: nat;
    i, j, x := LateCell(w, h);
    i', j' := OffsetCell(w, h, x);
    CellInside(w, h, i, j);
  }

  // ---------------------------------------------------------------- frames that are converted

  /** A byte of the planar frame: the first plane wins. */
  ghost function SplitByte(src: seq<Byte>, w: nat, h: nat, o: nat, k: nat): Byte
    requires Sized(src, w, h) && o < 2 && k < FrameBytes(w, h)
  {
    if k < w * h then src[k]
    else if InFirst(w, h, k) then
      var i, j :| Cell(w, h, i, j) && FirstAt(w, h, i, j) == k;
      CellInside(w, h, i, j);
      src[PairAt(w, h, i, j) + o]
    else if InSecond(w, h, k) then
      var i, j :| Cell(w, h, i, j) && SecondAt(w, h, i, j) == k;
      CellInside(w, h, i, j);
      src[PairAt(w, h, i, j) + 1 - o]
    else 0
  }

  ghost function SplitFrame(src: seq<Byte>, w: nat, h: nat, o: nat): (r: seq<Byte>)
    requires Sized(src, w, h) && o < 2
    ensures Sized(r, w, h)
  {
    seq(FrameBytes(w, h), k requires 0 <= k < FrameBytes(w, h) => SplitByte(src, w, h, o, k))
  }

  lemma SplitCell(src: seq<Byte>, w: nat, h: nat, o: nat, i: nat, j: nat)
    requires Sized(src, w, h) && o < 2 && Cell(w, h, i, j)
    ensures FirstOk(src, SplitFrame(src, w, h, o), w, h, o, i, j)
    ensures SecondOk(src, SplitFrame(src, w, h, o), w, h, o, i, j)
  {
    CellInside(w, h, i, j);
    forall i', j' | Cell(w, h, i', j') && InPlane(w, i', j') == InPlane(w, i, j) ensures i' == i && j' == j {
      if i' != i || j' != j { CellOrder2(w, h, i, j, i', j'); }
    }
    assert InFirst(w, h, FirstAt(w, h, i, j)) && InSecond(w, h, SecondAt(w, h, i, j));
  }

  lemma SplitFrameIs(src: seq<Byte>, w: nat, h: nat, o: nat)
    requires Sized(src, w, h) && o < 2
    ensures IsSplit(src, SplitFrame(src, w, h, o), w, h, o)
  {
    forall i, j | Cell(w, h, i, j)
      ensures FirstOk(src, SplitFrame(src, w, h, o), w, h, o, i, j)
      ensures SecondOk(src, SplitFrame(src, w, h, o), w, h, o, i, j)
    {
      SplitCell(src, w, h, o, i, j);
    }
  }

  ghost predicate IsPair(w: nat, h: nat, k: nat) { exists i, j :: Cell(w, h, i, j) && PairAt(w, h, i, j) == k }

  /** A byte of the interleaved frame. */
  ghost function MergeByte(src: seq<Byte>, w: nat, h: nat, k: nat): Byte
    requires Sized(src, w, h) && k < FrameBytes(w, h)
  {
    if k < w * h then src[k]
    else if IsPair(w, h, k) then
      var i, j :| Cell(w, h, i, j) && PairAt(w, h, i, j) == k;
      CellInside(w, h, i, j);
      src[SecondAt(w, h, i, j)]
    else if k > 0 && IsPair(w, h, k - 1) then
      var i, j :| Cell(w, h, i, j) && PairAt(w, h, i, j) == k - 1;
      CellInside(w, h, i, j);
      src[FirstAt(w, h, i, j)]
    else 0
  }

  ghost function MergeFrame(src: seq<Byte>, w: nat, h: nat): (r: seq<Byte>)
    requires Sized(src, w, h)
    ensures Sized(r, w, h)
  {
    seq(FrameBytes(w, h), k requires 0 <= k < FrameBytes(w, h) => MergeByte(src, w, h, k))
  }

  lemma MergeCell(src: seq<Byte>, w: nat, h: nat, i: nat, j: nat)
    requires Sized(src, w, h) && Cell(w, h, i, j)
    ensures PairOk(src, MergeFrame(src, w, h), w, h, i, j)
  {
    CellInside(w, h, i, j);
    var at := PairAt(w, h, i, j);
    forall i', j' | Cell(w, h, i', j') && at - 1 <= PairAt(w, h, i', j') <= at + 1 ensures i' == i && j' == j {
      if i' != i || j' != j { CellOrder2(w, h, i, j, i', j'); }
    }
    assert IsPair(w, h, at) && !IsPair(w, h, at + 1);
  }

  lemma MergeFrameIs(src: seq<Byte>, w: nat, h: nat)
    requires Sized(src, w, h)
    ensures IsMerge(src, MergeFrame(src, w, h), w, h)
  {
    forall i, j | Cell(w, h, i, j) ensures PairOk(src, MergeFrame(src, w, h), w, h, i, j) {
      MergeCell(src, w, h, i, j);
    }
  }

  /** A frame that is 1 at one place and 0 elsewhere. */
  ghost function Bright(n: nat, at: nat): (s: seq<Byte>)
    ensures |s| == n && forall k :: 0 <= k < n ==> s[k] == if k == at then 1 else 0
  {
    seq(n, k requires 0 <= k < n => if k == at then 1 else 0)
  }

  /** Where the first plane has a cell on a cell of the second one, a frame with one bright byte does not come back. */
  lemma MeetingSpoils(w: nat, h: nat, o: nat, i: nat, j: nat, i': nat, j': nat, mid: seq<Byte>, dst: seq<Byte>)
    requires o < 2 && Cell(w, h, i, j) && Cell(w, h, i', j') && (i != i' || j != j')
    requires FirstAt(w, h, i, j) == SecondAt(w, h, i', j')
    requires IsSplit(Bright(FrameBytes(w, h), PairAt(w, h, i, j) + o), mid, w, h, o) && IsMerge(mid, dst, w, h)
    ensures !PairBack(Bright(FrameBytes(w, h), PairAt(w, h, i, j) + o), dst, w, h, o, i', j')
  {
    CellOrder2(w, h, i, j, i', j');
    CellInside(w, h, i, j);
    CellInside(w, h, i', j');
    hide FirstAt, SecondAt, PairAt, InPlane, FrameBytes, InFirst, Bright;
    var src := Bright(FrameBytes(w, h), PairAt(w, h, i, j) + o);
    assert FirstOk(src, mid, w, h, o, i, j) && PairOk(mid, dst, w, h, i', j');
  }

  lemma NotRestored(w: nat, h: nat, o: nat)
    requires o < 2 && w % 2 == 1 && w >= 3 && h >= 6
    ensures !Restores(w, h, o)
  {
    hide FirstAt, SecondAt, PairAt, InPlane, FrameBytes, Bright, SplitFrame, MergeFrame, IsSplit, IsMerge, PairBack;
    var i, j, i', j' := PlanesMeet(w, h);
    var src := Bright(FrameBytes(w, h), PairAt(w, h, i, j) + o);
    var mid := SplitFrame(src, w, h, o);
    var dst := MergeFrame(mid, w, h);
    SplitFrameIs(src, w, h, o);
    MergeFrameIs(mid, w, h);
    MeetingSpoils(w, h, o, i, j, i', j', mid, dst);
  }

  /**
    An interleaved frame comes back from `NV21ToYVU420` (`o == 1`) or `NV12ToYVU420` (`o == 0`)
    and `YVU420ToNV21`, in the second case with every pair swapped, exactly when the width is
    even, or there is no chroma column, or the height is below 6.
   */
  lemma RestoresIff(w: nat, h: nat, o: nat)
    requires o < 2
    ensures Restores(w, h, o) <==> w % 2 == 0 || w < 2 || h < 6
  {
    if w % 2 == 0 || w < 2 || h < 6 {
      forall src: seq<Byte>, mid: seq<Byte>, dst: seq<Byte>, i, j |
        IsSplit(src, mid, w, h, o) && IsMerge(mid, dst, w, h) && Cell(w, h, i, j)
        ensures PairBack(src, dst, w, h, o, i, j)
      {
        NeverMeet(w, h, i, j);
        PairRestored(src, mid, dst, w, h, o, i, j);
      }
    } else {
      NotRestored(w, h, o);
    }
  }

  lemma NeverMeet(w: nat, h: nat, i: nat, j: nat)
    requires Cell(w, h, i, j) && (w % 2 == 0 || h < 6)
    ensures !InFirst(w, h, SecondAt(w, h, i, j))
  {
    forall i', j' | Cell(w, h, i', j') ensures FirstAt(w, h, i', j') != SecondAt(w, h, i, j) {
      PlanesApart(w, h, i', j');
    }
  }
}
