/**
  The map builder `createMap` of camera/1_0/CallbackNotifier.cpp: its incremental loop has a
  closed form, which is strictly increasing and stays inside the source.
 */
module FrameResample {
  import opened Basics

  // ---------------------------------------------------------------- the nearest map

  /** Closed form of what `createMap` stores: the least source index that scales to `j`. */
  function MapEntry(s: nat, d: nat, j: nat): nat {
    if d == 0 then 0
    else if d <= s then (j * s + d - 1) / d
    else if j < s then j
    else 0
  }

  /** `i` is the ceiling of `n / d`. */
  lemma Ceiling(n: nat, d: nat, i: nat)
    requires d > 0 && n <= i * d && (i == 0 || (i - 1) * d < n)
    ensures (n + d - 1) / d == i
  {
    DivModUnique(n + d - 1, d, i, n + d - 1 - i * d);
  }

  /** When the map shrinks, consecutive source indices scale to the same or the next index. */
  lemma FloorStep(i: nat, s: nat, d: nat)
    requires 0 < d <= s
    ensures i * d / s <= (i + 1) * d / s <= i * d / s + 1
  {
    var a := i * d / s;
    assert (i + 1) * d == i * d + d && (a + 2) * s == (a + 1) * s + s;
    DivAtLeast(i * d, s, a);
    DivAtLeast(i * d, s, a + 1);
    DivAtLeast((i + 1) * d, s, a);
    DivAtLeast((i + 1) * d, s, a + 2);
  }

  /** When it grows, every source index scales to a new index. */
  lemma FloorGrows(i: nat, s: nat, d: nat)
    requires 0 < s < d
    ensures i * d / s < (i + 1) * d / s
  {
    var a := i * d / s;
    assert (i + 1) * d == i * d + d && (a + 1) * s == a * s + s;
    DivAtLeast(i * d, s, a);
    DivAtLeast((i + 1) * d, s, a + 1);
  }

  /** The step of the map builder: `i` is the least index that scales to `j`. */
  lemma NewEntry(s: nat, d: nat, i: nat, j: nat)
    requires 0 < d <= s && i * d / s == j && (i == 0 || (i - 1) * d / s < j)
    ensures MapEntry(s, d, j) == i
  {
    DivAtLeast(i * d, s, j);
    if i > 0 {
      DivAtLeast((i - 1) * d, s, j);
    }
    Ceiling(j * s, d, i);
  }

  /** All `d` entries are filled once the last source index has been looked at. */
  lemma LastIndex(s: nat, d: nat)
    requires 0 < d <= s
    ensures (s - 1) * d / s == d - 1
  {
    assert (s - 1) * d == (d - 1) * s + (s - d);
    DivModUnique((s - 1) * d, s, d - 1, s - d);
  }

  /** One axis of `createMap`. */
  method CreateAxisMap(s: nat, d: nat, table: array<int>)
    requires d <= table.Length
    modifies table
    ensures forall j :: 0 <= j < d ==> table[j] == MapEntry(s, d, j)
    ensures d <= s ==> forall j :: 0 <= j < d ==> table[j] == (j * s + d - 1) / d
    ensures d > s ==> forall j :: 0 <= j < d ==> table[j] == if j < s then j else 0
    ensures forall j :: d <= j < table.Length ==> table[j] == old(table[j])
  {
    forall j | 0 <= j < d {
      table[j] := 0;
    }
    var cur := -1;
    var i, j := 0, 0;
    while i < s && j < d
      invariant 0 <= i <= s && 0 <= j <= d
      invariant cur == if i == 0 then -1 else (i - 1) * d / s
      invariant if d <= s then j == cur + 1 else j == i
      invariant forall k :: 0 <= k < j ==> table[k] == MapEntry(s, d, k)
      invariant forall k :: j <= k < d ==> table[k] == 0
      invariant forall k :: d <= k < table.Length ==> table[k] == old(table[k])
    {
      var scaled := i * d / s;
      Scan(s, d, i);
      if scaled != cur {
        if d <= s { NewEntry(s, d, i, j); }
        table[j] := i;
        j := j + 1;
        cur := scaled;
      }
      i := i + 1;
    }
    if 0 < d <= s { LastIndex(s, d); }
  }

  lemma Scan(s: nat, d: nat, i: nat)
    requires 0 < d && i < s
    ensures i == 0 ==> i * d / s == 0
    ensures i > 0 && d <= s ==> (i - 1) * d / s <= i * d / s <= (i - 1) * d / s + 1
    ensures i > 0 && s < d ==> (i - 1) * d / s < i * d / s
  {
    if i > 0 {
      if d <= s { FloorStep(i - 1, s, d); } else { FloorGrows(i - 1, s, d); }
    }
  }

  /** The map of a shrinking axis starts at 0, is strictly increasing and stays inside the source. */
  lemma MapShape(s: nat, d: nat, j: nat)
    requires 0 < d <= s && j < d
    ensures MapEntry(s, d, 0) == 0
    ensures MapEntry(s, d, j) < s
    ensures j + 1 < d ==> MapEntry(s, d, j) < MapEntry(s, d, j + 1)
  {
    DivModUnique(d - 1, d, 0, d - 1);
    var a := (j * s + d - 1) / d;
    MulMono(j + 1, d, s);
    assert (j + 1) * s == j * s + s && s * d == d * s;
    DivAtLeast(j * s + d - 1, d, s);
    DivAtLeast(j * s + d - 1, d, a);
    assert (a + 1) * d == a * d + d;
    DivAtLeast((j + 1) * s + d - 1, d, a + 1);
  }

  lemma MapMonotone(s: nat, d: nat, j: nat, k: nat)
    requires 0 < d <= s && j < k < d
    ensures MapEntry(s, d, j) < MapEntry(s, d, k)
    decreases k - j
  {
    MapShape(s, d, j);
    if j + 1 < k { MapMonotone(s, d, j + 1, k); }
  }

  /** The last entry of a shrinking map. */
  lemma LastEntry(s: nat, d: nat)
    requires 0 < d <= s
    ensures MapEntry(s, d, d - 1) == s - s / d
  {
    DivMod(s, d);
    var q, r := s / d, s % d;
    assert (d - 1) * s + d - 1 == (s - q) * d + (d - 1 - r);
    DivModUnique((d - 1) * s + d - 1, d, s - q, d - 1 - r);
  }

  lemma ExactScale(s: nat, d: nat, k: nat, j: nat)
    requires 0 < d <= s && s == k * d
    ensures MapEntry(s, d, j) == j * k
  {
    assert j * s == (j * k) * d;
    DivModUnique(j * s + d - 1, d, j * k, d - 1);
  }

  /** For `k <= s / d`, the map multiplies by `k` exactly when `s` is `k` times `d` or has one entry. */
  lemma MapIsScaleIff(s: nat, d: nat, k: nat)
    requires 0 < d <= s && k * d <= s
    ensures (forall j :: 0 <= j < d ==> MapEntry(s, d, j) == j * k) <==> d == 1 || s == k * d
  {
    if d == 1 {
      MapShape(s, d, 0);
    } else if s == k * d {
      forall j | 0 <= j < d ensures MapEntry(s, d, j) == j * k {
        ExactScale(s, d, k, j);
      }
    } else {
      LastEntry(s, d);
      SlowScale(s, d, k);
    }
  }

  lemma SlowScale(s: nat, d: nat, k: nat)
    requires 1 < d && k * d < s
    ensures s - s / d > (d - 1) * k
  {
    DivMod(s, d);
    var q, r := s / d, s % d;
    DivAtLeast(s, d, k);
    assert q * d - q == (d - 1) * q;
    MulMonoLeft(d - 1, k, q);
    if k < q {
      MulMonoLeft(d - 1, k + 1, q);
      assert (d - 1) * (k + 1) == (d - 1) * k + (d - 1);
    }
  }
}
