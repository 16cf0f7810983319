/**
  The severity function of thermal/thermal-helper.cpp: thresholds with hysteresis, for hot
  and for cold.  Temperatures are reals; a missing (NaN) threshold is `None`.
 */
module ThermalSeverity {
  import opened Basics

  /** 0 is NONE, 6 is SHUTDOWN. */
  type Severity = n: nat | n <= 6
  const NONE: Severity := 0
  const SHUTDOWN: Severity := 6

  /** A reading of one sensor, as it is sent to listeners. */
  datatype Temperature = Temperature(kind: nat, name: string, value: real, severity: Severity)

  /** Thresholds and hysteresis of one direction, one entry per severity. */
  datatype Band = Band(thr: seq<Option<real>>, hyst: seq<real>)
  {
    predicate Valid() { |thr| == 7 && |hyst| == 7 }

    /** The reading has reached the threshold of level `i`. */
    predicate Reached(i: nat, v: real)
      requires Valid() && i < 7
    {
      thr[i].Some? && thr[i].value <= v
    }

    /** The reading is still within the hysteresis of level `i`. */
    predicate Held(i: nat, v: real)
      requires Valid() && i < 7
    {
      thr[i].Some? && thr[i].value - hyst[i] < v
    }

    /** The highest level up to `n` that the reading has reached. */
    function LevelUpTo(n: Severity, v: real): (r: Severity)
      requires Valid()
      ensures r <= n && (r > 0 ==> Reached(r, v))
      ensures forall j :: r < j <= n ==> !Reached(j, v)
    {
      if n == 0 then 0 else if Reached(n, v) then n else LevelUpTo(n - 1, v)
    }

    function HoldUpTo(n: Severity, v: real): (r: Severity)
      requires Valid()
      ensures r <= n && (r > 0 ==> Held(r, v))
      ensures forall j :: r < j <= n ==> !Held(j, v)
    {
      if n == 0 then 0 else if Held(n, v) then n else HoldUpTo(n - 1, v)
    }

    function Level(v: real): Severity
      requires Valid()
    { LevelUpTo(SHUTDOWN, v) }

    function Hold(v: real): Severity
      requires Valid()
    { HoldUpTo(SHUTDOWN, v) }

    /** The new level: a drop below the previous level is taken from the hysteresis. */
    function Next(prev: Severity, v: real): Severity
      requires Valid()
    {
      if Level(v) < prev then Hold(v) else Level(v)
    }

    /** Cold thresholds are hot ones with all signs changed. */
    function Mirror(): Band {
      Band(seq(|thr|, i requires 0 <= i < |thr| => if thr[i].Some? then Some(0.0 - thr[i].value) else None), hyst)
    }
  }

  /**
    The new level in terms of the thresholds.  If no threshold from the previous level up is
    reached, it is the greatest level whose threshold less its hysteresis lies below the
    reading; otherwise the greatest level whose threshold is reached.
   */
  lemma NextIs(b: Band, prev: Severity, v: real)
    requires b.Valid()
    ensures var next := b.Next(prev, v);
      if prev > 0 && forall i :: prev <= i <= 6 ==> b.thr[i].None? || v < b.thr[i].value then
        && (next > 0 ==> b.thr[next].Some? && b.thr[next].value - b.hyst[next] < v)
        && forall i :: next < i <= 6 ==> b.thr[i].None? || v <= b.thr[i].value - b.hyst[i]
      else
        && (next > 0 ==> b.thr[next].Some? && b.thr[next].value <= v)
        && forall i :: next < i <= 6 ==> b.thr[i].None? || v < b.thr[i].value
  {
    LevelIs(b, v);
    HoldIs(b, v);
    var l := b.Level(v);
    if l >= prev > 0 {
      assert !(b.thr[l].None? || v < b.thr[l].value);
    }
  }

  /** The greatest level whose threshold is reached. */
  lemma LevelIs(b: Band, v: real)
    requires b.Valid()
    ensures var l := b.Level(v);
      && (l > 0 ==> b.thr[l].Some? && b.thr[l].value <= v)
      && forall i :: l < i <= 6 ==> b.thr[i].None? || v < b.thr[i].value
  {
    forall i | b.Level(v) < i <= 6 ensures b.thr[i].None? || v < b.thr[i].value {
      assert !b.Reached(i, v);
    }
  }

  /** The greatest level whose threshold less its hysteresis lies below the reading. */
  lemma HoldIs(b: Band, v: real)
    requires b.Valid()
    ensures var l := b.Hold(v);
      && (l > 0 ==> b.thr[l].Some? && b.thr[l].value - b.hyst[l] < v)
      && forall i :: l < i <= 6 ==> b.thr[i].None? || v <= b.thr[i].value - b.hyst[i]
  {
    forall i | b.Hold(v) < i <= 6 ensures b.thr[i].None? || v <= b.thr[i].value - b.hyst[i] {
      assert !b.Held(i, v);
    }
  }

  lemma MirrorIs(b: Band, i: nat)
    requires b.Valid() && i < 7
    ensures b.Mirror().Valid() && b.Mirror().hyst == b.hyst
    ensures b.Mirror().thr[i] == if b.thr[i].Some? then Some(0.0 - b.thr[i].value) else None
  {
  }

  /** `getSeverityFromThresholds` */
  method GetSeverityFromThresholds(hot: Band, cold: Band, prevHot: Severity, prevCold: Severity, value: real)
    returns (h: Severity, c: Severity)
    requires hot.Valid() && cold.Valid()
    ensures h == hot.Next(prevHot, value)
    ensures c == cold.Mirror().Next(prevCold, 0.0 - value)
    ensures
      if prevHot > 0 && forall i :: prevHot <= i <= 6 ==> hot.thr[i].None? || value < hot.thr[i].value then
        && (h > 0 ==> hot.thr[h].Some? && hot.thr[h].value - hot.hyst[h] < value)
        && forall i :: h < i <= 6 ==> hot.thr[i].None? || value <= hot.thr[i].value - hot.hyst[i]
      else
        && (h > 0 ==> hot.thr[h].Some? && hot.thr[h].value <= value)
        && forall i :: h < i <= 6 ==> hot.thr[i].None? || value < hot.thr[i].value
    ensures
      if prevCold > 0 && forall i :: prevCold <= i <= 6 ==> cold.thr[i].None? || value > cold.thr[i].value then
        && (c > 0 ==> cold.thr[c].Some? && cold.thr[c].value + cold.hyst[c] > value)
        && forall i :: c < i <= 6 ==> cold.thr[i].None? || value >= cold.thr[i].value + cold.hyst[i]
      else
        && (c > 0 ==> cold.thr[c].Some? && cold.thr[c].value >= value)
        && forall i :: c < i <= 6 ==> cold.thr[i].None? || value > cold.thr[i].value
  {
    h, c := FoldThresholds(hot, cold, prevHot, prevCold, value);
    NextIs(hot, prevHot, value);
    ColdIs(cold, prevCold, value);
  }

  lemma ColdIs(cold: Band, prev: Severity, value: real)
    requires cold.Valid()
    ensures var c := cold.Mirror().Next(prev, 0.0 - value);
      if prev > 0 && forall i :: prev <= i <= 6 ==> cold.thr[i].None? || value > cold.thr[i].value then
        && (c > 0 ==> cold.thr[c].Some? && cold.thr[c].value + cold.hyst[c] > value)
        && forall i :: c < i <= 6 ==> cold.thr[i].None? || value >= cold.thr[i].value + cold.hyst[i]
      else
        && (c > 0 ==> cold.thr[c].Some? && cold.thr[c].value >= value)
        && forall i :: c < i <= 6 ==> cold.thr[i].None? || value > cold.thr[i].value
  {
    forall i | 0 <= i < 7
      ensures cold.Mirror().thr[i] == if cold.thr[i].Some? then Some(0.0 - cold.thr[i].value) else None
    {
      MirrorIs(cold, i);
    }
    NextIs(cold.Mirror(), prev, 0.0 - value);
  }

  /** The fold of the source: from SHUTDOWN down, the first hit of each kind stays. */
  method FoldThresholds(hot: Band, cold: Band, prevHot: Severity, prevCold: Severity, value: real)
    returns (h: Severity, c: Severity)
    requires hot.Valid() && cold.Valid()
    ensures h == hot.Next(prevHot, value) && c == cold.Mirror().Next(prevCold, 0.0 - value)
  {
    ghost var m := cold.Mirror();
    var hotHyst, coldHyst: Severity := NONE, NONE;
    h, c := NONE, NONE;
    var i := SHUTDOWN;
    while i > NONE
      invariant 0 <= i <= SHUTDOWN
      invariant hot.Level(value) == (if h == NONE then hot.LevelUpTo(i, value) else h)
      invariant hot.Hold(value) == (if hotHyst == NONE then hot.HoldUpTo(i, value) else hotHyst)
      invariant m.Level(0.0 - value) == (if c == NONE then m.LevelUpTo(i, 0.0 - value) else c)
      invariant m.Hold(0.0 - value) == (if coldHyst == NONE then m.HoldUpTo(i, 0.0 - value) else coldHyst)
    {
      if hot.thr[i].Some? && hot.thr[i].value <= value && h == NONE {
        h := i;
      }
      if hot.thr[i].Some? && hot.thr[i].value - hot.hyst[i] < value && hotHyst == NONE {
        hotHyst := i;
      }
      if cold.thr[i].Some? && cold.thr[i].value >= value && c == NONE {
        c := i;
      }
      if cold.thr[i].Some? && cold.thr[i].value + cold.hyst[i] > value && coldHyst == NONE {
        coldHyst := i;
      }
      i := i - 1;
    }
    if h < prevHot {
      h := hotHyst;
    }
    if c < prevCold {
      c := coldHyst;
    }
  }

  // ---------------------------------------------------------------- staying at a level

  /** The reading neither leaves level `i` downwards nor reaches a higher threshold. */
  ghost predicate InBand(b: Band, i: Severity, v: real)
    requires b.Valid()
  {
    && (i > 0 ==> b.Held(i, v))
    && forall j :: i < j <= SHUTDOWN ==> !b.Reached(j, v)
  }

  /** No higher band begins below the threshold of level `i`. */
  predicate BandsApart(b: Band, i: Severity)
    requires b.Valid() && b.thr[i].Some?
  {
    forall j :: i < j <= SHUTDOWN && b.thr[j].Some? ==> b.thr[j].value - b.hyst[j] >= b.thr[i].value
  }

  /** Level `i` is kept by every reading in its band. */
  ghost predicate Keeps(b: Band, i: Severity)
    requires b.Valid()
  {
    forall v :: InBand(b, i, v) ==> b.Next(i, v) == i
  }

  lemma BandKeeps(b: Band, i: Severity, v: real)
    requires b.Valid() && InBand(b, i, v)
    requires i > 0 && b.hyst[i] > 0.0 ==> b.thr[i].Some? && BandsApart(b, i)
    ensures b.Next(i, v) == i
  {
    var l := b.Level(v);
    assert l > 0 ==> b.Reached(l, v);
    if i > 0 {
      assert b.Held(i, v);
      if b.Reached(i, v) {
        assert l == i;
      } else {
        var h := b.Hold(v);
        assert h > 0 ==> b.Held(h, v);
        assert h == i;
      }
    }
  }

  /** Thresholds as the configuration parser leaves them: not decreasing with the level. */
  ghost predicate Ascending(b: Band)
    requires b.Valid()
  {
    forall i, j :: 1 <= i < j <= SHUTDOWN && b.thr[i].Some? && b.thr[j].Some? ==> b.thr[i].value <= b.thr[j].value
  }

  /** A reading in the band of `i` that falls into the hysteresis of a higher level. */
  lemma OverlapJumps(b: Band, i: Severity, j: Severity) returns (v: real)
    requires b.Valid() && Ascending(b) && 0 < i < j && b.thr[i].Some? && b.thr[j].Some? && b.hyst[i] > 0.0
    requires b.thr[j].value - b.hyst[j] < b.thr[i].value
    ensures InBand(b, i, v) && b.Next(i, v) > i
  {
    var t := b.thr[i].value;
    var lo := if t - b.hyst[i] > b.thr[j].value - b.hyst[j] then t - b.hyst[i] else b.thr[j].value - b.hyst[j];
    v := (lo + t) / 2.0;
    assert lo < v < t;
    assert b.Held(i, v) && b.Held(j, v);
  }

  /** With ascending thresholds, level `i` is kept exactly when it has no hysteresis or no higher band overlaps. */
  lemma KeepsIff(b: Band, i: Severity)
    requires b.Valid() && Ascending(b) && i > 0 && b.thr[i].Some?
    ensures Keeps(b, i) <==> b.hyst[i] <= 0.0 || BandsApart(b, i)
  {
    if b.hyst[i] <= 0.0 || BandsApart(b, i) {
      forall v | InBand(b, i, v) ensures b.Next(i, v) == i {
        BandKeeps(b, i, v);
      }
    } else {
      var j :| i < j <= SHUTDOWN && b.thr[j].Some? && !(b.thr[j].value - b.hyst[j] >= b.thr[i].value);
      var v := OverlapJumps(b, i, j);
    }
  }

  // ---------------------------------------------------------------- repeating a reading

  /** Repeating the reading `v` changes nothing, whatever the level was before. */
  ghost predicate Settles(b: Band, v: real)
    requires b.Valid()
  {
    forall prev: Severity :: b.Next(b.Next(prev, v), v) == b.Next(prev, v)
  }

  lemma SettlesIff(b: Band, v: real)
    requires b.Valid()
    ensures Settles(b, v) <==> b.Level(v) <= b.Hold(v) || b.Level(v) == SHUTDOWN
  {
    if b.Level(v) > b.Hold(v) && b.Level(v) < SHUTDOWN {
      var prev: Severity := SHUTDOWN;
      assert b.Next(prev, v) == b.Hold(v);
      assert b.Next(b.Hold(v), v) == b.Level(v);
    }
  }

  /** Level `i` has no hysteresis, and no higher level is reached or held at its threshold. */
  predicate Undershoots(b: Band, i: Severity)
    requires b.Valid()
  {
    && 1 <= i < SHUTDOWN && b.thr[i].Some? && b.hyst[i] <= 0.0
    && forall j :: i < j <= SHUTDOWN && b.thr[j].Some? ==>
         b.thr[i].value < b.thr[j].value && b.thr[i].value <= b.thr[j].value - b.hyst[j]
  }

  lemma UndershootsAt(b: Band, i: Severity)
    requires b.Valid() && Undershoots(b, i)
    ensures b.Level(b.thr[i].value) == i && b.Hold(b.thr[i].value) < i
  {
    var v := b.thr[i].value;
    assert b.Reached(i, v) && !b.Held(i, v);
    assert forall j :: i < j <= SHUTDOWN ==> !b.Reached(j, v) && !b.Held(j, v);
  }

  lemma UndershootLevel(b: Band, v: real)
    requires b.Valid() && b.Hold(v) < b.Level(v) < SHUTDOWN
    ensures Undershoots(b, b.Level(v))
  {
    var i := b.Level(v);
    assert b.Reached(i, v) && !b.Held(i, v);
    forall j | i < j <= SHUTDOWN && b.thr[j].Some?
      ensures b.thr[i].value < b.thr[j].value && b.thr[i].value <= b.thr[j].value - b.hyst[j]
    {
      assert !b.Reached(j, v) && !b.Held(j, v);
    }
  }

  /**
    Every reading settles at once exactly when no level below SHUTDOWN lacks hysteresis at a
    threshold where no higher level is reached or held.
   */
  lemma AlwaysSettlesIff(b: Band)
    requires b.Valid()
    ensures (forall v :: Settles(b, v)) <==> (forall i: Severity :: !Undershoots(b, i))
  {
    if forall i: Severity :: !Undershoots(b, i) {
      forall v ensures Settles(b, v) {
        SettlesIff(b, v);
        if b.Hold(v) < b.Level(v) < SHUTDOWN { UndershootLevel(b, v); }
      }
    } else {
      var i: Severity :| Undershoots(b, i);
      UndershootsAt(b, i);
      SettlesIff(b, b.thr[i].value);
    }
  }

  /** Bands are in order, and hysteresis is not negative. */
  ghost predicate Ordered(b: Band)
    requires b.Valid()
  {
    && (forall i :: 1 <= i <= SHUTDOWN ==> b.hyst[i] >= 0.0)
    && (forall i, j :: 1 <= i < j <= SHUTDOWN && b.thr[i].Some? && b.thr[j].Some? ==>
          b.thr[i].value < b.thr[j].value && b.thr[i].value <= b.thr[j].value - b.hyst[j])
  }

  /** With bands in order that is: every level below SHUTDOWN with a threshold has positive hysteresis. */
  lemma OrderedSettlesIff(b: Band)
    requires b.Valid() && Ordered(b)
    ensures (forall v :: Settles(b, v)) <==>
            (forall i :: 1 <= i < SHUTDOWN && b.thr[i].Some? ==> b.hyst[i] > 0.0)
  {
    AlwaysSettlesIff(b);
    if i: Severity :| 1 <= i < SHUTDOWN && b.thr[i].Some? && b.hyst[i] <= 0.0 {
      assert Undershoots(b, i);
    }
  }

  /**
    The parser's default hysteresis of 0 does not settle: falling from SEVERE to a reading
    right at the MODERATE threshold first reports NONE, and MODERATE for the same reading again.
   */
  lemma DefaultHysteresisUndershoots()
    ensures var b := Band([None, None, Some(40.0), Some(50.0), None, None, None], seq(7, i => 0.0));
      b.Next(3, 40.0) == 0 && b.Next(0, 40.0) == 2
  {
    var b := Band([None, None, Some(40.0), Some(50.0), None, None, None], seq(7, i => 0.0));
    assert b.Reached(2, 40.0) && !b.Reached(3, 40.0) && !b.Held(2, 40.0) && !b.Held(3, 40.0);
  }
}
