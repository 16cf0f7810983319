/**
  The watcher of thermal/thermal-helper.cpp: per-sensor state, and the notifications sent
  when a sensor's severity changes.  File reads are inputs: a reading is present or failed.
 */
module ThermalWatcher {
  import opened Basics
  import opened ThermalSeverity

  datatype SensorInfo = SensorInfo(kind: nat, hot: Band, cold: Band, monitor: bool)
  {
    predicate Valid() { hot.Valid() && cold.Valid() }
  }

  datatype SensorStatus = SensorStatus(severity: Severity, prevHot: Severity, prevCold: Severity)

  /** One call of the watcher callback: the sensors that raised a uevent, and the readings that succeed. */
  datatype Event = Event(uevents: set<string>, readings: map<string, real>)

  const INITIAL: SensorStatus := SensorStatus(NONE, NONE, NONE)

  function Max(a: Severity, b: Severity): Severity { if a > b then a else b }

  /** The sensor is looked at in this call. */
  predicate Checked(info: SensorInfo, name: string, e: Event) {
    info.monitor && (e.uevents == {} || name in e.uevents) && name in e.readings
  }

  /** The state after a reading. */
  function Updated(info: SensorInfo, st: SensorStatus, v: real): SensorStatus
    requires info.Valid()
  {
    var hot := info.hot.Next(st.prevHot, v);
    var cold := info.cold.Mirror().Next(st.prevCold, 0.0 - v);
    SensorStatus(Max(hot, cold), hot, cold)
  }

  function StatusAfter(info: SensorInfo, name: string, st: SensorStatus, e: Event): SensorStatus
    requires info.Valid()
  {
    if Checked(info, name, e) then Updated(info, st, e.readings[name]) else st
  }

  /** The notification of one sensor in one call, if its severity changes. */
  function NoteOf(info: SensorInfo, name: string, st: SensorStatus, e: Event): seq<Temperature>
    requires info.Valid()
  {
    var after := StatusAfter(info, name, st, e);
    if after.severity == st.severity then [] else [Temperature(info.kind, name, e.readings[name], after.severity)]
  }

  /**
    One sensor in one call: nothing happens unless it is monitored, passes the uevent filter and
    can be read.  Then both levels follow the reading, the severity is the larger of them, and a
    notification with the reading is sent exactly if the severity changes.
   */
  lemma SensorStep(info: SensorInfo, name: string, st: SensorStatus, e: Event)
    requires info.Valid()
    ensures !info.monitor || (e.uevents != {} && name !in e.uevents) || name !in e.readings ==>
      StatusAfter(info, name, st, e) == st && NoteOf(info, name, st, e) == []
    ensures info.monitor && (e.uevents == {} || name in e.uevents) && name in e.readings ==>
      var after, v := StatusAfter(info, name, st, e), e.readings[name];
      && after.prevHot == info.hot.Next(st.prevHot, v)
      && after.prevCold == info.cold.Mirror().Next(st.prevCold, 0.0 - v)
      && after.severity >= after.prevHot && after.severity >= after.prevCold
      && (after.severity == after.prevHot || after.severity == after.prevCold)
      && (after.severity == st.severity ==> NoteOf(info, name, st, e) == [])
      && (after.severity != st.severity ==>
            NoteOf(info, name, st, e) == [Temperature(info.kind, name, v, after.severity)])
  {
  }

  /** The sensor asks for fast polling: it is throttled, and it was skipped by the filter or read. */
  predicate Triggers(info: SensorInfo, name: string, after: SensorStatus, e: Event) {
    && info.monitor && after.severity != NONE
    && ((e.uevents != {} && name !in e.uevents) || name in e.readings)
  }

  // ---------------------------------------------------------------- runs of one sensor

  function RunStatus(info: SensorInfo, name: string, es: seq<Event>): SensorStatus
    requires info.Valid()
  {
    if es == [] then INITIAL
    else StatusAfter(info, name, RunStatus(info, name, es[..|es| - 1]), es[|es| - 1])
  }

  function RunNotes(info: SensorInfo, name: string, es: seq<Event>): seq<Temperature>
    requires info.Valid()
  {
    if es == [] then []
    else
      var before := es[..|es| - 1];
      RunNotes(info, name, before) + NoteOf(info, name, RunStatus(info, name, before), es[|es| - 1])
  }

  /** The severity a listener that starts at NONE knows after some notifications. */
  function Replay(notes: seq<Temperature>): Severity {
    if notes == [] then NONE else notes[|notes| - 1].severity
  }

  /** Every notification changes what a listener knows. */
  ghost predicate EachChanges(notes: seq<Temperature>) {
    forall k :: 0 <= k < |notes| ==> notes[k].severity != Replay(notes[..k])
  }

  lemma EachChangesAppend(notes: seq<Temperature>, t: Temperature)
    requires EachChanges(notes) && t.severity != Replay(notes)
    ensures EachChanges(notes + [t])
  {
    var all := notes + [t];
    forall k | 0 <= k < |all|
      ensures all[k].severity != Replay(all[..k])
    {
      if k < |notes| {
        assert all[..k] == notes[..k];
      } else {
        assert all[..k] == notes;
      }
    }
  }

  /**
    Over every run, with failed reads and uevent filtering in any order: the stored severity is
    the larger of the two stored levels, replaying the notifications yields it, and two
    consecutive notifications always differ.
   */
  lemma {:induction false} RunConsistent(info: SensorInfo, name: string, es: seq<Event>)
    requires info.Valid()
    ensures var st := RunStatus(info, name, es);
      && st.severity >= st.prevHot && st.severity >= st.prevCold
      && (st.severity == st.prevHot || st.severity == st.prevCold)
    ensures Replay(RunNotes(info, name, es)) == RunStatus(info, name, es).severity
    ensures EachChanges(RunNotes(info, name, es))
    ensures !info.monitor ==> RunStatus(info, name, es) == INITIAL && RunNotes(info, name, es) == []
  {
    if es != [] {
      var before, e := es[..|es| - 1], es[|es| - 1];
      RunConsistent(info, name, before);
      var st, notes := RunStatus(info, name, before), RunNotes(info, name, before);
      var n := NoteOf(info, name, st, e);
      if n == [] {
        assert notes + n == notes;
      } else {
        assert notes + n == notes + [n[0]];
        EachChangesAppend(notes, n[0]);
      }
    }
  }

  /** Notifications that follow each other carry different severities. */
  lemma ConsecutiveDiffer(notes: seq<Temperature>, k: nat)
    requires EachChanges(notes) && k + 1 < |notes|
    ensures notes[k].severity != notes[k + 1].severity && notes[0].severity != NONE
  {
    assert notes[..k + 1][k] == notes[k];
    assert Replay(notes[..k + 1]) == notes[k].severity;
    assert notes[..0] == [];
  }

  // ---------------------------------------------------------------- quiet runs

  /** Both directions keep their level through every reading of the run. */
  ghost predicate StaysInBands(info: SensorInfo, name: string, st: SensorStatus, e: Event)
    requires info.Valid()
  {
    Checked(info, name, e) ==>
      && InBand(info.hot, st.prevHot, e.readings[name])
      && InBand(info.cold.Mirror(), st.prevCold, 0.0 - e.readings[name])
  }

  /** The level can be held: no higher band overlaps its hysteresis. */
  ghost predicate Holdable(b: Band, i: Severity)
    requires b.Valid()
  {
    i > 0 && b.hyst[i] > 0.0 ==> b.thr[i].Some? && BandsApart(b, i)
  }

  function AfterMore(info: SensorInfo, name: string, st: SensorStatus, es: seq<Event>)
    : (r: (SensorStatus, seq<Temperature>))
    requires info.Valid()
    decreases |es|
  {
    if es == [] then (st, [])
    else
      var more := AfterMore(info, name, StatusAfter(info, name, st, es[0]), es[1..]);
      (more.0, NoteOf(info, name, st, es[0]) + more.1)
  }

  /** While every reading stays in the bands of the current levels, nothing changes and nothing is sent. */
  lemma {:induction false} QuietInBands(info: SensorInfo, name: string, st: SensorStatus, es: seq<Event>)
    requires info.Valid() && st.severity == Max(st.prevHot, st.prevCold)
    requires Holdable(info.hot, st.prevHot) && Holdable(info.cold.Mirror(), st.prevCold)
    requires forall k :: 0 <= k < |es| ==> StaysInBands(info, name, st, es[k])
    ensures AfterMore(info, name, st, es) == (st, [])
  {
    if es != [] {
      assert StaysInBands(info, name, st, es[0]);
      if Checked(info, name, es[0]) {
        var v := es[0].readings[name];
        BandKeeps(info.hot, st.prevHot, v);
        BandKeeps(info.cold.Mirror(), st.prevCold, 0.0 - v);
      }
      assert StatusAfter(info, name, st, es[0]) == st && NoteOf(info, name, st, es[0]) == [];
      QuietInBands(info, name, st, es[1..]);
      assert NoteOf(info, name, st, es[0]) + AfterMore(info, name, st, es[1..]).1 == [];
    }
  }

  /** Once a reading has been taken, repeating it sends nothing, if it settles in both directions. */
  lemma {:induction false} QuietOnRepeat(info: SensorInfo, name: string, st: SensorStatus, v: real, es: seq<Event>)
    requires info.Valid() && Settles(info.hot, v) && Settles(info.cold.Mirror(), 0.0 - v)
    requires forall k :: 0 <= k < |es| ==> (name in es[k].readings ==> es[k].readings[name] == v)
    ensures AfterMore(info, name, Updated(info, st, v), es) == (Updated(info, st, v), [])
  {
    if es != [] {
      var u := Updated(info, st, v);
      assert name in es[0].readings ==> es[0].readings[name] == v;
      assert Updated(info, u, v) == u;
      assert StatusAfter(info, name, u, es[0]) == u && NoteOf(info, name, u, es[0]) == [];
      QuietOnRepeat(info, name, st, v, es[1..]);
      assert NoteOf(info, name, u, es[0]) + AfterMore(info, name, u, es[1..]).1 == [];
    }
  }

  // ---------------------------------------------------------------- the watcher callback

  /** The notifications of one call, in the order of the sensor map. */
  function Batch(infos: map<string, SensorInfo>, names: seq<string>, status: map<string, SensorStatus>, e: Event)
    : seq<Temperature>
    requires forall k :: 0 <= k < |names| ==> names[k] in infos && names[k] in status && infos[names[k]].Valid()
  {
    if names == [] then []
    else
      var n := names[|names| - 1];
      Batch(infos, names[..|names| - 1], status, e) + NoteOf(infos[n], n, status[n], e)
  }

  /** The notifications of one sensor in a batch. */
  function Only(ts: seq<Temperature>, name: string): seq<Temperature> {
    if ts == [] then []
    else Only(ts[..|ts| - 1], name) + if ts[|ts| - 1].name == name then [ts[|ts| - 1]] else []
  }

  lemma OnlyNote(ts: seq<Temperature>, note: seq<Temperature>, name: string)
    requires |note| <= 1
    ensures Only(ts + note, name) == Only(ts, name) + if note != [] && note[0].name == name then note else []
  {
    if note == [] {
      assert ts + note == ts;
    } else {
      assert (ts + note)[..|ts|] == ts;
      assert note == [note[0]];
    }
  }

  /** A batch holds for each sensor exactly the notification of its own step. */
  lemma {:induction false} BatchPerSensor(infos: map<string, SensorInfo>, names: seq<string>,
                                          status: map<string, SensorStatus>,
                                          e: Event, name: string)
    requires forall k :: 0 <= k < |names| ==> names[k] in infos && names[k] in status && infos[names[k]].Valid()
    requires forall i, j :: 0 <= i < j < |names| ==> names[i] != names[j]
    ensures Only(Batch(infos, names, status, e), name) ==
            if name in names then NoteOf(infos[name], name, status[name], e) else []
  {
    hide NoteOf, Only;
    if names == [] {
      OnlyNone(name);
    } else {
      var n := |names| - 1;
      var own := names[n];
      var last := NoteOf(infos[own], own, status[own], e);
      NoteShape(infos[own], own, status[own], e);
      BatchPerSensor(infos, names[..n], status, e, name);
      OnlyNote(Batch(infos, names[..n], status, e), last, name);
      InAllButLast(names, name);
    }
  }

  lemma InAllButLast(names: seq<string>, name: string)
    requires names != [] && forall i, j :: 0 <= i < j < |names| ==> names[i] != names[j]
    ensures var n := |names| - 1;
      name in names[..n] <==> name in names && name != names[n]
  {
    var n := |names| - 1;
    if name in names && name != names[n] {
      var k :| 0 <= k < |names| && names[k] == name;
      assert names[..n][k] == name;
    }
  }

  lemma OnlyNone(name: string)
    ensures Only([], name) == []
  {
  }

  lemma NoteShape(info: SensorInfo, name: string, st: SensorStatus, e: Event)
    requires info.Valid()
    ensures |NoteOf(info, name, st, e)| <= 1
    ensures NoteOf(info, name, st, e) != [] ==> NoteOf(info, name, st, e)[0].name == name
  {
  }

  /** A configured sensor map: distinct names, all of them known. */
  ghost predicate Configuration(infos: map<string, SensorInfo>, names: seq<string>) {
    && (forall i, j :: 0 <= i < j < |names| ==> names[i] != names[j])
    && (forall k :: 0 <= k < |names| ==> names[k] in infos && infos[names[k]].Valid())
    && (forall n :: n in infos ==> n in names)
  }

  /** Sensors before position `i` have made their step, the others are as they were. */
  ghost predicate Progress(infos: map<string, SensorInfo>, names: seq<string>, e: Event, i: nat,
                           before: map<string, SensorStatus>, now: map<string, SensorStatus>)
    requires Configuration(infos, names) && i <= |names| && before.Keys == infos.Keys == now.Keys
  {
    && (forall k :: 0 <= k < i ==> now[names[k]] == StatusAfter(infos[names[k]], names[k], before[names[k]], e))
    && (forall k :: i <= k < |names| ==> now[names[k]] == before[names[k]])
  }

  /** Some sensor before position `i` asks for fast polling. */
  ghost predicate TriggeredUpTo(infos: map<string, SensorInfo>, names: seq<string>, e: Event, i: nat,
                                now: map<string, SensorStatus>)
    requires Configuration(infos, names) && i <= |names| && infos.Keys == now.Keys
  {
    exists k :: 0 <= k < i && Triggers(infos[names[k]], names[k], now[names[k]], e)
  }

  lemma ProgressStep(infos: map<string, SensorInfo>, names: seq<string>, e: Event, i: nat,
                     before: map<string, SensorStatus>, now: map<string, SensorStatus>, st: SensorStatus)
    requires Configuration(infos, names) && i < |names| && before.Keys == infos.Keys == now.Keys
    requires Progress(infos, names, e, i, before, now)
    requires st == StatusAfter(infos[names[i]], names[i], now[names[i]], e)
    ensures now[names[i]] == before[names[i]]
    ensures now[names[i] := st].Keys == infos.Keys
    ensures Progress(infos, names, e, i + 1, before, now[names[i] := st])
  {
    hide StatusAfter;
    assert now[names[i] := st].Keys == infos.Keys;
  }

  lemma TriggerStep(infos: map<string, SensorInfo>, names: seq<string>, e: Event, i: nat,
                    now: map<string, SensorStatus>, st: SensorStatus)
    requires Configuration(infos, names) && i < |names| && infos.Keys == now.Keys
    ensures now[names[i] := st].Keys == infos.Keys
    ensures TriggeredUpTo(infos, names, e, i + 1, now[names[i] := st]) <==>
            TriggeredUpTo(infos, names, e, i, now) || Triggers(infos[names[i]], names[i], st, e)
  {
    hide Triggers;
    var next := now[names[i] := st];
    assert next.Keys == infos.Keys;
    if k :| 0 <= k < i && Triggers(infos[names[k]], names[k], now[names[k]], e) {
      assert next[names[k]] == now[names[k]];
    }
    assert next[names[i]] == st;
  }

  lemma BatchStep(infos: map<string, SensorInfo>, names: seq<string>, e: Event, i: nat,
                  before: map<string, SensorStatus>)
    requires Configuration(infos, names) && i < |names| && before.Keys == infos.Keys
    ensures Batch(infos, names[..i + 1], before, e) ==
            Batch(infos, names[..i], before, e) + NoteOf(infos[names[i]], names[i], before[names[i]], e)
  {
    assert names[..i + 1][..i] == names[..i];
  }

  // ---------------------------------------------------------------- runs of the watcher

  /** The status map after a run. */
  ghost function StatusMap(infos: map<string, SensorInfo>, es: seq<Event>): (m: map<string, SensorStatus>)
    requires forall n :: n in infos ==> infos[n].Valid()
    ensures m.Keys == infos.Keys && forall n :: n in infos ==> m[n] == RunStatus(infos[n], n, es)
  {
    map n | n in infos :: RunStatus(infos[n], n, es)
  }

  /** The batches of a run, one for each call. */
  ghost function Batches(infos: map<string, SensorInfo>, names: seq<string>, es: seq<Event>): seq<seq<Temperature>>
    requires Configuration(infos, names)
  {
    ConfiguredValid(infos, names);
    if es == [] then []
    else
      var before := es[..|es| - 1];
      Batches(infos, names, before) + [Batch(infos, names, StatusMap(infos, before), es[|es| - 1])]
  }

  lemma ConfiguredValid(infos: map<string, SensorInfo>, names: seq<string>)
    requires Configuration(infos, names)
    ensures forall n :: n in infos ==> infos[n].Valid()
  {
    forall n | n in infos ensures infos[n].Valid() {
      var k :| 0 <= k < |names| && names[k] == n;
    }
  }

  /** Once every sensor has made its step, the status map is that of the longer run. */
  lemma AllVisited(infos: map<string, SensorInfo>, names: seq<string>, es: seq<Event>, e: Event,
                   before: map<string, SensorStatus>, now: map<string, SensorStatus>)
    requires Configuration(infos, names) && before.Keys == infos.Keys == now.Keys
    requires (ConfiguredValid(infos, names); before == StatusMap(infos, es))
    requires Progress(infos, names, e, |names|, before, now)
    ensures (ConfiguredValid(infos, names); now == StatusMap(infos, es + [e]))
    ensures Batches(infos, names, es + [e]) == Batches(infos, names, es) + [Batch(infos, names, before, e)]
  {
    hide StatusAfter, Batch;
    ConfiguredValid(infos, names);
    assert (es + [e])[..|es + [e]| - 1] == es;
    forall n | n in infos ensures now[n] == RunStatus(infos[n], n, es + [e]) {
      var k :| 0 <= k < |names| && names[k] == n;
    }
  }

  function Concat(bs: seq<seq<Temperature>>): seq<Temperature> {
    if bs == [] then [] else Concat(bs[..|bs| - 1]) + bs[|bs| - 1]
  }

  lemma {:induction false} OnlyConcat(a: seq<Temperature>, b: seq<Temperature>, name: string)
    ensures Only(a + b, name) == Only(a, name) + Only(b, name)
  {
    if b == [] {
      assert a + b == a;
    } else {
      var front := b[..|b| - 1];
      assert (a + b)[..|a + b| - 1] == a + front;
      OnlyConcat(a, front, name);
    }
  }

  /** Over every run of the watcher, all batches together hold for each sensor exactly its own notifications. */
  lemma {:induction false} BatchesPerSensor(infos: map<string, SensorInfo>, names: seq<string>, es: seq<Event>,
                                            name: string)
    requires Configuration(infos, names) && name in infos && infos[name].Valid()
    ensures Only(Concat(Batches(infos, names, es)), name) == RunNotes(infos[name], name, es)
  {
    hide NoteOf, Only;
    if es == [] {
      OnlyNone(name);
    } else {
      ConfiguredValid(infos, names);
      var before, e := es[..|es| - 1], es[|es| - 1];
      var bs, st := Batches(infos, names, before), StatusMap(infos, before);
      var b := Batch(infos, names, st, e);
      BatchesPerSensor(infos, names, before, name);
      BatchPerSensor(infos, names, st, e, name);
      assert (bs + [b])[..|bs|] == bs;
      OnlyConcat(Concat(bs), b, name);
    }
  }

  class ThermalHelper {
    const infos: map<string, SensorInfo>
    /** The keys of the sensor map in iteration order. */
    const names: seq<string>
    var status: map<string, SensorStatus>
    /** Every call of the watcher so far, and the batches it sent. */
    ghost var events: seq<Event>
    ghost var batches: seq<seq<Temperature>>

    /** The shape of the fields, which also holds within a call. */
    ghost predicate Shaped()
      reads this
    {
      Configuration(infos, names) && status.Keys == infos.Keys
    }

    /** Status map and batches are those of the run so far. */
    ghost predicate Valid()
      reads this
    {
      && Shaped()
      && (ConfiguredValid(infos, names); status == StatusMap(infos, events))
      && batches == Batches(infos, names, events)
    }

    /** The status map is initialised to NONE for every configured sensor. */
    constructor (infos: map<string, SensorInfo>, names: seq<string>)
      requires Configuration(infos, names)
      ensures Valid() && this.infos == infos && this.names == names
      ensures events == [] && forall n :: n in infos ==> status[n] == INITIAL
    {
      this.infos := infos;
      this.names := names;
      status := map n | n in infos :: INITIAL;
      events, batches := [], [];
    }

    /** `readTemperature` (2.0): reads the stored levels, never changes them. */
    method ReadTemperature(name: string, reading: Option<real>)
      returns (ok: bool, temp: Temperature, hot: Severity, cold: Severity)
      requires Shaped() && name in infos && infos[name].Valid()
      ensures ok == reading.Some?
      ensures ok ==> temp == Temperature(infos[name].kind, name, reading.value, Max(hot, cold))
      ensures ok ==> temp.severity >= hot && temp.severity >= cold && (temp.severity == hot || temp.severity == cold)
      ensures ok && infos[name].monitor ==>
        SensorStatus(Max(hot, cold), hot, cold) == Updated(infos[name], status[name], reading.value)
      ensures ok && !infos[name].monitor ==> hot == NONE && cold == NONE
    {
      hot, cold := NONE, NONE;
      temp := Temperature(0, name, 0.0, NONE);
      if reading.None? {
        return false, temp, hot, cold;
      }
      var info := infos[name];
      if info.monitor {
        var prev := status[name];
        hot, cold := GetSeverityFromThresholds(info.hot, info.cold, prev.prevHot, prev.prevCold, reading.value);
      }
      temp := Temperature(info.kind, name, reading.value, Max(hot, cold));
      ok := true;
    }

    /** The update under the writer lock. */
    method Store(st: SensorStatus, temp: Temperature, hot: Severity, cold: Severity)
      returns (st': SensorStatus, notes: seq<Temperature>)
      ensures st' == SensorStatus(temp.severity, hot, cold)
      ensures notes == if temp.severity == st.severity then [] else [temp]
    {
      st', notes := st, [];
      if hot != st'.prevHot {
        st' := st'.(prevHot := hot);
      }
      if cold != st'.prevCold {
        st' := st'.(prevCold := cold);
      }
      if temp.severity != st'.severity {
        notes := [temp];
        st' := st'.(severity := temp.severity);
      }
    }

    /** The body of the watcher loop for one sensor. */
    method CheckSensor(name: string, e: Event) returns (notes: seq<Temperature>, triggered: bool)
      requires Shaped() && name in infos && infos[name].Valid()
      modifies this`status
      ensures Shaped()
      ensures status == old(status)[name := StatusAfter(infos[name], name, old(status)[name], e)]
      ensures notes == NoteOf(infos[name], name, old(status)[name], e)
      ensures triggered == Triggers(infos[name], name, status[name], e)
    {
      hide Updated, Configuration;
      notes, triggered := [], false;
      var st := status[name];
      status := status[name := st];
      if !infos[name].monitor {
        return;
      }
      if e.uevents != {} && name !in e.uevents {
        triggered := st.severity != NONE;
        return;
      }
      var ok, temp, hot, cold := ReadTemperature(name, if name in e.readings then Some(e.readings[name]) else None);
      if !ok {
        return;
      }
      st, notes := Store(st, temp, hot, cold);
      status := status[name := st];
      triggered := st.severity != NONE;
    }

    /** `thermalWatcherCallbackFunc`: every sensor makes one step, and one batch is sent. */
    method WatcherCallback(e: Event) returns (temps: seq<Temperature>, triggered: bool)
      requires Valid()
      modifies this
      ensures Valid() && events == old(events) + [e] && batches == old(batches) + [temps]
      ensures Progress(infos, names, e, |names|, old(status), status)
      ensures temps == Batch(infos, names, old(status), e)
      ensures triggered == TriggeredUpTo(infos, names, e, |names|, status)
      ensures triggered <==>
        exists n :: n in infos && infos[n].monitor && status[n].severity != NONE &&
                    ((e.uevents != {} && n !in e.uevents) || n in e.readings)
    {
      hide NoteOf, Triggers, StatusAfter, Progress, TriggeredUpTo, Batch;
      ghost var before := status;
      NothingVisited(infos, names, e, before);
      temps, triggered := [], false;
      var i := 0;
      while i < |names|
        invariant 0 <= i <= |names| && Shaped() && events == old(events) && batches == old(batches)
        invariant Progress(infos, names, e, i, before, status)
        invariant temps == Batch(infos, names[..i], before, e)
        invariant triggered == TriggeredUpTo(infos, names, e, i, status)
      {
        BatchStep(infos, names, e, i, before);
        ghost var now := status;
        var notes, t := CheckSensor(names[i], e);
        ProgressStep(infos, names, e, i, before, now, status[names[i]]);
        TriggerStep(infos, names, e, i, now, status[names[i]]);
        temps := temps + notes;
        if t {
          triggered := true;
        }
        i := i + 1;
      }
      assert names[..i] == names;
      AllVisited(infos, names, events, e, before, status);
      TriggeredIs(infos, names, e, status);
      events, batches := events + [e], batches + [temps];
    }
  }

  lemma TriggeredIs(infos: map<string, SensorInfo>, names: seq<string>, e: Event, now: map<string, SensorStatus>)
    requires Configuration(infos, names) && infos.Keys == now.Keys
    ensures TriggeredUpTo(infos, names, e, |names|, now) <==>
      exists n :: n in infos && infos[n].monitor && now[n].severity != NONE &&
                  ((e.uevents != {} && n !in e.uevents) || n in e.readings)
  {
    if n :| n in infos && infos[n].monitor && now[n].severity != NONE &&
            ((e.uevents != {} && n !in e.uevents) || n in e.readings) {
      var k :| 0 <= k < |names| && names[k] == n;
      assert Triggers(infos[names[k]], names[k], now[names[k]], e);
    }
  }

  lemma NothingVisited(infos: map<string, SensorInfo>, names: seq<string>, e: Event, before: map<string, SensorStatus>)
    requires Configuration(infos, names) && before.Keys == infos.Keys
    ensures Progress(infos, names, e, 0, before, before)
    ensures !TriggeredUpTo(infos, names, e, 0, before)
    ensures Batch(infos, names[..0], before, e) == []
  {
  }
}
