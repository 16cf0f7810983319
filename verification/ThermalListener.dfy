/**
  From sensor to listener: the batches of the watcher (thermal/thermal-helper.cpp) sent through
  the callback registry (thermal/Thermal.cpp).  An empty batch, which the watcher does not
  send, delivers nothing.
 */
module ThermalListener {
  import opened ThermalSeverity
  import opened ThermalWatcher
  import opened ThermalCallbacks

  /** The batches that a run of the registry sends. */
  function SentBatches(ops: seq<Op>): seq<seq<Temperature>> {
    if |ops| == 0 then [] else (if ops[0].Send? then [ops[0].temps] else []) + SentBatches(ops[1..])
  }

  /** The callback is not unregistered, and every delivery to it succeeds. */
  ghost predicate KeepsListening(s: Setting, ops: seq<Op>) {
    && (forall k :: 0 <= k < |ops| ==> ops[k] != Op.Unregister(s.callback))
    && NoFailure(s, Offered(ops, s.callback))
  }

  /** The temperatures that a setting wants. */
  function Wanted(s: Setting, ts: seq<Temperature>): seq<Temperature> {
    if ts == [] then [] else (if Wants(s, ts[0]) then [ts[0]] else []) + Wanted(s, ts[1..])
  }

  lemma {:induction false} WantedConcat(s: Setting, a: seq<Temperature>, b: seq<Temperature>)
    ensures Wanted(s, a + b) == Wanted(s, a) + Wanted(s, b)
  {
    if a == [] {
      assert a + b == b;
    } else {
      assert (a + b)[1..] == a[1..] + b && (a + b)[0] == a[0];
      WantedConcat(s, a[1..], b);
    }
  }

  function Readings(answers: seq<Answer>): seq<Temperature> {
    if answers == [] then [] else [answers[0].reading] + Readings(answers[1..])
  }

  /** Without a failure, all wanted temperatures are received. */
  lemma {:induction false} AllReceived(s: Setting, answers: seq<Answer>)
    requires NoFailure(s, answers)
    ensures UpToFailure(s, answers) == Wanted(s, Readings(answers))
  {
    if answers != [] {
      assert answers[0] in answers;
      AllReceived(s, answers[1..]);
      assert Readings(answers)[1..] == Readings(answers[1..]);
    }
  }

  lemma {:induction false} ReadingsConcat(a: seq<Answer>, b: seq<Answer>)
    ensures Readings(a + b) == Readings(a) + Readings(b)
  {
    if a == [] {
      assert a + b == b;
    } else {
      assert (a + b)[1..] == a[1..] + b && (a + b)[0] == a[0];
      ReadingsConcat(a[1..], b);
    }
  }

  lemma {:induction false} AnswersReadings(ts: seq<Temperature>, i: nat, ok: (Callback, nat) -> bool, c: Callback)
    ensures Readings(Answers(ts, i, ok, c)) == ts
    decreases |ts|
  {
    if ts != [] {
      AnswersReadings(ts[1..], i + 1, ok, c);
      assert Answers(ts, i, ok, c)[1..] == Answers(ts[1..], i + 1, ok, c);
    }
  }

  lemma {:induction false} ConcatFirst(b: seq<Temperature>, bs: seq<seq<Temperature>>)
    ensures Concat([b] + bs) == b + Concat(bs)
  {
    if bs == [] {
      assert ([b] + bs)[..0] == [];
    } else {
      var front := bs[..|bs| - 1];
      assert ([b] + bs)[..|bs|] == [b] + front;
      ConcatFirst(b, front);
    }
  }

  /** As long as the callback stays registered, it is offered all batches. */
  lemma {:induction false} OfferedAll(ops: seq<Op>, c: Callback)
    requires forall k :: 0 <= k < |ops| ==> ops[k] != Op.Unregister(c)
    ensures Readings(Offered(ops, c)) == Concat(SentBatches(ops))
  {
    if |ops| > 0 {
      var rest := ops[1..];
      assert ops[0] != Op.Unregister(c);
      OfferedAll(rest, c);
      if ops[0].Send? {
        AnswersReadings(ops[0].temps, 0, ops[0].ok, c);
        ReadingsConcat(Answers(ops[0].temps, 0, ops[0].ok, c), Offered(rest, c));
        ConcatFirst(ops[0].temps, SentBatches(rest));
      } else {
        assert [] + SentBatches(rest) == SentBatches(rest);
      }
    }
  }

  /** Filtering by kind keeps the notifications of a sensor of that kind. */
  lemma {:induction false} OnlyWanted(s: Setting, ts: seq<Temperature>, name: string)
    requires forall t :: t in ts && t.name == name ==> Wants(s, t)
    ensures Only(Wanted(s, ts), name) == Only(ts, name)
  {
    if ts != [] {
      var front, t := ts[..|ts| - 1], ts[|ts| - 1];
      assert ts == front + [t];
      OnlyWanted(s, front, name);
      WantedConcat(s, front, [t]);
      OnlyConcat(Wanted(s, front), Wanted(s, [t]), name);
      assert [t][1..] == [] && [t][..0] == [];
    }
  }

  lemma {:induction false} ConcatBatches(a: seq<seq<Temperature>>, b: seq<seq<Temperature>>)
    ensures Concat(a + b) == Concat(a) + Concat(b)
  {
    if b == [] {
      assert a + b == a;
    } else {
      var front := b[..|b| - 1];
      assert (a + b)[..|a + b| - 1] == a + front;
      ConcatBatches(a, front);
    }
  }

  /** What a batch says of a sensor carries its kind. */
  lemma {:induction false} BatchKind(infos: map<string, SensorInfo>, names: seq<string>,
                                     status: map<string, SensorStatus>, e: Event, t: Temperature)
    requires forall k :: 0 <= k < |names| ==> names[k] in infos && names[k] in status && infos[names[k]].Valid()
    requires t in Batch(infos, names, status, e)
    ensures t.name in infos && t.kind == infos[t.name].kind
  {
    var n := |names| - 1;
    if t in Batch(infos, names[..n], status, e) {
      BatchKind(infos, names[..n], status, e, t);
    }
  }

  lemma {:induction false} BatchesKind(infos: map<string, SensorInfo>, names: seq<string>, es: seq<Event>,
                                       t: Temperature)
    requires Configuration(infos, names) && t in Concat(Batches(infos, names, es))
    ensures t.name in infos && t.kind == infos[t.name].kind
  {
    ConfiguredValid(infos, names);
    var before, e := es[..|es| - 1], es[|es| - 1];
    var bs, b := Batches(infos, names, before), Batch(infos, names, StatusMap(infos, before), e);
    assert (bs + [b])[..|bs|] == bs;
    if t in Concat(bs) {
      BatchesKind(infos, names, before, t);
    } else {
      BatchKind(infos, names, StatusMap(infos, before), e, t);
    }
  }

  /** The severity a listener knows that starts with `known`. */
  function ReplayFrom(known: Severity, notes: seq<Temperature>): Severity {
    if notes == [] then known else notes[|notes| - 1].severity
  }

  lemma ReplaySplit(a: seq<Temperature>, b: seq<Temperature>)
    ensures Replay(a + b) == ReplayFrom(Replay(a), b)
  {
    if b == [] {
      assert a + b == a;
    }
  }

  /**
    A callback registers when the watcher has made the calls `es0`, and keeps listening while it
    makes the rest of `es`.  Then it receives exactly the notifications that a sensor it wants
    makes in between, in order; and replaying them on the severity stored when it registered
    gives the severity stored in the end.
   */
  lemma ListenerKnows(infos: map<string, SensorInfo>, names: seq<string>, es0: seq<Event>, es: seq<Event>,
                      before: seq<Op>, s: Setting, later: seq<Op>, name: string)
    requires Configuration(infos, names) && name in infos && infos[name].Valid()
    requires SentBatches(before) == Batches(infos, names, es0)
    requires SentBatches(before) + SentBatches(later) == Batches(infos, names, es)
    requires s.callback != 0 && !Known(RegistryOf([], before), s.callback)
    requires NotAgain(RegistryOf([], before) + [s], later, s.callback) && KeepsListening(s, later)
    requires !s.filtered || s.kind == infos[name].kind
    ensures var run := before + [Register(s.callback, s.filtered, s.kind)] + later;
      && LogFrom([], before) <= LogFrom([], run)
      && var heard := Only(Received(LogFrom([], run)[|LogFrom([], before)|..], s.callback), name);
         && RunNotes(infos[name], name, es) == RunNotes(infos[name], name, es0) + heard
         && RunStatus(infos[name], name, es).severity == ReplayFrom(RunStatus(infos[name], name, es0).severity, heard)
  {
    hide RunNotes, RunStatus, Only, Batches, Configuration, LogFrom, RegistryOf, NotAgain, Received;
    var sent := Concat(SentBatches(later));
    ReceivedSinceRegistration(before, s, later);
    AllReceived(s, Offered(later, s.callback));
    OfferedAll(later, s.callback);
    HeardAll(infos, names, es0, es, SentBatches(before), SentBatches(later), s, name);
    RunConsistent(infos[name], name, es0);
    RunConsistent(infos[name], name, es);
    ReplaySplit(RunNotes(infos[name], name, es0), Only(sent, name));
  }

  lemma HeardAll(infos: map<string, SensorInfo>, names: seq<string>, es0: seq<Event>, es: seq<Event>,
                 first: seq<seq<Temperature>>, rest: seq<seq<Temperature>>, s: Setting, name: string)
    requires Configuration(infos, names) && name in infos && infos[name].Valid()
    requires first == Batches(infos, names, es0) && first + rest == Batches(infos, names, es)
    requires !s.filtered || s.kind == infos[name].kind
    ensures Only(Wanted(s, Concat(rest)), name) == Only(Concat(rest), name)
    ensures RunNotes(infos[name], name, es) == RunNotes(infos[name], name, es0) + Only(Concat(rest), name)
  {
    hide RunNotes, Only, Batches;
    ConcatBatches(first, rest);
    BatchesPerSensor(infos, names, es0, name);
    BatchesPerSensor(infos, names, es, name);
    OnlyConcat(Concat(first), Concat(rest), name);
    forall t | t in Concat(rest) && t.name == name ensures Wants(s, t) {
      assert t in Concat(first) + Concat(rest);
      BatchesKind(infos, names, es, t);
    }
    OnlyWanted(s, Concat(rest), name);
  }
}
