/**
  The callback registry of thermal/Thermal.cpp.  A callback is an identity, 0 being the null
  pointer; whether a delivery succeeds is the input `ok(callback, index of the temperature)`.
 */
module ThermalCallbacks {
  import opened ThermalSeverity

  type Callback = nat

  type Reading = Temperature

  datatype Setting = Setting(callback: Callback, filtered: bool, kind: nat)

  /** One call of `notifyThrottling`. */
  datatype Delivery = Delivery(callback: Callback, reading: Reading)

  datatype Status = SUCCESS | FAILURE

  predicate Wants(s: Setting, t: Reading) { !s.filtered || t.kind == s.kind }

  ghost predicate Distinct(cs: seq<Setting>) {
    forall i, j :: 0 <= i < j < |cs| ==> cs[i].callback != cs[j].callback
  }

  predicate Known(cs: seq<Setting>, c: Callback) {
    exists i :: 0 <= i < |cs| && cs[i].callback == c
  }

  // ---------------------------------------------------------------- one temperature

  /** The settings that stay after temperature number `i`, in order. */
  function Kept(cs: seq<Setting>, t: Reading, i: nat, ok: (Callback, nat) -> bool): seq<Setting> {
    if cs == [] then []
    else
      var s := cs[|cs| - 1];
      Kept(cs[..|cs| - 1], t, i, ok) + if Wants(s, t) && !ok(s.callback, i) then [] else [s]
  }

  /** The deliveries attempted for one temperature, in order. */
  function Attempts(cs: seq<Setting>, t: Reading): seq<Delivery> {
    if cs == [] then []
    else
      var s := cs[|cs| - 1];
      Attempts(cs[..|cs| - 1], t) + if Wants(s, t) then [Delivery(s.callback, t)] else []
  }

  // ---------------------------------------------------------------- a batch

  function SettingsAfter(cs: seq<Setting>, ts: seq<Reading>, i: nat, ok: (Callback, nat) -> bool): seq<Setting>
    decreases |ts|
  {
    if ts == [] then cs else SettingsAfter(Kept(cs, ts[0], i, ok), ts[1..], i + 1, ok)
  }

  function LogOf(cs: seq<Setting>, ts: seq<Reading>, i: nat, ok: (Callback, nat) -> bool): seq<Delivery>
    decreases |ts|
  {
    if ts == [] then [] else Attempts(cs, ts[0]) + LogOf(Kept(cs, ts[0], i, ok), ts[1..], i + 1, ok)
  }

  lemma SendStep(cs: seq<Setting>, ts: seq<Reading>, i: nat, ok: (Callback, nat) -> bool)
    requires ts != []
    ensures SettingsAfter(cs, ts, i, ok) == SettingsAfter(Kept(cs, ts[0], i, ok), ts[1..], i + 1, ok)
    ensures LogOf(cs, ts, i, ok) == Attempts(cs, ts[0]) + LogOf(Kept(cs, ts[0], i, ok), ts[1..], i + 1, ok)
  {
  }

  lemma SendDone(cs: seq<Setting>, i: nat, ok: (Callback, nat) -> bool)
    ensures SettingsAfter(cs, [], i, ok) == cs && LogOf(cs, [], i, ok) == []
  {
  }

  /** What one callback should receive: its temperatures in order, up to and including its first failure. */
  function Expected(s: Setting, ts: seq<Reading>, i: nat, ok: (Callback, nat) -> bool): seq<Reading>
    decreases |ts|
  {
    if ts == [] then []
    else if !Wants(s, ts[0]) then Expected(s, ts[1..], i + 1, ok)
    else if ok(s.callback, i) then [ts[0]] + Expected(s, ts[1..], i + 1, ok)
    else [ts[0]]
  }

  /** No delivery to this setting fails in the batch. */
  predicate Survives(s: Setting, ts: seq<Reading>, i: nat, ok: (Callback, nat) -> bool)
    decreases |ts|
  {
    ts == [] || ((Wants(s, ts[0]) ==> ok(s.callback, i)) && Survives(s, ts[1..], i + 1, ok))
  }

  function Received(log: seq<Delivery>, c: Callback): seq<Reading> {
    if log == [] then []
    else Received(log[..|log| - 1], c) + if log[|log| - 1].callback == c then [log[|log| - 1].reading] else []
  }

  function Survivors(cs: seq<Setting>, ts: seq<Reading>, i: nat, ok: (Callback, nat) -> bool): seq<Setting> {
    if cs == [] then []
    else
      var s := cs[|cs| - 1];
      Survivors(cs[..|cs| - 1], ts, i, ok) + if Survives(s, ts, i, ok) then [s] else []
  }

  lemma {:induction false} ReceivedConcat(a: seq<Delivery>, b: seq<Delivery>, c: Callback)
    ensures Received(a + b, c) == Received(a, c) + Received(b, c)
  {
    if b == [] {
      assert a + b == a;
    } else {
      var b0 := b[..|b| - 1];
      assert (a + b)[..|a + b| - 1] == a + b0;
      ReceivedConcat(a, b0, c);
    }
  }

  lemma DistinctPrefix(cs: seq<Setting>, n: nat)
    requires Distinct(cs) && n <= |cs|
    ensures Distinct(cs[..n])
  {
  }

  /** A setting stays exactly when it was there and did not fail; order and distinctness are kept. */
  lemma {:induction false} KeptIs(cs: seq<Setting>, t: Reading, i: nat, ok: (Callback, nat) -> bool)
    requires Distinct(cs)
    ensures Distinct(Kept(cs, t, i, ok))
    ensures forall s :: s in Kept(cs, t, i, ok) <==> s in cs && (Wants(s, t) ==> ok(s.callback, i))
  {
    if cs != [] {
      var cs0, s := cs[..|cs| - 1], cs[|cs| - 1];
      DistinctPrefix(cs, |cs| - 1);
      KeptIs(cs0, t, i, ok);
      var k := Kept(cs0, t, i, ok);
      forall j | 0 <= j < |k| ensures k[j].callback != s.callback {
        assert k[j] in cs0;
      }
      assert forall x :: x in cs <==> x in cs0 || x == s by { assert cs == cs0 + [s]; }
    }
  }

  /** One temperature reaches a registered callback once if it wants it. */
  lemma {:induction false} AttemptsTo(cs: seq<Setting>, t: Reading, c: Callback)
    requires Distinct(cs)
    ensures !Known(cs, c) ==> Received(Attempts(cs, t), c) == []
    ensures forall s :: s in cs && s.callback == c ==> Received(Attempts(cs, t), c) == if Wants(s, t) then [t] else []
  {
    if cs != [] {
      var cs0, s := cs[..|cs| - 1], cs[|cs| - 1];
      DistinctPrefix(cs, |cs| - 1);
      AttemptsTo(cs0, t, c);
      assert cs == cs0 + [s];
      var last := if Wants(s, t) then [Delivery(s.callback, t)] else [];
      ReceivedConcat(Attempts(cs0, t), last, c);
      assert Received(last, c) == if Wants(s, t) && s.callback == c then [t] else [] by {
        if Wants(s, t) { assert last[..0] == []; }
      }
      if s.callback == c {
        assert !Known(cs0, c) by {
          forall k | 0 <= k < |cs0| ensures cs0[k].callback != c { assert cs[k] == cs0[k]; }
        }
        forall s' | s' in cs && s'.callback == c ensures s' == s {
          var k :| 0 <= k < |cs| && cs[k] == s';
        }
      }
    }
  }

  /** A callback that is not registered receives nothing from a batch. */
  lemma {:induction false} UnknownGetsNothing(cs: seq<Setting>, ts: seq<Reading>, i: nat,
                                              ok: (Callback, nat) -> bool, c: Callback)
    requires Distinct(cs) && !Known(cs, c)
    ensures Received(LogOf(cs, ts, i, ok), c) == []
    decreases |ts|
  {
    if ts != [] {
      var next := Kept(cs, ts[0], i, ok);
      KeptIs(cs, ts[0], i, ok);
      AttemptsTo(cs, ts[0], c);
      assert !Known(next, c) by {
        forall k | 0 <= k < |next| ensures next[k].callback != c { assert next[k] in cs; }
      }
      UnknownGetsNothing(next, ts[1..], i + 1, ok, c);
      ReceivedConcat(Attempts(cs, ts[0]), LogOf(next, ts[1..], i + 1, ok), c);
    }
  }

  /** Each registered callback receives exactly the expected readings of a batch. */
  lemma {:induction false} BatchDelivery(cs: seq<Setting>, ts: seq<Reading>, i: nat,
                                         ok: (Callback, nat) -> bool, s: Setting)
    requires Distinct(cs) && s in cs
    ensures Received(LogOf(cs, ts, i, ok), s.callback) == Expected(s, ts, i, ok)
    decreases |ts|
  {
    if ts != [] {
      var next := Kept(cs, ts[0], i, ok);
      KeptIs(cs, ts[0], i, ok);
      AttemptsTo(cs, ts[0], s.callback);
      ReceivedConcat(Attempts(cs, ts[0]), LogOf(next, ts[1..], i + 1, ok), s.callback);
      if Wants(s, ts[0]) && !ok(s.callback, i) {
        assert !Known(next, s.callback) by { OnlyOne(cs, next, s); }
        UnknownGetsNothing(next, ts[1..], i + 1, ok, s.callback);
      } else {
        BatchDelivery(next, ts[1..], i + 1, ok, s);
      }
    }
  }

  lemma OnlyOne(cs: seq<Setting>, next: seq<Setting>, s: Setting)
    requires Distinct(cs) && s in cs && s !in next && forall x :: x in next ==> x in cs
    ensures !Known(next, s.callback)
  {
    forall k | 0 <= k < |next| ensures next[k].callback != s.callback {
      assert next[k] in cs;
      var a :| 0 <= a < |cs| && cs[a] == next[k];
      var b :| 0 <= b < |cs| && cs[b] == s;
    }
  }

  /** The registry after a batch is the old one without the callbacks that failed, in the old order. */
  lemma {:induction false} SurvivorsInOrder(cs: seq<Setting>, ts: seq<Reading>, i: nat, ok: (Callback, nat) -> bool)
    ensures SettingsAfter(cs, ts, i, ok) == Survivors(cs, ts, i, ok)
    decreases |ts|
  {
    if ts == [] {
      AllSurvive(cs, i, ok);
    } else {
      SurvivorsInOrder(Kept(cs, ts[0], i, ok), ts[1..], i + 1, ok);
      SurvivorsStep(cs, ts, i, ok);
    }
  }

  lemma {:induction false} AllSurvive(cs: seq<Setting>, i: nat, ok: (Callback, nat) -> bool)
    ensures Survivors(cs, [], i, ok) == cs
  {
    if cs != [] {
      AllSurvive(cs[..|cs| - 1], i, ok);
      assert cs == cs[..|cs| - 1] + [cs[|cs| - 1]];
    }
  }

  lemma {:induction false} SurvivorsStep(cs: seq<Setting>, ts: seq<Reading>, i: nat, ok: (Callback, nat) -> bool)
    requires ts != []
    ensures Survivors(Kept(cs, ts[0], i, ok), ts[1..], i + 1, ok) == Survivors(cs, ts, i, ok)
  {
    if cs != [] {
      var cs0, s := cs[..|cs| - 1], cs[|cs| - 1];
      SurvivorsStep(cs0, ts, i, ok);
      var k0 := Kept(cs0, ts[0], i, ok);
      if Wants(s, ts[0]) && !ok(s.callback, i) {
        assert k0 + [] == k0;
        assert Survivors(cs0, ts, i, ok) + [] == Survivors(cs0, ts, i, ok);
      } else {
        assert (k0 + [s])[..|k0|] == k0;
      }
    }
  }

  // ---------------------------------------------------------------- the registry

  /** A registry without one callback. */
  function Without(cs: seq<Setting>, c: Callback): seq<Setting> {
    if cs == [] then []
    else Without(cs[..|cs| - 1], c) + if cs[|cs| - 1].callback == c then [] else [cs[|cs| - 1]]
  }

  lemma {:induction false} WithoutIs(cs: seq<Setting>, c: Callback)
    ensures Distinct(cs) ==> Distinct(Without(cs, c))
    ensures forall s :: s in Without(cs, c) <==> s in cs && s.callback != c
    ensures !Known(cs, c) ==> Without(cs, c) == cs
  {
    if cs != [] {
      var cs0, s := cs[..|cs| - 1], cs[|cs| - 1];
      assert cs == cs0 + [s];
      WithoutIs(cs0, c);
      var w := Without(cs0, c);
      if Distinct(cs) {
        DistinctPrefix(cs, |cs| - 1);
        forall j | 0 <= j < |w| ensures w[j].callback != s.callback { assert w[j] in cs0; }
      }
      if !Known(cs, c) {
        assert !Known(cs0, c) by {
          forall k | 0 <= k < |cs0| ensures cs0[k].callback != c { assert cs[k] == cs0[k]; }
        }
        assert cs[|cs| - 1].callback != c;
      }
    }
  }

  lemma WithoutKeeps(cs: seq<Setting>, c: Callback)
    requires Distinct(cs) && forall s :: s in cs ==> s.callback != 0
    ensures Distinct(Without(cs, c)) && (forall s :: s in Without(cs, c) ==> s.callback != 0)
    ensures !Known(Without(cs, c), c)
  {
    WithoutIs(cs, c);
    UnknownIff(Without(cs, c), c);
  }

  // ---------------------------------------------------------------- runs

  /** The calls that change the registry or deliver; every batch comes with its own answers. */
  datatype Op =
    | Register(callback: Callback, filtered: bool, kind: nat)
    | Unregister(callback: Callback)
    | Send(temps: seq<Reading>, ok: (Callback, nat) -> bool)

  function RegistryAfter(cs: seq<Setting>, op: Op): seq<Setting> {
    match op
    case Register(c, filtered, kind) => if c == 0 || Known(cs, c) then cs else cs + [Setting(c, filtered, kind)]
    case Unregister(c) => if c == 0 then cs else Without(cs, c)
    case Send(temps, ok) => SettingsAfter(cs, temps, 0, ok)
  }

  function LogStep(cs: seq<Setting>, op: Op): seq<Delivery> {
    if op.Send? then LogOf(cs, op.temps, 0, op.ok) else []
  }

  /** The registry after a run that starts with registry `cs`, and everything delivered in it. */
  function RegistryOf(cs: seq<Setting>, ops: seq<Op>): seq<Setting>
    decreases |ops|
  {
    if |ops| == 0 then cs else RegistryOf(RegistryAfter(cs, ops[0]), ops[1..])
  }

  function LogFrom(cs: seq<Setting>, ops: seq<Op>): seq<Delivery>
    decreases |ops|
  {
    if |ops| == 0 then [] else LogStep(cs, ops[0]) + LogFrom(RegistryAfter(cs, ops[0]), ops[1..])
  }

  /** A run in two parts. */
  lemma {:induction false} RunsCompose(cs: seq<Setting>, a: seq<Op>, b: seq<Op>)
    ensures RegistryOf(cs, a + b) == RegistryOf(RegistryOf(cs, a), b)
    ensures LogFrom(cs, a + b) == LogFrom(cs, a) + LogFrom(RegistryOf(cs, a), b)
    decreases |a|
  {
    hide RegistryAfter, LogStep;
    if |a| == 0 {
      assert a + b == b;
    } else {
      assert (a + b)[1..] == a[1..] + b && (a + b)[0] == a[0];
      RunsCompose(RegistryAfter(cs, a[0]), a[1..], b);
    }
  }

  lemma OneMore(ops: seq<Op>, op: Op)
    ensures RegistryOf([], ops + [op]) == RegistryAfter(RegistryOf([], ops), op)
    ensures LogFrom([], ops + [op]) == LogFrom([], ops) + LogStep(RegistryOf([], ops), op)
  {
    hide RegistryAfter, LogStep;
    RunsCompose([], ops, [op]);
    OneOp(RegistryOf([], ops), op);
  }

  lemma OneOp(cs: seq<Setting>, op: Op)
    ensures RegistryOf(cs, [op]) == RegistryAfter(cs, op) && LogFrom(cs, [op]) == LogStep(cs, op)
  {
    hide RegistryAfter, LogStep;
    assert [op][1..] == [];
    assert LogFrom(cs, [op]) == LogStep(cs, op) + LogFrom(RegistryAfter(cs, op), [op][1..]);
  }

  /** A temperature and whether its delivery to one callback works. */
  datatype Answer = Answer(reading: Reading, ok: bool)

  function Answers(ts: seq<Reading>, i: nat, ok: (Callback, nat) -> bool, c: Callback): seq<Answer>
    decreases |ts|
  {
    if ts == [] then [] else [Answer(ts[0], ok(c, i))] + Answers(ts[1..], i + 1, ok, c)
  }

  /** All temperatures of all batches until the callback is unregistered, with its answers. */
  function Offered(ops: seq<Op>, c: Callback): seq<Answer> {
    if |ops| == 0 then []
    else match ops[0]
      case Register(_, _, _) => Offered(ops[1..], c)
      case Unregister(d) => if d == c then [] else Offered(ops[1..], c)
      case Send(temps, ok) => Answers(temps, 0, ok, c) + Offered(ops[1..], c)
  }

  /** The readings a setting wants, in order, up to and including the first failure. */
  function UpToFailure(s: Setting, answers: seq<Answer>): seq<Reading> {
    if answers == [] then []
    else if !Wants(s, answers[0].reading) then UpToFailure(s, answers[1..])
    else [answers[0].reading] + if answers[0].ok then UpToFailure(s, answers[1..]) else []
  }

  ghost predicate NoFailure(s: Setting, answers: seq<Answer>) {
    forall a :: a in answers && Wants(s, a.reading) ==> a.ok
  }

  lemma {:induction false} UpToFailureConcat(s: Setting, a: seq<Answer>, b: seq<Answer>)
    ensures UpToFailure(s, a + b) == UpToFailure(s, a) + if NoFailure(s, a) then UpToFailure(s, b) else []
  {
    if a == [] {
      assert a + b == b;
    } else {
      assert (a + b)[1..] == a[1..] + b && (a + b)[0] == a[0];
      assert a == [a[0]] + a[1..];
      UpToFailureConcat(s, a[1..], b);
    }
  }

  /** One batch in terms of the answers. */
  lemma {:induction false} BatchAnswers(s: Setting, ts: seq<Reading>, i: nat, ok: (Callback, nat) -> bool)
    ensures Expected(s, ts, i, ok) == UpToFailure(s, Answers(ts, i, ok, s.callback))
    ensures Survives(s, ts, i, ok) <==> NoFailure(s, Answers(ts, i, ok, s.callback))
    decreases |ts|
  {
    if ts != [] {
      BatchAnswers(s, ts[1..], i + 1, ok);
      var rest := Answers(ts[1..], i + 1, ok, s.callback);
      assert Answers(ts, i, ok, s.callback)[1..] == rest;
    }
  }

  lemma {:induction false} SurvivorsAre(cs: seq<Setting>, ts: seq<Reading>, i: nat, ok: (Callback, nat) -> bool)
    requires Distinct(cs)
    ensures Distinct(Survivors(cs, ts, i, ok))
    ensures forall s :: s in Survivors(cs, ts, i, ok) <==> s in cs && Survives(s, ts, i, ok)
  {
    if cs != [] {
      var cs0, s := cs[..|cs| - 1], cs[|cs| - 1];
      DistinctPrefix(cs, |cs| - 1);
      SurvivorsAre(cs0, ts, i, ok);
      var k := Survivors(cs0, ts, i, ok);
      forall j | 0 <= j < |k| ensures k[j].callback != s.callback {
        assert k[j] in cs0;
      }
      assert forall x :: x in cs <==> x in cs0 || x == s by { assert cs == cs0 + [s]; }
    }
  }

  /** What stays registered after a call. */
  lemma AfterCall(cs: seq<Setting>, op: Op)
    requires Distinct(cs)
    ensures Distinct(RegistryAfter(cs, op))
    ensures op.Send? ==> forall s :: s in RegistryAfter(cs, op) <==> s in cs && Survives(s, op.temps, 0, op.ok)
    ensures op.Unregister? && op.callback != 0 ==>
      forall s :: s in RegistryAfter(cs, op) <==> s in cs && s.callback != op.callback
    ensures op.Register? ==>
      forall s :: s in RegistryAfter(cs, op) && s !in cs ==> s.callback == op.callback && !Known(cs, op.callback)
    ensures op.Register? ==> forall s :: s in cs ==> s in RegistryAfter(cs, op)
  {
    match op
    case Send(temps, ok) =>
      SurvivorsInOrder(cs, temps, 0, ok);
      SurvivorsAre(cs, temps, 0, ok);
    case Unregister(c) =>
      WithoutIs(cs, c);
    case Register(_, _, _) =>
  }

  /** No call of the run registers the callback anew: every attempt finds it registered. */
  ghost predicate NotAgain(cs: seq<Setting>, ops: seq<Op>, c: Callback)
    decreases |ops|
  {
    |ops| == 0 ||
    ((ops[0].Register? && ops[0].callback == c ==> Known(cs, c)) && NotAgain(RegistryAfter(cs, ops[0]), ops[1..], c))
  }

  lemma UnknownIff(cs: seq<Setting>, c: Callback)
    ensures Known(cs, c) <==> exists s :: s in cs && s.callback == c
  {
    if s :| s in cs && s.callback == c {
      var k :| 0 <= k < |cs| && cs[k] == s;
    }
    if Known(cs, c) {
      var k :| 0 <= k < |cs| && cs[k].callback == c;
      assert cs[k] in cs;
    }
  }

  /** Nothing reaches a callback that is not registered, until it registers. */
  lemma {:induction false} SilentUntilRegistered(cs: seq<Setting>, ops: seq<Op>, c: Callback)
    requires Distinct(cs) && c != 0 && !Known(cs, c) && NotAgain(cs, ops, c)
    ensures Received(LogFrom(cs, ops), c) == [] && !Known(RegistryOf(cs, ops), c)
    decreases |ops|
  {
    if |ops| > 0 {
      var op, next := ops[0], RegistryAfter(cs, ops[0]);
      AfterCall(cs, op);
      UnknownIff(cs, c);
      UnknownIff(next, c);
      hide RegistryAfter;
      SilentUntilRegistered(next, ops[1..], c);
      if op.Send? {
        UnknownGetsNothing(cs, op.temps, 0, op.ok, c);
      }
      ReceivedConcat(LogStep(cs, op), LogFrom(next, ops[1..]), c);
    }
  }

  /** What a registered callback receives over a run that does not register it anew. */
  lemma {:induction false} ReceivedFrom(cs: seq<Setting>, ops: seq<Op>, s: Setting)
    requires Distinct(cs) && s in cs && s.callback != 0 && NotAgain(cs, ops, s.callback)
    ensures Received(LogFrom(cs, ops), s.callback) == UpToFailure(s, Offered(ops, s.callback))
    decreases |ops|
  {
    if |ops| > 0 {
      var op, next, c := ops[0], RegistryAfter(cs, ops[0]), s.callback;
      AfterCall(cs, op);
      ReceivedConcat(LogStep(cs, op), LogFrom(next, ops[1..]), c);
      if s in next {
        ReceivedFrom(next, ops[1..], s);
      } else {
        OnlyOne(cs, next, s);
        SilentUntilRegistered(next, ops[1..], c);
      }
      if op.Send? {
        BatchDelivery(cs, op.temps, 0, op.ok, s);
        BatchAnswers(s, op.temps, 0, op.ok);
        UpToFailureConcat(s, Answers(op.temps, 0, op.ok, c), Offered(ops[1..], c));
      }
    }
  }

  lemma {:induction false} RunDistinct(cs: seq<Setting>, ops: seq<Op>)
    requires Distinct(cs)
    ensures Distinct(RegistryOf(cs, ops))
    decreases |ops|
  {
    if |ops| > 0 {
      AfterCall(cs, ops[0]);
      RunDistinct(RegistryAfter(cs, ops[0]), ops[1..]);
    }
  }

  /**
    In every run, what a callback received since it was registered are exactly the temperatures
    of all later batches that match its filter, in order, up to its unregistration or up to and
    including its first failed delivery, as long as it is not registered anew.
   */
  lemma ReceivedSinceRegistration(before: seq<Op>, s: Setting, later: seq<Op>)
    requires s.callback != 0 && !Known(RegistryOf([], before), s.callback)
    requires NotAgain(RegistryOf([], before) + [s], later, s.callback)
    ensures var run := before + [Register(s.callback, s.filtered, s.kind)] + later;
      && LogFrom([], before) <= LogFrom([], run)
      && Received(LogFrom([], run)[|LogFrom([], before)|..], s.callback) == UpToFailure(s, Offered(later, s.callback))
  {
    hide LogFrom, RegistryOf, NotAgain, Offered, UpToFailure;
    var reg := Register(s.callback, s.filtered, s.kind);
    OneMore(before, reg);
    RunsCompose([], before + [reg], later);
    RunDistinct([], before + [reg]);
    var cs := RegistryOf([], before) + [s];
    assert RegistryOf([], before + [reg]) == cs && s in cs;
    ReceivedFrom(cs, later, s);
    var log, rest := LogFrom([], before), LogFrom(cs, later);
    assert LogFrom([], before + [reg] + later) == log + rest;
    assert (log + rest)[|log|..] == rest;
  }

  /**
    One temperature and one registered callback: if it has no filter, or one for this kind, it
    receives the temperature and stays registered exactly if the delivery works; otherwise it
    receives nothing and stays.
   */
  lemma OneTemperature(cs: seq<Setting>, t: Reading, ok: (Callback, nat) -> bool, s: Setting)
    requires Distinct(cs) && s in cs
    ensures !s.filtered || t.kind == s.kind ==>
      && Received(LogOf(cs, [t], 0, ok), s.callback) == [t]
      && (s in SettingsAfter(cs, [t], 0, ok) <==> ok(s.callback, 0))
    ensures s.filtered && t.kind != s.kind ==>
      Received(LogOf(cs, [t], 0, ok), s.callback) == [] && s in SettingsAfter(cs, [t], 0, ok)
  {
    hide Received, Kept, Attempts;
    SendStep(cs, [t], 0, ok);
    assert [t][1..] == [];
    SendDone(Kept(cs, t, 0, ok), 1, ok);
    AttemptsTo(cs, t, s.callback);
    KeptIs(cs, t, 0, ok);
    assert Attempts(cs, t) + [] == Attempts(cs, t);
  }

  /** Some call of the run registered the callback, without a filter or for this kind. */
  ghost predicate AskedFor(ops: seq<Op>, c: Callback, kind: nat) {
    exists k :: 0 <= k < |ops| && ops[k].Register? && ops[k].callback == c && (!ops[k].filtered || ops[k].kind == kind)
  }

  /** Some batch of the run held the temperature. */
  ghost predicate WasSent(ops: seq<Op>, t: Reading) {
    exists k :: 0 <= k < |ops| && ops[k].Send? && t in ops[k].temps
  }

  ghost predicate Registered(ops: seq<Op>, s: Setting) {
    exists k :: 0 <= k < |ops| && ops[k] == Register(s.callback, s.filtered, s.kind)
  }

  lemma {:induction false} AttemptsAre(cs: seq<Setting>, t: Reading, d: Delivery)
    requires d in Attempts(cs, t)
    ensures d.reading == t && exists s :: s in cs && s.callback == d.callback && (!s.filtered || t.kind == s.kind)
  {
    var cs0, s := cs[..|cs| - 1], cs[|cs| - 1];
    if d in Attempts(cs0, t) {
      AttemptsAre(cs0, t, d);
    } else {
      assert s in cs;
    }
  }

  /** Every delivery of a batch is a temperature of it, to a setting that wants it. */
  lemma {:induction false} LogIs(cs: seq<Setting>, ts: seq<Reading>, i: nat, ok: (Callback, nat) -> bool, d: Delivery)
    requires Distinct(cs) && d in LogOf(cs, ts, i, ok)
    ensures d.reading in ts
    ensures exists s :: s in cs && s.callback == d.callback && (!s.filtered || d.reading.kind == s.kind)
    decreases |ts|
  {
    if d in Attempts(cs, ts[0]) {
      AttemptsAre(cs, ts[0], d);
    } else {
      KeptIs(cs, ts[0], i, ok);
      LogIs(Kept(cs, ts[0], i, ok), ts[1..], i + 1, ok, d);
    }
  }

  /** Every setting in the registry was registered. */
  lemma {:induction false} SettingsRegistered(ops: seq<Op>, s: Setting)
    requires s in RegistryOf([], ops)
    ensures Registered(ops, s)
  {
    if |ops| > 0 {
      var before, op := ops[..|ops| - 1], ops[|ops| - 1];
      assert ops == before + [op];
      OneMore(before, op);
      RunDistinct([], before);
      AfterCall(RegistryOf([], before), op);
      if s in RegistryOf([], before) {
        SettingsRegistered(before, s);
        var k :| 0 <= k < |before| && before[k] == Register(s.callback, s.filtered, s.kind);
        assert ops[k] == before[k];
      } else {
        assert op == Register(s.callback, s.filtered, s.kind);
        assert ops[|ops| - 1] == op;
      }
    }
  }

  /**
    Over every run nothing is delivered that was not sent, and nothing to a callback that did
    not register, without a filter or for that kind.
   */
  lemma {:induction false} OnlyWantedDelivered(ops: seq<Op>, d: Delivery)
    requires d in LogFrom([], ops)
    ensures WasSent(ops, d.reading) && AskedFor(ops, d.callback, d.reading.kind)
  {
    var before, op := ops[..|ops| - 1], ops[|ops| - 1];
    assert ops == before + [op];
    OneMore(before, op);
    if d in LogFrom([], before) {
      OnlyWantedDelivered(before, d);
      var k :| 0 <= k < |before| && before[k].Send? && d.reading in before[k].temps;
      var m :| 0 <= m < |before| && before[m].Register? && before[m].callback == d.callback &&
               (!before[m].filtered || before[m].kind == d.reading.kind);
      assert ops[k] == before[k] && ops[m] == before[m];
    } else {
      RunDistinct([], before);
      LogIs(RegistryOf([], before), op.temps, 0, op.ok, d);
      var s :| s in RegistryOf([], before) && s.callback == d.callback && (!s.filtered || d.reading.kind == s.kind);
      SettingsRegistered(before, s);
      var m :| 0 <= m < |before| && before[m] == Register(s.callback, s.filtered, s.kind);
      assert ops[m] == before[m] && ops[|ops| - 1] == op;
    }
  }

  class Thermal {
    var callbacks: seq<Setting>
    /** Every delivery attempted so far. */
    ghost var log: seq<Delivery>
    /** Every call so far. */
    ghost var history: seq<Op>

    ghost predicate Valid()
      reads this
    {
      && Distinct(callbacks) && (forall s :: s in callbacks ==> s.callback != 0)
      && callbacks == RegistryOf([], history) && log == LogFrom([], history)
    }

    constructor ()
      ensures Valid() && callbacks == [] && log == [] && history == []
    {
      callbacks, log, history := [], [], [];
    }

    /** `registerThermalChangedCallback` */
    method Register(c: Callback, filtered: bool, kind: nat) returns (status: Status)
      requires Valid()
      modifies this`callbacks, this`history
      ensures Valid() && history == old(history) + [Op.Register(c, filtered, kind)]
      ensures status == if c == 0 || Known(old(callbacks), c) then FAILURE else SUCCESS
      ensures callbacks == if status == SUCCESS then old(callbacks) + [Setting(c, filtered, kind)] else old(callbacks)
    {
      OneMore(history, Op.Register(c, filtered, kind));
      history := history + [Op.Register(c, filtered, kind)];
      if c == 0 {
        return FAILURE;
      }
      if Known(callbacks, c) {
        return FAILURE;
      }
      callbacks := callbacks + [Setting(c, filtered, kind)];
      status := SUCCESS;
    }

    /** `unregisterThermalChangedCallback` */
    method Unregister(c: Callback) returns (status: Status)
      requires Valid()
      modifies this`callbacks, this`history
      ensures Valid() && history == old(history) + [Op.Unregister(c)]
      ensures status == if c == 0 || !Known(old(callbacks), c) then FAILURE else SUCCESS
      ensures callbacks == if c == 0 then old(callbacks) else Without(old(callbacks), c)
      ensures !Known(callbacks, c)
    {
      hide RegistryOf, LogFrom, Distinct;
      OneMore(history, Op.Unregister(c));
      history := history + [Op.Unregister(c)];
      if c == 0 {
        return FAILURE;
      }
      var removed := false;
      var kept := [];
      var i := 0;
      while i < |callbacks|
        invariant 0 <= i <= |callbacks| && callbacks == old(callbacks)
        invariant kept == Without(callbacks[..i], c)
        invariant removed <==> exists k :: 0 <= k < i && callbacks[k].callback == c
      {
        assert callbacks[..i + 1][..i] == callbacks[..i];
        if callbacks[i].callback == c {
          removed := true;
        } else {
          kept := kept + [callbacks[i]];
        }
        i := i + 1;
      }
      assert callbacks[..i] == callbacks;
      WithoutKeeps(callbacks, c);
      callbacks := kept;
      status := if removed then SUCCESS else FAILURE;
    }

    /** One `remove_if` over the registry: delivers one temperature and drops the failures. */
    method Deliver(t: Reading, i: nat, ok: (Callback, nat) -> bool)
      modifies this`callbacks, this`log
      ensures callbacks == Kept(old(callbacks), t, i, ok)
      ensures log == old(log) + Attempts(old(callbacks), t)
    {
      var kept := [];
      var k := 0;
      while k < |callbacks|
        invariant 0 <= k <= |callbacks| && callbacks == old(callbacks)
        invariant kept == Kept(callbacks[..k], t, i, ok)
        invariant log == old(log) + Attempts(callbacks[..k], t)
      {
        var s := callbacks[k];
        assert callbacks[..k + 1][..k] == callbacks[..k] && callbacks[..k + 1][k] == s;
        var drop := false;
        if !s.filtered || t.kind == s.kind {
          log := log + [Delivery(s.callback, t)];
          drop := !ok(s.callback, i);
        }
        if !drop {
          kept := kept + [s];
        }
        k := k + 1;
      }
      assert callbacks[..k] == callbacks;
      callbacks := kept;
    }

    /** `sendThermalChangedCallback` */
    method Send(temps: seq<Reading>, ok: (Callback, nat) -> bool)
      requires Valid()
      modifies this
      ensures Valid() && history == old(history) + [Op.Send(temps, ok)]
      ensures callbacks == SettingsAfter(old(callbacks), temps, 0, ok)
      ensures log == old(log) + LogOf(old(callbacks), temps, 0, ok)
    {
      hide SettingsAfter, LogOf, Kept, Attempts, RegistryOf, LogFrom;
      OneMore(history, Op.Send(temps, ok));
      assert temps[0..] == temps;
      var i := 0;
      while i < |temps|
        invariant 0 <= i <= |temps| && history == old(history)
        invariant Distinct(callbacks) && forall s :: s in callbacks ==> s.callback != 0
        invariant SettingsAfter(callbacks, temps[i..], i, ok) == SettingsAfter(old(callbacks), temps, 0, ok)
        invariant log + LogOf(callbacks, temps[i..], i, ok) == old(log) + LogOf(old(callbacks), temps, 0, ok)
      {
        assert temps[i..][1..] == temps[i + 1..] && temps[i..][0] == temps[i];
        KeptIs(callbacks, temps[i], i, ok);
        SendStep(callbacks, temps[i..], i, ok);
        Deliver(temps[i], i, ok);
        i := i + 1;
      }
      assert temps[i..] == [];
      SendDone(callbacks, i, ok);
      history := history + [Op.Send(temps, ok)];
    }
  }
}
