/**
  When the shutter times of all completions, or of those of one camera, are sent in strictly
  increasing order, and interleavings for which they are not.
 */
module ShutterOrder {
  import opened Basics
  import opened ShutterTimes

  // ---------------------------------------------------------------- what is sent

  /** The requests whose times were sent, in order. */
  function Sends(es: seq<Event>): seq<nat> {
    if es == [] then [] else Sends(Front(es)) + if Last(es).SendShutter? then [Last(es).req] else []
  }

  lemma {:induction false} SendsStage(es: seq<Event>)
    requires Proper(es)
    ensures forall r :: r in Sends(es) <==> Stage(es, r) >= 5
    ensures forall i, j :: 0 <= i < j < |Sends(es)| ==> Sends(es)[i] != Sends(es)[j]
  {
    if es != [] {
      SendsStage(Front(es));
      assert forall i :: 0 <= i < |Sends(Front(es))| ==> Sends(Front(es))[i] in Sends(Front(es));
    }
  }

  lemma {:induction false} SendsAre(es: seq<Event>, stamps: Stamps)
    requires Proper(es)
    ensures |Exec(es, stamps).sent| == |Sends(es)|
    ensures forall i :: 0 <= i < |Sends(es)| ==>
      Exec(es, stamps).sent[i] == Sent(Sends(es)[i], Told(es, stamps, Sends(es)[i]))
  {
    if es != [] {
      var front, e := Front(es), Last(es);
      SendsAre(front, stamps);
      SendsStage(front);
      forall i | 0 <= i < |Sends(front)|
        ensures Told(es, stamps, Sends(front)[i]) == Told(front, stamps, Sends(front)[i])
      {
        assert Sends(front)[i] in Sends(front);
        ToldKept(es, stamps, Sends(front)[i]);
      }
    }
  }

  /** What a completion sends does not change once it has read again. */
  lemma ToldKept(es: seq<Event>, stamps: Stamps, r: nat)
    requires Proper(es) && es != [] && Stage(Front(es), r) >= 4
    ensures Told(es, stamps, r) == Told(Front(es), stamps, r)
  {
  }

  /** Of the requests in `rs`, those sent later report later times. */
  ghost predicate IncreasingOn(sent: seq<Sent>, rs: set<nat>) {
    forall i, j :: 0 <= i < j < |sent| && sent[i].req in rs && sent[j].req in rs ==> sent[i].time < sent[j].time
  }

  ghost predicate Increasing(sent: seq<Sent>) {
    forall i, j :: 0 <= i < j < |sent| ==> sent[i].time < sent[j].time
  }

  /** Of the requests in `rs`, whatever one sent later may send is built on whatever those before may send. */
  ghost predicate ChainOn(es: seq<Event>, rs: set<nat>) {
    forall i, j :: 0 <= i < j < |Sends(es)| && Sends(es)[i] in rs && Sends(es)[j] in rs ==>
      Later(es, Sends(es)[i], Sends(es)[j])
  }

  lemma ChainIncreases(es: seq<Event>, rs: set<nat>, stamps: Stamps)
    requires Proper(es) && ChainOn(es, rs)
    ensures IncreasingOn(Exec(es, stamps).sent, rs)
  {
    var s := Sends(es);
    SendsAre(es, stamps);
    SendsStage(es);
    forall i, j | 0 <= i < j < |s| && s[i] in rs && s[j] in rs
      ensures Told(es, stamps, s[i]) < Told(es, stamps, s[j])
    {
      assert s[i] in s && s[j] in s;
      LaterTold(es, stamps, s[i], s[j]);
    }
  }

  /** The times of `rs` are sent in increasing order for every sensor exactly when each builds on those before. */
  lemma IncreaseIff(es: seq<Event>, rs: set<nat>)
    requires Proper(es)
    ensures (forall stamps: Stamps :: IncreasingOn(Exec(es, stamps).sent, rs)) <==> ChainOn(es, rs)
  {
    hide Exec, Sends, Proper, Stage, Later, Told;
    if ChainOn(es, rs) {
      forall stamps: Stamps ensures IncreasingOn(Exec(es, stamps).sent, rs) {
        ChainIncreases(es, rs, stamps);
      }
    } else {
      var s := Sends(es);
      var i, j :| 0 <= i < j < |s| && s[i] in rs && s[j] in rs && !Later(es, s[i], s[j]);
      SendsStage(es);
      assert s[i] in s && s[j] in s;
      var stamps := NotLater(es, s[i], s[j]);
      SendsAre(es, stamps);
      assert !IncreasingOn(Exec(es, stamps).sent, rs);
    }
  }

  // ---------------------------------------------------------------- taking turns

  /** Every completion that has started has sent its time. */
  ghost predicate Quiet(es: seq<Event>) {
    forall r :: Stage(es, r) >= 1 ==> Stage(es, r) >= 5
  }

  /** `a` had written the shared variable when `b` compared with it, and had read it again when `b` wrote it. */
  predicate InTurn(es: seq<Event>, a: nat, b: nat) {
    Had(es, CompareClock(b), a, 3) && Had(es, WriteClock(b), a, 4)
  }

  /** Every completion takes its turn after all those that send before it. */
  ghost predicate Turns(es: seq<Event>) {
    forall i, j :: 0 <= i < j < |Sends(es)| ==> InTurn(es, Sends(es)[i], Sends(es)[j])
  }

  /** Of any two completions that have written, one took its turn after the other. */
  ghost predicate Apart(es: seq<Event>) {
    forall a, b :: a != b && Stage(es, a) >= 3 && Stage(es, b) >= 3 ==> InTurn(es, a, b) || InTurn(es, b, a)
  }

  lemma InTurnFront(es: seq<Event>, a: nat, b: nat)
    requires Proper(es) && es != [] && Stage(Front(es), b) >= 3
    ensures InTurn(es, a, b) == InTurn(Front(es), a, b)
  {
  }

  lemma ApartFront(es: seq<Event>)
    requires Proper(es) && es != [] && Apart(es)
    ensures Apart(Front(es))
  {
    forall a, b | a != b && Stage(Front(es), a) >= 3 && Stage(Front(es), b) >= 3
      ensures InTurn(Front(es), a, b) || InTurn(Front(es), b, a)
    {
      assert Stage(es, a) >= 3 && Stage(es, b) >= 3;
      InTurnFront(es, a, b);
      InTurnFront(es, b, a);
    }
  }

  /** If no two completions overlap, no update is lost: the shared variable builds on every time written. */
  lemma {:induction false} ApartKeeps(es: seq<Event>)
    requires Proper(es) && Apart(es)
    ensures forall a :: Stage(es, a) >= 3 ==> Based(es, a)
    ensures forall a, b :: Had(es, CompareClock(b), a, 3) ==> AtCompare(es, a, b)
    ensures forall a, b :: Had(es, ReadClock(b), a, 3) ==> AtRead(es, a, b)
  {
    if es != [] {
      ApartFront(es);
      ApartKeeps(Front(es));
      forall a | Stage(es, a) >= 3 ensures Based(es, a) {
        BasedFront(es, a);
        if Last(es).WriteClock? && Last(es).req != a {
          TurnBuilds(es, a);
        }
      }
    }
  }

  lemma TurnBuilds(es: seq<Event>, a: nat)
    requires Proper(es) && es != [] && Last(es).WriteClock? && Last(es).req != a && Stage(es, a) >= 3 && Apart(es)
    requires forall b :: Had(Front(es), CompareClock(b), a, 3) ==> AtCompare(Front(es), a, b)
    requires forall b :: Had(Front(es), ReadClock(b), a, 3) ==> AtRead(Front(es), a, b)
    ensures Builds(Front(es), a, Last(es).req)
  {
    var r := Last(es).req;
    assert InTurn(es, a, r) || InTurn(es, r, a);
    if InTurn(es, r, a) {
      HadIs(Front(es), CompareClock(a), r, 3);
    } else {
      assert Had(Front(es), CompareClock(r), a, 3);
      HadAtRead(Front(es), a, r, 3);
    }
  }

  /** Then every completion reads its own time again. */
  lemma {:induction false} ApartOwn(es: seq<Event>, r: nat)
    requires Proper(es) && Apart(es) && Stage(es, r) >= 4
    ensures Source(es, r) == r
  {
    ApartFront(es);
    if Last(es) == ReloadClock(r) {
      WriterWrote(Front(es));
      var w := Writer(Front(es)).value;
      if w != r {
        assert InTurn(Front(es), w, r) || InTurn(Front(es), r, w);
        WriterAfterRead(Front(es), r);
        if InTurn(Front(es), w, r) {
          HadAtRead(Front(es), w, r, 3);
        } else {
          HadIs(Front(es), WriteClock(w), r, 4);
        }
      }
    } else {
      ApartOwn(Front(es), r);
    }
  }

  lemma TurnsAreApart(es: seq<Event>)
    requires Proper(es) && Quiet(es) && Turns(es)
    ensures Apart(es)
  {
    SendsStage(es);
    var s := Sends(es);
    forall a, b | a != b && Stage(es, a) >= 3 && Stage(es, b) >= 3
      ensures InTurn(es, a, b) || InTurn(es, b, a)
    {
      assert a in s && b in s;
      var i :| 0 <= i < |s| && s[i] == a;
      var j :| 0 <= j < |s| && s[j] == b;
      assert i < j || j < i;
    }
  }

  /** Whoever has written last since `b` wrote had not written when `b` compared. */
  lemma {:induction false} WriterAfterCompare(es: seq<Event>, b: nat)
    requires Proper(es) && Stage(es, b) >= 3
    ensures Writer(es).Some? && !Had(es, CompareClock(b), Writer(es).value, 3)
  {
    if Last(es).WriteClock? {
      if Had(Front(es), CompareClock(b), Last(es).req, 3) {
        HadIs(Front(es), CompareClock(b), Last(es).req, 3);
      }
    } else {
      WriterAfterCompare(Front(es), b);
    }
  }

  /** If `b` wrote before `a` read again, `a` found a time that was written after `b` compared. */
  lemma {:induction false} SourceIsNew(es: seq<Event>, a: nat, b: nat)
    requires Proper(es) && Stage(es, a) >= 4 && Stage(es, b) >= 3 && !Had(es, WriteClock(b), a, 4)
    ensures !Had(es, CompareClock(b), Source(es, a), 3)
  {
    if Last(es) == ReloadClock(a) {
      WriterWrote(Front(es));
      WriterAfterCompare(Front(es), b);
    } else {
      SourceIsNew(Front(es), a, b);
    }
  }

  lemma LaterInTurn(es: seq<Event>, a: nat, b: nat)
    requires Proper(es) && Stage(es, a) >= 4 && Stage(es, b) >= 4 && Later(es, a, b)
    ensures InTurn(es, a, b)
  {
    BasedHad(es, a, b);
    BasedHad(es, Source(es, a), b);
    if !Had(es, WriteClock(b), a, 4) {
      SourceIsNew(es, a, b);
    }
  }

  lemma ApartLater(es: seq<Event>, a: nat, b: nat)
    requires Proper(es) && Apart(es) && Stage(es, a) >= 4 && Stage(es, b) >= 4 && InTurn(es, a, b)
    ensures Later(es, a, b)
  {
    ApartKeeps(es);
    ApartOwn(es, a);
    ApartOwn(es, b);
    HadAtRead(es, a, b, 3);
  }

  lemma ChainIffTurns(es: seq<Event>, all: set<nat>)
    requires Proper(es) && Quiet(es) && all == set r | r in Sends(es)
    ensures ChainOn(es, all) <==> Turns(es)
  {
    hide Later, InTurn, Stage, Proper;
    var s := Sends(es);
    SendsStage(es);
    if Turns(es) {
      TurnsAreApart(es);
      forall i, j | 0 <= i < j < |s| ensures Later(es, s[i], s[j]) {
        assert s[i] in s && s[j] in s;
        ApartLater(es, s[i], s[j]);
      }
    }
    if ChainOn(es, all) {
      forall i, j | 0 <= i < j < |s| ensures InTurn(es, s[i], s[j]) {
        assert s[i] in s && s[j] in s;
        LaterInTurn(es, s[i], s[j]);
      }
    }
  }

  /**
    Once all completions that started have sent their times, the times sent are strictly
    increasing for every sensor exactly when the completions took turns: of any two, the one
    that sent first had written when the other compared, and had read again when it wrote.
   */
  lemma TurnsIff(es: seq<Event>)
    requires Proper(es) && Quiet(es)
    ensures (forall stamps: Stamps :: Increasing(Exec(es, stamps).sent)) <==> Turns(es)
  {
    hide Exec, Sends, Proper, Stage;
    var all := set r | r in Sends(es);
    IncreaseIff(es, all);
    forall stamps: Stamps ensures Increasing(Exec(es, stamps).sent) <==> IncreasingOn(Exec(es, stamps).sent, all) {
      SendsAre(es, stamps);
      assert forall i :: 0 <= i < |Sends(es)| ==> Sends(es)[i] in Sends(es);
    }
    ChainIffTurns(es, all);
  }

  // ---------------------------------------------------------------- one after the other

  /** No completion makes a step between the steps of another. */
  ghost predicate Serial(es: seq<Event>) {
    es == [] || (Serial(Front(es)) && (Order(Last(es)) > 0 ==> Front(es) != [] && Follows(Last(Front(es)), Last(es))))
  }

  predicate Follows(e: Event, f: Event) { e.req == f.req && Order(f) == Order(e) + 1 }

  /** What holds between the steps of a serialised completion. */
  ghost predicate SerialInv(es: seq<Event>, stamps: Stamps) {
    var m := Exec(es, stamps);
    && Increasing(m.sent) && (forall s :: s in m.sent ==> 0 < s.time <= m.last)
    && (es != [] ==> match Last(es)
          case CompareClock(r) => r in m.late || Value(m.made, r) > m.last
          case ReadClock(r) => Value(m.made, r) > m.last
          case WriteClock(r) => forall s :: s in m.sent ==> s.time < m.last
          case ReloadClock(r) => Value(m.told, r) == m.last && forall s :: s in m.sent ==> s.time < m.last
          case SendShutter(_) => true)
  }

  lemma IncreasingAppend(sent: seq<Sent>, s: Sent)
    requires Increasing(sent) && forall x :: x in sent ==> x.time < s.time
    ensures Increasing(sent + [s])
  {
  }

  lemma SerialStep(es: seq<Event>, stamps: Stamps)
    requires Proper(es) && Serial(es) && es != [] && SerialInv(Front(es), stamps)
    ensures SerialInv(es, stamps)
  {
    var e, front := Last(es), Front(es);
    MemInv(front, stamps);
    LastIs(front, stamps);
    if e.ReloadClock? {
      assert Writer(front) == Some(e.req);
      ToldIs(front, stamps, e.req);
    }
    if e.SendShutter? {
      IncreasingAppend(Exec(front, stamps).sent, Sent(e.req, Told(front, stamps, e.req)));
    }
  }

  /** Serialised completions send strictly increasing, positive times, whatever the sensor says. */
  lemma {:induction false} SerialIncreases(es: seq<Event>, stamps: Stamps)
    requires Proper(es) && Serial(es)
    ensures SerialInv(es, stamps)
  {
    if es != [] {
      SerialIncreases(Front(es), stamps);
      SerialStep(es, stamps);
    }
  }

  lemma Extend(es: seq<Event>, e: Event, stamps: Stamps)
    ensures Exec(es + [e], stamps) == MemStep(Exec(es, stamps), e, stamps)
    ensures forall r :: Stage(es + [e], r) == Stage(es, r) + if e.req == r then 1 else 0
    ensures Proper(es + [e]) <==> Proper(es) && Order(e) == Stage(es, e.req)
  {
    assert Front(es + [e]) == es && Last(es + [e]) == e;
  }

  /** The steps of one completion up to its write, and after it. */
  function UpToWrite(r: nat): seq<Event> { [CompareClock(r)] + [ReadClock(r)] + [WriteClock(r)] }

  function FromReload(r: nat): seq<Event> { [ReloadClock(r)] + [SendShutter(r)] }

  /** All steps of one completion. */
  function Whole(r: nat): seq<Event> { UpToWrite(r) + FromReload(r) }

  /** Nothing of another completion changes. */
  ghost predicate OthersKept(m: Mem, m': Mem, r: nat) {
    forall x :: x != r ==> Value(m'.made, x) == Value(m.made, x) && Value(m'.told, x) == Value(m.told, x) &&
                           (x in m'.late <==> x in m.late)
  }

  lemma ToWrite(es: seq<Event>, r: nat, stamps: Stamps)
    requires Proper(es) && Stage(es, r) == 0
    ensures var es', m := es + UpToWrite(r), Exec(es, stamps);
      var m' := Exec(es', stamps);
      && Proper(es') && (forall x :: Stage(es', x) == if x == r then 3 else Stage(es, x))
      && m'.last == ShutterTime(m.last, stamps(r)) && m'.sent == m.sent && OthersKept(m, m', r)
      && (r in m'.late <==> StampOf(stamps(r)) <= m.last) && (r !in m'.late ==> Value(m'.told, r) == m'.last)
  {
    hide Exec, Stage, Proper;
    MemInv(es, stamps);
    Extend(es, CompareClock(r), stamps);
    Extend(es + [CompareClock(r)], ReadClock(r), stamps);
    Extend(es + [CompareClock(r)] + [ReadClock(r)], WriteClock(r), stamps);
    assert es + UpToWrite(r) == es + [CompareClock(r)] + [ReadClock(r)] + [WriteClock(r)];
  }

  lemma ToSend(es: seq<Event>, r: nat, stamps: Stamps)
    requires Proper(es) && Stage(es, r) == 3
    ensures var es', m := es + FromReload(r), Exec(es, stamps);
      var m' := Exec(es', stamps);
      && Proper(es') && (forall x :: Stage(es', x) == if x == r then 5 else Stage(es, x))
      && m'.last == m.last && OthersKept(m, m', r)
      && m'.sent == m.sent + [Sent(r, if r in m.late then m.last else Value(m.told, r))]
  {
    hide Exec, Stage, Proper;
    Extend(es, ReloadClock(r), stamps);
    Extend(es + [ReloadClock(r)], SendShutter(r), stamps);
    assert es + FromReload(r) == es + [ReloadClock(r)] + [SendShutter(r)];
  }

  /** A completion that nothing comes between. */
  lemma Alone(es: seq<Event>, r: nat, stamps: Stamps)
    requires Proper(es) && Stage(es, r) == 0
    ensures var es', m := es + Whole(r), Exec(es, stamps);
      var m', t := Exec(es', stamps), ShutterTime(m.last, stamps(r));
      && Proper(es') && (forall x :: Stage(es', x) == if x == r then 5 else Stage(es, x))
      && m'.last == t && m'.sent == m.sent + [Sent(r, t)] && OthersKept(m, m', r)
  {
    hide Exec, Stage, Proper;
    ToWrite(es, r, stamps);
    ToSend(es + UpToWrite(r), r, stamps);
    assert es + Whole(r) == es + UpToWrite(r) + FromReload(r);
  }

  // ---------------------------------------------------------------- failing interleavings

  /** Two completions that compare, read and write alternately. */
  function Together(a: nat, b: nat): seq<Event> {
    [CompareClock(a), CompareClock(b), ReadClock(a), ReadClock(b), WriteClock(a), WriteClock(b)]
  }

  lemma TogetherIs(es: seq<Event>, a: nat, b: nat, stamps: Stamps)
    requires Proper(es) && a != b && Stage(es, a) == 0 && Stage(es, b) == 0
    requires stamps(a).None? && stamps(b).None?
    ensures var es', m := es + Together(a, b), Exec(es, stamps);
      var m' := Exec(es', stamps);
      && Proper(es') && Stage(es', a) == 3 && Stage(es', b) == 3
      && m'.last == m.last + STEP_NS && m'.sent == m.sent && a in m'.late && b in m'.late
  {
    hide Exec, Stage, Proper;
    MemInv(es, stamps);
    var e1 := es + [CompareClock(a)];
    var e2 := e1 + [CompareClock(b)];
    var e3 := e2 + [ReadClock(a)];
    var e4 := e3 + [ReadClock(b)];
    var e5 := e4 + [WriteClock(a)];
    Extend(es, CompareClock(a), stamps);
    Extend(e1, CompareClock(b), stamps);
    Extend(e2, ReadClock(a), stamps);
    Extend(e3, ReadClock(b), stamps);
    Extend(e4, WriteClock(a), stamps);
    Extend(e5, WriteClock(b), stamps);
    assert es + Together(a, b) == e5 + [WriteClock(b)];
  }

  /** Two completions that read before either writes, without a later sensor time, send the same time. */
  lemma OverlapRepeats(es: seq<Event>, stamps: Stamps, a: nat, b: nat)
    requires Proper(es) && a != b && Stage(es, a) == 0 && Stage(es, b) == 0
    requires stamps(a).None? && stamps(b).None?
    ensures var t := Exec(es, stamps).last + STEP_NS;
      var run := es + Together(a, b) + FromReload(a) + FromReload(b);
      Proper(run) && Exec(run, stamps).sent == Exec(es, stamps).sent + [Sent(a, t)] + [Sent(b, t)]
  {
    hide Exec, Stage, Proper;
    TogetherIs(es, a, b, stamps);
    var e6 := es + Together(a, b);
    ToSend(e6, a, stamps);
    ToSend(e6 + FromReload(a), b, stamps);
  }

  /** So do two completions that write one after the other, if the first reads again after the second has written. */
  lemma ReloadRepeats(es: seq<Event>, stamps: Stamps, a: nat, b: nat)
    requires Proper(es) && a != b && Stage(es, a) == 0 && Stage(es, b) == 0
    requires stamps(a).None? && stamps(b).None?
    ensures var t := Exec(es, stamps).last + 2 * STEP_NS;
      var run := es + UpToWrite(a) + UpToWrite(b) + FromReload(a) + FromReload(b);
      Proper(run) && Exec(run, stamps).sent == Exec(es, stamps).sent + [Sent(a, t)] + [Sent(b, t)]
  {
    hide Exec, Stage, Proper;
    MemInv(es, stamps);
    var e1 := es + UpToWrite(a);
    var e2 := e1 + UpToWrite(b);
    ToWrite(es, a, stamps);
    ToWrite(e1, b, stamps);
    ToSend(e2, a, stamps);
    ToSend(e2 + FromReload(a), b, stamps);
  }

  /** Completion `d` compares and reads before the given events, and writes after them. */
  function Around(d: nat, es: seq<Event>): seq<Event> { [CompareClock(d), ReadClock(d)] + es + [WriteClock(d)] }

  /**
    A lost update: completion `d` of another camera reads before `a` and writes after it.  Then
    the next time of the camera of `a` is not built on the time of `a`, and with a sensor time
    for `a` alone it is the smaller one.
   */
  lemma LostUpdateRewinds(es: seq<Event>, stamps: Stamps, a: nat, d: nat, b: nat)
    requires Proper(es) && a != b && b != d && d != a && Stage(es, a) == 0 && Stage(es, b) == 0 && Stage(es, d) == 0
    requires stamps(b).None? && stamps(d).None?
    requires stamps(a).Some? && stamps(a).value > Exec(es, stamps).last + 2 * STEP_NS
    ensures var run, m := es + Around(d, Whole(a)) + Whole(b), Exec(es, stamps);
      Proper(run) && Exec(run, stamps).sent == m.sent + [Sent(a, stamps(a).value)] + [Sent(b, m.last + 2 * STEP_NS)]
  {
    hide Exec, Stage, Proper;
    MemInv(es, stamps);
    var e1 := es + [CompareClock(d)] + [ReadClock(d)];
    var e2 := e1 + Whole(a);
    var e3 := e2 + [WriteClock(d)];
    LateRead(es, d, stamps);
    Alone(e1, a, stamps);
    Extend(e2, WriteClock(d), stamps);
    assert Exec(e3, stamps).last == Exec(es, stamps).last + STEP_NS;
    Alone(e3, b, stamps);
    assert es + Around(d, Whole(a)) == e3;
  }

  /** A completion without a sensor time, up to its read. */
  lemma LateRead(es: seq<Event>, d: nat, stamps: Stamps)
    requires Proper(es) && Stage(es, d) == 0 && stamps(d).None?
    ensures var es', m := es + [CompareClock(d)] + [ReadClock(d)], Exec(es, stamps);
      var m' := Exec(es', stamps);
      && Proper(es') && (forall x :: Stage(es', x) == if x == d then 2 else Stage(es, x))
      && m'.last == m.last && m'.sent == m.sent && Value(m'.made, d) == m.last + STEP_NS
  {
    hide Exec, Stage, Proper;
    MemInv(es, stamps);
    Extend(es, CompareClock(d), stamps);
    Extend(es + [CompareClock(d)], ReadClock(d), stamps);
  }
}
