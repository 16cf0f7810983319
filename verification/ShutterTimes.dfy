/**
  The shutter times of camera/3_4/camera.cpp.  A completion compares its sensor time with the
  last time.  If the sensor time is later it becomes the last time and is sent.  If not, the
  completion reads the last time, writes it back 1 ms later, and sends what it then reads again.
  All cameras share one static variable for the last time without a lock, so the accesses of
  completions of different cameras interleave freely.  Every access is a step of its own; a
  completion with a later sensor time makes the two additional reads as steps without effect.
 */
module ShutterTimes {
  import opened Basics

  /** 1 ms in the unit of the timestamps. */
  const STEP_NS: int := 1_000_000

  /** What the completion of request `req` does next. */
  datatype Event =
    | CompareClock(req: nat)
    | ReadClock(req: nat)
    | WriteClock(req: nat)
    | ReloadClock(req: nat)
    | SendShutter(req: nat)

  datatype Sent = Sent(req: nat, time: int)

  /**
    The shared last time; the completions whose sensor time was not later; the time that each
    completion writes; the time that it is going to send; and the times sent.
   */
  datatype Mem = Mem(last: int, late: set<nat>, made: map<nat, int>, told: map<nat, int>, sent: seq<Sent>)

  /** The sensor timestamp in the metadata of each request, if there is one. */
  type Stamps = nat -> Option<int>

  const START: Mem := Mem(0, {}, map[], map[], [])

  function StampOf(stamp: Option<int>): int { if stamp.Some? then stamp.value else 0 }

  /** The time of a completion on its own: the sensor's, or 1 ms after the last one if that is not later. */
  function ShutterTime(last: int, stamp: Option<int>): int {
    if StampOf(stamp) <= last then last + STEP_NS else StampOf(stamp)
  }

  function Value(m: map<nat, int>, r: nat): int { if r in m then m[r] else 0 }

  function MemStep(m: Mem, e: Event, stamps: Stamps): Mem {
    match e
    case CompareClock(r) =>
      var t := StampOf(stamps(r));
      if t <= m.last then m.(late := m.late + {r}, told := m.told[r := t])
      else m.(made := m.made[r := t], told := m.told[r := t])
    case ReadClock(r) => if r in m.late then m.(made := m.made[r := m.last + STEP_NS]) else m
    case WriteClock(r) => m.(last := Value(m.made, r))
    case ReloadClock(r) => if r in m.late then m.(told := m.told[r := m.last]) else m
    case SendShutter(r) => m.(sent := m.sent + [Sent(r, Value(m.told, r))])
  }

  function Front<T>(s: seq<T>): (r: seq<T>)
    requires s != []
    ensures |r| == |s| - 1
  {
    s[..|s| - 1]
  }

  function Last<T>(s: seq<T>): T
    requires s != []
  {
    s[|s| - 1]
  }

  function Exec(es: seq<Event>, stamps: Stamps): Mem {
    if es == [] then START else MemStep(Exec(Front(es), stamps), Last(es), stamps)
  }

  /** The time that request `r` writes, and the time that it sends. */
  function Made(es: seq<Event>, stamps: Stamps, r: nat): int { Value(Exec(es, stamps).made, r) }

  function Told(es: seq<Event>, stamps: Stamps, r: nat): int { Value(Exec(es, stamps).told, r) }

  /** How many of its five steps the completion of `r` has made. */
  function Stage(es: seq<Event>, r: nat): nat {
    if es == [] then 0 else Stage(Front(es), r) + if Last(es).req == r then 1 else 0
  }

  function Order(e: Event): nat {
    match e
    case CompareClock(_) => 0
    case ReadClock(_) => 1
    case WriteClock(_) => 2
    case ReloadClock(_) => 3
    case SendShutter(_) => 4
  }

  /** Every completion makes each of its steps once, in this order. */
  ghost predicate Proper(es: seq<Event>) {
    es == [] || (Proper(Front(es)) && Order(Last(es)) == Stage(Front(es), Last(es).req))
  }

  // ---------------------------------------------------------------- which times depend on which

  /** Whose time the shared variable holds. */
  function Writer(es: seq<Event>): Option<nat> {
    if es == [] then None else if Last(es).WriteClock? then Some(Last(es).req) else Writer(Front(es))
  }

  /** Whose time the shared variable held when `r` read it again: its own, or one written since. */
  function Source(es: seq<Event>, r: nat): nat {
    if es == [] then r
    else if Last(es) == ReloadClock(r) then (if Writer(Front(es)).Some? then Writer(Front(es)).value else r)
    else Source(Front(es), r)
  }

  /** The shared variable holds the time of `a`, or one that was built on it. */
  predicate Based(es: seq<Event>, a: nat)
    decreases |es|, 2
  {
    Writer(es).Some? && (Writer(es).value == a || Builds(es, a, Writer(es).value))
  }

  /** It did so when `b` compared its sensor time with it. */
  predicate AtCompare(es: seq<Event>, a: nat, b: nat)
    decreases |es|, 0
  {
    es != [] && if Last(es) == CompareClock(b) then Based(Front(es), a) else AtCompare(Front(es), a, b)
  }

  /** It did so when `b` read it to add 1 ms. */
  predicate AtRead(es: seq<Event>, a: nat, b: nat)
    decreases |es|, 0
  {
    es != [] && if Last(es) == ReadClock(b) then Based(Front(es), a) else AtRead(Front(es), a, b)
  }

  /** The time that `b` writes is built on the time of `a`, whether its sensor time is later or not. */
  predicate Builds(es: seq<Event>, a: nat, b: nat)
    decreases |es|, 1
  {
    AtCompare(es, a, b) && AtRead(es, a, b)
  }

  lemma {:induction false} WriterWrote(es: seq<Event>)
    requires Proper(es)
    ensures Writer(es).Some? ==> Stage(es, Writer(es).value) >= 3
    ensures forall r :: Stage(es, r) >= 3 ==> Writer(es).Some?
  {
    if es != [] {
      WriterWrote(Front(es));
    }
  }

  /** Which values are there, and their signs. */
  lemma {:induction false} MemInv(es: seq<Event>, stamps: Stamps)
    requires Proper(es)
    ensures Exec(es, stamps).last >= 0
    ensures forall r :: r in Exec(es, stamps).late ==> Stage(es, r) >= 1
    ensures forall r :: r in Exec(es, stamps).made <==>
      (Stage(es, r) >= 1 && r !in Exec(es, stamps).late) || Stage(es, r) >= 2
    ensures forall r :: r in Exec(es, stamps).made ==> Exec(es, stamps).made[r] > 0
    ensures forall r :: Stage(es, r) >= 1 && stamps(r).None? ==> r in Exec(es, stamps).late
  {
    if es != [] {
      MemInv(Front(es), stamps);
    }
  }

  /** The shared variable holds the time its writer made. */
  lemma {:induction false} LastIs(es: seq<Event>, stamps: Stamps)
    requires Proper(es)
    ensures Writer(es).None? ==> Exec(es, stamps).last == 0
    ensures Writer(es).Some? ==> Exec(es, stamps).last == Made(es, stamps, Writer(es).value)
  {
    if es != [] {
      WriterWrote(Front(es));
      LastIs(Front(es), stamps);
    }
  }

  /** A completion sends the time it made if its sensor time was later, else the one it found in the end. */
  lemma {:induction false} ToldIs(es: seq<Event>, stamps: Stamps, r: nat)
    requires Proper(es) && Stage(es, r) >= 1
    ensures r !in Exec(es, stamps).late ==> Told(es, stamps, r) == Made(es, stamps, r) == StampOf(stamps(r))
    ensures r in Exec(es, stamps).late && Stage(es, r) >= 4 ==>
      Stage(es, Source(es, r)) >= 3 && Told(es, stamps, r) == Made(es, stamps, Source(es, r))
  {
    var e, front := Last(es), Front(es);
    MemInv(front, stamps);
    if e.req == r {
      LastIs(front, stamps);
      WriterWrote(front);
    }
    if Stage(front, r) >= 1 {
      ToldIs(front, stamps, r);
    }
  }

  /** What a completion depends on is settled once it has read. */
  lemma BuildsFront(es: seq<Event>, a: nat, b: nat)
    requires Proper(es) && es != []
    ensures Stage(Front(es), b) >= 1 ==> AtCompare(es, a, b) == AtCompare(Front(es), a, b)
    ensures Stage(Front(es), b) >= 2 ==> AtRead(es, a, b) == AtRead(Front(es), a, b)
    ensures Stage(Front(es), b) >= 2 ==> Builds(es, a, b) == Builds(Front(es), a, b)
  {
  }

  /** How the last event changes what the shared variable is based on. */
  lemma BasedFront(es: seq<Event>, a: nat)
    requires Proper(es) && es != []
    ensures Based(es, a) <==> if Last(es).WriteClock? then Last(es).req == a || Builds(Front(es), a, Last(es).req)
                              else Based(Front(es), a)
  {
    WriterWrote(Front(es));
    if Last(es).WriteClock? {
      BuildsFront(es, a, Last(es).req);
    } else if Writer(es).Some? {
      BuildsFront(es, a, Writer(es).value);
    }
  }

  /** A time made is later than every time it was built on, whatever the sensor says. */
  lemma {:induction false} Above(es: seq<Event>, stamps: Stamps, a: nat)
    requires Proper(es)
    ensures Based(es, a) ==> Stage(es, a) >= 3 && Made(es, stamps, a) <= Exec(es, stamps).last
    ensures forall b :: AtCompare(es, a, b) ==>
      && Stage(es, a) >= 3 && Stage(es, b) >= 1
      && (b !in Exec(es, stamps).late ==> Made(es, stamps, a) < Made(es, stamps, b))
    ensures forall b :: AtRead(es, a, b) ==>
      && Stage(es, a) >= 3 && Stage(es, b) >= 2
      && (b in Exec(es, stamps).late ==> Made(es, stamps, a) < Made(es, stamps, b))
  {
    if es != [] {
      MemInv(es, stamps);
      MemInv(Front(es), stamps);
      Above(Front(es), stamps, a);
      BasedFront(es, a);
    }
  }

  lemma BuildsIsLater(es: seq<Event>, stamps: Stamps, a: nat, b: nat)
    requires Proper(es) && Builds(es, a, b)
    ensures Stage(es, a) >= 3 && Stage(es, b) >= 2 && Made(es, stamps, a) < Made(es, stamps, b)
  {
    Above(es, stamps, a);
  }

  // ---------------------------------------------------------------- who had done what

  /** When event `e` came, the completion of `a` had made `n` steps. */
  predicate Had(es: seq<Event>, e: Event, a: nat, n: nat) {
    es != [] && if Last(es) == e then Stage(Front(es), a) >= n else Had(Front(es), e, a, n)
  }

  lemma {:induction false} HadIs(es: seq<Event>, e: Event, a: nat, n: nat)
    requires Proper(es) && Had(es, e, a, n)
    ensures Stage(es, a) >= n && Stage(es, e.req) > Order(e)
  {
    if Last(es) == e {
      assert Order(e) == Stage(Front(es), e.req);
    } else {
      HadIs(Front(es), e, a, n);
    }
  }

  /** What was done before a comparison was done before the read that follows it. */
  lemma {:induction false} HadAtRead(es: seq<Event>, a: nat, b: nat, n: nat)
    requires Proper(es) && Stage(es, b) >= 2 && Had(es, CompareClock(b), a, n)
    ensures Had(es, ReadClock(b), a, n)
  {
    if Last(es) == ReadClock(b) {
      HadIs(Front(es), CompareClock(b), a, n);
    } else {
      HadAtRead(Front(es), a, b, n);
    }
  }

  lemma {:induction false} BasedHad(es: seq<Event>, a: nat, b: nat)
    requires Proper(es)
    ensures AtCompare(es, a, b) ==> Had(es, CompareClock(b), a, 3)
    ensures AtRead(es, a, b) ==> Had(es, ReadClock(b), a, 3)
  {
    if es != [] {
      Above(Front(es), _ => None, a);
      BasedHad(Front(es), a, b);
    }
  }

  /** Whoever wrote after `a` had not written when `a` read. */
  lemma {:induction false} WriterAfterRead(es: seq<Event>, a: nat)
    requires Proper(es) && Stage(es, a) >= 3 && Writer(es).Some? && Writer(es).value != a
    ensures !Had(es, ReadClock(a), Writer(es).value, 3)
  {
    if Last(es).WriteClock? {
      if Had(Front(es), ReadClock(a), Last(es).req, 3) {
        HadIs(Front(es), ReadClock(a), Last(es).req, 3);
      }
    } else {
      WriterAfterRead(Front(es), a);
    }
  }

  lemma {:induction false} SourceNotRead(es: seq<Event>, a: nat)
    requires Proper(es) && Stage(es, a) >= 4 && Source(es, a) != a
    ensures !AtRead(es, Source(es, a), a)
  {
    if Last(es) == ReloadClock(a) {
      WriterWrote(Front(es));
      WriterAfterRead(Front(es), a);
      BasedHad(Front(es), Source(es, a), a);
    } else {
      SourceNotRead(Front(es), a);
    }
  }

  // ---------------------------------------------------------------- a sensor that breaks the order

  /** How many events came before `r` compared. */
  function ComparedAt(es: seq<Event>, r: nat): nat {
    if es == [] then 0 else if Last(es) == CompareClock(r) then |es| - 1 else ComparedAt(Front(es), r)
  }

  /**
    A sensor with a large time for `u` that keeps small all times not built on it: such a
    completion gets no sensor time if its read does not depend on `u`, or one just after the
    last time if its comparison does not.
   */
  ghost predicate Against(es: seq<Event>, stamps: Stamps, u: nat) {
    && stamps(u).Some? && stamps(u).value > |es| * STEP_NS
    && (forall r :: r != u && Stage(es, r) >= 1 && stamps(r).Some? ==>
          stamps(r).value == ComparedAt(es, r) * STEP_NS + 1)
    && (forall r :: r != u && Stage(es, r) >= 2 && !Builds(es, u, r) ==>
          if stamps(r).None? then !AtRead(es, u, r) else !AtCompare(es, u, r))
  }

  lemma AgainstFront(es: seq<Event>, stamps: Stamps, u: nat)
    requires Proper(es) && es != [] && Against(es, stamps, u)
    ensures Against(Front(es), stamps, u)
  {
    var front := Front(es);
    forall r | r != u && Stage(front, r) >= 1 && stamps(r).Some?
      ensures stamps(r).value == ComparedAt(front, r) * STEP_NS + 1
    {
      assert Stage(es, r) >= 1 && Last(es) != CompareClock(r);
    }
    forall r | r != u && Stage(front, r) >= 2 && !Builds(front, u, r)
      ensures if stamps(r).None? then !AtRead(front, u, r) else !AtCompare(front, u, r)
    {
      BuildsFront(es, u, r);
      assert Stage(es, r) >= 2;
    }
  }

  /** All times that are not built on `u` are small. */
  ghost predicate Small(es: seq<Event>, stamps: Stamps, u: nat) {
    var m := Exec(es, stamps);
    && (!Based(es, u) ==> m.last <= |es| * STEP_NS)
    && (Stage(es, u) >= 1 ==> u !in m.late && Value(m.made, u) == StampOf(stamps(u)))
    && (forall r :: r != u && Stage(es, r) >= 1 && stamps(r).Some? && !AtCompare(es, u, r) ==>
          r !in m.late && Value(m.made, r) <= |es| * STEP_NS)
    && (forall r :: r != u && Stage(es, r) >= 2 && stamps(r).None? && !AtRead(es, u, r) ==>
          Value(m.made, r) <= |es| * STEP_NS)
  }

  lemma SmallCompare(es: seq<Event>, stamps: Stamps, u: nat)
    requires Proper(es) && es != [] && Last(es).CompareClock? && Against(es, stamps, u) && Small(Front(es), stamps, u)
    ensures Small(es, stamps, u)
  {
    MemInv(Front(es), stamps);
    Above(Front(es), stamps, u);
    BasedFront(es, u);
  }

  lemma SmallRead(es: seq<Event>, stamps: Stamps, u: nat)
    requires Proper(es) && es != [] && Last(es).ReadClock? && Small(Front(es), stamps, u)
    ensures Small(es, stamps, u)
  {
    MemInv(Front(es), stamps);
    BasedFront(es, u);
  }

  lemma SmallWrite(es: seq<Event>, stamps: Stamps, u: nat)
    requires Proper(es) && es != [] && Last(es).WriteClock? && Against(Front(es), stamps, u)
    requires Small(Front(es), stamps, u)
    ensures Small(es, stamps, u)
  {
    BasedFront(es, u);
  }

  lemma SmallOther(es: seq<Event>, stamps: Stamps, u: nat)
    requires Proper(es) && es != [] && (Last(es).ReloadClock? || Last(es).SendShutter?) && Small(Front(es), stamps, u)
    ensures Small(es, stamps, u)
  {
    BasedFront(es, u);
  }

  lemma {:induction false} Below(es: seq<Event>, stamps: Stamps, u: nat)
    requires Proper(es) && Against(es, stamps, u)
    ensures Small(es, stamps, u)
  {
    if es != [] {
      AgainstFront(es, stamps, u);
      assert Proper(Front(es));
      hide Small, Proper, Against;
      Below(Front(es), stamps, u);
      match Last(es)
      case CompareClock(_) => SmallCompare(es, stamps, u);
      case ReadClock(_) => SmallRead(es, stamps, u);
      case WriteClock(_) => SmallWrite(es, stamps, u);
      case _ => SmallOther(es, stamps, u);
    } else {
      assert Small(es, stamps, u);
    }
  }

  /** The large sensor time of `u` is sent by `u`, and by every late completion that found it in the end. */
  lemma LargeTold(es: seq<Event>, stamps: Stamps, u: nat, a: nat)
    requires Proper(es) && Against(es, stamps, u) && Stage(es, a) >= 4
    requires a == u || (Source(es, a) == u && stamps(a).None?)
    ensures Told(es, stamps, a) == stamps(u).value
  {
    Below(es, stamps, u);
    MemInv(es, stamps);
    ToldIs(es, stamps, a);
  }

  /**
    A sensor with a large time for `u` and small ones, or none, for the others.  Completion `b`
    gets a time exactly if `give` says so.
   */
  function Breaker(es: seq<Event>, u: nat, b: nat, give: bool): Stamps {
    (r: nat) =>
         if r == u then Some(|es| * STEP_NS + 1)
         else if if r == b then give else AtRead(es, u, r) && !AtCompare(es, u, r)
           then Some(ComparedAt(es, r) * STEP_NS + 1)
           else None
  }

  lemma BreakerAgainst(es: seq<Event>, u: nat, b: nat, give: bool)
    requires || b == u || Stage(es, b) < 2 || Builds(es, u, b)
             || (if give then !AtCompare(es, u, b) else !AtRead(es, u, b))
    ensures Against(es, Breaker(es, u, b, give), u)
  {
  }

  /**
    Whatever `b` may send is built on the time of `u`: its sensor time if that is later, and
    else what it finds in the end, its own time or another one.
   */
  predicate After(es: seq<Event>, u: nat, b: nat) {
    && AtCompare(es, u, b)
    && if Source(es, b) == b then AtRead(es, u, b) else Builds(es, u, Source(es, b))
  }

  /** Whatever `b` may send is built on whatever `a` may send. */
  predicate Later(es: seq<Event>, a: nat, b: nat) {
    After(es, a, b) && After(es, Source(es, a), b)
  }

  lemma AfterTold(es: seq<Event>, stamps: Stamps, u: nat, b: nat)
    requires Proper(es) && Stage(es, b) >= 4 && After(es, u, b)
    ensures Made(es, stamps, u) < Told(es, stamps, b)
  {
    Above(es, stamps, u);
    ToldIs(es, stamps, b);
  }

  lemma LaterTold(es: seq<Event>, stamps: Stamps, a: nat, b: nat)
    requires Proper(es) && Stage(es, a) >= 4 && Stage(es, b) >= 4 && Later(es, a, b)
    ensures Told(es, stamps, a) < Told(es, stamps, b)
  {
    ToldIs(es, stamps, a);
    AfterTold(es, stamps, a, b);
    AfterTold(es, stamps, Source(es, a), b);
  }

  /** If `b` may send a time that is not built on `u`, it sends no later time than `u` makes for some sensor. */
  lemma NotAfter(es: seq<Event>, u: nat, b: nat) returns (stamps: Stamps)
    requires Proper(es) && u != b && Stage(es, u) >= 3 && Stage(es, b) >= 4 && !After(es, u, b)
    ensures Against(es, stamps, u) && Told(es, stamps, b) <= stamps(u).value
    ensures forall r :: r != u && r != b && !AtRead(es, u, r) ==> stamps(r).None?
  {
    var give := !AtCompare(es, u, b);
    stamps := Breaker(es, u, b, give);
    BreakerAgainst(es, u, b, give);
    Below(es, stamps, u);
    MemInv(es, stamps);
    ToldIs(es, stamps, b);
  }

  /** If something that `b` may send is not built on something that `a` may send, some sensor breaks the order. */
  lemma NotLater(es: seq<Event>, a: nat, b: nat) returns (stamps: Stamps)
    requires Proper(es) && a != b && Stage(es, a) >= 4 && Stage(es, b) >= 4 && !Later(es, a, b)
    ensures Told(es, stamps, b) <= Told(es, stamps, a)
  {
    var u := Source(es, a);
    if !After(es, a, b) {
      stamps := NotAfter(es, a, b);
      LargeTold(es, stamps, a, a);
    } else {
      SourceNotRead(es, a);
      SourceWrote(es, a);
      if u == b {
        stamps := Breaker(es, u, a, false);
        BreakerAgainst(es, u, a, false);
        LargeTold(es, stamps, u, b);
      } else {
        stamps := NotAfter(es, u, b);
      }
      LargeTold(es, stamps, u, a);
    }
  }

  lemma {:induction false} SourceWrote(es: seq<Event>, a: nat)
    requires Proper(es) && Stage(es, a) >= 4
    ensures Stage(es, Source(es, a)) >= 3
  {
    if Last(es) == ReloadClock(a) {
      WriterWrote(Front(es));
    } else {
      SourceWrote(Front(es), a);
    }
  }

  /**
    Completion `b` sends a later time than `a` for every sensor exactly when whatever `b` may
    send is built on whatever `a` may send.
   */
  lemma LaterIff(es: seq<Event>, a: nat, b: nat)
    requires Proper(es) && a != b && Stage(es, a) >= 4 && Stage(es, b) >= 4
    ensures (forall stamps: Stamps :: Told(es, stamps, a) < Told(es, stamps, b)) <==> Later(es, a, b)
  {
    if Later(es, a, b) {
      forall stamps: Stamps ensures Told(es, stamps, a) < Told(es, stamps, b) {
        LaterTold(es, stamps, a, b);
      }
    } else {
      var stamps := NotLater(es, a, b);
    }
  }
}
